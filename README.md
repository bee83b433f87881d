# Contact assistant: a verified model of the contact book

This project models the core of a command-line contact assistant. It has three parts:

- **The field validators.** Phone numbers must be 9 to 14 digits. Birthdays are `DD.MM.YYYY` with Gregorian month lengths. E-mail addresses must match a regular expression.
- **The data layer.** A contact `Record` whose methods update its fields in place. An `AddressBook`, which is an insertion-ordered dictionary from a contact's name to its record. The upcoming-birthday query.
- **The assistant's commands.** Each command looks a contact up, changes it or the book, and answers with an outcome.

The modules are:

- `Results`: Option, Outcome and Result values.
- `Text`: the Python string built-ins the source relies on (`isdigit`, `int`, `lower`, `in`, `split`, `join`, `<` and `sorted`), restricted to ASCII.
- `Dates`: `datetime.date` as the source uses it: years 1..9999, comparison, `toordinal()` and `replace(year=...)`.
- `Lists`: the comprehension filter, `del`/assignment at the first match, and a dict's key order.
- `Validator`: the three validators.
- `Models`: the `Record` class, the `AddressBook` class and the birthday window. A `Record` has the source's fields; `View()` is its value at one moment, a `Contact`. An `AddressBook` holds `keys`, the dict's insertion order, and `data`, its entries. `Valid()` says three things:
  - the keys are listed once each;
  - every record is stored under its own name;
  - every record is well formed: validated phones, a real birthday, a validated e-mail, and lower-case tags.

  Every method keeps `Valid()`.
- `Core`: the commands. Python's exceptions become values. A method that raises leaves the record unchanged and returns `Fail`. `exception_handler`'s two answers become `Failed(ContactNotFound)` for a KeyError and `Failed(Refused(why))` for any other exception. A command's reply says which outcome it gave, not its text.

Queries return the contacts they would render, in book order. The upcoming-birthday query is the exception: it returns the records themselves, as the source does.

## Model

| member | source | states |
|---|---|---|
| Validator.ValidatePhone | assistant/validator.py:7-11 | a phone is accepted, unchanged, exactly when it is all digits and 9 to 14 characters long |
| Validator.ValidateBirthday | assistant/validator.py:15-42 | an accepted birthday is a date `datetime.date` can hold |
| Validator.BirthdayAcceptance | assistant/validator.py:15-42 | a text is accepted as date d exactly when it is `a.b.c` with three digit runs, a four-character year run, and the runs read as the day, month and year of a valid d |
| Validator.MonthCheckedBeforeYear | assistant/validator.py:27-30 | a month outside 1..12 is the error reported, whatever the width of the year |
| Validator.BadFormatIff | assistant/validator.py:17-22 | the "Invalid date format" error is the answer exactly when the text is not three non-empty runs of digits joined by two dots |
| Validator.EmptyRunRejected | assistant/validator.py:17-22 | an empty run between, before or after the dots is a format error |
| Validator.DayChecked | assistant/validator.py:32-42 | with a valid month and year, the day is accepted exactly in 1..last day of the month (29 in February of a leap year), and the error names that last day |
| Validator.DayLeadingZero | assistant/validator.py:20-25 | an extra leading zero on the day changes nothing, because `int` ignores it |
| Validator.MonthLeadingZero | assistant/validator.py:20-30 | an extra leading zero on the month changes nothing; only the year's width is checked |
| Validator.LeapDay2000 | assistant/validator.py:32-34 | `29.02.2000` is accepted as 29 February 2000 |
| Validator.LeapDay1900 | assistant/validator.py:32-41 | `29.02.1900` is refused: February 1900 has 28 days |
| Validator.AprilHasThirty | assistant/validator.py:35-41 | `31.04.2020` is refused: April has 30 days |
| Validator.YearZeroRefused | assistant/validator.py:29-42 | year 0000 passes the explicit checks and is refused when the date is built |
| Validator.ValidateEmail | assistant/validator.py:45-51 | an address is accepted exactly when the pattern matches the whole text, or the whole text but one final newline |
| Validator.EmailShapeIff | assistant/validator.py:45-51 | the model's split at the first '@' and the first following '.' agrees with the pattern read as local part, '@', domain label, '.', suffix at any positions |
| Validator.EmailHasOneAt | assistant/validator.py:50-51 | an accepted address holds exactly one '@' |
| Validator.EmailTrailingNewline | assistant/validator.py:50-51 | `$` lets one final newline through: `s + "\n"` is accepted exactly when `s` has the e-mail shape |
| Models.FormatBirthday | assistant/models.py:36-38 | a birthday is displayed as ten characters: two digits of the day, '.', two digits of the month, '.', four digits of the year, which read back as the date's fields |
| Models.BirthdayRoundTrip | assistant/models.py:31-39 | a stored birthday, displayed as `DD.MM.YYYY`, is accepted again as the same date |
| Models.CanonicalBirthdayText | assistant/models.py:31-39 | an accepted ten-character text with its first dot third is displayed exactly as typed |
| Models.NewEmail | assistant/models.py:185-191 | the setter stores the text exactly when validate_email accepts it, and otherwise raises |
| Models.LowerTags | assistant/models.py:136-137 | each given text's lower-case form is a tag, and every tag is lower case |
| Models.LowerTagsBySet | assistant/models.py:136-137 | the tags added depend only on which texts were given, not on their order or repetition; all are lower case |
| Models.LowerTagsAppend | assistant/models.py:136-137 | adding tags in two calls adds the same tags as one call with all of them |
| Models.AddTagsIdempotent | assistant/models.py:136-137 | adding the same tags a second time, or twice within one call, leaves the tag set as it was |
| Models.TagsTextOrder | assistant/models.py:142-143 | the tag line is the tags in ascending order with ", " between neighbours: the least tag, then ", " and the line of the others when there are others |
| Models.NoTagsIff | assistant/models.py:142-143 | for lower-case tags, the line is "No tags" exactly when the set is empty |
| Models.TagsTextNamesEach | assistant/models.py:142-143 | the tag line names every tag |
| Models.Record.ShowTags | assistant/models.py:142-143 | a record's tag line is "No tags" exactly when it has no tags, and otherwise names every tag |
| Models.Record.constructor | assistant/models.py:48-55 | a new record has the name, no phones, birthday, e-mail, address or tags, and an empty note |
| Models.Record.SetAddress | assistant/models.py:57-63 | only the address changes, to the one given |
| Models.Record.RemoveAddress | assistant/models.py:65-67 | only the address changes, to none |
| Models.Record.AddPhone | assistant/models.py:69-72 | a valid phone is appended after the others; an invalid one raises and changes nothing |
| Models.Record.SetBirthday | assistant/models.py:74-76 | the birthday becomes the validated date; a refused text raises with the validator's reason and changes nothing |
| Models.Record.RemovePhone | assistant/models.py:78-87 | the first equal phone is deleted and the rest keep their order; raises exactly when no phone is equal |
| Models.Record.EditPhone | assistant/models.py:89-96 | the first equal phone is replaced in place by the validated new one; a missing old phone raises before the new one is validated |
| Models.Record.FindPhone | assistant/models.py:98-100 | a phone is found exactly when an equal one is stored |
| Models.Record.SetEmail | assistant/models.py:102-108 | the e-mail becomes the text when validate_email accepts it; otherwise it raises and the old e-mail stays |
| Models.Record.RemoveEmail | assistant/models.py:110-114 | the e-mail is cleared; raises exactly when none was set |
| Models.Record.Rename | assistant/models.py:116-118 | only the name changes |
| Models.Record.SetNote | assistant/models.py:120-126 | only the note changes |
| Models.Record.RemoveNote | assistant/models.py:128-130 | the note becomes empty and nothing else changes |
| Models.Record.AddTags | assistant/models.py:136-137 | the lower-cased texts join the tag set and every tag stays lower case |
| Models.Record.RemoveTag | assistant/models.py:139-140 | exactly the lower-cased tag leaves the set; nothing else changes |
| Models.NextOccurrence | assistant/models.py:221-227 | the next birthday has the same month and day, is not before today, and falls in next year only when this year's birthday has passed |
| Models.LeapDayBirthday | assistant/models.py:223-227 | a 29 February birthday makes `replace` raise unless this year is a leap year and its 29 February is still ahead |
| Models.OrdinaryBirthday | assistant/models.py:223-227 | any other birthday makes `replace` raise only in 9999, after that year's birthday |
| Models.NextOccurrenceAhead | assistant/models.py:223-229 | the next birthday is 0 to 365 days ahead |
| Models.BirthdayWithin | assistant/models.py:221-230 | for one record: `replace` raises exactly when the model says so; otherwise the record is listed exactly when its next birthday is 0 to `days` days ahead |
| Models.UpcomingIsFilter | assistant/models.py:213-232 | the query raises exactly when `replace` raises for some contact; otherwise it lists the contacts in the window in book order |
| Models.UpcomingSelects | assistant/models.py:213-232 | the query lists exactly the contacts in the window, each as often as the book holds it |
| Models.BirthdayToday | assistant/models.py:229 | a birthday falling today is listed for any window of 0 days or more |
| Models.WholeYearWindow | assistant/models.py:229 | with a window of 365 days or more, every contact with a birthday is listed |
| Models.MovedKey | assistant/models.py:239-242 | popping the old name and storing the new one leaves the key order a duplicate-free list of exactly the new dict's keys |
| Models.AddressBook.constructor | assistant/models.py:194-198 | a new book is empty |
| Models.AddressBook.AddRecord | assistant/models.py:200-202 | the record is stored under its name; an existing key keeps its place, a new key goes last |
| Models.AddressBook.FindRecord | assistant/models.py:204-206 | the stored record when the name is a key, otherwise none |
| Models.AddressBook.DeleteRecord | assistant/models.py:208-211 | the entry and its key leave the book when present; otherwise nothing changes |
| Models.AddressBook.RenameRecord | assistant/models.py:234-244 | the record is popped, renamed and stored under the new name, its key going where a `d[k] = v` puts it; a missing old name raises and changes nothing |
| Models.AddressBook.UpcomingBirthday | assistant/models.py:213-232 | the loop returns the records the book-order specification lists, or fails exactly when it does |
| Lists.RemoveFirstCounts | assistant/models.py:83-86 | deleting the first match takes one copy of the phone away and keeps every other |
| Lists.ReplaceFirstCounts | assistant/models.py:91-94 | replacing the first match trades one old phone for one new phone |
| Lists.PutIndex | assistant/models.py:202 | after `d[k] = v` every key already stored keeps its position, and a new key is found after all the others |
| Lists.ReinsertMovesLast | assistant/models.py:240-242 | popping a stored key and storing it again puts it behind every other key, the others keeping their order |
| Lists.RemoveFirstMembers | assistant/models.py:210-211 | after `del d[k]` exactly `k` has left the keys |
| Dates.MaxDay | assistant/validator.py:32-38 | the last day of a month is 28 to 31 |
| Dates.MonthsFillYear | assistant/validator.py:32-38 | the month lengths add up to the days-before-month table and to 365 or 366 days for the whole year |
| Dates.ReplaceYear | assistant/models.py:223 | `replace(year=y)` raises exactly when y leaves 1..9999, or the date is 29 February and y is not a leap year |
| Dates.OrdinalOrder | assistant/models.py:224-229 | comparing dates agrees with comparing their day numbers |
| Text.SortedSeq | assistant/core.py:352 | `sorted` of a set holds its elements, each once, in strictly increasing order |
| Text.JoinSplit | assistant/validator.py:17 | joining the pieces of a split with the separator gives back the text |
| Text.SplitJoin | assistant/validator.py:17-20 | splitting a join of separator-free pieces gives back the pieces |
| Text.ContainsInJoin | assistant/core.py:288 | a needle without the separator is found in the joined text exactly when some piece contains it |
| Core.SetAddress | assistant/core.py:7-30 | the named contact's address is set and the book keeps its keys and records; an unknown name is "Contact not found" and changes nothing |
| Core.RemoveAddress | assistant/core.py:33-43 | the named contact's address is cleared; an unknown name is "Contact not found" |
| Core.SetNote | assistant/core.py:94-117 | the named contact's note is set; an unknown name is "Contact not found" |
| Core.RemoveNote | assistant/core.py:120-130 | the named contact's note becomes empty; an unknown name is "Contact not found" |
| Core.RemovePhone | assistant/core.py:46-56 | the first equal phone of the named contact goes; a missing phone is the record's error; an unknown name is "Contact not found" |
| Core.ChangeContact | assistant/core.py:71-81 | the first equal phone is replaced by the validated new one; missing old phone, then invalid new phone, are the errors in that order |
| Core.SetEmail | assistant/core.py:215-230 | the e-mail becomes the text when valid; a refused one leaves the stored e-mail and reports the record's error |
| Core.RemoveEmail | assistant/core.py:233-246 | the e-mail is cleared; with none set, the reply is a warning, not a failure |
| Core.AddTags | assistant/core.py:296-305 | the lower-cased tags join the contact's set; an unknown name is "Contact not found" |
| Core.RemoveTags | assistant/core.py:308-319 | a tag the contact lacks is a warning and changes nothing; otherwise exactly that tag goes |
| Core.AddContact | assistant/core.py:59-68 | the phone is appended to the named contact, or a new contact with just that phone is stored last; an invalid phone leaves the book as it was |
| Core.AddBirthday | assistant/core.py:201-212 | an unknown name first gets an empty contact stored last, so a refused birthday still leaves it in the book; an accepted birthday is set on the contact |
| Core.DeleteContact | assistant/core.py:189-198 | the named entry and its key leave the book; an unknown name is "Contact not found" and changes nothing |
| Core.EditName | assistant/core.py:84-91 | the record moves to the new name with its name field changed; an unknown name is "Contact not found" and changes nothing |
| Core.ListedOnce | assistant/models.py:200-202 | no contact is listed twice in the book |
| Core.RecordMatches | assistant/core.py:165-172 | one record's test is the search predicate on its contents |
| Core.SearchContacts | assistant/core.py:157-178 | the loop returns the matching contacts in book order, and raises KeyError exactly when none matches |
| Core.SearchSelects | assistant/core.py:162-173 | the search lists exactly the contacts whose name, a phone, the e-mail or the non-empty note contains the lower-cased query, each as often as the book holds it |
| Core.EmptyQueryListsAll | assistant/core.py:162-172 | the empty query lists the whole book in order |
| Core.FoundByName | assistant/core.py:166 | a contact is found by its own name in any letter case |
| Core.SearchByTag | assistant/core.py:330-336 | a contact is in the result exactly when it is in the book and carries the lower-cased tag |
| Core.SearchByTagSelects | assistant/core.py:330-336 | the tag search lists every contact carrying the lower-cased tag, once each, and no other |
| Core.TagWords | assistant/core.py:287 | the lower-cased tags: one word per tag, each tag's lower form among them and nothing else |
| Core.SearchNotes | assistant/core.py:280-293 | the loop returns, in book order, the contacts whose lower-cased note or space-joined lower-cased tags contain the lower-cased query |
| Core.NoteMatchByTag | assistant/core.py:286-288 | for a query without spaces, a contact matches exactly when its note or one of its tags contains the query |
| Core.AllTagsIff | assistant/core.py:343-346 | the tag map's keys are exactly the tags some contact carries |
| Core.Grouped | assistant/core.py:343-346 | the tag map sends each tag to the contacts carrying it, in book order |
| Core.FileUnderTags | assistant/core.py:345-346 | one record is appended to the list of each of its tags, creating missing lists, and no other list changes |
| Core.FiledOneMore | assistant/core.py:344-346 | filing one more record keeps the map from each tag to exactly the contacts so far carrying it |
| Core.ListGroups | assistant/core.py:351-356 | one group per key of the map, in sorted tag order, each with that tag's list |
| Core.SortNotesByTags | assistant/core.py:339-357 | the loops return, for each tag in sorted order, the contacts carrying it in book order |
| Core.GroupedOnce | assistant/core.py:343-356 | for contacts listed without repeats (as every book lists them, by `ListedOnce`), each contact appears once under each of its tags and under no other |
| Core.GroupsCoverTags | assistant/core.py:343-352 | the groups come in strictly increasing tag order and every tag of every contact has a group |
| Core.NoGroupsWithoutTags | assistant/core.py:348-349 | "No tags found" is the answer exactly when no contact has a tag |

## Left out

- The console loop, command parsing and command guessing in `main.py` and `assistant/utils.py` are left out. `exception_handler` is modelled only as the `Reply` values it produces.
- Colours and the wording of every reply and error message are left out. A reply says which outcome the command gave.
- Rendering is left out: `Record.__str__`, `AddressBook.__str__`, `show_all`, `show_note`, `show_phone` and `show_birthday`. `show_tags` and the birthday's display form are modelled. The display part of the `upcoming_birthday` command is left out too. These only format stored values. The searches return the contacts the source would render.
- `datetime.now()` is a parameter (`today`) of the upcoming-birthday query, and `days` is a parameter for its default of 7.
- `isdigit`, `int` and `lower` are modelled on ASCII only. Python also accepts other Unicode digits and lower-cases non-ASCII letters.
- `Field`, `Name` and `Phone` are plain strings. The `Email` object is its validated text.
- Models.Record.constructor: the optional `email` and `address` arguments are not modelled. No command passes them.
- Models.FormatBirthday: years below 1000 are always zero-padded to four digits. `strftime('%Y')` pads or does not depending on the platform. `BirthdayRoundTrip` holds for this padded form.
- Core.TagWords: the tags are joined in sorted order, whereas Python joins them in set-iteration order, which is unspecified. `NoteMatchByTag` states the order-independent result. For a query containing a space, the match can depend on that order.
- Models.BirthdayWithin, Core.RecordMatches, Core.FileUnderTags and Core.ListGroups are the bodies of loops in the source. They are written as separate methods, one per loop, so each proof stays small.
- Python's object identity is kept only where commands depend on it. Records are objects, and the queries other than the upcoming-birthday query return their contents rather than the objects.
