/** The assistant's commands: each looks a contact up by name, calls the
    record or the book, and answers with an outcome. Only the outcome and
    the effect on the book are modelled; the coloured reply text is not.
    `exception_handler` turns a KeyError into "Contact not found" and any
    other exception into its message, which is what `Failed` stands for. */
module Core {
  import opened Results
  import opened Text
  import opened Lists
  import opened Dates
  import opened Validator
  import opened Models

  /** Why a command failed: the name is not in the book (KeyError), or the
      record refused the change (the ValueError's message). */
  datatype Failure = ContactNotFound | Refused(why: RecordError)

  /** Conditions a command reports in a warning instead of failing. */
  datatype Warning =
    | EmailAlreadyRemoved  // remove_email caught the record's ValueError
    | TagNotFound          // remove_tags was given a tag the contact lacks

  datatype Reply = Done | Warned(warning: Warning) | Failed(failure: Failure)

  // ---------------------------------------------------------------------
  // Commands that change one contact

  /** `add_address` and `edit_address`. */
  method SetAddress(book: AddressBook, name: string, address: string) returns (reply: Reply)
    requires book.Valid()
    modifies if name in book.data then {book.data[name]} else {}
    ensures book.Valid() && book.keys == old(book.keys) && book.data == old(book.data)
    ensures reply == if name in book.data then Done else Failed(ContactNotFound)
    ensures name in book.data ==>
              book.data[name].View() == old(book.data[name].View()).(address := Some(address))
  {
    var found := book.FindRecord(name);
    if found.None? {
      return Failed(ContactNotFound);
    }
    found.value.SetAddress(address);
    return Done;
  }

  /** `remove_address`. */
  method RemoveAddress(book: AddressBook, name: string) returns (reply: Reply)
    requires book.Valid()
    modifies if name in book.data then {book.data[name]} else {}
    ensures book.Valid() && book.keys == old(book.keys) && book.data == old(book.data)
    ensures reply == if name in book.data then Done else Failed(ContactNotFound)
    ensures name in book.data ==>
              book.data[name].View() == old(book.data[name].View()).(address := None)
  {
    var found := book.FindRecord(name);
    if found.None? {
      return Failed(ContactNotFound);
    }
    found.value.RemoveAddress();
    return Done;
  }

  /** `add_note` and `edit_note`. */
  method SetNote(book: AddressBook, name: string, note: string) returns (reply: Reply)
    requires book.Valid()
    modifies if name in book.data then {book.data[name]} else {}
    ensures book.Valid() && book.keys == old(book.keys) && book.data == old(book.data)
    ensures reply == if name in book.data then Done else Failed(ContactNotFound)
    ensures name in book.data ==>
              book.data[name].View() == old(book.data[name].View()).(note := note)
  {
    var found := book.FindRecord(name);
    if found.None? {
      return Failed(ContactNotFound);
    }
    found.value.SetNote(note);
    return Done;
  }

  /** `remove_note`. */
  method RemoveNote(book: AddressBook, name: string) returns (reply: Reply)
    requires book.Valid()
    modifies if name in book.data then {book.data[name]} else {}
    ensures book.Valid() && book.keys == old(book.keys) && book.data == old(book.data)
    ensures reply == if name in book.data then Done else Failed(ContactNotFound)
    ensures name in book.data ==>
              book.data[name].View() == old(book.data[name].View()).(note := "")
  {
    var found := book.FindRecord(name);
    if found.None? {
      return Failed(ContactNotFound);
    }
    found.value.RemoveNote();
    return Done;
  }

  /** `remove_phone`: the first equal phone goes; a missing phone is the
      record's ValueError. */
  method RemovePhone(book: AddressBook, name: string, phone: string) returns (reply: Reply)
    requires book.Valid()
    modifies if name in book.data then {book.data[name]} else {}
    ensures book.Valid() && book.keys == old(book.keys) && book.data == old(book.data)
    ensures name !in book.data ==> reply == Failed(ContactNotFound)
    ensures name in book.data ==>
              var before := old(book.data[name].View());
              && reply == (if phone in before.phones then Done else Failed(Refused(PhoneNotFound)))
              && book.data[name].View() == before.(phones := RemoveFirst(before.phones, phone))
  {
    var found := book.FindRecord(name);
    if found.None? {
      return Failed(ContactNotFound);
    }
    var o := found.value.RemovePhone(phone);
    return if o.Pass? then Done else Failed(Refused(o.error));
  }

  /** `change_contact`: `edit_phone` on the named contact. A missing old
      phone is reported before the new one is looked at. */
  method ChangeContact(book: AddressBook, name: string, oldPhone: string, newPhone: string)
    returns (reply: Reply)
    requires book.Valid()
    modifies if name in book.data then {book.data[name]} else {}
    ensures book.Valid() && book.keys == old(book.keys) && book.data == old(book.data)
    ensures name !in book.data ==> reply == Failed(ContactNotFound)
    ensures name in book.data ==>
              var before := old(book.data[name].View());
              && reply == (if oldPhone !in before.phones then Failed(Refused(PhoneNotFound))
                           else if !IsValidPhone(newPhone) then Failed(Refused(InvalidPhone))
                           else Done)
              && book.data[name].View() ==
                   if reply.Done? then before.(phones := ReplaceFirst(before.phones, oldPhone, newPhone))
                   else before
  {
    var found := book.FindRecord(name);
    if found.None? {
      return Failed(ContactNotFound);
    }
    var o := found.value.EditPhone(oldPhone, newPhone);
    return if o.Pass? then Done else Failed(Refused(o.error));
  }

  /** `set_email` and `edit_email`: an address `validate_email` refuses
      leaves the stored one in place. */
  method SetEmail(book: AddressBook, name: string, email: string) returns (reply: Reply)
    requires book.Valid()
    modifies if name in book.data then {book.data[name]} else {}
    ensures book.Valid() && book.keys == old(book.keys) && book.data == old(book.data)
    ensures name !in book.data ==> reply == Failed(ContactNotFound)
    ensures name in book.data ==>
              var before := old(book.data[name].View());
              && reply == (if ValidateEmail(email) then Done else Failed(Refused(InvalidEmail)))
              && book.data[name].View() == if reply.Done? then before.(email := Some(email)) else before
  {
    var found := book.FindRecord(name);
    if found.None? {
      return Failed(ContactNotFound);
    }
    var o := found.value.SetEmail(email);
    return if o.Pass? then Done else Failed(Refused(o.error));
  }

  /** `remove_email`: the record's complaint that there is no e-mail is
      caught and answered with a warning. */
  method RemoveEmail(book: AddressBook, name: string) returns (reply: Reply)
    requires book.Valid()
    modifies if name in book.data then {book.data[name]} else {}
    ensures book.Valid() && book.keys == old(book.keys) && book.data == old(book.data)
    ensures name !in book.data ==> reply == Failed(ContactNotFound)
    ensures name in book.data ==>
              var before := old(book.data[name].View());
              && reply == (if before.email.Some? then Done else Warned(EmailAlreadyRemoved))
              && book.data[name].View() == before.(email := None)
  {
    var found := book.FindRecord(name);
    if found.None? {
      return Failed(ContactNotFound);
    }
    var o := found.value.RemoveEmail();
    return if o.Pass? then Done else Warned(EmailAlreadyRemoved);
  }

  /** `add_tags`: the lower-cased tags join the contact's set. */
  method AddTags(book: AddressBook, name: string, tags: seq<string>) returns (reply: Reply)
    requires book.Valid()
    modifies if name in book.data then {book.data[name]} else {}
    ensures book.Valid() && book.keys == old(book.keys) && book.data == old(book.data)
    ensures reply == if name in book.data then Done else Failed(ContactNotFound)
    ensures name in book.data ==>
              var before := old(book.data[name].View());
              book.data[name].View() == before.(tags := before.tags + LowerTags(tags))
  {
    var found := book.FindRecord(name);
    if found.None? {
      return Failed(ContactNotFound);
    }
    found.value.AddTags(tags);
    return Done;
  }

  /** `remove_tags`: a tag the contact does not have is answered with a
      warning and changes nothing; otherwise exactly that tag goes. */
  method RemoveTags(book: AddressBook, name: string, tag: string) returns (reply: Reply)
    requires book.Valid()
    modifies if name in book.data then {book.data[name]} else {}
    ensures book.Valid() && book.keys == old(book.keys) && book.data == old(book.data)
    ensures name !in book.data ==> reply == Failed(ContactNotFound)
    ensures name in book.data ==>
              var before := old(book.data[name].View());
              && reply == (if Lower(tag) in before.tags then Done else Warned(TagNotFound))
              && book.data[name].View() == before.(tags := before.tags - {Lower(tag)})
  {
    var found := book.FindRecord(name);
    if found.None? {
      return Failed(ContactNotFound);
    }
    var record := found.value;
    if Lower(tag) !in record.tags {
      return Warned(TagNotFound);
    }
    record.RemoveTag(tag);
    return Done;
  }

  // ---------------------------------------------------------------------
  // Commands that change the book

  /** `add_contact`: the phone goes to the named contact, or to a new
      contact stored last. The phone is validated before anything is
      stored, so a refused phone leaves the book as it was. */
  method AddContact(book: AddressBook, name: string, phone: string) returns (reply: Reply)
    requires book.Valid()
    modifies book, if name in book.data then {book.data[name]} else {}
    ensures book.Valid()
    ensures reply == if IsValidPhone(phone) then Done else Failed(Refused(InvalidPhone))
    ensures name in old(book.data) ==>
              && book.keys == old(book.keys) && book.data == old(book.data)
              && var before := old(book.data[name].View());
                 book.data[name].View() == if reply.Done? then before.(phones := before.phones + [phone]) else before
    ensures name !in old(book.data) && reply.Failed? ==>
              book.keys == old(book.keys) && book.data == old(book.data)
    ensures name !in old(book.data) && reply.Done? ==>
              && book.keys == old(book.keys) + [name]
              && name in book.data && fresh(book.data[name])
              && book.data == old(book.data)[name := book.data[name]]
              && book.data[name].View() == Contact(name, [phone], None, None, "", {}, None)
  {
    var found := book.FindRecord(name);
    var record: Record;
    if found.Some? {
      record := found.value;
    } else {
      record := new Record(name);
    }
    var o := record.AddPhone(phone);
    if o.Fail? {
      return Failed(Refused(o.error));
    }
    book.AddRecord(record);
    return Done;
  }

  /** `add_birthday_to_contact`: an unknown name first gets a new, empty
      contact stored last, and only then is the birthday validated, so a
      refused birthday still leaves that contact in the book. */
  method AddBirthday(book: AddressBook, name: string, birthday: string) returns (reply: Reply)
    requires book.Valid()
    modifies book, if name in book.data then {book.data[name]} else {}
    ensures book.Valid()
    ensures reply == match ValidateBirthday(birthday)
                     case Ok(_) => Done
                     case Err(e) => Failed(Refused(InvalidBirthday(e)))
    ensures name in old(book.data) ==> book.keys == old(book.keys) && book.data == old(book.data)
    ensures name !in old(book.data) ==>
              && book.keys == old(book.keys) + [name]
              && name in book.data && fresh(book.data[name])
              && book.data == old(book.data)[name := book.data[name]]
    ensures name in book.data
    ensures var before := if name in old(book.data) then old(book.data[name].View())
                          else Contact(name, [], None, None, "", {}, None);
            book.data[name].View() ==
              if reply.Done? then before.(birthday := Some(ValidateBirthday(birthday).value)) else before
  {
    var found := book.FindRecord(name);
    var record: Record;
    if found.Some? {
      record := found.value;
    } else {
      record := new Record(name);
      book.AddRecord(record);
    }
    label stored:
    assert forall k :: k in book.data && k != name ==> book.data[k] != record;
    var o := record.SetBirthday(birthday);
    forall k | k in book.data && k != name
      ensures book.data[k].name == k && book.data[k].Valid()
    {
      assert old@stored(book.data[k].name == k && book.data[k].Valid());
    }
    return if o.Pass? then Done else Failed(Refused(o.error));
  }

  /** `delete_contact`: an unknown name is reported and changes nothing. */
  method DeleteContact(book: AddressBook, name: string) returns (reply: Reply)
    requires book.Valid()
    modifies book
    ensures book.Valid()
    ensures reply == if name in old(book.data) then Done else Failed(ContactNotFound)
    ensures book.keys == RemoveFirst(old(book.keys), name) && book.data == old(book.data) - {name}
  {
    var found := book.FindRecord(name);
    if found.None? {
      return Failed(ContactNotFound);
    }
    book.DeleteRecord(name);
    return Done;
  }

  /** `edit_name`: `rename_record`, whose KeyError is reported as a missing contact. */
  method EditName(book: AddressBook, oldName: string, newName: string) returns (reply: Reply)
    requires book.Valid()
    modifies book, if oldName in book.data then {book.data[oldName]} else {}
    ensures book.Valid()
    ensures reply == if oldName in old(book.data) then Done else Failed(ContactNotFound)
    ensures reply.Failed? ==> book.keys == old(book.keys) && book.data == old(book.data)
    ensures reply.Done? ==>
              && book.keys == Put(RemoveFirst(old(book.keys), oldName), newName)
              && book.data == (old(book.data) - {oldName})[newName := old(book.data)[oldName]]
              && book.data[newName].View() == old(book.data[oldName].View()).(name := newName)
  {
    var o := book.RenameRecord(oldName, newName);
    return if o.Pass? then Done else Failed(ContactNotFound);
  }

  // ---------------------------------------------------------------------
  // Queries over the contacts in book order

  /** No two contacts of the book are equal: each is stored under its own name. */
  lemma ListedOnce(book: AddressBook)
    requires book.Valid()
    ensures Distinct(book.Listing())
  {
    var cs := book.Listing();
    forall i, j | 0 <= i < j < |cs| ensures cs[i] != cs[j] {
      assert cs[i].name == book.keys[i] && cs[j].name == book.keys[j];
    }
  }

  /** `search_contacts`' test of one contact against the lower-cased query
      `q`: its lower-cased name, any phone, its e-mail when set, or its note
      when not empty contains `q`. */
  predicate SearchMatch(c: Contact, q: string) {
    || Contains(Lower(c.name), q)
    || (exists i :: 0 <= i < |c.phones| && Contains(Lower(c.phones[i]), q))
    || (c.email.Some? && Contains(Lower(c.email.value), q))
    || (c.note != "" && Contains(Lower(c.note), q))
  }

  function Matches(q: string): Contact -> bool {
    (c: Contact) => SearchMatch(c, q)
  }

  /** The contacts `search_contacts` lists for `query`, in book order. */
  function Search(cs: seq<Contact>, query: string): seq<Contact> {
    Filter(cs, Matches(Lower(query)))
  }

  /** The body of `search_contacts`' loop for one record. */
  method RecordMatches(record: Record, q: string) returns (matched: bool)
    ensures matched == SearchMatch(record.View(), q)
  {
    var nameMatch := Contains(Lower(record.name), q);
    var phoneMatch := false;
    for k := 0 to |record.phones|
      invariant phoneMatch <==> exists j :: 0 <= j < k && Contains(Lower(record.phones[j]), q)
    {
      phoneMatch := phoneMatch || Contains(Lower(record.phones[k]), q);
    }
    var emailMatch := record.email.Some? && Contains(Lower(record.email.value), q);
    var noteMatch := if record.note != "" then Contains(Lower(record.note), q) else false;
    return nameMatch || phoneMatch || emailMatch || noteMatch;
  }

  /** `search_contacts`: the matching contacts in book order, or KeyError
      when there are none. It is not wrapped by `exception_handler`, so the
      KeyError reaches the caller. */
  method SearchContacts(book: AddressBook, query: string) returns (r: Result<seq<Contact>, Failure>)
    requires book.Valid()
    ensures r == if Search(book.Listing(), query) == [] then Err(ContactNotFound)
                 else Ok(Search(book.Listing(), query))
  {
    var q := Lower(query);
    ghost var cs := book.Listing();
    var results: seq<Contact> := [];
    for i := 0 to |book.keys|
      invariant results == Search(cs[..i], query)
    {
      var record := book.data[book.keys[i]];
      assert cs[i] == record.View();
      FilterPrefix(cs, i, Matches(q));
      var matched := RecordMatches(record, q);
      if matched {
        results := results + [record.View()];
      }
    }
    assert cs[..|book.keys|] == cs;
    if results == [] {
      return Err(ContactNotFound);
    }
    return Ok(results);
  }

  /** The search lists exactly the matching contacts, each as often as the
      book lists it. */
  lemma SearchSelects(cs: seq<Contact>, query: string)
    ensures forall c :: c in Search(cs, query) <==> c in cs && SearchMatch(c, Lower(query))
    ensures forall c :: multiset(Search(cs, query))[c] ==
              if SearchMatch(c, Lower(query)) then multiset(cs)[c] else 0
  {
    FilterMembership(cs, Matches(Lower(query)));
    forall c ensures multiset(Search(cs, query))[c] ==
                     if SearchMatch(c, Lower(query)) then multiset(cs)[c] else 0 {
      FilterCount(cs, Matches(Lower(query)), c);
    }
  }

  /** The empty query matches every contact, by its name. */
  lemma {:induction false} EmptyQueryListsAll(cs: seq<Contact>)
    ensures Search(cs, "") == cs
    decreases |cs|
  {
    if cs != [] {
      var u := cs[..|cs| - 1];
      EmptyQueryListsAll(u);
      EmptyContained(Lower(cs[|cs| - 1].name));
      FilterPrefix(cs, |cs| - 1, Matches(Lower("")));
      assert cs[..|cs|] == cs;
    }
  }

  /** A contact is found by its own name, in any letter case. */
  lemma FoundByName(cs: seq<Contact>, c: Contact, query: string)
    requires c in cs && Lower(query) == Lower(c.name)
    ensures c in Search(cs, query)
  {
    SearchSelects(cs, query);
    SelfContained(Lower(c.name));
  }

  /** Every text contains itself. */
  lemma SelfContained(s: string)
    ensures Contains(s, s)
  {
    assert s[..|s|] == s;
  }

  // Tags

  function HasTag(tag: string): Contact -> bool {
    (c: Contact) => tag in c.tags
  }

  /** The contacts carrying `tag`, in book order. */
  function Tagged(cs: seq<Contact>, tag: string): seq<Contact> {
    Filter(cs, HasTag(tag))
  }

  /** `search_by_tag`: the contacts whose tag set holds the lower-cased tag,
      in book order; an empty result is the "no contacts found" reply. */
  function SearchByTag(book: AddressBook, tag: string): (r: seq<Contact>)
    requires book.Valid()
    reads book, book.data.Values
    ensures forall c :: c in r <==> c in book.Listing() && Lower(tag) in c.tags
  {
    FilterMembership(book.Listing(), HasTag(Lower(tag)));
    Tagged(book.Listing(), Lower(tag))
  }

  /** The tag search lists every contact of the book with the tag, once,
      and no other. */
  lemma SearchByTagSelects(book: AddressBook, tag: string)
    requires book.Valid()
    ensures forall c :: c in SearchByTag(book, tag) <==> c in book.Listing() && Lower(tag) in c.tags
    ensures forall c :: c in SearchByTag(book, tag) ==> multiset(SearchByTag(book, tag))[c] == 1
  {
    var cs := book.Listing();
    forall c | c in SearchByTag(book, tag) ensures multiset(SearchByTag(book, tag))[c] == 1 {
      FilterCount(cs, HasTag(Lower(tag)), c);
      ListedOnce(book);
      DistinctCount(cs, c);
    }
  }

  /** The tags of a tag set as `search_notes` joins them: lower-cased, and
      here in sorted order. */
  function TagWords(tags: set<string>): (r: seq<string>)
    ensures |r| == |tags|
    ensures forall t :: t in tags ==> Lower(t) in r
    ensures forall w :: w in r ==> exists t :: t in tags && w == Lower(t)
  {
    var ts := SortedSeq(tags);
    var r := seq(|ts|, k requires 0 <= k < |ts| => Lower(ts[k]));
    assert forall t :: t in tags ==> exists k :: 0 <= k < |ts| && ts[k] == t;
    assert forall k :: 0 <= k < |r| ==> r[k] == Lower(ts[k]) && ts[k] in tags;
    r
  }

  /** `search_notes`' test of one contact against the lower-cased query `q`:
      the lower-cased note contains it, or the space-joined tags do. */
  predicate NoteMatch(c: Contact, q: string) {
    Contains(Lower(c.note), q) || Contains(Join(TagWords(c.tags), " "), q)
  }

  function NoteMatches(q: string): Contact -> bool {
    (c: Contact) => NoteMatch(c, q)
  }

  /** The contacts `search_notes` lists for `query`, in book order. */
  function NotesSearch(cs: seq<Contact>, query: string): seq<Contact> {
    Filter(cs, NoteMatches(Lower(query)))
  }

  /** `search_notes`: the matching contacts in book order; an empty result
      is the "no tags found" reply. */
  method SearchNotes(book: AddressBook, query: string) returns (r: seq<Contact>)
    requires book.Valid()
    ensures r == NotesSearch(book.Listing(), query)
  {
    var q := Lower(query);
    ghost var cs := book.Listing();
    var results: seq<Contact> := [];
    for i := 0 to |book.keys|
      invariant results == NotesSearch(cs[..i], query)
    {
      var c := book.data[book.keys[i]].View();
      assert cs[i] == c;
      FilterPrefix(cs, i, NoteMatches(q));
      var noteText := Lower(c.note);
      var tagList := TagWords(c.tags);
      if Contains(noteText, q) || Contains(Join(tagList, " "), q) {
        results := results + [c];
      }
    }
    assert cs[..|book.keys|] == cs;
    return results;
  }

  /** For a query without spaces, matching the joined tags means matching
      one tag, whatever order the tags are joined in. */
  lemma NoteMatchByTag(c: Contact, query: string)
    requires ' ' !in Lower(query)
    ensures NoteMatch(c, Lower(query)) <==>
              Contains(Lower(c.note), Lower(query)) ||
              exists t :: t in c.tags && Contains(Lower(t), Lower(query))
  {
    var words := TagWords(c.tags);
    if Lower(query) == "" {
      assert Contains(Lower(c.note), Lower(query));
      return;
    }
    ContainsInJoin(words, ' ', Lower(query));
    assert " " == [' '];
    if exists t :: t in c.tags && Contains(Lower(t), Lower(query)) {
      var t :| t in c.tags && Contains(Lower(t), Lower(query));
      var k :| 0 <= k < |words| && words[k] == Lower(t);
    }
    if exists k :: 0 <= k < |words| && Contains(words[k], Lower(query)) {
      var k :| 0 <= k < |words| && Contains(words[k], Lower(query));
      assert words[k] in words;
    }
  }

  // Grouping by tag

  /** Every tag some contact carries. */
  function AllTags(cs: seq<Contact>): set<string>
    decreases |cs|
  {
    if cs == [] then {} else AllTags(cs[..|cs| - 1]) + cs[|cs| - 1].tags
  }

  lemma {:induction false} AllTagsIff(cs: seq<Contact>)
    ensures forall t :: t in AllTags(cs) <==> exists i :: 0 <= i < |cs| && t in cs[i].tags
    decreases |cs|
  {
    if cs != [] {
      var u := cs[..|cs| - 1];
      AllTagsIff(u);
      forall t | t in AllTags(cs) ensures exists i :: 0 <= i < |cs| && t in cs[i].tags {
        if t in AllTags(u) {
          var i :| 0 <= i < |u| && t in u[i].tags;
          assert cs[i] == u[i];
        }
      }
      forall t | exists i :: 0 <= i < |cs| && t in cs[i].tags ensures t in AllTags(cs) {
        var i :| 0 <= i < |cs| && t in cs[i].tags;
        if i < |u| {
          assert u[i] == cs[i];
        }
      }
    }
  }

  /** No contact carries a tag that is not among all tags. */
  lemma {:induction false} TaggedOutside(cs: seq<Contact>, tag: string)
    requires tag !in AllTags(cs)
    ensures Tagged(cs, tag) == []
    decreases |cs|
  {
    if cs != [] {
      TaggedOutside(cs[..|cs| - 1], tag);
    }
  }

  /** One line group of `sort_notes_by_tags`: a tag and its contacts. */
  datatype TagGroup = TagGroup(tag: string, members: seq<Contact>)

  /** The groups read from a map from tag to contacts, in sorted tag order. */
  function GroupsOf(tagDict: map<string, seq<Contact>>): seq<TagGroup> {
    var ts := SortedSeq(tagDict.Keys);
    seq(|ts|, k requires 0 <= k < |ts| => TagGroup(ts[k], tagDict[ts[k]]))
  }

  /** What `sort_notes_by_tags` lists: for each tag, in sorted order, the
      contacts carrying it, in book order. */
  function TagGroups(cs: seq<Contact>): seq<TagGroup> {
    GroupsOf(Grouped(cs))
  }

  /** The map `sort_notes_by_tags` builds: each tag to the contacts carrying it. */
  function Grouped(cs: seq<Contact>): (d: map<string, seq<Contact>>)
    ensures d.Keys == AllTags(cs)
    ensures forall t :: t in d ==> d[t] == Tagged(cs, t)
  {
    map t | t in AllTags(cs) :: Tagged(cs, t)
  }

  /** The inner loop of `sort_notes_by_tags`: `tag_dict.setdefault(tag,
      []).append(record)` for each tag of the record, in any order. */
  method FileUnderTags(tagDict: map<string, seq<Contact>>, c: Contact)
    returns (filed: map<string, seq<Contact>>)
    ensures filed.Keys == tagDict.Keys + c.tags
    ensures forall t :: t in filed ==>
              filed[t] == if t !in c.tags then tagDict[t]
                          else if t in tagDict then tagDict[t] + [c]
                          else [c]
  {
    filed := tagDict;
    var rest := c.tags;
    while rest != {}
      invariant rest <= c.tags
      invariant filed.Keys == tagDict.Keys + (c.tags - rest)
      invariant forall t :: t in filed ==>
                  filed[t] == if t !in c.tags - rest then tagDict[t]
                              else if t in tagDict then tagDict[t] + [c]
                              else [c]
      decreases rest
    {
      var tag :| tag in rest;
      var members := if tag in filed then filed[tag] else [];
      filed := filed[tag := members + [c]];
      rest := rest - {tag};
    }
  }

  /** Filing the next contact under its tags keeps the map from each tag
      to the contacts carrying it. */
  lemma FiledOneMore(cs: seq<Contact>, i: int, tagDict: map<string, seq<Contact>>,
                     filed: map<string, seq<Contact>>)
    requires 0 <= i < |cs|
    requires tagDict.Keys == AllTags(cs[..i])
    requires forall t :: t in tagDict ==> tagDict[t] == Tagged(cs[..i], t)
    requires filed.Keys == tagDict.Keys + cs[i].tags
    requires forall t :: t in filed ==>
               filed[t] == if t !in cs[i].tags then tagDict[t]
                           else if t in tagDict then tagDict[t] + [cs[i]]
                           else [cs[i]]
    ensures filed.Keys == AllTags(cs[..i + 1])
    ensures forall t :: t in filed ==> filed[t] == Tagged(cs[..i + 1], t)
  {
    assert cs[..i + 1][..i] == cs[..i];
    forall t | t in filed
      ensures filed[t] == Tagged(cs[..i + 1], t)
    {
      FilterPrefix(cs, i, HasTag(t));
      if t !in tagDict {
        TaggedOutside(cs[..i], t);
      }
    }
  }

  /** The output loop of `sort_notes_by_tags`: one group per tag, in
      sorted tag order. */
  method ListGroups(tagDict: map<string, seq<Contact>>) returns (groups: seq<TagGroup>)
    ensures groups == GroupsOf(tagDict)
  {
    var tags := SortedSeq(tagDict.Keys);
    groups := [];
    for k := 0 to |tags|
      invariant |groups| == k
      invariant forall j :: 0 <= j < k ==> groups[j] == TagGroup(tags[j], tagDict[tags[j]])
    {
      groups := groups + [TagGroup(tags[k], tagDict[tags[k]])];
    }
  }

  /** `sort_notes_by_tags`: each record is appended to the list of each of
      its tags, and the lists are then read in sorted tag order. An empty
      result is the "no tags found" reply. */
  method SortNotesByTags(book: AddressBook) returns (groups: seq<TagGroup>)
    requires book.Valid()
    ensures groups == TagGroups(book.Listing())
  {
    ghost var cs := book.Listing();
    var tagDict: map<string, seq<Contact>> := map[];
    for i := 0 to |book.keys|
      invariant tagDict.Keys == AllTags(cs[..i])
      invariant forall t :: t in tagDict ==> tagDict[t] == Tagged(cs[..i], t)
    {
      var record := book.data[book.keys[i]];
      var c := record.View();
      assert cs[i] == c;
      var filed := FileUnderTags(tagDict, c);
      FiledOneMore(cs, i, tagDict, filed);
      tagDict := filed;
    }
    assert cs[..|book.keys|] == cs;
    assert tagDict == Grouped(cs);
    assert book.Listing() == cs;
    groups := ListGroups(tagDict);
    assert groups == TagGroups(cs);
    assert book.Valid();
    assert book.Listing() == cs;
  }

  /** Each contact of a book (whose contacts are distinct, by `ListedOnce`)
      appears under each of its tags exactly once, and under no other tag. */
  lemma GroupedOnce(cs: seq<Contact>, k: int, c: Contact)
    requires Distinct(cs) && 0 <= k < |TagGroups(cs)| && c in cs
    ensures multiset(TagGroups(cs)[k].members)[c] == if TagGroups(cs)[k].tag in c.tags then 1 else 0
  {
    var g := TagGroups(cs)[k];
    FilterCount(cs, HasTag(g.tag), c);
    DistinctCount(cs, c);
  }

  /** The groups come in strictly increasing tag order, and every tag of
      every contact has its group. */
  lemma GroupsCoverTags(cs: seq<Contact>)
    ensures forall j, k :: 0 <= j < k < |TagGroups(cs)| ==> LexLess(TagGroups(cs)[j].tag, TagGroups(cs)[k].tag)
    ensures forall i, t :: 0 <= i < |cs| && t in cs[i].tags ==>
              exists k :: 0 <= k < |TagGroups(cs)| && TagGroups(cs)[k].tag == t
  {
    var ts := SortedSeq(AllTags(cs));
    AllTagsIff(cs);
    forall i, t | 0 <= i < |cs| && t in cs[i].tags
      ensures exists k :: 0 <= k < |TagGroups(cs)| && TagGroups(cs)[k].tag == t
    {
      assert t in AllTags(cs) && t in ts;
      var k :| 0 <= k < |ts| && ts[k] == t;
      assert TagGroups(cs)[k].tag == t;
    }
  }

  /** The command reports "no tags" exactly when no contact has a tag. */
  lemma NoGroupsWithoutTags(cs: seq<Contact>)
    ensures TagGroups(cs) == [] <==> forall i :: 0 <= i < |cs| ==> cs[i].tags == {}
  {
    AllTagsIff(cs);
    if AllTags(cs) != {} {
      var t :| t in AllTags(cs);
      assert t in SortedSeq(AllTags(cs));
    }
  }
}
