/** The contact store's data layer: a contact `Record` whose fields its
    methods update in place, and the `AddressBook`, an insertion-ordered
    dictionary from a contact's name to its record, with the upcoming-birthday
    query. */
module Models {
  import opened Results
  import opened Text
  import opened Lists
  import opened Dates
  import opened Validator

  /** The value a record holds at one moment: its name, its phones in the
      order they were added, an optional birthday, e-mail and address, a note
      ('' when there is none) and its set of tags. */
  datatype Contact = Contact(
    name: string,
    phones: seq<string>,
    birthday: Option<Date>,
    email: Option<string>,
    note: string,
    tags: set<string>,
    address: Option<string>)

  /** The ValueErrors a record's methods raise. */
  datatype RecordError =
    | InvalidPhone                     // validate_phone refused the text
    | InvalidBirthday(why: DateError)  // validate_birthday refused the text
    | InvalidEmail                     // the Email setter refused the text
    | PhoneNotFound                    // no phone equal to the one named
    | EmailNotSet                      // remove_email with no e-mail stored

  /** What every record keeps true: each phone passed validate_phone, the
      birthday is a real date, the e-mail passed validate_email and every tag
      is lower case. */
  predicate WellFormed(c: Contact) {
    && (forall i :: 0 <= i < |c.phones| ==> IsValidPhone(c.phones[i]))
    && (c.birthday.Some? ==> ValidDate(c.birthday.value))
    && (c.email.Some? ==> ValidateEmail(c.email.value))
    && (forall t :: t in c.tags ==> IsLower(t))
  }

  // ---------------------------------------------------------------------
  // Birthday: validation on construction, `DD.MM.YYYY` on display

  /** `n` written with exactly `width` decimal digits, zero-padded on the left
      (the last `width` digits when `n` has more). */
  function Digits(n: nat, width: nat): (s: string)
    ensures |s| == width && forall i :: 0 <= i < |s| ==> IsDigit(s[i])
    decreases width
  {
    if width == 0 then "" else Digits(n / 10, width - 1) + [DigitChar(n % 10)]
  }

  /** Reading back a zero-padded number gives the number. */
  lemma {:induction false} DigitsRead(n: nat, width: nat)
    requires n < Pow10(width)
    ensures DigitsValue(Digits(n, width)) == n
    decreases width
  {
    if width > 0 {
      var s := Digits(n, width);
      assert s[..width - 1] == Digits(n / 10, width - 1);
      DigitsRead(n / 10, width - 1);
    }
  }

  /** A digit string is the zero-padded form of its own value. */
  lemma {:induction false} DigitsWrite(s: string)
    requires forall i :: 0 <= i < |s| ==> IsDigit(s[i])
    ensures Digits(DigitsValue(s), |s|) == s
    decreases |s|
  {
    if s != [] {
      var p := s[..|s| - 1];
      var d := s[|s| - 1] as int - '0' as int;
      DigitsWrite(p);
      assert DigitsValue(s) / 10 == DigitsValue(p) && DigitsValue(s) % 10 == d;
      assert DigitChar(d) == s[|s| - 1];
      assert s == p + [s[|s| - 1]];
    }
  }

  /** `str(Birthday)`: `strftime('%d.%m.%Y')`, two-digit day and month and a
      four-digit year. */
  function FormatBirthday(d: Date): (s: string)
    requires ValidDate(d)
    ensures |s| == 10 && s[2] == '.' && s[5] == '.'
    ensures IsDigits(s[..2]) && IsDigits(s[3..5]) && IsDigits(s[6..])
    ensures DigitsValue(s[..2]) == d.day && DigitsValue(s[3..5]) == d.month
    ensures DigitsValue(s[6..]) == d.year
  {
    var a, b, c := Digits(d.day, 2), Digits(d.month, 2), Digits(d.year, 4);
    assert Pow10(2) == 100 && Pow10(4) == 10000;
    DigitsRead(d.day, 2);
    DigitsRead(d.month, 2);
    DigitsRead(d.year, 4);
    var s := a + "." + b + "." + c;
    assert s[..2] == a && s[3..5] == b && s[6..] == c;
    s
  }

  /** Every stored birthday, displayed, is accepted again as the same date. */
  lemma BirthdayRoundTrip(d: Date)
    requires ValidDate(d)
    ensures ValidateBirthday(FormatBirthday(d)) == Ok(d)
  {
    var a, b, c := Digits(d.day, 2), Digits(d.month, 2), Digits(d.year, 4);
    assert Pow10(2) == 100 && Pow10(4) == 10000;
    DigitsRead(d.day, 2);
    DigitsRead(d.month, 2);
    DigitsRead(d.year, 4);
    assert Spells(FormatBirthday(d), a, b, c, d);
    BirthdayAcceptance(FormatBirthday(d), d);
  }

  /** An accepted text written as `DD.MM.YYYY` (ten characters, the first dot
      third) is displayed exactly as it was typed. */
  lemma CanonicalBirthdayText(s: string)
    requires ValidateBirthday(s).Ok? && |s| == 10 && s[2] == '.'
    ensures FormatBirthday(ValidateBirthday(s).value) == s
  {
    var d := ValidateBirthday(s).value;
    BirthdayAcceptance(s, d);
    var a, b, c :| Spells(s, a, b, c, d);
    DigitsHaveNoDot(a);
    assert |a| == 2 && |b| == 2;
    DigitsWrite(a);
    DigitsWrite(b);
    DigitsWrite(c);
  }

  // ---------------------------------------------------------------------
  // Email: the setter validates before it stores

  /** `Email(s)`: the stored text when validate_email accepts it, otherwise
      the ValueError. */
  function NewEmail(s: string): (r: Result<string, RecordError>)
    ensures r.Ok? <==> ValidateEmail(s)
    ensures r.Ok? ==> r.value == s
    ensures r.Err? ==> r.error == InvalidEmail
  {
    if ValidateEmail(s) then Ok(s) else Err(InvalidEmail)
  }

  // ---------------------------------------------------------------------
  // Tags

  /** `{tag.lower() for tag in ts}`. */
  function LowerTags(ts: seq<string>): (r: set<string>)
    ensures forall i :: 0 <= i < |ts| ==> Lower(ts[i]) in r
    ensures forall t :: t in r ==> IsLower(t)
  {
    set i | 0 <= i < |ts| :: Lower(ts[i])
  }

  /** The tags added depend only on which texts were given, not on their
      order or repetition. */
  lemma LowerTagsBySet(ts: seq<string>, us: seq<string>)
    requires forall x :: x in ts <==> x in us
    ensures LowerTags(ts) == LowerTags(us)
  {
    forall t | t in LowerTags(ts) ensures t in LowerTags(us) {
      var i :| 0 <= i < |ts| && t == Lower(ts[i]);
      assert ts[i] in us;
      var j :| 0 <= j < |us| && us[j] == ts[i];
    }
    forall t | t in LowerTags(us) ensures t in LowerTags(ts) {
      var j :| 0 <= j < |us| && t == Lower(us[j]);
      assert us[j] in ts;
      var i :| 0 <= i < |ts| && ts[i] == us[j];
    }
  }

  /** Adding tags in two calls is adding them in one. */
  lemma LowerTagsAppend(ts: seq<string>, us: seq<string>)
    ensures LowerTags(ts + us) == LowerTags(ts) + LowerTags(us)
  {
    forall t | t in LowerTags(ts + us) ensures t in LowerTags(ts) + LowerTags(us) {
      var i :| 0 <= i < |ts + us| && t == Lower((ts + us)[i]);
      if i >= |ts| {
        assert (ts + us)[i] == us[i - |ts|];
      }
    }
    forall t | t in LowerTags(ts) + LowerTags(us) ensures t in LowerTags(ts + us) {
      if t in LowerTags(ts) {
        var i :| 0 <= i < |ts| && t == Lower(ts[i]);
        assert (ts + us)[i] == ts[i];
      } else {
        var j :| 0 <= j < |us| && t == Lower(us[j]);
        assert (ts + us)[|ts| + j] == us[j];
      }
    }
  }

  /** Adding the same tags again, in a second call or twice within one
      call, leaves the tag set as it was. */
  lemma AddTagsIdempotent(tags: set<string>, ts: seq<string>)
    ensures (tags + LowerTags(ts)) + LowerTags(ts) == tags + LowerTags(ts)
    ensures tags + LowerTags(ts + ts) == tags + LowerTags(ts)
  {
    LowerTagsAppend(ts, ts);
  }

  /** `show_tags`: the tags sorted and joined by ", ", or "No tags" for an
      empty set. */
  function TagsText(tags: set<string>): string {
    if tags == {} then "No tags" else Join(SortedSeq(tags), ", ")
  }

  /** The tag line lists the tags in ascending order with ", " between
      neighbours: the least tag comes first, then, when there are others,
      ", " and the line of the others. */
  lemma TagsTextOrder(tags: set<string>, m: string)
    requires IsLeast(m, tags)
    ensures TagsText(tags) == if tags == {m} then m else m + ", " + TagsText(tags - {m})
  {
    var rest := SortedSeq(tags - {m});
    SortedSeqFirst(tags, m);
    assert ([m] + rest)[1..] == rest;
  }

  /** For lower-case tags, "No tags" is shown exactly when there are none. */
  lemma NoTagsIff(tags: set<string>)
    requires forall t :: t in tags ==> IsLower(t)
    ensures TagsText(tags) == "No tags" <==> tags == {}
  {
    if tags != {} {
      LeastExists(tags);
      var m :| IsLeast(m, tags);
      TagsTextOrder(tags, m);
      var text := TagsText(tags);
      if m == "" {
        assert text == "" || text[0] == ',';
      } else {
        assert text[0] == m[0] && IsLower(m);
      }
    }
  }

  /** The tag line names every tag. */
  lemma TagsTextNamesEach(tags: set<string>)
    ensures forall t :: t in tags ==> Contains(TagsText(tags), t)
  {
    var r := SortedSeq(tags);
    PartsInJoin(r, ", ");
    forall t | t in tags ensures Contains(TagsText(tags), t) {
      var k :| 0 <= k < |r| && r[k] == t;
    }
  }

  // ---------------------------------------------------------------------
  // Record

  /** One contact. Fields are updated in place by the methods below; a
      method that raises in the source returns `Fail` here and leaves every
      field as it was. */
  class Record {
    var name: string
    var phones: seq<string>
    var birthday: Option<Date>
    var email: Option<string>
    var note: string
    var tags: set<string>
    var address: Option<string>

    function View(): Contact
      reads this
    {
      Contact(name, phones, birthday, email, note, tags, address)
    }

    ghost predicate Valid()
      reads this
    {
      WellFormed(View())
    }

    /** `Record(name)`: no phones, birthday, e-mail, address or tags, an empty note. */
    constructor (name: string)
      ensures View() == Contact(name, [], None, None, "", {}, None)
      ensures Valid()
    {
      this.name := name;
      phones := [];
      birthday := None;
      email := None;
      note := "";
      tags := {};
      address := None;
    }

    /** `set_address` and `edit_address`. */
    method SetAddress(address: string)
      modifies this
      ensures View() == old(View()).(address := Some(address))
    {
      this.address := Some(address);
    }

    /** `remove_address`. */
    method RemoveAddress()
      modifies this
      ensures View() == old(View()).(address := None)
    {
      address := None;
    }

    /** `add_phone`: validate, then append; an invalid phone changes nothing. */
    method AddPhone(phone: string) returns (o: Outcome<RecordError>)
      requires Valid()
      modifies this
      ensures Valid()
      ensures o == if IsValidPhone(phone) then Pass else Fail(InvalidPhone)
      ensures View() == if o.Pass? then old(View()).(phones := old(phones) + [phone]) else old(View())
    {
      var v := ValidatePhone(phone);
      if v.None? {
        return Fail(InvalidPhone);
      }
      phones := phones + [v.value];
      return Pass;
    }

    /** `add_birthday`: the Birthday is built (and validated) before it is stored. */
    method SetBirthday(text: string) returns (o: Outcome<RecordError>)
      requires Valid()
      modifies this
      ensures Valid()
      ensures o == match ValidateBirthday(text)
                   case Ok(_) => Pass
                   case Err(e) => Fail(InvalidBirthday(e))
      ensures View() == if o.Pass? then old(View()).(birthday := Some(ValidateBirthday(text).value))
                        else old(View())
    {
      var v := ValidateBirthday(text);
      match v {
        case Err(e) => return Fail(InvalidBirthday(e));
        case Ok(d) =>
          birthday := Some(d);
          return Pass;
      }
    }

    /** `remove_phone`: delete the first equal phone, or raise when there is none. */
    method RemovePhone(phone: string) returns (o: Outcome<RecordError>)
      requires Valid()
      modifies this
      ensures Valid()
      ensures o == if phone in old(phones) then Pass else Fail(PhoneNotFound)
      ensures View() == old(View()).(phones := RemoveFirst(old(phones), phone))
    {
      var i := 0;
      while i < |phones|
        invariant 0 <= i <= |phones| && phones == old(phones)
        invariant phone !in phones[..i]
      {
        if phones[i] == phone {
          IndexOfAt(phones, phone, i);
          phones := phones[..i] + phones[i + 1..];
          return Pass;
        }
        assert phones[..i + 1] == phones[..i] + [phones[i]];
        i := i + 1;
      }
      assert phones[..i] == phones;
      return Fail(PhoneNotFound);
    }

    /** `edit_phone`: find the first equal phone, then validate the new one
        and store it at the same place. A missing old phone is reported
        without looking at the new one. */
    method EditPhone(oldPhone: string, newPhone: string) returns (o: Outcome<RecordError>)
      requires Valid()
      modifies this
      ensures Valid()
      ensures o == if oldPhone !in old(phones) then Fail(PhoneNotFound)
                   else if !IsValidPhone(newPhone) then Fail(InvalidPhone)
                   else Pass
      ensures View() == if o.Pass? then old(View()).(phones := ReplaceFirst(old(phones), oldPhone, newPhone))
                        else old(View())
    {
      var i := 0;
      while i < |phones|
        invariant 0 <= i <= |phones| && phones == old(phones)
        invariant oldPhone !in phones[..i]
      {
        if phones[i] == oldPhone {
          IndexOfAt(phones, oldPhone, i);
          var v := ValidatePhone(newPhone);
          if v.None? {
            return Fail(InvalidPhone);
          }
          phones := phones[i := v.value];
          return Pass;
        }
        assert phones[..i + 1] == phones[..i] + [phones[i]];
        i := i + 1;
      }
      assert phones[..i] == phones;
      return Fail(PhoneNotFound);
    }

    /** `find_phone`: the first phone equal to `phone`, or None. */
    function FindPhone(phone: string): (r: Option<string>)
      reads this
      ensures r.Some? <==> phone in phones
      ensures r.Some? ==> r.value == phone
    {
      var i := IndexOf(phones, phone);
      if i < |phones| then Some(phones[i]) else None
    }

    /** `set_email` and `edit_email`: an address the setter refuses leaves
        the previous one in place. */
    method SetEmail(text: string) returns (o: Outcome<RecordError>)
      requires Valid()
      modifies this
      ensures Valid()
      ensures o == if ValidateEmail(text) then Pass else Fail(InvalidEmail)
      ensures View() == if o.Pass? then old(View()).(email := Some(text)) else old(View())
    {
      var e := NewEmail(text);
      match e {
        case Err(why) => return Fail(why);
        case Ok(v) =>
          email := Some(v);
          return Pass;
      }
    }

    /** `remove_email`: raises when there is no e-mail, otherwise clears it. */
    method RemoveEmail() returns (o: Outcome<RecordError>)
      requires Valid()
      modifies this
      ensures Valid()
      ensures o == if old(email).None? then Fail(EmailNotSet) else Pass
      ensures View() == old(View()).(email := None)
    {
      if email.None? {
        return Fail(EmailNotSet);
      }
      email := None;
      return Pass;
    }

    /** `edit_name`. */
    method Rename(newName: string)
      modifies this
      ensures View() == old(View()).(name := newName)
    {
      name := newName;
    }

    /** `add_note` and `edit_note`. */
    method SetNote(note: string)
      modifies this
      ensures View() == old(View()).(note := note)
    {
      this.note := note;
    }

    /** `remove_note`: the note becomes empty. */
    method RemoveNote()
      modifies this
      ensures View() == old(View()).(note := "")
    {
      note := "";
    }

    /** `add_tags(*ts)`: the lower-cased texts join the tag set. */
    method AddTags(ts: seq<string>)
      requires Valid()
      modifies this
      ensures Valid()
      ensures View() == old(View()).(tags := old(tags) + LowerTags(ts))
    {
      tags := tags + LowerTags(ts);
    }

    /** `remove_tag`: discard the lower-cased tag; nothing happens when it is absent. */
    method RemoveTag(tag: string)
      requires Valid()
      modifies this
      ensures Valid()
      ensures View() == old(View()).(tags := old(tags) - {Lower(tag)})
    {
      tags := tags - {Lower(tag)};
    }

    /** `show_tags`: "No tags" exactly when the record has none, and
        otherwise a line naming every tag. */
    function ShowTags(): (r: string)
      reads this
      requires Valid()
      ensures r == "No tags" <==> tags == {}
      ensures forall t :: t in tags ==> Contains(r, t)
    {
      NoTagsIff(tags);
      TagsTextNamesEach(tags);
      TagsText(tags)
    }
  }

  // ---------------------------------------------------------------------
  // Upcoming birthdays

  /** This year's birthday, or next year's when this year's is already past;
      None when `replace(year=...)` raises (29 February in a year without it,
      or a year after 9999). */
  function NextOccurrence(b: Date, today: Date): (r: Option<Date>)
    requires ValidDate(b) && ValidDate(today)
    ensures r.Some? ==> ValidDate(r.value) && r.value.month == b.month && r.value.day == b.day
    ensures r.Some? ==> !Before(r.value, today)
    ensures r.Some? && r.value.year != today.year ==>
              r.value.year == today.year + 1 && Before(Date(today.year, b.month, b.day), today)
  {
    match ReplaceYear(b, today.year)
    case None => None
    case Some(p) => if Before(p, today) then ReplaceYear(b, today.year + 1) else Some(p)
  }

  /** A year divisible by 4 is followed by one that is not. */
  lemma LeapYearsApart(y: int)
    requires IsLeapYear(y)
    ensures !IsLeapYear(y + 1)
  {
    assert (y + 1) % 4 == 1;
  }

  /** A 29 February birthday makes the query raise unless today's year is a
      leap year and its 29 February has not passed yet. */
  lemma LeapDayBirthday(b: Date, today: Date)
    requires ValidDate(b) && ValidDate(today) && b.month == 2 && b.day == 29
    ensures NextOccurrence(b, today).None? <==>
              !(IsLeapYear(today.year) && !Before(Date(today.year, 2, 29), today))
  {
    if IsLeapYear(today.year) {
      LeapYearsApart(today.year);
    }
  }

  /** Any other birthday makes the query raise only in the year 9999, once
      this year's birthday has passed. */
  lemma OrdinaryBirthday(b: Date, today: Date)
    requires ValidDate(b) && ValidDate(today) && !(b.month == 2 && b.day == 29)
    ensures NextOccurrence(b, today).None? <==>
              today.year == 9999 && Before(Date(9999, b.month, b.day), today)
  {
    assert ReplaceYear(b, today.year) == Some(Date(today.year, b.month, b.day));
  }

  /** The next occurrence lies 0 to 365 days ahead. */
  lemma NextOccurrenceAhead(b: Date, today: Date)
    requires ValidDate(b) && ValidDate(today) && NextOccurrence(b, today).Some?
    ensures 0 <= Ordinal(NextOccurrence(b, today).value) - Ordinal(today) <= 365
  {
    var p := NextOccurrence(b, today).value;
    var y := today.year;
    OrdinalOrder(p, today);
    if p.year == y {
      OrdinalInYear(p);
      OrdinalInYear(today);
    } else {
      var q := Date(y, b.month, b.day);
      assert ValidDate(q) by {
        assert ReplaceYear(b, y).Some?;
      }
      OrdinalOrder(q, today);
      YearStep(y);
      if IsLeapYear(y) {
        LeapYearsApart(y);
      }
    }
  }

  /** `record.birthday` is set and `replace` raises for it. */
  predicate Fails(c: Contact, today: Date) {
    && c.birthday.Some? && ValidDate(c.birthday.value) && ValidDate(today)
    && NextOccurrence(c.birthday.value, today).None?
  }

  /** `record.birthday` is set and its next occurrence is 0 to `days` days
      from today, both ends included. */
  predicate InWindow(c: Contact, today: Date, days: int) {
    && c.birthday.Some? && ValidDate(c.birthday.value) && ValidDate(today)
    && var n := NextOccurrence(c.birthday.value, today);
       n.Some? && 0 <= Ordinal(n.value) - Ordinal(today) <= days
  }

  /** What `upcoming_birthday` computes from the contacts in book order, one
      contact at a time: the contacts in the window, in order, or None as soon
      as `replace` raises for one of them. */
  function Upcoming(cs: seq<Contact>, today: Date, days: int): Option<seq<Contact>>
    decreases |cs|
  {
    if cs == [] then Some([])
    else
      var last := cs[|cs| - 1];
      match Upcoming(cs[..|cs| - 1], today, days)
      case None => None
      case Some(listed) =>
        if Fails(last, today) then None
        else Some(listed + if InWindow(last, today, days) then [last] else [])
  }

  /** One more contact: listed after the others when it is in the window. */
  lemma UpcomingPrefix(cs: seq<Contact>, i: int, today: Date, days: int)
    requires 0 <= i < |cs|
    ensures Upcoming(cs[..i + 1], today, days) ==
              match Upcoming(cs[..i], today, days)
              case None => None
              case Some(listed) =>
                if Fails(cs[i], today) then None
                else Some(listed + if InWindow(cs[i], today, days) then [cs[i]] else [])
  {
    assert cs[..i + 1][..i] == cs[..i];
  }

  /** The query fails exactly when `replace` raises for some contact, and
      otherwise lists the contacts in the window in book order. */
  lemma {:induction false} UpcomingIsFilter(cs: seq<Contact>, today: Date, days: int)
    ensures Upcoming(cs, today, days).None? <==> exists i :: 0 <= i < |cs| && Fails(cs[i], today)
    ensures Upcoming(cs, today, days).Some? ==>
              Upcoming(cs, today, days).value == Filter(cs, c => InWindow(c, today, days))
    decreases |cs|
  {
    if cs != [] {
      var u := cs[..|cs| - 1];
      UpcomingIsFilter(u, today, days);
      if exists i :: 0 <= i < |u| && Fails(u[i], today) {
        var i :| 0 <= i < |u| && Fails(u[i], today);
        assert cs[i] == u[i];
      }
      if exists i :: 0 <= i < |cs| && Fails(cs[i], today) {
        var i :| 0 <= i < |cs| && Fails(cs[i], today);
        if i < |u| {
          assert u[i] == cs[i];
        }
      }
    }
  }

  /** The query returns exactly the contacts in the window, each as often as
      it is listed. */
  lemma UpcomingSelects(cs: seq<Contact>, today: Date, days: int)
    requires Upcoming(cs, today, days).Some?
    ensures forall c :: c in Upcoming(cs, today, days).value <==> c in cs && InWindow(c, today, days)
    ensures forall c :: multiset(Upcoming(cs, today, days).value)[c] ==
              if InWindow(c, today, days) then multiset(cs)[c] else 0
  {
    var p := c => InWindow(c, today, days);
    UpcomingIsFilter(cs, today, days);
    FilterMembership(cs, p);
    forall c ensures multiset(Filter(cs, p))[c] == if p(c) then multiset(cs)[c] else 0 {
      FilterCount(cs, p, c);
    }
  }

  /** A birthday falling today is always listed. */
  lemma BirthdayToday(c: Contact, today: Date, days: int)
    requires WellFormed(c) && ValidDate(today) && days >= 0
    requires c.birthday.Some? && c.birthday.value.month == today.month && c.birthday.value.day == today.day
    ensures InWindow(c, today, days)
  {
    assert NextOccurrence(c.birthday.value, today) == Some(today);
  }

  /** With a window of a year or more every contact with a birthday is listed. */
  lemma WholeYearWindow(c: Contact, today: Date, days: int)
    requires WellFormed(c) && ValidDate(today) && days >= 365
    requires c.birthday.Some? && !Fails(c, today)
    ensures InWindow(c, today, days)
  {
    NextOccurrenceAhead(c.birthday.value, today);
  }

  // ---------------------------------------------------------------------
  // AddressBook

  /** `rename_record`'s KeyError. */
  datatype BookError = NameNotFound

  /** The contacts of `rs`, in order. */
  function Views(rs: seq<Record>): (cs: seq<Contact>)
    reads set r | r in rs
    ensures |cs| == |rs| && forall i :: 0 <= i < |rs| ==> cs[i] == rs[i].View()
  {
    seq(|rs|, i requires 0 <= i < |rs| reads set r | r in rs => rs[i].View())
  }

  /** The body of `upcoming_birthday`'s loop for one record: None when
      `replace` raises, otherwise whether the record is listed. */
  method BirthdayWithin(record: Record, today: Date, days: int) returns (r: Option<bool>)
    requires record.Valid() && ValidDate(today)
    ensures r.None? <==> Fails(record.View(), today)
    ensures r.Some? ==> (r.value <==> InWindow(record.View(), today, days))
  {
    if record.birthday.None? {
      return Some(false);
    }
    var b := record.birthday.value;
    var thisYear := ReplaceYear(b, today.year);
    if thisYear.None? {
      return None;
    }
    var next := thisYear.value;
    if Before(next, today) {
      var nextYear := ReplaceYear(b, today.year + 1);
      if nextYear.None? {
        return None;
      }
      next := nextYear.value;
    }
    assert NextOccurrence(b, today) == Some(next);
    return Some(0 <= Ordinal(next) - Ordinal(today) <= days);
  }

  lemma ViewsSnoc(rs: seq<Record>, r: Record)
    ensures Views(rs + [r]) == Views(rs) + [r.View()]
  {
  }

  /** Popping `oldName` and storing `newName` keeps the key order a list of
      the dict's keys, each once. */
  lemma MovedKey(keys: seq<string>, names: set<string>, oldName: string, newName: string)
    requires Distinct(keys) && (forall k :: k in keys <==> k in names)
    ensures Distinct(Put(RemoveFirst(keys, oldName), newName))
    ensures forall k :: k in Put(RemoveFirst(keys, oldName), newName) <==> k in names - {oldName} + {newName}
  {
    RemoveFirstDistinct(keys, oldName);
    RemoveFirstMembers(keys, oldName);
  }

  /** The address book: a dict from name to record. `keys` is the dict's
      insertion order and `data` its entries. */
  class AddressBook {
    var keys: seq<string>
    var data: map<string, Record>

    /** The keys are the dict's keys, each once, and every record is stored
        under its own name. */
    ghost predicate Valid()
      reads this, data.Values
    {
      && Distinct(keys)
      && (forall k :: k in keys <==> k in data)
      && (forall k :: k in data ==> data[k].name == k && data[k].Valid())
    }

    /** `data.values()`: the contacts in insertion order. */
    function Listing(): (cs: seq<Contact>)
      requires Valid()
      reads this, data.Values
      ensures |cs| == |keys| && forall i :: 0 <= i < |keys| ==> cs[i] == data[keys[i]].View()
    {
      seq(|keys|, i requires 0 <= i < |keys| && keys[i] in data reads this, data.Values => data[keys[i]].View())
    }

    constructor ()
      ensures keys == [] && data == map[]
      ensures Valid()
    {
      keys := [];
      data := map[];
    }

    /** `add_record`: store the record under its name; an existing entry of
        that name is overwritten in place, a new one goes last. */
    method AddRecord(r: Record)
      requires Valid() && r.Valid()
      modifies this
      ensures Valid()
      ensures keys == Put(old(keys), r.name) && data == old(data)[r.name := r]
    {
      data := data[r.name := r];
      keys := Put(keys, r.name);
    }

    /** `find_record`: `data.get(name)`. */
    function FindRecord(name: string): (r: Option<Record>)
      reads this
      ensures r.Some? <==> name in data
      ensures r.Some? ==> r.value == data[name]
    {
      if name in data then Some(data[name]) else None
    }

    /** `delete_record`: remove the entry when there is one, otherwise do nothing. */
    method DeleteRecord(name: string)
      requires Valid()
      modifies this
      ensures Valid()
      ensures keys == RemoveFirst(old(keys), name) && data == old(data) - {name}
    {
      if name in data {
        RemoveFirstDistinct(keys, name);
        RemoveFirstMembers(keys, name);
        data := data - {name};
        keys := RemoveFirst(keys, name);
      }
    }

    /** `rename_record`: pop the record, rename it and store it under the new
        name (here stored first and renamed after, which ends in the same
        state). The new name takes its place in the order like any `d[k] = v`:
        the place of an entry it overwrites, or last. */
    method RenameRecord(oldName: string, newName: string) returns (o: Outcome<BookError>)
      requires Valid()
      modifies this, if oldName in data then {data[oldName]} else {}
      ensures Valid()
      ensures o == if oldName in old(data) then Pass else Fail(NameNotFound)
      ensures o.Fail? ==> keys == old(keys) && data == old(data)
      ensures o.Pass? ==>
                && keys == Put(RemoveFirst(old(keys), oldName), newName)
                && data == (old(data) - {oldName})[newName := old(data)[oldName]]
                && data[newName].View() == old(data[oldName].View()).(name := newName)
    {
      if oldName !in data {
        return Fail(NameNotFound);
      }
      var record := data[oldName];
      MovedKey(keys, data.Keys, oldName, newName);
      ghost var oldData := data;
      data := (data - {oldName})[newName := record];
      keys := Put(RemoveFirst(keys, oldName), newName);
      forall k | k in data && k != newName
        ensures data[k] == oldData[k] && data[k] != record && data[k].name == k && data[k].Valid()
      {
        assert oldData[k] != record;
      }
      record.Rename(newName);
      assert record.Valid() by {
        assert record.View() == old(record.View()).(name := newName);
      }
      forall k | k in data && k != newName ensures data[k].name == k && data[k].Valid() {
        assert data[k] != record;
      }
      return Pass;
    }

    /** `upcoming_birthday(days)` with today's date given: the records whose
        birthday's next occurrence is 0 to `days` days away, in book order;
        None when `replace` raises for some record. */
    method UpcomingBirthday(today: Date, days: int) returns (r: Option<seq<Record>>)
      requires Valid() && ValidDate(today)
      ensures Upcoming(Listing(), today, days) == if r.None? then None else Some(Views(r.value))
      ensures r.Some? ==> forall x :: x in r.value ==> x in data.Values
    {
      ghost var cs := Listing();
      var found: seq<Record> := [];
      for i := 0 to |keys|
        invariant Upcoming(cs[..i], today, days) == Some(Views(found))
        invariant forall x :: x in found ==> x in data.Values
      {
        var record := data[keys[i]];
        assert cs[i] == record.View();
        UpcomingPrefix(cs, i, today, days);
        var within := BirthdayWithin(record, today, days);
        if within.None? {
          assert Upcoming(cs, today, days).None? by {
            UpcomingIsFilter(cs, today, days);
          }
          return None;
        }
        assert !Fails(cs[i], today);
        if within.value {
          assert Upcoming(cs[..i + 1], today, days) == Some(Views(found) + [cs[i]]);
          ViewsSnoc(found, record);
          found := found + [record];
        } else {
          assert !InWindow(cs[i], today, days);
          assert Views(found) + [] == Views(found);
          assert Upcoming(cs[..i + 1], today, days) == Some(Views(found));
        }
      }
      assert cs[..|keys|] == cs;
      return Some(found);
    }
  }
}
