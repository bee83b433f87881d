/** The field validators of the contact store: phone numbers, `DD.MM.YYYY`
    birthdays with the Gregorian month lengths, and the e-mail shape. */
module Validator {
  import opened Results
  import opened Text
  import opened Dates

  // ---------------------------------------------------------------------
  // Phones

  /** `validate_phone`: the text itself when it is 9 to 14 digits, otherwise
      None (the source raises ValueError). */
  function ValidatePhone(s: string): (r: Option<string>)
    ensures r.Some? <==> IsDigits(s) && 9 <= |s| <= 14
    ensures r.Some? ==> r.value == s
  {
    if IsDigits(s) && 9 <= |s| <= 14 then Some(s) else None
  }

  predicate IsValidPhone(s: string) {
    ValidatePhone(s).Some?
  }

  // ---------------------------------------------------------------------
  // Birthdays

  /** Why a birthday text is refused, in the order the checks run. */
  datatype DateError =
    | BadFormat                   // not three '.'-separated runs of digits
    | MonthOutOfRange             // month outside 1..12
    | YearNotFourDigits           // the year text is not exactly four characters
    | DayOutOfRange(maxDay: int)  // day outside 1..maxDay
    | YearOutOfRange              // year 0: `datetime` has no year 0

  /** `validate_birthday`: split on '.', demand three runs of digits, then
      check the month, the width of the year and the day against the month's
      last day; `datetime(year, month, day)` finally refuses year 0. */
  function ValidateBirthday(s: string): (r: Result<Date, DateError>)
    ensures r.Ok? ==> ValidDate(r.value)
  {
    var parts := Split(s, '.');
    if |parts| != 3 then Err(BadFormat) else CheckRuns(parts[0], parts[1], parts[2])
  }

  /** The checks on the day, month and year texts, in the source's order. */
  function CheckRuns(dayText: string, monthText: string, yearText: string): (r: Result<Date, DateError>)
    ensures r.Ok? ==> ValidDate(r.value)
  {
    if !(IsDigits(dayText) && IsDigits(monthText) && IsDigits(yearText)) then Err(BadFormat)
    else
      var day, month, year := DigitsValue(dayText), DigitsValue(monthText), DigitsValue(yearText);
      if !(1 <= month <= 12) then Err(MonthOutOfRange)
      else if |yearText| != 4 then Err(YearNotFourDigits)
      else if !(1 <= day <= MaxDay(month, year)) then Err(DayOutOfRange(MaxDay(month, year)))
      else if year < 1 then Err(YearOutOfRange)
      else
        assert Pow10(4) == 10000;
        Ok(Date(year, month, day))
  }

  /** Three dot-free runs are checked as the day, month and year texts. */
  lemma ReadsRuns(a: string, b: string, c: string)
    requires '.' !in a && '.' !in b && '.' !in c
    ensures ValidateBirthday(a + "." + b + "." + c) == CheckRuns(a, b, c)
  {
    SplitThree(a, b, c);
  }

  /** `s` is `a.b.c` with three runs of digits, a four-character year run, and
      the runs read as the day, month and year of the valid date `d`. */
  ghost predicate Spells(s: string, a: string, b: string, c: string, d: Date) {
    && s == a + "." + b + "." + c
    && IsDigits(a) && IsDigits(b) && IsDigits(c) && |c| == 4
    && DigitsValue(a) == d.day && DigitsValue(b) == d.month && DigitsValue(c) == d.year
    && ValidDate(d)
  }

  lemma SplitThree(a: string, b: string, c: string)
    requires '.' !in a && '.' !in b && '.' !in c
    ensures Split(a + "." + b + "." + c, '.') == [a, b, c]
  {
    var parts := [a, b, c];
    SplitJoin(parts, '.');
    JoinThree(a, b, c);
  }

  lemma JoinThree(a: string, b: string, c: string)
    ensures Join([a, b, c], ".") == a + "." + b + "." + c
  {
    assert [a, b, c][1..] == [b, c] && [b, c][1..] == [c];
    assert Join([c], ".") == c;
    assert Join([b, c], ".") == b + "." + c;
    assert a + "." + (b + "." + c) == a + "." + b + "." + c;
  }

  lemma DigitsHaveNoDot(s: string)
    requires IsDigits(s)
    ensures '.' !in s
  {
  }

  /** A birthday text is accepted exactly when it spells a valid date as
      `day.month.year` with digit runs and a four-character year, and the
      result is that date. */
  lemma BirthdayAcceptance(s: string, d: Date)
    ensures ValidateBirthday(s) == Ok(d) <==> exists a, b, c :: Spells(s, a, b, c, d)
  {
    if ValidateBirthday(s) == Ok(d) {
      AcceptedSpells(s);
    }
    if exists a, b, c :: Spells(s, a, b, c, d) {
      var a, b, c :| Spells(s, a, b, c, d);
      DigitsHaveNoDot(a);
      DigitsHaveNoDot(b);
      DigitsHaveNoDot(c);
      ReadsRuns(a, b, c);
    }
  }

  /** An accepted text is its three runs joined by dots. */
  lemma AcceptedSpells(s: string)
    requires ValidateBirthday(s).Ok?
    ensures var parts := Split(s, '.');
            |parts| == 3 && Spells(s, parts[0], parts[1], parts[2], ValidateBirthday(s).value)
  {
    var parts := Split(s, '.');
    JoinSplit(s, '.');
    assert parts == [parts[0], parts[1], parts[2]];
    JoinThree(parts[0], parts[1], parts[2]);
  }

  /** `s` is three runs of digits joined by dots. */
  ghost predicate DigitRuns(s: string, a: string, b: string, c: string) {
    s == a + "." + b + "." + c && IsDigits(a) && IsDigits(b) && IsDigits(c)
  }

  /** The format error is reported exactly for a text that is not three
      non-empty runs of digits joined by dots: a wrong number of dots, an
      empty run or a run with any other character. */
  lemma BadFormatIff(s: string)
    ensures ValidateBirthday(s) == Err(BadFormat) <==> !exists a, b, c :: DigitRuns(s, a, b, c)
  {
    var parts := Split(s, '.');
    if exists a, b, c :: DigitRuns(s, a, b, c) {
      var a, b, c :| DigitRuns(s, a, b, c);
      DigitsHaveNoDot(a);
      DigitsHaveNoDot(b);
      DigitsHaveNoDot(c);
      ReadsRuns(a, b, c);
    } else if |parts| == 3 {
      JoinSplit(s, '.');
      assert parts == [parts[0], parts[1], parts[2]];
      JoinThree(parts[0], parts[1], parts[2]);
      assert !DigitRuns(s, parts[0], parts[1], parts[2]);
    }
  }

  /** With three runs of digits, a month outside 1..12 is reported before the
      width of the year is looked at. */
  lemma MonthCheckedBeforeYear(a: string, b: string, c: string)
    requires IsDigits(a) && IsDigits(b) && IsDigits(c)
    requires !(1 <= DigitsValue(b) <= 12)
    ensures ValidateBirthday(a + "." + b + "." + c) == Err(MonthOutOfRange)
  {
    DigitsHaveNoDot(a);
    DigitsHaveNoDot(b);
    DigitsHaveNoDot(c);
    ReadsRuns(a, b, c);
  }

  /** An empty run (two dots in a row, or a dot at either end) is refused as
      badly formatted: `isdigit` is false on the empty string. */
  lemma EmptyRunRejected(a: string, b: string, c: string)
    requires '.' !in a && '.' !in b && '.' !in c
    requires a == "" || b == "" || c == ""
    ensures ValidateBirthday(a + "." + b + "." + c) == Err(BadFormat)
  {
    ReadsRuns(a, b, c);
  }

  /** With three runs of digits, a valid month and a four-character year other
      than 0000, the text is accepted exactly when the day lies in 1..MaxDay,
      and otherwise the error names that last day. */
  lemma DayChecked(a: string, b: string, c: string)
    requires IsDigits(a) && IsDigits(b) && IsDigits(c) && |c| == 4
    requires 1 <= DigitsValue(b) <= 12 && DigitsValue(c) >= 1
    ensures var day, month, year := DigitsValue(a), DigitsValue(b), DigitsValue(c);
            ValidateBirthday(a + "." + b + "." + c) ==
              if 1 <= day <= MaxDay(month, year) then Ok(Date(year, month, day))
              else Err(DayOutOfRange(MaxDay(month, year)))
  {
    DigitsHaveNoDot(a);
    DigitsHaveNoDot(b);
    DigitsHaveNoDot(c);
    ReadsRuns(a, b, c);
  }

  /** Year 0000 passes every explicit check and is refused by the date itself. */
  lemma YearZeroRefused(a: string, b: string, c: string)
    requires IsDigits(a) && IsDigits(b) && IsDigits(c) && |c| == 4 && DigitsValue(c) == 0
    requires 1 <= DigitsValue(b) <= 12 && 1 <= DigitsValue(a) <= MaxDay(DigitsValue(b), 0)
    ensures ValidateBirthday(a + "." + b + "." + c) == Err(YearOutOfRange)
  {
    DigitsHaveNoDot(a);
    DigitsHaveNoDot(b);
    DigitsHaveNoDot(c);
    ReadsRuns(a, b, c);
  }

  /** An extra leading zero in the day changes nothing: `int` ignores it. */
  lemma DayLeadingZero(a: string, b: string, c: string)
    requires IsDigits(a) && IsDigits(b) && IsDigits(c)
    ensures ValidateBirthday(("0" + a) + "." + b + "." + c) == ValidateBirthday(a + "." + b + "." + c)
  {
    DigitsHaveNoDot(a);
    DigitsHaveNoDot(b);
    DigitsHaveNoDot(c);
    LeadingZeroIgnored(a);
    ReadsRuns(a, b, c);
    ReadsRuns("0" + a, b, c);
  }

  /** An extra leading zero in the month changes nothing either: only the
      year's width is checked. */
  lemma MonthLeadingZero(a: string, b: string, c: string)
    requires IsDigits(a) && IsDigits(b) && IsDigits(c)
    ensures ValidateBirthday(a + "." + ("0" + b) + "." + c) == ValidateBirthday(a + "." + b + "." + c)
  {
    DigitsHaveNoDot(a);
    DigitsHaveNoDot(b);
    DigitsHaveNoDot(c);
    LeadingZeroIgnored(b);
    ReadsRuns(a, b, c);
    ReadsRuns(a, "0" + b, c);
  }

  function DigitOf(c: char): int {
    c as int - '0' as int
  }

  /** `int` of a two-digit text. */
  lemma TwoDigits(c1: char, c2: char)
    requires IsDigit(c1) && IsDigit(c2)
    ensures DigitsValue([c1, c2]) == DigitOf(c1) * 10 + DigitOf(c2)
  {
    assert [c1, c2][..1] == [c1];
  }

  /** `int` of a four-digit text. */
  lemma FourDigits(c1: char, c2: char, c3: char, c4: char)
    requires IsDigit(c1) && IsDigit(c2) && IsDigit(c3) && IsDigit(c4)
    ensures DigitsValue([c1, c2, c3, c4]) ==
              ((DigitOf(c1) * 10 + DigitOf(c2)) * 10 + DigitOf(c3)) * 10 + DigitOf(c4)
  {
    assert [c1, c2, c3, c4][..3] == [c1, c2, c3];
    assert [c1, c2, c3][..2] == [c1, c2];
    TwoDigits(c1, c2);
  }

  /** The runs of `29.02.2000`, `29.02.1900` and `31.04.2020`, read by `int`. */
  lemma ExampleRuns()
    ensures IsDigits("29") && DigitsValue("29") == 29
    ensures IsDigits("31") && DigitsValue("31") == 31
    ensures IsDigits("02") && DigitsValue("02") == 2
    ensures IsDigits("04") && DigitsValue("04") == 4
    ensures IsDigits("2000") && DigitsValue("2000") == 2000
    ensures IsDigits("1900") && DigitsValue("1900") == 1900
    ensures IsDigits("2020") && DigitsValue("2020") == 2020
  {
    TwoDigits('2', '9');
    TwoDigits('3', '1');
    TwoDigits('0', '2');
    TwoDigits('0', '4');
    FourDigits('2', '0', '0', '0');
    FourDigits('1', '9', '0', '0');
    FourDigits('2', '0', '2', '0');
  }

  /** 2000 is a leap year, so 29 February exists. */
  lemma LeapDay2000(s: string)
    requires s == "29.02.2000"
    ensures ValidateBirthday(s) == Ok(Date(2000, 2, 29))
  {
    ExampleRuns();
    assert IsLeapYear(2000) by {
      assert 2000 == 400 * 5;
    }
    assert s == "29" + "." + "02" + "." + "2000";
    ReadsRuns("29", "02", "2000");
  }

  /** 1900 is divisible by 100 and not by 400, so February ends on the 28th. */
  lemma LeapDay1900(s: string)
    requires s == "29.02.1900"
    ensures ValidateBirthday(s) == Err(DayOutOfRange(28))
  {
    ExampleRuns();
    assert !IsLeapYear(1900) by {
      assert 1900 == 100 * 19 && 1900 == 400 * 4 + 300;
    }
    assert s == "29" + "." + "02" + "." + "1900";
    ReadsRuns("29", "02", "1900");
  }

  /** April has 30 days. */
  lemma AprilHasThirty(s: string)
    requires s == "31.04.2020"
    ensures ValidateBirthday(s) == Err(DayOutOfRange(30))
  {
    ExampleRuns();
    assert s == "31" + "." + "04" + "." + "2020";
    ReadsRuns("31", "04", "2020");
  }

  // ---------------------------------------------------------------------
  // E-mail

  predicate IsAsciiAlnum(c: char) {
    'a' <= c <= 'z' || 'A' <= c <= 'Z' || '0' <= c <= '9'
  }

  /** `[a-zA-Z0-9_.+-]` */
  predicate IsLocalChar(c: char) {
    IsAsciiAlnum(c) || c == '_' || c == '.' || c == '+' || c == '-'
  }

  /** `[a-zA-Z0-9-]` */
  predicate IsLabelChar(c: char) {
    IsAsciiAlnum(c) || c == '-'
  }

  /** `[a-zA-Z0-9-.]` */
  predicate IsSuffixChar(c: char) {
    IsAsciiAlnum(c) || c == '-' || c == '.'
  }

  predicate IsLocalPart(s: string) {
    |s| > 0 && forall i :: 0 <= i < |s| ==> IsLocalChar(s[i])
  }

  predicate IsDomainLabel(s: string) {
    |s| > 0 && forall i :: 0 <= i < |s| ==> IsLabelChar(s[i])
  }

  predicate IsDomainSuffix(s: string) {
    |s| > 0 && forall i :: 0 <= i < |s| ==> IsSuffixChar(s[i])
  }

  /** The whole of `s` matches `[a-zA-Z0-9_.+-]+@[a-zA-Z0-9-]+\.[a-zA-Z0-9-.]+`.
      No class before the '@' holds '@' and the domain-name class holds no '.', so
      the match splits at the first '@' and at the first '.' after it. */
  predicate IsEmailShape(s: string) {
    var at := IndexOf(s, '@');
    && at < |s|
    && IsLocalPart(s[..at])
    && var rest := s[at + 1..];
       var dot := IndexOf(rest, '.');
       && dot < |rest|
       && IsDomainLabel(rest[..dot])
       && IsDomainSuffix(rest[dot + 1..])
  }

  /** `validate_email`: `re.match` of the pattern ending in `$`, which matches
      at the very end or just before one final newline. Never raises. */
  function ValidateEmail(s: string): (r: bool)
    ensures r <==> PatternMatches(s) || (|s| > 0 && s[|s| - 1] == '\n' && PatternMatches(s[..|s| - 1]))
  {
    EmailShapeIff(s);
    if |s| > 0 && s[|s| - 1] == '\n' then
      EmailShapeIff(s[..|s| - 1]);
      IsEmailShape(s) || IsEmailShape(s[..|s| - 1])
    else
      IsEmailShape(s)
  }

  /** The regular expression read directly: an '@' at `i` and a '.' at `j`
      cut `s` into a local part, a domain name and a suffix. */
  ghost predicate EmailSplitsAt(s: string, i: int, j: int) {
    && 0 <= i < j < |s|
    && s[i] == '@' && s[j] == '.'
    && IsLocalPart(s[..i])
    && IsDomainLabel(s[i + 1..j])
    && IsDomainSuffix(s[j + 1..])
  }

  /** The pattern matches the whole of `s` at some '@' and some '.'. */
  ghost predicate PatternMatches(s: string) {
    exists i, j :: EmailSplitsAt(s, i, j)
  }

  lemma ShapeSplits(s: string) returns (i: int, j: int)
    requires IsEmailShape(s)
    ensures i == IndexOf(s, '@') && EmailSplitsAt(s, i, j)
  {
    i := IndexOf(s, '@');
    var rest := s[i + 1..];
    var dot := IndexOf(rest, '.');
    j := i + 1 + dot;
    assert s[j] == rest[dot];
    assert s[i + 1..j] == rest[..dot];
    assert s[j + 1..] == rest[dot + 1..];
  }

  lemma SplitsGiveShape(s: string, i: int, j: int)
    requires EmailSplitsAt(s, i, j)
    ensures IndexOf(s, '@') == i && IndexOf(s[i + 1..], '.') == j - i - 1
    ensures IsEmailShape(s)
  {
    var local, name, suffix := s[..i], s[i + 1..j], s[j + 1..];
    assert s == local + ['@'] + s[i + 1..];
    assert '@' !in local by {
      forall k | 0 <= k < |local| ensures local[k] != '@' {
        assert IsLocalChar(local[k]);
      }
    }
    IndexOfAfter(local, '@', s[i + 1..]);
    var rest := s[i + 1..];
    assert rest == name + ['.'] + suffix;
    assert '.' !in name by {
      forall k | 0 <= k < |name| ensures name[k] != '.' {
        assert IsLabelChar(name[k]);
      }
    }
    IndexOfAfter(name, '.', suffix);
    assert rest[..j - i - 1] == name;
    assert rest[j - i..] == suffix;
  }

  /** Splitting at the first '@' and the first '.' after it finds a match
      exactly when the pattern matches at some pair of positions. */
  lemma EmailShapeIff(s: string)
    ensures IsEmailShape(s) <==> exists i, j :: EmailSplitsAt(s, i, j)
  {
    if IsEmailShape(s) {
      var i, j := ShapeSplits(s);
    }
    if exists i, j :: EmailSplitsAt(s, i, j) {
      var i, j :| EmailSplitsAt(s, i, j);
      SplitsGiveShape(s, i, j);
    }
  }

  /** A split of the pattern leaves no other '@' anywhere. */
  lemma SplitHasOneAt(s: string, i: int, j: int)
    requires EmailSplitsAt(s, i, j)
    ensures forall k :: 0 <= k < |s| && s[k] == '@' ==> k == i
  {
    var local, name, suffix := s[..i], s[i + 1..j], s[j + 1..];
    forall k | 0 <= k < |s| && k != i ensures s[k] != '@' {
      if k < i {
        assert local[k] == s[k] && IsLocalChar(local[k]);
      } else if k < j {
        assert name[k - i - 1] == s[k] && IsLabelChar(name[k - i - 1]);
      } else if k > j {
        assert suffix[k - j - 1] == s[k] && IsSuffixChar(suffix[k - j - 1]);
      }
    }
  }

  /** In a text of the e-mail shape, the first '@' is the only one. */
  lemma ShapeHasOneAt(t: string)
    requires IsEmailShape(t)
    ensures forall k :: 0 <= k < |t| && t[k] == '@' ==> k == IndexOf(t, '@')
  {
    var i, j := ShapeSplits(t);
    SplitHasOneAt(t, i, j);
  }

  /** An accepted address holds exactly one '@'. */
  lemma EmailHasOneAt(s: string)
    requires ValidateEmail(s)
    ensures exists i :: 0 <= i < |s| && s[i] == '@' && forall k :: 0 <= k < |s| && s[k] == '@' ==> k == i
  {
    var t := if IsEmailShape(s) then s else s[..|s| - 1];
    ShapeHasOneAt(t);
    var at := IndexOf(t, '@');
    forall k | 0 <= k < |s| && s[k] == '@' ensures k == at {
      if k < |t| {
        assert t[k] == s[k];
      }
    }
    assert s[at] == t[at];
  }

  lemma ShapeEndsInSuffixChar(t: string)
    requires IsEmailShape(t)
    ensures IsSuffixChar(t[|t| - 1])
  {
    var at := IndexOf(t, '@');
    var rest := t[at + 1..];
    var dot := IndexOf(rest, '.');
    var suffix := rest[dot + 1..];
    assert suffix[|suffix| - 1] == t[|t| - 1];
  }

  /** One final newline is accepted (`$` matches before it), two are not. */
  lemma EmailTrailingNewline(s: string)
    ensures ValidateEmail(s + "\n") == IsEmailShape(s)
  {
    var t := s + "\n";
    assert t[..|t| - 1] == s;
    if IsEmailShape(t) {
      ShapeEndsInSuffixChar(t);
      assert false;
    }
  }
}
