/** The pieces of Python's `str` that the contact store relies on, over ASCII
    text: `isdigit`, `int`, `lower`, `in` (substring), `split`, `join` and
    `sorted` (code-point order). */
module Text {

  // ---------------------------------------------------------------------
  // Digits

  predicate IsDigit(c: char) {
    '0' <= c <= '9'
  }

  /** `s.isdigit()`: every character a digit, and false on the empty string. */
  predicate IsDigits(s: string) {
    |s| > 0 && forall i :: 0 <= i < |s| ==> IsDigit(s[i])
  }

  function Pow10(k: nat): (p: nat)
    ensures p >= 1
  {
    if k == 0 then 1 else 10 * Pow10(k - 1)
  }

  /** `int(s)` on a string of decimal digits (leading zeros allowed). */
  function DigitsValue(s: string): (n: nat)
    requires forall i :: 0 <= i < |s| ==> IsDigit(s[i])
    ensures n < Pow10(|s|)
    decreases |s|
  {
    if s == [] then 0
    else
      var d := s[|s| - 1] as int - '0' as int;
      assert IsDigit(s[|s| - 1]);
      DigitsValue(s[..|s| - 1]) * 10 + d
  }

  /** A leading zero does not change the value `int` reads. */
  lemma {:induction false} LeadingZeroIgnored(s: string)
    requires forall i :: 0 <= i < |s| ==> IsDigit(s[i])
    ensures DigitsValue("0" + s) == DigitsValue(s)
    decreases |s|
  {
    if s != [] {
      var p := s[..|s| - 1];
      assert ("0" + s)[..|s|] == "0" + p;
      LeadingZeroIgnored(p);
    } else {
      assert ("0" + s)[..0] == [];
    }
  }

  /** The digit character of `d`, for `0 <= d <= 9`. */
  function DigitChar(d: int): (c: char)
    requires 0 <= d <= 9
    ensures IsDigit(c) && c as int - '0' as int == d
  {
    (d + '0' as int) as char
  }

  // ---------------------------------------------------------------------
  // Case

  /** `c.lower()` restricted to ASCII: only 'A'..'Z' change. */
  function LowerChar(c: char): char {
    if 'A' <= c <= 'Z' then (c as int - 'A' as int + 'a' as int) as char else c
  }

  predicate IsLower(s: string) {
    forall i :: 0 <= i < |s| ==> !('A' <= s[i] <= 'Z')
  }

  /** `s.lower()`: the result is lower case, and a lower-case string is its own lower. */
  function Lower(s: string): (r: string)
    ensures |r| == |s| && forall i :: 0 <= i < |s| ==> r[i] == LowerChar(s[i])
    ensures IsLower(r)
    ensures IsLower(s) ==> r == s
  {
    seq(|s|, i requires 0 <= i < |s| => LowerChar(s[i]))
  }

  // ---------------------------------------------------------------------
  // Searching

  /** Index of the first `x` in `s`, or `|s|` when there is none. */
  function IndexOf<T(==)>(s: seq<T>, x: T): (i: nat)
    ensures i <= |s|
    ensures i < |s| ==> s[i] == x
    ensures x !in s[..i]
    ensures i == |s| <==> x !in s
    decreases |s|
  {
    if s == [] then 0
    else if s[0] == x then 0
    else
      var j := IndexOf(s[1..], x);
      assert s[..1 + j] == [s[0]] + s[1..][..j];
      1 + j
  }

  lemma {:induction false} IndexOfAfter<T>(a: seq<T>, x: T, t: seq<T>)
    requires x !in a
    ensures IndexOf(a + [x] + t, x) == |a|
    decreases |a|
  {
    if a != [] {
      assert (a + [x] + t)[1..] == a[1..] + [x] + t;
      IndexOfAfter(a[1..], x, t);
    }
  }

  /** The first match is the position `i` with `s[i] == x` and no `x` before it. */
  lemma IndexOfAt<T>(s: seq<T>, x: T, i: int)
    requires 0 <= i < |s| && s[i] == x && x !in s[..i]
    ensures IndexOf(s, x) == i
  {
  }

  predicate OccursAt(hay: string, needle: string, i: int) {
    0 <= i && i + |needle| <= |hay| && hay[i..i + |needle|] == needle
  }

  /** Python's `needle in hay`. */
  function Contains(hay: string, needle: string): bool
    decreases |hay|
  {
    if |needle| > |hay| then false
    else if hay[..|needle|] == needle then true
    else Contains(hay[1..], needle)
  }

  /** `needle in hay` holds exactly when `needle` occurs at some position of `hay`. */
  lemma {:induction false} ContainsIff(hay: string, needle: string)
    ensures Contains(hay, needle) <==> exists i :: OccursAt(hay, needle, i)
    decreases |hay|
  {
    if |needle| > |hay| {
    } else if hay[..|needle|] == needle {
      assert OccursAt(hay, needle, 0);
    } else {
      ContainsIff(hay[1..], needle);
      forall i | OccursAt(hay, needle, i) ensures OccursAt(hay[1..], needle, i - 1) {
        assert hay[1..][i - 1..i - 1 + |needle|] == hay[i..i + |needle|];
      }
      forall i | OccursAt(hay[1..], needle, i) ensures OccursAt(hay, needle, i + 1) {
        assert hay[1..][i..i + |needle|] == hay[i + 1..i + 1 + |needle|];
      }
    }
  }

  /** The empty string is in every string. */
  lemma EmptyContained(hay: string)
    ensures Contains(hay, "")
  {
    ContainsIff(hay, "");
    assert OccursAt(hay, "", 0);
  }

  // ---------------------------------------------------------------------
  // split and join

  /** `s.split(sep)` for a one-character separator. */
  function Split(s: string, sep: char): (parts: seq<string>)
    ensures |parts| > 0
    ensures forall k :: 0 <= k < |parts| ==> sep !in parts[k]
    decreases |s|
  {
    var i := IndexOf(s, sep);
    if i == |s| then [s] else [s[..i]] + Split(s[i + 1..], sep)
  }

  /** `sep.join(parts)`. */
  function Join(parts: seq<string>, sep: string): string
    decreases |parts|
  {
    if parts == [] then ""
    else if |parts| == 1 then parts[0]
    else parts[0] + sep + Join(parts[1..], sep)
  }

  /** `needle in hay` survives putting text before or after `hay`. */
  lemma ContainsExtended(pre: string, hay: string, post: string, needle: string)
    requires Contains(hay, needle)
    ensures Contains(pre + hay + post, needle)
  {
    ContainsIff(hay, needle);
    var i :| OccursAt(hay, needle, i);
    var whole := pre + hay + post;
    assert whole[|pre| + i..|pre| + i + |needle|] == hay[i..i + |needle|];
    assert OccursAt(whole, needle, |pre| + i);
    ContainsIff(whole, needle);
  }

  /** Every part is found in `sep.join(parts)`. */
  lemma {:induction false} PartsInJoin(parts: seq<string>, sep: string)
    ensures forall k :: 0 <= k < |parts| ==> Contains(Join(parts, sep), parts[k])
    decreases |parts|
  {
    if |parts| > 0 {
      ContainsIff(parts[0], parts[0]);
      assert OccursAt(parts[0], parts[0], 0);
    }
    if |parts| > 1 {
      var rest := Join(parts[1..], sep);
      ContainsExtended([], parts[0], sep + rest, parts[0]);
      assert [] + parts[0] + (sep + rest) == Join(parts, sep);
      PartsInJoin(parts[1..], sep);
      forall k | 1 <= k < |parts| ensures Contains(Join(parts, sep), parts[k]) {
        assert parts[1..][k - 1] == parts[k];
        ContainsExtended(parts[0] + sep, rest, [], parts[k]);
        assert parts[0] + sep + rest + [] == Join(parts, sep);
      }
    }
  }

  /** Joining the pieces of a split gives back the original text. */
  lemma {:induction false} JoinSplit(s: string, sep: char)
    ensures Join(Split(s, sep), [sep]) == s
    decreases |s|
  {
    var i := IndexOf(s, sep);
    if i < |s| {
      var rest := Split(s[i + 1..], sep);
      JoinSplit(s[i + 1..], sep);
      assert Split(s, sep) == [s[..i]] + rest;
      assert ([s[..i]] + rest)[1..] == rest;
      assert s == s[..i] + [sep] + s[i + 1..];
    }
  }

  /** Splitting a join of separator-free pieces gives back the pieces. */
  lemma {:induction false} SplitJoin(parts: seq<string>, sep: char)
    requires |parts| > 0
    requires forall k :: 0 <= k < |parts| ==> sep !in parts[k]
    ensures Split(Join(parts, [sep]), sep) == parts
    decreases |parts|
  {
    if |parts| == 1 {
      assert IndexOf(parts[0], sep) == |parts[0]|;
    } else {
      var head, tail := parts[0], Join(parts[1..], [sep]);
      assert Join(parts, [sep]) == head + [sep] + tail;
      SplitStep(head, sep, tail);
      SplitJoin(parts[1..], sep);
      assert parts == [head] + parts[1..];
    }
  }

  /** A separator-free head ends at the first separator. */
  lemma SplitStep(head: string, sep: char, tail: string)
    requires sep !in head
    ensures Split(head + [sep] + tail, sep) == [head] + Split(tail, sep)
  {
    var whole := head + [sep] + tail;
    IndexOfAfter(head, sep, tail);
    assert whole[..|head|] == head && whole[|head| + 1..] == tail;
  }

  /** An occurrence in `head + sep + tail` of a needle without `sep` lies in
      `head` or in `tail`: it cannot cover the separator. */
  lemma OccurrenceAvoidsSeparator(head: string, sep: char, tail: string, needle: string, i: int)
    requires sep !in needle
    requires OccursAt(head + [sep] + tail, needle, i)
    ensures OccursAt(head, needle, i) || OccursAt(tail, needle, i - |head| - 1)
  {
    var whole, n := head + [sep] + tail, |needle|;
    if i + n <= |head| {
      assert whole[i..i + n] == head[i..i + n];
    } else if i > |head| {
      assert whole[i..i + n] == tail[i - |head| - 1..i - |head| - 1 + n];
    } else {
      SeparatorInside(head, sep, tail, needle, i);
      assert false;
    }
  }

  lemma SeparatorInside(head: string, sep: char, tail: string, needle: string, i: int)
    requires OccursAt(head + [sep] + tail, needle, i) && i <= |head| < i + |needle|
    ensures sep in needle
  {
    assert needle[|head| - i] == (head + [sep] + tail)[|head|];
  }

  lemma OccurrenceInParts(head: string, sep: char, tail: string, needle: string)
    ensures forall i :: OccursAt(head, needle, i) ==> OccursAt(head + [sep] + tail, needle, i)
    ensures forall i :: OccursAt(tail, needle, i) ==> OccursAt(head + [sep] + tail, needle, i + |head| + 1)
  {
    var whole, n := head + [sep] + tail, |needle|;
    forall i | OccursAt(head, needle, i) ensures OccursAt(whole, needle, i) {
      assert whole[i..i + n] == head[i..i + n];
    }
    forall i | OccursAt(tail, needle, i) ensures OccursAt(whole, needle, i + |head| + 1) {
      assert whole[i + |head| + 1..i + |head| + 1 + n] == tail[i..i + n];
    }
  }

  /** A needle without `sep` is found in `head + sep + tail` exactly when it is
      found in `head` or in `tail`. */
  lemma ContainsAroundSeparator(head: string, sep: char, tail: string, needle: string)
    requires sep !in needle
    ensures Contains(head + [sep] + tail, needle) <==> Contains(head, needle) || Contains(tail, needle)
  {
    var whole := head + [sep] + tail;
    ContainsIff(whole, needle);
    ContainsIff(head, needle);
    ContainsIff(tail, needle);
    if Contains(whole, needle) {
      var i :| OccursAt(whole, needle, i);
      OccurrenceAvoidsSeparator(head, sep, tail, needle, i);
    }
    OccurrenceInParts(head, sep, tail, needle);
  }

  /** A needle without `sep` in it is found in `sep.join(parts)` exactly when
      it is found in one of the parts. */
  lemma {:induction false} ContainsInJoin(parts: seq<string>, sep: char, needle: string)
    requires sep !in needle && needle != ""
    ensures Contains(Join(parts, [sep]), needle) <==>
            exists k :: 0 <= k < |parts| && Contains(parts[k], needle)
    decreases |parts|
  {
    if parts == [] {
      ContainsIff("", needle);
    } else if |parts| > 1 {
      ContainsInJoin(parts[1..], sep, needle);
      ContainsAroundSeparator(parts[0], sep, Join(parts[1..], [sep]), needle);
      forall k | 1 <= k < |parts| ensures parts[k] == parts[1..][k - 1] { }
    }
  }

  // ---------------------------------------------------------------------
  // Ordering and `sorted`

  /** Python's `<` on strings: lexicographic by code point. */
  predicate LexLess(a: string, b: string)
    decreases |a|
  {
    if a == [] then b != []
    else if b == [] then false
    else if a[0] != b[0] then a[0] < b[0]
    else LexLess(a[1..], b[1..])
  }

  lemma {:induction false} LexIrreflexive(a: string)
    ensures !LexLess(a, a)
    decreases |a|
  {
    if a != [] { LexIrreflexive(a[1..]); }
  }

  lemma {:induction false} LexTotal(a: string, b: string)
    ensures a == b || LexLess(a, b) || LexLess(b, a)
    decreases |a|
  {
    if a != [] && b != [] && a[0] == b[0] {
      LexTotal(a[1..], b[1..]);
      assert a == [a[0]] + a[1..] && b == [b[0]] + b[1..];
    }
  }

  lemma {:induction false} LexAsymmetric(a: string, b: string)
    ensures !(LexLess(a, b) && LexLess(b, a))
    decreases |a|
  {
    if a != [] && b != [] && a[0] == b[0] { LexAsymmetric(a[1..], b[1..]); }
  }

  lemma {:induction false} LexTransitive(a: string, b: string, c: string)
    requires LexLess(a, b) && LexLess(b, c)
    ensures LexLess(a, c)
    decreases |a|
  {
    if a != [] && a[0] == b[0] && b[0] == c[0] {
      LexTransitive(a[1..], b[1..], c[1..]);
    }
  }

  predicate StrictlySorted(r: seq<string>) {
    forall i, j :: 0 <= i < j < |r| ==> LexLess(r[i], r[j])
  }

  predicate IsLeast(m: string, s: set<string>) {
    m in s && forall x :: x in s && x != m ==> LexLess(m, x)
  }

  lemma {:induction false} LeastExists(s: set<string>)
    requires s != {}
    ensures exists m :: IsLeast(m, s)
    decreases |s|
  {
    var x :| x in s;
    if s == {x} {
      assert IsLeast(x, s);
    } else {
      LeastExists(s - {x});
      var m :| IsLeast(m, s - {x});
      LexTotal(x, m);
      if LexLess(x, m) {
        forall y | y in s && y != x ensures LexLess(x, y) {
          if y != m { LexTransitive(x, m, y); }
        }
        assert IsLeast(x, s);
      } else {
        assert IsLeast(m, s);
      }
    }
  }

  lemma LeastUnique(s: set<string>)
    ensures forall a, b :: IsLeast(a, s) && IsLeast(b, s) ==> a == b
  {
    forall a, b | IsLeast(a, s) && IsLeast(b, s) ensures a == b {
      LexAsymmetric(a, b);
    }
  }

  /** `sorted(s)` for a set of strings: the same elements, each once, ascending. */
  function SortedSeq(s: set<string>): (r: seq<string>)
    ensures forall x :: x in r <==> x in s
    ensures |r| == |s|
    ensures StrictlySorted(r)
    decreases |s|
  {
    if s == {} then []
    else
      LeastExists(s);
      LeastUnique(s);
      var m :| IsLeast(m, s);
      var rest := SortedSeq(s - {m});
      assert forall j :: 0 <= j < |rest| ==> rest[j] in s - {m};
      [m] + rest
  }

  /** `sorted(s)` begins with the least element of `s`, followed by the
      rest sorted. */
  lemma SortedSeqFirst(s: set<string>, m: string)
    requires IsLeast(m, s)
    ensures SortedSeq(s) == [m] + SortedSeq(s - {m})
  {
    LeastUnique(s);
  }
}
