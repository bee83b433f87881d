/** The list and dict operations the contact store performs on ordered
    sequences: a comprehension's filter, `del xs[i]` of the first match,
    `xs[i] = y` at the first match, and the key order of a Python `dict`
    (an existing key keeps its place, a new key goes to the end). */
module Lists {
  import opened Text

  // ---------------------------------------------------------------------
  // Filtering

  /** `[x for x in s if p(x)]`. */
  function Filter<T>(s: seq<T>, p: T -> bool): (r: seq<T>)
    ensures |r| <= |s|
    decreases |s|
  {
    if s == [] then []
    else Filter(s[..|s| - 1], p) + (if p(s[|s| - 1]) then [s[|s| - 1]] else [])
  }

  /** One more element at the end adds it to the result when it passes. */
  lemma FilterSnoc<T>(s: seq<T>, x: T, p: T -> bool)
    ensures Filter(s + [x], p) == Filter(s, p) + (if p(x) then [x] else [])
  {
    assert (s + [x])[..|s|] == s;
  }

  /** Extending a prefix by one element adds it to the result when it passes. */
  lemma FilterPrefix<T>(s: seq<T>, i: int, p: T -> bool)
    requires 0 <= i < |s|
    ensures Filter(s[..i + 1], p) == Filter(s[..i], p) + (if p(s[i]) then [s[i]] else [])
  {
    assert s[..i + 1] == s[..i] + [s[i]];
    FilterSnoc(s[..i], s[i], p);
  }

  /** Filtering keeps order: a concatenation filters part by part. */
  lemma {:induction false} FilterAppend<T>(s: seq<T>, t: seq<T>, p: T -> bool)
    ensures Filter(s + t, p) == Filter(s, p) + Filter(t, p)
    decreases |t|
  {
    if t == [] {
      assert s + t == s;
    } else {
      var u := t[..|t| - 1];
      var x := t[|t| - 1];
      assert t == u + [x];
      assert s + t == (s + u) + [x];
      FilterSnoc(s + u, x, p);
      FilterAppend(s, u, p);
      FilterSnoc(u, x, p);
    }
  }

  /** Each element occurs in the result as often as in `s` when it passes,
      and not at all otherwise. */
  lemma {:induction false} FilterCount<T>(s: seq<T>, p: T -> bool, x: T)
    ensures multiset(Filter(s, p))[x] == if p(x) then multiset(s)[x] else 0
    decreases |s|
  {
    if s != [] {
      var u := s[..|s| - 1];
      assert s == u + [s[|s| - 1]];
      FilterCount(u, p, x);
    }
  }

  /** The result holds exactly the elements of `s` that pass. */
  lemma FilterMembership<T>(s: seq<T>, p: T -> bool)
    ensures forall x :: x in Filter(s, p) <==> x in s && p(x)
  {
    forall x ensures x in Filter(s, p) <==> x in s && p(x) {
      FilterCount(s, p, x);
      assert x in Filter(s, p) <==> multiset(Filter(s, p))[x] > 0;
      assert x in s <==> multiset(s)[x] > 0;
    }
  }

  // ---------------------------------------------------------------------
  // The first match in a list

  /** `del s[i]` for the first `i` with `s[i] == x`; `s` itself when there is none. */
  function RemoveFirst<T(==)>(s: seq<T>, x: T): (r: seq<T>)
    ensures x !in s ==> r == s
    ensures x in s ==> |r| == |s| - 1 && r == s[..IndexOf(s, x)] + s[IndexOf(s, x) + 1..]
  {
    var i := IndexOf(s, x);
    if i == |s| then s else s[..i] + s[i + 1..]
  }

  /** Removing the first match takes exactly one `x` away and keeps every
      other element. */
  lemma RemoveFirstCounts<T>(s: seq<T>, x: T)
    ensures multiset(RemoveFirst(s, x)) == multiset(s) - multiset{x}
  {
    if x in s {
      CutCounts(s, IndexOf(s, x));
    } else {
      assert multiset(s)[x] == 0;
    }
  }

  /** Cutting out position `i` takes one `s[i]` away. */
  lemma CutCounts<T>(s: seq<T>, i: int)
    requires 0 <= i < |s|
    ensures multiset(s[..i] + s[i + 1..]) == multiset(s) - multiset{s[i]}
  {
    assert s == s[..i] + [s[i]] + s[i + 1..];
  }

  /** `s[i] = y` for the first `i` with `s[i] == x`; `s` itself when there is none. */
  function ReplaceFirst<T(==)>(s: seq<T>, x: T, y: T): (r: seq<T>)
    ensures |r| == |s|
    ensures forall k :: 0 <= k < |s| && k != IndexOf(s, x) ==> r[k] == s[k]
    ensures x in s ==> r[IndexOf(s, x)] == y
    ensures x !in s ==> r == s
  {
    var i := IndexOf(s, x);
    if i == |s| then s else s[i := y]
  }

  /** Replacing a match keeps the list's other elements and trades one `x` for one `y`. */
  lemma ReplaceFirstCounts<T>(s: seq<T>, x: T, y: T)
    requires x in s
    ensures multiset(ReplaceFirst(s, x, y)) == multiset(s) - multiset{x} + multiset{y}
  {
    var i := IndexOf(s, x);
    assert s == s[..i] + [x] + s[i + 1..];
    assert ReplaceFirst(s, x, y) == s[..i] + [y] + s[i + 1..];
  }

  // ---------------------------------------------------------------------
  // Dict key order

  predicate Distinct<T(==)>(s: seq<T>) {
    forall i, j :: 0 <= i < j < |s| ==> s[i] != s[j]
  }

  /** In a list without repetitions every element occurs once. */
  lemma {:induction false} DistinctCount<T>(s: seq<T>, x: T)
    requires Distinct(s)
    ensures multiset(s)[x] == if x in s then 1 else 0
    decreases |s|
  {
    if s != [] {
      var u := s[..|s| - 1];
      assert s == u + [s[|s| - 1]];
      assert Distinct(u);
      DistinctCount(u, x);
      if x == s[|s| - 1] {
        assert x !in u;
      }
    }
  }

  /** The key order after `d[k] = v`: an existing key keeps its place, a new
      key goes to the end. */
  function Put(keys: seq<string>, k: string): (r: seq<string>)
    ensures forall x :: x in r <==> x in keys || x == k
    ensures Distinct(keys) ==> Distinct(r)
  {
    if k in keys then keys else keys + [k]
  }

  /** Where `d[k] = v` leaves each key: a key already stored keeps its
      position, and a new key is found after every other. */
  lemma PutIndex(keys: seq<string>, k: string, x: string)
    ensures x in keys ==> IndexOf(Put(keys, k), x) == IndexOf(keys, x)
    ensures x !in keys && x == k ==> IndexOf(Put(keys, k), x) == |keys|
  {
    if k !in keys { IndexOfAppend(keys, k, x); }
  }

  lemma {:induction false} IndexOfAppend<T>(s: seq<T>, y: T, x: T)
    ensures IndexOf(s + [y], x) == if x in s then IndexOf(s, x) else if x == y then |s| else |s| + 1
    decreases |s|
  {
    if s != [] {
      assert (s + [y])[1..] == s[1..] + [y];
      IndexOfAppend(s[1..], y, x);
    }
  }

  /** `d[k] = d.pop(k)`: popping a stored key and storing it again moves it
      behind every other key, and the others close up in their old order. */
  lemma ReinsertMovesLast(keys: seq<string>, k: string)
    requires Distinct(keys) && k in keys
    ensures Put(RemoveFirst(keys, k), k) == RemoveFirst(keys, k) + [k]
    ensures IndexOf(Put(RemoveFirst(keys, k), k), k) == |keys| - 1
    ensures forall x :: x in keys && x != k ==>
              IndexOf(Put(RemoveFirst(keys, k), k), x) < |keys| - 1
  {
    var r := RemoveFirst(keys, k);
    RemoveFirstMembers(keys, k);
    PutIndex(r, k, k);
    forall x | x in keys && x != k ensures IndexOf(Put(r, k), x) < |keys| - 1 {
      PutIndex(r, k, x);
    }
  }

  /** Positions before the first match keep their element, later ones move
      one place forward. */
  lemma RemoveFirstAt<T>(s: seq<T>, x: T)
    ensures forall k :: 0 <= k < |RemoveFirst(s, x)| ==>
              RemoveFirst(s, x)[k] == if k < IndexOf(s, x) then s[k] else s[k + 1]
  {
    var r, i := RemoveFirst(s, x), IndexOf(s, x);
    forall k | 0 <= k < |r| ensures r[k] == if k < i then s[k] else s[k + 1] {
      if i < |s| {
        if k < i {
          assert r[k] == s[..i][k];
        } else {
          assert r[k] == s[i + 1..][k - i];
        }
      }
    }
  }

  /** The key order after `del d[k]` keeps the keys distinct. */
  lemma RemoveFirstDistinct<T>(keys: seq<T>, k: T)
    requires Distinct(keys)
    ensures Distinct(RemoveFirst(keys, k))
  {
    var r := RemoveFirst(keys, k);
    var i := IndexOf(keys, k);
    RemoveFirstAt(keys, k);
    forall a, b | 0 <= a < b < |r| ensures r[a] != r[b] {
      var fa, fb := if a < i then a else a + 1, if b < i then b else b + 1;
      assert r[a] == keys[fa] && r[b] == keys[fb] && fa < fb;
    }
  }

  /** After `del d[k]` exactly `k` has left the keys. */
  lemma RemoveFirstMembers<T>(keys: seq<T>, k: T)
    requires Distinct(keys)
    ensures forall x :: x in RemoveFirst(keys, k) <==> x in keys && x != k
  {
    var r := RemoveFirst(keys, k);
    var i := IndexOf(keys, k);
    RemoveFirstAt(keys, k);
    forall x ensures x in r <==> x in keys && x != k {
      if x in r {
        var m :| 0 <= m < |r| && r[m] == x;
        var f := if m < i then m else m + 1;
        assert keys[f] == x;
        assert i < |keys| ==> f != i && keys[i] == k;
      }
      if x in keys && x != k {
        var m :| 0 <= m < |keys| && keys[m] == x;
        if m < i {
          assert r[m] == x;
        } else {
          assert m > i && r[m - 1] == x;
        }
      }
    }
  }
}
