/** Orders and sorting used by pandas' statistics: Python's string order
    (code points compared left to right) and ascending order on numbers. */
module Ordering {

  /** Python's `a <= b` on `str`: lexicographic by code point, a prefix first. */
  predicate StrLe(a: string, b: string)
    decreases |a|
  {
    |a| == 0 || (|b| > 0 && (a[0] < b[0] || (a[0] == b[0] && StrLe(a[1..], b[1..]))))
  }

  lemma {:induction false} StrLeRefl(a: string)
    ensures StrLe(a, a)
  {
    if |a| > 0 {
      StrLeRefl(a[1..]);
    }
  }

  lemma {:induction false} StrLeAntisym(a: string, b: string)
    requires StrLe(a, b) && StrLe(b, a)
    ensures a == b
  {
    if |a| > 0 && |b| > 0 {
      StrLeAntisym(a[1..], b[1..]);
      assert a == [a[0]] + a[1..] && b == [b[0]] + b[1..];
    }
  }

  lemma {:induction false} StrLeTrans(a: string, b: string, c: string)
    requires StrLe(a, b) && StrLe(b, c)
    ensures StrLe(a, c)
  {
    if |a| > 0 && |b| > 0 && |c| > 0 && a[0] == b[0] == c[0] {
      StrLeTrans(a[1..], b[1..], c[1..]);
    }
  }

  lemma {:induction false} StrLeTotal(a: string, b: string)
    ensures StrLe(a, b) || StrLe(b, a)
  {
    if |a| > 0 && |b| > 0 && a[0] == b[0] {
      StrLeTotal(a[1..], b[1..]);
    }
  }

  /** StrLe is a total order on strings. */
  lemma {:induction false} StrLeTotalOrder()
    ensures forall a :: StrLe(a, a)
    ensures forall a, b :: StrLe(a, b) && StrLe(b, a) ==> a == b
    ensures forall a, b, c :: StrLe(a, b) && StrLe(b, c) ==> StrLe(a, c)
    ensures forall a, b :: StrLe(a, b) || StrLe(b, a)
  {
    forall a { StrLeRefl(a); }
    forall a, b | StrLe(a, b) && StrLe(b, a) { StrLeAntisym(a, b); }
    forall a, b, c | StrLe(a, b) && StrLe(b, c) { StrLeTrans(a, b, c); }
    forall a, b { StrLeTotal(a, b); }
  }

  /** Strictly increasing in Python's string order: sorted without repeats. */
  predicate StrictlySorted(s: seq<string>)
  {
    forall i, j :: 0 <= i < j < |s| ==> StrLe(s[i], s[j]) && s[i] != s[j]
  }

  /** Inserts `x` into a strictly sorted sequence, unless it is there already. */
  function InsertDistinct(x: string, s: seq<string>): (r: seq<string>)
    requires StrictlySorted(s)
    ensures StrictlySorted(r)
    ensures forall v :: v in r <==> v in s || v == x
  {
    if |s| == 0 then [x]
    else if x == s[0] then s
    else if StrLe(x, s[0]) then
      StrLeTotalOrder();
      [x] + s
    else
      var rest := InsertDistinct(x, s[1..]);
      HeadBelow(x, s, rest);
      assert s == [s[0]] + s[1..];
      [s[0]] + rest
  }

  /** The head of a strictly sorted sequence lies strictly below every value
      drawn from the rest of it or from a value it does not dominate. */
  lemma {:induction false} HeadBelow(x: string, s: seq<string>, rest: seq<string>)
    requires StrictlySorted(s) && |s| > 0 && !StrLe(x, s[0])
    requires forall v :: v in rest ==> v in s[1..] || v == x
    ensures forall j :: 0 <= j < |rest| ==> StrLe(s[0], rest[j]) && s[0] != rest[j]
  {
    StrLeTotal(x, s[0]);
    if x == s[0] {
      StrLeRefl(x);
    }
    forall j | 0 <= j < |rest|
      ensures StrLe(s[0], rest[j]) && s[0] != rest[j]
    {
      var v := rest[j];
      assert v in rest;
      if v != x {
        var k :| 0 <= k < |s[1..]| && s[1..][k] == v;
        assert s[k + 1] == v;
      }
    }
  }

  /** The distinct values of `s` in increasing order (what `sorted(set(s))` gives). */
  function SortedDistinct(s: seq<string>): (r: seq<string>)
    ensures StrictlySorted(r)
    ensures forall v :: v in r <==> v in s
    ensures |r| <= |s|
  {
    if |s| == 0 then []
    else
      var rest := SortedDistinct(s[1..]);
      var r := InsertDistinct(s[0], rest);
      assert s == [s[0]] + s[1..];
      assert |r| <= |rest| + 1 by { DistinctLength(r, rest, s[0]); }
      r
  }

  /** A strictly sorted sequence of values all drawn from `s + [x]` is at most one longer than `s`. */
  lemma {:induction false} DistinctLength(r: seq<string>, s: seq<string>, x: string)
    requires StrictlySorted(r)
    requires forall v :: v in r ==> v in s || v == x
    ensures |r| <= |s| + 1
  {
    var rs := set i | 0 <= i < |r| :: r[i];
    var ss := (set i | 0 <= i < |s| :: s[i]) + {x};
    forall v | v in rs ensures v in ss {
      var i :| 0 <= i < |r| && r[i] == v;
      assert v in r;
      if v != x {
        var k :| 0 <= k < |s| && s[k] == v;
      }
    }
    assert |rs| == |r| by { DistinctCard(r); }
    assert |ss| <= |s| + 1 by { CardAtMost(s); }
    SubsetCard(rs, ss);
  }

  lemma {:induction false} SubsetCard(a: set<string>, b: set<string>)
    requires a <= b
    ensures |a| <= |b|
  {
    assert b == a + (b - a);
  }

  lemma {:induction false} DistinctCard(r: seq<string>)
    requires StrictlySorted(r)
    ensures |set i | 0 <= i < |r| :: r[i]| == |r|
  {
    if |r| > 0 {
      var init := r[..|r| - 1];
      DistinctCard(init);
      assert (set i | 0 <= i < |r| :: r[i]) == (set i | 0 <= i < |init| :: init[i]) + {r[|r| - 1]};
      assert r[|r| - 1] !in (set i | 0 <= i < |init| :: init[i]);
    }
  }

  lemma {:induction false} CardAtMost(s: seq<string>)
    ensures |set i | 0 <= i < |s| :: s[i]| <= |s|
  {
    if |s| > 0 {
      var init := s[..|s| - 1];
      CardAtMost(init);
      assert (set i | 0 <= i < |s| :: s[i]) == (set i | 0 <= i < |init| :: init[i]) + {s[|s| - 1]};
    }
  }

  /** A strictly sorted sequence is determined by its elements. */
  lemma {:induction false} StrictlySortedUnique(a: seq<string>, b: seq<string>)
    requires StrictlySorted(a) && StrictlySorted(b)
    requires forall v :: v in a <==> v in b
    ensures a == b
  {
    assert |a| > 0 <==> |b| > 0 by {
      if |a| > 0 { assert a[0] in b; }
      if |b| > 0 { assert b[0] in a; }
    }
    if |a| > 0 {
      assert a[0] in b && b[0] in a;
      StrLeRefl(a[0]);
      StrLeRefl(b[0]);
      var ka :| 0 <= ka < |a| && a[ka] == b[0];
      var kb :| 0 <= kb < |b| && b[kb] == a[0];
      assert StrLe(b[0], a[0]) && StrLe(a[0], b[0]);
      StrLeAntisym(a[0], b[0]);
      forall v
        ensures v in a[1..] <==> v in b[1..]
      {
        if v in a[1..] { assert v != a[0]; assert v in b; }
        if v in b[1..] { assert v != b[0]; assert v in a; }
      }
      StrictlySortedUnique(a[1..], b[1..]);
      assert a == [a[0]] + a[1..] && b == [b[0]] + b[1..];
    }
  }

  /** Ascending order on numbers. */
  predicate SortedReals(x: seq<real>)
  {
    forall i, j :: 0 <= i <= j < |x| ==> x[i] <= x[j]
  }

  /** Inserts `v` into an ascending sequence. */
  function InsertReal(v: real, x: seq<real>): (r: seq<real>)
    requires SortedReals(x)
    ensures SortedReals(r)
    ensures multiset(r) == multiset(x) + multiset{v}
    ensures |r| == |x| + 1
    ensures forall k :: 0 <= k < |r| ==> r[k] == v || r[k] in x
  {
    if |x| == 0 then [v]
    else if v <= x[0] then [v] + x
    else
      var rest := InsertReal(v, x[1..]);
      RestAboveHead(v, x, rest);
      ConsSorted(x[0], rest);
      assert x == [x[0]] + x[1..];
      [x[0]] + rest
  }

  /** Values drawn from the tail of an ascending `x`, or equal to a `v` that
      exceeds its head, lie at or above the head and are drawn from `x` or are `v`. */
  lemma {:induction false} RestAboveHead(v: real, x: seq<real>, rest: seq<real>)
    requires SortedReals(x) && |x| > 0 && x[0] < v
    requires forall k :: 0 <= k < |rest| ==> rest[k] == v || rest[k] in x[1..]
    ensures forall k :: 0 <= k < |rest| ==> x[0] <= rest[k] && (rest[k] == v || rest[k] in x)
  {
    forall k | 0 <= k < |rest|
      ensures x[0] <= rest[k] && (rest[k] == v || rest[k] in x)
    {
      if rest[k] != v {
        var i :| 0 <= i < |x[1..]| && x[1..][i] == rest[k];
        assert x[i + 1] == rest[k];
      }
    }
  }

  /** A value at or below every element of an ascending sequence can go in front. */
  lemma {:induction false} ConsSorted(h: real, rest: seq<real>)
    requires SortedReals(rest)
    requires forall k :: 0 <= k < |rest| ==> h <= rest[k]
    ensures SortedReals([h] + rest)
  {
    var r := [h] + rest;
    forall i, j | 0 <= i <= j < |r|
      ensures r[i] <= r[j]
    {
      if i > 0 {
        assert r[i] == rest[i - 1];
      }
      assert r[j] == if j == 0 then h else rest[j - 1];
    }
  }

  /** `sorted(s)`: the same numbers in ascending order. */
  function SortReals(s: seq<real>): (r: seq<real>)
    ensures SortedReals(r)
    ensures multiset(r) == multiset(s)
    ensures |r| == |s|
  {
    if |s| == 0 then []
    else
      assert s == [s[0]] + s[1..];
      InsertReal(s[0], SortReals(s[1..]))
  }
}
