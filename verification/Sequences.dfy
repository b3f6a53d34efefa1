/** Comprehensions, counters and orders over sequences that several components share. */
module Sequences {

  function Min(a: nat, b: nat): nat {
    if a <= b then a else b
  }

  /** `[x for x in s if p(x)]` */
  function Filter<T(!new)>(s: seq<T>, p: T -> bool): (r: seq<T>)
    ensures forall x :: x in r <==> x in s && p(x)
  {
    if s == [] then [] else (if p(s[0]) then [s[0]] else []) + Filter(s[1..], p)
  }

  /** How often `x` occurs in `s`. */
  function Count<T(==)>(s: seq<T>, x: T): (n: nat)
    ensures n > 0 <==> x in s
  {
    if s == [] then 0 else (if s[|s| - 1] == x then 1 else 0) + Count(s[..|s| - 1], x)
  }

  predicate Distinct<T(==)>(s: seq<T>) {
    forall i, j :: 0 <= i < j < |s| ==> s[i] != s[j]
  }

  /** `dict.fromkeys(s)`: the first occurrence of every element, in order. */
  function Deduplicated<T(==)>(s: seq<T>): seq<T> {
    if s == [] then []
    else
      var before, last := Deduplicated(s[..|s| - 1]), s[|s| - 1];
      if last in before then before else before + [last]
  }

  lemma {:induction false} DeduplicatedIsDistinct<T>(s: seq<T>)
    ensures Distinct(Deduplicated(s))
    ensures forall x :: x in Deduplicated(s) <==> x in s
    ensures Deduplicated(s) == [] <==> s == []
  {
    if s != [] {
      DeduplicatedIsDistinct(s[..|s| - 1]);
      assert s == s[..|s| - 1] + [s[|s| - 1]];
    }
  }

  /** The places of first occurrences, in order. */
  function FirstPlaces<T(==)>(s: seq<T>): seq<nat> {
    if s == [] then []
    else
      var n := |s| - 1;
      if s[n] in s[..n] then FirstPlaces(s[..n]) else FirstPlaces(s[..n]) + [n]
  }

  /** Deduplication keeps exactly the first occurrences, in order. */
  lemma {:induction false} DeduplicatedArePlaces<T>(s: seq<T>)
    ensures Selects(Deduplicated(s), s, FirstPlaces(s))
    ensures forall a, b :: 0 <= a < b < |FirstPlaces(s)| ==> FirstPlaces(s)[a] < FirstPlaces(s)[b]
    ensures forall i :: i in FirstPlaces(s) <==> 0 <= i < |s| && s[i] !in s[..i]
  {
    if s != [] {
      var before, last := s[..|s| - 1], s[|s| - 1];
      assert s == before + [last];
      DeduplicatedArePlaces(before);
      DeduplicatedIsDistinct(before);
      SelectsOneMore(Deduplicated(before), before, FirstPlaces(before), last);
      assert forall i :: 0 <= i < |before| ==> s[i] == before[i] && s[..i] == before[..i];
    }
  }

  /** Distinct elements of a finite universe are no more than it has. */
  lemma {:induction false} DistinctIsBounded<T>(s: seq<T>, universe: set<T>)
    requires Distinct(s) && forall x :: x in s ==> x in universe
    ensures |s| <= |universe|
  {
    if s != [] {
      var n := |s| - 1;
      DistinctIsBounded(s[..n], universe - {s[n]});
    }
  }

  /** `[f(i) for i in range(n)]` */
  function Tabulate<T>(f: nat -> T, n: nat): (s: seq<T>)
    ensures |s| == n
  {
    if n == 0 then [] else Tabulate(f, n - 1) + [f(n - 1)]
  }

  lemma {:induction false} TabulateAt<T>(f: nat -> T, n: nat, i: nat)
    requires i < n
    ensures Tabulate(f, n)[i] == f(i)
  {
    if i < n - 1 {
      TabulateAt(f, n - 1, i);
    }
  }

  lemma {:induction false} ConcatAssociative<T>(a: seq<T>, b: seq<T>, c: seq<T>)
    ensures a + (b + c) == (a + b) + c
  {
    assert a + (b + c) == a + b + c;
  }

  lemma {:induction false} FilterAppend<T(!new)>(a: seq<T>, b: seq<T>, p: T -> bool)
    ensures Filter(a + b, p) == Filter(a, p) + Filter(b, p)
  {
    if a == [] {
      assert a + b == b;
    } else {
      assert (a + b)[1..] == a[1..] + b;
      FilterAppend(a[1..], b, p);
    }
  }

  /** A filter keeps the order: whatever relates all pairs of `s` in order relates all pairs of the result. */
  lemma {:induction false} FilterOrdered<T(!new)>(s: seq<T>, p: T -> bool, r: (T, T) -> bool)
    requires forall i, j :: 0 <= i < j < |s| ==> r(s[i], s[j])
    ensures forall i, j :: 0 <= i < j < |Filter(s, p)| ==> r(Filter(s, p)[i], Filter(s, p)[j])
  {
    if s != [] {
      var rest := Filter(s[1..], p);
      FilterOrdered(s[1..], p, r);
      forall y | y in rest ensures r(s[0], y) {
        var k :| 0 <= k < |s[1..]| && s[1..][k] == y;
        assert s[1..][k] == s[k + 1];
      }
    }
  }

  lemma {:induction false} CountAppend<T>(a: seq<T>, b: seq<T>, x: T)
    ensures Count(a + b, x) == Count(a, x) + Count(b, x)
  {
    if b == [] {
      assert a + b == a;
    } else {
      assert (a + b)[..|a + b| - 1] == a + b[..|b| - 1];
      CountAppend(a, b[..|b| - 1], x);
    }
  }

  /** The number of occurrences before a position is smaller than the number up to a later occurrence. */
  lemma {:induction false} CountGrows<T>(s: seq<T>, i: nat, j: nat)
    requires i < j < |s| && s[i] == s[j]
    ensures Count(s[..i + 1], s[i]) < Count(s[..j + 1], s[j])
  {
    assert s[..j + 1] == s[..i + 1] + s[i + 1..j + 1];
    CountAppend(s[..i + 1], s[i + 1..j + 1], s[i]);
    assert s[j] == s[i + 1..j + 1][j - i - 1];
  }

  /** Every number from 1 to the total is the running count at some occurrence. */
  lemma {:induction false} OccurrenceAt<T>(s: seq<T>, x: T, n: nat) returns (i: nat)
    requires 1 <= n <= Count(s, x)
    ensures i < |s| && s[i] == x && Count(s[..i + 1], x) == n
  {
    var m := |s| - 1;
    if s[m] == x && Count(s, x) == n {
      assert s[..m + 1] == s;
      i := m;
    } else {
      i := OccurrenceAt(s[..m], x, n);
      assert s[..m][..i + 1] == s[..i + 1];
    }
  }

  // ---------- places ----------

  /** The places at which `p` holds, in order. */
  function Places<T>(s: seq<T>, p: T -> bool): seq<nat> {
    if s == [] then []
    else
      var n := |s| - 1;
      Places(s[..n], p) + if p(s[n]) then [n] else []
  }

  /** They rise strictly, and are exactly the places at which `p` holds. */
  lemma {:induction false} PlacesAreExact<T>(s: seq<T>, p: T -> bool)
    ensures forall a, b :: 0 <= a < b < |Places(s, p)| ==> Places(s, p)[a] < Places(s, p)[b]
    ensures forall i :: i in Places(s, p) <==> 0 <= i < |s| && p(s[i])
  {
    if s != [] {
      var n := |s| - 1;
      var before := Places(s[..n], p);
      PlacesAreExact(s[..n], p);
      forall b | 0 <= b < |before| ensures before[b] < n {
        assert before[b] in before;
      }
      assert Places(s, p) == before + if p(s[n]) then [n] else [];
    }
  }

  lemma {:induction false} OneMorePlace<T>(s: seq<T>, x: T, p: T -> bool)
    ensures Places(s + [x], p) == if p(x) then Places(s, p) + [|s|] else Places(s, p)
  {
    assert (s + [x])[..|s|] == s;
    assert Places(s, p) + [] == Places(s, p);
  }

  lemma {:induction false} PlacesInRange<T>(s: seq<T>, p: T -> bool, k: nat)
    requires k < |Places(s, p)|
    ensures Places(s, p)[k] < |s| && p(s[Places(s, p)[k]])
  {
    PlacesAreExact(s, p);
    assert Places(s, p)[k] in Places(s, p);
  }

  /** `kept` is what `s` has at certain places. */
  ghost predicate Selects<T>(kept: seq<T>, s: seq<T>, places: seq<nat>) {
    |kept| == |places| && forall k :: 0 <= k < |kept| ==> places[k] < |s| && kept[k] == s[places[k]]
  }

  /** One more element at its place. */
  lemma {:induction false} SelectsOneMore<T>(kept: seq<T>, s: seq<T>, places: seq<nat>, x: T)
    requires Selects(kept, s, places)
    ensures Selects(kept, s + [x], places) && Selects(kept + [x], s + [x], places + [|s|])
  {
    assert forall i :: 0 <= i < |s| ==> (s + [x])[i] == s[i];
  }

  /** `sum(s)` */
  function SumOf(s: seq<nat>): nat {
    if s == [] then 0 else SumOf(s[..|s| - 1]) + s[|s| - 1]
  }
}
