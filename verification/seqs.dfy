/** Array methods the store and the notification list are written with:
    `find`, `filter`, `map` and a stable descending `sort` by a numeric
    key. */
module Seqs {
  import opened Common

  /** The position `find` stops at: the first element satisfying `p`, or -1. */
  function FirstIndex<T>(xs: seq<T>, p: T -> bool): (i: int)
    ensures -1 <= i < |xs|
    ensures i >= 0 ==> p(xs[i]) && forall k :: 0 <= k < i ==> !p(xs[k])
    ensures i == -1 <==> forall k :: 0 <= k < |xs| ==> !p(xs[k])
    decreases |xs|
  {
    if |xs| == 0 then -1
    else if p(xs[0]) then 0
    else
      var i := FirstIndex(xs[1..], p);
      assert forall k :: 1 <= k < |xs| ==> xs[k] == xs[1..][k - 1];
      if i < 0 then -1 else i + 1
  }

  /** `xs.find(p)`, with `undefined` as `None`. */
  function Find<T>(xs: seq<T>, p: T -> bool): (r: Option<T>)
    ensures r.None? <==> forall k :: 0 <= k < |xs| ==> !p(xs[k])
    ensures r.Some? ==> r.value == xs[FirstIndex(xs, p)] && r.value in xs && p(r.value)
  {
    var i := FirstIndex(xs, p);
    if i < 0 then None else Some(xs[i])
  }

  /** `xs.filter(p)`. */
  function FilterSeq<T(!new)>(xs: seq<T>, p: T -> bool): (r: seq<T>)
    ensures |r| <= |xs|
    ensures forall x :: x in r <==> x in xs && p(x)
    ensures (forall k :: 0 <= k < |xs| ==> p(xs[k])) ==> r == xs
    decreases |xs|
  {
    if |xs| == 0 then []
    else
      var rest := FilterSeq(xs[1..], p);
      assert forall x :: x in xs <==> x == xs[0] || x in xs[1..];
      if p(xs[0]) then [xs[0]] + rest else rest
  }

  /** `filter` keeps every kept element as often as the input holds it,
      and drops every other one entirely. */
  lemma {:induction false} FilterSeqCount<T(!new)>(xs: seq<T>, p: T -> bool)
    ensures forall x :: multiset(FilterSeq(xs, p))[x] == if p(x) then multiset(xs)[x] else 0
    decreases |xs|
  {
    if |xs| > 0 {
      FilterSeqCount(xs[1..], p);
      assert xs == [xs[0]] + xs[1..];
    }
  }

  /** `filter` keeps the input order: when `xs[k]` passes `p` and nothing
      after it does, it is the last element kept. */
  lemma FilterSeqLast<T(!new)>(xs: seq<T>, p: T -> bool, k: int)
    requires 0 <= k < |xs| && p(xs[k])
    requires forall j :: k < j < |xs| ==> !p(xs[j])
    ensures var r := FilterSeq(xs, p);
      |r| > 0 && r[|r| - 1] == xs[k]
  {
    var upTo, after := xs[..k + 1], xs[k + 1..];
    assert xs == upTo + after;
    FilterSeqConcat(upTo, after, p);
    FilterSeqDropsAll(xs, p, k + 1);
    FilterSeqEndsWith(upTo, p);
  }

  /** Nothing is kept from a tail whose elements all fail `p`. */
  lemma FilterSeqDropsAll<T(!new)>(xs: seq<T>, p: T -> bool, from: int)
    requires 0 <= from <= |xs|
    requires forall j :: from <= j < |xs| ==> !p(xs[j])
    ensures FilterSeq(xs[from..], p) == []
  {
    FilterSeqNoneKept(xs[from..], p);
  }

  lemma {:induction false} FilterSeqNoneKept<T(!new)>(xs: seq<T>, p: T -> bool)
    requires forall k :: 0 <= k < |xs| ==> !p(xs[k])
    ensures FilterSeq(xs, p) == []
    decreases |xs|
  {
    if |xs| > 0 {
      FilterSeqNoneKept(xs[1..], p);
    }
  }

  /** A sequence ending in a kept element keeps it last. */
  lemma FilterSeqEndsWith<T(!new)>(xs: seq<T>, p: T -> bool)
    requires |xs| > 0 && p(xs[|xs| - 1])
    ensures var r := FilterSeq(xs, p);
      |r| > 0 && r[|r| - 1] == xs[|xs| - 1]
  {
    var init, x := xs[..|xs| - 1], xs[|xs| - 1];
    assert xs == init + [x];
    FilterSeqConcat(init, [x], p);
    assert FilterSeq([x], p) == [x] + FilterSeq([x][1..], p);
  }

  /** Filtering a concatenation filters each part in turn. */
  lemma {:induction false} FilterSeqConcat<T(!new)>(a: seq<T>, b: seq<T>, p: T -> bool)
    ensures FilterSeq(a + b, p) == FilterSeq(a, p) + FilterSeq(b, p)
    decreases |a|
  {
    if |a| > 0 {
      assert (a + b)[1..] == a[1..] + b;
      FilterSeqConcat(a[1..], b, p);
    } else {
      assert a + b == b;
    }
  }

  /** `filter` then `map`, with `g` undoing `f`: each image appears as often
      as its argument does among the kept elements of the input. */
  lemma FilterMapCount<T(!new), U>(xs: seq<T>, p: T -> bool, f: T -> U, g: U -> T, y: U)
    requires forall a {:trigger f(a)} :: g(f(a)) == a
    ensures multiset(MapSeq(FilterSeq(xs, p), f))[y] ==
      if f(g(y)) == y && p(g(y)) then multiset(xs)[g(y)] else 0
    ensures y in MapSeq(FilterSeq(xs, p), f) <==> f(g(y)) == y && p(g(y)) && g(y) in xs
  {
    FilterSeqCount(xs, p);
    MapSeqCount(FilterSeq(xs, p), f, g, y);
  }

  /** `map` over a non-empty sequence starts with the first image. */
  lemma MapSeqCons<T, U>(xs: seq<T>, f: T -> U)
    requires |xs| > 0
    ensures MapSeq(xs, f) == [f(xs[0])] + MapSeq(xs[1..], f)
    ensures multiset(MapSeq(xs, f)) == multiset{f(xs[0])} + multiset(MapSeq(xs[1..], f))
  {
    assert MapSeq(xs, f) == [f(xs[0])] + MapSeq(xs[1..], f);
  }

  /** A `map` whose results give back their argument (`g` undoes `f`)
      repeats each argument exactly as often as the input holds it. */
  lemma {:induction false} MapSeqCount<T, U>(xs: seq<T>, f: T -> U, g: U -> T, y: U)
    requires forall a {:trigger f(a)} :: g(f(a)) == a
    ensures multiset(MapSeq(xs, f))[y] == if f(g(y)) == y then multiset(xs)[g(y)] else 0
    decreases |xs|
  {
    if |xs| > 0 {
      var x, rest := xs[0], xs[1..];
      MapSeqCount(rest, f, g, y);
      MapSeqCons(xs, f);
      assert multiset(xs) == multiset{x} + multiset(rest) by {
        assert xs == [x] + rest;
      }
      if f(x) == y {
        assert g(y) == x;
      } else if f(g(y)) == y {
        assert x != g(y);
      }
    }
  }

  /** `xs.map(f)`. */
  function MapSeq<T, U>(xs: seq<T>, f: T -> U): (r: seq<U>)
    ensures |r| == |xs|
    ensures forall k :: 0 <= k < |xs| ==> r[k] == f(xs[k])
  {
    seq(|xs|, k requires 0 <= k < |xs| => f(xs[k]))
  }

  /** Non-increasing by `key`. */
  predicate SortedDesc<T>(xs: seq<T>, key: T -> int) {
    forall i, j :: 0 <= i < j < |xs| ==> key(xs[i]) >= key(xs[j])
  }

  /** Puts `x` in front of the first element whose key is not larger, so
      elements with equal keys keep their input order. */
  function InsertDesc<T(!new)>(x: T, ys: seq<T>, key: T -> int): (r: seq<T>)
    requires SortedDesc(ys, key)
    ensures SortedDesc(r, key)
    ensures multiset(r) == multiset(ys) + multiset{x}
    ensures forall z :: z in r <==> z == x || z in ys
    decreases |ys|
  {
    if |ys| == 0 then [x]
    else if key(ys[0]) <= key(x) then [x] + ys
    else
      var rest := InsertDesc(x, ys[1..], key);
      assert ys == [ys[0]] + ys[1..];
      BoundedBelowHead(ys, key);
      AllBelow(rest, key, key(ys[0]));
      ConsSortedDesc(ys[0], rest, key);
      [ys[0]] + rest
  }

  /** In a sorted sequence no later key exceeds the first. */
  lemma BoundedBelowHead<T>(ys: seq<T>, key: T -> int)
    requires |ys| > 0 && SortedDesc(ys, key)
    ensures forall z :: z in ys[1..] ==> key(z) <= key(ys[0])
  {
    forall z | z in ys[1..] ensures key(z) <= key(ys[0]) {
      var k :| 0 <= k < |ys[1..]| && ys[1..][k] == z;
      assert ys[k + 1] == z;
    }
  }

  /** A bound on every member is a bound at every position. */
  lemma AllBelow<T>(xs: seq<T>, key: T -> int, bound: int)
    requires forall z :: z in xs ==> key(z) <= bound
    ensures forall k :: 0 <= k < |xs| ==> key(xs[k]) <= bound
  {
    forall k | 0 <= k < |xs| ensures key(xs[k]) <= bound {
      assert xs[k] in xs;
    }
  }

  /** An element with a key no smaller than all of a sorted sequence's keys
      can go in front of it. */
  lemma ConsSortedDesc<T>(y: T, rest: seq<T>, key: T -> int)
    requires SortedDesc(rest, key)
    requires forall k :: 0 <= k < |rest| ==> key(rest[k]) <= key(y)
    ensures SortedDesc([y] + rest, key)
  {
    var r := [y] + rest;
    forall i, j | 0 <= i < j < |r| ensures key(r[i]) >= key(r[j]) {
      assert r[j] == rest[j - 1];
      if i > 0 {
        assert r[i] == rest[i - 1];
      }
    }
  }

  /** `xs.sort((a, b) => key(b) - key(a))`: a stable sort into
      non-increasing key order. */
  function SortDesc<T(!new)>(xs: seq<T>, key: T -> int): (r: seq<T>)
    ensures SortedDesc(r, key)
    ensures multiset(r) == multiset(xs)
    ensures |r| == |xs|
    ensures forall z :: z in r <==> z in xs
    decreases |xs|
  {
    if |xs| == 0 then []
    else
      var rest := SortDesc(xs[1..], key);
      var r := InsertDesc(xs[0], rest, key);
      assert xs == [xs[0]] + xs[1..];
      assert multiset(r) == multiset([xs[0]]) + multiset(rest) == multiset(xs);
      assert forall z :: z in r <==> z in multiset(r);
      assert forall z :: z in xs <==> z in multiset(xs);
      assert |r| == |multiset(r)| == |multiset(xs)| == |xs|;
      r
  }
}
