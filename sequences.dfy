/**
 * The two list operations the system leans on: LINQ's FirstOrDefault (the first element that
 * satisfies a predicate) and a stable sort by time, newest first (LINQ's OrderByDescending in
 * the controller, Array.prototype.sort with a descending comparator in the dashboard; both
 * are stable).
 */
module Sequences {
  import opened Wrappers

  /** The index of the first element satisfying p, or None when there is none. */
  function FirstIndex<T>(xs: seq<T>, p: T -> bool): (r: Option<nat>)
    ensures r.Some? ==> r.value < |xs| && p(xs[r.value])
    ensures r.Some? ==> forall j :: 0 <= j < r.value ==> !p(xs[j])
    ensures r.None? <==> forall j :: 0 <= j < |xs| ==> !p(xs[j])
  {
    if xs == [] then None
    else if p(xs[0]) then Some(0)
    else
      match FirstIndex(xs[1..], p)
      case None => None
      case Some(k) => Some(k + 1)
  }

  /** Times never increase along xs. */
  predicate IsNewestFirst<T>(xs: seq<T>, time: T -> int) {
    forall i, j :: 0 <= i < j < |xs| ==> time(xs[i]) >= time(xs[j])
  }

  /** The elements of xs stamped with time k, in their order in xs. */
  function StampedAt<T>(xs: seq<T>, time: T -> int, k: int): seq<T> {
    if xs == [] then []
    else (if time(xs[0]) == k then [xs[0]] else []) + StampedAt(xs[1..], time, k)
  }

  /** x placed in front of the first element of ys that is not newer than it. */
  function InsertNewestFirst<T>(x: T, ys: seq<T>, time: T -> int): (r: seq<T>)
    requires IsNewestFirst(ys, time)
    ensures IsNewestFirst(r, time)
    ensures |r| > 0 && (time(r[0]) == time(x) || (ys != [] && r[0] == ys[0]))
    ensures multiset(r) == multiset(ys) + multiset{x}
  {
    if ys == [] || time(ys[0]) <= time(x) then
      NewestFirstCons(x, ys, time);
      assert multiset([x] + ys) == multiset(ys) + multiset{x};
      [x] + ys
    else
      var rest := InsertNewestFirst(x, ys[1..], time);
      assert ys == [ys[0]] + ys[1..];
      NewestFirstCons(ys[0], rest, time);
      assert multiset([ys[0]] + rest) == multiset{ys[0]} + multiset(rest);
      assert multiset(ys) == multiset{ys[0]} + multiset(ys[1..]);
      [ys[0]] + rest
  }

  lemma NewestFirstCons<T>(x: T, ys: seq<T>, time: T -> int)
    requires IsNewestFirst(ys, time)
    requires ys != [] ==> time(ys[0]) <= time(x)
    ensures IsNewestFirst([x] + ys, time)
  {
    forall i, j | 0 <= i < j < |[x] + ys| ensures time(([x] + ys)[i]) >= time(([x] + ys)[j]) {
      if i == 0 && j > 1 { assert time(ys[0]) >= time(ys[j - 1]); }
    }
  }

  /** Inserting x adds it in front of the elements of ys that share its time. */
  lemma {:induction false} InsertKeepsStamps<T>(x: T, ys: seq<T>, time: T -> int, k: int)
    requires IsNewestFirst(ys, time)
    ensures StampedAt(InsertNewestFirst(x, ys, time), time, k)
         == (if time(x) == k then [x] else []) + StampedAt(ys, time, k)
  {
    StampedAtCons(x, ys, time);
    if ys != [] && time(ys[0]) > time(x) {
      var rest := InsertNewestFirst(x, ys[1..], time);
      InsertKeepsStamps(x, ys[1..], time, k);
      StampedAtCons(ys[0], rest, time);
      StampedAtCons(ys[0], ys[1..], time);
      assert ys == [ys[0]] + ys[1..];
    }
  }

  lemma StampedAtCons<T>(x: T, ys: seq<T>, time: T -> int)
    ensures forall k :: StampedAt([x] + ys, time, k) == (if time(x) == k then [x] else []) + StampedAt(ys, time, k)
  {
    assert ([x] + ys)[1..] == ys;
  }

  /** A stable sort, newest first: a permutation of xs whose times never increase, in which
      elements with equal times keep their order from xs. */
  function NewestFirst<T>(xs: seq<T>, time: T -> int): (r: seq<T>)
    ensures IsNewestFirst(r, time)
    ensures multiset(r) == multiset(xs)
    ensures forall k :: StampedAt(r, time, k) == StampedAt(xs, time, k)
  {
    if xs == [] then []
    else
      var r := InsertNewestFirst(xs[0], NewestFirst(xs[1..], time), time);
      assert xs == [xs[0]] + xs[1..];
      assert multiset(xs) == multiset(xs[1..]) + multiset{xs[0]};
      forall k ensures StampedAt(r, time, k) == StampedAt(xs, time, k) {
        InsertKeepsStamps(xs[0], NewestFirst(xs[1..], time), time, k);
        StampedAtCons(xs[0], xs[1..], time);
      }
      r
  }

  /** A list that is already newest first comes back unchanged, so sorting twice (once in the
      controller, once in the dashboard) is the same as sorting once. */
  lemma {:induction false} NewestFirstKeepsSorted<T>(xs: seq<T>, time: T -> int)
    requires IsNewestFirst(xs, time)
    ensures NewestFirst(xs, time) == xs
  {
    if xs != [] {
      NewestFirstKeepsSorted(xs[1..], time);
      assert [xs[0]] + xs[1..] == xs;
    }
  }

  /** Sorting is idempotent. */
  lemma NewestFirstIdempotent<T>(xs: seq<T>, time: T -> int)
    ensures NewestFirst(NewestFirst(xs, time), time) == NewestFirst(xs, time)
  {
    NewestFirstKeepsSorted(NewestFirst(xs, time), time);
  }
}
