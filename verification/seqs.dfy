/** Sequence helpers shared by the repositories: LINQ-style filtering
    (`Where(...).ToList()`), first-occurrence removal (`List<T>.Remove`)
    and duplicate-freedom. */
module Seqs {

  /** No element occurs twice. */
  ghost predicate NoDup<T>(xs: seq<T>) {
    forall i, j :: 0 <= i < j < |xs| ==> xs[i] != xs[j]
  }

  /** `a` can be obtained from `b` by dropping elements: the relative order
      of the kept elements is the order they have in `b`. */
  ghost predicate Subseq<T>(a: seq<T>, b: seq<T>)
    decreases |b|
  {
    |a| == 0 || (|b| > 0 && if a[0] == b[0] then Subseq(a[1..], b[1..]) else Subseq(a, b[1..]))
  }

  /** The elements of `xs` that satisfy `p`, in the order of `xs`. */
  function Filter<T>(p: T -> bool, xs: seq<T>): (r: seq<T>)
    ensures |r| <= |xs|
    ensures forall i :: 0 <= i < |r| ==> r[i] in xs && p(r[i])
    ensures forall i :: 0 <= i < |xs| && p(xs[i]) ==> xs[i] in r
    ensures Subseq(r, xs)
    ensures forall i :: 0 <= i < |xs| ==> Count(r, xs[i]) == if p(xs[i]) then Count(xs, xs[i]) else 0
  {
    if |xs| == 0 then []
    else
      var rest := Filter(p, xs[1..]);
      assert xs == [xs[0]] + xs[1..];
      if p(xs[0]) then
        var r := [xs[0]] + rest;
        assert r[1..] == rest;
        FilterCountCons(p, xs, rest, r);
        r
      else
        FilterCountCons(p, xs, rest, rest);
        rest
  }

  /** How many times `x` occurs in `xs`. */
  ghost function Count<T>(xs: seq<T>, x: T): (n: nat)
    ensures n <= |xs|
  {
    if |xs| == 0 then 0 else (if xs[0] == x then 1 else 0) + Count(xs[1..], x)
  }

  /** `x` occurs in `xs` exactly when its count is positive. */
  lemma {:induction false} CountIn<T>(xs: seq<T>, x: T)
    ensures Count(xs, x) == 0 <==> x !in xs
  {
    if |xs| > 0 {
      assert xs == [xs[0]] + xs[1..];
      CountIn(xs[1..], x);
    }
  }

  /** One step of `Filter`'s multiplicity clause: if `rest` holds each
      element of the tail of `xs` as often as the tail does when it passes
      `p`, and never otherwise, then putting back the head (onto `rest` too
      when it passes) keeps that relation. */
  lemma FilterCountCons<T>(p: T -> bool, xs: seq<T>, rest: seq<T>, r: seq<T>)
    requires |xs| > 0
    requires forall i :: 0 <= i < |xs[1..]| ==>
      Count(rest, xs[1..][i]) == if p(xs[1..][i]) then Count(xs[1..], xs[1..][i]) else 0
    requires forall i :: 0 <= i < |rest| ==> rest[i] in xs[1..]
    requires r == if p(xs[0]) then [xs[0]] + rest else rest
    ensures forall i :: 0 <= i < |xs| ==> Count(r, xs[i]) == if p(xs[i]) then Count(xs, xs[i]) else 0
  {
    var t := xs[1..];
    if p(xs[0]) {
      assert r[1..] == rest;
    }
    forall i | 0 <= i < |xs|
      ensures Count(r, xs[i]) == if p(xs[i]) then Count(xs, xs[i]) else 0
    {
      var y := xs[i];
      if y !in t {
        assert y !in rest;
        CountIn(rest, y);
        CountIn(t, y);
      }
    }
  }

  /** Filtering distributes over concatenation. */
  lemma {:induction false} FilterAppend<T>(p: T -> bool, a: seq<T>, b: seq<T>)
    ensures Filter(p, a + b) == Filter(p, a) + Filter(p, b)
  {
    if |a| == 0 {
      assert a + b == b;
    } else {
      assert (a + b)[1..] == a[1..] + b;
      FilterAppend(p, a[1..], b);
    }
  }

  /** A filter that every element passes keeps the whole sequence. */
  lemma {:induction false} FilterAll<T>(p: T -> bool, xs: seq<T>)
    requires forall i :: 0 <= i < |xs| ==> p(xs[i])
    ensures Filter(p, xs) == xs
  {
    if |xs| > 0 {
      FilterAll(p, xs[1..]);
      assert xs == [xs[0]] + xs[1..];
    }
  }

  /** A filter that no element passes keeps nothing. */
  lemma FilterNone<T>(p: T -> bool, xs: seq<T>)
    requires forall i :: 0 <= i < |xs| ==> !p(xs[i])
    ensures Filter(p, xs) == []
  {
  }

  /** `xs` without its first occurrence of `x` (C# `List<T>.Remove`). */
  function RemoveFirst<T(==)>(xs: seq<T>, x: T): (r: seq<T>)
    ensures x !in xs ==> r == xs
    ensures x in xs ==> |r| == |xs| - 1
    ensures forall i :: 0 <= i < |r| ==> r[i] in xs
    ensures x in xs ==> r == xs[..FirstIndex(xs, x)] + xs[FirstIndex(xs, x) + 1..]
  {
    if |xs| == 0 then xs
    else if xs[0] == x then
      assert xs == [x] + xs[1..];
      xs[1..]
    else
      var rest := RemoveFirst(xs[1..], x);
      assert xs == [xs[0]] + xs[1..];
      assert x in xs <==> x in xs[1..];
      if x in xs then
        DropAt(xs, FirstIndex(xs[1..], x));
        [xs[0]] + rest
      else
        [xs[0]] + rest
  }

  /** The position of the first occurrence of `x` in `xs`. */
  ghost function FirstIndex<T>(xs: seq<T>, x: T): (i: nat)
    requires x in xs
    ensures i < |xs| && xs[i] == x && x !in xs[..i]
  {
    if xs[0] == x then 0
    else
      assert xs == [xs[0]] + xs[1..];
      var j := FirstIndex(xs[1..], x);
      assert xs[..j + 1] == [xs[0]] + xs[1..][..j];
      j + 1
  }

  /** Dropping the element after position `j` of the tail is dropping the
      element at position `j + 1` of the whole sequence. */
  lemma DropAt<T>(xs: seq<T>, j: nat)
    requires j < |xs| - 1
    ensures [xs[0]] + (xs[1..][..j] + xs[1..][j + 1..]) == xs[..j + 1] + xs[j + 2..]
  {
    assert xs[..j + 1] == [xs[0]] + xs[1..][..j];
  }

  /** Removing the first occurrence from a duplicate-free sequence removes
      every occurrence and keeps the sequence duplicate-free. */
  lemma {:induction false} RemoveFirstNoDup<T>(xs: seq<T>, x: T)
    requires NoDup(xs)
    ensures NoDup(RemoveFirst(xs, x)) && x !in RemoveFirst(xs, x)
  {
    if |xs| > 0 {
      NoDupTail(xs);
      if xs[0] != x {
        RemoveFirstNoDup(xs[1..], x);
        ConsNoDup(xs, RemoveFirst(xs[1..], x));
      }
    }
  }

  /** The head of a duplicate-free sequence does not occur in its tail. */
  lemma NoDupTail<T>(xs: seq<T>)
    requires |xs| > 0
    ensures NoDup(xs) ==> NoDup(xs[1..]) && xs[0] !in xs[1..]
  {
  }

  /** Re-attaching the head of a duplicate-free sequence to a duplicate-free
      sub-multiset of its tail gives a duplicate-free sequence. */
  lemma ConsNoDup<T>(xs: seq<T>, rest: seq<T>)
    requires |xs| > 0
    requires forall i :: 0 <= i < |rest| ==> rest[i] in xs[1..]
    ensures NoDup(xs) && NoDup(rest) ==> NoDup([xs[0]] + rest)
  {
  }

  /** `xs` with `x` added at the end unless it is already present. */
  function AddOnce<T(==)>(xs: seq<T>, x: T): (r: seq<T>)
    ensures x in r
    ensures forall i :: 0 <= i < |xs| ==> xs[i] in r
    ensures forall i :: 0 <= i < |r| ==> r[i] in xs || r[i] == x
    ensures x in xs ==> r == xs
    ensures x !in xs ==> r == xs + [x]
    ensures NoDup(xs) ==> NoDup(r)
  {
    if x in xs then xs else xs + [x]
  }

  lemma AppendCons<T>(a: seq<T>, x: T, b: seq<T>)
    ensures (a + [x]) + b == a + ([x] + b)
  {
  }
}
