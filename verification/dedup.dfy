/**
 Order-preserving removal of duplicates: the `seen` set loop that runs over
 the accepted image URLs before they are returned (bot.py:247-253).
 */
module Dedup {

  /** No element occurs twice. */
  predicate NoDuplicates<T(==)>(s: seq<T>) {
    forall i, j :: 0 <= i < j < |s| ==> s[i] != s[j]
  }

  /** Every element of `a` occurs in `b` and every element of `b` in `a`. */
  predicate SameElements<T(==)>(a: seq<T>, b: seq<T>) {
    && (forall i :: 0 <= i < |a| ==> a[i] in b)
    && (forall j :: 0 <= j < |b| ==> b[j] in a)
  }

  /** The position of the first occurrence of `x` in `xs`. */
  function FirstIndex<T(==)>(xs: seq<T>, x: T): (i: nat)
    requires x in xs
    ensures i < |xs| && xs[i] == x && x !in xs[..i]
  {
    if xs[0] == x then 0 else 1 + FirstIndex(xs[1..], x)
  }

  /**
   `ys` lists elements of `xs` in the order of their first occurrence in
   `xs` (strictly increasing first positions, hence also no repeats).
   */
  ghost predicate InFirstOccurrenceOrder<T>(xs: seq<T>, ys: seq<T>) {
    && (forall k :: 0 <= k < |ys| ==> ys[k] in xs)
    && (forall k, l :: 0 <= k < l < |ys| ==> FirstIndex(xs, ys[k]) < FirstIndex(xs, ys[l]))
  }

  /**
   The list with repeats dropped: each element is kept where it first
   occurs. Defined by the last element, as the loop sees it: an element
   already among the earlier ones is skipped.
   */
  function Dedup<T(==)>(xs: seq<T>): (ys: seq<T>)
    ensures NoDuplicates(ys)
    ensures SameElements(xs, ys)
    ensures |ys| <= |xs|
  {
    if |xs| == 0 then []
    else
      var init := xs[..|xs| - 1];
      var last := xs[|xs| - 1];
      assert xs == init + [last];
      if last in init then Dedup(init) else Dedup(init) + [last]
  }

  /** `FirstIndex` does not look past the first occurrence. */
  lemma FirstIndexOfPrefix<T>(xs: seq<T>, n: nat, x: T)
    requires n <= |xs| && x in xs[..n]
    ensures FirstIndex(xs, x) == FirstIndex(xs[..n], x)
  {
    var i := FirstIndex(xs[..n], x);
    var j := FirstIndex(xs, x);
    assert xs[..n][..i] == xs[..i];
    assert xs[i] == x;
  }

  /**
   An ordered list over a prefix stays ordered over the whole list, and
   every element's first position lies inside the prefix.
   */
  lemma OrderedWiden<T>(xs: seq<T>, n: nat, ys: seq<T>)
    requires n <= |xs| && InFirstOccurrenceOrder(xs[..n], ys)
    ensures InFirstOccurrenceOrder(xs, ys)
    ensures forall k :: 0 <= k < |ys| ==> FirstIndex(xs, ys[k]) < n
  {
    forall k | 0 <= k < |ys|
      ensures ys[k] in xs && FirstIndex(xs, ys[k]) == FirstIndex(xs[..n], ys[k])
    {
      FirstIndexOfPrefix(xs, n, ys[k]);
    }
  }

  /** Appending an element new to the list keeps the order. */
  lemma OrderedAppendNew<T>(xs: seq<T>, ys: seq<T>)
    requires |xs| > 0 && xs[|xs| - 1] !in xs[..|xs| - 1]
    requires InFirstOccurrenceOrder(xs[..|xs| - 1], ys)
    ensures InFirstOccurrenceOrder(xs, ys + [xs[|xs| - 1]])
  {
    var n := |xs| - 1;
    var last := xs[n];
    OrderedWiden(xs, n, ys);
    assert FirstIndex(xs, last) == n;
    var zs := ys + [last];
    forall k, l | 0 <= k < l < |zs|
      ensures FirstIndex(xs, zs[k]) < FirstIndex(xs, zs[l])
    {
      assert zs[k] == ys[k];
      if l < |ys| {
        assert zs[l] == ys[l];
      }
    }
  }

  /** Dedup keeps every element at the place it first occurs. */
  lemma {:induction false} DedupInFirstOccurrenceOrder<T>(xs: seq<T>)
    ensures InFirstOccurrenceOrder(xs, Dedup(xs))
    decreases |xs|
  {
    if |xs| > 0 {
      var n := |xs| - 1;
      DedupInFirstOccurrenceOrder(xs[..n]);
      if xs[n] in xs[..n] {
        OrderedWiden(xs, n, Dedup(xs[..n]));
      } else {
        OrderedAppendNew(xs, Dedup(xs[..n]));
      }
    }
  }

  /** A list without repeats is its own dedup. */
  lemma {:induction false} DedupOfDistinct<T>(xs: seq<T>)
    requires NoDuplicates(xs)
    ensures Dedup(xs) == xs
    decreases |xs|
  {
    if |xs| > 0 {
      var n := |xs| - 1;
      assert xs == xs[..n] + [xs[n]];
      assert NoDuplicates(xs[..n]);
      DedupOfDistinct(xs[..n]);
      assert forall i :: 0 <= i < n ==> xs[..n][i] == xs[i] != xs[n];
    }
  }

  /** An element given twice in a row is kept once. */
  lemma DedupRepeated<T>(x: T)
    ensures Dedup([x, x]) == [x]
  {
    assert [x, x][..1] == [x];
    assert [x][..0] == [];
  }

  /** Dedup is idempotent: a second pass changes nothing. */
  lemma DedupIdempotent<T>(xs: seq<T>)
    ensures Dedup(Dedup(xs)) == Dedup(xs)
  {
    DedupOfDistinct(Dedup(xs));
  }

  /**
   The order-and-content description fixes the list: any list that holds
   exactly the elements of `xs`, in first-occurrence order, is `Dedup(xs)`.
   */
  lemma DedupUnique<T>(xs: seq<T>, zs: seq<T>)
    requires SameElements(xs, zs)
    requires InFirstOccurrenceOrder(xs, zs)
    ensures zs == Dedup(xs)
  {
    DedupInFirstOccurrenceOrder(xs);
    var ys := Dedup(xs);
    assert SameElements(zs, ys) by {
      forall i | 0 <= i < |zs|
        ensures zs[i] in ys
      {
        var j :| 0 <= j < |xs| && xs[j] == zs[i];
      }
      forall i | 0 <= i < |ys|
        ensures ys[i] in zs
      {
        var j :| 0 <= j < |xs| && xs[j] == ys[i];
      }
    }
    OrderedSameElementsEqual(xs, zs, ys);
  }

  /** Dropping the head of an ordered list leaves an ordered list without it. */
  lemma OrderedTail<T>(xs: seq<T>, a: seq<T>)
    requires InFirstOccurrenceOrder(xs, a) && |a| > 0
    ensures InFirstOccurrenceOrder(xs, a[1..])
    ensures a[0] !in a[1..]
  {
    forall k, l | 0 <= k < l < |a| - 1
      ensures FirstIndex(xs, a[1..][k]) < FirstIndex(xs, a[1..][l])
    {
      assert a[1..][k] == a[k + 1] && a[1..][l] == a[l + 1];
    }
    forall k | 0 <= k < |a| - 1
      ensures a[1..][k] != a[0]
    {
      assert FirstIndex(xs, a[0]) < FirstIndex(xs, a[k + 1]);
    }
  }

  /** Lists with the same elements are empty together. */
  lemma SameElementsNonEmpty<T>(a: seq<T>, b: seq<T>)
    requires SameElements(a, b)
    ensures |a| > 0 <==> |b| > 0
  {
    if |b| > 0 {
      assert b[0] in a;
    }
    if |a| > 0 {
      assert a[0] in b;
    }
  }

  /** The head of an ordered list has the smallest first position. */
  lemma OrderedHeadFirst<T>(xs: seq<T>, a: seq<T>)
    requires InFirstOccurrenceOrder(xs, a) && |a| > 0
    ensures forall k :: 0 <= k < |a| ==> FirstIndex(xs, a[0]) <= FirstIndex(xs, a[k])
  {
    forall k | 0 < k < |a|
      ensures FirstIndex(xs, a[0]) < FirstIndex(xs, a[k])
    {
    }
  }

  /** Two ordered lists with the same elements start with the same one. */
  lemma OrderedSameHead<T>(xs: seq<T>, a: seq<T>, b: seq<T>)
    requires InFirstOccurrenceOrder(xs, a) && InFirstOccurrenceOrder(xs, b)
    requires SameElements(a, b) && |a| > 0
    ensures |b| > 0 && a[0] == b[0]
  {
    assert a[0] in b;
    OrderedHeadFirst(xs, a);
    OrderedHeadFirst(xs, b);
    var j :| 0 <= j < |b| && b[j] == a[0];
    var i :| 0 <= i < |a| && a[i] == b[0];
    assert FirstIndex(xs, a[0]) <= FirstIndex(xs, a[i]) == FirstIndex(xs, b[0]);
    assert FirstIndex(xs, b[0]) <= FirstIndex(xs, b[j]) == FirstIndex(xs, a[0]);
    assert xs[FirstIndex(xs, a[0])] == a[0];
    assert xs[FirstIndex(xs, b[0])] == b[0];
  }

  /** With equal heads that do not repeat, the tails keep the inclusion. */
  lemma TailIncluded<T>(a: seq<T>, b: seq<T>)
    requires |a| > 0 && |b| > 0 && a[0] == b[0] && a[0] !in a[1..]
    requires forall i :: 0 <= i < |a| ==> a[i] in b
    ensures forall i :: 0 <= i < |a| - 1 ==> a[1..][i] in b[1..]
  {
    forall i | 0 <= i < |a| - 1
      ensures a[1..][i] in b[1..]
    {
      var x := a[1..][i];
      assert x == a[i + 1] && x in b && x != b[0];
      var j :| 0 <= j < |b| && b[j] == x;
      assert b[1..][j - 1] == x;
    }
  }

  /** Two first-occurrence-ordered lists with the same elements are equal. */
  lemma {:induction false} OrderedSameElementsEqual<T>(xs: seq<T>, a: seq<T>, b: seq<T>)
    requires InFirstOccurrenceOrder(xs, a) && InFirstOccurrenceOrder(xs, b)
    requires SameElements(a, b)
    ensures a == b
    decreases |a|
  {
    SameElementsNonEmpty(a, b);
    if |a| > 0 {
      OrderedSameHead(xs, a, b);
      OrderedTail(xs, a);
      OrderedTail(xs, b);
      var a', b' := a[1..], b[1..];
      TailIncluded(a, b);
      TailIncluded(b, a);
      OrderedSameElementsEqual(xs, a', b');
      assert a == [a[0]] + a' && b == [b[0]] + b';
    }
  }

  /**
   The loop as written: a `seen` set gates appending to the result. It
   computes `Dedup`, so its result has no repeats, holds every input
   element and keeps first-occurrence order.
   */
  method DedupLoop<T(==)>(xs: seq<T>) returns (ys: seq<T>)
    ensures ys == Dedup(xs)
    ensures NoDuplicates(ys)
    ensures SameElements(xs, ys)
  {
    var seen: set<T> := {};
    ys := [];
    for i := 0 to |xs|
      invariant ys == Dedup(xs[..i])
      invariant forall x :: x in seen <==> x in xs[..i]
    {
      assert xs[..i + 1][..i] == xs[..i];
      if xs[i] !in seen {
        seen := seen + {xs[i]};
        ys := ys + [xs[i]];
      }
    }
    assert xs[..|xs|] == xs;
  }
}
