/** The objects a singly linked list chains together, and the order
    vocabulary of `llist_sort`: what a comparator must satisfy, what
    "sorted" and "stable" mean for a sequence of objects, and the
    inversion count every swap of the sort decreases. */
module ListNodes {
  import opened StdInt
  import opened ListSeq

  /** A caller-owned object: the embedded link header and the payload the
      comparator and the check callback look at. The list never touches it. */
  class Node<T> {
    var next: Node?<T>
    const data: T

    constructor (data: T)
      ensures this.data == data && next == null
    {
      this.data := data;
      next := null;
    }
  }

  /** A three-way comparator that, having called `x` greater than `y`,
      calls `y` less than `x`: a swapped pair is never swapped back. */
  ghost predicate SignAntisymmetric<T(!new)>(cmp: (T, T) -> int8)
  {
    forall x, y :: cmp(x, y) > 0 ==> cmp(y, x) < 0
  }

  /** "Not greater than" is transitive. */
  ghost predicate Transitive<T(!new)>(cmp: (T, T) -> int8)
  {
    forall x, y, z :: cmp(x, y) <= 0 && cmp(y, z) <= 0 ==> cmp(x, z) <= 0
  }

  /** No neighbour pair is out of order: the state after a pass without swaps. */
  ghost predicate AdjacentSorted<T(!new)>(s: seq<Node<T>>, cmp: (T, T) -> int8)
  {
    forall i :: 0 <= i < |s| - 1 ==> cmp(s[i].data, s[i + 1].data) <= 0
  }

  /** Non-decreasing under the comparator. */
  ghost predicate Sorted<T(!new)>(s: seq<Node<T>>, cmp: (T, T) -> int8)
  {
    forall i, j :: 0 <= i < j < |s| ==> cmp(s[i].data, s[j].data) <= 0
  }

  /** Objects the comparator calls equal appear in `s` in the order they had in `orig`. */
  ghost predicate Stable<T(!new)>(orig: seq<Node<T>>, s: seq<Node<T>>, cmp: (T, T) -> int8)
  {
    (forall x :: x in s ==> x in orig) &&
    forall i, j {:trigger IndexOf(orig, s[i]), IndexOf(orig, s[j])} :: 0 <= i < j < |s| && cmp(s[i].data, s[j].data) == 0 ==>
      IndexOf(orig, s[i]) < IndexOf(orig, s[j])
  }

  /** Number of objects in `ys` that `x` is greater than. */
  ghost function GreaterCount<T(!new)>(x: Node<T>, ys: seq<Node<T>>, cmp: (T, T) -> int8): nat
  {
    if ys == [] then 0
    else (if cmp(x.data, ys[0].data) > 0 then 1 else 0) + GreaterCount(x, ys[1..], cmp)
  }

  /** Number of out-of-order pairs (i < j with s[i] greater than s[j]): the
      measure every swap of `llist_sort` decreases. */
  ghost function Inversions<T(!new)>(s: seq<Node<T>>, cmp: (T, T) -> int8): nat
  {
    if s == [] then 0 else GreaterCount(s[0], s[1..], cmp) + Inversions(s[1..], cmp)
  }

  /** What holds after the first `k` neighbour pairs of a pass of
      `llist_sort` have been visited: `c` is a permutation of the list
      `start` the pass began with, equal objects keep their order from
      `orig`, the pointers sit on positions `k - 1`, `k` and `k + 1`, a pass
      without swaps so far has found the first `k` pairs in order, and each
      swap has removed an out-of-order pair. */
  ghost predicate PassState<T(!new)>(c: seq<Node<T>>, start: seq<Node<T>>, orig: seq<Node<T>>,
                                     cmp: (T, T) -> int8, k: nat, swapped: bool,
                                     lastObj1: Node?<T>, obj1: Node?<T>, obj2: Node?<T>)
  {
    multiset(c) == multiset(start) && Stable(orig, c, cmp) &&
    (c == [] ==> obj1 == null && obj2 == null) &&
    (c != [] ==>
       k < |c| && obj1 == c[k] &&
       obj2 == (if k + 1 < |c| then c[k + 1] else null) &&
       lastObj1 == (if k == 0 then null else c[k - 1])) &&
    (!swapped ==> c == start && forall i {:trigger cmp(c[i].data, c[i + 1].data)} :: 0 <= i < k && i + 1 < |c| ==> cmp(c[i].data, c[i + 1].data) <= 0) &&
    Inversions(c, cmp) + (if swapped then 1 else 0) <= Inversions(start, cmp)
  }

  /** One iteration of the inner loop of `llist_sort` keeps `PassState`:
      the pair at `k` is swapped exactly when the comparator calls it out
      of order (`step`), and the pointers move on to the pair at `k + 1`. */
  lemma PassAdvance<T(!new)>(c: seq<Node<T>>, c2: seq<Node<T>>, start: seq<Node<T>>, orig: seq<Node<T>>,
                             cmp: (T, T) -> int8, k: nat, swapped: bool, step: bool,
                             lastObj1: Node?<T>, obj1: Node?<T>, obj2: Node?<T>,
                             newLastObj1: Node?<T>, nextObj1: Node?<T>, nextObj2: Node?<T>)
    requires SignAntisymmetric(cmp)
    requires PassState(c, start, orig, cmp, k, swapped, lastObj1, obj1, obj2) && obj2 != null
    requires step <==> cmp(obj1.data, obj2.data) > 0
    requires c2 == if step then Swap(c, k) else c
    requires newLastObj1 == c2[k] && nextObj1 == c2[k + 1]
    requires nextObj2 == if k + 2 < |c2| then c2[k + 2] else null
    ensures PassState(c2, start, orig, cmp, k + 1, swapped || step, newLastObj1, nextObj1, nextObj2)
  {
    if step {
      SwapInversions(c, k, cmp);
      SwapStable(orig, c, k, cmp);
      SwapPermutes(c, k);
    }
  }

  lemma {:induction false} GreaterCountSwap<T(!new)>(x: Node<T>, ys: seq<Node<T>>, k: nat, cmp: (T, T) -> int8)
    requires k + 1 < |ys|
    ensures GreaterCount(x, Swap(ys, k), cmp) == GreaterCount(x, ys, cmp)
  {
    var zs := Swap(ys, k);
    if k == 0 {
      assert zs[1..][1..] == ys[1..][1..];
    } else {
      assert zs[1..] == Swap(ys[1..], k - 1);
      GreaterCountSwap(x, ys[1..], k - 1, cmp);
    }
  }

  /** Swapping an out-of-order neighbour pair removes exactly one inversion. */
  lemma {:induction false} SwapInversions<T(!new)>(s: seq<Node<T>>, k: nat, cmp: (T, T) -> int8)
    requires SignAntisymmetric(cmp)
    requires k + 1 < |s| && cmp(s[k].data, s[k + 1].data) > 0
    ensures Inversions(Swap(s, k), cmp) == Inversions(s, cmp) - 1
  {
    var t := Swap(s, k);
    if k == 0 {
      assert cmp(s[1].data, s[0].data) < 0;
      assert t[1..][1..] == s[1..][1..];
      assert s[1..][0] == s[1];
      assert t[1..][0] == s[0];
    } else {
      assert t[0] == s[0];
      assert t[1..] == Swap(s[1..], k - 1);
      GreaterCountSwap(s[0], s[1..], k - 1, cmp);
      SwapInversions(s[1..], k - 1, cmp);
    }
  }

  /** A sequence without repetitions is stable with respect to itself. */
  lemma StableRefl<T(!new)>(s: seq<Node<T>>, cmp: (T, T) -> int8)
    requires Distinct(s)
    ensures Stable(s, s, cmp)
  {
    forall i, j | 0 <= i < j < |s|
      ensures IndexOf(s, s[i]) < IndexOf(s, s[j])
    {
      IndexOfDistinct(s, i);
      IndexOfDistinct(s, j);
    }
  }

  /** A swap of a pair the comparator calls greater never reorders equal objects. */
  lemma SwapStable<T(!new)>(orig: seq<Node<T>>, s: seq<Node<T>>, k: nat, cmp: (T, T) -> int8)
    requires SignAntisymmetric(cmp)
    requires Stable(orig, s, cmp)
    requires k + 1 < |s| && cmp(s[k].data, s[k + 1].data) > 0
    ensures Stable(orig, Swap(s, k), cmp)
  {
    var t := Swap(s, k);
    forall x | x in t
      ensures x in orig
    {
      var i :| 0 <= i < |t| && t[i] == x;
      var i' := if i == k then k + 1 else if i == k + 1 then k else i;
      assert x == s[i'];
    }
    forall i, j | 0 <= i < j < |t| && cmp(t[i].data, t[j].data) == 0
      ensures IndexOf(orig, t[i]) < IndexOf(orig, t[j])
    {
      assert !(i == k && j == k + 1);
      var i' := if i == k then k + 1 else if i == k + 1 then k else i;
      var j' := if j == k then k + 1 else if j == k + 1 then k else j;
      assert t[i] == s[i'] && t[j] == s[j'] && i' < j';
    }
  }

  /** With a transitive comparator, a list with no out-of-order neighbours is sorted. */
  lemma {:induction false} AdjacentSortedIsSorted<T(!new)>(s: seq<Node<T>>, cmp: (T, T) -> int8)
    requires Transitive(cmp) && AdjacentSorted(s, cmp)
    ensures Sorted(s, cmp)
  {
    if |s| > 1 {
      AdjacentSortedIsSorted(s[1..], cmp);
      forall j | 1 <= j < |s|
        ensures cmp(s[0].data, s[j].data) <= 0
      {
        if j > 1 {
          assert cmp(s[1..][0].data, s[1..][j - 1].data) <= 0;
        }
      }
    }
  }

}
