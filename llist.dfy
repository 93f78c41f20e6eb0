/** The singly linked build of the intrusive list library
    (LLIST_ENABLE_DOUBLE_LINKED_LIST != TRUE).

    The caller owns the objects; each one embeds a `next` link as its first
    member, and the list only rewires those links. A list header holds
    `first`. The abstract value of a list is the ghost sequence `Contents`
    of the objects reached from `first`; `Valid()` ties the links to it. */
module LinkedList {
  import opened StdInt
  import opened ListSeq
  import opened ListNodes

  /** A list header: one slot of the list table. */
  class LList<T(!new)> {
    var first: Node?<T>
    ghost var Contents: seq<Node<T>>

    /** Following `next` from `first` visits exactly `Contents`, each object
        once, and ends at null. */
    ghost predicate Valid()
      reads this, Contents
    {
      Distinct(Contents) &&
      (Contents == [] ==> first == null) &&
      (Contents != [] ==> first == Contents[0] && Contents[|Contents| - 1].next == null) &&
      forall i {:trigger Contents[i].next} :: 0 <= i < |Contents| - 1 ==> Contents[i].next == Contents[i + 1]
    }

    /** The header as `llist_create` leaves it: `first` is null. */
    constructor ()
      ensures Valid() && Contents == []
    {
      first := null;
      Contents := [];
    }

    /** `ll_add`: link `obj` in front of the list when `atHead` is set or
        when the list is empty, otherwise walk to the last object and link
        it behind that one. */
    method Add(obj: Node<T>, atHead: bool)
      requires Valid() && obj !in Contents
      modifies this, obj, Contents
      ensures Valid()
      ensures Contents == if atHead then [obj] + old(Contents) else old(Contents) + [obj]
    {
      ghost var c := Contents;
      if atHead || first == null {
        obj.next := first;
        first := obj;
        Contents := [obj] + Contents;
        assert forall i :: 1 <= i < |Contents| ==> Contents[i] == c[i - 1];
      } else {
        var cur := first;
        ghost var i := 0;
        while cur.next != null
          invariant Valid() && Contents == c
          invariant 0 <= i < |Contents| && cur == Contents[i]
          invariant cur.next == if i + 1 < |Contents| then Contents[i + 1] else null
          decreases |Contents| - i
        {
          cur := cur.next;
          i := i + 1;
        }
        cur.next := obj;
        obj.next := null;
        Contents := Contents + [obj];
        assert forall j :: 0 <= j < |c| ==> Contents[j] == c[j];
      }
    }

    /** `llist_add_first`. */
    method AddFirst(obj: Node<T>)
      requires Valid() && obj !in Contents
      modifies this, obj, Contents
      ensures Valid() && Contents == [obj] + old(Contents)
    {
      Add(obj, true);
    }

    /** `llist_add_last`; an empty list goes through the head branch of `ll_add`. */
    method AddLast(obj: Node<T>)
      requires Valid() && obj !in Contents
      modifies this, obj, Contents
      ensures Valid() && Contents == old(Contents) + [obj]
    {
      Add(obj, false);
    }

    /** `llist_touch_first`: the head without unlinking it, null when empty. */
    method TouchFirst() returns (r: Node?<T>)
      requires Valid()
      ensures r == null <==> Contents == []
      ensures r != null ==> r == Contents[0]
    {
      r := first;
    }

    /** `llist_get_first`: unlink and return the head, null when empty. The
        unlinked object's own `next` is left as it was. */
    method GetFirst() returns (r: Node?<T>)
      requires Valid()
      modifies this
      ensures Valid()
      ensures r == null <==> old(Contents) == []
      ensures r == null ==> Contents == old(Contents)
      ensures r != null ==> r == old(Contents)[0] && Contents == old(Contents)[1..]
    {
      r := null;
      if first != null {
        r := first;
        first := first.next;
        Contents := Contents[1..];
      }
    }

    /** `llist_remove`: scan from the head for `obj` keeping the
        predecessor; on a hit bypass it, otherwise change nothing. */
    method Remove(obj: Node<T>)
      requires Valid()
      modifies this, Contents
      ensures Valid()
      ensures obj in old(Contents) ==>
        Contents == RemoveAt(old(Contents), IndexOf(old(Contents), obj))
      ensures obj !in old(Contents) ==> Contents == old(Contents)
      ensures obj !in Contents
      ensures multiset(Contents) == multiset(old(Contents)) - multiset{obj}
      ensures obj.next == old(obj.next)
    {
      if first != null {
        var cur: Node?<T> := first;
        var prev: Node?<T> := null;
        ghost var i := 0;
        while cur != null
          invariant Valid() && Contents == old(Contents) && first == old(first)
          invariant 0 <= i <= |Contents|
          invariant cur == (if i < |Contents| then Contents[i] else null)
          invariant prev == (if i == 0 then null else Contents[i - 1])
          invariant forall j :: 0 <= j < i ==> Contents[j] != obj
          decreases |Contents| - i
        {
          if cur == obj {
            IndexOfDistinct(Contents, i);
            RemoveAtMultiset(Contents, i);
            RemoveAtDistinct(Contents, i);
            Unlink(prev, cur, i);
            return;
          }
          prev := cur;
          cur := cur.next;
          i := i + 1;
        }
      }
    }

    /** The relinking inside `llist_remove` that bypasses `cur`, found at
        position `i` with predecessor `prev` (null at the head). */
    method Unlink(prev: Node?<T>, cur: Node<T>, ghost i: nat)
      requires Valid()
      requires i < |Contents| && cur == Contents[i]
      requires prev == if i == 0 then null else Contents[i - 1]
      modifies this, prev
      ensures Valid()
      ensures Contents == RemoveAt(old(Contents), i)
      ensures cur.next == old(cur.next)
    {
      ghost var c := Contents;
      if prev != null {
        prev.next := cur.next;
      } else {
        first := cur.next;
      }
      RemoveAtDistinct(c, i);
      Contents := RemoveAt(c, i);
      forall j | 0 <= j < |Contents| - 1
        ensures Contents[j].next == Contents[j + 1]
      {
        if j + 1 < i {
          assert Contents[j] == c[j] && Contents[j + 1] == c[j + 1] && c[j] != prev;
          assert old(c[j].next) == c[j + 1];
        } else if i <= j {
          assert Contents[j] == c[j + 1] && Contents[j + 1] == c[j + 2] && c[j + 1] != prev;
          assert old(c[j + 1].next) == c[j + 2];
        }
      }
    }

    /** `llist_sort`: bubble sort by relinking. Passes over the list are
        repeated until one of them swaps nothing; a pair is swapped only when
        the comparator says the first object is greater than the second. */
    method Sort(cmp: (T, T) -> int8)
      requires Valid()
      requires SignAntisymmetric(cmp)
      modifies this, Contents
      ensures Valid()
      ensures multiset(Contents) == multiset(old(Contents))
      ensures AdjacentSorted(Contents, cmp)
      ensures Transitive(cmp) ==> Sorted(Contents, cmp)
      ensures Stable(old(Contents), Contents, cmp)
    {
      ghost var orig := Contents;
      StableRefl(orig, cmp);
      while true
        invariant Valid()
        invariant multiset(Contents) == multiset(orig)
        invariant Stable(orig, Contents, cmp)
        decreases Inversions(Contents, cmp)
      {
        var swapped := SortPass(cmp, orig);
        if !swapped {
          break;
        }
      }
      if Transitive(cmp) {
        AdjacentSortedIsSorted(Contents, cmp);
      }
    }

    /** One pass of the do-while loop in `llist_sort`: walk the neighbour
        pairs `obj1`, `obj2`, with `lastObj1` the object before `obj1`.
        `orig` is the list as the sort found it; every object of the list
        is one of its objects. */
    method SortPass(cmp: (T, T) -> int8, ghost orig: seq<Node<T>>) returns (swapped: bool)
      requires Valid()
      requires SignAntisymmetric(cmp)
      requires Stable(orig, Contents, cmp)
      modifies this, orig
      ensures Valid()
      ensures multiset(Contents) == multiset(old(Contents))
      ensures Stable(orig, Contents, cmp)
      ensures swapped ==> Inversions(Contents, cmp) < Inversions(old(Contents), cmp)
      ensures !swapped ==> Contents == old(Contents) && AdjacentSorted(Contents, cmp)
    {
      ghost var start := Contents;
      swapped := false;
      var lastObj1: Node?<T> := null;
      var obj1 := first;
      var obj2 := if obj1 == null then null else obj1.next;
      ghost var k := 0;
      while obj2 != null
        invariant Valid()
        invariant PassState(Contents, start, orig, cmp, k, swapped, lastObj1, obj1, obj2)
        decreases |Contents| - k
      {
        ghost var before := Contents;
        assert obj1 in orig && obj2 in orig && (lastObj1 != null ==> lastObj1 in orig);
        var stepSwapped, newLastObj1, nextObj1, nextObj2 := PassStep(cmp, lastObj1, obj1, obj2, k);
        PassAdvance(before, Contents, start, orig, cmp, k, swapped, stepSwapped,
                    lastObj1, obj1, obj2, newLastObj1, nextObj1, nextObj2);
        swapped := swapped || stepSwapped;
        lastObj1, obj1, obj2 := newLastObj1, nextObj1, nextObj2;
        k := k + 1;
      }
    }

    /** The body of the inner `for` loop of `llist_sort`: swap `obj1` (at
        position `k`) and its successor `obj2` when the comparator says
        `obj1` is greater, then move the three pointers on by one pair. */
    method PassStep(cmp: (T, T) -> int8, lastObj1: Node?<T>, obj1: Node<T>, obj2: Node<T>, ghost k: nat)
      returns (swapped: bool, newLastObj1: Node?<T>, nextObj1: Node<T>, nextObj2: Node?<T>)
      requires Valid()
      requires k + 1 < |Contents| && Contents[k] == obj1 && Contents[k + 1] == obj2
      requires lastObj1 == if k == 0 then null else Contents[k - 1]
      modifies this, obj1, obj2, lastObj1
      ensures Valid()
      ensures swapped <==> cmp(obj1.data, obj2.data) > 0
      ensures swapped ==> Contents == Swap(old(Contents), k)
      ensures !swapped ==> Contents == old(Contents)
      ensures newLastObj1 == Contents[k] && nextObj1 == Contents[k + 1]
      ensures nextObj2 == if k + 2 < |Contents| then Contents[k + 2] else null
    {
      if cmp(obj1.data, obj2.data) > 0 {
        SwapPair(lastObj1, obj1, obj2, k);
        newLastObj1 := obj2;
        nextObj1 := obj1;
        nextObj2 := obj1.next;
        swapped := true;
      } else {
        newLastObj1 := obj1;
        nextObj1 := obj2;
        nextObj2 := obj2.next;
        swapped := false;
      }
    }

    /** The relinking inside `llist_sort` that exchanges `obj1` (at position
        `k`) with its successor `obj2`; `lastObj1` is the predecessor of
        `obj1`, or null at the head. */
    method SwapPair(lastObj1: Node?<T>, obj1: Node<T>, obj2: Node<T>, ghost k: nat)
      requires Valid()
      requires k + 1 < |Contents| && Contents[k] == obj1 && Contents[k + 1] == obj2
      requires lastObj1 == if k == 0 then null else Contents[k - 1]
      modifies this, obj1, obj2, lastObj1
      ensures Valid()
      ensures Contents == Swap(old(Contents), k)
      ensures multiset(Contents) == multiset(old(Contents))
    {
      ghost var c := Contents;
      if obj1 == first {
        first := obj2;
      }
      var temp := obj2.next;
      assert temp == if k + 2 < |c| then c[k + 2] else null;
      obj2.next := obj1;
      obj1.next := temp;
      if lastObj1 != null {
        lastObj1.next := obj2;
      }
      SwapPermutes(c, k);
      Contents := Swap(c, k);
      forall i | 0 <= i < |c| - 1
        ensures Contents[i].next == Contents[i + 1]
      {
        if i + 1 < k || k + 1 < i {
          assert Contents[i] == c[i] && Contents[i + 1] == c[i + 1];
          assert c[i] != obj1 && c[i] != obj2 && c[i] != lastObj1;
          assert old(c[i].next) == c[i + 1];
        } else if i == k + 1 {
          assert Contents[i + 1] == c[k + 2] && old(obj2.next) == c[k + 2];
        }
      }
    }

    /** `llist_check` (debug builds): hand the objects to `callback` from the
        head on, stopping right after the first call that answers false.
        `visited` lists the objects passed to the callback, in call order. */
    method Check(callback: T -> bool) returns (visited: seq<Node<T>>)
      requires Valid()
      ensures |visited| <= |Contents| && visited == Contents[..|visited|]
      ensures forall i :: 0 <= i < |visited| - 1 ==> callback(visited[i].data)
      ensures |visited| < |Contents| ==> visited != [] && !callback(visited[|visited| - 1].data)
    {
      var obj := first;
      visited := [];
      while obj != null
        invariant |visited| <= |Contents| && visited == Contents[..|visited|]
        invariant forall i :: 0 <= i < |visited| - 1 ==> callback(visited[i].data)
        invariant obj != null ==>
          (|visited| < |Contents| && obj == Contents[|visited|] &&
           (visited != [] ==> callback(visited[|visited| - 1].data)))
        invariant obj == null ==>
          (|visited| == |Contents| || (visited != [] && !callback(visited[|visited| - 1].data)))
        decreases |Contents| - |visited|
      {
        assert obj.next == (if |visited| + 1 < |Contents| then Contents[|visited| + 1] else null);
        visited := visited + [obj];
        if !callback(obj.data) {
          obj := null;
        } else {
          obj := obj.next;
        }
      }
    }
  }

  /** The fixed table `ll_tbl[MAX_NUM_OF_LLIST]` with its counter `num_of_ll`. */
  class ListTable<T(!new)> {
    const slots: seq<LList<T>>
    var numOfLl: uint8

    /** The headers are distinct and the counter has not passed the table's
        end. */
    ghost predicate Valid()
      reads this
    {
      Distinct(slots) && numOfLl as int <= |slots|
    }

    /** The static table: `capacity` is MAX_NUM_OF_LLIST, nothing handed out yet. */
    constructor (capacity: nat)
      ensures Valid() && |slots| == capacity && numOfLl == 0
    {
      var s: seq<LList<T>> := [];
      while |s| < capacity
        invariant |s| <= capacity && Distinct(s)
        invariant forall l :: l in s ==> fresh(l)
      {
        var l := new LList();
        s := s + [l];
      }
      slots := s;
      numOfLl := 0;
    }

    /** `llist_create`: null (LLIST_INVALID_HDL) once every slot is taken,
        otherwise the next slot, reset to an empty list. The counter is a
        `uint8_t`, so with 256 slots or more it wraps to 0 after handing out
        slot 255, and the table is never full. */
    method Create() returns (hdl: LList?<T>)
      requires Valid()
      modifies this, if (numOfLl as int) < |slots| then {slots[numOfLl]} else {}
      ensures Valid()
      ensures hdl == null <==> old(numOfLl) as int == |slots|
      ensures hdl == null ==> numOfLl == old(numOfLl)
      ensures hdl != null ==>
        numOfLl as int == (old(numOfLl) as int + 1) % 0x100 && hdl == slots[old(numOfLl)] &&
        hdl !in slots[..old(numOfLl)] && hdl.Valid() && hdl.Contents == []
      ensures |slots| < 0x100 && hdl != null ==> numOfLl as int == old(numOfLl) as int + 1
    {
      hdl := null;
      if (numOfLl as int) < |slots| {
        hdl := slots[numOfLl];
        numOfLl := ((numOfLl as int + 1) % 0x100) as uint8;
        hdl.first := null;
        hdl.Contents := [];
      }
    }
  }

  /** The message-queue pattern built on this list: objects added at the
      tail one by one come back from the head, once the list is drained, in
      the order they were queued, after the objects that were already
      there. */
  method FifoOrder<T(!new)>(l: LList<T>, objs: seq<Node<T>>) returns (out: seq<Node<T>>)
    requires l.Valid() && Distinct(l.Contents + objs)
    modifies l, l.Contents, objs
    ensures l.Valid() && l.Contents == []
    ensures out == old(l.Contents) + objs
  {
    ghost var before := l.Contents;
    for i := 0 to |objs|
      invariant l.Valid() && l.Contents == before + objs[..i]
    {
      assert objs[i] !in l.Contents by {
        forall k | 0 <= k < |l.Contents|
          ensures l.Contents[k] != objs[i]
        {
          assert l.Contents[k] == (before + objs)[k];
          assert objs[i] == (before + objs)[|before| + i];
        }
      }
      assert objs[..i + 1] == objs[..i] + [objs[i]];
      l.AddLast(objs[i]);
    }
    assert objs[..|objs|] == objs;
    ghost var all := l.Contents;
    out := [];
    var r := l.GetFirst();
    while r != null
      invariant l.Valid()
      invariant r != null ==> out + [r] + l.Contents == all
      invariant r == null ==> out == all && l.Contents == []
      decreases |l.Contents| + (if r != null then 1 else 0)
    {
      out := out + [r];
      r := l.GetFirst();
    }
  }
}
