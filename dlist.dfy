/** The doubly linked build of the intrusive list library
    (LLIST_ENABLE_DOUBLE_LINKED_LIST == TRUE): every object embeds `next`
    and `prev`, and a list header holds `first` and `last`.

    `ValidForward()` is what the `next` chain and the header promise;
    `Valid()` adds that the `prev` links mirror the `next` links. */
module DoublyLinkedList {
  import opened StdInt
  import opened ListSeq

  /** A caller-owned object with its two embedded links. */
  class DNode<T> {
    var next: DNode?<T>
    var prev: DNode?<T>
    const data: T

    constructor (data: T)
      ensures this.data == data && next == null && prev == null
    {
      this.data := data;
      next := null;
      prev := null;
    }
  }

  /** A list header of the doubly linked build. */
  class DList<T(!new)> {
    var first: DNode?<T>
    var last: DNode?<T>
    ghost var Contents: seq<DNode<T>>

    /** Following `next` from `first` visits exactly `Contents`, each object
        once, and stops at `last`; an empty list has both ends null. */
    ghost predicate ValidForward()
      reads this, Contents
    {
      Distinct(Contents) &&
      (Contents == [] ==> first == null && last == null) &&
      (Contents != [] ==>
         first == Contents[0] && last == Contents[|Contents| - 1] && last.next == null) &&
      forall i {:trigger Contents[i].next} :: 0 <= i < |Contents| - 1 ==> Contents[i].next == Contents[i + 1]
    }

    /** In addition, walking `prev` from `last` visits `Contents` backwards
        and ends at null. */
    ghost predicate Valid()
      reads this, Contents
    {
      ValidForward() &&
      (Contents != [] ==> Contents[0].prev == null) &&
      forall i {:trigger Contents[i].prev} :: 0 < i < |Contents| ==> Contents[i].prev == Contents[i - 1]
    }

    /** The header as `llist_create` leaves it: `first` and `last` are null. */
    constructor ()
      ensures Valid() && Contents == []
    {
      first := null;
      last := null;
      Contents := [];
    }

    /** `ll_add`: an empty list gets `obj` as its only object; otherwise
        `obj` is linked in front of `first` (`atHead`) or behind `last`. */
    method Add(obj: DNode<T>, atHead: bool)
      requires Valid() && obj !in Contents
      modifies this, obj, first, last
      ensures Valid()
      ensures Contents == if atHead then [obj] + old(Contents) else old(Contents) + [obj]
    {
      ghost var c := Contents;
      if first == null {
        first := obj;
        last := obj;
        obj.prev := null;
        obj.next := null;
        Contents := [obj];
      } else if atHead {
        first.prev := obj;
        obj.next := first;
        first := obj;
        obj.prev := null;
        Contents := [obj] + c;
        forall i | 0 < i < |Contents| - 1
          ensures Contents[i].next == Contents[i + 1]
        {
          assert Contents[i] == c[i - 1] && Contents[i + 1] == c[i];
          assert old(c[i - 1].next) == c[i];
        }
        forall i | 1 < i < |Contents|
          ensures Contents[i].prev == Contents[i - 1]
        {
          assert Contents[i] == c[i - 1] && Contents[i - 1] == c[i - 2] && c[i - 1] != c[0];
          assert old(c[i - 1].prev) == c[i - 2];
        }
      } else {
        last.next := obj;
        obj.prev := last;
        last := obj;
        obj.next := null;
        Contents := c + [obj];
        forall i | 0 <= i < |c| - 1
          ensures Contents[i].next == Contents[i + 1]
        {
          assert Contents[i] == c[i] && Contents[i + 1] == c[i + 1] && c[i] != c[|c| - 1];
          assert old(c[i].next) == c[i + 1];
        }
        forall i | 0 < i < |c|
          ensures Contents[i].prev == Contents[i - 1]
        {
          assert Contents[i] == c[i] && Contents[i - 1] == c[i - 1];
          assert old(c[i].prev) == c[i - 1];
        }
      }
    }

    /** `llist_add_first` in the doubly linked build. */
    method AddFirst(obj: DNode<T>)
      requires Valid() && obj !in Contents
      modifies this, obj, first, last
      ensures Valid() && Contents == [obj] + old(Contents)
    {
      Add(obj, true);
    }

    /** `llist_add_last` in the doubly linked build. */
    method AddLast(obj: DNode<T>)
      requires Valid() && obj !in Contents
      modifies this, obj, first, last
      ensures Valid() && Contents == old(Contents) + [obj]
    {
      Add(obj, false);
    }

    /** `llist_get_first` exactly as the doubly linked build has it: the sole
        object empties the list, otherwise `first` moves to the successor,
        whose `prev` is left pointing at the object handed out. The forward
        chain stays intact, but from two objects on the mirrored `prev`
        links are broken. */
    method GetFirstAsWritten() returns (r: DNode?<T>)
      requires Valid()
      modifies this
      ensures ValidForward()
      ensures r == null <==> old(Contents) == []
      ensures r == null ==> Contents == old(Contents)
      ensures r != null ==> r == old(Contents)[0] && Contents == old(Contents)[1..]
      ensures |old(Contents)| >= 2 ==> first.prev == r && r != null && !Valid()
    {
      r := null;
      if first != null {
        r := first;
        if last == first {
          first := null;
          last := null;
        } else {
          first := first.next;
        }
        Contents := Contents[1..];
      }
    }

    /** `llist_get_first` with the evident intent of the doubly linked
        build: the new head's `prev` is cleared as well, so both chains stay
        consistent; removing the sole object sets `first` and `last` to null. */
    method GetFirst() returns (r: DNode?<T>)
      requires Valid()
      modifies this, Contents
      ensures Valid()
      ensures r == null <==> old(Contents) == []
      ensures r == null ==> Contents == old(Contents)
      ensures r != null ==> r == old(Contents)[0] && Contents == old(Contents)[1..]
      ensures old(|Contents|) == 1 ==> first == null && last == null
      ensures r != null ==> r.next == old(r.next) && r.prev == old(r.prev)
    {
      ghost var c := Contents;
      r := null;
      if first != null {
        r := first;
        if last == first {
          first := null;
          last := null;
        } else {
          first := first.next;
          first.prev := null;
        }
        Contents := c[1..];
        forall i | 0 <= i < |Contents| - 1
          ensures Contents[i].next == Contents[i + 1]
        {
          assert Contents[i] == c[i + 1] && Contents[i + 1] == c[i + 2];
          assert old(c[i + 1].next) == c[i + 2];
        }
        forall i | 0 < i < |Contents|
          ensures Contents[i].prev == Contents[i - 1]
        {
          assert Contents[i] == c[i + 1] && Contents[i - 1] == c[i] && c[i + 1] != c[1];
          assert old(c[i + 1].prev) == c[i];
        }
      }
    }

    /** The two checks `llist_remove` makes before it moves `last` or
        `first`, as written: they compare the missing neighbour, which is
        null, with `last` and with `first`. */
    ghost predicate RemoveChecksAsWritten(obj: DNode<T>)
      reads this, obj
    {
      (obj.next == null ==> obj.next == last) && (obj.prev == null ==> obj.prev == first)
    }

    /** The checks as evidently intended: an object without a successor is
        `last`, one without a predecessor is `first`. */
    ghost predicate RemoveChecks(obj: DNode<T>)
      reads this, obj
    {
      (obj.next == null ==> obj == last) && (obj.prev == null ==> obj == first)
    }

    /** In a consistent list the missing successor marks the tail and the
        missing predecessor the head. */
    lemma EndsOfList(obj: DNode<T>)
      requires Valid() && obj in Contents
      ensures obj.next == null <==> obj == last
      ensures obj.prev == null <==> obj == first
    {
      var k := IndexOf(Contents, obj);
      if k + 1 < |Contents| {
        assert obj.next == Contents[k + 1];
        assert Contents[k] != Contents[|Contents| - 1];
      }
      if k > 0 {
        assert obj.prev == Contents[k - 1];
        assert Contents[k] != Contents[0];
      }
    }

    /** As written, the checks fail exactly when the object removed is at
        an end of the list: removing the head or the tail stops at the
        check. */
    lemma RemoveChecksAsWrittenFailAtEnds(obj: DNode<T>)
      requires Valid() && obj in Contents
      ensures RemoveChecksAsWritten(obj) <==> obj != first && obj != last
    {
      EndsOfList(obj);
    }

    /** The intended checks hold for every member. */
    lemma RemoveChecksHold(obj: DNode<T>)
      requires Valid() && obj in Contents
      ensures RemoveChecks(obj)
    {
      EndsOfList(obj);
    }

    /** `llist_remove` in the doubly linked build: no search; the object's
        own links name its neighbours, which are joined around it, and
        `last` or `first` move when the object was at an end. The object
        must be a member: its links are trusted as they are. */
    method Remove(obj: DNode<T>)
      requires Valid() && obj in Contents
      modifies this, obj.next, obj.prev
      ensures Valid()
      ensures Contents == RemoveAt(old(Contents), IndexOf(old(Contents), obj))
      ensures obj !in Contents
    {
      ghost var c := Contents;
      ghost var k := IndexOf(c, obj);
      RemoveChecksHold(obj);
      var nextObj := obj.next;
      var prevObj := obj.prev;
      assert nextObj == if k + 1 < |c| then c[k + 1] else null;
      assert prevObj == if k == 0 then null else c[k - 1];
      if nextObj != null {
        nextObj.prev := prevObj;
      } else {
        last := prevObj;
      }
      if prevObj != null {
        prevObj.next := nextObj;
      } else {
        first := nextObj;
      }
      RemoveAtDistinct(c, k);
      Contents := RemoveAt(c, k);
      forall i | 0 <= i < |Contents| - 1
        ensures Contents[i].next == Contents[i + 1]
      {
        if i + 1 < k {
          assert Contents[i] == c[i] && Contents[i + 1] == c[i + 1] && c[i] != prevObj;
          assert old(c[i].next) == c[i + 1];
        } else if k <= i {
          assert Contents[i] == c[i + 1] && Contents[i + 1] == c[i + 2] && c[i + 1] != prevObj;
          assert old(c[i + 1].next) == c[i + 2];
        }
      }
      forall i | 0 < i < |Contents|
        ensures Contents[i].prev == Contents[i - 1]
      {
        if i < k {
          assert Contents[i] == c[i] && Contents[i - 1] == c[i - 1] && c[i] != nextObj;
          assert old(c[i].prev) == c[i - 1];
        } else if k < i {
          assert Contents[i] == c[i + 1] && Contents[i - 1] == c[i] && c[i + 1] != nextObj;
          assert old(c[i + 1].prev) == c[i];
        }
      }
    }
    /** The relinking inside `llist_sort` of the doubly linked build, as
        written: `obj1` at position `k` and its successor `obj2` exchange
        their own links, and `first` moves when `obj1` was the head. The
        predecessor's `next`, the successor's `prev` and `last` are not
        touched, so the predecessor still leads to `obj1`, skipping `obj2`,
        the successor still names `obj2` as its predecessor, and at the
        tail `last` stays at `obj2`, which is no longer the tail. */
    method SwapPairAsWritten(obj1: DNode<T>, obj2: DNode<T>, ghost k: nat)
      requires Valid()
      requires k + 1 < |Contents| && Contents[k] == obj1 && Contents[k + 1] == obj2
      modifies this, obj1, obj2
      ensures Contents == old(Contents) && last == old(last)
      ensures first == if k == 0 then obj2 else old(first)
      ensures obj2.next == obj1 && obj1.next == old(obj2.next)
      ensures obj1.prev == obj2 && obj2.prev == old(obj1.prev)
      ensures k > 0 ==> Contents[k - 1].next == obj1 && Contents[k - 1] != obj2
      ensures k + 2 < |Contents| ==> Contents[k + 2].prev == obj2 && obj2.next != Contents[k + 2]
      ensures k + 2 == |Contents| ==> last == obj2 && last.next != null
    {
      ghost var c := Contents;
      if obj1 == first {
        first := obj2;
      }
      var temp := obj2.next;
      obj2.next := obj1;
      obj1.next := temp;
      temp := obj1.prev;
      obj2.prev := temp;
      obj1.prev := obj2;
      if k > 0 {
        assert c[k - 1] != obj1 && c[k - 1] != obj2;
        assert old(c[k - 1].next) == obj1;
      }
      if k + 2 < |c| {
        assert c[k + 2] != obj1 && c[k + 2] != obj2;
        assert old(c[k + 2].prev) == obj2;
      }
    }

    /** The same exchange with the links the doubly linked build needs as
        well: the predecessor's `next` (or `first`) and the successor's
        `prev` (or `last`) are redirected, so the list stays consistent
        with the two objects exchanged. */
    method SwapPair(obj1: DNode<T>, obj2: DNode<T>, ghost k: nat)
      requires Valid()
      requires k + 1 < |Contents| && Contents[k] == obj1 && Contents[k + 1] == obj2
      modifies this, obj1, obj2, obj1.prev, obj2.next
      ensures Valid()
      ensures Contents == Swap(old(Contents), k)
    {
      ghost var c := Contents;
      var before := obj1.prev;
      var temp := obj2.next;
      assert before == if k == 0 then null else c[k - 1];
      assert temp == if k + 2 < |c| then c[k + 2] else null;
      if before == null {
        first := obj2;
      } else {
        before.next := obj2;
      }
      if temp == null {
        last := obj1;
      } else {
        temp.prev := obj1;
      }
      obj2.next := obj1;
      obj1.next := temp;
      obj2.prev := before;
      obj1.prev := obj2;
      SwapPermutes(c, k);
      Contents := Swap(c, k);
      forall i | 0 <= i < |c| - 1
        ensures Contents[i].next == Contents[i + 1]
      {
        if i + 1 < k || k + 1 < i {
          assert Contents[i] == c[i] && Contents[i + 1] == c[i + 1];
          assert c[i] != obj1 && c[i] != obj2 && c[i] != before;
          assert old(c[i].next) == c[i + 1];
        }
      }
      forall i | 0 < i < |c|
        ensures Contents[i].prev == Contents[i - 1]
      {
        if i < k || k + 2 < i {
          assert Contents[i] == c[i] && Contents[i - 1] == c[i - 1];
          assert c[i] != obj1 && c[i] != obj2 && c[i] != temp;
          assert old(c[i].prev) == c[i - 1];
        }
      }
    }
  }

  /** The table of list headers of the doubly linked build. */
  class DListTable<T(!new)> {
    const slots: seq<DList<T>>
    var numOfLl: uint8

    /** The headers are distinct and the counter has not passed the table's
        end. */
    ghost predicate Valid()
      reads this
    {
      Distinct(slots) && numOfLl as int <= |slots|
    }

    /** The static table: `capacity` is MAX_NUM_OF_LLIST, nothing handed out yet. */
    constructor (capacity: nat)
      ensures Valid() && |slots| == capacity && numOfLl == 0
    {
      var s: seq<DList<T>> := [];
      while |s| < capacity
        invariant |s| <= capacity && Distinct(s)
        invariant forall i :: 0 <= i < |s| ==> fresh(s[i])
      {
        var l := new DList<T>();
        s := s + [l];
      }
      slots := s;
      numOfLl := 0;
    }

    /** `llist_create`: hand out the next header with `first` and `last`
        cleared, or null once every header is in use. The counter is a
        `uint8_t`, so with 256 headers or more it wraps to 0 after handing
        out header 255, and the table is never full. */
    method Create() returns (hdl: DList?<T>)
      requires Valid()
      modifies this, if (numOfLl as int) < |slots| then {slots[numOfLl]} else {}
      ensures Valid()
      ensures hdl == null <==> old(numOfLl) as int == |slots|
      ensures hdl == null ==> numOfLl == old(numOfLl)
      ensures hdl != null ==>
        (old(numOfLl) as int) < |slots| && hdl == slots[old(numOfLl)] &&
        numOfLl as int == (old(numOfLl) as int + 1) % 0x100 &&
        hdl.Valid() && hdl.Contents == [] &&
        forall i :: 0 <= i < old(numOfLl) as int ==> slots[i] != hdl
      ensures |slots| < 0x100 && hdl != null ==> numOfLl as int == old(numOfLl) as int + 1
    {
      hdl := null;
      if (numOfLl as int) < |slots| {
        hdl := slots[numOfLl];
        numOfLl := ((numOfLl as int + 1) % 0x100) as uint8;
        hdl.first := null;
        hdl.last := null;
        hdl.Contents := [];
      }
    }
  }

  /** The consequence of the stale `prev` left by `llist_get_first`: after
      two objects are added and the head is taken, the remaining object
      still names the taken one as its predecessor. The doubly linked
      `llist_remove` trusts that link, so removing `b` next would re-link
      `a` and leave `first` at `b`. */
  method StaleHeadScenario<T(!new)>(l: DList<T>, a: DNode<T>, b: DNode<T>) returns (x: DNode?<T>)
    requires l.Valid() && l.Contents == [] && a != b
    modifies l, a, b
    ensures x == a && l.Contents == [b] && l.first == b
    ensures b.prev == a && !l.Valid()
  {
    l.AddLast(a);
    l.AddLast(b);
    x := l.GetFirstAsWritten();
  }

  /** With the corrected `llist_get_first` the same calls leave a
      consistent one-object list, and taking the head again empties it. */
  method ConsistentHeadScenario<T(!new)>(l: DList<T>, a: DNode<T>, b: DNode<T>) returns (x: DNode?<T>, y: DNode?<T>)
    requires l.Valid() && l.Contents == [] && a != b
    modifies l, a, b
    ensures x == a && y == b
    ensures l.Valid() && l.Contents == [] && l.first == null && l.last == null
  {
    l.AddLast(a);
    l.AddLast(b);
    x := l.GetFirst();
    y := l.GetFirst();
  }
}
