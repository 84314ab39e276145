/**
  The doubly-linked list: a head pointer, a tail pointer, an element count
  and heap nodes linked both ways.

  The ghost sequence `Nodes` lists the nodes from head to tail; `Valid()`
  ties every real pointer to it (link symmetry, head and tail at the ends,
  `size` equal to the number of linked nodes, no node twice), and
  `Contents` is the sequence of their elements. Operations that mutate the
  list in place say what `Contents` becomes; the copy-and-build operations
  change no existing object and return fresh lists whose `Contents` is the
  matching function of `SequenceModel`.
 */
module DoubleLinkedList {
  import opened Items
  import opened SequenceModel

  datatype ListError = EmptyContainer

  /** An element, or the empty-container failure of front()/back(). */
  datatype Result<T> = Ok(value: T) | Err(error: ListError)

  /** The sequence `r` is `s` with `x` inserted at index `k`: where each element of `r` comes from. */
  lemma InsertedAt<T>(s: seq<T>, k: int, x: T, r: seq<T>)
    requires 0 <= k <= |s| && r == s[..k] + [x] + s[k..]
    ensures |r| == |s| + 1
    ensures forall i :: 0 <= i < |r| ==> r[i] == if i < k then s[i] else if i == k then x else s[i - 1]
  {
  }

  /** Inserting a new element into a sequence without repetitions gives one without repetitions. */
  lemma InsertedDistinct<T>(s: seq<T>, k: int, x: T, r: seq<T>)
    requires 0 <= k <= |s| && r == s[..k] + [x] + s[k..]
    requires forall i, j :: 0 <= i < j < |s| ==> s[i] != s[j]
    requires x !in s
    ensures forall i, j :: 0 <= i < j < |r| ==> r[i] != r[j]
  {
    InsertedAt(s, k, x, r);
    forall i, j | 0 <= i < j < |r| ensures r[i] != r[j] {
      if i < k && j > k {
        assert r[i] == s[i] && r[j] == s[j - 1];
      }
    }
  }

  /** No two of the lists share an object: each owns its own nodes. */
  ghost predicate Disjoint(lists: seq<LinkedList>)
    reads lists
  {
    forall i, j :: 0 <= i < j < |lists| ==> lists[i].Repr !! lists[j].Repr
  }

  /** A list sharing nothing with any of `lists` can be appended to them. */
  lemma DisjointAppend(lists: seq<LinkedList>, l: LinkedList)
    requires Disjoint(lists)
    requires forall i :: 0 <= i < |lists| ==> lists[i].Repr !! l.Repr
    ensures Disjoint(lists + [l])
  {
    var r := lists + [l];
    forall i, j | 0 <= i < j < |r| ensures r[i].Repr !! r[j].Repr {
      assert r[i] == lists[i];
    }
  }

  class Node {
    var next: Node?
    var prev: Node?
    var data: Item

    constructor (dataArg: Item)
      ensures next == null && prev == null && data == dataArg
    {
      next, prev, data := null, null, dataArg;
    }
  }

  class LinkedList {
    var head: Node?
    var tail: Node?
    var size: int

    ghost var Contents: seq<Item>
    ghost var Nodes: seq<Node>
    ghost var Repr: set<object>

    ghost predicate Valid()
      reads this, Repr
      ensures Valid() ==> this in Repr
    {
      this in Repr &&
      size == |Nodes| &&
      (forall i :: 0 <= i < |Nodes| ==> Nodes[i] in Repr) &&
      (forall i, j :: 0 <= i < j < |Nodes| ==> Nodes[i] != Nodes[j]) &&
      Chained()
    }

    ghost predicate Chained()
      reads this, Nodes
    {
      |Nodes| == |Contents| &&
      (forall i :: 0 <= i < |Nodes| ==> Nodes[i].data == Contents[i]) &&
      (forall i :: 0 < i < |Nodes| ==> Nodes[i - 1].next == Nodes[i] && Nodes[i].prev == Nodes[i - 1]) &&
      (Nodes == [] ==> head == null && tail == null) &&
      (Nodes != [] ==>
         head == Nodes[0] && head.prev == null &&
         tail == Nodes[|Nodes| - 1] && tail.next == null)
    }

    constructor ()
      ensures Valid() && fresh(Repr)
      ensures Contents == []
    {
      head, tail, size := null, null, 0;
      Contents, Nodes, Repr := [], [], {this};
    }

    /** What node `k` of a valid list holds and where its `next` points. */
    lemma NodeAt(k: int)
      requires Chained() && 0 <= k < |Nodes|
      ensures Nodes[k].data == Contents[k]
      ensures Nodes[k].next == if k + 1 < |Nodes| then Nodes[k + 1] else null
    {
      if k + 1 < |Nodes| {
        assert Nodes[(k + 1) - 1].next == Nodes[k + 1];
      }
    }

    /** The copy constructor: an empty list assigned from `other`. */
    constructor Copy(other: LinkedList)
      requires other.Valid()
      ensures Valid() && fresh(Repr)
      ensures Contents == other.Contents
    {
      head, tail, size := null, null, 0;
      Contents, Nodes, Repr := [], [], {this};
      new;
      Assign(other);
    }

    method Size() returns (n: int)
      requires Valid()
      ensures n == |Contents|
    {
      n := size;
    }

    method IsEmpty() returns (e: bool)
      requires Valid()
      ensures e <==> Contents == []
    {
      e := head == null;
    }

    method Front() returns (r: Result<Item>)
      requires Valid()
      ensures r.Err? <==> Contents == []
      ensures r.Ok? ==> r.value == Contents[0]
    {
      if head == null {
        r := Err(EmptyContainer);
      } else {
        r := Ok(head.data);
      }
    }

    method Back() returns (r: Result<Item>)
      requires Valid()
      ensures r.Err? <==> Contents == []
      ensures r.Ok? ==> r.value == Contents[|Contents| - 1]
    {
      if tail == null {
        r := Err(EmptyContainer);
      } else {
        r := Ok(tail.data);
      }
    }

    /** Links the unlinked node `n` in front of the head (the body of pushFront). */
    method LinkFront(n: Node)
      requires Valid() && n !in Repr && n.next == null && n.prev == null
      modifies Repr, n`next, n`prev
      ensures Valid() && Repr == old(Repr) + {n}
      ensures Contents == [n.data] + old(Contents)
    {
      ghost var nodes := Nodes;
      if head == null {
        head := n;
        tail := n;
      } else {
        var oldHead := head;
        oldHead.prev := n;
        n.next := oldHead;
        head := n;
      }
      size := size + 1;
      Nodes := [n] + Nodes;
      Contents := [n.data] + Contents;
      Repr := Repr + {n};
      forall i | 1 < i < |Nodes|
        ensures Nodes[i - 1].next == Nodes[i] && Nodes[i].prev == Nodes[i - 1]
      {
        assert Nodes[i - 1] == nodes[i - 2] && Nodes[i] == nodes[i - 1];
      }
    }

    /** Links the unlinked node `n` after the tail (the body of pushBack). */
    method LinkBack(n: Node)
      requires Valid() && n !in Repr && n.next == null && n.prev == null
      modifies Repr, n`next, n`prev
      ensures Valid() && Repr == old(Repr) + {n}
      ensures Contents == old(Contents) + [n.data]
    {
      ghost var nodes := Nodes;
      if head == null {
        head := n;
        tail := n;
      } else {
        var oldTail := tail;
        oldTail.next := n;
        n.prev := oldTail;
        tail := n;
      }
      size := size + 1;
      Nodes := Nodes + [n];
      Contents := Contents + [n.data];
      Repr := Repr + {n};
      forall i | 0 < i < |Nodes| - 1
        ensures Nodes[i - 1].next == Nodes[i] && Nodes[i].prev == Nodes[i - 1]
      {
        assert Nodes[i - 1] == nodes[i - 1] && Nodes[i] == nodes[i];
      }
    }

    /**
      Links the unlinked node `n` immediately before `cur`, the node at
      index `k`, which is not the head.
     */
    method LinkBefore(n: Node, cur: Node, ghost k: nat)
      requires Valid() && n !in Repr && n.next == null && n.prev == null
      requires 0 < k < |Nodes| && cur == Nodes[k]
      modifies Repr, n`next, n`prev
      ensures Valid() && Repr == old(Repr) + {n}
      ensures Contents == old(Contents)[..k] + [n.data] + old(Contents)[k..]
    {
      ghost var nodes, contents := Nodes, Contents;
      var before := cur.prev;
      assert before == nodes[k - 1];
      n.prev := before;
      before.next := n;
      cur.prev := n;
      n.next := cur;
      size := size + 1;
      Nodes := Nodes[..k] + [n] + Nodes[k..];
      Contents := Contents[..k] + [n.data] + Contents[k..];
      Repr := Repr + {n};
      InsertedAt(nodes, k, n, Nodes);
      InsertedAt(contents, k, n.data, Contents);
      InsertedDistinct(nodes, k, n, Nodes);
      forall i | 0 <= i < |Nodes| ensures Nodes[i].data == Contents[i] {
      }
      forall i | 0 < i < |Nodes|
        ensures Nodes[i - 1].next == Nodes[i] && Nodes[i].prev == Nodes[i - 1]
      {
        if i < k {
          assert nodes[i - 1] != before && nodes[i] != cur;
        } else if i > k + 1 {
          assert nodes[i - 2] != before && nodes[i - 1] != cur;
        }
      }
      assert Nodes[0] == nodes[0] != cur;
      assert Nodes[|Nodes| - 1] == nodes[|nodes| - 1] != before;
    }

    method PushFront(newData: Item)
      requires Valid()
      modifies Repr
      ensures Valid() && fresh(Repr - old(Repr))
      ensures Contents == [newData] + old(Contents)
    {
      var newNode := new Node(newData);
      LinkFront(newNode);
    }

    method PushBack(newData: Item)
      requires Valid()
      modifies Repr
      ensures Valid() && fresh(Repr - old(Repr))
      ensures Contents == old(Contents) + [newData]
    {
      var newNode := new Node(newData);
      LinkBack(newNode);
    }

    /** Removes the head node; nothing happens on an empty list. */
    method PopFront()
      requires Valid()
      modifies Repr
      ensures Valid() && Repr <= old(Repr)
      ensures Contents == if old(Contents) == [] then [] else old(Contents)[1..]
    {
      if head == null {
        return;
      }
      assert 1 < |Nodes| ==> Nodes[0].next == Nodes[1];
      if head.next == null {
        Repr := Repr - {head};
        head := null;
        tail := null;
        size := size - 1;
        assert size == 0;
        Nodes, Contents := [], [];
        return;
      }
      ghost var nodes := Nodes;
      assert 1 < |Nodes| && head.next == Nodes[1];
      var oldHead := head;
      head := head.next;
      head.prev := null;
      size := size - 1;
      Nodes, Contents := Nodes[1..], Contents[1..];
      Repr := Repr - {oldHead};
      forall i | 0 <= i < |Nodes|
        ensures Nodes[i] in Repr
      {
        assert Nodes[i] == nodes[i + 1];
      }
      forall i | 0 < i < |Nodes|
        ensures Nodes[i - 1].next == Nodes[i] && Nodes[i].prev == Nodes[i - 1]
      {
        assert Nodes[i - 1] == nodes[i] && Nodes[i] == nodes[i + 1];
      }
    }

    /** Removes the tail node; nothing happens on an empty list. */
    method PopBack()
      requires Valid()
      modifies Repr
      ensures Valid() && Repr <= old(Repr)
      ensures Contents == if old(Contents) == [] then [] else old(Contents)[..|old(Contents)| - 1]
    {
      if head == null {
        return;
      }
      assert 1 < |Nodes| ==> Nodes[|Nodes| - 1].prev == Nodes[|Nodes| - 2];
      if tail.prev == null {
        Repr := Repr - {tail};
        head := null;
        tail := null;
        size := size - 1;
        assert size == 0;
        Nodes, Contents := [], [];
        return;
      }
      ghost var nodes := Nodes;
      assert 1 < |Nodes| && tail.prev == Nodes[|Nodes| - 2];
      var oldTail := tail;
      tail := tail.prev;
      tail.next := null;
      size := size - 1;
      Nodes, Contents := Nodes[..|Nodes| - 1], Contents[..|Contents| - 1];
      Repr := Repr - {oldTail};
      forall i | 0 <= i < |Nodes|
        ensures Nodes[i] in Repr
      {
        assert Nodes[i] == nodes[i];
      }
      forall i | 0 < i < |Nodes|
        ensures Nodes[i - 1].next == Nodes[i] && Nodes[i].prev == Nodes[i - 1]
      {
        assert Nodes[i - 1] == nodes[i - 1] && Nodes[i] == nodes[i];
      }
    }

    /** Removes every element, tail first. */
    method Clear()
      requires Valid()
      modifies Repr
      ensures Valid() && Repr <= old(Repr)
      ensures Contents == []
    {
      while head != null
        invariant Valid() && Repr <= old(Repr)
        decreases |Contents|
      {
        PopBack();
      }
      assert size == 0;
    }

    /** operator=: clears this list, then appends a copy of each of `other`'s elements. */
    method Assign(other: LinkedList)
      requires Valid() && other.Valid() && Repr !! other.Repr
      modifies Repr
      ensures Valid() && fresh(Repr - old(Repr))
      ensures Contents == other.Contents
    {
      Clear();
      var cur := other.head;
      ghost var i := 0;
      while cur != null
        invariant Valid() && fresh(Repr - old(Repr)) && Repr !! other.Repr
        invariant other.Valid()
        invariant 0 <= i <= |other.Nodes|
        invariant cur == if i < |other.Nodes| then other.Nodes[i] else null
        invariant Contents == other.Contents[..i]
        decreases |other.Nodes| - i
      {
        PushBack(cur.data);
        cur := cur.next;
        i := i + 1;
      }
    }

    /** Same size, and equal elements position by position. */
    method Equals(other: LinkedList) returns (eq: bool)
      requires Valid() && other.Valid()
      ensures eq <==> Contents == other.Contents
    {
      if size != other.size {
        return false;
      }
      var thisCur := head;
      var otherCur := other.head;
      ghost var i := 0;
      while thisCur != null
        invariant 0 <= i <= |Nodes|
        invariant thisCur == if i < |Nodes| then Nodes[i] else null
        invariant otherCur == if i < |other.Nodes| then other.Nodes[i] else null
        invariant Contents[..i] == other.Contents[..i]
        decreases |Nodes| - i
      {
        // the other walk cannot run out first: both lists have `size` nodes
        assert otherCur != null;
        if thisCur.data != otherCur.data {
          return false;
        }
        thisCur := thisCur.next;
        otherCur := otherCur.next;
        i := i + 1;
      }
      assert Contents == Contents[..i] && other.Contents == other.Contents[..i];
      return true;
    }

    /**
      Inserts `newData` before the first element not below it, or at the
      tail when there is none.
     */
    method InsertOrdered(newData: Item)
      requires Valid()
      modifies Repr
      ensures Valid() && fresh(Repr - old(Repr))
      ensures Contents == OrderedInsert(old(Contents), newData)
    {
      var newp := new Node(newData);
      var cur := head;

      if head == null {
        assert size == 0;
        LinkFront(newp);
        return;
      }

      if Le(newp.data, head.data) {
        LinkFront(newp);
        return;
      }

      // scan from the second node for the first element not below `newData`
      ghost var k := 1;
      cur := head.next;
      while cur != null
        invariant 1 <= k <= |Nodes|
        invariant cur == if k < |Nodes| then Nodes[k] else null
        invariant forall j :: 0 <= j < k ==> !Le(newData, Contents[j])
        decreases |Nodes| - k
      {
        if Le(newp.data, cur.data) {
          OrderedInsertAt(Contents, newData, k);
          LinkBefore(newp, cur, k);
          return;
        }
        cur := cur.next;
        k := k + 1;
      }

      // no element is at least `newData`: append at the tail
      OrderedInsertAt(Contents, newData, |Contents|);
      LinkBack(newp);
    }

    /** Walks adjacent pairs from the head; false at the first pair out of order. */
    method IsSorted() returns (sorted: bool)
      requires Valid()
      ensures sorted <==> AdjacentInOrder(Contents)
      ensures sorted <==> Sorted(Contents)
    {
      if size < 2 {
        return true;
      }
      assert head != null;
      var prev: Node? := null;
      var cur := head;
      ghost var i := 0;
      while cur.next != null
        invariant 0 <= i < |Nodes|
        invariant cur == Nodes[i]
        invariant cur.next == if i + 1 < |Nodes| then Nodes[i + 1] else null
        invariant forall j :: 0 < j <= i ==> Le(Contents[j - 1], Contents[j])
        decreases |Nodes| - i
      {
        prev := cur;
        cur := cur.next;
        i := i + 1;
        if !Le(prev.data, cur.data) {
          assert !Le(Contents[i - 1], Contents[i]);
          return false;
        }
      }
      assert AdjacentInOrder(Contents);
      AdjacentSorted(Contents);
      return true;
    }

    /**
      A list of two fresh lists: the left one holds the first
      `|Contents| - |Contents| / 2` elements and the right one the rest.
      The right half is built by moving the left copy's back element to the
      right half's front, `size / 2` times.
     */
    method SplitHalves() returns (halves: seq<LinkedList>)
      requires Valid()
      ensures |halves| == 2
      ensures halves[0].Valid() && fresh(halves[0].Repr)
      ensures halves[1].Valid() && fresh(halves[1].Repr)
      ensures halves[0].Repr !! halves[1].Repr
      ensures halves[0].Contents == Halves(Contents).0
      ensures halves[1].Contents == Halves(Contents).1
    {
      var leftHalf := new LinkedList.Copy(this);
      var rightHalf := new LinkedList();

      if size >= 2 {
        var rightHalfLength := size / 2;
        leftHalf.MoveBackToFrontTimes(rightHalf, rightHalfLength);
      }
      halves := [leftHalf, rightHalf];
    }

    /**
      The loop of splitHalves: `count` times, the back element of this list
      is moved to the front of `dst`, so the last `count` elements end up in
      `dst` in their original order.
     */
    method MoveBackToFrontTimes(dst: LinkedList, count: int)
      requires Valid() && dst.Valid() && Repr !! dst.Repr
      requires 0 <= count <= |Contents| && dst.Contents == []
      modifies Repr, dst.Repr
      ensures Valid() && dst.Valid() && Repr !! dst.Repr
      ensures Repr <= old(Repr) && fresh(dst.Repr - old(dst.Repr))
      ensures Contents == old(Contents)[..|old(Contents)| - count]
      ensures dst.Contents == old(Contents)[|old(Contents)| - count..]
    {
      ghost var s := Contents;
      for i := 0 to count
        invariant Valid() && dst.Valid() && Repr !! dst.Repr
        invariant Repr <= old(Repr) && fresh(dst.Repr - old(dst.Repr))
        invariant Contents == s[..|s| - i]
        invariant dst.Contents == s[|s| - i..]
      {
        MoveBackToFront(dst);
        assert s[..|s| - i][..|s| - i - 1] == s[..|s| - (i + 1)];
        assert [s[|s| - i - 1]] + s[|s| - i..] == s[|s| - (i + 1)..];
      }
    }

    /**
      One round of the splitHalves loop: the back element of this list is
      pushed onto the front of `dst` and popped from this list.
     */
    method MoveBackToFront(dst: LinkedList)
      requires Valid() && dst.Valid() && Repr !! dst.Repr && Contents != []
      modifies Repr, dst.Repr
      ensures Valid() && dst.Valid() && Repr !! dst.Repr
      ensures Repr <= old(Repr) && fresh(dst.Repr - old(dst.Repr))
      ensures Contents == old(Contents)[..|old(Contents)| - 1]
      ensures dst.Contents == [old(Contents)[|old(Contents)| - 1]] + old(dst.Contents)
    {
      var dataToCopy := Back();
      dst.PushFront(dataToCopy.value);
      PopBack();
    }

    /** explode: a list of fresh singleton lists, one per element, in order. */
    method Explode() returns (lists: seq<LinkedList>)
      requires Valid()
      ensures |lists| == |Contents|
      ensures forall i :: 0 <= i < |lists| ==>
        lists[i].Valid() && fresh(lists[i].Repr) && lists[i].Contents == Singletons(Contents)[i]
      ensures Disjoint(lists)
    {
      var workingCopy := new LinkedList.Copy(this);
      lists := workingCopy.PopAllIntoSingletons();
    }

    /**
      The loop of explode: while this list is not empty, its front element
      goes into a fresh singleton list, which is appended to `lists`, and is
      popped. The list ends empty.
     */
    method PopAllIntoSingletons() returns (lists: seq<LinkedList>)
      requires Valid()
      modifies Repr
      ensures Valid() && Contents == []
      ensures |lists| == |old(Contents)|
      ensures forall i :: 0 <= i < |lists| ==>
        lists[i].Valid() && fresh(lists[i].Repr) && lists[i].Contents == [old(Contents)[i]]
      ensures Disjoint(lists)
    {
      ghost var s := Contents;
      lists := [];
      while head != null
        invariant Valid() && Repr <= old(Repr)
        invariant |lists| <= |s| && Contents == s[|lists|..]
        invariant forall i :: 0 <= i < |lists| ==>
          lists[i].Valid() && fresh(lists[i].Repr) && lists[i].Contents == [s[i]]
        invariant Disjoint(lists)
        decreases |Contents|
      {
        var singletonList := MoveFrontToSingleton();
        DisjointAppend(lists, singletonList);
        lists := lists + [singletonList];
      }
    }

    /**
      One round of the explode loop: a fresh list holding this list's front
      element, which is popped from this list.
     */
    method MoveFrontToSingleton() returns (singletonList: LinkedList)
      requires Valid() && Contents != []
      modifies Repr
      ensures Valid() && Repr <= old(Repr)
      ensures Contents == old(Contents)[1..]
      ensures singletonList.Valid() && fresh(singletonList.Repr)
      ensures singletonList.Contents == [old(Contents)[0]]
    {
      singletonList := new LinkedList();
      var front := Front();
      singletonList.PushBack(front.value);
      PopFront();
    }

    /**
      merge: this list and `other` merged into a fresh list by the two-pointer
      walk over copies of both; when either is empty the result is a copy of
      the other.
     */
    method Merge(other: LinkedList) returns (merged: LinkedList)
      requires Valid() && other.Valid()
      ensures merged.Valid() && fresh(merged.Repr)
      ensures merged.Contents == Merged(Contents, other.Contents)
    {
      var left := new LinkedList.Copy(this);
      var right := new LinkedList.Copy(other);
      merged := MergeCopies(left, right);
    }

    /** The body of merge once both operands are copied. */
    static method MergeCopies(left: LinkedList, right: LinkedList) returns (merged: LinkedList)
      requires left.Valid() && right.Valid()
      ensures merged.Valid() && fresh(merged.Repr)
      ensures merged.Contents == Merged(left.Contents, right.Contents)
    {
      var leftEmpty := left.IsEmpty();
      var rightEmpty := right.IsEmpty();
      if leftEmpty {
        merged := new LinkedList.Copy(right);
      } else if rightEmpty {
        merged := new LinkedList.Copy(left);
      } else {
        merged := new LinkedList();
        MergeWalk(left, right, merged);
      }
    }

    /**
      The loop of merge: walks `left` and `right` from their heads, each
      time appending to `merged` the element under the left cursor when it
      is `<=` the one under the right cursor (or the right one is spent),
      and otherwise the element under the right cursor.
     */
    static method MergeWalk(left: LinkedList, right: LinkedList, merged: LinkedList)
      requires left.Valid() && right.Valid() && merged.Valid()
      requires merged.Contents == []
      requires merged.Repr !! left.Repr && merged.Repr !! right.Repr
      modifies merged.Repr
      ensures merged.Valid() && fresh(merged.Repr - old(merged.Repr))
      ensures merged.Contents == Merged(left.Contents, right.Contents)
    {
      var templ := left.head;
      var tempr := right.head;
      ghost var a, b := left.Contents, right.Contents;
      ghost var i, j := 0, 0;
      while templ != null || tempr != null
        invariant merged.Valid() && fresh(merged.Repr - old(merged.Repr))
        invariant 0 <= i <= |a| && 0 <= j <= |b|
        invariant templ == if i < |a| then left.Nodes[i] else null
        invariant tempr == if j < |b| then right.Nodes[j] else null
        invariant merged.Contents + MergeFrom(a, b, i, j) == MergeFrom(a, b, 0, 0)
        decreases |a| - i + |b| - j
      {
        var next: Item;
        next, templ, tempr, i, j := MergeChoose(left, right, templ, tempr, i, j);
        assert (merged.Contents + [next]) + MergeFrom(a, b, i, j) == merged.Contents + ([next] + MergeFrom(a, b, i, j));
        merged.PushBack(next);
      }
      assert MergeFrom(a, b, i, j) == [];
      MergeFromIsMerged(a, b, 0, 0);
      assert a[0..] == a && b[0..] == b;
    }

    /**
      One step of the merge loop: the element under the left cursor when it
      is `<=` the one under the right cursor or the right list is spent,
      else the one under the right cursor; that cursor moves on.
     */
    static method MergeChoose(left: LinkedList, right: LinkedList, templ: Node?, tempr: Node?, ghost i: int, ghost j: int)
      returns (next: Item, templ': Node?, tempr': Node?, ghost i': int, ghost j': int)
      requires left.Chained() && right.Chained()
      requires 0 <= i <= |left.Contents| && 0 <= j <= |right.Contents|
      requires templ == if i < |left.Contents| then left.Nodes[i] else null
      requires tempr == if j < |right.Contents| then right.Nodes[j] else null
      requires templ != null || tempr != null
      ensures 0 <= i' <= |left.Contents| && 0 <= j' <= |right.Contents|
      ensures (i' == i + 1 && j' == j) || (i' == i && j' == j + 1)
      ensures templ' == if i' < |left.Contents| then left.Nodes[i'] else null
      ensures tempr' == if j' < |right.Contents| then right.Nodes[j'] else null
      ensures MergeFrom(left.Contents, right.Contents, i, j) == [next] + MergeFrom(left.Contents, right.Contents, i', j')
    {
      if templ != null {
        left.NodeAt(i);
      }
      if tempr != null {
        right.NodeAt(j);
      }
      if templ == null {
        next, templ', tempr', i', j' := tempr.data, templ, tempr.next, i, j + 1;
      } else if tempr == null {
        next, templ', tempr', i', j' := templ.data, templ.next, tempr, i + 1, j;
      } else if Le(templ.data, tempr.data) {
        next, templ', tempr', i', j' := templ.data, templ.next, tempr, i + 1, j;
      } else {
        next, templ', tempr', i', j' := tempr.data, templ, tempr.next, i, j + 1;
      }
    }

    /** The sort that clients call: the recursive variant. */
    method MergeSort() returns (sorted: LinkedList)
      requires Valid()
      ensures sorted.Valid() && fresh(sorted.Repr)
      ensures sorted.Contents == TopDownSort(Contents)
    {
      sorted := MergeSortRecursive();
    }

    /** Top-down merge sort: a copy below two elements, else sort both halves and merge. */
    method MergeSortRecursive() returns (sorted: LinkedList)
      requires Valid()
      ensures sorted.Valid() && fresh(sorted.Repr)
      ensures sorted.Contents == TopDownSort(Contents)
      decreases |Contents|, 1
    {
      if size < 2 {
        sorted := new LinkedList.Copy(this);
      } else {
        var halves := SplitHalves();
        sorted := SortHalvesAndMerge(halves[0], halves[1]);
        TopDownSortStep(Contents);
      }
    }

    /**
      The recursive step of mergeSortRecursive: both halves are sorted
      recursively and the sorted left half is merged with the sorted right
      half.
     */
    static method SortHalvesAndMerge(left: LinkedList, right: LinkedList) returns (sorted: LinkedList)
      requires left.Valid() && right.Valid()
      requires left.Contents != [] && right.Contents != []
      ensures sorted.Valid() && fresh(sorted.Repr)
      ensures sorted.Contents == Merged(TopDownSort(left.Contents), TopDownSort(right.Contents))
      decreases |left.Contents| + |right.Contents|, 0
    {
      var sortedLeft := left.MergeSortRecursive();
      var sortedRight := right.MergeSortRecursive();
      sorted := sortedLeft.Merge(sortedRight);
    }

    /**
      Bottom-up merge sort: a copy below two elements, else the singleton
      lists of explode are merged through a work queue.
     */
    method MergeSortIterative() returns (sorted: LinkedList)
      requires Valid()
      ensures sorted.Valid() && fresh(sorted.Repr)
      ensures sorted.Contents == BottomUpSort(Contents)
    {
      if size < 2 {
        sorted := new LinkedList.Copy(this);
      } else {
        var workQueue := Explode();
        sorted := MergeQueue(workQueue, Singletons(Contents));
      }
    }

    /**
      The loop of mergeSortIterative: while the queue holds more than one
      list, its two front lists are taken off, merged, and the result is
      queued at the back; the one list left is the result.
     */
    static method MergeQueue(workQueue: seq<LinkedList>, ghost runs: seq<seq<Item>>) returns (sorted: LinkedList)
      requires |workQueue| == |runs| >= 2
      requires forall i :: 0 <= i < |workQueue| ==> workQueue[i].Valid() && workQueue[i].Contents == runs[i]
      ensures sorted.Valid() && fresh(sorted.Repr)
      ensures sorted.Contents == QueueSort(runs)
    {
      var queue := workQueue;
      ghost var rest := runs;
      while |queue| > 1
        invariant |queue| == |rest| >= 1
        invariant forall i :: 0 <= i < |queue| ==> queue[i].Valid() && queue[i].Contents == rest[i]
        invariant |queue| < |workQueue| ==> fresh(queue[|queue| - 1].Repr)
        invariant QueueSort(rest) == QueueSort(runs)
        decreases |queue|
      {
        queue, rest := MergeFrontPair(queue, rest);
      }
      sorted := queue[0];
    }

    /**
      One round of the mergeSortIterative loop: the two front lists are
      popped, merged with the first as the left operand, and the merged list
      is queued at the back.
     */
    static method MergeFrontPair(queue: seq<LinkedList>, ghost rest: seq<seq<Item>>)
      returns (queue': seq<LinkedList>, ghost rest': seq<seq<Item>>)
      requires |queue| == |rest| >= 2
      requires forall i :: 0 <= i < |queue| ==> queue[i].Valid() && queue[i].Contents == rest[i]
      ensures rest' == rest[2..] + [Merged(rest[0], rest[1])]
      ensures |queue'| == |rest'|
      ensures forall i :: 0 <= i < |queue'| ==> queue'[i].Valid() && queue'[i].Contents == rest'[i]
      ensures fresh(queue'[|queue'| - 1].Repr)
    {
      var left := queue[0];
      queue' := queue[1..];
      var right := queue'[0];
      queue' := queue'[1..];
      var merged := left.Merge(right);
      queue' := queue' + [merged];
      rest' := rest[2..] + [Merged(rest[0], rest[1])];
      forall i | 0 <= i < |queue'| - 1
        ensures queue'[i].Valid() && queue'[i].Contents == rest'[i]
      {
        assert queue'[i] == queue[i + 2] && rest'[i] == rest[i + 2];
      }
    }
  }
}
