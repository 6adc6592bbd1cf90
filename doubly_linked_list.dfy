/** A NULL-terminated doubly linked list of ints: every cell links forward
    through `next` and back through `prev`, the head's `prev` and the last
    cell's `next` are null, and the operations update the head in place. */
module DoublyLinkedList {
  import opened Sequences

  /** A list cell with both links. */
  class DNode {
    var data: int
    var prev: DNode?
    var next: DNode?

    /** A fresh cell with both links null. */
    constructor (val: int)
      ensures data == val && prev == null && next == null
    {
      next := null;
      prev := null;
      data := val;
    }
  }

  /** The list handle: `head` is the pointer the operations receive by
      address. `nodes` lists the cells in forward order and `Contents` their
      values; `Repr` is the handle and every cell. */
  class DList {
    var head: DNode?
    ghost var nodes: seq<DNode>
    ghost var Contents: seq<int>
    ghost var Repr: set<object>

    /** The link invariant: head is the first cell with a null `prev`, each
        cell's `next` is the following cell and that cell's `prev` leads
        back to it, the last cell's `next` is null, no cell occurs twice. */
    ghost predicate Valid()
      reads this, Repr
    {
      this in Repr &&
      (forall i :: 0 <= i < |nodes| ==> nodes[i] in Repr) &&
      |Contents| == |nodes| &&
      (forall i, j :: 0 <= i < j < |nodes| ==> nodes[i] != nodes[j]) &&
      head == (if nodes == [] then null else nodes[0]) &&
      (forall i :: 0 <= i < |nodes| ==> nodes[i].data == Contents[i]) &&
      (forall i {:trigger nodes[i].next} :: 0 <= i < |nodes| - 1 ==> nodes[i].next == nodes[i + 1]) &&
      (forall i {:trigger nodes[i].prev} :: 0 < i < |nodes| ==> nodes[i].prev == nodes[i - 1]) &&
      (nodes != [] ==> nodes[0].prev == null && nodes[|nodes| - 1].next == null)
    }

    /** The last cell, or null for an empty list: what a caller keeps as
        the tail pointer. */
    ghost function Tail(): DNode?
      reads this
    {
      if nodes == [] then null else nodes[|nodes| - 1]
    }

    /** An empty list: head is NULL. */
    constructor ()
      ensures Valid() && fresh(Repr) && Contents == []
    {
      head := null;
      nodes, Contents, Repr := [], [], {this};
    }

    /** Prepends a fresh cell; the old head's `prev` now points at it. */
    method InsertAtBeginning(value: int)
      requires Valid()
      modifies Repr
      ensures Valid() && fresh(Repr - old(Repr))
      ensures Contents == [value] + old(Contents)
    {
      var newNode := new DNode(value);
      newNode.next := head;
      if head != null {
        head.prev := newNode;
      }
      head := newNode;
      nodes, Contents, Repr := [newNode] + nodes, [value] + Contents, Repr + {newNode};
    }

    /** Appends a fresh cell after the last one, walking there from head. */
    method InsertAtEnd(value: int)
      requires Valid()
      modifies Repr
      ensures Valid() && fresh(Repr - old(Repr))
      ensures Contents == old(Contents) + [value]
    {
      var newNode := new DNode(value);
      if head == null {
        head := newNode;
        nodes, Contents, Repr := [newNode], [value], Repr + {newNode};
        return;
      }
      var temp := head;
      ghost var i := 0;
      while temp.next != null
        invariant 0 <= i < |nodes| && temp == nodes[i]
        decreases |nodes| - i
      {
        temp := temp.next;
        i := i + 1;
      }
      temp.next := newNode;
      newNode.prev := temp;
      nodes, Contents, Repr := nodes + [newNode], Contents + [value], Repr + {newNode};
    }

    /** Unlinks the first cell and returns its value, clearing the new
        head's `prev`; -1 and no change on an empty list. */
    method DeleteFromBeginning() returns (deleted: int)
      requires Valid()
      modifies Repr
      ensures Valid() && Repr <= old(Repr)
      ensures old(Contents) == [] ==> deleted == -1 && Contents == old(Contents)
      ensures old(Contents) != [] ==> deleted == old(Contents)[0] && Contents == old(Contents)[1..]
    {
      if head == null {
        return -1;
      }
      var temp := head;
      deleted := temp.data;
      head := head.next;
      if head != null {
        head.prev := null;
      }
      nodes, Contents, Repr := nodes[1..], Contents[1..], Repr - {temp};
    }

    /** Unlinks the last cell, reached through the caller's tail pointer,
        and returns its value with the new tail; the head becomes null when
        the list empties. -1 and no change on an empty list. */
    method DeleteFromEnd(tail: DNode?) returns (deleted: int, newTail: DNode?)
      requires Valid() && tail == Tail()
      modifies Repr
      ensures Valid() && Repr <= old(Repr) && newTail == Tail()
      ensures old(Contents) == [] ==> deleted == -1 && Contents == old(Contents)
      ensures old(Contents) != [] ==>
        deleted == old(Contents)[|old(Contents)| - 1] && Contents == old(Contents)[..|old(Contents)| - 1]
    {
      if tail == null {
        return -1, null;
      }
      var temp := tail;
      newTail := tail.prev;
      if newTail != null {
        newTail.next := null;
      } else {
        head := null;
      }
      deleted := temp.data;
      nodes, Contents, Repr := nodes[..|nodes| - 1], Contents[..|Contents| - 1], Repr - {temp};
    }

    /** Unlinks the first cell holding value and returns value, bypassing it
        in both directions (moving head when it is the first cell); -1 and
        no change when the list is empty or value does not occur. */
    method DeleteByValue(value: int) returns (deleted: int)
      requires Valid()
      modifies Repr
      ensures Valid() && Repr <= old(Repr)
      ensures value in old(Contents) ==> deleted == value && Contents == RemoveFirst(old(Contents), value)
      ensures value !in old(Contents) ==> deleted == -1 && Contents == old(Contents)
    {
      if head == null {
        return -1;
      }
      var curr := head;
      ghost var i := 0;
      while curr != null && curr.data != value
        invariant 0 <= i <= |nodes|
        invariant curr == if i < |nodes| then nodes[i] else null
        invariant value !in Contents[..i]
        decreases |nodes| - i
      {
        assert Contents[..i + 1] == Contents[..i] + [Contents[i]];
        curr := curr.next;
        i := i + 1;
      }
      if curr == null {
        assert Contents[..i] == Contents;
        return -1;
      }
      assert IndexOf(Contents, value) == i by {
        assert Contents[..i + 1] == Contents[..i] + [value];
      }
      deleted := curr.data;
      Unlink(curr, i);
    }

    /** The bypass of deleteByValueD: the cell at index i drops out of both
        directions of the chain. */
    method Unlink(curr: DNode, ghost i: nat)
      requires Valid() && i < |nodes| && curr == nodes[i]
      modifies Repr
      ensures Valid() && Repr == old(Repr) - {curr}
      ensures Contents == RemoveAt(old(Contents), i)
    {
      if curr.prev != null {
        curr.prev.next := curr.next;
      } else {
        head := curr.next;
      }
      if curr.next != null {
        curr.next.prev := curr.prev;
      }
      nodes, Contents, Repr := RemoveAt(nodes, i), RemoveAt(Contents, i), Repr - {curr};
    }

    /** Inserts at a 0-based position: 0 prepends, 1 <= p <= length links
        the cell after the one at p - 1, and p > length is reported out of
        range and leaves the list as it was. */
    method InsertAtPosition(value: int, position: int)
      requires Valid()
      requires 0 <= position
      modifies Repr
      ensures Valid() && fresh(Repr - old(Repr))
      ensures position <= |old(Contents)| ==> Contents == InsertAt(old(Contents), position, value)
      ensures position > |old(Contents)| ==> Contents == old(Contents)
    {
      if position == 0 {
        InsertAtBeginning(value);
      } else {
        var newNode := new DNode(value);
        var curr := head;
        var i := 0;
        while i < position - 1 && curr != null
          invariant 0 <= i <= position - 1 && i <= |nodes|
          invariant curr == if i < |nodes| then nodes[i] else null
        {
          curr := curr.next;
          i := i + 1;
        }
        if curr != null {
          newNode.next := curr.next;
          newNode.prev := curr;
          LinkAfter(curr, i, newNode);
        }
      }
    }

    /** The splice of insertAtPositionD: newNode, already pointing back at
        the cell at index i and forward at its successor, is linked in by
        that successor's `prev` and the cell's `next`, so it lands at index
        i + 1. */
    method LinkAfter(curr: DNode, ghost i: nat, newNode: DNode)
      requires Valid() && i < |nodes| && curr == nodes[i] && newNode !in Repr
      requires newNode.prev == curr && newNode.next == curr.next
      modifies Repr
      ensures Valid() && Repr == old(Repr) + {newNode}
      ensures Contents == InsertAt(old(Contents), i + 1, newNode.data)
    {
      if curr.next != null {
        curr.next.prev := newNode;
      }
      curr.next := newNode;
      nodes, Contents, Repr := InsertAt(nodes, i + 1, newNode), InsertAt(Contents, i + 1, newNode.data), Repr + {newNode};
    }

    /** Swaps `prev` and `next` in every cell, then makes the old last cell
        the head, so that the list reads back to front with both link
        directions intact. */
    method Reverse()
      requires Valid()
      modifies Repr
      ensures Valid() && Repr == old(Repr)
      ensures Contents == Sequences.Reverse(old(Contents))
      ensures |old(Contents)| <= 1 ==> head == old(head)
    {
      if head == null {
        return;
      }
      var curr := head;
      var temp: DNode? := null;
      ghost var i := 0;
      while curr != null
        modifies set j | 0 <= j < |nodes| :: nodes[j]
        invariant 0 <= i <= |nodes|
        invariant curr == if i < |nodes| then nodes[i] else null
        invariant temp == if i >= 2 then nodes[i - 2] else null
        invariant forall j {:trigger nodes[j].next} :: 0 <= j < i ==> nodes[j].next == if j > 0 then nodes[j - 1] else null
        invariant forall j {:trigger nodes[j].prev} :: 0 <= j < i ==> nodes[j].prev == if j + 1 < |nodes| then nodes[j + 1] else null
        invariant forall j {:trigger nodes[j].next} :: i <= j < |nodes| ==> nodes[j].next == if j + 1 < |nodes| then nodes[j + 1] else null
        invariant forall j {:trigger nodes[j].prev} :: i <= j < |nodes| ==> nodes[j].prev == if j > 0 then nodes[j - 1] else null
        invariant forall j :: 0 <= j < |nodes| ==> nodes[j].data == Contents[j]
        decreases |nodes| - i
      {
        temp := curr.prev;
        curr.prev := curr.next;
        curr.next := temp;
        curr := curr.prev;
        i := i + 1;
      }
      if temp != null {
        head := temp.prev;
      }
      nodes, Contents := Sequences.Reverse(nodes), Sequences.Reverse(Contents);
    }

    /** The number of cells. */
    method GetLength() returns (count: int)
      requires Valid()
      ensures count == |Contents|
    {
      count := 0;
      var curr := head;
      while curr != null
        invariant 0 <= count <= |nodes|
        invariant curr == if count < |nodes| then nodes[count] else null
        decreases |nodes| - count
      {
        count := count + 1;
        curr := curr.next;
      }
    }

    /** The walk the demo driver uses to find the tail pointer: follows
        `next` from head to the last cell. */
    method FindTail() returns (tail: DNode?)
      requires Valid()
      ensures tail == Tail()
    {
      tail := head;
      ghost var i := 0;
      while tail != null && tail.next != null
        invariant 0 <= i <= |nodes|
        invariant tail == if i < |nodes| then nodes[i] else null
        invariant head == null || i < |nodes|
        decreases |nodes| - i
      {
        tail := tail.next;
        i := i + 1;
      }
    }
  }
}
