/** A singly linked circular list of ints kept in one global head: the last
    cell links back to the head instead of to null, and an empty list is a
    null head. */
module SinglyCircularLinkedList {
  import opened Sequences

  /** A list cell: its value and the link to the next cell on the cycle. */
  class CNode {
    var data: int
    var next: CNode?

    /** A fresh cell holding value and linking to next. */
    constructor (value: int, next: CNode?)
      ensures data == value && this.next == next
    {
      data := value;
      this.next := next;
    }
  }

  /** The list, standing for the global `head` pointer of the source.
      `nodes` lists the cells from head round to the last one and
      `Contents` their values; `Repr` is the handle and every cell. */
  class CList {
    var head: CNode?
    ghost var nodes: seq<CNode>
    ghost var Contents: seq<int>
    ghost var Repr: set<object>

    /** The cycle invariant: head is null exactly when the list is empty,
        otherwise it is the first cell; every cell links to the next one
        and the last one links back to head; no cell occurs twice. */
    ghost predicate Valid()
      reads this, Repr
    {
      this in Repr &&
      (forall i :: 0 <= i < |nodes| ==> nodes[i] in Repr) &&
      |Contents| == |nodes| &&
      (forall i, j :: 0 <= i < j < |nodes| ==> nodes[i] != nodes[j]) &&
      head == (if nodes == [] then null else nodes[0]) &&
      (forall i :: 0 <= i < |nodes| ==> nodes[i].data == Contents[i]) &&
      (forall i {:trigger nodes[i].next} :: 0 <= i < |nodes| - 1 ==> nodes[i].next == nodes[i + 1]) &&
      (nodes != [] ==> nodes[|nodes| - 1].next == nodes[0])
    }

    /** An empty list: head is NULL. */
    constructor ()
      ensures Valid() && fresh(Repr) && Contents == []
    {
      head := null;
      nodes, Contents, Repr := [], [], {this};
    }

    /** A fresh cell whose `next` is already the current head, which is
        what lets insertAtEnd close the cycle without touching it. */
    method CreateNode(value: int) returns (newNode: CNode)
      ensures fresh(newNode) && newNode.data == value && newNode.next == head
    {
      newNode := new CNode(value, head);
    }

    /** The do-while walk from head to the last cell, the one whose `next`
        is head. */
    method FindTail() returns (curr: CNode, ghost i: nat)
      requires Valid() && head != null
      ensures i == |nodes| - 1 && curr == nodes[i]
    {
      curr := head;
      i := 0;
      curr := curr.next;
      i := if |nodes| == 1 then 0 else 1;
      while curr.next != head
        invariant i < |nodes| && curr == nodes[i]
        decreases |nodes| - i
      {
        curr := curr.next;
        i := i + 1;
      }
    }

    /** Makes a fresh cell the head and relinks the last cell to it; on an
        empty list the cell links to itself. Returns the new cell. */
    method InsertAtBeginning(value: int) returns (node: CNode)
      requires Valid()
      modifies Repr
      ensures Valid() && fresh(Repr - old(Repr))
      ensures Contents == [value] + old(Contents) && head == node
    {
      node := CreateNode(value);
      if head == null {
        head := node;
        node.next := head;
        nodes, Contents, Repr := [node], [value], Repr + {node};
        return;
      }
      var curr;
      ghost var i;
      curr, i := FindTail();
      node.next := head;
      curr.next := node;
      head := node;
      nodes, Contents, Repr := [node] + nodes, [value] + Contents, Repr + {node};
    }

    /** Links a fresh cell after the last one; its `next` already points at
        head, so the head stays where it was. Returns the new cell. */
    method InsertAtEnd(value: int) returns (node: CNode)
      requires Valid()
      modifies Repr
      ensures Valid() && fresh(Repr - old(Repr))
      ensures Contents == old(Contents) + [value]
      ensures old(head) != null ==> head == old(head)
      ensures fresh(node) && node == nodes[|nodes| - 1]
    {
      node := CreateNode(value);
      if head == null {
        head := node;
        node.next := head;
        nodes, Contents, Repr := [node], [value], Repr + {node};
        return;
      }
      var curr;
      ghost var i;
      curr, i := FindTail();
      curr.next := node;
      nodes, Contents, Repr := nodes + [node], Contents + [value], Repr + {node};
    }

    /** Unlinks the head and returns its value, relinking the last cell to
        the new head; a single cell leaves an empty list; -1 and no change
        on an empty list. */
    method DeleteFromBeginning() returns (deleted: int)
      requires Valid()
      modifies Repr
      ensures Valid() && Repr <= old(Repr)
      ensures old(Contents) == [] ==> deleted == -1 && Contents == old(Contents)
      ensures old(Contents) != [] ==> deleted == old(Contents)[0] && Contents == old(Contents)[1..]
    {
      if head == null {
        return -1;
      }
      if head.next == head {
        var temp := head;
        head := null;
        deleted := temp.data;
        nodes, Contents, Repr := [], [], Repr - {temp};
        return;
      }
      var temp := head;
      var curr;
      ghost var i;
      curr, i := FindTail();
      head := head.next;
      curr.next := head;
      deleted := temp.data;
      nodes, Contents, Repr := nodes[1..], Contents[1..], Repr - {temp};
    }

    /** Unlinks the last cell and returns its value, relinking the one
        before it to head; a single cell leaves an empty list; -1 and no
        change on an empty list. */
    method DeleteFromEnd() returns (deleted: int)
      requires Valid()
      modifies Repr
      ensures Valid() && Repr <= old(Repr)
      ensures old(Contents) == [] ==> deleted == -1 && Contents == old(Contents)
      ensures old(Contents) != [] ==>
        deleted == old(Contents)[|old(Contents)| - 1] && Contents == old(Contents)[..|old(Contents)| - 1]
    {
      if head == null {
        return -1;
      }
      if head.next == head {
        var temp := head;
        head := null;
        deleted := temp.data;
        nodes, Contents, Repr := [], [], Repr - {temp};
        return;
      }
      var curr := head;
      ghost var i := 0;
      while curr.next.next != head
        invariant i < |nodes| - 1 && curr == nodes[i]
        decreases |nodes| - i
      {
        curr := curr.next;
        i := i + 1;
      }
      var temp := curr.next;
      deleted := temp.data;
      curr.next := head;
      nodes, Contents, Repr := nodes[..i + 1], Contents[..i + 1], Repr - {temp};
    }

    /** The number of cells, counted once round the cycle; 0 when empty. */
    method GetLength() returns (count: int)
      requires Valid()
      ensures count == |Contents|
    {
      count := 0;
      if head == null {
        return;
      }
      var curr := head;
      count := count + 1;
      curr := curr.next;
      while curr != head
        invariant 1 <= count <= |nodes| && curr == if count < |nodes| then nodes[count] else head
        decreases |nodes| - count
      {
        count := count + 1;
        curr := curr.next;
      }
    }
  }

  /** The demo driver's scenario: 10, 20, 30, 40 appended and 5 prepended
      give five cells; deleting from the front gives 5, from the end 40,
      and three cells remain. */
  method DemoScenario() returns (lengthBefore: int, first: int, last: int, lengthAfter: int)
    ensures lengthBefore == 5 && first == 5 && last == 40 && lengthAfter == 3
  {
    var list := new CList();
    var node := list.InsertAtEnd(10);
    node := list.InsertAtEnd(20);
    node := list.InsertAtEnd(30);
    node := list.InsertAtEnd(40);
    node := list.InsertAtBeginning(5);
    lengthBefore := list.GetLength();
    first := list.DeleteFromBeginning();
    last := list.DeleteFromEnd();
    lengthAfter := list.GetLength();
  }
}
