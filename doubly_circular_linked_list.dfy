/** A doubly linked circular list of ints kept in one global head: `next`
    runs round the cycle from head, `prev` runs round it the other way, so
    head's `prev` is the last cell; an empty list is a null head. */
module DoublyCircularLinkedList {
  import opened Sequences

  /** A list cell with both links. */
  class DCNode {
    var data: int
    var next: DCNode?
    var prev: DCNode?

    /** A fresh cell with both links null. */
    constructor (value: int)
      ensures data == value && next == null && prev == null
    {
      data := value;
      next := null;
      prev := null;
    }
  }

  /** The list, standing for the global `head` pointer of the source.
      `nodes` lists the cells from head round to the last one and
      `Contents` their values; `Repr` is the handle and every cell. */
  class DCList {
    var head: DCNode?
    ghost var nodes: seq<DCNode>
    ghost var Contents: seq<int>
    ghost var Repr: set<object>

    /** The cycle invariant: head is null exactly when the list is empty,
        otherwise it is the first cell; each cell's `next` is the following
        cell and that cell's `prev` leads back, the last cell's `next` is
        head and head's `prev` is the last cell; no cell occurs twice. */
    ghost predicate Valid()
      reads this, Repr
    {
      this in Repr &&
      (forall i :: 0 <= i < |nodes| ==> nodes[i] in Repr) &&
      |Contents| == |nodes| &&
      (forall i, j :: 0 <= i < j < |nodes| ==> nodes[i] != nodes[j]) &&
      head == (if nodes == [] then null else nodes[0]) &&
      (forall i :: 0 <= i < |nodes| ==> nodes[i].data == Contents[i]) &&
      (forall i {:trigger nodes[i].next} :: 0 <= i < |nodes| - 1 ==> nodes[i].next == nodes[i + 1]) &&
      (forall i {:trigger nodes[i].prev} :: 0 < i < |nodes| ==> nodes[i].prev == nodes[i - 1]) &&
      (nodes != [] ==> nodes[|nodes| - 1].next == nodes[0] && nodes[0].prev == nodes[|nodes| - 1])
    }

    /** An empty list: head is NULL. */
    constructor ()
      ensures Valid() && fresh(Repr) && Contents == []
    {
      head := null;
      nodes, Contents, Repr := [], [], {this};
    }

    /** Makes a fresh cell the head, between the last cell and the old
        head; on an empty list the cell links to itself both ways. Returns
        the new cell. */
    method InsertAtBeginning(value: int) returns (node: DCNode)
      requires Valid()
      modifies Repr
      ensures Valid() && fresh(Repr - old(Repr))
      ensures Contents == [value] + old(Contents) && head == node
    {
      node := new DCNode(value);
      if head == null {
        node.next := node;
        node.prev := node;
        head := node;
        nodes, Contents, Repr := [node], [value], Repr + {node};
        return;
      }
      var tail := head.prev;
      node.next := head;
      head.prev := node;
      node.prev := tail;
      tail.next := node;
      head := node;
      nodes, Contents, Repr := [node] + nodes, [value] + Contents, Repr + {node};
    }

    /** Links a fresh cell between the last cell and head, leaving head
        where it was; on an empty list the cell links to itself both ways.
        Returns the new cell. */
    method InsertAtEnd(value: int) returns (node: DCNode)
      requires Valid()
      modifies Repr
      ensures Valid() && fresh(Repr - old(Repr))
      ensures Contents == old(Contents) + [value]
      ensures old(head) != null ==> head == old(head)
      ensures fresh(node) && node == nodes[|nodes| - 1]
    {
      node := new DCNode(value);
      if head == null {
        node.next := node;
        node.prev := node;
        head := node;
        nodes, Contents, Repr := [node], [value], Repr + {node};
        return;
      }
      var tail := head.prev;
      node.prev := tail;
      node.next := head;
      tail.next := node;
      head.prev := node;
      nodes, Contents, Repr := nodes + [node], Contents + [value], Repr + {node};
    }

    /** Unlinks the head and returns its value, joining the last cell and
        the new head; a single cell leaves an empty list; -1 and no change
        on an empty list. */
    method DeleteFromBeginning() returns (deleted: int)
      requires Valid()
      modifies Repr
      ensures Valid() && Repr <= old(Repr)
      ensures old(Contents) == [] ==> deleted == -1 && Contents == old(Contents)
      ensures old(Contents) != [] ==> deleted == old(Contents)[0] && Contents == old(Contents)[1..]
    {
      if head == null {
        return -1;
      }
      if head.next == head {
        var temp := head;
        deleted := temp.data;
        head := null;
        nodes, Contents, Repr := [], [], Repr - {temp};
        return;
      }
      var temp := head;
      var tail := head.prev;
      head := head.next;
      head.prev := tail;
      tail.next := head;
      deleted := temp.data;
      nodes, Contents, Repr := nodes[1..], Contents[1..], Repr - {temp};
    }

    /** Unlinks the last cell (head's `prev`) and returns its value, joining
        the cell before it and head; a single cell leaves an empty list; -1
        and no change on an empty list. */
    method DeleteFromEnd() returns (deleted: int)
      requires Valid()
      modifies Repr
      ensures Valid() && Repr <= old(Repr)
      ensures old(Contents) == [] ==> deleted == -1 && Contents == old(Contents)
      ensures old(Contents) != [] ==>
        deleted == old(Contents)[|old(Contents)| - 1] && Contents == old(Contents)[..|old(Contents)| - 1]
    {
      if head == null {
        return -1;
      }
      if head.next == head {
        var temp := head;
        deleted := temp.data;
        head := null;
        nodes, Contents, Repr := [], [], Repr - {temp};
        return;
      }
      var tail := head.prev;
      var temp := tail;
      tail := tail.prev;
      tail.next := head;
      head.prev := tail;
      deleted := temp.data;
      nodes, Contents, Repr := nodes[..|nodes| - 1], Contents[..|Contents| - 1], Repr - {temp};
    }

    /** The values met by printForward's do-while walk along `next` from
        head until it comes back to head. */
    method ForwardOrder() returns (order: seq<int>)
      requires Valid()
      ensures order == Contents
    {
      if head == null {
        return [];
      }
      var curr := head;
      order := [curr.data];
      curr := curr.next;
      while curr != head
        invariant 1 <= |order| <= |nodes| && order == Contents[..|order|]
        invariant curr == if |order| < |nodes| then nodes[|order|] else head
        decreases |nodes| - |order|
      {
        order := order + [curr.data];
        curr := curr.next;
      }
    }

    /** The values met by printBackward's do-while walk along `prev` from
        the last cell (head's `prev`) until it comes back to it. */
    method BackwardOrder() returns (order: seq<int>)
      requires Valid()
      ensures order == Reverse(Contents)
    {
      if head == null {
        return [];
      }
      var curr := head.prev;
      ghost var n := |nodes|;
      order := [curr.data];
      curr := curr.prev;
      while curr != head.prev
        invariant 1 <= |order| <= n
        invariant forall k :: 0 <= k < |order| ==> order[k] == Contents[n - 1 - k]
        invariant curr == if |order| < n then nodes[n - 1 - |order|] else nodes[n - 1]
        decreases n - |order|
      {
        order := order + [curr.data];
        curr := curr.prev;
      }
    }
  }

  /** Walking backward from the last cell meets exactly the values of the
      forward walk, in reverse. */
  method TraversalsAgree(list: DCList) returns (forward: seq<int>, backward: seq<int>)
    requires list.Valid()
    ensures backward == Reverse(forward) && forward == Reverse(backward)
  {
    forward := list.ForwardOrder();
    backward := list.BackwardOrder();
    ReverseReverse(forward);
  }

  /** The demo driver's first step: 10, 20, 30 appended to an empty list
      read 10 20 30 forward and 30 20 10 backward. */
  method DemoAppend() returns (forward: seq<int>, backward: seq<int>)
    ensures forward == [10, 20, 30] && backward == [30, 20, 10]
  {
    var list := new DCList();
    var node := list.InsertAtEnd(10);
    node := list.InsertAtEnd(20);
    node := list.InsertAtEnd(30);
    forward := list.ForwardOrder();
    backward := list.BackwardOrder();
    assert |backward| == 3 && backward[0] == 30 && backward[1] == 20 && backward[2] == 10;
  }

  /** The demo driver's middle steps: with 5 and then 1 prepended to
      10 20 30, deleting from the front gives 1 and from the end 30,
      leaving 5 10 20, read 20 10 5 backward. */
  method DemoDeleteBothEnds() returns (first: int, last: int, forward: seq<int>, backward: seq<int>)
    ensures first == 1 && last == 30
    ensures forward == [5, 10, 20] && backward == [20, 10, 5]
  {
    var list := new DCList();
    var node := list.InsertAtEnd(10);
    node := list.InsertAtEnd(20);
    node := list.InsertAtEnd(30);
    node := list.InsertAtBeginning(5);
    node := list.InsertAtBeginning(1);
    assert list.Contents == [1, 5, 10, 20, 30];
    first := list.DeleteFromBeginning();
    last := list.DeleteFromEnd();
    forward := list.ForwardOrder();
    backward := list.BackwardOrder();
    assert |backward| == 3 && backward[0] == 20 && backward[1] == 10 && backward[2] == 5;
  }

  /** The demo driver's last steps: deleting the three cells of 5 10 20
      from alternating ends empties the list, and one more deletion from
      the front gives -1. */
  method DemoDrain() returns (single: seq<int>, fromEmpty: int)
    ensures single == [10] && fromEmpty == -1
  {
    var list := new DCList();
    var node := list.InsertAtEnd(5);
    node := list.InsertAtEnd(10);
    node := list.InsertAtEnd(20);
    var d := list.DeleteFromBeginning();
    d := list.DeleteFromEnd();
    single := list.ForwardOrder();
    d := list.DeleteFromBeginning();
    fromEmpty := list.DeleteFromBeginning();
  }
}
