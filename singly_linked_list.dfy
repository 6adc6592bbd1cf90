/** A NULL-terminated singly linked list of ints, reached through a head
    pointer that the operations update in place. */
module SinglyLinkedList {
  import opened Sequences

  /** A list cell: its value and the link to the next cell (null at the end). */
  class Node {
    var data: int
    var Next: Node?

    /** A fresh, unlinked cell. */
    constructor (value: int)
      ensures data == value && Next == null
    {
      data := value;
      Next := null;
    }
  }

  /** The list handle: `head` is the pointer the operations receive by
      address. `nodes` lists the cells in link order and `Contents` their
      values; `Repr` is the handle and every cell. */
  class List {
    var head: Node?
    ghost var nodes: seq<Node>
    ghost var Contents: seq<int>
    ghost var Repr: set<object>

    /** The link invariant: head is the first cell, every cell links to the
        next one, the last one to null, and no cell occurs twice. */
    ghost predicate Valid()
      reads this, Repr
    {
      this in Repr &&
      (forall i :: 0 <= i < |nodes| ==> nodes[i] in Repr) &&
      |Contents| == |nodes| &&
      (forall i, j :: 0 <= i < j < |nodes| ==> nodes[i] != nodes[j]) &&
      head == (if nodes == [] then null else nodes[0]) &&
      (forall i :: 0 <= i < |nodes| ==> nodes[i].data == Contents[i]) &&
      (forall i {:trigger nodes[i].Next} :: 0 <= i < |nodes| - 1 ==> nodes[i].Next == nodes[i + 1]) &&
      (nodes != [] ==> nodes[|nodes| - 1].Next == null)
    }

    /** An empty list: head is NULL. */
    constructor ()
      ensures Valid() && fresh(Repr) && Contents == []
    {
      head := null;
      nodes, Contents, Repr := [], [], {this};
    }

    /** Prepends a fresh cell. */
    method InsertAtBeginning(value: int)
      requires Valid()
      modifies Repr
      ensures Valid() && fresh(Repr - old(Repr))
      ensures Contents == [value] + old(Contents)
    {
      var n := new Node(value);
      LinkFirst(n);
    }

    /** The two assignments that insertAtBeginning and insertSorted share:
        the cell takes over the old head and becomes the head. */
    method LinkFirst(n: Node)
      requires Valid() && n !in Repr
      modifies this, n
      ensures Valid() && Repr == old(Repr) + {n}
      ensures Contents == [old(n.data)] + old(Contents)
    {
      n.Next := head;
      head := n;
      nodes, Contents, Repr := [n] + nodes, [n.data] + Contents, Repr + {n};
    }

    /** Appends a fresh cell after the last one, walking there from head. */
    method InsertAtEnd(value: int)
      requires Valid()
      modifies Repr
      ensures Valid() && fresh(Repr - old(Repr))
      ensures Contents == old(Contents) + [value]
    {
      var n := new Node(value);
      if head == null {
        head := n;
        nodes, Contents, Repr := [n], [value], Repr + {n};
        return;
      }
      var curr := head;
      ghost var i := 0;
      while curr.Next != null
        invariant 0 <= i < |nodes| && curr == nodes[i]
        decreases |nodes| - i
      {
        curr := curr.Next;
        i := i + 1;
      }
      curr.Next := n;
      nodes, Contents, Repr := nodes + [n], Contents + [value], Repr + {n};
    }

    /** Inserts at a 0-based position: 0 prepends, 1 <= p <= length links
        the cell after the one at p - 1, and p >= length + 2 is reported out
        of range and leaves the list as it was. A negative p skips the walk
        and links the cell after the head, as p == 1 would. The source
        dereferences NULL at p == length + 1, and for a negative p on an
        empty list, so callers must not ask for those. */
    method InsertAtPosition(value: int, position: int)
      requires Valid()
      requires position != |Contents| + 1 && (position < 0 ==> Contents != [])
      modifies Repr
      ensures Valid() && fresh(Repr - old(Repr))
      ensures 0 <= position <= |old(Contents)| ==> Contents == InsertAt(old(Contents), position, value)
      ensures position < 0 ==> Contents == InsertAt(old(Contents), 1, value)
      ensures position > |old(Contents)| ==> Contents == old(Contents)
    {
      if position == 0 {
        InsertAtBeginning(value);
        return;
      }
      var newNode := new Node(value);
      var current := head;
      var i := 0;
      while i < position - 1
        invariant 0 <= i && (i <= position - 1 || i == 0) && i <= |nodes|
        invariant current == if i < |nodes| then nodes[i] else null
      {
        if current == null {
          return;
        }
        current := current.Next;
        i := i + 1;
      }
      LinkAfter(current, i, newNode);
    }

    /** Inserts before the first element that is at least value, so an
        ascending list stays ascending (see InsertAtInsertionPointSorted). */
    method InsertSorted(value: int)
      requires Valid()
      modifies Repr
      ensures Valid() && fresh(Repr - old(Repr))
      ensures Contents == InsertAt(old(Contents), InsertionPoint(old(Contents), value), value)
    {
      var newNode := new Node(value);
      if head == null || head.data >= value {
        assert InsertionPoint(Contents, value) == 0;
        assert InsertAt(Contents, 0, value) == [value] + Contents;
        LinkFirst(newNode);
        return;
      }
      var curr := head;
      ghost var i := 0;
      while curr.Next != null && curr.Next.data < value
        invariant 0 <= i < |nodes| && curr == nodes[i]
        invariant forall j :: 0 <= j <= i ==> Contents[j] < value
        decreases |nodes| - i
      {
        curr := curr.Next;
        i := i + 1;
      }
      assert InsertionPoint(Contents, value) == i + 1 by {
        InsertionPointIsFirst(Contents, value, i + 1);
      }
      LinkAfter(curr, i, newNode);
    }

    /** The two assignments that insertAtPosition and insertSorted share:
        the fresh cell takes over curr's successor and becomes curr's
        successor, so it lands at index i + 1. */
    method LinkAfter(curr: Node, ghost i: nat, newNode: Node)
      requires Valid() && i < |nodes| && curr == nodes[i] && newNode !in Repr
      modifies Repr, newNode
      ensures Valid() && Repr == old(Repr) + {newNode}
      ensures Contents == InsertAt(old(Contents), i + 1, old(newNode.data))
    {
      newNode.Next := curr.Next;
      curr.Next := newNode;
      nodes := InsertAt(nodes, i + 1, newNode);
      Contents := InsertAt(Contents, i + 1, newNode.data);
      Repr := Repr + {newNode};
    }

    /** The bypass that deleteByValue and deleteAtPosition share: curr's
        successor, at index i + 1, is unlinked and its value returned. */
    method UnlinkAfter(curr: Node, ghost i: nat) returns (deleted: int)
      requires Valid() && i + 1 < |nodes| && curr == nodes[i]
      modifies Repr
      ensures Valid() && Repr <= old(Repr)
      ensures deleted == old(Contents)[i + 1] && Contents == RemoveAt(old(Contents), i + 1)
    {
      var temp := curr.Next;
      deleted := temp.data;
      curr.Next := temp.Next;
      nodes, Contents, Repr := RemoveAt(nodes, i + 1), RemoveAt(Contents, i + 1), Repr - {temp};
    }

    /** Unlinks the first cell and returns its value; -1 on an empty list. */
    method DeleteFromBeginning() returns (deleted: int)
      requires Valid()
      modifies Repr
      ensures Valid() && Repr <= old(Repr)
      ensures old(Contents) == [] ==> deleted == -1 && Contents == old(Contents)
      ensures old(Contents) != [] ==> deleted == old(Contents)[0] && Contents == old(Contents)[1..]
    {
      if head == null {
        return -1;
      }
      var temp := head;
      deleted := temp.data;
      head := head.Next;
      nodes, Contents, Repr := nodes[1..], Contents[1..], Repr - {temp};
    }

    /** Unlinks the last cell and returns its value; -1 on an empty list. */
    method DeleteFromEnd() returns (deleted: int)
      requires Valid()
      modifies Repr
      ensures Valid() && Repr <= old(Repr)
      ensures old(Contents) == [] ==> deleted == -1 && Contents == old(Contents)
      ensures old(Contents) != [] ==>
        deleted == old(Contents)[|old(Contents)| - 1] && Contents == old(Contents)[..|old(Contents)| - 1]
    {
      if head == null {
        return -1;
      }
      if head.Next == null {
        deleted := head.data;
        Repr := Repr - {head};
        head := null;
        nodes, Contents := [], [];
        return;
      }
      var curr := head;
      ghost var i := 0;
      while curr.Next.Next != null
        invariant 0 <= i < |nodes| - 1 && curr == nodes[i]
        decreases |nodes| - i
      {
        curr := curr.Next;
        i := i + 1;
      }
      var last := curr.Next;
      deleted := last.data;
      curr.Next := null;
      nodes, Contents, Repr := nodes[..i + 1], Contents[..i + 1], Repr - {last};
    }

    /** Unlinks the first cell holding value and returns value. An empty list
        or a value that does not occur gives -1 and no change (the source
        has no return statement on the not-found path; -1 is what its
        documentation promises). */
    method DeleteByValue(value: int) returns (deleted: int)
      requires Valid()
      modifies Repr
      ensures Valid() && Repr <= old(Repr)
      ensures value in old(Contents) ==> deleted == value && Contents == RemoveFirst(old(Contents), value)
      ensures value !in old(Contents) ==> deleted == -1 && Contents == old(Contents)
    {
      if head == null {
        return -1;
      }
      if head.data == value {
        deleted := DeleteFromBeginning();
        return;
      }
      var curr := head;
      ghost var i := 0;
      while curr.Next != null
        invariant 0 <= i < |nodes| && curr == nodes[i]
        invariant value !in Contents[..i + 1]
        invariant Valid() && nodes == old(nodes) && Contents == old(Contents) && Repr == old(Repr)
        decreases |nodes| - i
      {
        if curr.Next.data == value {
          assert IndexOf(Contents, value) == i + 1 by {
            assert Contents[..i + 2] == Contents[..i + 1] + [value];
          }
          deleted := UnlinkAfter(curr, i);
          return;
        }
        assert Contents[..i + 2] == Contents[..i + 1] + [Contents[i + 1]];
        curr := curr.Next;
        i := i + 1;
      }
      assert Contents[..i + 1] == Contents;
      deleted := -1;
    }

    /** Unlinks the cell at a 0-based position and returns its value; -1 and
        no change when the list is empty or the position is past the end.
        A negative position skips the walk and unlinks the second cell, as
        position 1 would. */
    method DeleteAtPosition(position: int) returns (deleted: int)
      requires Valid()
      modifies Repr
      ensures Valid() && Repr <= old(Repr)
      ensures 0 <= position < |old(Contents)| ==> deleted == old(Contents)[position] && Contents == RemoveAt(old(Contents), position)
      ensures position >= |old(Contents)| ==> deleted == -1 && Contents == old(Contents)
      ensures position < 0 && |old(Contents)| >= 2 ==> deleted == old(Contents)[1] && Contents == RemoveAt(old(Contents), 1)
      ensures position < 0 && |old(Contents)| < 2 ==> deleted == -1 && Contents == old(Contents)
    {
      if head == null {
        return -1;
      }
      if position == 0 {
        var temp := head;
        deleted := temp.data;
        head := head.Next;
        nodes, Contents, Repr := nodes[1..], Contents[1..], Repr - {temp};
        return;
      }
      var curr := head;
      var i := 0;
      while i < position - 1
        invariant 0 <= i && (i <= position - 1 || i == 0) && i < |nodes| && curr == nodes[i]
      {
        if curr.Next == null {
          return -1;
        }
        curr := curr.Next;
        i := i + 1;
      }
      if curr.Next == null {
        return -1;
      }
      deleted := UnlinkAfter(curr, i);
    }

    /** The 0-based index of the first cell holding value, or -1. */
    method Search(value: int) returns (index: int)
      requires Valid()
      ensures index == IndexOf(Contents, value)
    {
      var curr := head;
      var counter := -1;
      while curr != null
        invariant -1 <= counter < |nodes|
        invariant curr == if counter + 1 < |nodes| then nodes[counter + 1] else null
        invariant value !in Contents[..counter + 1]
        decreases |nodes| - counter
      {
        counter := counter + 1;
        if curr.data == value {
          return counter;
        }
        assert Contents[..counter + 1] == Contents[..counter] + [Contents[counter]];
        curr := curr.Next;
      }
      assert Contents[..counter + 1] == Contents;
      return -1;
    }

    /** The number of cells. */
    method GetLength() returns (len: int)
      requires Valid()
      ensures len == |Contents|
    {
      var curr := head;
      len := 0;
      while curr != null
        invariant 0 <= len <= |nodes|
        invariant curr == if len < |nodes| then nodes[len] else null
        decreases |nodes| - len
      {
        len := len + 1;
        curr := curr.Next;
      }
    }

    /** The value at a 0-based position, or -1 when the list is empty or the
        position is past the end. A negative position skips the walk and
        gives the head's value. */
    method GetElementAt(position: int) returns (value: int)
      requires Valid()
      ensures 0 <= position ==> value == if position < |Contents| then Contents[position] else -1
      ensures position < 0 ==> value == if Contents != [] then Contents[0] else -1
    {
      if head == null {
        return -1;
      }
      var curr := head;
      var i := 0;
      while i < position
        invariant 0 <= i && (i <= position || i == 0) && i <= |nodes|
        invariant curr == if i < |nodes| then nodes[i] else null
      {
        if curr == null {
          return -1;
        }
        curr := curr.Next;
        i := i + 1;
      }
      if curr == null {
        return -1;
      }
      return curr.data;
    }

    /** The middle value by the slow/fast walk: index length / 2, the second
        of the two middles for an even length; -1 on an empty list. */
    method GetMiddle() returns (value: int)
      requires Valid()
      ensures value == if Contents == [] then -1 else Contents[|Contents| / 2]
    {
      if head == null {
        return -1;
      }
      var slow := head;
      var fast := head;
      ghost var k := 0;
      while fast != null && fast.Next != null
        invariant 0 <= 2 * k <= |nodes| && k < |nodes|
        invariant slow == nodes[k]
        invariant fast == if 2 * k < |nodes| then nodes[2 * k] else null
        decreases |nodes| - k
      {
        slow := slow.Next;
        fast := fast.Next.Next;
        k := k + 1;
      }
      if slow == null {
        return -1;
      }
      return slow.data;
    }

    /** Turns every link around so that the list reads back to front. */
    method ReverseList()
      requires Valid()
      modifies Repr
      ensures Valid() && Repr == old(Repr)
      ensures Contents == Reverse(old(Contents))
    {
      var prev: Node? := null;
      var curr := head;
      var next: Node? := null;
      ghost var i := 0;
      while curr != null
        modifies set j | 0 <= j < |nodes| :: nodes[j]
        invariant 0 <= i <= |nodes|
        invariant curr == if i < |nodes| then nodes[i] else null
        invariant prev == if i > 0 then nodes[i - 1] else null
        invariant forall j {:trigger nodes[j].Next} :: 0 <= j < i ==> nodes[j].Next == if j > 0 then nodes[j - 1] else null
        invariant forall j {:trigger nodes[j].Next} :: i <= j < |nodes| ==> nodes[j].Next == if j + 1 < |nodes| then nodes[j + 1] else null
        invariant forall j :: 0 <= j < |nodes| ==> nodes[j].data == Contents[j]
        decreases |nodes| - i
      {
        next := curr.Next;
        curr.Next := prev;
        prev := curr;
        curr := next;
        i := i + 1;
      }
      head := prev;
      nodes, Contents := Reverse(nodes), Reverse(Contents);
    }
  }

  /** The first index whose element is at least v, where every earlier one
      is smaller, is the insertion point. */
  lemma InsertionPointIsFirst(s: seq<int>, v: int, k: nat)
    requires k <= |s|
    requires forall j :: 0 <= j < k ==> s[j] < v
    requires k < |s| ==> v <= s[k]
    ensures InsertionPoint(s, v) == k
  {
  }
}
