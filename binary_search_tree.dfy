/** A plain binary search tree of ints: duplicates go to the left, so every
    key in a left subtree is at most its node's key and every key in a
    right subtree is greater. Trees are values here; the source rebuilds
    each child pointer from the recursive call's result, which is what the
    functions below return. */
module BinarySearchTree {
  import opened Sequences

  datatype Tree = Nil | Node(data: int, left: Tree, right: Tree)

  /** The keys of a tree, with their multiplicities. */
  function Elems(t: Tree): multiset<int>
  {
    match t
    case Nil => multiset{}
    case Node(d, l, r) => Elems(l) + multiset{d} + Elems(r)
  }

  /** Every key of t is at most b. */
  ghost predicate AllAtMost(t: Tree, b: int)
  {
    match t
    case Nil => true
    case Node(d, l, r) => d <= b && AllAtMost(l, b) && AllAtMost(r, b)
  }

  /** Every key of t is at least b. */
  ghost predicate AllAtLeast(t: Tree, b: int)
  {
    match t
    case Nil => true
    case Node(d, l, r) => b <= d && AllAtLeast(l, b) && AllAtLeast(r, b)
  }

  /** Every key of t is greater than b. */
  ghost predicate AllAbove(t: Tree, b: int)
  {
    match t
    case Nil => true
    case Node(d, l, r) => b < d && AllAbove(l, b) && AllAbove(r, b)
  }

  /** The bounds hold of every key the tree holds. */
  lemma {:induction false} BoundsHoldOfEveryKey(t: Tree, b: int)
    ensures AllAtMost(t, b) ==> forall x | x in Elems(t) :: x <= b
    ensures AllAtLeast(t, b) ==> forall x | x in Elems(t) :: b <= x
    ensures AllAbove(t, b) ==> forall x | x in Elems(t) :: b < x
  {
    match t
    case Nil =>
    case Node(_, l, r) =>
      BoundsHoldOfEveryKey(l, b);
      BoundsHoldOfEveryKey(r, b);
  }

  /** A bound keeps holding when it is loosened. */
  lemma {:induction false} BoundsLoosen(t: Tree, b: int, c: int)
    ensures b <= c && AllAtMost(t, b) ==> AllAtMost(t, c)
    ensures b <= c && AllAtLeast(t, c) ==> AllAtLeast(t, b)
    ensures AllAbove(t, b) ==> AllAtLeast(t, b)
  {
    match t
    case Nil =>
    case Node(_, l, r) =>
      BoundsLoosen(l, b, c);
      BoundsLoosen(r, b, c);
  }

  /** The order insert keeps: at every node, left keys at most the node's
      key and right keys greater. */
  ghost predicate Ordered(t: Tree)
  {
    match t
    case Nil => true
    case Node(d, l, r) => AllAtMost(l, d) && AllAbove(r, d) && Ordered(l) && Ordered(r)
  }

  /** The order delete keeps: at every node, left keys at most the node's
      key and right keys at least it. It is all that search needs. */
  ghost predicate WeaklyOrdered(t: Tree)
  {
    match t
    case Nil => true
    case Node(d, l, r) => AllAtMost(l, d) && AllAtLeast(r, d) && WeaklyOrdered(l) && WeaklyOrdered(r)
  }

  lemma {:induction false} OrderedIsWeaklyOrdered(t: Tree)
    requires Ordered(t)
    ensures WeaklyOrdered(t)
  {
    match t
    case Nil =>
    case Node(d, l, r) =>
      OrderedIsWeaklyOrdered(l);
      OrderedIsWeaklyOrdered(r);
      BoundsLoosen(r, d, d);
  }

  /** The larger of two ints. */
  function Max(a: int, b: int): (m: int)
    ensures m >= a && m >= b && (m == a || m == b)
  {
    if a > b then a else b
  }

  /** Number of nodes. */
  function CountNodes(t: Tree): nat
  {
    match t
    case Nil => 0
    case Node(_, l, r) => CountNodes(l) + CountNodes(r) + 1
  }

  /** The node count is the number of keys, duplicates included. */
  lemma {:induction false} CountIsSize(t: Tree)
    ensures CountNodes(t) == |Elems(t)|
  {
    match t
    case Nil =>
    case Node(_, l, r) =>
      CountIsSize(l);
      CountIsSize(r);
  }

  /** Number of nodes on the longest root-to-leaf path; 0 when empty. */
  function Height(t: Tree): (h: nat)
    ensures t.Node? ==> h >= 1
  {
    match t
    case Nil => 0
    case Node(_, l, r) => 1 + Max(Height(l), Height(r))
  }

  /** A tree has at least as many nodes as its height. */
  lemma {:induction false} HeightAtMostCount(t: Tree)
    ensures Height(t) <= CountNodes(t)
  {
    match t
    case Nil =>
    case Node(_, l, r) =>
      HeightAtMostCount(l);
      HeightAtMostCount(r);
  }

  /** A tree of height h has fewer than 2^h nodes. */
  lemma {:induction false} CountBelowPow2(t: Tree)
    ensures CountNodes(t) < Pow2(Height(t))
  {
    match t
    case Nil =>
    case Node(_, l, r) =>
      CountBelowPow2(l);
      CountBelowPow2(r);
      var hl, hr, h := Height(l), Height(r), Height(t) - 1;
      Pow2Monotone(hl, h);
      Pow2Monotone(hr, h);
      calc {
        CountNodes(t);
      ==
        CountNodes(l) + CountNodes(r) + 1;
      <=
        Pow2(hl) + Pow2(hr) - 1;
      <=
        2 * Pow2(h) - 1;
      <
        Pow2(h + 1);
      }
  }

  /** Adds val as a new leaf: right of every node whose key is smaller,
      left of every node whose key is at least val. */
  function Insert(t: Tree, val: int): Tree
  {
    match t
    case Nil => Node(val, Nil, Nil)
    case Node(d, l, rt) =>
      if val > d then Node(d, l, Insert(rt, val)) else Node(d, Insert(l, val), rt)
  }

  /** Insert adds exactly one occurrence of val and one node. */
  lemma {:induction false} InsertElems(t: Tree, val: int)
    ensures Elems(Insert(t, val)) == Elems(t) + multiset{val}
    ensures CountNodes(Insert(t, val)) == CountNodes(t) + 1
  {
    match t
    case Nil =>
    case Node(d, l, rt) =>
      if val > d {
        InsertElems(rt, val);
      } else {
        InsertElems(l, val);
      }
  }

  /** A bound that holds of a tree and of val holds after inserting val. */
  lemma {:induction false} InsertKeepsBounds(t: Tree, val: int, b: int)
    ensures AllAtMost(t, b) && val <= b ==> AllAtMost(Insert(t, val), b)
    ensures AllAtLeast(t, b) && b <= val ==> AllAtLeast(Insert(t, val), b)
    ensures AllAbove(t, b) && b < val ==> AllAbove(Insert(t, val), b)
  {
    match t
    case Nil =>
    case Node(d, l, rt) =>
      if val > d {
        InsertKeepsBounds(rt, val, b);
      } else {
        InsertKeepsBounds(l, val, b);
      }
  }

  /** Insert keeps the strict order: a key equal to a node's goes to that
      node's left, never to its right. */
  lemma {:induction false} InsertOrdered(t: Tree, val: int)
    requires Ordered(t)
    ensures Ordered(Insert(t, val))
  {
    match t
    case Nil =>
    case Node(d, l, rt) =>
      if val > d {
        InsertOrdered(rt, val);
        InsertKeepsBounds(rt, val, d);
      } else {
        InsertOrdered(l, val);
        InsertKeepsBounds(l, val, d);
      }
  }

  /** Insert keeps the weak order. */
  lemma {:induction false} InsertWeaklyOrdered(t: Tree, val: int)
    requires WeaklyOrdered(t)
    ensures WeaklyOrdered(Insert(t, val))
  {
    match t
    case Nil =>
    case Node(d, l, rt) =>
      if val > d {
        InsertWeaklyOrdered(rt, val);
        InsertKeepsBounds(rt, val, d);
      } else {
        InsertWeaklyOrdered(l, val);
        InsertKeepsBounds(l, val, d);
      }
  }

  /** The subtree rooted at a node holding val, found by walking down from
      the root, or Nil; in an ordered tree Nil exactly when val is absent. */
  function Search(t: Tree, val: int): (r: Tree)
    ensures r.Node? ==> r.data == val && Elems(r) <= Elems(t)
    ensures WeaklyOrdered(t) ==> (r.Node? <==> val in Elems(t))
  {
    match t
    case Nil => Nil
    case Node(d, l, rt) =>
      if val == d then t
      else if val > d then
        BoundsHoldOfEveryKey(l, d);
        Search(rt, val)
      else
        BoundsHoldOfEveryKey(rt, d);
        Search(l, val)
  }

  /** The node reached from a non-empty tree by following left children
      to the end; in an ordered tree no key is below its key. */
  function Leftmost(t: Tree): (m: Tree)
    requires t.Node?
    ensures m.Node? && m.left.Nil? && m.data in Elems(t)
    ensures WeaklyOrdered(t) ==> AllAtLeast(t, m.data)
  {
    if t.left.Nil? then t
    else
      var m := Leftmost(t.left);
      BoundsHoldOfEveryKey(t.left, t.data);
      BoundsLoosen(t.right, m.data, t.data);
      m
  }

  /** In an ordered tree the leftmost key is the smallest key. */
  lemma LeftmostIsMinimum(t: Tree)
    requires t.Node? && WeaklyOrdered(t)
    ensures Leftmost(t).data in Elems(t)
    ensures forall x | x in Elems(t) :: Leftmost(t).data <= x
  {
    BoundsHoldOfEveryKey(t, Leftmost(t).data);
  }

  /** The loop of findMin: Nil for an empty tree, else the leftmost node. */
  method FindMin(root: Tree) returns (m: Tree)
    ensures root.Nil? ==> m.Nil?
    ensures root.Node? ==> m == Leftmost(root)
  {
    if root.Nil? {
      return Nil;
    }
    m := root;
    while m.left.Node?
      invariant m.Node? && Leftmost(m) == Leftmost(root)
      decreases m
    {
      m := m.left;
    }
  }

  /** Removes one occurrence of val: a leaf goes, a node with one child is
      replaced by it, and a node with two children takes the smallest key
      of its right subtree, which is then deleted from there. An absent
      key leaves the tree as it was. */
  function DeleteNode(t: Tree, val: int): (r: Tree)
    ensures val !in Elems(t) ==> r == t
    ensures CountNodes(r) <= CountNodes(t)
  {
    match t
    case Nil => Nil
    case Node(d, l, rt) =>
      if val < d then Node(d, DeleteNode(l, val), rt)
      else if val > d then Node(d, l, DeleteNode(rt, val))
      else if l.Nil? && rt.Nil? then Nil
      else if l.Nil? then rt
      else if rt.Nil? then l
      else
        var successor := Leftmost(rt);
        Node(successor.data, l, DeleteNode(rt, successor.data))
  }

  /** On a (weakly) ordered tree, delete removes exactly one occurrence of
      a present key and nothing else. */
  lemma {:induction false} DeleteNodeElems(t: Tree, val: int)
    requires WeaklyOrdered(t)
    ensures Elems(DeleteNode(t, val)) == Elems(t) - multiset{val}
  {
    match t
    case Nil =>
    case Node(d, l, rt) =>
      if val < d {
        DeleteNodeElems(l, val);
        DeleteInLeftElems(t, val);
      } else if val > d {
        DeleteNodeElems(rt, val);
        DeleteInRightElems(t, val);
      } else if l.Node? && rt.Node? {
        DeleteNodeElems(rt, Leftmost(rt).data);
        DeleteAtRootElems(t);
      }
  }

  /** The step of DeleteNodeElems where the key is below the root's. */
  lemma DeleteInLeftElems(t: Tree, val: int)
    requires WeaklyOrdered(t) && t.Node? && val < t.data
    requires Elems(DeleteNode(t.left, val)) == Elems(t.left) - multiset{val}
    ensures Elems(DeleteNode(t, val)) == Elems(t) - multiset{val}
  {
    BoundsHoldOfEveryKey(t.right, t.data);
    RemoveFromUnion(Elems(t.left), multiset{t.data} + Elems(t.right), val);
    assert DeleteNode(t, val) == Node(t.data, DeleteNode(t.left, val), t.right);
  }

  /** The step of DeleteNodeElems where the key is above the root's. */
  lemma DeleteInRightElems(t: Tree, val: int)
    requires WeaklyOrdered(t) && t.Node? && val > t.data
    requires Elems(DeleteNode(t.right, val)) == Elems(t.right) - multiset{val}
    ensures Elems(DeleteNode(t, val)) == Elems(t) - multiset{val}
  {
    BoundsHoldOfEveryKey(t.left, t.data);
    RemoveFromUnion(Elems(t.left) + multiset{t.data}, Elems(t.right), val);
    assert DeleteNode(t, val) == Node(t.data, t.left, DeleteNode(t.right, val));
  }

  /** The step of DeleteNodeElems where the root, with two children, takes
      its successor's key. */
  lemma DeleteAtRootElems(t: Tree)
    requires WeaklyOrdered(t) && t.Node? && t.left.Node? && t.right.Node?
    requires Elems(DeleteNode(t.right, Leftmost(t.right).data)) == Elems(t.right) - multiset{Leftmost(t.right).data}
    ensures Elems(DeleteNode(t, t.data)) == Elems(t) - multiset{t.data}
  {
    var s := Leftmost(t.right).data;
    RemoveFromUnion(Elems(t.left) + multiset{s}, Elems(t.right), s);
    assert DeleteNode(t, t.data) == Node(s, t.left, DeleteNode(t.right, s));
  }

  /** A bound that holds of a tree still holds after a delete. */
  lemma {:induction false} DeleteKeepsBounds(t: Tree, val: int, b: int)
    ensures AllAtMost(t, b) ==> AllAtMost(DeleteNode(t, val), b)
    ensures AllAtLeast(t, b) ==> AllAtLeast(DeleteNode(t, val), b)
  {
    match t
    case Nil =>
    case Node(d, l, rt) =>
      if val < d {
        DeleteKeepsBounds(l, val, b);
      } else if val > d {
        DeleteKeepsBounds(rt, val, b);
      } else if l.Node? && rt.Node? {
        var s := Leftmost(rt).data;
        DeleteKeepsBounds(rt, s, b);
        BoundsHoldOfEveryKey(rt, b);
      }
  }

  /** Delete keeps the weak order: the successor that replaces a key is at
      least every key on the left and at most every key left on the right. */
  lemma {:induction false} DeleteNodeOrdered(t: Tree, val: int)
    requires WeaklyOrdered(t)
    ensures WeaklyOrdered(DeleteNode(t, val))
  {
    match t
    case Nil =>
    case Node(d, l, rt) =>
      if val < d {
        DeleteNodeOrdered(l, val);
        DeleteKeepsBounds(l, val, d);
      } else if val > d {
        DeleteNodeOrdered(rt, val);
        DeleteKeepsBounds(rt, val, d);
      } else if l.Node? && rt.Node? {
        var s := Leftmost(rt).data;
        DeleteNodeOrdered(rt, s);
        DeleteKeepsBounds(rt, s, s);
        BoundsHoldOfEveryKey(rt, d);
        BoundsLoosen(l, d, s);
        assert DeleteNode(t, val) == Node(s, l, DeleteNode(rt, s));
      }
  }

  /** With a present key delete takes exactly one node away. */
  lemma DeleteNodeCount(t: Tree, val: int)
    requires WeaklyOrdered(t) && val in Elems(t)
    ensures CountNodes(DeleteNode(t, val)) == CountNodes(t) - 1
  {
    DeleteNodeElems(t, val);
    CountIsSize(t);
    CountIsSize(DeleteNode(t, val));
  }

  /** Keys in left, node, right order. */
  function Inorder(t: Tree): seq<int>
  {
    match t
    case Nil => []
    case Node(d, l, r) => Inorder(l) + [d] + Inorder(r)
  }

  /** Keys in node, left, right order. */
  function Preorder(t: Tree): seq<int>
  {
    match t
    case Nil => []
    case Node(d, l, r) => [d] + Preorder(l) + Preorder(r)
  }

  /** Keys in left, right, node order. */
  function Postorder(t: Tree): seq<int>
  {
    match t
    case Nil => []
    case Node(d, l, r) => Postorder(l) + Postorder(r) + [d]
  }

  /** The in-order walk visits every key once. */
  lemma {:induction false} InorderVisitsAll(t: Tree)
    ensures multiset(Inorder(t)) == Elems(t)
  {
    match t
    case Nil =>
    case Node(_, l, r) =>
      InorderVisitsAll(l);
      InorderVisitsAll(r);
  }

  /** The pre-order walk visits every key once. */
  lemma {:induction false} PreorderVisitsAll(t: Tree)
    ensures multiset(Preorder(t)) == Elems(t)
  {
    match t
    case Nil =>
    case Node(_, l, r) =>
      PreorderVisitsAll(l);
      PreorderVisitsAll(r);
  }

  /** The post-order walk visits every key once. */
  lemma {:induction false} PostorderVisitsAll(t: Tree)
    ensures multiset(Postorder(t)) == Elems(t)
  {
    match t
    case Nil =>
    case Node(_, l, r) =>
      PostorderVisitsAll(l);
      PostorderVisitsAll(r);
  }

  /** A bound on a tree's keys bounds every entry of its in-order walk. */
  lemma {:induction false} InorderWithinBounds(t: Tree, b: int)
    ensures AllAtMost(t, b) ==> forall i | 0 <= i < |Inorder(t)| :: Inorder(t)[i] <= b
    ensures AllAtLeast(t, b) ==> forall i | 0 <= i < |Inorder(t)| :: b <= Inorder(t)[i]
  {
    match t
    case Nil =>
    case Node(d, l, r) =>
      InorderWithinBounds(l, b);
      InorderWithinBounds(r, b);
      var s, sl := Inorder(t), Inorder(l);
      assert forall i | |sl| < i < |s| :: s[i] == Inorder(r)[i - |sl| - 1];
  }

  /** The in-order walk of a (weakly) ordered tree is non-decreasing. */
  lemma {:induction false} InorderSorted(t: Tree)
    requires WeaklyOrdered(t)
    ensures Sorted(Inorder(t))
  {
    match t
    case Nil =>
    case Node(d, l, r) =>
      InorderSorted(l);
      InorderSorted(r);
      InorderWithinBounds(l, d);
      InorderWithinBounds(r, d);
      var s, sl, sr := Inorder(t), Inorder(l), Inorder(r);
      assert forall i | |sl| < i < |s| :: s[i] == sr[i - |sl| - 1];
      assert forall i | 0 <= i < |sl| :: s[i] == sl[i];
  }

  /** The tree the source's driver builds: keys inserted one by one into an
      empty tree. */
  function BuildFrom(keys: seq<int>): Tree
  {
    if keys == [] then Nil else Insert(BuildFrom(keys[..|keys| - 1]), keys[|keys| - 1])
  }

  /** A tree built by inserts holds exactly the inserted keys. */
  lemma {:induction false} BuildFromElems(keys: seq<int>)
    ensures Elems(BuildFrom(keys)) == multiset(keys)
  {
    if keys != [] {
      BuildFromElems(keys[..|keys| - 1]);
      InsertElems(BuildFrom(keys[..|keys| - 1]), keys[|keys| - 1]);
      assert keys == keys[..|keys| - 1] + [keys[|keys| - 1]];
    }
  }

  /** A tree built by inserts alone is in the strict order. */
  lemma {:induction false} BuildFromOrdered(keys: seq<int>)
    ensures Ordered(BuildFrom(keys))
  {
    if keys != [] {
      BuildFromOrdered(keys[..|keys| - 1]);
      InsertOrdered(BuildFrom(keys[..|keys| - 1]), keys[|keys| - 1]);
    }
  }

  /** So it reads the inserted keys back sorted, in order. */
  lemma BuildFromSorted(keys: seq<int>)
    ensures Sorted(Inorder(BuildFrom(keys))) && multiset(Inorder(BuildFrom(keys))) == multiset(keys)
  {
    BuildFromOrdered(keys);
    BuildFromElems(keys);
    OrderedIsWeaklyOrdered(BuildFrom(keys));
    InorderSorted(BuildFrom(keys));
    InorderVisitsAll(BuildFrom(keys));
  }

  /** The tree of the last two drivers (the second one commented out in
      the source, the last one live): 20, 10, 30, 5, 25, 35 inserted one
      by one into an empty tree. */
  function DemoTree(): Tree
  {
    Insert(Insert(Insert(Insert(Insert(Insert(Nil, 20), 10), 30), 5), 25), 35)
  }

  /** That tree has 20 at the root, 10 and 30 below it and 5, 25, 35 as
      leaves; so it has height 3 and six nodes, as the commented-out second
      driver expects, and reads 5 10 20 25 30 35 in order, as the live
      driver prints before deleting. */
  lemma DemoShape()
    ensures DemoTree() ==
      Node(20, Node(10, Node(5, Nil, Nil), Nil), Node(30, Node(25, Nil, Nil), Node(35, Nil, Nil)))
    ensures Height(DemoTree()) == 3 && CountNodes(DemoTree()) == 6
    ensures Inorder(DemoTree()) == [5, 10, 20, 25, 30, 35]
  {
  }

  /** The commented-out second driver's searches: the leaf holding 25 is
      found and nothing for 100. */
  lemma DemoSearch()
    ensures Search(DemoTree(), 25) == Node(25, Nil, Nil) && Search(DemoTree(), 100) == Nil
  {
    DemoShape();
    var t := Node(20, Node(10, Node(5, Nil, Nil), Nil), Node(30, Node(25, Nil, Nil), Node(35, Nil, Nil)));
    assert Search(t, 25) == Node(25, Nil, Nil);
    assert Search(t, 100) == Nil;
  }

  /** The live driver's deletions: 5 goes as a leaf, then 10 as a leaf, then
      30, which has two children, takes 35 from its right; 20 25 35 are
      left in order. */
  lemma DemoDeletes()
    ensures Inorder(DeleteNode(DeleteNode(DeleteNode(DemoTree(), 5), 10), 30)) == [20, 25, 35]
  {
    DemoShape();
    DemoDeleteLeaves();
    DemoDeleteTwoChildren();
  }

  lemma DemoDeleteLeaves()
    ensures DeleteNode(DeleteNode(
      Node(20, Node(10, Node(5, Nil, Nil), Nil), Node(30, Node(25, Nil, Nil), Node(35, Nil, Nil))), 5), 10) ==
      Node(20, Nil, Node(30, Node(25, Nil, Nil), Node(35, Nil, Nil)))
  {
    assert DeleteNode(Node(20, Node(10, Node(5, Nil, Nil), Nil), Node(30, Node(25, Nil, Nil), Node(35, Nil, Nil))), 5) ==
      Node(20, Node(10, Nil, Nil), Node(30, Node(25, Nil, Nil), Node(35, Nil, Nil)));
  }

  lemma DemoDeleteTwoChildren()
    ensures DeleteNode(Node(20, Nil, Node(30, Node(25, Nil, Nil), Node(35, Nil, Nil))), 30) ==
      Node(20, Nil, Node(35, Node(25, Nil, Nil), Nil))
  {
    assert Leftmost(Node(35, Nil, Nil)) == Node(35, Nil, Nil);
  }

  /** With a duplicate key the strict order is not kept by delete: after
      inserting 20, 10, 30, 30, deleting 20 moves a 30 up to the root while
      the other 30 stays in its right subtree. The weak order survives. */
  lemma DeleteBreaksStrictOrder()
    ensures var t := BuildFrom([20, 10, 30, 30]);
      Ordered(t) && !Ordered(DeleteNode(t, 20)) && WeaklyOrdered(DeleteNode(t, 20))
  {
    var keys := [20, 10, 30, 30];
    assert keys[..1][..0] == [];
    assert BuildFrom(keys[..1]) == Node(20, Nil, Nil);
    assert keys[..2][..1] == keys[..1];
    assert BuildFrom(keys[..2]) == Node(20, Node(10, Nil, Nil), Nil);
    assert keys[..3][..2] == keys[..2];
    assert BuildFrom(keys[..3]) == Node(20, Node(10, Nil, Nil), Node(30, Nil, Nil));
    assert keys[..3] == keys[..|keys| - 1];
    var t := BuildFrom(keys);
    assert t == Node(20, Node(10, Nil, Nil), Node(30, Node(30, Nil, Nil), Nil));
    assert DeleteNode(t, 20) == Node(30, Node(10, Nil, Nil), Node(30, Nil, Nil));
  }

  /** The array-backed FIFO of the breadth-first walk: queued subtrees sit
      in items[front..rear], front only moves forward, and nothing checks
      for a full array, so callers must size it for every enqueue. */
  class Queue {
    const items: array<Tree>
    const capacity: int
    var front: int
    var rear: int

    ghost predicate Valid()
      reads this
    {
      items.Length == capacity && 0 <= front <= rear + 1 <= capacity
    }

    /** The queued subtrees, oldest first. */
    ghost function Contents(): seq<Tree>
      reads this, items
      requires Valid()
    {
      items[front..rear + 1]
    }

    /** An empty queue over a fresh array of the given capacity: front 0,
        rear -1. */
    constructor (capacity: nat)
      ensures Valid() && fresh(items) && this.capacity == capacity
      ensures front == 0 && rear == -1 && Contents() == []
    {
      items := new Tree[capacity](_ => Nil);
      this.capacity := capacity;
      front := 0;
      rear := -1;
    }

    /** rear has not caught up with front. */
    function IsEmpty(): (b: bool)
      reads this, items
      requires Valid()
      ensures b <==> Contents() == []
    {
      rear < front
    }

    /** Stores node in the next free slot. */
    method Enqueue(node: Tree)
      requires Valid() && rear + 1 < capacity
      modifies this, items
      ensures Valid() && front == old(front) && rear == old(rear) + 1
      ensures Contents() == old(Contents()) + [node]
    {
      rear := rear + 1;
      items[rear] := node;
    }

    /** Takes the oldest subtree; its slot is not reused. */
    method Dequeue() returns (node: Tree)
      requires Valid() && Contents() != []
      modifies this
      ensures Valid() && front == old(front) + 1 && rear == old(rear)
      ensures node == old(Contents())[0] && Contents() == old(Contents())[1..]
    {
      node := items[front];
      front := front + 1;
    }
  }

  /** The non-empty children of a tree, left first: what the walk queues. */
  function Kids(t: Tree): seq<Tree>
  {
    match t
    case Nil => []
    case Node(_, l, r) => Kid(l) + Kid(r)
  }

  /** The number of nodes in a sequence of trees. */
  function Weight(q: seq<Tree>): nat
  {
    if q == [] then 0 else CountNodes(q[0]) + Weight(q[1..])
  }

  lemma {:induction false} WeightAppend(a: seq<Tree>, b: seq<Tree>)
    ensures Weight(a + b) == Weight(a) + Weight(b)
  {
    if a == [] {
      assert a + b == b;
    } else {
      WeightAppend(a[1..], b);
      assert (a + b)[1..] == a[1..] + b;
    }
  }

  /** Queueing a node's children in its place leaves one node fewer. */
  lemma KidsWeight(t: Tree)
    requires t.Node?
    ensures Weight(Kids(t)) == CountNodes(t) - 1 && |Kids(t)| <= CountNodes(t) - 1
  {
    WeightAppend(Kid(t.left), Kid(t.right));
    assert Weight(Kid(t.left)) == CountNodes(t.left) && Weight(Kid(t.right)) == CountNodes(t.right);
  }

  /** The keys a queue-driven walk emits from queue q: take the front tree,
      emit its key, queue its non-empty children at the back. */
  ghost function Bfs(q: seq<Tree>): seq<int>
    decreases Weight(q), |q|
  {
    if q == [] then []
    else
      RestWeight(q);
      Root(q[0]) + Bfs(Rest(q))
  }

  /** A tree's key when it holds a node, else nothing. */
  function Root(t: Tree): seq<int>
  {
    if t.Nil? then [] else [t.data]
  }

  /** The queue after its front tree is taken and that tree's children
      queued at the back. */
  function Rest(q: seq<Tree>): seq<Tree>
    requires q != []
  {
    q[1..] + Kids(q[0])
  }

  /** Each round takes one node off the queue, or, for an empty front
      tree, shortens it. */
  lemma RestWeight(q: seq<Tree>)
    requires q != []
    ensures Weight(Rest(q)) + |Root(q[0])| == Weight(q)
    ensures q[0].Nil? ==> Rest(q) == q[1..]
  {
    WeightAppend(q[1..], Kids(q[0]));
    if q[0].Node? {
      KidsWeight(q[0]);
    } else {
      assert q[1..] + [] == q[1..];
    }
  }

  /** The breadth-first order of a tree. */
  ghost function LevelOrder(t: Tree): seq<int>
  {
    Bfs([t])
  }

  /** The keys of the non-empty trees of a level, left to right. */
  function Roots(level: seq<Tree>): seq<int>
  {
    if level == [] then [] else Root(level[0]) + Roots(level[1..])
  }

  /** The next level: all non-empty children of a level, left to right. */
  function Children(level: seq<Tree>): seq<Tree>
  {
    if level == [] then [] else Kids(level[0]) + Children(level[1..])
  }

  lemma {:induction false} ChildrenWeight(level: seq<Tree>)
    ensures Weight(Children(level)) + |Roots(level)| == Weight(level)
    ensures Roots(level) == [] ==> Children(level) == []
  {
    if level != [] {
      ChildrenWeight(level[1..]);
      WeightAppend(Kids(level[0]), Children(level[1..]));
      if level[0].Node? {
        KidsWeight(level[0]);
      }
    }
  }

  /** The keys level by level: the roots of a level, then the keys of the
      next level down. */
  ghost function Levels(level: seq<Tree>): seq<int>
    decreases Weight(level)
  {
    ChildrenWeight(level);
    if Roots(level) == [] then [] else Roots(level) + Levels(Children(level))
  }

  /** Emptying the trees of f ahead of g emits their roots and leaves g
      followed by their children. */
  lemma {:induction false} BfsSplit(f: seq<Tree>, g: seq<Tree>)
    ensures Bfs(f + g) == Roots(f) + Bfs(g + Children(f))
    decreases |f|
  {
    if f == [] {
      assert f + g == g && g + Children(f) == g;
    } else {
      BfsSplit(f[1..], g + Kids(f[0]));
      FrontOfAppend(f, g);
      AppendAssociates(f[1..], g, Kids(f[0]));
      ChildrenAfter(f, g);
      AppendAssociates(Root(f[0]), Roots(f[1..]), Bfs(g + Children(f)));
    }
  }

  /** The children of f are those of its front tree, then the rest's. */
  lemma ChildrenAfter(f: seq<Tree>, g: seq<Tree>)
    requires f != []
    ensures g + Kids(f[0]) + Children(f[1..]) == g + Children(f)
  {
    assert Children(f) == Kids(f[0]) + Children(f[1..]);
    AppendAssociates(g, Kids(f[0]), Children(f[1..]));
  }

  /** The queue-driven walk visits the trees level by level, each level
      left to right. */
  lemma {:induction false} BfsIsLevels(level: seq<Tree>)
    ensures Bfs(level) == Levels(level)
    decreases Weight(level)
  {
    BfsSplit(level, []);
    assert level + [] == level && [] + Children(level) == Children(level);
    ChildrenWeight(level);
    if Roots(level) != [] {
      BfsIsLevels(Children(level));
    }
  }

  /** So the breadth-first order of a tree is its keys level by level. */
  lemma LevelOrderIsLevels(t: Tree)
    ensures LevelOrder(t) == Levels([t])
  {
    BfsIsLevels([t]);
  }

  /** The keys of a sequence of trees, with multiplicities. */
  function ElemsOf(q: seq<Tree>): multiset<int>
  {
    if q == [] then multiset{} else Elems(q[0]) + ElemsOf(q[1..])
  }

  lemma {:induction false} ElemsOfAppend(a: seq<Tree>, b: seq<Tree>)
    ensures ElemsOf(a + b) == ElemsOf(a) + ElemsOf(b)
  {
    if a == [] {
      assert a + b == b;
    } else {
      ElemsOfAppend(a[1..], b);
      FrontOfAppend(a, b);
    }
  }

  /** The queue-driven walk emits every key of the queued trees once. */
  lemma {:induction false} BfsVisitsAll(q: seq<Tree>)
    ensures multiset(Bfs(q)) == ElemsOf(q)
    decreases Weight(q), |q|
  {
    if q != [] {
      RestWeight(q);
      BfsVisitsAll(Rest(q));
      RestElems(q);
    }
  }

  /** A round of the walk moves the front tree's keys, less its root,
      to the back of the queue. */
  lemma RestElems(q: seq<Tree>)
    requires q != []
    ensures ElemsOf(q) == multiset(Root(q[0])) + ElemsOf(Rest(q))
  {
    ElemsOfAppend(q[1..], Kids(q[0]));
    KidsElems(q[0]);
  }

  /** A node's key and the keys of its queued children are its keys. */
  lemma KidsElems(t: Tree)
    ensures Elems(t) == multiset(Root(t)) + ElemsOf(Kids(t))
  {
    if t.Node? {
      ElemsOfAppend(Kid(t.left), Kid(t.right));
      KidElems(t.left);
      KidElems(t.right);
    }
  }

  /** A child as it is queued: nothing when empty, else itself. */
  function Kid(t: Tree): seq<Tree>
  {
    if t.Nil? then [] else [t]
  }

  lemma KidElems(t: Tree)
    ensures ElemsOf(Kid(t)) == Elems(t)
  {
    if t.Node? {
      assert Kid(t)[1..] == [];
    }
  }

  /** The breadth-first order visits every key of the tree once. */
  lemma LevelOrderVisitsAll(t: Tree)
    ensures multiset(LevelOrder(t)) == Elems(t)
  {
    BfsVisitsAll([t]);
    assert [t][1..] == [];
  }

  /** Every tree queued is non-empty, so each holds a node. */
  lemma {:induction false} WeightOfNodes(q: seq<Tree>)
    requires forall i | 0 <= i < |q| :: q[i].Node?
    ensures Weight(q) >= |q|
  {
    if q != [] {
      WeightOfNodes(q[1..]);
    }
  }

  /** One round of the walk on a queue of non-empty trees: the front key
      is emitted, the queue left behind is again of non-empty trees and
      holds one node fewer, and there are at least as many nodes still to
      be queued as children are queued now. */
  lemma BfsStep(q: seq<Tree>)
    requires q != [] && forall i | 0 <= i < |q| :: q[i].Node?
    ensures Bfs(q) == [q[0].data] + Bfs(q[1..] + Kids(q[0]))
    ensures Weight(q[1..] + Kids(q[0])) == Weight(q) - 1
    ensures forall i | 0 <= i < |q[1..] + Kids(q[0])| :: (q[1..] + Kids(q[0]))[i].Node?
    ensures |Kids(q[0])| <= Weight(q) - |q|
  {
    WeightAppend(q[1..], Kids(q[0]));
    KidsWeight(q[0]);
    WeightOfNodes(q[1..]);
  }

  /** The inner step of breadthFirstTraversal: the left child, then the
      right child, each when it is not empty, go to the back of the queue. */
  method EnqueueChildren(q: Queue, node: Tree)
    requires q.Valid() && q.rear + |Kids(node)| < q.capacity
    modifies q, q.items
    ensures q.Valid() && q.front == old(q.front) && q.rear == old(q.rear) + |Kids(node)|
    ensures q.Contents() == old(q.Contents()) + Kids(node)
  {
    if node.Node? && node.left.Node? {
      q.Enqueue(node.left);
    }
    if node.Node? && node.right.Node? {
      q.Enqueue(node.right);
    }
  }

  /** The walk of breadthFirstTraversal over a queue of the given capacity:
      the keys it prints, which are the tree's breadth-first order. The
      queue is never full as long as it can hold every node. */
  method BreadthFirstTraversal(root: Tree, capacityOfQueue: int) returns (order: seq<int>)
    requires root.Nil? || CountNodes(root) <= capacityOfQueue
    ensures order == LevelOrder(root)
  {
    if root.Nil? {
      return [];
    }
    var q := new Queue(capacityOfQueue);
    q.Enqueue(root);
    order := [];
    while !q.IsEmpty()
      invariant q.Valid() && q.capacity == capacityOfQueue
      invariant forall i | 0 <= i < |q.Contents()| :: q.Contents()[i].Node?
      invariant q.rear + 1 + Weight(q.Contents()) - |q.Contents()| == CountNodes(root)
      invariant order + Bfs(q.Contents()) == LevelOrder(root)
      decreases Weight(q.Contents())
    {
      ghost var before, emitted := q.Contents(), order;
      ghost var after := before[1..] + Kids(before[0]);
      BfsStep(before);
      var node := q.Dequeue();
      order := order + [node.data];
      EnqueueChildren(q, node);
      AppendAssociates(emitted, [node.data], Bfs(after));
    }
  }

  /** The first driver's walk (that driver is commented out in the
      source): the hand-built tree 20 (10 (5), 30 (25,
      35)) read level by level with a queue of six slots gives
      20 10 30 5 25 35. */
  method DemoBreadthFirst() returns (order: seq<int>)
    ensures order == [20, 10, 30, 5, 25, 35]
  {
    var root := Node(20, Node(10, Node(5, Nil, Nil), Nil), Node(30, Node(25, Nil, Nil), Node(35, Nil, Nil)));
    order := BreadthFirstTraversal(root, 6);
    LevelOrderIsLevels(root);
  }
}
