/** A self-balancing search tree of distinct int keys. Every node stores
    its own height, and insert and delete rebalance each node on the way
    back up with one of four rotations. Trees are values here: a rotation
    or an update returns the new subtree instead of overwriting fields. */
module AvlTree {
  import opened Sequences

  /** A node: its key, its stored height and its two subtrees; Nil is the
      NULL pointer. */
  datatype Tree = Nil | Node(data: int, height: nat, left: Tree, right: Tree)

  /** The keys read in order: left subtree, node, right subtree. */
  function Inorder(t: Tree): seq<int>
  {
    match t
    case Nil => []
    case Node(d, _, l, r) => Inorder(l) + [d] + Inorder(r)
  }

  /** Strict search order: the keys read in order strictly ascend, so every
      key of a left subtree is below its node and every key of a right
      subtree above it. */
  ghost predicate Ordered(t: Tree)
  {
    Increasing(Inorder(t))
  }

  function Max(a: int, b: int): (m: int)
    ensures m >= a && m >= b && (m == a || m == b)
  {
    if a > b then a else b
  }

  /** The real height: 0 for NULL, one more than the taller subtree. */
  function Height(t: Tree): nat
  {
    match t
    case Nil => 0
    case Node(_, _, l, r) => 1 + Max(Height(l), Height(r))
  }

  /** getHeight: 0 for NULL, the stored height otherwise. */
  function GetHeight(t: Tree): nat
  {
    if t.Nil? then 0 else t.height
  }

  /** getBalance: left height minus right height, read from the stored
      heights; the node must not be NULL. */
  function GetBalance(t: Tree): int
    requires t.Node?
  {
    GetHeight(t.left) - GetHeight(t.right)
  }

  /** The shape invariant: every stored height is one more than the taller
      child's and the two children's heights differ by at most one. */
  ghost predicate HeightBalanced(t: Tree)
  {
    match t
    case Nil => true
    case Node(_, h, l, r) =>
      HeightBalanced(l) && HeightBalanced(r) &&
      h == Max(GetHeight(l), GetHeight(r)) + 1 &&
      -1 <= GetHeight(l) - GetHeight(r) <= 1
  }

  /** A valid AVL tree: strictly ordered and height-balanced. */
  ghost predicate IsAvl(t: Tree)
  {
    Ordered(t) && HeightBalanced(t)
  }

  /** In a height-balanced tree every stored height is the real one, so
      getHeight measures the tree. */
  lemma {:induction false} StoredHeightIsHeight(t: Tree)
    requires HeightBalanced(t)
    ensures GetHeight(t) == Height(t)
  {
    if t.Node? {
      StoredHeightIsHeight(t.left);
      StoredHeightIsHeight(t.right);
    }
  }

  /** createNode: a leaf of height 1 holding value, a valid AVL tree of
      that one key. */
  function CreateNode(value: int): (n: Tree)
    ensures IsAvl(n) && Inorder(n) == [value]
    ensures GetHeight(n) == 1 && n.left.Nil? && n.right.Nil?
  {
    Node(value, 1, Nil, Nil)
  }

  /** The node with its height recomputed from its children, as every
      rotation and every step back up does. */
  function UpdateHeight(n: Tree): Tree
    requires n.Node?
  {
    n.(height := Max(GetHeight(n.left), GetHeight(n.right)) + 1)
  }

  /** rightRotate: the left child y becomes the root and z its right
      child, y's old right subtree moving under z; z's height is
      recomputed first, then y's from it. */
  function RightRotate(z: Tree): (y: Tree)
    requires z.Node? && z.left.Node?
    ensures y.Node? && y.data == z.left.data && y.right.Node? && y.right.data == z.data
    ensures y.height == Max(GetHeight(y.left), GetHeight(y.right)) + 1
    ensures y.right.height == Max(GetHeight(y.right.left), GetHeight(y.right.right)) + 1
  {
    var y := z.left;
    var t3 := y.right;
    UpdateHeight(y.(right := UpdateHeight(z.(left := t3))))
  }

  /** leftRotate: the mirror image of rightRotate. */
  function LeftRotate(z: Tree): (y: Tree)
    requires z.Node? && z.right.Node?
    ensures y.Node? && y.data == z.right.data && y.left.Node? && y.left.data == z.data
    ensures y.height == Max(GetHeight(y.left), GetHeight(y.right)) + 1
    ensures y.left.height == Max(GetHeight(y.left.left), GetHeight(y.left.right)) + 1
  {
    var y := z.right;
    var t2 := y.left;
    UpdateHeight(y.(left := UpdateHeight(z.(right := t2))))
  }

  /** LR_Rotate: the left child rotated left, then the node rotated right;
      the left child's right child ends at the root. */
  function LRRotate(n: Tree): (r: Tree)
    requires n.Node? && n.left.Node? && n.left.right.Node?
    ensures r.Node? && r.data == n.left.right.data
  {
    RightRotate(n.(left := LeftRotate(n.left)))
  }

  /** RL_Rotate: the right child rotated right, then the node rotated
      left; the right child's left child ends at the root. */
  function RLRotate(n: Tree): (r: Tree)
    requires n.Node? && n.right.Node? && n.right.left.Node?
    ensures r.Node? && r.data == n.right.left.data
  {
    LeftRotate(n.(right := RightRotate(n.right)))
  }

  /** A right rotation keeps the keys in order. */
  lemma RightRotateInorder(z: Tree)
    requires z.Node? && z.left.Node?
    ensures Inorder(RightRotate(z)) == Inorder(z)
  {
    var y := z.left;
    Regroup(Inorder(y.left), y.data, Inorder(y.right), z.data, Inorder(z.right));
  }

  /** A left rotation keeps the keys in order. */
  lemma LeftRotateInorder(z: Tree)
    requires z.Node? && z.right.Node?
    ensures Inorder(LeftRotate(z)) == Inorder(z)
  {
    var y := z.right;
    Regroup(Inorder(z.left), z.data, Inorder(y.left), y.data, Inorder(y.right));
  }

  /** Both double rotations keep the keys in order. */
  lemma DoubleRotateInorder(n: Tree)
    requires n.Node?
    ensures n.left.Node? && n.left.right.Node? ==> Inorder(LRRotate(n)) == Inorder(n)
    ensures n.right.Node? && n.right.left.Node? ==> Inorder(RLRotate(n)) == Inorder(n)
  {
    if n.left.Node? && n.left.right.Node? {
      LeftRotateInorder(n.left);
      RightRotateInorder(n.(left := LeftRotate(n.left)));
    }
    if n.right.Node? && n.right.left.Node? {
      RightRotateInorder(n.right);
      LeftRotateInorder(n.(right := RightRotate(n.right)));
    }
  }

  /** A right rotation of a node whose left subtree is two taller than its
      right one, and leans left or not at all, leaves a balanced tree: as
      tall as the left subtree when that leant left, one taller when it
      was level. */
  lemma RightRotateBalanced(z: Tree)
    requires z.Node? && z.left.Node?
    requires HeightBalanced(z.left) && HeightBalanced(z.right)
    requires GetHeight(z.left) == GetHeight(z.right) + 2 && GetBalance(z.left) >= 0
    ensures HeightBalanced(RightRotate(z))
    ensures GetHeight(RightRotate(z)) == GetHeight(z.right) + 3 - GetBalance(z.left)
  {
  }

  /** The mirror image of RightRotateBalanced. */
  lemma LeftRotateBalanced(z: Tree)
    requires z.Node? && z.right.Node?
    requires HeightBalanced(z.left) && HeightBalanced(z.right)
    requires GetHeight(z.right) == GetHeight(z.left) + 2 && GetBalance(z.right) <= 0
    ensures HeightBalanced(LeftRotate(z))
    ensures GetHeight(LeftRotate(z)) == GetHeight(z.left) + 3 + GetBalance(z.right)
  {
  }

  /** An LR rotation of a node whose left subtree is two taller than its
      right one and leans right leaves a balanced tree as tall as that
      left subtree. */
  lemma LRRotateBalanced(z: Tree)
    requires z.Node? && z.left.Node?
    requires HeightBalanced(z.left) && HeightBalanced(z.right)
    requires GetHeight(z.left) == GetHeight(z.right) + 2 && GetBalance(z.left) < 0
    ensures z.left.right.Node?
    ensures HeightBalanced(LRRotate(z)) && GetHeight(LRRotate(z)) == GetHeight(z.right) + 2
  {
  }

  /** The mirror image of LRRotateBalanced. */
  lemma RLRotateBalanced(z: Tree)
    requires z.Node? && z.right.Node?
    requires HeightBalanced(z.left) && HeightBalanced(z.right)
    requires GetHeight(z.right) == GetHeight(z.left) + 2 && GetBalance(z.right) > 0
    ensures z.right.left.Node?
    ensures HeightBalanced(RLRotate(z)) && GetHeight(RLRotate(z)) == GetHeight(z.left) + 2
  {
  }

  /** The rebalancing step of delete: the rotation is chosen by the
      balance factor of the node and then of its taller child. */
  function Rebalance(n: Tree): Tree
    requires n.Node?
  {
    var bf := GetBalance(n);
    if bf > 1 && GetBalance(n.left) >= 0 then RightRotate(n)
    else if bf > 1 && GetBalance(n.left) < 0 then LRRotate(n)
    else if bf < -1 && GetBalance(n.right) <= 0 then LeftRotate(n)
    else if bf < -1 && GetBalance(n.right) > 0 then RLRotate(n)
    else n
  }

  /** The rebalancing step of insert: the rotation is chosen by the
      balance factor of the node and then by comparing the inserted key
      with the taller child's key. The double rotations dereference a
      grandchild that the comparison alone does not guarantee. */
  function InsertRebalance(n: Tree, v: int): Tree
    requires n.Node?
    requires GetBalance(n) > 1 && v > n.left.data ==> n.left.right.Node?
    requires GetBalance(n) < -1 && v < n.right.data ==> n.right.left.Node?
  {
    var bf := GetBalance(n);
    if bf > 1 && v < n.left.data then RightRotate(n)
    else if bf > 1 && v > n.left.data then LRRotate(n)
    else if bf < -1 && v > n.right.data then LeftRotate(n)
    else if bf < -1 && v < n.right.data then RLRotate(n)
    else n
  }

  /** Delete's rebalancing step does not change the keys read in order. */
  lemma RebalanceInorder(n: Tree)
    requires n.Node?
    ensures Inorder(Rebalance(n)) == Inorder(n)
  {
    var bf := GetBalance(n);
    if bf > 1 && GetBalance(n.left) >= 0 {
      RightRotateInorder(n);
    } else if bf > 1 {
      DoubleRotateInorder(n);
    } else if bf < -1 && GetBalance(n.right) <= 0 {
      LeftRotateInorder(n);
    } else if bf < -1 {
      DoubleRotateInorder(n);
    }
  }

  /** Delete's rebalancing of a node whose children are balanced, whose
      height is up to date and whose balance factor is at most two either
      way: a balanced node is left as it is, and the result is always
      balanced and as tall as the taller child or one more. */
  lemma RebalanceBalanced(n: Tree)
    requires n.Node? && HeightBalanced(n.left) && HeightBalanced(n.right)
    requires n.height == Max(GetHeight(n.left), GetHeight(n.right)) + 1
    requires -2 <= GetBalance(n) <= 2
    ensures -1 <= GetBalance(n) <= 1 ==> Rebalance(n) == n
    ensures HeightBalanced(Rebalance(n))
    ensures Max(GetHeight(n.left), GetHeight(n.right)) <= GetHeight(Rebalance(n))
    ensures GetHeight(Rebalance(n)) <= Max(GetHeight(n.left), GetHeight(n.right)) + 1
  {
    if GetBalance(n) == 2 {
      if GetBalance(n.left) >= 0 {
        RightRotateBalanced(n);
      } else {
        LRRotateBalanced(n);
      }
    } else if GetBalance(n) == -2 {
      if GetBalance(n.right) <= 0 {
        LeftRotateBalanced(n);
      } else {
        RLRotateBalanced(n);
      }
    }
  }

  /** What inserting v into a height-balanced t leaves, as its parent sees
      it: a balanced, non-empty tree at most one taller; and when it did
      grow, t was not NULL, no rotation happened at its root, v was a new
      key and the root now leans toward the side v went to. */
  ghost predicate InsertShape(t: Tree, v: int, r: Tree)
  {
    HeightBalanced(r) && r.Node? &&
    GetHeight(t) <= GetHeight(r) <= GetHeight(t) + 1 &&
    (t.Node? && GetHeight(r) == GetHeight(t) + 1 ==>
      v != t.data && r.data == t.data && GetBalance(r) == (if v < t.data then 1 else -1))
  }

  /** insert: a new leaf where the search for v falls off the tree, nothing
      when v is already there; every node on the way back up has its
      height recomputed and is rebalanced. The rotations it picks by key
      comparison are only safe on a height-balanced tree. */
  function Insert(t: Tree, v: int): (r: Tree)
    requires HeightBalanced(t)
    ensures InsertShape(t, v, r)
    decreases t
  {
    if t.Nil? then CreateNode(v)
    else if v < t.data then
      var l := Insert(t.left, v);
      InsertedLeft(t, v, l);
      InsertRebalance(UpdateHeight(t.(left := l)), v)
    else if v > t.data then
      var r := Insert(t.right, v);
      InsertedRight(t, v, r);
      InsertRebalance(UpdateHeight(t.(right := r)), v)
    else
      InsertedHere(t, v);
      InsertRebalance(UpdateHeight(t), v)
  }

  /** The step back up at a node whose left subtree took the insertion:
      the key comparison picks the rotation the balance factors would
      pick, and the node is left as InsertShape says. */
  lemma InsertedLeft(t: Tree, v: int, l: Tree)
    requires HeightBalanced(t) && t.Node? && v < t.data && InsertShape(t.left, v, l)
    ensures var n := UpdateHeight(t.(left := l));
      GetBalance(n) > 1 && v > n.left.data ==> n.left.right.Node?
    ensures var n := UpdateHeight(t.(left := l));
      InsertRebalance(n, v) == Rebalance(n) && InsertShape(t, v, Rebalance(n))
  {
    var n := UpdateHeight(t.(left := l));
    if GetBalance(n) == 2 {
      if v < t.left.data {
        RightRotateBalanced(n);
      } else {
        LRRotateBalanced(n);
      }
    }
  }

  /** The mirror image of InsertedLeft. */
  lemma InsertedRight(t: Tree, v: int, r: Tree)
    requires HeightBalanced(t) && t.Node? && v > t.data && InsertShape(t.right, v, r)
    ensures var n := UpdateHeight(t.(right := r));
      GetBalance(n) < -1 && v < n.right.data ==> n.right.left.Node?
    ensures var n := UpdateHeight(t.(right := r));
      InsertRebalance(n, v) == Rebalance(n) && InsertShape(t, v, Rebalance(n))
  {
    var n := UpdateHeight(t.(right := r));
    if GetBalance(n) == -2 {
      if v > t.right.data {
        LeftRotateBalanced(n);
      } else {
        RLRotateBalanced(n);
      }
    }
  }

  /** At the node holding v nothing changes: its height is already right
      and it is already balanced. */
  lemma InsertedHere(t: Tree, v: int)
    requires HeightBalanced(t) && t.Node? && v == t.data
    ensures UpdateHeight(t) == t && -1 <= GetBalance(t) <= 1
    ensures InsertRebalance(t, v) == t && Rebalance(t) == t
  {
  }

  /** After a single insertion the two ways of choosing a rotation agree:
      insert's comparison of the new key with the child's key does what
      delete's test of the child's balance factor would do. */
  lemma InsertChoiceAgrees(t: Tree, v: int)
    requires HeightBalanced(t) && t.Node?
    ensures v < t.data ==> Insert(t, v) == Rebalance(UpdateHeight(t.(left := Insert(t.left, v))))
    ensures v > t.data ==> Insert(t, v) == Rebalance(UpdateHeight(t.(right := Insert(t.right, v))))
    ensures v == t.data ==> Insert(t, v) == Rebalance(UpdateHeight(t))
  {
    if v < t.data {
      InsertedLeft(t, v, Insert(t.left, v));
    } else if v > t.data {
      InsertedRight(t, v, Insert(t.right, v));
    } else {
      InsertedHere(t, v);
    }
  }

  /** Inserting a key the AVL tree already holds gives back the same tree. */
  lemma {:induction false} InsertPresent(t: Tree, v: int)
    requires IsAvl(t) && v in Inorder(t)
    ensures Insert(t, v) == t
    decreases t
  {
    IncreasingParts(Inorder(t.left), t.data, Inorder(t.right));
    if v < t.data {
      InsertPresent(t.left, v);
      InsertedLeft(t, v, t.left);
    } else if v > t.data {
      InsertPresent(t.right, v);
      InsertedRight(t, v, t.right);
    } else {
      InsertedHere(t, v);
    }
  }

  /** The keys of an AVL tree after insert, read in order, are the old
      keys with v put in its sorted place, or unchanged when v was there. */
  lemma {:induction false} InsertInorder(t: Tree, v: int)
    requires IsAvl(t)
    ensures Inorder(Insert(t, v)) == InsertKey(Inorder(t), v)
    decreases t
  {
    if t.Nil? {
      assert InsertKey([], v) == [v];
    } else if v < t.data {
      IncreasingParts(Inorder(t.left), t.data, Inorder(t.right));
      InsertInorder(t.left, v);
      InsertedLeftInorder(t, v);
    } else if v > t.data {
      IncreasingParts(Inorder(t.left), t.data, Inorder(t.right));
      InsertInorder(t.right, v);
      InsertedRightInorder(t, v);
    } else {
      InsertPresent(t, v);
    }
  }

  /** One step of InsertInorder on the left. */
  lemma InsertedLeftInorder(t: Tree, v: int)
    requires HeightBalanced(t) && t.Node? && v < t.data
    requires Above(Inorder(t.right), t.data)
    requires Inorder(Insert(t.left, v)) == InsertKey(Inorder(t.left), v)
    ensures Inorder(Insert(t, v)) == InsertKey(Inorder(t), v)
  {
    var n := UpdateHeight(t.(left := Insert(t.left, v)));
    InsertedLeft(t, v, Insert(t.left, v));
    RebalanceInorder(n);
    InsertKeyLeft(Inorder(t.left), t.data, Inorder(t.right), v);
  }

  /** One step of InsertInorder on the right. */
  lemma InsertedRightInorder(t: Tree, v: int)
    requires HeightBalanced(t) && t.Node? && v > t.data
    requires Below(Inorder(t.left), t.data)
    requires Inorder(Insert(t.right, v)) == InsertKey(Inorder(t.right), v)
    ensures Inorder(Insert(t, v)) == InsertKey(Inorder(t), v)
  {
    var n := UpdateHeight(t.(right := Insert(t.right, v)));
    InsertedRight(t, v, Insert(t.right, v));
    RebalanceInorder(n);
    InsertKeyRight(Inorder(t.left), t.data, Inorder(t.right), v);
  }

  /** insert keeps an AVL tree an AVL tree, adds v to its keys and nothing
      else, and makes it at most one level taller. */
  lemma InsertIsAvl(t: Tree, v: int)
    requires IsAvl(t)
    ensures IsAvl(Insert(t, v))
    ensures forall x :: x in Inorder(Insert(t, v)) <==> x in Inorder(t) || x == v
    ensures Height(t) <= Height(Insert(t, v)) <= Height(t) + 1
  {
    InsertInorder(t, v);
    InsertKeyIncreasing(Inorder(t), v);
    StoredHeightIsHeight(t);
    StoredHeightIsHeight(Insert(t, v));
  }

  /** The node minValueNode stops at: the end of the chain of left links. */
  function Leftmost(t: Tree): (m: Tree)
    requires t.Node?
    ensures m.Node? && m.left.Nil?
    decreases t
  {
    if t.left.Nil? then t else Leftmost(t.left)
  }

  /** The leftmost node holds the first key in order, which in an ordered
      tree is its smallest key. */
  lemma {:induction false} LeftmostFirst(t: Tree)
    requires t.Node?
    ensures Inorder(t) != [] && Leftmost(t).data == Inorder(t)[0]
    decreases t
  {
    if t.left.Node? {
      LeftmostFirst(t.left);
    }
  }

  /** In an ordered tree no key is smaller than the leftmost node's. */
  lemma LeftmostIsMinimum(t: Tree)
    requires t.Node? && Ordered(t)
    ensures forall x :: x in Inorder(t) ==> Leftmost(t).data <= x
  {
    LeftmostFirst(t);
  }

  /** minValueNode: follows left links from a non-NULL node until there is
      none. */
  method MinValueNode(node: Tree) returns (current: Tree)
    requires node.Node?
    ensures current == Leftmost(node)
  {
    current := node;
    while current.left.Node?
      invariant current.Node? && Leftmost(current) == Leftmost(node)
      decreases current
    {
      current := current.left;
    }
  }

  /** delete: removes the node holding v if there is one. A node with at
      most one child is replaced by that child; a node with two children
      takes the smallest key of its right subtree, which is then deleted
      from there. Every node on the way back up has its height recomputed
      and is rebalanced, whether or not v was found. */
  function Delete(t: Tree, v: int): Tree
    decreases t
  {
    if t.Nil? then t
    else if v < t.data then
      Rebalance(UpdateHeight(t.(left := Delete(t.left, v))))
    else if v > t.data then
      Rebalance(UpdateHeight(t.(right := Delete(t.right, v))))
    else if t.left.Nil? then t.right
    else if t.right.Nil? then t.left
    else
      var m := Leftmost(t.right).data;
      Rebalance(UpdateHeight(Node(m, t.height, t.left, Delete(t.right, m))))
  }

  /** The keys of an ordered tree after delete, read in order, are the old
      ones with v taken out (the same when v is absent). */
  lemma {:induction false} DeleteInorder(t: Tree, v: int)
    requires Ordered(t)
    ensures Inorder(Delete(t, v)) == RemoveFirst(Inorder(t), v)
    decreases t
  {
    if t.Node? {
      var a, d, b := Inorder(t.left), t.data, Inorder(t.right);
      IncreasingParts(a, d, b);
      if v < d {
        DeleteInorder(t.left, v);
        DeletedLeftInorder(t, v);
      } else if v > d {
        DeleteInorder(t.right, v);
        DeletedRightInorder(t, v);
      } else if t.left.Nil? || t.right.Nil? {
        RemoveFirstMiddle(a, d, b);
      } else {
        DeleteInorder(t.right, Leftmost(t.right).data);
        DeletedSuccessorInorder(t);
      }
    }
  }

  /** One step of DeleteInorder on the left. */
  lemma DeletedLeftInorder(t: Tree, v: int)
    requires t.Node? && v < t.data && Above(Inorder(t.right), t.data)
    requires Inorder(Delete(t.left, v)) == RemoveFirst(Inorder(t.left), v)
    ensures Inorder(Delete(t, v)) == RemoveFirst(Inorder(t), v)
  {
    RebalanceInorder(UpdateHeight(t.(left := Delete(t.left, v))));
    RemoveFirstLeft(Inorder(t.left), t.data, Inorder(t.right), v);
  }

  /** One step of DeleteInorder on the right. */
  lemma DeletedRightInorder(t: Tree, v: int)
    requires t.Node? && v > t.data && Below(Inorder(t.left), t.data)
    requires Inorder(Delete(t.right, v)) == RemoveFirst(Inorder(t.right), v)
    ensures Inorder(Delete(t, v)) == RemoveFirst(Inorder(t), v)
  {
    RebalanceInorder(UpdateHeight(t.(right := Delete(t.right, v))));
    RemoveFirstRight(Inorder(t.left), t.data, Inorder(t.right), v);
  }

  /** The two-children case of DeleteInorder: the smallest key of the right
      subtree replaces the deleted one. */
  lemma DeletedSuccessorInorder(t: Tree)
    requires Ordered(t) && t.Node? && t.left.Node? && t.right.Node?
    requires var m := Leftmost(t.right).data;
      Inorder(Delete(t.right, m)) == RemoveFirst(Inorder(t.right), m)
    ensures Inorder(Delete(t, t.data)) == RemoveFirst(Inorder(t), t.data)
  {
    var a, d, b := Inorder(t.left), t.data, Inorder(t.right);
    IncreasingParts(a, d, b);
    var m := Leftmost(t.right).data;
    var n := UpdateHeight(Node(m, t.height, t.left, Delete(t.right, m)));
    assert Delete(t, t.data) == Rebalance(n);
    LeftmostFirst(t.right);
    RemoveFirstHead(b);
    RebalanceInorder(n);
    assert Inorder(n) == a + [m] + b[1..];
    SplitHead(a, b);
    RemoveFirstMiddle(a, d, b);
  }

  /** The step back up at a node whose left subtree was replaced by one at
      most one level lower: rebalancing leaves the node balanced and at
      most one level lower. */
  lemma DeletedLeft(t: Tree, l: Tree)
    requires HeightBalanced(t) && t.Node? && HeightBalanced(l)
    requires GetHeight(t.left) - 1 <= GetHeight(l) <= GetHeight(t.left)
    ensures HeightBalanced(Rebalance(UpdateHeight(t.(left := l))))
    ensures GetHeight(t) - 1 <= GetHeight(Rebalance(UpdateHeight(t.(left := l)))) <= GetHeight(t)
  {
    RebalanceBalanced(UpdateHeight(t.(left := l)));
  }

  /** The mirror image of DeletedLeft. */
  lemma DeletedRight(t: Tree, r: Tree)
    requires HeightBalanced(t) && t.Node? && HeightBalanced(r)
    requires GetHeight(t.right) - 1 <= GetHeight(r) <= GetHeight(t.right)
    ensures HeightBalanced(Rebalance(UpdateHeight(t.(right := r))))
    ensures GetHeight(t) - 1 <= GetHeight(Rebalance(UpdateHeight(t.(right := r)))) <= GetHeight(t)
  {
    RebalanceBalanced(UpdateHeight(t.(right := r)));
  }

  /** delete keeps a height-balanced tree height-balanced and lowers it by
      at most one level. */
  lemma {:induction false} DeleteBalanced(t: Tree, v: int)
    requires HeightBalanced(t)
    ensures HeightBalanced(Delete(t, v))
    ensures GetHeight(t) - 1 <= GetHeight(Delete(t, v)) <= GetHeight(t)
    decreases t
  {
    if t.Nil? {
    } else if v < t.data {
      DeleteBalanced(t.left, v);
      DeletedLeft(t, Delete(t.left, v));
    } else if v > t.data {
      DeleteBalanced(t.right, v);
      DeletedRight(t, Delete(t.right, v));
    } else if t.left.Nil? || t.right.Nil? {
    } else {
      var m := Leftmost(t.right).data;
      DeleteBalanced(t.right, m);
      DeletedRight(t.(data := m), Delete(t.right, m));
      assert Delete(t, v) == Rebalance(UpdateHeight(t.(data := m).(right := Delete(t.right, m))));
    }
  }

  /** Deleting a key a height-balanced tree does not hold gives back the
      same tree: every node on the path is already up to date and
      balanced. */
  lemma {:induction false} DeleteAbsent(t: Tree, v: int)
    requires HeightBalanced(t) && v !in Inorder(t)
    ensures Delete(t, v) == t
    decreases t
  {
    if t.Node? {
      assert v != t.data;
      if v < t.data {
        DeleteAbsent(t.left, v);
        assert t.(left := t.left) == t;
      } else {
        DeleteAbsent(t.right, v);
        assert t.(right := t.right) == t;
      }
    }
  }

  /** delete keeps an AVL tree an AVL tree, takes v out of its keys and
      nothing else, and lowers it by at most one level. */
  lemma DeleteIsAvl(t: Tree, v: int)
    requires IsAvl(t)
    ensures IsAvl(Delete(t, v))
    ensures forall x :: x in Inorder(Delete(t, v)) <==> x in Inorder(t) && x != v
    ensures Height(t) - 1 <= Height(Delete(t, v)) <= Height(t)
  {
    DeleteInorder(t, v);
    RemoveFirstIncreasing(Inorder(t), v);
    DeleteBalanced(t, v);
    StoredHeightIsHeight(t);
    StoredHeightIsHeight(Delete(t, v));
  }

  /** Inserting a key an AVL tree does not hold and then deleting it
      gives back the same keys in order. */
  lemma InsertDeleteRoundTrip(t: Tree, v: int)
    requires IsAvl(t) && v !in Inorder(t)
    ensures Inorder(Delete(Insert(t, v), v)) == Inorder(t)
  {
    InsertInorder(t, v);
    InsertKeyIncreasing(Inorder(t), v);
    DeleteInorder(Insert(t, v), v);
    RemoveFirstInsertKey(Inorder(t), v);
  }

  /** The number of nodes of a tree. */
  function Size(t: Tree): nat
  {
    match t
    case Nil => 0
    case Node(_, _, l, r) => Size(l) + 1 + Size(r)
  }

  /** The fewest nodes a height-balanced tree of height h can have: a root
      over one subtree of height h - 1 and one of height h - 2 (one less
      than the Fibonacci number F(h + 2)). */
  function MinNodes(h: nat): nat
  {
    if h == 0 then 0 else if h == 1 then 1 else MinNodes(h - 1) + MinNodes(h - 2) + 1
  }

  lemma {:induction false} MinNodesMonotone(a: nat, b: nat)
    requires a <= b
    ensures MinNodes(a) <= MinNodes(b)
    decreases b
  {
    if a < b {
      MinNodesMonotone(a, b - 1);
    }
  }

  /** A height-balanced tree of height h has at least MinNodes(h) nodes. */
  lemma {:induction false} BalancedSizeBound(t: Tree)
    requires HeightBalanced(t)
    ensures Size(t) >= MinNodes(Height(t))
    decreases t
  {
    if t.Node? {
      BalancedSizeBound(t.left);
      BalancedSizeBound(t.right);
      StoredHeightIsHeight(t.left);
      StoredHeightIsHeight(t.right);
      MinNodesStep(Height(t.left), Height(t.right));
    }
  }

  /** Two subtrees whose heights differ by at most one hold at least
      MinNodes of the height of a root over them, less the root. */
  lemma MinNodesStep(a: nat, b: nat)
    requires -1 <= a - b <= 1
    ensures MinNodes(a) + 1 + MinNodes(b) >= MinNodes(1 + Max(a, b))
  {
    var h := 1 + Max(a, b);
    if h >= 2 {
      if a >= b {
        MinNodesMonotone(h - 2, b);
      } else {
        MinNodesMonotone(h - 2, a);
      }
    }
  }

  /** MinNodes(h) + 1 at least doubles every two levels. */
  lemma {:induction false} MinNodesExponential(h: nat)
    ensures MinNodes(h) + 1 >= Pow2(h / 2)
  {
    if h >= 2 {
      MinNodesExponential(h - 2);
      MinNodesMonotone(h - 2, h - 1);
      assert (h - 2) / 2 == h / 2 - 1;
    }
  }

  /** So the height of an AVL tree is logarithmic in its size: a tree of
      height h holds at least 2^(h/2) - 1 nodes. */
  lemma BalancedHeightLogarithmic(t: Tree)
    requires HeightBalanced(t)
    ensures Size(t) + 1 >= Pow2(Height(t) / 2)
  {
    BalancedSizeBound(t);
    MinNodesExponential(Height(t));
  }

  /** Three ascending keys a < b < c inserted in that order unbalance the
      root to the right, and one left rotation makes b the root of a tree
      of height 2. */
  lemma InsertAscending(a: int, b: int, c: int)
    requires a < b < c
    ensures Insert(Insert(Insert(Nil, a), b), c) == Node(b, 2, CreateNode(a), CreateNode(c))
  {
    var t2 := Node(a, 2, Nil, CreateNode(b));
    InsertChoiceAgrees(CreateNode(a), b);
    assert Rebalance(t2) == t2;
    var r := Node(b, 2, Nil, CreateNode(c));
    InsertChoiceAgrees(CreateNode(b), c);
    assert Rebalance(r) == r;
    InsertChoiceAgrees(t2, c);
  }

  /** Deleting the root b of that tree moves its successor c up; the root
      then leans left by one and needs no rotation. */
  lemma DeleteRootOfThree(a: int, b: int, c: int)
    requires a < b < c
    ensures Delete(Node(b, 2, CreateNode(a), CreateNode(c)), b) == Node(c, 2, CreateNode(a), Nil)
  {
    assert Delete(CreateNode(c), c) == Nil;
  }
}
