# C data structures: AVL tree, binary search tree, linked lists

A Dafny model of a collection of small C data structures:

- an AVL tree (`Tree/AVL/AVL_Tree.c`): stored heights, balance factors,
  four rotations, insert and delete that rebalance every ancestor;
- a plain binary search tree (`Tree/BST/BinarySearchTree.c`): insert with
  duplicates sent left, search, height, node count, minimum, delete with
  its three cases, the depth-first traversals, and breadth-first traversal
  over a small array-backed FIFO queue;
- four linked lists of ints (`Linked-List/`): singly linked, doubly linked,
  singly circular and doubly circular.

The files:

- `sequences.dfy` (module `Sequences`): the sequence operations the
  structures are specified by (insert at, remove at, first index,
  remove the first occurrence, sorted insertion point, reversal) and the
  facts about them that the tree proofs split their work into.
- `avl_tree.dfy` (module `AvlTree`): the AVL tree as a datatype with a
  stored height per node. Insert and delete are functions. The walk of
  `minValueNode` is a loop method.
- `binary_search_tree.dfy` (module `BinarySearchTree`): the BST as a
  datatype. `findMin` and `breadthFirstTraversal` are loop methods. The
  queue is a class over an array.
- `singly_linked_list.dfy`, `doubly_linked_list.dfy`,
  `singly_circular_linked_list.dfy`, `doubly_circular_linked_list.dfy`:
  each list is a class of heap nodes. A list class stands for the C head
  pointer (or the global `head`). It carries a ghost sequence of its nodes,
  the sequence of their values (`Contents`) and a footprint `Repr`. Its
  `Valid()` ties every `next`/`prev` link to positions in that sequence:
  `next.prev == node`, `head.prev == NULL`, the last node's `next` is
  head, and head's `prev` is the last node. Each operation relinks the
  nodes in place and is proved to change `Contents` exactly as the
  matching sequence operation would.

The AVL properties proved:

- **Ordering.** Rotations keep the in-order key sequence.
- **Insert.** Insertion puts the key in its sorted place, or changes
  nothing when the key is already present.
- **Delete.** Deletion removes exactly that key, or changes nothing when
  it is absent.
- **Balance.** Insert and delete keep every stored height equal to the
  real height and every balance factor within one.
- **Height change.** Insert raises the tree by at most one level. Delete
  lowers it by at most one level.
- **Rotation choice.** Insert picks its rotation by comparing the new key
  with the child's key; delete picks it by the child's balance factor.
  After one insertion the two rules choose the same rotation.
- **Round trip.** Inserting a new key and then deleting it gives back the
  same keys.
- **Size.** A height-balanced tree of height h has at least
  F(h + 2) - 1 nodes, where F is the Fibonacci sequence. Hence it has at
  least 2^(h/2) - 1 nodes.

## Model

| member | source | states |
|---|---|---|
| AvlTree.StoredHeightIsHeight | Tree/AVL/AVL_Tree.c:31-36 | in a height-balanced tree getHeight (0 for NULL, else the stored field) is the real height |
| AvlTree.CreateNode | Tree/AVL/AVL_Tree.c:14-29 | a new node is a leaf of height 1, a valid AVL tree whose only key is the value |
| AvlTree.RightRotate | Tree/AVL/AVL_Tree.c:45-66 | the former left child becomes the root with the old root as its right child, and both touched nodes' heights are recomputed |
| AvlTree.LeftRotate | Tree/AVL/AVL_Tree.c:73-91 | the mirror image: the former right child is the root, the old root its left child, both heights recomputed |
| AvlTree.LRRotate | Tree/AVL/AVL_Tree.c:93-97 | a left rotation of the left child then a right rotation of the node; the left child's right child ends at the root |
| AvlTree.RLRotate | Tree/AVL/AVL_Tree.c:99-103 | a right rotation of the right child then a left rotation of the node; the right child's left child ends at the root |
| AvlTree.RightRotateInorder | Tree/AVL/AVL_Tree.c:45-66 | a right rotation keeps the in-order key sequence |
| AvlTree.LeftRotateInorder | Tree/AVL/AVL_Tree.c:73-91 | a left rotation keeps the in-order key sequence |
| AvlTree.DoubleRotateInorder | Tree/AVL/AVL_Tree.c:93-103 | both double rotations keep the in-order key sequence |
| AvlTree.RightRotateBalanced | Tree/AVL/AVL_Tree.c:45-66 | on a node whose left side is two taller and leans left or neither way, a right rotation gives a height-balanced tree of the stated height |
| AvlTree.LeftRotateBalanced | Tree/AVL/AVL_Tree.c:73-91 | the mirror image for a right side two taller that leans right or neither way |
| AvlTree.LRRotateBalanced | Tree/AVL/AVL_Tree.c:93-97 | on a node whose left side is two taller and leans right, LR_Rotate gives a height-balanced tree as tall as the right side plus two |
| AvlTree.RLRotateBalanced | Tree/AVL/AVL_Tree.c:99-103 | the mirror image for a right side two taller that leans left |
| AvlTree.RebalanceInorder | Tree/AVL/AVL_Tree.c:196-214 | delete's rebalancing step keeps the in-order key sequence |
| AvlTree.RebalanceBalanced | Tree/AVL/AVL_Tree.c:193-214 | with balanced children, a recomputed height and a balance factor within two, the step leaves a balanced node alone and always yields a balanced tree as tall as the taller child or one more |
| AvlTree.Insert | Tree/AVL/AVL_Tree.c:104-141 | on a height-balanced tree the result is height-balanced, not NULL and at most one level taller; if it grew, the root was not rotated, the key was new and the root leans toward the side it went to |
| AvlTree.InsertedLeft | Tree/AVL/AVL_Tree.c:119-140 | after inserting on the left, the key comparison picks the same rotation as the balance-factor test, the double rotation's grandchild exists, and the node ends as Insert states |
| AvlTree.InsertedRight | Tree/AVL/AVL_Tree.c:119-140 | the mirror image for an insertion on the right |
| AvlTree.InsertedHere | Tree/AVL/AVL_Tree.c:104-117 | at a node already holding the key, recomputing the height and rebalancing change nothing |
| AvlTree.InsertChoiceAgrees | Tree/AVL/AVL_Tree.c:121-138 | after a single insertion into a height-balanced tree, insert's key-comparison rule gives the same tree as delete's balance-factor rule at every node |
| AvlTree.InsertPresent | Tree/AVL/AVL_Tree.c:108-117 | inserting a key an AVL tree already holds returns the same tree |
| AvlTree.InsertInorder | Tree/AVL/AVL_Tree.c:104-141 | the in-order keys after insert are the old keys with the new key in its sorted place, unchanged when the key was present |
| AvlTree.InsertedLeftInorder | Tree/AVL/AVL_Tree.c:112-113 | one step of InsertInorder: an insertion below on the left lands in sorted place in the whole tree |
| AvlTree.InsertedRightInorder | Tree/AVL/AVL_Tree.c:116-117 | the mirror image on the right |
| AvlTree.InsertIsAvl | Tree/AVL/AVL_Tree.c:104-141 | insert keeps an AVL tree valid, adds exactly the key to its key set and raises the real height by at most one |
| AvlTree.Leftmost | Tree/AVL/AVL_Tree.c:143-152 | the node minValueNode stops at is non-NULL and has no left child |
| AvlTree.LeftmostFirst | Tree/AVL/AVL_Tree.c:143-152 | the leftmost node holds the first in-order key |
| AvlTree.LeftmostIsMinimum | Tree/AVL/AVL_Tree.c:143-152 | in an ordered tree no key is smaller than the leftmost node's |
| AvlTree.MinValueNode | Tree/AVL/AVL_Tree.c:143-152 | the loop following left links from a non-NULL node returns the leftmost node |
| AvlTree.DeleteInorder | Tree/AVL/AVL_Tree.c:154-215 | the in-order keys after delete are the old keys with the key removed, unchanged when it was absent |
| AvlTree.DeletedLeftInorder | Tree/AVL/AVL_Tree.c:161-162 | one step of DeleteInorder: a removal below on the left removes the key from the whole tree's in-order keys |
| AvlTree.DeletedRightInorder | Tree/AVL/AVL_Tree.c:164-165 | the mirror image on the right |
| AvlTree.DeletedSuccessorInorder | Tree/AVL/AVL_Tree.c:185-190 | with two children, copying the right subtree's minimum into the node and deleting it from the right removes exactly the node's key |
| AvlTree.DeletedLeft | Tree/AVL/AVL_Tree.c:193-214 | after the left subtree loses at most one level, height update and rebalancing leave the node balanced and at most one level lower |
| AvlTree.DeletedRight | Tree/AVL/AVL_Tree.c:193-214 | the mirror image on the right |
| AvlTree.DeleteBalanced | Tree/AVL/AVL_Tree.c:154-215 | delete keeps a height-balanced tree height-balanced and lowers it by at most one level |
| AvlTree.DeleteAbsent | Tree/AVL/AVL_Tree.c:154-165 | deleting a key a height-balanced tree does not hold returns the same tree |
| AvlTree.DeleteIsAvl | Tree/AVL/AVL_Tree.c:154-215 | delete keeps an AVL tree valid, removes exactly the key from its key set and lowers the real height by at most one |
| AvlTree.InsertDeleteRoundTrip | Tree/AVL/AVL_Tree.c:104-215 | inserting a key an AVL tree does not hold and then deleting it gives back the same in-order keys |
| AvlTree.BalancedSizeBound | Tree/AVL/AVL_Tree.c:119-140 | a tree kept height-balanced, as insert and delete keep it, of height h has at least MinNodes(h) nodes, the Fibonacci-like minimum |
| AvlTree.MinNodesStep | Tree/AVL/AVL_Tree.c:119-140 | subtrees whose heights differ by at most one hold at least the minimum for the root's height, less the root |
| AvlTree.BalancedHeightLogarithmic | Tree/AVL/AVL_Tree.c:119-140 | a height-balanced tree of height h holds at least 2^(h/2) - 1 nodes, so its height is logarithmic in its size |
| AvlTree.InsertAscending | Tree/AVL/AVL_Tree.c:133-134 | three ascending keys inserted in order trigger one left rotation, giving the middle key as the root of a tree of height 2 |
| AvlTree.DeleteRootOfThree | Tree/AVL/AVL_Tree.c:185-190 | deleting the root of that tree moves its successor up with no rotation |
| BinarySearchTree.BoundsHoldOfEveryKey | Tree/BST/BinarySearchTree.c:167-184 | the recursive bound predicates hold exactly of every key of the subtree |
| BinarySearchTree.BoundsLoosen | Tree/BST/BinarySearchTree.c:167-184 | bounds weaken monotonically, and a strict lower bound implies the non-strict one |
| BinarySearchTree.OrderedIsWeaklyOrdered | Tree/BST/BinarySearchTree.c:167-184 | the insert order (left keys at most the node, right keys above it) implies the weak order left at most node at most right |
| BinarySearchTree.CountIsSize | Tree/BST/BinarySearchTree.c:228-239 | countNodes is the number of keys, with multiplicity |
| BinarySearchTree.Height | Tree/BST/BinarySearchTree.c:213-226 | height is at least 1 for a non-empty tree |
| BinarySearchTree.HeightAtMostCount | Tree/BST/BinarySearchTree.c:213-239 | height never exceeds the node count |
| BinarySearchTree.CountBelowPow2 | Tree/BST/BinarySearchTree.c:213-239 | a tree of height h has fewer than 2^h nodes |
| BinarySearchTree.InsertElems | Tree/BST/BinarySearchTree.c:167-184 | insert adds exactly one copy of the value and raises the count by one |
| BinarySearchTree.InsertKeepsBounds | Tree/BST/BinarySearchTree.c:167-184 | insert keeps every bound the value itself respects |
| BinarySearchTree.InsertOrdered | Tree/BST/BinarySearchTree.c:167-184 | insert keeps the order left at most node, right above node (duplicates go left) |
| BinarySearchTree.InsertWeaklyOrdered | Tree/BST/BinarySearchTree.c:167-184 | insert keeps the weak order |
| BinarySearchTree.Search | Tree/BST/BinarySearchTree.c:186-206 | a returned node holds the value and lies inside the tree; on a weakly ordered tree a node is returned iff the value occurs |
| BinarySearchTree.Leftmost | Tree/BST/BinarySearchTree.c:241-251 | the leftmost node is in the tree, has no left child and, in a weakly ordered tree, bounds every key from below |
| BinarySearchTree.LeftmostIsMinimum | Tree/BST/BinarySearchTree.c:241-251 | the leftmost key of a weakly ordered tree is its minimum |
| BinarySearchTree.FindMin | Tree/BST/BinarySearchTree.c:241-251 | the loop returns NULL on an empty tree, else the leftmost node |
| BinarySearchTree.DeleteNode | Tree/BST/BinarySearchTree.c:254-305 | deleting an absent key returns the tree unchanged, and the count never grows |
| BinarySearchTree.DeleteNodeElems | Tree/BST/BinarySearchTree.c:254-305 | on a weakly ordered tree delete removes exactly one copy of the key |
| BinarySearchTree.DeleteInLeftElems | Tree/BST/BinarySearchTree.c:261-264 | one step of DeleteNodeElems: a removal in the left subtree removes one copy from the whole tree |
| BinarySearchTree.DeleteInRightElems | Tree/BST/BinarySearchTree.c:265-268 | the mirror image on the right |
| BinarySearchTree.DeleteAtRootElems | Tree/BST/BinarySearchTree.c:292-301 | with two children, copying the right subtree's minimum and deleting it from the right removes one copy of the node's key |
| BinarySearchTree.DeleteKeepsBounds | Tree/BST/BinarySearchTree.c:254-305 | delete keeps every upper and lower bound of the tree |
| BinarySearchTree.DeleteNodeOrdered | Tree/BST/BinarySearchTree.c:254-305 | delete keeps the weak order |
| BinarySearchTree.DeleteNodeCount | Tree/BST/BinarySearchTree.c:254-305 | deleting a present key lowers the count by exactly one |
| BinarySearchTree.InorderVisitsAll | Tree/BST/BinarySearchTree.c:90-99 | the in-order traversal visits every key exactly as often as it occurs |
| BinarySearchTree.PreorderVisitsAll | Tree/BST/BinarySearchTree.c:101-110 | the pre-order traversal visits every key exactly as often as it occurs |
| BinarySearchTree.PostorderVisitsAll | Tree/BST/BinarySearchTree.c:112-121 | the post-order traversal visits every key exactly as often as it occurs |
| BinarySearchTree.InorderWithinBounds | Tree/BST/BinarySearchTree.c:90-99 | every key of the in-order sequence respects the tree's bounds |
| BinarySearchTree.InorderSorted | Tree/BST/BinarySearchTree.c:90-99 | the in-order traversal of a weakly ordered tree is non-decreasing |
| BinarySearchTree.BuildFromElems | Tree/BST/BinarySearchTree.c:167-184 | a tree built by repeated insert holds exactly the inserted keys |
| BinarySearchTree.BuildFromOrdered | Tree/BST/BinarySearchTree.c:167-184 | a tree built by repeated insert is ordered |
| BinarySearchTree.BuildFromSorted | Tree/BST/BinarySearchTree.c:90-99 | the in-order traversal of a tree built by insert is the inserted keys sorted |
| BinarySearchTree.DemoShape | Tree/BST/BinarySearchTree.c:333-366 | inserting 20, 10, 30, 5, 25, 35 gives the expected shape, height 3, count 6 and in-order 5 10 20 25 30 35 |
| BinarySearchTree.DemoSearch | Tree/BST/BinarySearchTree.c:348-359 | in that tree search finds 25 and not 100 |
| BinarySearchTree.DemoDeletes | Tree/BST/BinarySearchTree.c:369-405 | deleting 5, 10 and 30 leaves in-order 20 25 35 |
| BinarySearchTree.DemoDeleteLeaves | Tree/BST/BinarySearchTree.c:385-397 | deleting the leaf 5 and then 10 detaches both |
| BinarySearchTree.DemoDeleteTwoChildren | Tree/BST/BinarySearchTree.c:399-404 | deleting 30 with two children copies 35 up and removes it below |
| BinarySearchTree.DeleteBreaksStrictOrder | Tree/BST/BinarySearchTree.c:254-305 | with a duplicate key, deleting a two-children node can break the strict right-above order while the weak order holds |
| BinarySearchTree.Queue.constructor | Tree/BST/BinarySearchTree.c:21-42 | createQueue: an empty queue with front 0, rear -1 and the given capacity |
| BinarySearchTree.Queue.IsEmpty | Tree/BST/BinarySearchTree.c:45-48 | true exactly when rear < front, that is when the queue holds nothing |
| BinarySearchTree.Queue.Enqueue | Tree/BST/BinarySearchTree.c:51-55 | with room below capacity, the node joins the back; front is unchanged |
| BinarySearchTree.Queue.Dequeue | Tree/BST/BinarySearchTree.c:58-63 | a non-empty queue gives up its front node; front grows by one and rear is unchanged |
| BinarySearchTree.EnqueueChildren | Tree/BST/BinarySearchTree.c:138-141 | the node's non-NULL children join the back of the queue, left before right |
| BinarySearchTree.WeightAppend | Tree/BST/BinarySearchTree.c:123-144 | the node count of a queue of subtrees adds up over concatenation |
| BinarySearchTree.KidsWeight | Tree/BST/BinarySearchTree.c:138-141 | a node's children hold one node fewer than the node's subtree |
| BinarySearchTree.ChildrenWeight | Tree/BST/BinarySearchTree.c:123-144 | the next level holds the nodes of this level minus its roots |
| BinarySearchTree.BfsSplit | Tree/BST/BinarySearchTree.c:123-144 | the queue order of a front level followed by a rest is the level's roots, then the queue order of the rest followed by the level's children |
| BinarySearchTree.BfsIsLevels | Tree/BST/BinarySearchTree.c:123-144 | processing a queue of subtrees one at a time yields their keys level by level |
| BinarySearchTree.LevelOrderIsLevels | Tree/BST/BinarySearchTree.c:123-144 | the level order of a tree is the level-by-level order of its root |
| BinarySearchTree.ElemsOfAppend | Tree/BST/BinarySearchTree.c:123-144 | the keys of a queue of subtrees add up over concatenation |
| BinarySearchTree.BfsVisitsAll | Tree/BST/BinarySearchTree.c:123-144 | the queue order visits every key of every queued subtree exactly as often as it occurs |
| BinarySearchTree.LevelOrderVisitsAll | Tree/BST/BinarySearchTree.c:123-144 | breadth-first order visits every key of the tree exactly as often as it occurs |
| BinarySearchTree.BfsStep | Tree/BST/BinarySearchTree.c:134-141 | one iteration: the front node's key comes first, then the queue order of the rest followed by its children |
| BinarySearchTree.BreadthFirstTraversal | Tree/BST/BinarySearchTree.c:123-144 | with a queue large enough for every node, the loop emits exactly the tree's level order; an empty tree emits nothing |
| BinarySearchTree.DemoBreadthFirst | Tree/BST/BinarySearchTree.c:307-329 | the demo tree's breadth-first order is 20 10 30 5 25 35 |
| SinglyLinkedList.Node.constructor | Linked-List/singly_linked_list.c:30-40 | CreateNode: a node with the value and a NULL Next |
| SinglyLinkedList.List.InsertAtBeginning | Linked-List/singly_linked_list.c:74-84 | the list becomes the value followed by the old list |
| SinglyLinkedList.List.InsertAtEnd | Linked-List/singly_linked_list.c:96-117 | the list becomes the old list followed by the value, also when empty |
| SinglyLinkedList.List.InsertAtPosition | Linked-List/singly_linked_list.c:130-159 | position p up to the length inserts the value at index p; beyond length+1 the list is unchanged; a negative position on a non-empty list inserts at index 1 |
| SinglyLinkedList.List.InsertSorted | Linked-List/singly_linked_list.c:174-200 | the value goes in before the first element not smaller than it |
| SinglyLinkedList.InsertionPointIsFirst | Linked-List/singly_linked_list.c:174-200 | the insertion point is the first index whose element is not smaller than the value |
| SinglyLinkedList.List.DeleteFromBeginning | Linked-List/singly_linked_list.c:213-228 | returns and removes the first element; -1 and no change on an empty list |
| SinglyLinkedList.List.DeleteFromEnd | Linked-List/singly_linked_list.c:241-272 | returns and removes the last element; -1 and no change on an empty list |
| SinglyLinkedList.List.DeleteByValue | Linked-List/singly_linked_list.c:283-316 | removes only the first occurrence and returns the value; -1 and no change when absent |
| SinglyLinkedList.List.DeleteAtPosition | Linked-List/singly_linked_list.c:327-371 | a position inside the list returns and removes that element; past the end or on an empty list -1 and no change; a negative position removes the second element, or gives -1 when there is none |
| SinglyLinkedList.List.Search | Linked-List/singly_linked_list.c:382-398 | the index of the first occurrence, -1 when absent |
| SinglyLinkedList.List.GetLength | Linked-List/singly_linked_list.c:408-419 | the number of elements |
| SinglyLinkedList.List.GetElementAt | Linked-List/singly_linked_list.c:430-455 | the element at the position, -1 past the end or on an empty list; a negative position gives the head's value |
| SinglyLinkedList.List.GetMiddle | Linked-List/singly_linked_list.c:475-500 | the element at index length/2 (the second middle for even lengths), -1 on an empty list |
| SinglyLinkedList.List.ReverseList | Linked-List/singly_linked_list.c:520-540 | the list becomes its reverse, over the same nodes |
| DoublyLinkedList.DNode.constructor | Linked-List/doubly_linked_list.c:26-38 | CreateNode: a node with the value and NULL prev and next |
| DoublyLinkedList.DList.InsertAtBeginning | Linked-List/doubly_linked_list.c:90-105 | the list becomes the value followed by the old list; the link invariant holds |
| DoublyLinkedList.DList.InsertAtEnd | Linked-List/doubly_linked_list.c:117-138 | the list becomes the old list followed by the value; the link invariant holds |
| DoublyLinkedList.DList.DeleteFromBeginning | Linked-List/doubly_linked_list.c:148-171 | returns and removes the first element, the new head's prev is NULL; -1 on an empty list |
| DoublyLinkedList.DList.DeleteFromEnd | Linked-List/doubly_linked_list.c:182-210 | given the true tail, returns and removes the last element and returns the new tail; -1 on an empty list |
| DoublyLinkedList.DList.DeleteByValue | Linked-List/doubly_linked_list.c:221-268 | removes the first occurrence and returns the value; -1 and no change when absent or empty |
| DoublyLinkedList.DList.InsertAtPosition | Linked-List/doubly_linked_list.c:281-324 | a position up to the length inserts the value at that index; beyond it the list is unchanged |
| DoublyLinkedList.DList.Reverse | Linked-List/doubly_linked_list.c:338-364 | the list becomes its reverse with the link invariant intact; an empty or one-node list keeps its head |
| DoublyLinkedList.DList.GetLength | Linked-List/doubly_linked_list.c:374-384 | the number of nodes |
| DoublyLinkedList.DList.FindTail | Linked-List/doubly_linked_list.c:436-440 | the walk along next stops at the last node, NULL for an empty list |
| SinglyCircularLinkedList.CNode.constructor | Linked-List/singly_circular_linked_list.c:61-71 | a node with the value and the given next |
| SinglyCircularLinkedList.CList.CreateNode | Linked-List/singly_circular_linked_list.c:61-71 | a fresh node whose next is the current head |
| SinglyCircularLinkedList.CList.FindTail | Linked-List/singly_circular_linked_list.c:108-117 | the walk from head stops at the last node of the cycle |
| SinglyCircularLinkedList.CList.InsertAtBeginning | Linked-List/singly_circular_linked_list.c:95-129 | the value becomes the new head in front of the old list, the tail relinked to it; a self-loop when empty |
| SinglyCircularLinkedList.CList.InsertAtEnd | Linked-List/singly_circular_linked_list.c:152-181 | the list becomes the old list followed by the value, head unchanged, and the returned node is the fresh last cell |
| SinglyCircularLinkedList.CList.DeleteFromBeginning | Linked-List/singly_circular_linked_list.c:203-246 | returns and removes the first element, the tail relinked to the new head; -1 and no change when empty |
| SinglyCircularLinkedList.CList.DeleteFromEnd | Linked-List/singly_circular_linked_list.c:267-309 | returns and removes the last element, the second-to-last node now pointing to head; -1 when empty |
| SinglyCircularLinkedList.CList.GetLength | Linked-List/singly_circular_linked_list.c:354-375 | 0 when empty, else the number of nodes on the cycle |
| SinglyCircularLinkedList.DemoScenario | Linked-List/singly_circular_linked_list.c:391-445 | the demo's length 5, deletions returning 5 and 40, then length 3 |
| DoublyCircularLinkedList.DCNode.constructor | Linked-List/doubly_circular_linked_list.c:60-71 | a node with the value and NULL links |
| DoublyCircularLinkedList.DCList.InsertAtBeginning | Linked-List/doubly_circular_linked_list.c:90-120 | the value becomes the new head between the last node and the old head; self-linked both ways when empty |
| DoublyCircularLinkedList.DCList.InsertAtEnd | Linked-List/doubly_circular_linked_list.c:139-168 | the list becomes the old list followed by the value, head unchanged, and the returned node is the fresh last cell |
| DoublyCircularLinkedList.DCList.DeleteFromBeginning | Linked-List/doubly_circular_linked_list.c:186-218 | returns and removes the first element; a single node leaves an empty list; -1 when empty |
| DoublyCircularLinkedList.DCList.DeleteFromEnd | Linked-List/doubly_circular_linked_list.c:236-268 | returns and removes the last element; a single node leaves an empty list; -1 when empty |
| DoublyCircularLinkedList.DCList.ForwardOrder | Linked-List/doubly_circular_linked_list.c:277-296 | the do-while walk along next from head yields the list |
| DoublyCircularLinkedList.DCList.BackwardOrder | Linked-List/doubly_circular_linked_list.c:305-324 | the do-while walk along prev from head's prev yields the list reversed |
| DoublyCircularLinkedList.TraversalsAgree | Linked-List/doubly_circular_linked_list.c:277-324 | the backward walk is exactly the reverse of the forward walk, and the other way round |
| DoublyCircularLinkedList.DemoAppend | Linked-List/doubly_circular_linked_list.c:346-353 | 10, 20, 30 appended read 10 20 30 forward and 30 20 10 backward |
| DoublyCircularLinkedList.DemoDeleteBothEnds | Linked-List/doubly_circular_linked_list.c:346-395 | with 5 and 1 prepended, deleting from the front gives 1 and from the end 30, leaving 5 10 20 |
| DoublyCircularLinkedList.DemoDrain | Linked-List/doubly_circular_linked_list.c:397-416 | deleting every node empties the list and one more deletion gives -1 |

## Left out

- Trees are values: the AVL and BST operations return new subtrees instead
  of overwriting `left`, `right`, `height` and `data` in place. The C
  trees share no nodes, so this does not change any result, but the model
  does not capture the in-place writes or the order in which they happen.
- `printf` output, `printList`/`printForward`/`printBackward`,
  `printHeader`, `printTreeStructure` and the `main` drivers are not
  modelled. Traversals return their visiting order as a sequence. Demo
  drivers become lemmas or methods stating the values they print.
- `malloc` always succeeds and `free` is not modelled: a freed node simply
  leaves the list's footprint. The `exit(1)` and NULL-return allocation
  failure paths are left out.
- The `-1` returned on an empty list or a bad position cannot be told
  apart from a stored -1. The contracts state each case separately.
- SinglyLinkedList.List.InsertAtPosition: requires `position != length + 1`,
  and a non-empty list when the position is negative. In both cases the C
  code dereferences NULL, so the model has no behaviour to follow.
- SinglyLinkedList.List.DeleteByValue: the C function has no return on the
  not-found path. The model returns -1 and leaves the list unchanged.
- BinarySearchTree.Queue.Enqueue: requires room below capacity, because
  `enqueue` writes past the array otherwise.
- BinarySearchTree.Queue.Dequeue: requires a non-empty queue. The only
  caller tests `isEmpty` first.
- BinarySearchTree.BreadthFirstTraversal: requires a queue capacity of at
  least the node count. The queue never reuses slots, so a smaller one
  overflows.
- BinarySearchTree.DeleteNodeOrdered: proves only the weak order
  (left keys at most the node, right keys at least the node).
  DeleteBreaksStrictOrder shows why: with duplicate keys, the successor
  copy can put an equal key in the right subtree.
- AvlTree.Insert: requires a height-balanced tree. On other trees the
  LR/RL cases chosen by key comparison may rotate a NULL grandchild. The
  model makes that requirement explicit on InsertRebalance.
- AvlTree.Rebalance, AvlTree.InsertRebalance, AvlTree.UpdateHeight,
  AvlTree.GetBalance, AvlTree.GetHeight, AvlTree.Delete,
  BinarySearchTree.Insert, BinarySearchTree.CountNodes,
  BinarySearchTree.Inorder, BinarySearchTree.Preorder and
  BinarySearchTree.Postorder carry no contract of their own. Each is
  specified by the lemmas about it listed above:
  - the AVL functions by RebalanceInorder, RebalanceBalanced,
    InsertChoiceAgrees, StoredHeightIsHeight and the Delete lemmas;
  - BST `insert` (Tree/BST/BinarySearchTree.c:167-184) by InsertElems,
    InsertOrdered and InsertWeaklyOrdered;
  - `countNodes` (228-239) by CountIsSize;
  - the three traversals (90-121) by InorderVisitsAll, PreorderVisitsAll,
    PostorderVisitsAll and InorderSorted.
- AVL heights are `nat` and keys are unbounded `int`: the 32-bit `int`
  range of the C code is not modelled.
- The doubly-linked-list relinking helpers (`LinkAfter`, `Unlink`) and the
  singly ones (`LinkFirst`, `LinkAfter`, `UnlinkAfter`) are internal steps
  shared by the operations above.
