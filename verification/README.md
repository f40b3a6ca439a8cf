# DataStructures containers in Dafny

A model of the containers in the mau671/DataStructures C++ header library, with proofs about them. The library ships two editions of several classes: the English `Structures` headers and the older Spanish `Estructuras` headers.

The model covers:

- **Trees:** the binary search tree, the AVL tree (rotation counter, leaf/level statistics) and the splay tree (both editions).
- **Dictionaries:** key/value pairs and the dictionaries built on them (BST, AVL, splay, unsorted array).
- **Lists:** the array lists (plain, sorted, ordered) and the linked lists (singly linked with a free-node pool, doubly linked, circular, doubly circular).
- **Stacks and queues:** both stacks, both queues (the linked one with its deque extras), the min-heap and the two priority queues.
- **Driver programs:** the AVL driver program and the DCircleList test program.

Every container is an immutable Dafny value:

- A pointer structure is modelled by what it stores: a `Tree` for the trees, a sequence for the lists, queues and rings.
- A current position is an index; a remembered splay-tree node is an address (a path of left/right steps from the root).
- Every operation that can throw returns `Result`, carrying the library's exact message string.
- Ordered containers are generic over a key projection `key: T -> int`. Every `<`, `==` and `>` the library applies to elements compares their keys: plain integer trees use the identity, and key/value pairs use the key.

The main promises proved:

- **Trees:**
  - search trees stay ordered;
  - insert adds exactly the new element and remove drops exactly the removed one;
  - duplicates and misses fail with the library's messages;
  - AVL insert keeps the tree balanced;
  - every splay step and rotation keeps the in-order sequence;
  - the splay brings the remembered node to the root.
- **Dictionaries:** each key has one value, and `setValue`/`getValue` agree.
- **Lists, stacks and queues:**
  - list cursors move as documented, and next/previous undo each other;
  - stacks are LIFO, queues are FIFO, and the circular buffer wraps correctly.
- **Heap and priority queues:** the heap keeps its order under insert and removeFirst, and priority queues serve the smallest priority first.
- **Driver programs:** the AVL driver ends with 14 elements listed in ascending order, and the ring test removes 9.

Several headers repeat code that another header already has, and one member models every copy. The table below cites the first copy; the other copies are:

- `include/Structures/Common/Nodes/SNode.h`: the splay node repeats the BST node's child helpers. BinTree.ChildrenCount (lines 18-20), BinTree.OnlyChild (lines 21-23).
- `include/Estructuras/Concretas/Arboles/SplayTree.h`: the older splay tree, the same code as the English edition apart from the rotation error messages ("Can't rotate right a null tree." and "Can't rotate right with a null left child.", with their left mirrors, modelled by the legacy edition of SplayTree.RotateRight and SplayTree.RotateLeft) and clear, which is under Findings. SplayTree.New (lines 223-226), SplayTree.RotateRight (lines 151-169), SplayTree.RotateLeft (lines 170-188), SplayTree.SplayStep (lines 189-222), SplayTree.InsertAux (lines 20-39), SplayTree.SearchAux (lines 40-73), SplayTree.RemoveAux (lines 74-119), SplayTree.Insert (lines 230-240), SplayTree.Find (lines 241-251), SplayTree.FindPointer (lines 252-262), SplayTree.Contains (lines 263-267), SplayTree.Remove (lines 268-280), SplayTree.GetElements (lines 285-289), SplayTree.GetSize (lines 290-292), SplayTree.GetHeight (lines 293-295).
- `include/Estructuras/Concretas/Diccionarios/UnsortedArrayDictionary.h`: the older unsorted array dictionary, the same code as the English edition. UnsortedArrayDictionary.New (lines 38-40), UnsortedArrayDictionary.CheckNotExisting (lines 16-24), UnsortedArrayDictionary.CheckExisting (lines 27-36), UnsortedArrayDictionary.Insert (lines 44-48), UnsortedArrayDictionary.Remove (lines 49-53), UnsortedArrayDictionary.GetValue (lines 54-58), UnsortedArrayDictionary.SetValue (lines 59-63), UnsortedArrayDictionary.Contains (lines 64-73), UnsortedArrayDictionary.GetKeys (lines 74-83), UnsortedArrayDictionary.GetValues (lines 84-93), UnsortedArrayDictionary.GetSize (lines 94-96).
- `include/Structures/Implementations/Lists/DCircleList.h`: the doubly linked ring, whose operations other than previous act on the elements as the singly linked ring's do. CircleList.Insert (lines 61-72), CircleList.Remove (lines 82-99), CircleList.Clear (lines 106-110), CircleList.GetFront (lines 118-122), CircleList.GetBack (lines 130-134), CircleList.Next (lines 142-146), CircleList.IndexOf (lines 225-239), CircleList.Contains (lines 247-249).
- `include/Estructuras/Concretas/Listas/DCircleList.h`: the older doubly linked ring. CircleList.Insert (lines 24-35), CircleList.Remove (lines 37-54), CircleList.Next (lines 74-78), CircleList.IndexOf (lines 121-135), DCircleList.Previous (lines 80-84).
- `include/Estructuras/Concretas/Colas/ArrayQueue.h`: the older array queue, the same code as the English edition. ArrayQueue.New (lines 21-27), ArrayQueue.Enqueue (lines 31-37), ArrayQueue.Dequeue (lines 38-44), ArrayQueue.FrontValue (lines 45-49), ArrayQueue.Clear (lines 50-52).
- `include/Estructuras/Concretas/Colas/LinkedQueue.h`: the older linked queue, the same code as the English edition. LinkedQueue.NewEmpty (lines 19-22), LinkedQueue.Enqueue (lines 29-32), LinkedQueue.Dequeue (lines 34-43), LinkedQueue.EnqueueFront (lines 68-76), LinkedQueue.DequeueBack (lines 78-90), LinkedQueue.BackValue (lines 92-95).
- `include/Estructuras/Concretas/Colas/LinkedPriorityQueue.h`: the older linked priority queue, the same code as the English edition but without clear. LinkedPriorityQueue.NewEmpty (lines 19-24), LinkedPriorityQueue.Insert (lines 30-34), LinkedPriorityQueue.Min (lines 36-42), LinkedPriorityQueue.RemoveMin (lines 44-53).
- `include/Structures/Implementations/Lists/SortedArrayList.h`: the sorted array list's constructor, which is the array list's. ArrayList.New (line 10).
- `include/Structures/Implementations/Lists/OrderedArrayList.h`: the ordered array list, whose operations other than insert and append forward to an inner array list. ArrayList.GetElement (lines 31-33), ArrayList.Clear (lines 34-36), ArrayList.GoToStart (lines 37-39), ArrayList.GoToEnd (lines 40-42), ArrayList.GoToPos (lines 43-45), ArrayList.Next (lines 46-48), ArrayList.Previous (lines 49-51), ArrayList.GetSize (lines 61-63), ArrayList.IndexOf (lines 67-69), ArrayList.Contains (lines 70-72), ArrayList.Reverse (lines 73-75).

## Model

| member | source | states |
|---|---|---|
| BinTree.ChildrenCount | include/Structures/Common/Nodes/BSTNode.h:18-20 | a node has at most two children; none exactly when it is a leaf, two exactly when both links are set |
| BinTree.OnlyChild | include/Structures/Common/Nodes/BSTNode.h:21-23 | with one child the result is that child; with none it is null; with two it is the left one |
| BinTree.SizeIsLength | include/Structures/Implementations/Trees/BSTree.h:108-112 | the recursive node count equals the length of the in-order listing |
| BinTree.ElemsAreInOrder | include/Structures/Implementations/Trees/BSTree.h:101-107 | the in-order listing holds exactly the tree's elements |
| BinTree.BstIffAscending | include/Structures/Implementations/Trees/BSTree.h:101-107 | a tree is a search tree exactly when its in-order listing is strictly ascending by key |
| BinTree.SizeIsCardinality | include/Structures/Implementations/Trees/BSTree.h:151-153 | in a search tree the size equals the number of distinct elements and of distinct keys |
| BinTree.HeightBounds | include/Structures/Implementations/Trees/BSTree.h:113-119 | height ≤ size < 2^height for every tree |
| BinTree.KeyIdentifies | include/Structures/Implementations/Trees/BSTree.h:20-32 | in a search tree two stored elements with the same key are the same element, which the duplicate check on insert guarantees |
| BinTree.ContainsAux | include/Structures/Implementations/Trees/BSTree.h:33-42 | the descent answers true only for a stored key, and on a search tree exactly for stored keys |
| BinTree.FindAux | include/Structures/Implementations/Trees/BSTree.h:43-52 | returns a stored element with the probe's key; fails with "Element not found." exactly when a search tree has no such key |
| BinTree.FindMin | include/Structures/Implementations/Trees/BSTree.h:84-88 | the leftmost element is stored and is the first of the in-order listing |
| BinTree.MinIsLeast | include/Structures/Implementations/Trees/BSTree.h:84-88 | in a search tree the leftmost element has the smallest key |
| BinTree.SwapMin | include/Structures/Implementations/Trees/BSTree.h:89-93 | replacing the leftmost element changes only the first entry of the in-order listing |
| BinTree.SwapMinElems | include/Structures/Implementations/Trees/BSTree.h:76-80 | after the swap the tree holds the new element in place of the old minimum, element-wise and key-wise |
| BinTree.SwapMinKeepsOrder | include/Structures/Implementations/Trees/BSTree.h:76-80 | swapping in an element whose key is below every key keeps the search-tree order and makes it the new minimum |
| BinTree.SuccessorReplacesRoot | include/Structures/Implementations/Trees/BSTree.h:76-80 | moving the right subtree's minimum to the root after deleting it below leaves a search tree without the old root |
| BinTree.ShrinkLeft | include/Structures/Implementations/Trees/BSTree.h:56-63 | removing an element from the left subtree removes it from the whole tree and keeps the order |
| BinTree.ShrinkRight | include/Structures/Implementations/Trees/BSTree.h:56-63 | removing an element from the right subtree removes it from the whole tree and keeps the order |
| BSTree.Insert | include/Structures/Implementations/Trees/BSTree.h:20-32 | a key already stored fails with "Duplicated element."; otherwise exactly the new element is added, and a search tree stays one; on a search tree it succeeds exactly for a new key; the public insert (lines 128-130) is this from the root |
| BSTree.Remove | include/Structures/Implementations/Trees/BSTree.h:53-83 | fails with "Element not found." or returns an element with the probe's key |
| BSTree.RemoveCorrect | include/Structures/Implementations/Trees/BSTree.h:53-83 | on a search tree, remove succeeds exactly for a stored key, returns the stored element and leaves a search tree holding everything else |
| BSTree.RemoveSpec | include/Structures/Implementations/Trees/BSTree.h:137-141 | the public remove's promise: success iff the key is stored, order kept, exactly the removed element gone |
| BSTree.RemoveSwapped | include/Structures/Implementations/Trees/BSTree.h:76-80 | removing the root of a node with two children returns the root and leaves a search tree of the others |
| BSTree.Clear | include/Structures/Implementations/Trees/BSTree.h:142-145 | the tree is empty afterwards |
| BSTree.GetElements | include/Structures/Implementations/Trees/BSTree.h:146-150 | the listing has one entry per node, holds exactly the stored elements, and is ascending by key on a search tree |
| BSTree.GetSize | include/Structures/Implementations/Trees/BSTree.h:151-153 | the size is the length of the in-order listing |
| BSTree.GetHeight | include/Structures/Implementations/Trees/BSTree.h:159-161 | height ≤ size < 2^height |
| BSTree.InsertThenFind | include/Structures/Implementations/Trees/BSTree.h:128-136 | after inserting a new key, find returns the inserted element and the size grew by one |
| BSTree.RemoveUndoesInsert | include/Structures/Implementations/Trees/BSTree.h:128-141 | removing the key just inserted returns the inserted element and restores the element set |
| AVLNode.CacheIsHeight | include/Structures/Common/Nodes/AVLNode.h:47-51 | in a tree whose cached heights are exact, the cached height is the subtree height |
| AVLNode.NewNode | include/Structures/Common/Nodes/AVLNode.h:26-31 | a new node is a leaf holding the element with an exact cached height |
| AVLNode.BalanceFactor | include/Structures/Common/Nodes/AVLNode.h:38-42 | with exact caches, the factor is the left height minus the right height |
| AVLNode.UpdateHeight | include/Structures/Common/Nodes/AVLNode.h:47-51 | keeps the tree's shape, and makes the node's cache exact once its children's are |
| AVLNode.ChildrenCount | include/Structures/Common/Nodes/AVLNode.h:53-58 | agrees with the plain node's child count |
| AVLNode.OnlyChild | include/Structures/Common/Nodes/AVLNode.h:60-64 | with one child the result is that child, and null otherwise |
| AVLTree.NewEmpty | include/Structures/Implementations/Trees/AVLTree.h:197-199 | an empty tree whose rotation counter keeps whatever value it started with |
| AVLTree.RotateRight | include/Structures/Implementations/Trees/AVLTree.h:124-132 | fails with "Can't rotate right with null left child." exactly when the left child is null; otherwise keeps the in-order listing and counts one rotation |
| AVLTree.RotateLeft | include/Structures/Implementations/Trees/AVLTree.h:134-142 | fails with "Can't rotate left with null right child." exactly when the right child is null; otherwise keeps the in-order listing and counts one rotation |
| AVLTree.RebalanceLeft | include/Structures/Implementations/Trees/AVLTree.h:151-166 | keeps the in-order listing; a node whose left side is at most one taller is returned unchanged, otherwise one rotation is counted when the outer grandchild is at least as tall as the inner one and two when it is shorter |
| AVLTree.RebalanceRight | include/Structures/Implementations/Trees/AVLTree.h:167-182 | keeps the in-order listing; a node whose right side is at most one taller is returned unchanged, otherwise one rotation is counted when the outer grandchild is at least as tall as the inner one and two when it is shorter |
| AVLTree.RebalanceLeftRestores | include/Structures/Implementations/Trees/AVLTree.h:151-166 | a node whose left side is at most two taller becomes balanced; when it was not too tall, nothing changes |
| AVLTree.RebalanceRightRestores | include/Structures/Implementations/Trees/AVLTree.h:167-182 | a node whose right side is at most two taller becomes balanced; when it was not too tall, nothing changes |
| AVLTree.InsertAux | include/Structures/Implementations/Trees/AVLTree.h:26-42 | fails with "Duplicated element." only for a stored key; never decreases the rotation count |
| AVLTree.InsertCorrect | include/Structures/Implementations/Trees/AVLTree.h:26-42 | on a search tree, insert succeeds exactly for a new key, adds exactly the new element and keeps the order |
| AVLTree.InsertBalanced | include/Structures/Implementations/Trees/AVLTree.h:26-42 | insert into a balanced tree leaves it balanced, with height unchanged or one more |
| AVLTree.RemoveAux | include/Structures/Implementations/Trees/AVLTree.h:63-93 | fails with "Element not found." or returns an element with the probe's key |
| AVLTree.RemoveCorrect | include/Structures/Implementations/Trees/AVLTree.h:63-93 | on a search tree, remove succeeds exactly for a stored key and leaves a search tree without the removed element |
| AVLTree.RemoveSwapped | include/Structures/Implementations/Trees/AVLTree.h:86-91 | removing a two-child node swaps in its successor and returns the old element |
| AVLTree.SwapMinShape | include/Structures/Implementations/Trees/AVLTree.h:99-103 | swapping the minimum changes neither height nor balance |
| AVLTree.RemoveAsWrittenUnbalances | include/Structures/Implementations/Trees/AVLTree.h:86-91 | concrete case: insert 5, 3, 6, 2 and remove 5; the two-child branch returns without rebalancing and leaves an unbalanced tree |
| AVLTree.RemoveRebalancedBalanced | include/Structures/Implementations/Trees/AVLTree.h:63-93 | with the two-child branch rebalancing like the others, remove from a balanced tree leaves it balanced, at most one level lower |
| AVLTree.RemoveSpec | include/Structures/Implementations/Trees/AVLTree.h:212-216 | the public remove's promise on a search tree, for either version of the two-child branch |
| AVLTree.Insert | include/Structures/Implementations/Trees/AVLTree.h:203-205 | "Duplicated element." exactly for a stored key on a search tree; otherwise the element is added, order and balance kept, rotations only counted up |
| AVLTree.Contains | include/Structures/Implementations/Trees/AVLTree.h:43-52 | true only for a stored key, and on a search tree exactly for stored keys; the public contains (lines 206-208) is this from the root |
| AVLTree.Find | include/Structures/Implementations/Trees/AVLTree.h:53-62 | returns a stored element with the probe's key, or "Element not found." exactly when a search tree lacks it; the public find (lines 209-211) is this from the root |
| AVLTree.Remove | include/Structures/Implementations/Trees/AVLTree.h:212-216 | the library's remove as written: succeeds exactly for a stored key on a search tree, keeps the order and removes exactly that element |
| AVLTree.RemoveRebalanced | include/Structures/Implementations/Trees/AVLTree.h:63-93 | the corrected remove: the same promises as Remove, and balance is kept |
| AVLTree.Clear | include/Structures/Implementations/Trees/AVLTree.h:217-220 | empty tree; the rotation counter is not reset |
| AVLTree.GetElements | include/Structures/Implementations/Trees/AVLTree.h:221-225 | one entry per node, exactly the stored elements, ascending on a search tree |
| AVLTree.GetSize | include/Structures/Implementations/Trees/AVLTree.h:226-228 | the length of the in-order listing |
| AVLTree.GetHeight | include/Structures/Implementations/Trees/AVLTree.h:234-236 | height ≤ size < 2^height |
| AVLTree.GetRotationCount | include/Structures/Implementations/Trees/AVLTree.h:275-277 | the counter's current value |
| AVLTree.CountNodes | include/Structures/Implementations/Trees/AVLTree.h:185-194 | the first count is the number of childless nodes and the second the number of nodes with a child, tallied over every node of the tree; together they make the size, and a non-empty tree has at least one leaf and at most one more leaf than internal nodes |
| AVLTree.GetLeafCount | include/Structures/Implementations/Trees/AVLTree.h:239-245 | the number of childless nodes of the tree, at most the size and at least one in a non-empty tree |
| AVLTree.GetInternalNodeCount | include/Structures/Implementations/Trees/AVLTree.h:246-252 | the number of nodes with at least one child; with the leaf count it makes the size |
| AVLTree.NextLevel | include/Structures/Implementations/Trees/AVLTree.h:253-272 | the loop over one level's queue collects exactly the next level's nodes, left to right |
| AVLTree.GetNodesPerLevel | include/Structures/Implementations/Trees/AVLTree.h:253-272 | one count per level (as many as the height), entry i being the number of nodes i links below the root; each at least one, summing to the size, with one root |
| AVLDriver.Step | include/Structures/Implementations/Trees/AVLTree.h:203-216 | one driver call: on a search tree an insert fails exactly for a stored key and a remove exactly for a missing one; otherwise the key set gains or loses exactly that key |
| AVLDriver.RunRefines | src/Diccionarios.cpp:106-135 | a run of inserts and removes on a search tree fails exactly when the same run on its key set does, with the same message, and otherwise ends with the same keys |
| AVLDriver.DriverOnSets | src/Diccionarios.cpp:110-135 | on key sets the driver's 26 calls never fail and end with the 14 keys 18, 35, 62, 63, 64, 65, 69, 72, 73, 80, 85, 91, 99, 105 |
| Sequences.IncreasingUnique | include/Structures/Implementations/Trees/AVLTree.h:221-225 | two strictly increasing listings with the same members are equal, so the in-order listing is fixed by the key set |
| AVLDriver.HoldingSorted | include/Structures/Implementations/Trees/AVLTree.h:221-228 | a search tree keyed by the members of an increasing sequence lists exactly that sequence and has its length as size |
| AVLDriver.DriverRun | src/Diccionarios.cpp:106-142 | from an empty tree the driver's calls never fail, and the tree ends listing Final in order with as many elements as Final has |
| AVLDriver.Driver | src/Diccionarios.cpp:106-142 | the driver throws nothing and ends with 14 elements listed as 18 35 62 63 64 65 69 72 73 80 85 91 99 105, whatever the counter's initial value |
| Zipper.ParentOfChild | include/Structures/Common/Nodes/SNode.h:12-17 | the parent link of a child's node is the node one step up its address |
| Zipper.ChildOfParent | include/Structures/Common/Nodes/SNode.h:12-17 | stepping from a node's parent in the node's direction returns the node |
| SplayTree.New | include/Structures/Implementations/Trees/SplayTree.h:340-343 | an empty, valid tree with no remembered node |
| SplayTree.RotR | include/Structures/Implementations/Trees/SplayTree.h:256-272 | the left child becomes the subtree root and the old root its right child; the in-order listing is unchanged |
| SplayTree.RotL | include/Structures/Implementations/Trees/SplayTree.h:280-296 | the right child becomes the subtree root and the old root its left child; the in-order listing is unchanged |
| SplayTree.RotatedInPlace | include/Structures/Implementations/Trees/SplayTree.h:256-296 | re-linking a subtree with the same in-order listing under the old parent (or as the root) keeps the whole tree's listing and the subtree's address |
| SplayTree.RotateRight | include/Structures/Implementations/Trees/SplayTree.h:256-272 | fails exactly on a null node or null left child, with "Can't rotate right." in the current edition and "Can't rotate right a null tree." or "Can't rotate right with a null left child." in the legacy one; otherwise rotates the addressed subtree in place and keeps the listing |
| SplayTree.RotateLeft | include/Structures/Implementations/Trees/SplayTree.h:280-296 | fails exactly on a null node or null right child, with "Can't rotate left." in the current edition and "Can't rotate left a null tree." or "Can't rotate left with a null right child." in the legacy one; otherwise rotates the addressed subtree in place and keeps the listing |
| SplayTree.SplayStep | include/Structures/Implementations/Trees/SplayTree.h:301-334 | one zig-zig or zig-zag step moves the node up two levels, to its grandparent's address, keeping the listing |
| SplayTree.SplayAt | include/Structures/Implementations/Trees/SplayTree.h:301-334 | splaying the node at an address brings that node to the root and keeps the listing |
| SplayTree.InsertAux | include/Structures/Implementations/Trees/SplayTree.h:40-60 | the same tree as the plain search-tree insert; `last` points at the new leaf, or at the node holding the duplicate key |
| SplayTree.SearchAux | include/Structures/Implementations/Trees/SplayTree.h:70-120 | findAux, findPointerAux and containsAux: each answers as the plain search does; `last` is unset only on an empty tree and otherwise is the node where the descent stopped |
| SplayTree.RemoveAux | include/Structures/Implementations/Trees/SplayTree.h:131-170 | the same result as the plain search-tree remove; `last` is the parent of the removed node, or none when the root itself goes |
| SplayTree.SwapMinShape | include/Structures/Implementations/Trees/SplayTree.h:191-195 | swapping the minimum keeps the shape, so addresses stay valid |
| SplayTree.RemoveFailsLikeSearch | include/Structures/Implementations/Trees/SplayTree.h:131-170 | a failed remove stops, and marks `last`, where a search for the key would |
| SplayTree.Splay | include/Structures/Implementations/Trees/SplayTree.h:301-334 | a remembered node that is missing from the tree is undefined behaviour; otherwise the splay brings it to the root and keeps the listing |
| SplayTree.Finish | include/Structures/Implementations/Trees/SplayTree.h:358-439 | the splay every public operation ends with: same elements and keys, order kept, the remembered node at the root |
| SplayTree.Insert | include/Structures/Implementations/Trees/SplayTree.h:358-368 | "Duplicated element." exactly for a stored key on a search tree; the new (or duplicate) node is splayed to the root; order kept |
| SplayTree.Search | include/Structures/Implementations/Trees/SplayTree.h:414-418 | the plain search's answer, with the last node visited splayed to the root |
| SplayTree.Find | include/Structures/Implementations/Trees/SplayTree.h:377-387 | returns the stored element with the key (then at the root), or "Element not found." exactly when a search tree lacks it; the last node visited is splayed |
| SplayTree.FindPointer | include/Structures/Implementations/Trees/SplayTree.h:396-406 | the address of the found element after the splay, which is the root, or "Element not found." |
| SplayTree.Contains | include/Structures/Implementations/Trees/SplayTree.h:414-418 | on a search tree, true exactly for stored keys; the splay keeps the listing |
| SplayTree.Remove | include/Structures/Implementations/Trees/SplayTree.h:427-439 | on a search tree, succeeds exactly for a stored key, removes exactly that element and keeps the order; a miss splays the node where the search stopped |
| SplayTree.Clear | include/Structures/Implementations/Trees/SplayTree.h:444-447 | empty tree with no remembered node |
| SplayTree.LegacyClearLeavesDangling | include/Estructuras/Concretas/Arboles/SplayTree.h:281-284 | after insert then the legacy clear, the next find, contains or remove splays a freed node: undefined behaviour |
| SplayTree.ClearKeepsValid | include/Structures/Implementations/Trees/SplayTree.h:444-447 | after the current clear, the tree is valid and find, contains and remove answer "not found" without splaying anything |
| SplayTree.GetElements | include/Structures/Implementations/Trees/SplayTree.h:454-458 | one entry per node, exactly the stored elements, ascending on a search tree |
| SplayTree.GetSize | include/Structures/Implementations/Trees/SplayTree.h:465-467 | the length of the element listing |
| SplayTree.GetHeight | include/Structures/Implementations/Trees/SplayTree.h:474-476 | zero exactly for the empty tree; height ≤ size < 2^height |
| Pairs.Probe | include/Structures/Common/KVPair.h:31-33 | the key-only constructor makes a pair with that key |
| Pairs.ValuesIgnored | include/Structures/Common/KVPair.h:73-125 | every comparison operator gives the same answer whatever values the pairs carry |
| Pairs.Trichotomy | include/Structures/Common/KVPair.h:73-125 | exactly one of <, ==, > holds between two pairs, and <=, >= are their unions |
| Pairs.ProbeMatches | include/Structures/Common/KVPair.h:31-33 | a key-only probe compares equal to every pair with its key and unequal to every other |
| Pairs.OneValuePerKey | include/Structures/Implementations/Dictionaries/BSTDictionary.h:23-26 | since insert refuses a stored key, a search tree of pairs stores at most one value per key |
| Pairs.StoredIsFound | include/Structures/Implementations/Dictionaries/BSTDictionary.h:32-36 | in a search tree of pairs, searching a stored pair's key finds that pair |
| Pairs.RemovedKeyGone | include/Structures/Implementations/Dictionaries/BSTDictionary.h:27-31 | taking one pair out of a search tree of pairs removes exactly its key |
| Pairs.SizeCountsKeys | include/Structures/Implementations/Dictionaries/BSTDictionary.h:68-70 | the dictionary's size is its number of keys |
| Pairs.KeysOf | include/Structures/Implementations/Dictionaries/BSTDictionary.h:46-56 | the key listing has one key per pair, in the pairs' order, strictly increasing when the pairs are ascending |
| Pairs.ValuesOf | include/Structures/Implementations/Dictionaries/BSTDictionary.h:57-67 | the value listing has one value per pair, in the pairs' order |
| BSTDictionary.NewEmpty | include/Structures/Implementations/Dictionaries/BSTDictionary.h:17-19 | an empty dictionary |
| BSTDictionary.Insert | include/Structures/Implementations/Dictionaries/BSTDictionary.h:23-26 | a stored key fails with "Duplicated element."; otherwise the pair is added, the key set gains the key and the size grows by one |
| BSTDictionary.Remove | include/Structures/Implementations/Dictionaries/BSTDictionary.h:27-31 | succeeds exactly for a stored key, returns its value and drops exactly that pair and key; otherwise "Element not found." |
| BSTDictionary.GetValue | include/Structures/Implementations/Dictionaries/BSTDictionary.h:32-36 | the value stored under the key; "Element not found." exactly when the key is absent |
| BSTDictionary.SetValue | include/Structures/Implementations/Dictionaries/BSTDictionary.h:37-41 | succeeds exactly for a stored key, replacing its one pair and keeping the key set; an absent key fails with "Element not found." |
| BSTDictionary.Contains | include/Structures/Implementations/Dictionaries/BSTDictionary.h:42-45 | true exactly for stored keys |
| BSTDictionary.GetKeys | include/Structures/Implementations/Dictionaries/BSTDictionary.h:46-56 | one key per pair, strictly increasing, and exactly the key set |
| BSTDictionary.GetValues | include/Structures/Implementations/Dictionaries/BSTDictionary.h:57-67 | one value per pair, each the value stored under the matching key |
| BSTDictionary.GetSize | include/Structures/Implementations/Dictionaries/BSTDictionary.h:68-70 | the number of pairs, which is the number of keys |
| BSTDictionary.SetThenGet | include/Structures/Implementations/Dictionaries/BSTDictionary.h:32-41 | after setting a stored key, getValue returns the new value and the size is unchanged |
| BSTDictionary.InsertThenRemove | include/Structures/Implementations/Dictionaries/BSTDictionary.h:23-31 | removing a key just inserted returns the inserted value and restores the pairs |
| AVLDictionary.NewEmpty | include/Estructuras/Concretas/Diccionarios/AVLDictionary.h:19-21 | an empty, balanced dictionary |
| AVLDictionary.Insert | include/Estructuras/Concretas/Diccionarios/AVLDictionary.h:27-30 | as the BST dictionary's insert, and a balanced tree stays balanced |
| AVLDictionary.Remove | include/Estructuras/Concretas/Diccionarios/AVLDictionary.h:32-36 | succeeds exactly for a stored key, returns its value and drops exactly that pair and key; otherwise "Element not found." |
| AVLDictionary.GetValue | include/Estructuras/Concretas/Diccionarios/AVLDictionary.h:38-42 | the value stored under the key; "Element not found." exactly when the key is absent |
| AVLDictionary.SetValue | include/Estructuras/Concretas/Diccionarios/AVLDictionary.h:44-48 | succeeds exactly for a stored key, replacing its one pair; an absent key fails with "Element not found." |
| AVLDictionary.Contains | include/Estructuras/Concretas/Diccionarios/AVLDictionary.h:50-53 | true exactly for stored keys |
| AVLDictionary.GetKeys | include/Estructuras/Concretas/Diccionarios/AVLDictionary.h:55-65 | one key per pair, strictly increasing, and exactly the key set |
| AVLDictionary.GetValues | include/Estructuras/Concretas/Diccionarios/AVLDictionary.h:67-77 | one value per pair, each the value stored under the matching key |
| AVLDictionary.GetSize | include/Estructuras/Concretas/Diccionarios/AVLDictionary.h:79-81 | the number of pairs, which is the number of keys |
| AVLDictionary.SetThenGet | include/Estructuras/Concretas/Diccionarios/AVLDictionary.h:38-48 | after setting a stored key, getValue returns the new value and the size is unchanged |
| AVLDictionary.InsertThenRemove | include/Estructuras/Concretas/Diccionarios/AVLDictionary.h:27-36 | removing a key just inserted returns the inserted value and restores the pairs |
| SplayDictionary.NewEmpty | include/Structures/Implementations/Dictionaries/SplayDictionary.h:42-44 | an empty dictionary |
| SplayDictionary.Insert | include/Structures/Implementations/Dictionaries/SplayDictionary.h:61-64 | a stored key fails with "Duplicated element." and leaves that key's pair at the root; otherwise the new pair is added at the root and the size grows by one |
| SplayDictionary.Remove | include/Structures/Implementations/Dictionaries/SplayDictionary.h:73-77 | succeeds exactly for a stored key, returns its value and drops exactly that pair and key; a miss only reshapes the tree |
| SplayDictionary.GetValue | include/Structures/Implementations/Dictionaries/SplayDictionary.h:86-90 | the value stored under the key, or "Element not found." exactly when it is absent; only the shape changes |
| SplayDictionary.SetValue | include/Structures/Implementations/Dictionaries/SplayDictionary.h:98-103 | succeeds exactly for a stored key, leaving the new pair at the root; an absent key fails with "Element not found." |
| SplayDictionary.Replaced | include/Structures/Implementations/Dictionaries/SplayDictionary.h:98-103 | once the old pair of a stored key is removed, reinserting the key with the new value restores the key set and the size and swaps exactly the old pair for the new one |
| SplayDictionary.Contains | include/Structures/Implementations/Dictionaries/SplayDictionary.h:111-114 | true exactly for stored keys; only the shape changes |
| SplayDictionary.GetKeys | include/Structures/Implementations/Dictionaries/SplayDictionary.h:121-135 | one key per pair, strictly increasing, and exactly the key set |
| SplayDictionary.GetValues | include/Structures/Implementations/Dictionaries/SplayDictionary.h:142-152 | one value per pair, each the value stored under the matching key |
| SplayDictionary.GetSize | include/Structures/Implementations/Dictionaries/SplayDictionary.h:159-161 | the number of pairs, which is the number of keys |
| SplayDictionary.SetThenGet | include/Structures/Implementations/Dictionaries/SplayDictionary.h:86-103 | after setting a stored key, getValue returns the new value |
| SplayDictionary.InsertThenRemove | include/Structures/Implementations/Dictionaries/SplayDictionary.h:61-77 | removing a key just inserted returns the inserted value |
| UnsortedArrayDictionary.FirstWithKey | include/Structures/Implementations/Dictionaries/UnsortedArrayDictionary.h:31-39 | the scan's stopping position: the first pair with the key, with no earlier one |
| UnsortedArrayDictionary.New | include/Structures/Implementations/Dictionaries/UnsortedArrayDictionary.h:66-68 | "Invalid max size." exactly for a capacity below 1; otherwise empty |
| UnsortedArrayDictionary.Scan | include/Structures/Implementations/Dictionaries/UnsortedArrayDictionary.h:31-58 | the cursor walk: finds the key exactly when it is stored, stopping at its first pair, and otherwise ends at the end |
| UnsortedArrayDictionary.CheckNotExisting | include/Structures/Implementations/Dictionaries/UnsortedArrayDictionary.h:31-39 | fails with "Duplicated key." exactly when the key is stored |
| UnsortedArrayDictionary.CheckExisting | include/Structures/Implementations/Dictionaries/UnsortedArrayDictionary.h:49-58 | fails with "Key not found." exactly when the key is absent; otherwise leaves the cursor on its pair |
| UnsortedArrayDictionary.Insert | include/Structures/Implementations/Dictionaries/UnsortedArrayDictionary.h:84-88 | "Duplicated key." exactly for a stored key; otherwise the pair is appended, and keys stay unique |
| UnsortedArrayDictionary.Remove | include/Structures/Implementations/Dictionaries/UnsortedArrayDictionary.h:97-101 | "Key not found." exactly for an absent key; otherwise removes the key's pair and returns its value, keys staying unique |
| UnsortedArrayDictionary.RemoveKeys | include/Structures/Implementations/Dictionaries/UnsortedArrayDictionary.h:97-101 | removing one pair from a unique-key list removes exactly its key and keeps the keys unique |
| UnsortedArrayDictionary.GetValue | include/Structures/Implementations/Dictionaries/UnsortedArrayDictionary.h:110-114 | the value of the key's pair, or "Key not found." exactly when the key is absent |
| UnsortedArrayDictionary.SetValue | include/Structures/Implementations/Dictionaries/UnsortedArrayDictionary.h:123-127 | replaces the value of the key's pair and nothing else; "Key not found." exactly when the key is absent |
| UnsortedArrayDictionary.Contains | include/Structures/Implementations/Dictionaries/UnsortedArrayDictionary.h:135-144 | true exactly for stored keys; the pairs are unchanged |
| UnsortedArrayDictionary.GetKeys | include/Structures/Implementations/Dictionaries/UnsortedArrayDictionary.h:151-160 | the keys in storage order, pairwise distinct when the keys are unique |
| UnsortedArrayDictionary.GetValues | include/Structures/Implementations/Dictionaries/UnsortedArrayDictionary.h:167-176 | the values in storage order, one per pair |
| UnsortedArrayDictionary.GetSize | include/Structures/Implementations/Dictionaries/UnsortedArrayDictionary.h:183-185 | the number of pairs, which is the number of keys when they are unique |
| UnsortedArrayDictionary.DistinctKeysCount | include/Structures/Implementations/Dictionaries/UnsortedArrayDictionary.h:183-185 | a list of pairs with unique keys has as many keys as pairs |
| ArrayList.New | include/Structures/Implementations/Lists/ArrayList.h:62-69 | "Invalid max size." exactly for a capacity below 1; otherwise an empty list with the cursor at 0 |
| ArrayList.NewDefault | include/Structures/Implementations/Lists/ArrayList.h:13 | the constructor called without a capacity cannot fail and gives an empty list of capacity 1024 with the cursor at 0 |
| ArrayList.Expand | include/Structures/Implementations/Lists/ArrayList.h:46-53 | doubles the capacity and keeps the elements and the cursor |
| ArrayList.Insert | include/Structures/Implementations/Lists/ArrayList.h:86-93 | puts the element at the cursor, shifting the rest right; the cursor stays; a full array is expanded first, so it never fails |
| ArrayList.Append | include/Structures/Implementations/Lists/ArrayList.h:102-107 | puts the element after the last one; the cursor stays; never fails |
| ArrayList.Set | include/Structures/Implementations/Lists/ArrayList.h:115-121 | replaces the current element; "List is empty." on an empty list and "No current element." with the cursor at the end |
| ArrayList.Remove | include/Structures/Implementations/Lists/ArrayList.h:131-141 | removes and returns the current element, shifting the rest left; the same two errors as set |
| ArrayList.GetElement | include/Structures/Implementations/Lists/ArrayList.h:149-155 | the current element; the same two errors as set |
| ArrayList.Clear | include/Structures/Implementations/Lists/ArrayList.h:162-164 | empty, cursor at 0, same capacity |
| ArrayList.GoToStart | include/Structures/Implementations/Lists/ArrayList.h:169-171 | the cursor is at the start; the elements are unchanged |
| ArrayList.GoToEnd | include/Structures/Implementations/Lists/ArrayList.h:176-178 | the cursor is at the end; the elements are unchanged |
| ArrayList.GoToPos | include/Structures/Implementations/Lists/ArrayList.h:186-190 | moves the cursor to any position from 0 to the size; anything else fails with "Index out of bounds." |
| ArrayList.Next | include/Structures/Implementations/Lists/ArrayList.h:197-200 | one step right, or no change at the end |
| ArrayList.Previous | include/Structures/Implementations/Lists/ArrayList.h:207-210 | one step left, or no change at the start |
| ArrayList.GetSize | include/Structures/Implementations/Lists/ArrayList.h:244-246 | the number of elements |
| ArrayList.StepsUndo | include/Structures/Implementations/Lists/ArrayList.h:197-210 | next then previous, away from the end, is no move; previous then next, away from the start, is no move |
| ArrayList.IndexOf | include/Structures/Implementations/Lists/ArrayList.h:256-263 | the first position from start that holds the element, or -1 when none does; a start outside the list fails with "Index out of bounds." |
| ArrayList.Contains | include/Structures/Implementations/Lists/ArrayList.h:271-273 | true exactly when the element is stored; an empty list fails, because indexOf from 0 is out of bounds |
| ArrayList.Reverse | include/Structures/Implementations/Lists/ArrayList.h:280-286 | the elements in reverse order; size, cursor and capacity unchanged |
| SortedArrayList.Insert | include/Structures/Implementations/Lists/SortedArrayList.h:11-16 | puts the element after every element with a key not above it and before the first with a larger key, leaving the cursor on it; a sorted list stays sorted and gains exactly that element |
| SortedArrayList.Append | include/Structures/Implementations/Lists/SortedArrayList.h:17-19 | append is sorted insert: the same element gained, sortedness kept |
| SortedArrayList.SortedSplice | include/Structures/Implementations/Lists/SortedArrayList.h:11-16 | inserting at the position the scan finds keeps a sorted sequence sorted |
| OrderedArrayList.New | include/Structures/Implementations/Lists/OrderedArrayList.h:13-15 | "Invalid max size." for a capacity below 1; otherwise empty |
| OrderedArrayList.Insert | include/Structures/Implementations/Lists/OrderedArrayList.h:19-24 | inserts at the sorted position, leaving the cursor on it; sortedness kept and exactly that element gained |
| OrderedArrayList.Append | include/Structures/Implementations/Lists/OrderedArrayList.h:25-27 | append is the same as the ordered insert |
| OrderedArrayList.Remove | include/Structures/Implementations/Lists/OrderedArrayList.h:28-30 | removes and returns the current element, with the array list's errors |
| OrderedArrayList.RemoveKeepsSorted | include/Structures/Implementations/Lists/OrderedArrayList.h:28-30 | removing any one element keeps a sorted sequence sorted |
| DLinkedList.NewEmpty | include/Structures/Implementations/Lists/DLinkedList.h:20-24 | an empty list with the cursor both at the start and at the end |
| DLinkedList.Insert | include/Structures/Implementations/Lists/DLinkedList.h:30-34 | the element becomes the current one, the elements before the cursor stay and those from it shift one place; never fails |
| DLinkedList.Append | include/Structures/Implementations/Lists/DLinkedList.h:35-39 | the element goes after the last; the cursor stays |
| DLinkedList.CheckCurrent | include/Structures/Implementations/Lists/DLinkedList.h:40-44 | fails exactly at the end: "List is empty." when there are no elements, "No current element." otherwise |
| DLinkedList.Set | include/Structures/Implementations/Lists/DLinkedList.h:40-46 | replaces only the current element, with the two errors above |
| DLinkedList.Remove | include/Structures/Implementations/Lists/DLinkedList.h:47-58 | returns the current element and unlinks it; inserting it back restores the list; the two errors above |
| DLinkedList.GetElement | include/Structures/Implementations/Lists/DLinkedList.h:59-65 | the element under the cursor, with the two errors above |
| DLinkedList.Clear | include/Structures/Implementations/Lists/DLinkedList.h:66-73 | no elements, cursor at the start |
| DLinkedList.GoToStart | include/Structures/Implementations/Lists/DLinkedList.h:74-76 | cursor at the start, elements unchanged |
| DLinkedList.GoToEnd | include/Structures/Implementations/Lists/DLinkedList.h:77-79 | cursor at the end, elements unchanged |
| DLinkedList.GoToPos | include/Structures/Implementations/Lists/DLinkedList.h:80-94 | moves to any position 0 to size, walking from whichever end is nearer; anything else fails with "Index out of bounds." |
| DLinkedList.Next | include/Structures/Implementations/Lists/DLinkedList.h:95-98 | one step on, or no change at the end |
| DLinkedList.Previous | include/Structures/Implementations/Lists/DLinkedList.h:99-102 | one step back, or no change at the start |
| DLinkedList.GetPos | include/Structures/Implementations/Lists/DLinkedList.h:109-117 | the cursor's position; 0 exactly at the start and the size exactly at the end |
| DLinkedList.StepsUndo | include/Structures/Implementations/Lists/DLinkedList.h:95-102 | next then previous away from the end, and previous then next away from the start, leave the list as it was |
| DLinkedList.IndexOf | include/Structures/Implementations/Lists/DLinkedList.h:135-147 | the first position from start holding the element, or -1 when none does; a start outside the list fails with "Index out of bounds." |
| DLinkedList.Contains | include/Structures/Implementations/Lists/DLinkedList.h:149-158 | true exactly when the element is stored; when found the cursor is on its first occurrence, otherwise at the end |
| LinkedList.Take | include/Structures/Implementations/Lists/LinkedList.h:24-33 | a new node comes from the free list when it has one, and only otherwise is allocated |
| LinkedList.New | include/Structures/Implementations/Lists/LinkedList.h:41-45 | only the head: empty, cursor at the start and the end, no spare nodes |
| LinkedList.Insert | include/Structures/Implementations/Lists/LinkedList.h:57-62 | the element becomes current and the others keep their order; the tail follows when inserting at the end; a free node is reused before a new one is allocated |
| LinkedList.Append | include/Structures/Implementations/Lists/LinkedList.h:64-67 | the element goes after the last, the cursor stays, a free node is reused when there is one |
| LinkedList.CheckCurrent | include/Structures/Implementations/Lists/LinkedList.h:69-73 | fails exactly at the end: "List is empty" (no full stop) with no elements, "No current element." otherwise |
| LinkedList.Remove | include/Structures/Implementations/Lists/LinkedList.h:69-82 | returns the current element and puts its node on the free list, so the nodes owned stay the same; re-inserting it, which reuses that node, restores the list |
| LinkedList.GetElement | include/Structures/Implementations/Lists/LinkedList.h:84-90 | the element under the cursor, with the two errors above |
| LinkedList.Clear | include/Structures/Implementations/Lists/LinkedList.h:92-100 | no elements, cursor at the start, every node released to the free list |
| LinkedList.GoToStart | include/Structures/Implementations/Lists/LinkedList.h:102-104 | cursor at the start; elements and free list unchanged |
| LinkedList.GoToEnd | include/Structures/Implementations/Lists/LinkedList.h:106-108 | cursor at the end; elements and free list unchanged |
| LinkedList.GoToPos | include/Structures/Implementations/Lists/LinkedList.h:110-116 | moves to any position 0 to size; anything else fails with "Index out of bounds." |
| LinkedList.Next | include/Structures/Implementations/Lists/LinkedList.h:118-121 | one step on, or no change at the end |
| LinkedList.Previous | include/Structures/Implementations/Lists/LinkedList.h:123-130 | one step back, found by walking from the head, and next undoes it; no change at the start |
| LinkedList.GetPos | include/Structures/Implementations/Lists/LinkedList.h:140-148 | the cursor's position; 0 exactly at the start and the size exactly at the end |
| LinkedList.IndexOfAsWritten | include/Structures/Implementations/Lists/LinkedList.h:168-180 | the walk compares position i with the node i links from the head, the sentinel first |
| LinkedList.IndexOfMissesLast | include/Structures/Implementations/Lists/LinkedList.h:168-180 | on the list [5] the search for 5 answers -1 |
| LinkedList.IndexOfReportsSentinel | include/Structures/Implementations/Lists/LinkedList.h:168-180 | with the sentinel holding 7, the search for 7 on the list [5] answers 0 |
| LinkedList.IndexOf | include/Structures/Implementations/Lists/LinkedList.h:168-180 | the first position from start whose element is x, none earlier, or -1 when x is not there; a start outside the list fails with "Index out of bounds." |
| LinkedList.Contains | include/Structures/Implementations/Lists/LinkedList.h:182-184 | true exactly when x is the sentinel or one of the elements before the last, because it inherits indexOf's walk from the head; an empty list fails with "Index out of bounds." |
| LinkedList.ContainsMissesLast | include/Structures/Implementations/Lists/LinkedList.h:182-184 | on the list [5] with the sentinel holding 0, contains(5) answers false |
| LinkedList.ContainsCorrected | include/Structures/Implementations/Lists/LinkedList.h:182-184 | with the corrected indexOf, true exactly when the element is stored; an empty list fails with "Index out of bounds." |
| LinkedList.ReversedPos | include/Structures/Implementations/Lists/LinkedList.h:186-198 | the cursor stays on its node: the head stays at 0 and any other node k moves to n - k + 1 |
| LinkedList.ReverseAsWritten | include/Structures/Implementations/Lists/LinkedList.h:186-198 | the elements reversed; the tail becomes the old first node, which on an empty list is null |
| LinkedList.ReverseEmptyLosesTail | include/Structures/Implementations/Lists/LinkedList.h:196 | reversing an empty list leaves it with no tail and not at its end |
| LinkedList.Reverse | include/Structures/Implementations/Lists/LinkedList.h:186-198 | the elements reversed, cursor on the same node, tail on the last node, free list unchanged; agrees with the code on every non-empty list |
| LinkedList.ReverseTwice | include/Structures/Implementations/Lists/LinkedList.h:186-198 | reversing twice gives back the same list |
| LinkedList.ReverseCurrent | include/Structures/Implementations/Lists/LinkedList.h:186-198 | after reverse the current element is the one two before the cursor, or the cursor is at the end when it was after the first element |
| CircleList.NewEmpty | include/Structures/Implementations/Lists/CircleList.h:18 | an empty ring, whose front and back both fail |
| CircleList.Insert | include/Structures/Implementations/Lists/CircleList.h:24-34 | the element becomes the front; the back is unchanged, or is the element when the ring was empty; the old elements follow in order |
| CircleList.Remove | include/Structures/Implementations/Lists/CircleList.h:36-52 | returns the front and unlinks it; inserting it back restores the ring; the only element leaves the ring empty; an empty ring fails with "List is empty." |
| CircleList.Clear | include/Structures/Implementations/Lists/CircleList.h:54-58 | the ring ends empty |
| CircleList.GetFront | include/Structures/Implementations/Lists/CircleList.h:60-64 | the first element; "List is empty." on an empty ring |
| CircleList.GetBack | include/Structures/Implementations/Lists/CircleList.h:66-70 | the last element, the same as the front when there is one; "List is empty." on an empty ring |
| CircleList.Next | include/Structures/Implementations/Lists/CircleList.h:72-76 | the same elements turned one step: the old front becomes the back and the rest move up one; "List is empty." on an empty ring |
| CircleList.Back | include/Structures/Implementations/Lists/CircleList.h:78-87 | the ring turned one step backward: the old back becomes the front |
| CircleList.Previous | include/Structures/Implementations/Lists/CircleList.h:78-87 | the walk round the ring to the node before current turns the ring one step backward; "List is empty." on an empty ring |
| CircleList.NextBackInverse | include/Structures/Implementations/Lists/CircleList.h:72-87 | next and previous undo each other on a non-empty ring |
| CircleList.IndexOf | include/Structures/Implementations/Lists/CircleList.h:124-138 | the first position from start, counted from the front, that holds the element, or -1; a start outside the ring fails with "Index out of bounds." |
| CircleList.Contains | include/Structures/Implementations/Lists/CircleList.h:140-142 | true exactly when the element is stored; an empty ring fails with "Index out of bounds." |
| DCircleList.Previous | include/Structures/Implementations/Lists/DCircleList.h:154-158 | one step along the back link: the old back becomes the front, and next undoes it; "List is empty." on an empty ring |
| DCircleList.StepsUndo | include/Structures/Implementations/Lists/DCircleList.h:142-158 | previous undoes next on a non-empty ring |
| DCircleList.InsertUpTo | exclude/DCircleListTest.cpp:9-14 | inserting 0 to n-1 into a new ring gives n elements |
| DCircleList.InsertUpToDescends | exclude/DCircleListTest.cpp:12-14 | after those inserts the ring reads n-1 down to 0 from the front |
| DCircleList.InsertUpToTen | exclude/DCircleListTest.cpp:9-14 | the test program's ten inserts leave the ring reading 9 down to 0 |
| DCircleList.RemoveThenInsert | exclude/DCircleListTest.cpp:17-21 | on a ring reading 9 down to 0, remove returns 9 and leaves 8 down to 0, and inserting 100 then puts it at the front |
| DCircleList.TestProgram | exclude/DCircleListTest.cpp:9-22 | the test program's remove returns 9 and leaves 8 down to 0, and inserting 100 puts it at the front |
| ArrayStack.New | include/Structures/Implementations/Stacks/ArrayStack.h:19-25 | "Invalid max size." exactly for a capacity below 1; otherwise an empty stack of that capacity |
| ArrayStack.Push | include/Structures/Implementations/Stacks/ArrayStack.h:29-34 | the element goes on top; fails with "Stack overflow." exactly when full |
| ArrayStack.Pop | include/Structures/Implementations/Stacks/ArrayStack.h:35-40 | returns the top element and leaves the contents below it; fails with "Stack is empty." exactly when empty |
| ArrayStack.TopValue | include/Structures/Implementations/Stacks/ArrayStack.h:41-45 | the last pushed element; "Stack is empty." when empty |
| ArrayStack.Clear | include/Structures/Implementations/Stacks/ArrayStack.h:46-50 | empty, same capacity |
| ArrayStack.GetSize | include/Structures/Implementations/Stacks/ArrayStack.h:54-56 | the number of elements, never above the capacity; 0 exactly when isEmpty |
| ArrayStack.PushThenPop | include/Structures/Implementations/Stacks/ArrayStack.h:29-40 | pop right after a successful push returns the pushed element and the earlier contents |
| LinkedStack.NewEmpty | include/Structures/Implementations/Stacks/LinkedStack.h:18-21 | an empty stack with no top |
| LinkedStack.Push | include/Structures/Implementations/Stacks/LinkedStack.h:25-28 | the element goes on top of the earlier stack; never fails |
| LinkedStack.Pop | include/Structures/Implementations/Stacks/LinkedStack.h:29-38 | returns the top element and pushing it back restores the stack; "Stack is empty." exactly when empty |
| LinkedStack.TopValue | include/Structures/Implementations/Stacks/LinkedStack.h:39-43 | the top element; "Stack is empty." when empty |
| LinkedStack.Clear | include/Structures/Implementations/Stacks/LinkedStack.h:44-51 | empty |
| LinkedStack.GetSize | include/Structures/Implementations/Stacks/LinkedStack.h:55-57 | 0 exactly when isEmpty |
| LinkedStack.PushThenPop | include/Structures/Implementations/Stacks/LinkedStack.h:25-38 | pop right after push returns the pushed element and the earlier stack |
| ArrayQueue.Wrap | include/Structures/Implementations/Queues/ArrayQueue.h:71 | an index at most one lap past the buffer, brought back inside it |
| ArrayQueue.ModSmall | include/Structures/Implementations/Queues/ArrayQueue.h:71 | the code's `% max` on such an index is that single wrap |
| ArrayQueue.Contents | include/Structures/Implementations/Queues/ArrayQueue.h:129-137 | the queue read from the front slot on, wrapping at the capacity, one element per stored item |
| ArrayQueue.New | include/Structures/Implementations/Queues/ArrayQueue.h:46-52 | "Invalid max size." exactly for a capacity below 1; otherwise an empty queue of that capacity |
| ArrayQueue.Enqueue | include/Structures/Implementations/Queues/ArrayQueue.h:67-73 | the element joins the back of the contents; "Queue is full." exactly when full |
| ArrayQueue.Dequeue | include/Structures/Implementations/Queues/ArrayQueue.h:81-87 | returns the front element, read back from the slot before the advanced front, and leaves the rest in order; "Queue is empty." exactly when empty |
| ArrayQueue.FrontValue | include/Structures/Implementations/Queues/ArrayQueue.h:95-99 | the oldest element; "Queue is empty." when empty |
| ArrayQueue.Clear | include/Structures/Implementations/Queues/ArrayQueue.h:104-106 | empty, indices at 0, same capacity |
| ArrayQueue.GetSize | include/Structures/Implementations/Queues/ArrayQueue.h:122-124 | the number of elements, never above the capacity; 0 exactly when isEmpty |
| ArrayQueue.EnqueueDequeueCommute | include/Structures/Implementations/Queues/ArrayQueue.h:67-87 | first in, first out: on a non-empty queue that is not full, enqueue then dequeue returns the same element and leaves the same contents as dequeue then enqueue |
| LinkedQueue.NewEmpty | include/Structures/Implementations/Queues/LinkedQueue.h:44-47 | empty, with the back on the sentinel |
| LinkedQueue.Enqueue | include/Structures/Implementations/Queues/LinkedQueue.h:62-65 | the element joins the back and is the new back value; never fails |
| LinkedQueue.Dequeue | include/Structures/Implementations/Queues/LinkedQueue.h:73-82 | returns the front element and leaves the rest in order; the back returns to the sentinel when the queue empties; "Queue is empty" exactly when empty |
| LinkedQueue.FrontValue | include/Structures/Implementations/Queues/LinkedQueue.h:90-93 | the first element; "Queue is empty" when empty |
| LinkedQueue.Clear | include/Structures/Implementations/Queues/LinkedQueue.h:98-106 | empty, back on the sentinel |
| LinkedQueue.GetSize | include/Structures/Implementations/Queues/LinkedQueue.h:122-124 | 0 exactly when isEmpty |
| LinkedQueue.EnqueueFront | include/Structures/Implementations/Queues/LinkedQueue.h:131-139 | the element goes in front; it is also the back when the queue was empty, otherwise the back is unchanged |
| LinkedQueue.DequeueBack | include/Structures/Implementations/Queues/LinkedQueue.h:147-159 | returns the back element, found by walking from the sentinel, and enqueueing it again restores the queue; "Queue is empty" when empty |
| LinkedQueue.BackValue | include/Structures/Implementations/Queues/LinkedQueue.h:167-170 | the last element; "Queue is empty" when empty |
| LinkedQueue.FrontAndBack | include/Structures/Implementations/Queues/LinkedQueue.h:62-82 | dequeue undoes enqueueFront, and on an empty queue dequeue returns what enqueue added |
| MinHeap.Items | include/Structures/Implementations/Queues/MinHeap.h:228-238 | the live slots 0 to size-1, in array order |
| MinHeap.Parent | include/Structures/Implementations/Queues/MinHeap.h:67-69 | every slot but the root has a parent before it |
| MinHeap.ParentOfChildren | include/Structures/Implementations/Queues/MinHeap.h:67-89 | both children of p have p as parent, and every slot but the root is a child of its parent |
| MinHeap.RootIsMin | include/Structures/Implementations/Queues/MinHeap.h:41-46 | in a heap-ordered array no element's key is below the root's |
| MinHeap.MinAtRoot | include/Structures/Implementations/Queues/MinHeap.h:167-171 | the root of a non-empty ordered heap has the smallest key |
| MinHeap.Swap | include/Structures/Implementations/Queues/MinHeap.h:107-111 | the two slots exchange their elements, every other slot is unchanged, and the multiset of elements is kept |
| MinHeap.UpStep | include/Structures/Implementations/Queues/MinHeap.h:41-46 | one swap with the parent moves a single upward violation one level up |
| MinHeap.SiftUp | include/Structures/Implementations/Queues/MinHeap.h:41-46 | keeps the elements as a multiset, and an array ordered everywhere except above pos comes out ordered |
| MinHeap.MinChild | include/Structures/Implementations/Queues/MinHeap.h:119-123 | a child of pos whose key is at most both children's keys: the left one when there is no right child or the left key is strictly smaller, the right one on a tie |
| MinHeap.DownStep | include/Structures/Implementations/Queues/MinHeap.h:53-59 | one swap with the smaller child moves a single downward violation one level down |
| MinHeap.DownDone | include/Structures/Implementations/Queues/MinHeap.h:53-59 | when pos is a leaf or no larger than its smaller child, the array is ordered |
| MinHeap.SiftDown | include/Structures/Implementations/Queues/MinHeap.h:53-59 | keeps the elements as a multiset, and an array ordered everywhere except below pos comes out ordered |
| MinHeap.New | include/Structures/Implementations/Queues/MinHeap.h:132-138 | "Invalid max size." exactly for a capacity below 1; otherwise an empty heap of that capacity |
| MinHeap.NewDefault | include/Structures/Implementations/Queues/MinHeap.h:10 | the constructor called without a capacity cannot fail and gives an empty heap of capacity 1024 |
| MinHeap.AppendBreaksUp | include/Structures/Implementations/Queues/MinHeap.h:153-159 | an element appended to an ordered heap violates the order only above it |
| MinHeap.Insert | include/Structures/Implementations/Queues/MinHeap.h:153-159 | the element joins the heap and an ordered heap stays ordered; "Heap is full." exactly when full |
| MinHeap.First | include/Structures/Implementations/Queues/MinHeap.h:167-171 | slot 0, which on an ordered heap has the smallest key; "Heap is empty." when empty |
| MinHeap.Refill | include/Structures/Implementations/Queues/MinHeap.h:190-195 | the last live element moves into slot pos, the heap loses one slot, and the element taken out is the one at pos |
| MinHeap.RefillBreaksUp | include/Structures/Implementations/Queues/MinHeap.h:190-196 | when the moved element is below its new parent, the order is broken only above pos |
| MinHeap.RefillBreaksDown | include/Structures/Implementations/Queues/MinHeap.h:190-196 | otherwise the order is broken only below pos |
| MinHeap.Rebuild | include/Structures/Implementations/Queues/MinHeap.h:194-197 | the new live slots, with the removed element left in the slot just past them, where remove reads it |
| MinHeap.RemoveAsWritten | include/Structures/Implementations/Queues/MinHeap.h:190-198 | the code's remove: returns the element at pos, one fewer element, multiset kept; sifts only down |
| MinHeap.ExampleOrdered | include/Structures/Implementations/Queues/MinHeap.h:190-198 | the heap [1, 5, 2, 6, 7, 3, 4] is ordered |
| MinHeap.ExampleRefill | include/Structures/Implementations/Queues/MinHeap.h:194-195 | removing slot 3 of it puts 4 in slot 3 |
| MinHeap.ExampleSiftDown | include/Structures/Implementations/Queues/MinHeap.h:196 | siftDown leaves slot 3 of six, a leaf, in place |
| MinHeap.RemoveAsWrittenBreaksOrder | include/Structures/Implementations/Queues/MinHeap.h:190-198 | removing slot 3 of that ordered heap leaves 4 under its parent 5, which is not a heap |
| MinHeap.Remove | include/Structures/Implementations/Queues/MinHeap.h:190-198 | returns the element at pos, one fewer element, multiset kept, and an ordered heap stays ordered; "Index out of bounds." exactly for pos outside the heap |
| MinHeap.RemoveAgreesAtRoot | include/Structures/Implementations/Queues/MinHeap.h:179-181 | at the root the corrected remove and the code's remove agree |
| MinHeap.RemoveFirst | include/Structures/Implementations/Queues/MinHeap.h:179-181 | removes and returns slot 0, which on an ordered heap is first's smallest element, and keeps the order; "Index out of bounds." when empty |
| MinHeap.Get | include/Structures/Implementations/Queues/MinHeap.h:247-252 | the element in slot i; "Index out of bounds." for i outside the heap |
| MinHeap.Clear | include/Structures/Implementations/Queues/MinHeap.h:203-205 | empty, same capacity |
| MinHeap.GetSize | include/Structures/Implementations/Queues/MinHeap.h:221-223 | the number of live slots, never above the capacity; 0 exactly when isEmpty |
| HeapPriorityQueue.New | include/Structures/Implementations/Queues/HeapPriorityQueue.h:34-36 | an empty heap of pairs; the heap's "Invalid max size." for a capacity below 1 |
| HeapPriorityQueue.Insert | include/Structures/Implementations/Queues/HeapPriorityQueue.h:51-54 | the pair (priority, element) joins the heap and the order by priority is kept; "Heap is full." when full |
| HeapPriorityQueue.Min | include/Structures/Implementations/Queues/HeapPriorityQueue.h:61-64 | the element of a pair with the smallest priority; "Heap is empty." when empty |
| HeapPriorityQueue.RemoveMin | include/Structures/Implementations/Queues/HeapPriorityQueue.h:71-74 | removes that pair and returns its element, one pair fewer, order kept; the heap's "Index out of bounds." when empty |
| HeapPriorityQueue.Clear | include/Structures/Implementations/Queues/HeapPriorityQueue.h:79-81 | empty, same capacity |
| HeapPriorityQueue.UrgentComesFirst | include/Structures/Implementations/Queues/HeapPriorityQueue.h:51-64 | an element inserted with a priority below every stored one is the next min |
| LinkedPriorityQueue.TotalZero | include/Structures/Implementations/Queues/LinkedPriorityQueue.h:106-117 | the levels hold nothing exactly when every level is empty |
| LinkedPriorityQueue.LowestFrom | include/Structures/Implementations/Queues/LinkedPriorityQueue.h:78-80 | the first non-empty level from i on, or the number of levels when none is |
| LinkedPriorityQueue.Lowest | include/Structures/Implementations/Queues/LinkedPriorityQueue.h:78-80 | the first non-empty level, every level before it empty |
| LinkedPriorityQueue.ServedLevelExists | include/Structures/Implementations/Queues/LinkedPriorityQueue.h:76-82 | a queue with elements has a non-empty level, so the scan always finds one |
| LinkedPriorityQueue.NewEmpty | include/Structures/Implementations/Queues/LinkedPriorityQueue.h:43-48 | that many empty levels; "Invalid number of priorities" exactly when the count is not positive |
| LinkedPriorityQueue.Insert | include/Structures/Implementations/Queues/LinkedPriorityQueue.h:64-68 | the element joins the back of its level only, and the count grows by one; "Invalid priority" exactly for a level outside 0 to priorities-1 |
| LinkedPriorityQueue.Min | include/Structures/Implementations/Queues/LinkedPriorityQueue.h:76-82 | the front of the lowest non-empty level; "Queue is empty" exactly when empty |
| LinkedPriorityQueue.RemoveMin | include/Structures/Implementations/Queues/LinkedPriorityQueue.h:90-99 | dequeues from the lowest non-empty level only, returning its front, and the count drops by one; "Queue is empty" exactly when empty |
| LinkedPriorityQueue.Clear | include/Structures/Implementations/Queues/LinkedPriorityQueue.h:122-127 | every level empty, count 0, same number of levels |
| LinkedPriorityQueue.GetSize | include/Structures/Implementations/Queues/LinkedPriorityQueue.h:106-108 | 0 exactly when every level is empty |
| LinkedPriorityQueue.LowestAfterInsert | include/Structures/Implementations/Queues/LinkedPriorityQueue.h:64-82 | after an insert at level p the level served is p when it is lower than the level served before, and that level otherwise |

## Left out

- Printing (`print`, `operator<<`) and the destructors: output and memory release have no counterpart in a value model.
- The abstract interfaces (`List`, `Stack`, `Queue`, `PriorityQueue`, `Dictionary`, both editions): they declare operations without behaviour.
- HashTable and its test program: outside the containers modelled here.
- `equals` and `extend` of the lists and rings, `reverse` of DLinkedList, CircleList and DCircleList: whole-list utilities not used by any other operation here. For rings, equality of the element sequences is Dafny's own `==`.
- The driver programs other than the AVL driver and the ring test (the list test programs, the AVL dictionary test): they only print.
- The AVL driver's printouts of the height, the rotation count and the leaves are not computed: the proof fixes the outcome and the in-order listing only.
- The other default arguments, `start = 0` of every list's indexOf and `priority = 0` of the linked priority queue's insert, are not separate members: a call that relies on them is the modelled call with 0 (for example `IndexOf(l, x, 0)`, the call LinkedList.Contains makes).
- The default capacity `DEFAULT_MAX` (1024) is modelled as a default argument only for ArrayList and MinHeap, whose headers define it (ArrayList.NewDefault, MinHeap.NewDefault); the other array-backed constructors take the capacity as an explicit parameter, and their default is the call with 1024. The default-constructed slots of `new E[max]` become a `filler` parameter.
- Complexity (the nearer-end walk of DLinkedList goToPos, the array doubling cost) is not stated; only results are.
- The back links of DLinkedList and DCircleList are implied by the order of the sequence; they are not stored separately.
- KVPair's copy constructor and assignment operator: value semantics in Dafny make them the identity.
- include/Estructuras/Concretas/Arboles/AVLTree.h is not part of this model: the legacy AVLDictionary's rows use the current AVL tree.
- LinkedList and OrderedArrayList define no `set`, so there is nothing to model for them.
- LinkedPriorityQueue's "Queue not found" exception after the scan cannot be raised while the count matches the levels (ServedLevelExists), so min and removeMin have no such branch. The legacy edition has no `clear`.
- The Dictionary.h comment for `setValue` promises to add an absent key; the code fails instead, and the model follows the code: the unsorted-array dictionary fails with "Key not found.", and the BST, AVL and splay dictionaries, which set a value by removing and reinserting the pair, fail with the tree's "Element not found.".
- Arithmetic overflow of `int` counters (size, rotation count) is not modelled: no container reaches `INT_MAX` elements.
- AVLTree.Remove: models the code as written, so it keeps the search order and the element set but does not promise balance; AVLTree.RemoveRebalanced carries the balance promise.
- HeapPriorityQueue.GetSize: no contract of its own; it is MinHeap.GetSize.

## Findings

Each row was found while stating the natural contract. Nothing was executed.

| source | as written | input that shows it | evidently intended | confidence | as-written member | corrected member |
|---|---|---|---|---|---|---|
| include/Structures/Implementations/Trees/AVLTree.h:86-91 | the two-child branch of removeAux swaps with the successor, recurses right, and returns without rebalancing | insert 5, 3, 6, 2, then remove 5: the root 6 has a left subtree of height 2 and no right subtree | rebalance after the recursive call, as in the other two branches | high, not executed | AVLTree.RemoveAsWrittenUnbalances | AVLTree.RemoveRebalanced |
| include/Estructuras/Concretas/Arboles/SplayTree.h:281-284 | the legacy clear frees every node but keeps `last` | insert any element, clear, then find any key: splay follows the freed node | reset `last` with the root, as the current edition does | high, not executed | SplayTree.LegacyClearLeavesDangling | SplayTree.ClearKeepsValid |
| include/Structures/Implementations/Lists/LinkedList.h:168-180 | indexOf starts its walk at the head sentinel, so index i is compared with element i-1 | the list [5]: indexOf(5) returns -1 | start at head->next, as DLinkedList does | high, not executed | LinkedList.IndexOfMissesLast | LinkedList.IndexOf |
| include/Structures/Implementations/Lists/LinkedList.h:186-198 | reverse sets the tail to the old first node, which is null on an empty list | reverse an empty list, then append: the append follows a null tail | leave the tail on the head when the list is empty | high, not executed | LinkedList.ReverseEmptyLosesTail | LinkedList.Reverse |
| include/Structures/Implementations/Lists/LinkedList.h:182-184 | contains calls that indexOf from 0, so it never compares the last element and does compare the sentinel | the list [5] with the sentinel holding 0: contains(5) returns false | call the corrected indexOf | high, not executed | LinkedList.ContainsMissesLast | LinkedList.ContainsCorrected |
| include/Structures/Implementations/Queues/MinHeap.h:190-198 | remove(pos) moves the last element into pos and only sifts down | the heap [1, 5, 2, 6, 7, 3, 4], remove(3): 4 lands under 5 | sift up when the moved element is below its parent | high, not executed | MinHeap.RemoveAsWrittenBreaksOrder | MinHeap.Remove |

The dictionaries and the AVL driver use AVLTree.Remove as written, because they model what the program does. The defect changes only the shape, never the keys or the in-order listing, so everything they promise holds for both versions. The heap priority queue uses MinHeap.RemoveFirst, where the two versions of remove agree (MinHeap.RemoveAgreesAtRoot). LinkedList.Contains models contains as written, on top of IndexOfAsWritten; LinkedList.ContainsCorrected is the corrected version.
