# Verified model of a C data-structure library

This project models the algorithmic core of a C library of data structures and proves
that each structure does what the library says it does. It covers the red-black tree,
the B-tree, the skip list, the segment tree, union-find, the linked list, the wavelet
tree, the cuckoo hash table, the k-d tree, the shortest-path, topological-order and
cycle algorithms on graphs, and the single-producer single-consumer ring buffer.

`dafny verify dfyconfig.toml` checks the whole project.

How the model is built:

- Structures that the library changes in place are classes whose methods change fields
  and arrays. A node's fixed-size buffers (the keys and children of a B-tree node, the
  forward pointers of a skip-list node) lie inside the C structure, so they are sequences
  of fixed length that the methods update cell by cell.
- A pointer structure is described by a value (a tree, or a sequence of nodes) and a
  predicate saying that the nodes hold it. Methods take and return that value as ghost
  parameters. What an operation does is stated about the values; `Valid()` of each class
  ties the two together. Some long C functions are split into one method per branch.
- The ring buffer is modelled twice: as a protocol whose steps are the single loads, slot
  accesses and publishing stores of both parties in any interleaving, and as a class
  whose calls are four such steps.
- Integers are unbounded; only the
  counters of the ring buffer wrap at 2^64. Infinite distances are a value of their own
  instead of `INT_MAX` or `DBL_MAX`. Coordinates of the k-d tree are exact reals.
- Adjacency is a sequence of rows in the order in which the C lists are walked.

Where the code and its comments disagree, the model follows the code:

- `red_black_tree.c` is titled left-leaning but is the classic red-black tree.
- `bt_delete` can leave the key in the tree: when the key is met in an inner node whose
  two adjacent children are minimal, the repair before the descent prefers to borrow from
  the child further left, which leaves the key where it is. `BTreeDeletion.DeletedIff`
  gives the exact condition for distinct keys, `BTreeRuns.KeptRun` a run of ten operations
  that ends so. `bt_insert` accepts duplicates; with them the deletion may double another
  key instead, as `BTreeRuns.SwappedRun` shows. What is there once too often afterwards is
  called the surplus; `BTreeDeletion.FailsIff` tells from the tree before when there is one.
  `size` drops all the same, so it is an integer of its own and not tied to the number of
  keys.
- `bt_range_scan` skips children behind a separator that reaches the upper end, which can
  miss copies of the upper end: `BTrees.RangeFrom` says exactly when, `BTreeRuns.MissedRun`
  is a run that does.
- `graph_dijkstra` has room for 4n heap entries and does not check it. The model stops
  where the code would write past its arrays, and says so in a flag, which is raised
  exactly if `DijkstraRuns.Overflows` holds of the graph. `Dijkstra.NineEdges` is a run
  that overflows; `DijkstraRuns.EdgeBoundExact` says that 4n edges are exactly what is
  always safe.
- `cuckoo_insert` does not look whether the key is there. It may then store it twice or
  drop the new value, and counts every success. `CuckooWalks.StoredAgain` says exactly
  when, `CuckooTables.TwiceRun` and `CuckooTables.DroppedRun` are runs in which it happens.
  For a new key `CuckooWalks.StoredNew` says exactly when there is room.
- `wt_quantile` always returns -1, because the tree has no leaf nodes; its descent is
  right, and `WaveletTrees.WaveletTree.Quantile` says what it has found.
- `next_pow2` does not end for arguments above 2^63.
- On a graph with cycles `dag_topo_kahn` stops short and `dag_critical_path` goes on with
  what has come out; `DagPaths.Dag.CriticalPath` says what its entries are then.
- `dag_add_edge` ignores the weight, so the critical path counts edges.
- `wt_rank` takes a letter outside the alphabet for the nearest one, and `cuckoo_get` of
  the reserved key -1 reports whether a slot is empty.

## Model

| member | source | states |
|---|---|---|
| `RedBlackTree.RBTree.constructor` | src/trees/red_black_tree.c:23-33 | A new tree is consistent and stores nothing; the sentinel, root and cached minimum agree. |
| `RedBlackTree.RBTree.RotateLeft` | src/trees/red_black_tree.c:57-67 | The nodes afterwards hold the left-rotated tree in the same place, every parent link included. |
| `RedBlackTree.RBTree.RotateRight` | src/trees/red_black_tree.c:69-79 | The mirror image. |
| `RedBlackLinks.LeftRotationAt` | src/trees/red_black_tree.c:57-67 | The link changes of a left rotation turn a stored tree into the rotated one and touch nothing around it. |
| `RedBlackTree.RBTree.InsertFixup` | src/trees/red_black_tree.c:89-126 | From a red node hung anywhere, the loop ends with a red-black tree with the same keys in order, however many recolourings and rotations it takes. |
| `RedBlackTree.RBTree.Insert` | src/trees/red_black_tree.c:128-151 | Order, colours, black heights, links, cached minimum and size are kept; the stored map is the old one with key set to val, present or not. |
| `RedBlackShape.HangEntry` | src/trees/red_black_tree.c:128-151 | A new entry where the search ends keeps the keys ascending, adds exactly that pair, and is the new minimum exactly if it is below the old one. |
| `RedBlackShape.OverwriteEntry` | src/trees/red_black_tree.c:128-151 | Overwriting a value keeps the order and the minimum and updates exactly one pair of the map. |
| `RedBlackTree.RBTree.Search` | src/trees/red_black_tree.c:153-161 | Finds a node exactly if the key is stored, and that node carries the stored value. |
| `RedBlackTree.RBTree.Minimum` | src/trees/red_black_tree.c:164-166 | The cached node is null exactly on the empty tree and otherwise holds the least stored key. |
| `RedBlackTree.RBTree.Successor` | src/trees/red_black_tree.c:175-184 | The node of the least stored key above the given one, or null if there is none, found by links alone. |
| `RedBlackTree.RBTree.TransplantChild` | src/trees/red_black_tree.c:186-191 | A child takes the place of its parent in the links; the colour of the sentinel is untouched, its parent field may change. |
| `RedBlackTree.RBTree.TakeOut` | src/trees/red_black_tree.c:195-233 | Unlinks one node: the remaining keys are the old ones without its key, and the colours are right up to one missing black exactly if a black node left. |
| `RedBlackTree.RBTree.DeleteFixup` | src/trees/red_black_tree.c:235-274 | From a subtree one black short, the loop ends with a red-black tree with the same keys in order. |
| `RedBlackTree.RBTree.Delete` | src/trees/red_black_tree.c:195-233 | Everything Valid says is kept, and the stored map is the old one without key, present or not. |
| `RedBlackShape.SuccessorInOrder` | src/trees/red_black_tree.c:195-233 | Putting the successor in the place of a node with two children leaves the other keys in order. |
| `RedBlackTree.RBTree.CheckBlackHeight` | src/trees/red_black_tree.c:287-294 | On nodes that hold a tree, parent fields aside: the number of black nodes on every path if all paths agree and no red node has a red child, and -1 exactly if not. |
| `RedBlackTree.RBTree.IsValid` | src/trees/red_black_tree.c:296-300 | True exactly if the tree satisfies the red-black rules, whatever the parent fields hold. |
| `RedBlackTree.RBTree.ValidIsChecked` | src/trees/red_black_tree.c:296-300 | Every tree the operations produce can be checked and passes. |
| `RedBlackShape.HeightBound` | src/trees/red_black_tree.c:11 | A red-black tree with n keys has height at most 2 log2(n + 1), as 2^height <= (n + 1)^2. |
| `RedBlackTree.RBTree.HeightIsLogarithmic` | src/trees/red_black_tree.c:11 | In every reachable tree size is the number of stored keys and bounds the height in this way. |
| `Walks.LongWalkCyclic` | src/graph/graph.c:120-134 | A walk of at least n hops contains a cycle. |
| `Walks.FewHops` | src/graph/graph.c:120-127 | Every reachable vertex is reached in fewer than n hops, negative cycles or not. |
| `Walks.Shorten` | src/graph/graph.c:120-134 | If no negative cycle lies on the way to the target, every walk to it can be cut down to fewer than n hops without gaining weight. |
| `ShortestPaths.BellmanFord` | src/graph/graph.c:120-134 | The flag is set exactly if a negative cycle is reachable from the source. Whatever it says, an entry is finite exactly if the vertex is reachable, and the minimum weight over all walks if no negative cycle leads to the vertex; behind such a cycle it is the weight of a walk of at most n - 1 times m hops and no more than that of any walk of n - 1 hops. |
| `ShortestPaths.PassesDone` | src/graph/graph.c:123-127 | What n - 1 passes settle vertex by vertex when some negative cycle is reachable. |
| `ShortestPaths.EnoughPasses` | src/graph/graph.c:123-127 | n - 1 passes settle all distances if no negative cycle is reachable. |
| `ShortestPaths.SettledShortest` | src/graph/graph.c:128-133 | Distances that no edge relaxes and that walks witness are the shortest ones, and there is no reachable negative cycle. |
| `ShortestPaths.ShortestIsUnique` | src/graph/graph.c:120-134 | At most one distance meets the definition of shortest. |
| `MinHeap.Push` | src/graph/graph.c:85-91 | The two arrays stay a heap and gain exactly one entry; slot by slot they are what sifting up leaves. |
| `MinHeap.Pop` | src/graph/graph.c:92-100 | The two arrays stay a heap and lose exactly the entry at the root; slot by slot they are what sifting down leaves. |
| `MinHeap.PoppedWay` | src/graph/graph.c:92-100 | Where everything is after a pop: the last entry goes down from the root, and wherever it passes two children the left one moves up unless the right one is strictly less. |
| `MinHeap.PoppedTie` | src/graph/graph.c:94-97 | Of two equal children of the root the left one becomes the root, and the right one stays where it is. |
| `MinHeap.SiftUpHeap` | src/graph/graph.c:87-91 | Sifting up repairs an order that fails only above one slot. |
| `MinHeap.SiftDownHeap` | src/graph/graph.c:94-100 | Sifting down repairs an order that fails only below one slot. |
| `MinHeap.RootLeast` | src/graph/graph.c:104 | The root of a heap has the least key. |
| `Dijkstra.SettleNext` | src/graph/graph.c:103-105 | The least entry of an unvisited vertex carries its current distance, and every settled vertex is at most that far. |
| `Dijkstra.DropStale` | src/graph/graph.c:105 | Dropping a stale entry leaves an entry at the current distance for every unvisited vertex that has one. |
| `Dijkstra.Expand` | src/graph/graph.c:106-111 | Relaxing the edges of a settled vertex keeps the heap, its coverage of the frontier and the settled distances. |
| `Dijkstra.Step` | src/graph/graph.c:103-112 | One round keeps the loop invariant and uses up one entry or one vertex. |
| `Dijkstra.ShortestDistances` | src/graph/graph.c:74-115 | With non-negative weights every entry is the exact shortest distance, infinite exactly if unreachable, unless a push finds the 4n heap entries used up; that happens exactly on the graphs whose run, a function of the graph, overflows. |
| `DijkstraRuns.FewEdges` | src/graph/graph.c:79-91 | With at most 4n edges no push finds the heap arrays full. |
| `DijkstraRuns.BundleOverflows` | src/graph/graph.c:79-111 | m > 4n parallel edges from 0 to 1 with weights m, .. 1, walked in this order, overflow the heap arrays. |
| `DijkstraRuns.EdgeBoundExact` | src/graph/graph.c:79-111 | With two vertices or more, no graph with n vertices, m edges and non-negative weights overflows exactly if m <= 4n. |
| `DijkstraRuns.OneVertex` | src/graph/graph.c:103-111 | With one vertex nothing overflows, however many loops it has. |
| `Dijkstra.NineEdges` | src/graph/graph.c:74-115 | A run: two vertices with nine parallel edges from 0 to 1 of weights 9, .. 1 overflow the eight entries. |
| `Dijkstra.TieRun` | src/graph/graph.c:74-115 | A run with 25 edges on five vertices in which two vertices tie in the heap: the left one comes out first, and the twenty entries suffice. |
| `Dijkstra.Agreement` | src/graph/graph.c:74-134 | On non-negative weights Dijkstra and Bellman-Ford return the same distances and the flag stays down. |
| `Topological.QueueVerdict` | src/graph/graph.c:149-156 | On any graph, when the queue has run empty it has held exactly the vertices that no cycle leads to, each once and behind its predecessors; these are all vertices exactly if the graph has no cycle, and then in topological order. |
| `Walks.LongWalkFromCycle` | src/graph/graph.c:149-154 | A walk of n hops or more comes from a cycle. |
| `Topological.TopologicalAcyclic` | src/graph/graph.c:142-158 | A graph with a topological order has no cycle. |
| `Topological.Kahn` | src/graph/graph.c:142-158 | The verdict is true exactly if there is no cycle; the order is then a permutation with every edge forward, and on any graph it starts with the vertices that no cycle leads to. |
| `DepthFirst.CycleFrom` | src/graph/graph.c:160-167 | Reports only real cycles; otherwise everything reachable is finished, each vertex after all its successors. |
| `DepthFirst.HasCycle` | src/graph/graph.c:169-176 | True exactly if the directed graph has a cycle, the opposite of the verdict of Kahn. |
| `DepthFirst.FinishedAcyclic` | src/graph/graph.c:160-176 | If every edge leads back in the finishing order, its reverse is a topological order and there is no cycle. |
| `DagPaths.Dag.AddEdge` | src/graph/dag.c:25-32 | Appends the target to its row and keeps the stored in-degrees equal to the number of edges in. |
| `DagPaths.Dag.TopoKahn` | src/graph/dag.c:46-67 | On any graph emits exactly the vertices that no cycle leads to, each once and behind its predecessors; all vertices exactly if there is no cycle, and then in topological order. |
| `DagPaths.FinishFrom` | src/graph/dag.c:69-76 | On any graph finishes every vertex on a walk from v through vertices unvisited at entry, each after its successors but those that a walk leads back from; on an acyclic graph there are none of these. |
| `DagPaths.Dag.TopoDfs` | src/graph/dag.c:78-91 | Always a permutation, in which an edge leads backward only if a walk leads back along it; a topological order exactly if there is no cycle. |
| `DagPaths.FinishRound` | src/graph/dag.c:69-76 | On any graph, when a vertex is finished each of its successors is finished already or leads back to it. |
| `DagPaths.LongestAtEnd` | src/graph/dag.c:99-116 | Raising along an order with predecessors in front ends with the greatest number of edges on any walk to each vertex that leaves only vertices of the order. |
| `DagPaths.LongestCycleFree` | src/graph/dag.c:99-116 | For a vertex that no cycle leads to these are all walks to it. |
| `DagPaths.Dag.CriticalPath` | src/graph/dag.c:99-116 | On any graph each entry is the greatest number of edges on a walk that ends there and leaves only vertices that no cycle leads to; for such vertices, and so for all if there is no cycle, on any walk that ends there. The length is the greatest entry. |
| `DagPaths.Dag.IsAcyclic` | src/graph/dag.c:118-122 | True exactly if there is no cycle. |
| `BTreeNodes.BTNode.InsertIntoLeaf` | src/trees/btree.c:73-75 | Puts the key behind all keys that are not above it and moves no other. |
| `BTreeNodes.SplitChild` | src/trees/btree.c:47-64 | The median goes up, the halves stay left and right of it, children included; the buffers of all three nodes say so. |
| `BTreeNodes.BorrowFromLeft` | src/trees/btree.c:111-118 | One key rotates through the parent to the front of the child, with the last child of the neighbour. |
| `BTreeNodes.BorrowFromRight` | src/trees/btree.c:119-126 | The mirror image. |
| `BTreeNodes.MergeChildren` | src/trees/btree.c:127-138 | Two children and the key between them become one node, and the parent closes the gap. |
| `BTreeShape.SplitInorder` | src/trees/btree.c:47-64 | Splitting moves no key in order. |
| `BTreeShape.BorrowLeftInorder` | src/trees/btree.c:111-118 | Borrowing keeps the order and the shape, gives the child T keys, and leaves less in front of it. |
| `BTreeShape.MergeInorder` | src/trees/btree.c:127-138 | Merging keeps the order and takes one key from the parent. |
| `BTreeShape.InsertedElements` | src/trees/btree.c:87-100 | Insertion adds one occurrence of the key and nothing else. |
| `BTreeShape.WithoutContents` | src/trees/btree.c:167-176 | Removal from ascending keys leaves exactly the others, ascending. |
| `BTreeShape.WithinElements` | src/trees/btree.c:200-203 | The keys of a range are exactly the stored ones within its ends. |
| `BTreeMemory.SplitBecame` | src/trees/btree.c:47-64 | After the three writes of a split the nodes hold the split tree, no node is used twice, and nothing else changed. |
| `BTreeMemory.MergeBecame` | src/trees/btree.c:127-138 | The same for a merge, which gives up one node. |
| `BTrees.SearchFrom` | src/trees/btree.c:34-44 | The descent answers membership in the keys of the tree. |
| `BTrees.InsertNonfull` | src/trees/btree.c:71-85 | Below a node that is not full, inserts the key in order and keeps shape and leaf depth; every node entered has room, and which nodes were split is told exactly. |
| `BTrees.FixChild` | src/trees/btree.c:110-139 | The nodes afterwards hold the fixed tree: left neighbour first, then right, then merge. |
| `BTrees.DeleteFrom` | src/trees/btree.c:141-165 | The nodes afterwards hold exactly the tree that the branches of the deletion prescribe. |
| `BTrees.RangeFrom` | src/trees/btree.c:191-198 | Visits the keys of the range in order, and of the copies of the upper end exactly those in the children that the code enters; none is missed exactly if no child behind a separator equal to the upper end holds it. |
| `BTrees.VisitedIs` | src/trees/btree.c:191-198 | The visited keys are sorted and are, as a set, exactly those of the range; with distinct keys nothing is missed. |
| `BTreeDeletion.FixGood` | src/trees/btree.c:110-139 | After the fix the child has T keys, the node has lost at most one, and no key moved in order. |
| `BTreeDeletion.EndSurplus` | src/trees/btree.c:148-155 | With distinct keys, the predecessor or successor that replaces a key is always removed below. |
| `BTreeDeletion.KeptSeparates` | src/trees/btree.c:141-165 | Whatever else is stored, only a key that stands between two children can be kept. |
| `BTreeDeletion.LeafNotKept` | src/trees/btree.c:141-165 | With distinct keys, a key in a leaf is never kept. |
| `BTreeDeletion.PlainSurplus` | src/trees/btree.c:141-165 | Duplicates or not, a stored key that stands between no two children is removed exactly once. |
| `BTreeDeletion.KeptSurplus` | src/trees/btree.c:141-165 | With distinct keys, deletion fails exactly for kept keys. |
| `BTreeDeletion.DeletedIs` | src/trees/btree.c:141-165 | Duplicates included: the keys stay in order, none is new, and they lose one copy of the key and gain the surplus, which is at most one key. |
| `BTreeDeletion.DeletedDistinct` | src/trees/btree.c:141-165 | With distinct keys, deletion takes out exactly the key, or nothing at all if the key is kept. |
| `BTreeDeletion.LeftFirst` | src/trees/btree.c:110-139 | A left neighbour with a key to spare lends it whatever the right one could do, the right one lends only if the left one cannot, and otherwise the child merges with the right one, or with the left one if it is the last; a neighbour that does not lend stays as it is. |
| `BTreeRuns.LentRun` | src/trees/btree.c:87-176 | After inserting 9, 8, .. 1 and 10, deleting 5 and then 8 removes both, since the left neighbour has lent. |
| `BTreeDeletion.FailsIff` | src/trees/btree.c:141-165 | Duplicates included: deleting a stored key leaves a surplus exactly if a left neighbour lends to a child without a copy of the key that stands in front of it, or the deletion of the predecessor or successor that moves up, or of the key below, fails in turn. |
| `BTreeDeletion.DeletedOnce` | src/trees/btree.c:141-165 | So a stored key is removed once, and nothing else changes, exactly if that guard is false. |
| `BTreeDeletion.DeletedIff` | src/trees/btree.c:156-158 | For a stored key the deletion succeeds exactly if the search never meets the key in a node whose left child is minimal, whose right child is minimal, and whose next child to the left can lend. |
| `BTreeDeletion.KeptExample` | src/trees/btree.c:110-118 | A tree of nine keys from which deleting 7 removes nothing. |
| `BTreeRuns.KeptRun` | src/trees/btree.c:87-176 | Inserting 9, 8, .. 1 leads to that tree: deleting 7 then leaves all nine keys and a size of 8. |
| `BTreeDeletion.SwappedExample` | src/trees/btree.c:148-152 | A tree with duplicates from which deleting 3 removes a 3 and adds one more 2. |
| `BTreeRuns.SwappedRun` | src/trees/btree.c:87-176 | Twenty-two insertions lead to that tree: deleting one of its five 3s then turns seven 2s into eight, with a size of 21. |
| `BTreeRuns.MissedRun` | src/trees/btree.c:191-203 | After inserting 5 six times, the scan from 5 to 5 visits three of the copies. |
| `BTreeDeletion.DeletedShape` | src/trees/btree.c:141-165 | Deletion keeps key counts between T - 1 and 2T - 1 below the root and all leaves at one depth. |
| `BTrees.BTree.Search` | src/trees/btree.c:34-44 | True exactly if the key is stored. |
| `BTrees.BTree.Insert` | src/trees/btree.c:87-100 | The keys in order gain exactly the new key at its place, duplicates included; the tree becomes exactly the one that splitting full nodes on the way down gives; shape and leaf depth are kept. |
| `BTrees.BTree.Delete` | src/trees/btree.c:167-176 | Shape and order are kept, duplicates included; the keys lose one copy of the key and gain the surplus, which is empty for a stored key exactly if the guard is false; distinct keys lose exactly the key unless it is kept; the tree is the one that the branches prescribe, without a root left empty; size drops by one either way if the key was there. |
| `BTrees.BTree.RangeScan` | src/trees/btree.c:200-203 | Visits exactly the stored keys in [lo, hi], in order; copies of hi are missed exactly if a child behind a separator equal to hi holds hi, then not all of them, and which ones is told by the tree. |
| `RingBuffers.NextPow2` | src/linear/ring_buffer.c:11-15 | For n up to 2^63, the least power of two that is not below n. |
| `RingBuffers.NextPow2Terminates` | src/linear/ring_buffer.c:11-15 | The loop can end exactly if n is at most 2^63. |
| `RingBuffers.MaskIsMod` | src/linear/ring_buffer.c:42-58 | Masking with 2^k - 1 is the remainder by 2^k. |
| `RingBuffers.SlotOfWrapped` | src/linear/ring_buffer.c:42-58 | The slot of the wrapped counter is the slot of the true count. |
| `RingBuffers.WrapNeedsDivisor` | src/linear/ring_buffer.c:11-25 | Remainders survive the wrap of the counters exactly for capacities that divide 2^64. |
| `RingBuffers.RunInv` | src/linear/ring_buffer.c:39-62 | The invariant holds in every state of every interleaving of loads, slot accesses and stores. |
| `RingBuffers.FifoAlways` | src/linear/ring_buffer.c:39-62 | In every state of every interleaving, published values are consumed values followed by the live contents, which fit the buffer. |
| `RingBuffers.NoOverwrite` | src/linear/ring_buffer.c:39-46 | The producer never writes a slot that is unread or being read. |
| `RingBuffers.RefusalIsHonest` | src/linear/ring_buffer.c:39-62 | A call refuses exactly if the buffer is full, or empty, at the moment of its load of the other counter. |
| `RingBuffers.FourProducerSteps` | src/linear/ring_buffer.c:39-46 | An undisturbed call of the producer appends one value. |
| `RingBuffers.FourConsumerSteps` | src/linear/ring_buffer.c:55-62 | An undisturbed call of the consumer takes the oldest value. |
| `RingBuffers.RingBuffer.constructor` | src/linear/ring_buffer.c:17-25 | An empty buffer with a power-of-two capacity at least as large as asked for. |
| `RingBuffers.RingBuffer.Produce` | src/linear/ring_buffer.c:39-46 | Fails exactly on a full buffer, otherwise appends; it is the four atomic steps of the protocol. |
| `RingBuffers.RingBuffer.Consume` | src/linear/ring_buffer.c:55-62 | Fails exactly on an empty buffer, otherwise takes the oldest value; it is the four atomic steps of the protocol. |
| `SkipListLinks.NextWith` | src/probabilistic/skip_list.c:74-79 | Where the next node of a level is once a node has come in. |
| `SkipListLinks.ThreadedLinks` | src/probabilistic/skip_list.c:75-78 | The two pointer writes of one level put the new node into the chain of that level. |
| `SkipListLinks.LinkedAbove` | src/probabilistic/skip_list.c:75-78 | Levels that a node does not reach are the same with and without it. |
| `SkipListLinks.SkippingLinks` | src/probabilistic/skip_list.c:101-104 | The pointer write of one level takes the node out of the chain of that level. |
| `SkipLists.CutPointer` | src/probabilistic/skip_list.c:102 | The pointer in front of the key leads to the node exactly on the levels that the node reaches, so the loop may stop at the first other one. |
| `SkipLists.RandomLevel` | src/probabilistic/skip_list.c:16-20 | Any height from 1 to 16. |
| `SkipLists.SkipList.constructor` | src/probabilistic/skip_list.c:29-37 | A header of height 16, no keys, one level in use. |
| `SkipLists.SkipList.Descend` | src/probabilistic/skip_list.c:57-64 | For every level in use, the last node in front of the key. |
| `SkipLists.SkipList.Search` | src/probabilistic/skip_list.c:83-91 | Finds exactly the stored keys, with their values. |
| `SkipLists.SkipList.Insert` | src/probabilistic/skip_list.c:56-81 | For every height drawn, each level stays the ascending chain of exactly the nodes that reach it; the map gains or overwrites exactly the key. |
| `SkipLists.SkipList.Delete` | src/probabilistic/skip_list.c:93-108 | The same chains without the node; the map loses exactly the key; levels above the tallest node fall out of use. |
| `SkipLists.Lowered` | src/probabilistic/skip_list.c:106 | The level in use ends at the height of the tallest node, or 1. |
| `SkipLists.SkipList.Range` | src/probabilistic/skip_list.c:110-116 | Visits exactly the pairs with a key in [lo, hi], keys ascending. |
| `SegmentTrees.RootFits` | src/trees/segment_tree.c:21-28 | Every node number ever used lies below 4n. |
| `SegmentTrees.Frame` | src/trees/segment_tree.c:12-90 | What a node stands for depends only on the cells below it. |
| `SegmentTrees.Tagged` | src/trees/segment_tree.c:66-70 | Raising a tag and its sum adds the same amount to every value below. |
| `SegmentTrees.Build` | src/trees/segment_tree.c:12-19 | Every node holds the sum of its part of the array. |
| `SegmentTrees.PushDown` | src/trees/segment_tree.c:32-41 | Nothing is owed at the node afterwards, and no value has changed. |
| `SegmentTrees.RangeUpdateFrom` | src/trees/segment_tree.c:63-76 | The values below the node gain delta exactly at the positions of the range; sums stay right. |
| `SegmentTrees.QuerySumFrom` | src/trees/segment_tree.c:82-90 | The sum over the range; tags may move, values do not. |
| `SegmentTrees.SumOverSlice` | src/trees/segment_tree.c:97-99 | The sum over positions l to r is the sum of that slice. |
| `SegmentTrees.SegTree.constructor` | src/trees/segment_tree.c:21-28 | For n >= 1, stands for the given array. |
| `SegmentTrees.SegTree.RangeUpdate` | src/trees/segment_tree.c:78-80 | The represented array gains delta exactly on [l, r], for any l and r. |
| `SegmentTrees.SegTree.QuerySum` | src/trees/segment_tree.c:97-99 | The sum of the represented array over [l, r], which the query leaves unchanged. |
| `UnionFinds.ClassIff` | src/graph/union_find.c:24-45 | Two elements have the same root exactly if the united pairs relate them. |
| `UnionFinds.Compress` | src/graph/union_find.c:25-27 | Redirecting an element to its root keeps forest, ranks and partition. |
| `UnionFinds.HangRoot` | src/graph/union_find.c:38-40 | Hanging the root of lower rank keeps ranks rising along links and 2^r members below a root of rank r. |
| `UnionFinds.RankBound` | src/graph/union_find.c:20-40 | 2 to the rank is at most n. |
| `UnionFinds.PathBound` | src/graph/union_find.c:24-40 | As many steps up as the rank of the root exceeds that of the element lead to the root, so paths are at most log2 n long. |
| `UnionFinds.RootsCountClasses` | src/graph/union_find.c:46 | There are as many roots as equivalence classes, however representatives are picked. |
| `UnionFinds.RootsAreTransversal` | src/graph/union_find.c:46 | The roots are one element out of every class. |
| `UnionFinds.UnionFind.constructor` | src/graph/union_find.c:8-15 | n elements, no pairs united, n classes. |
| `UnionFinds.UnionFind.Find` | src/graph/union_find.c:24-28 | Returns the root; everything on the path hangs directly below it afterwards and nothing else moves; ranks and partition stay. |
| `UnionFinds.UnionFind.Union` | src/graph/union_find.c:35-43 | The structure stands for the equivalence closure of one more pair; true exactly if the two were not yet related, and then there is one class less. The root that stays is that of higher rank, that of the first argument if the ranks are equal. |
| `UnionFinds.UnionFind.Connected` | src/graph/union_find.c:45 | True exactly if the united pairs relate the two. |
| `UnionFinds.UnionFind.ComponentsAreClasses` | src/graph/union_find.c:46 | The counter is the size of every choice of one element per class, and the roots are such a choice. |
| `UnionFinds.FromEdges` | src/graph/union_find.c:48-52 | Exactly the given edges have been united. |
| `LinkedLists.TheyMeet` | src/linear/linked_list.c:143-151 | A walk that goes on for as many steps as there are nodes has made the two pointers meet. |
| `LinkedLists.CycleEndless` | src/linear/linked_list.c:143-151 | A walk that comes back to a node never ends. |
| `LinkedLists.HasCycle` | src/linear/linked_list.c:143-151 | Terminates on every finite structure; true exactly if following next visits a node twice. |
| `LinkedLists.MergeSorted` | src/linear/linked_list.c:101-110 | Relinks the nodes of two lists into their merge. |
| `LinkedLists.MergedStable` | src/linear/linked_list.c:101-110 | Of equal values, those of the first list come first and each side keeps its order. |
| `LinkedLists.SplitInMiddle` | src/linear/linked_list.c:121-127 | Cuts the list behind its first half, the longer one if the length is odd. |
| `LinkedLists.MergeSortNode` | src/linear/linked_list.c:118-130 | Relinks the same nodes into the sorted list, moving no value. |
| `LinkedLists.SortedIs` | src/linear/linked_list.c:118-130 | The result is ascending, has the same nodes, and keeps the order of equal values. |
| `WaveletTrees.Build` | src/specialized/wavelet_tree.c:18-39 | Each node marks who goes right, and its children are the trees of the two parts in order. |
| `WaveletTrees.RankStep` | src/specialized/wavelet_tree.c:75-80 | Mapping a prefix to the child of c keeps the number of c in it. |
| `WaveletTrees.WaveletTree.Rank` | src/specialized/wavelet_tree.c:71-83 | The number of c among the first i elements; a c outside the alphabet counts as the nearest letter. |
| `WaveletTrees.WaveletTree.Select` | src/specialized/wavelet_tree.c:92-99 | The position of the k-th c, before which there are k - 1; -1 exactly if k is not positive or fewer occur. |
| `WaveletTrees.OccurrenceUnique` | src/specialized/wavelet_tree.c:71-99 | A letter and its rank determine the position, so rank and select undo each other. |
| `WaveletTrees.KthStep` | src/specialized/wavelet_tree.c:113-129 | Each step of the descent keeps the k-th smallest of the range. |
| `WaveletTrees.KthUnique` | src/specialized/wavelet_tree.c:111-131 | A range has one k-th smallest value. |
| `WaveletTrees.WaveletTree.Quantile` | src/specialized/wavelet_tree.c:111-131 | The descent narrows the alphabet down to exactly the k-th smallest value, but the result is always -1. |
| `CuckooHashing.TwoProbes` | src/hash/cuckoo_hash.c:29-34 | A key is stored exactly if one of its two slots holds it, never both. |
| `CuckooHashing.RepresentsIff` | src/hash/cuckoo_hash.c:29-57 | The tables represent a map exactly if everything is in a slot of its own and the pairs in both tables are those of the map, each once. |
| `CuckooHashing.PutFirst` | src/hash/cuckoo_hash.c:40-47 | For any key: putting the pair in hand into the first table exchanges it for the occupant and moves nothing else. |
| `CuckooHashing.PutSecond` | src/hash/cuckoo_hash.c:49-55 | The same for the second table. |
| `CuckooHashing.KickedConserves` | src/hash/cuckoo_hash.c:36-57 | For any key and any number of rounds, no pair is lost or made but the one that comes out last, and everything stays in a slot of its own. |
| `CuckooHashing.InsertedNew` | src/hash/cuckoo_hash.c:36-57 | For a new key, success means that nothing has come out; otherwise exactly the pair that has come out is missing. |
| `CuckooHashing.InsertedAgain` | src/hash/cuckoo_hash.c:36-57 | For a stored key, success means that its old pair has come out, or the new one, or that both pairs are in the tables. |
| `CuckooWalks.WhatComesOut` | src/hash/cuckoo_hash.c:36-57 | What comes out of the insertion of a key in its second slot, told by the walk through the tables before the call: nothing if it ends in an empty slot, the new pair if in the second slot of the key, the old pair if in another slot seen before. |
| `CuckooWalks.StoredAgain` | src/hash/cuckoo_hash.c:36-57 | For a stored key, four times exactly if: the new value counts, the old value counts, both pairs are there, or 128 rounds are used up; which one is told by the tables before the call. |
| `CuckooWalks.TurnsRound` | src/hash/cuckoo_hash.c:36-57 | A chain that comes to a slot it has been to goes back the way it came, and the key in hand is the inserted one again after m + j - 1 kicks. |
| `CuckooWalks.NeverEmpty` | src/hash/cuckoo_hash.c:36-57 | The walk from the first slot of the key, once it comes to a slot again, comes to no empty one. |
| `CuckooWalks.NoRoom` | src/hash/cuckoo_hash.c:36-57 | If neither walk from the two slots of the key comes to an empty slot, no number of kicks does. |
| `CuckooWalks.StoredNew` | src/hash/cuckoo_hash.c:36-57 | A new key is stored exactly if, in the tables before the call, the walk from its first slot comes to an empty one within 256 kicks, or turns round and the walk from its second slot does within the kicks left. |
| `CuckooTables.TwiceRun` | src/hash/cuckoo_hash.c:36-64 | With capacity 1: insert a and b, delete b, insert a again, and a is there twice and counted twice. |
| `CuckooTables.TwiceFound` | src/hash/cuckoo_hash.c:29-64 | After that run a lookup gives the new value of a, and after one deletion the old one. |
| `CuckooTables.DroppedRun` | src/hash/cuckoo_hash.c:36-57 | With capacity 1: insert a and b, insert a again with success, and looking a up still yields its old value. |
| `CuckooTables.MixedWords` | src/hash/cuckoo_hash.c:9-14 | Known values of both hash words before the division by the capacity. |
| `CuckooTables.ThreeRounds` | src/hash/cuckoo_hash.c:9-57 | With capacity 2: inserting 0, 1, 2 and 5 takes the fourth key three rounds and ends with 0, 1 in the first table and 2, 5 in the second. |
| `CuckooTables.CuckooHash.constructor` | src/hash/cuckoo_hash.c:16-23 | An empty table: every slot holds the reserved key -1. |
| `CuckooTables.CuckooHash.Get` | src/hash/cuckoo_hash.c:29-34 | For any key and any tables, what the two probes meet; in tables that represent a map, exactly the stored keys. |
| `CuckooTables.CuckooHash.Insert` | src/hash/cuckoo_hash.c:36-57 | For any key, stored, absent or reserved: the tables conserve pairs but for the one that has come out, and the counter rises on success. A new key is added exactly if the tables before the call have room for it within 128 rounds; otherwise the pair in hand is missing. |
| `CuckooTables.CuckooHash.Delete` | src/hash/cuckoo_hash.c:59-64 | For any key: exactly the pair that a probe finds goes, nothing for the reserved key, and the counter falls if a probe succeeds; a represented map loses exactly the key. |
| `CuckooHashing.ErasedPairs` | src/hash/cuckoo_hash.c:59-64 | Clearing the slot that a probe finds takes out one pair and no other. |
| `KdTrees.InsertFrom` | src/spatial/kd_tree.c:28-40 | Hangs one node where the search ends, leaves the rest of the tree as it was, and keeps every splitting line. |
| `KdTrees.PlantedPointers` | src/spatial/kd_tree.c:28-40 | Exactly one pointer changes, and it was null. |
| `KdTrees.BeyondTheLine` | src/spatial/kd_tree.c:61-79 | No point beyond the splitting line is closer than the line. |
| `KdTrees.Euclidean` | src/spatial/kd_tree.c:47-50 | The distance compared is the square of the Euclidean one. |
| `KdTrees.NothingFound` | src/spatial/kd_tree.c:65-80 | A search through a side with no closer point finds nothing. |
| `KdTrees.NearestFrom` | src/spatial/kd_tree.c:65-80 | The best point so far, improved by everything below the node: the very point that a search finds which skips nothing, among equally near ones too. |
| `KdTrees.KDTree.Insert` | src/spatial/kd_tree.c:42-45 | The tree is the old one with the new point at the end of its search path; the stored points gain exactly that one. |
| `KdTrees.KDTree.Nearest` | src/spatial/kd_tree.c:82-86 | On a non-empty tree a stored point at the least distance over all stored points, in coordinates; null exactly on the empty tree. |

## Left out

- ShortestDistances: what the code does once it writes past its heap arrays.
- BellmanFord: sums are unbounded, so the overflow that `int` sums could have is not modelled.
- AddEdge: requires a row with fewer than n targets, the size of a row in the C structure.
- CuckooHash: the counter is an integer; the C counter is its remainder by 2^64.
- NextPow2: arguments above 2^63 are not covered, since the loop does not end for them.
- Build: the bitmap of a wavelet-tree node is a sequence of bits; its packing into words is not modelled, and neither are the temporary buffers as arrays.
- NearestFrom: rounding of `double` is not modelled.
- HasCycle: in the linked list the structure is any finite set of nodes closed under next.
- RandomLevel: the probabilities of the levels, and so the expected running times.
- Memory allocation, freeing and its failure, printing and demos.
- The building of `graph.c` adjacency lists, undirected graphs, breadth-first search and connected components.
- Weak memory in the ring buffer beyond interleaved atomic steps, and `rb_size` seen by a third thread.
- Maximum and in-order traversal of the red-black tree, which add nothing to its successor and its order.
- Point update and minimum query of the segment tree: the first leaves the sums above stale, the second compares sums. The interval tree in the same file.
- Reversal, middle, and the single-element operations of the linked list, which are simpler than merging and splitting.
- Range search and bulk building of the k-d tree: the first skips a side it should visit, the second separates values from their points.
- Heaps with their own Dijkstra, tries, stacks, queues, circular lists, the R-tree, the LSM tree, bitmaps, the chaining hash table and the sketches (Bloom, Count-Min, HyperLogLog).
