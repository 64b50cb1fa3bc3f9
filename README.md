# Red-black tree engine and its test driver, in Dafny

The repository is an intrusive red-black tree engine with two node layouts: a standard one with
parent pointers and a compact one that keeps an explicit traversal path instead. Only its test
driver `rbtree/test_rbtree.c` is part of this model; the engine headers `rbtree.h` and
`rbtree_compact.h` are not. The model has three parts:

- The engine contract the driver exercises, as a functional red-black tree of `int` keys.
  - `Leaf` is a NULL link. Keys are compared with `<`.
  - `Insertion.Insert` is RB_INSERT, with CLRS insertion fixup.
  - `Deletion.Remove` is RB_REMOVE and `Deletion.RemoveAt` is rb_remove on an iterator, both
    with CLRS deletion fixup.
  - `Traversal` holds RB_FIND, rb_first, rb_last, rb_next and rb_prev.
  - A cursor is a zipper: the ancestor stack of the compact layout's RB_PATH plus the subtree at
    the current node.
- The driver's checkers (`Checkers`): get_rbtree_black_height, validate_rbtree_black_height,
  traverse_rbtree and validate_rbtree_sorted_order.
- The driver's procedures and test cases.
  - `Workloads` holds shuffle, the insert and remove loops, init_rbtree, the iterator walks and
    the removal through an iterator.
  - `TestCases` holds one method per test case. Each returns the conjunction of its assertions
    and promises that it is true.
  - `Scenarios` holds the trees the fixed scenarios build, computed step by step.

Module layout:

| file | module | contents |
|---|---|---|
| sorted_seqs.dfy | SortedSeqs | strictly ascending sequences, `Range(lo, hi)`, sorting distinct keys |
| trees.dfy | Options, Trees | the tree, its invariants, black-height and balance facts |
| paths.dfy | Paths | traversal paths, cursors, plugging a subtree back into its path |
| traversal.dfy | Traversal | first, last, next, prev, find |
| insertion.dfy | Insertion | insert with fixup |
| deletion.dfy | Deletion | removal at a cursor and by key, with fixup |
| checkers.dfy | Checkers | the driver's invariant checkers |
| workloads.dfy | Workloads | shuffle, batch insert and remove, walks, init_rbtree |
| scenarios.dfy | Scenarios | the fixed scenarios' trees |
| test_cases.dfy | TestCases | the eight test cases |

## Model

| member | source | states |
|---|---|---|
| Checkers.CheckedBlackHeight | rbtree/test_rbtree.c:52-64 | The recursive check passes (Some) exactly when every node's two sides have equal black-height; its value is then the black-height, counting a black node as 1 and a red one as 0 |
| Checkers.ValidateBlackHeight | rbtree/test_rbtree.c:66-69 | Passes exactly when the black-heights are valid and the tree's black-height equals the expected `bh` |
| Checkers.Traverse | rbtree/test_rbtree.c:71-81 | The in-order walk with the shared index passes exactly when the tree's in-order keys are the slice of `sorted` starting at `index`; the index then advances by the number of nodes |
| Checkers.ValidateSortedOrder | rbtree/test_rbtree.c:83-88 | Passes exactly when the in-order key sequence equals `sorted`, length included |
| Trees.OrderedIffAscending | rbtree/test_rbtree.c:71-88 | The binary-search order holds at every node if and only if the in-order traversal is strictly ascending |
| Trees.KeysInOrder | rbtree/test_rbtree.c:71-81 | A key is in the tree exactly when the in-order traversal visits it |
| Trees.OrderedSize | rbtree/test_rbtree.c:83-88 | An ordered tree visits each key once: the traversal length is the number of distinct keys |
| Trees.BlackHeightIsPathCount | rbtree/test_rbtree.c:52-64 | When the check passes, every root-to-NULL path carries exactly BlackHeight(t) black nodes |
| Trees.UnequalSidesTwoCounts | rbtree/test_rbtree.c:62 | When both sides of a node pass the check but their black-heights differ, the node's root-to-NULL paths carry at least two different black counts |
| Trees.InvalidTwoCounts | rbtree/test_rbtree.c:52-64 | Whenever the check fails, for whatever node, the root-to-NULL paths of the tree carry at least two different black counts |
| Trees.ValidIffOneCount | rbtree/test_rbtree.c:52-64 | The check passes if and only if every root-to-NULL path carries the same black count, BlackHeight(t) |
| Trees.SizeAtLeastPow2 | rbtree/test_rbtree.c:52-64 | A tree with valid black-height h holds at least 2^h - 1 nodes |
| Trees.HeightAtMostTwiceBlack | rbtree/test_rbtree.c:52-64 | With valid black-heights and no red-red pair, no path is longer than twice the black-height (plus one under a red root) |
| Paths.CursorPathBound | rbtree/test_rbtree.c:381-383 | In a red-black tree a cursor's path has fewer than 2 * bh entries, with 2^bh <= n + 1 for n keys: the RB_PATH stack needs at most 2 * log2(n + 1) entries |
| Paths.PlugInOrder | rbtree/test_rbtree.c:380-398 | The tree's in-order sequence is what precedes the cursor's subtree, the subtree, and what follows it |
| Paths.CursorKey | rbtree/test_rbtree.c:388-390 | The key under a cursor is the in-order key at the cursor's position |
| Traversal.First | rbtree/test_rbtree.c:383-385 | rb_first is NULL exactly for the empty tree; otherwise it is a cursor of the tree at in-order position 0 |
| Traversal.Last | rbtree/test_rbtree.c:402-404 | rb_last is NULL exactly for the empty tree; otherwise it is a cursor of the tree at the last in-order position |
| Traversal.Next | rbtree/test_rbtree.c:392-394 | rb_next is a cursor of the same tree one position further, and NULL exactly when the cursor is at the last position |
| Traversal.Prev | rbtree/test_rbtree.c:411-413 | rb_prev is a cursor of the same tree one position back, and NULL exactly when the cursor is at position 0 |
| Traversal.NextIsSuccessor | rbtree/test_rbtree.c:388-397 | In an ordered tree rb_next lands on the smallest key greater than the cursor's; it is NULL only when no key is greater |
| Traversal.PrevIsPredecessor | rbtree/test_rbtree.c:407-416 | In an ordered tree rb_prev lands on the largest key smaller than the cursor's; it is NULL only when no key is smaller |
| Traversal.Find | rbtree/test_rbtree.c:422-424 | RB_FIND finds a node exactly when the key is present; the node holds that key and the path leads to it from the root |
| Traversal.FindPosition | rbtree/test_rbtree.c:422-430 | The cursor RB_FIND returns sits at the index of the key in the in-order sequence |
| Insertion.Insert | rbtree/test_rbtree.c:96-98 | RB_INSERT keeps every red-black invariant, adds exactly the key to the key set, raises the black-height by at most one, and leaves the tree unchanged when the key is already present |
| Insertion.InsPresent | rbtree/test_rbtree.c:96-98 | On an ordered tree without red-red pairs, inserting a key already present returns the same tree |
| Insertion.InsKeys | rbtree/test_rbtree.c:119-139 | Insertion below the root adds exactly the key and keeps the binary-search order |
| Insertion.InsRestores | rbtree/test_rbtree.c:118-137 | The three fixup cases keep black-heights valid and unchanged; below a black node no red-red pair remains, below a red node at most the root pair |
| Insertion.FixLeftRestores | rbtree/test_rbtree.c:118-137 | One fixup step at a black grandparent (uncle red, zigzag, or straight) removes the red-red pair on the left and keeps the black-height |
| Insertion.FixLeftInOrder | rbtree/test_rbtree.c:118-137 | The rotations and recolorings of a fixup step keep the in-order sequence |
| Deletion.ReplaceByChild | rbtree/test_rbtree.c:271-279 | Splicing out a node with at most one child keeps the child's in-order sequence |
| Deletion.ReplaceByChildRestores | rbtree/test_rbtree.c:271-279 | Splicing out a node with at most one child leaves valid black-heights and no red-red pair; what replaces it, plus one when flagged short, has the black-height the node had (1 if black, 0 if red); a red replacement stands only for a red node |
| Deletion.RepairLeftRestores | rbtree/test_rbtree.c:282-296 | One deletion fixup step (the four sibling cases) on a left side one black node short gives valid black-heights and no red-red pair, with the parent's old black-height, or one less when flagged short, which happens only at a black parent; a black parent position stays black |
| Deletion.FixUp | rbtree/test_rbtree.c:282-296 | Walking the deficiency up the path keeps the in-order sequence |
| Deletion.FixUpRestores | rbtree/test_rbtree.c:282-296 | Walking the deficiency up the path gives a tree with valid black-heights and no red-red pair, of the old black-height or one less |
| Deletion.SuccessorSpliceInOrder | rbtree/test_rbtree.c:288-295 | With two children, moving up the successor's key and splicing out the successor's node drops exactly the removed key from the in-order sequence |
| Deletion.RemoveAt | rbtree/test_rbtree.c:465-467 | rb_remove through an iterator leaves the keys before and after the cursor's node, in order |
| Deletion.RemoveAtValid | rbtree/test_rbtree.c:463-468 | Removal at a cursor keeps every coloring invariant; the black-height drops by at most one |
| Deletion.RemoveAtInOrder | rbtree/test_rbtree.c:463-478 | Removal at a cursor cuts exactly the cursor's position out of the in-order sequence |
| Deletion.RemoveAtRestores | rbtree/test_rbtree.c:463-478 | Removal at a cursor of a red-black tree gives a red-black tree, without the cursor's key and with every other key in order |
| Deletion.Remove | rbtree/test_rbtree.c:99-100 | RB_REMOVE keeps every red-black invariant, removes exactly the key, lowers the black-height by at most one, and leaves the tree unchanged when the key is absent |
| Workloads.PickPair | rbtree/test_rbtree.c:185-189 | The two indices a shuffle round picks are in bounds and distinct; the first is the first draw mod N |
| Workloads.Swap | rbtree/test_rbtree.c:190-192 | Swapping exchanges the two entries and changes nothing else |
| Workloads.SwapPermutes | rbtree/test_rbtree.c:190-192 | A swap keeps the multiset of entries |
| Workloads.ShuffledPermutes | rbtree/test_rbtree.c:180-194 | Any number of shuffle rounds, with any draws, keeps the multiset of entries |
| Workloads.Shuffle | rbtree/test_rbtree.c:180-194 | shuffle runs 2N rounds of swaps of distinct entries in place; the array ends up a permutation of what it held |
| Workloads.InsertEach | rbtree/test_rbtree.c:213-217 | Inserting a batch of keys one by one keeps every red-black invariant and adds exactly those keys |
| Workloads.RemoveEach | rbtree/test_rbtree.c:345-349 | Removing a batch of keys one by one keeps every red-black invariant and removes exactly those keys |
| Workloads.InsertAll | rbtree/test_rbtree.c:213-217 | The insert loop with a black-height check after every insert passes every check and ends with exactly the inserted keys |
| Workloads.InsertKeys | rbtree/test_rbtree.c:374-377 | The insert loop without checks ends with a red-black tree holding exactly the inserted keys |
| Workloads.RemoveAll | rbtree/test_rbtree.c:345-349 | The remove loop with a black-height check after every removal passes every check and ends without the removed keys |
| Workloads.InitTree | rbtree/test_rbtree.c:251-263 | init_rbtree builds, by inserts in seq order, a red-black tree |
| Workloads.InitTreeKeys | rbtree/test_rbtree.c:255-262 | The tree init_rbtree builds holds exactly the keys node[seq[i]].val == seq[i] + 1 |
| Workloads.WalkOn | rbtree/test_rbtree.c:428-437 | Following rb_next from a cursor to NULL visits the in-order keys from the cursor's position to the end |
| Workloads.WalkForward | rbtree/test_rbtree.c:383-398 | rb_first, then rb_next until NULL, visits exactly the in-order sequence |
| Workloads.WalkBackward | rbtree/test_rbtree.c:402-417 | rb_last, then rb_prev until NULL, visits exactly the in-order sequence reversed |
| Workloads.WalkFrom | rbtree/test_rbtree.c:422-438 | RB_FIND, then rb_next until NULL, visits the key itself and every in-order key after it; nothing when the key is absent |
| Workloads.RemoveNth | rbtree/test_rbtree.c:450-468 | rb_first and d steps of rb_next reach the (d+1)-th key; removing there leaves a red-black tree with the in-order sequence minus that entry |
| Scenarios.LeftSteps | rbtree/test_rbtree.c:119-137 | Each tree in the trace of the left-leaning test is the insert of the next key into the one before |
| Scenarios.LeftTraceHeights | rbtree/test_rbtree.c:119-137 | After each insert of 8, 7, 2, 4, 1, 3, 6, 5 the black-heights are valid and equal 1, 1, 1, 2, 2, 2, 2, 2 |
| Scenarios.RightSteps | rbtree/test_rbtree.c:157-175 | Each tree in the trace of the right-leaning test is the insert of the next key into the one before |
| Scenarios.RightTraceHeights | rbtree/test_rbtree.c:157-175 | After each insert of 1, 2, 7, 5, 8, 6, 3, 4 the black-heights are valid and equal 1, 1, 1, 2, 2, 2, 2, 2 |
| Scenarios.InsertEachTrace | rbtree/test_rbtree.c:259-262 | Inserting keys one by one follows a trace of trees when each single insert does |
| Scenarios.SimpleBuilt | rbtree/test_rbtree.c:269-272 | init_rbtree with seq 2, 0, 3, 1 builds the tree 3(1(-, 2), 4) with 2 red, and that tree is red-black |
| Scenarios.SimpleRemove4 | rbtree/test_rbtree.c:271-274 | Removing the leaf 4 from that tree gives 2(1, 3), all black |
| Scenarios.SimpleRemove1 | rbtree/test_rbtree.c:276-279 | Removing 1, whose only child is the red 2, gives 3(2, 4), all black |
| Scenarios.Simple2Built | rbtree/test_rbtree.c:286-289 | init_rbtree with seq 5, 0, 9, 2, 6, 3, 7, 8, 4, 1 builds the expected ten-node tree, and that tree is red-black |
| Scenarios.Simple2Remove3 | rbtree/test_rbtree.c:288-291 | Removing 3, whose successor 4 is its right child, gives the expected tree |
| Scenarios.Simple2Remove8 | rbtree/test_rbtree.c:293-296 | Removing 8, whose successor 9 lies deeper in its right subtree, gives the expected tree |
| TestCases.InitTest | rbtree/test_rbtree.c:90-102 | One insert gives a non-empty tree of black-height 1; removing the key gives the empty tree of black-height 0 |
| TestCases.InsertLeftTest | rbtree/test_rbtree.c:104-140 | Every black-height check of the left-leaning inserts passes, and the in-order sequence is 1..8 |
| TestCases.InsertRightTest | rbtree/test_rbtree.c:142-178 | Every black-height check of the right-leaning inserts passes, and the in-order sequence is 1..8 |
| TestCases.PermutationInOrder | rbtree/test_rbtree.c:213-218 | An ordered tree whose keys are those of a permutation of 1..n lists exactly 1..n in order |
| TestCases.InsertRandomTest | rbtree/test_rbtree.c:196-220 | For every n >= 2, every number of runs and all rand() draws, every check passes |
| TestCases.RemoveSimpleTest | rbtree/test_rbtree.c:265-280 | Both removals (a leaf; a node with only a right child) leave black-height 2 |
| TestCases.RemoveSimple2Test | rbtree/test_rbtree.c:282-297 | Both two-children removals (successor is the child; successor lies deeper) leave black-height 2 |
| TestCases.SortPrefix | rbtree/test_rbtree.c:350 | qsort of the first m pointers of a permutation of 1..n leaves their keys in increasing order, each once, and the rest untouched |
| TestCases.RemainingInOrder | rbtree/test_rbtree.c:345-356 | After removing the keys in node[N2..N), the tree lists exactly the keys of node[0..N2) in increasing order |
| TestCases.RemoveRandomRun | rbtree/test_rbtree.c:321-357 | One run passes every check and leaves node[] as the twice-shuffled array with its first N / 4 * 3 entries sorted by qsort and the rest as shuffled, a permutation of 1..N that the next run starts from |
| TestCases.RemoveRandomTest | rbtree/test_rbtree.c:306-358 | For every n >= 2, every number of runs and all rand() draws, every check passes |
| TestCases.IterWalks | rbtree/test_rbtree.c:379-438 | Over a tree of 1..n the forward walk gives 1..n, the backward walk n..1, and the walk from RB_FIND(n / 2) gives n / 2..n |
| TestCases.RemoveNthCheck | rbtree/test_rbtree.c:450-478 | The (d+1)-th node reached by rb_next holds d + 1, and after rb_remove there the tree lists 1..d, d+2..n |
| TestCases.IterRemoveRound | rbtree/test_rbtree.c:444-478 | One round re-inserts the shuffled keys and passes the checks for that d |
| TestCases.IterTest | rbtree/test_rbtree.c:360-480 | For every n >= 2 and all rand() draws, every check of the iterator test passes |

## Left out

- The engine's own source (`rbtree.h`, `rbtree_compact.h`) is not part of this model. The engine is modelled as the textbook CLRS insertion and deletion algorithms. The removal tests' labels (left/right NULL, successor == node) match the deletion cases. The insert tests' labels match CLRS case numbering, with one exception: the first three inserts of each insert test are labelled "Test case 2, 3" (rbtree/test_rbtree.c:118, 156). In this model those inserts (8, 7, 2 and 1, 2, 7) take only the straight rotation, case 3, and never case 2. The trees the engine builds for the fixed scenarios are derived from those algorithms, not read from the engine.
- The engine's effects on memory are modelled on values, so the model does not capture:
  - rewiring of the caller's intrusive nodes in place;
  - parent pointers of the standard layout;
  - aliasing between `node[]`, `node_buf[]` and the tree.
  The root handle is a local variable that each operation reassigns.
- Only the compact layout is modelled, with the cursor's path as its RB_PATH. The standard layout gives the same observable results through parent pointers.
- RB_INSERT's return value is not modelled. The model leaves the tree unchanged on a duplicate key, a case the driver never exercises.
- The driver holds node pointers whose values are distinct. The model holds the values themselves.
- RB_ENTRY, RB_GEN and the other macro machinery are not modelled.
- The subtraction comparators `A_NODE_KEY_CMP`, `A_NODE_CMP` and `node_cmp` are modelled as `<` on unbounded integers. Their overflow for keys far apart is not modelled; the driver's keys lie in 1..1000.
- rand() and srand(time(NULL)) are not modelled. Each test takes the draws as a parameter and is proved for all of them.
- The array sizes (N = 1000, N = 10) and the 1000 runs are generalised to any n >= 2 and any number of runs.
- Traverse: a read past the end of the sorted array, which would happen only for a tree with more nodes than expected, is modelled as a mismatch.
- Workloads.WalkFrom: when RB_FIND returns NULL, the driver would dereference it. The model returns no keys. In the test the key is always present.
- TestCases.SortPrefix: states qsort's result only for distinct keys, the only case the driver sorts. qsort's algorithm is not modelled.
- TestCases.InsertLeftTest and TestCases.InsertRightTest run their eight steps from tables of keys and expected black-heights. The driver writes each step out.
- TestCases.IterTest: the driver's removal loop is bounded by `i`, which its inner loops reuse. Each round ends with `i == N`, so the bound is N, which is how the model runs it.
- The debug printers `print_rbtree_walk` and `print_rbtree` (pure output) are not modelled. Neither are the cmocka harness and `main`.
