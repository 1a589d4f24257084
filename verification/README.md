# Verified model of vlib

vlib is a collection of independent in-memory data structures and algorithms in C.  This project models the ones in
which something can go wrong in an interesting way, in the form the C code has: structures that are updated in place
are classes over linked nodes, slot arrays or buffers, loops are loops.  Each such method is proved to compute a
function on values, and what the library promises is proved about that function, for every input and every run.

| files | model |
|---|---|
| `LruSpec.dfy`, `Lru.dfy` | the LRU cache: recency list, key index and reverse index |
| `HashRows.dfy`, `HashTable.dfy` | the hash table, its resize loop, and the finite map it stands for |
| `AvlTree.dfy`, `Avl.dfy` | AVL trees as values and on linked nodes |
| `Sha256Spec.dfy`, `Sha256Laws.dfy`, `Sha256Vector.dfy`, `Sha256Constants.dfy`, `Sha256.dfy`, `RandomBytes.dfy` | FIPS 180-4 with laws and a worked example that fix its functions, the streaming hash, and the byte generator built on it (HMAC in counter mode) |
| `Order.dfy`, `StableSort.dfy`, `Sorting.dfy`, `QuickSort.dfy`, `PriorityQueue.dfy`, `HeapMinima.dfy` | comparison functions, the three sorts and the heap |
| `TreeSpec.dfy`, `Tree.dfy`, `Queue.dfy`, `BtBfs.dfy` | n-ary trees with two searches, the linked queue, breadth-first search in binary trees |
| `VstrOrder.dfy`, `Vstr.dfy` | small strings with their comparison |
| `Siphash.dfy`, `SiphashLaws.dfy`, `SiphashVector.dfy` | SipHash-1-2, laws of its operations, the inverse of a round, and the paper's worked example |
| `Arithmetic.dfy`, `Sequences.dfy`, `Octets.dfy`, `Options.dfy` | division facts, removal from a sequence, bytes, optional values |

Assumptions: a comparison function is a total preorder (ties allowed); memory allocation succeeds; the hash that tables
use is an arbitrary function of the key; keys of tables are byte strings and are compared with `==`, which is what
comparing length and bytes does.  A C string is a byte sequence that contains a NUL.

Where the code differs from its documentation or evident intention, the model follows the code:

- `ht_resize` never stores the doubled capacity, so its loop moves nothing (`HashTable.Table.Resize`).  The loop is
  proved for both moduli; `HashTable.Table.ResizeAndStoreCap` is a repair and not what the code does.
- `lru_trim_cache` never decrements `len`; the number of nodes is min(len, cap).
- AVL deletion reports failure when the node it unlinks is a leaf; `num_el` is then not decremented, so that it is an
  upper bound of the number of keys.
- `heapify_down` stops above a lone left child and above children that tie, so that a deletion can hand out an element
  that is not a minimum (`PriorityQueue.DeleteCanMissTheMinimum`).  `PriorityQueue.DeleteKeepsHeapIff` says exactly when
  a deletion keeps the heap order, `HeapMinima.DeleteLeavesMinimumIff` exactly when it leaves a minimum to the next one.
  Over whole runs without ties only a deletion from two elements can go wrong (`HeapMinima.DeleteHandsOutMinimum`), and
  `HeapMinima.NextDeletionIsMinimumIff` and `HeapMinima.DeleteLeavesMinimum` say exactly when it does.
- The documentation of `vstr_cmp` promises 0 on equal strings only; with NUL bytes inside the string this fails, and
  `VstrOrder.EqualOnlyToItselfIff` says exactly when it holds.
- `vstr_from` and `vstr_from_len` answer a string that is too long with 23 zero bytes.
- The two tree searches can return different nodes when keys repeat (`TreeSpec.SearchesCanDiffer`);
  `TreeSpec.SearchesAgreeIff` says exactly when they agree.

Preconditions are those of the code: `merge_sort` needs a positive length (it computes `len - 1` in an unsigned type),
tree searches below a given parent key need a root, deletion in `tree.c` must not find the root (it has no parent to
dereference), `bt_bfs` needs a root, `vstr_new_len` asserts its bound, and one `sha256_update` takes fewer than 2^32
bytes (its index is 32 bits wide).

## Model

| member | source | states |
|---|---|---|
| `LruSpec.Inclusion` | src/lru.c:21-132 | LRU inclusion over every run: fed the same updates and gets, the bindings of a smaller cache are a subsequence of those of any larger one (same relative order, same values) |
| `LruSpec.RunOneLess` | src/lru.c:21-132 | after every run the caches of capacity c and c + 1 differ by at most one key, and in nothing else about their order |
| `LruSpec.HoldsMostRecent` | src/lru.c:21-69 | after every run the cache holds exactly the `cap` most recently touched keys, most recent first; a miss on get touches nothing |
| `LruSpec.HoldsLastStored` | src/lru.c:21-69 | every cached binding carries the value of the last update of its key in the run |
| `LruSpec.HitsCarryOver` | src/lru.c:61-69 | a hit answers the last value stored, and a hit in a smaller cache is the same hit in a larger one |
| `LruSpec.EvictsLeastRecentlyTouched` | src/lru.c:115-132 | a new key in a full cache evicts precisely the key whose last touch is the oldest, and keeps every other |
| `LruSpec.RecentByLastTouch` | src/lru.c:85-113 | the order of the cache is the order of last touches |
| `LruSpec.SizeIsBounded` | src/lru.c:115-132 | the number of nodes is min(`len`, cap), where `len` (`Lru.Replay`) is the number of insertions so far and only grows |
| `Lru.Lru.Update` | src/lru.c:21-59 | on linked nodes and two tables: the new recency sequence is the abstract step, list, index and reverse index stay exact inverses over exactly the linked nodes, and `len` grows by one exactly when the key was not held |
| `Lru.Lru.Get` | src/lru.c:61-69 | returns the held value or nothing, and moves a hit to the front; keeps the representation |
| `Lru.Lru.TrimCache` | src/lru.c:115-132 | called after `len` was incremented: cuts the list to `cap` nodes, dropping the tail from both tables |
| `Lru.Lru.AddNode` | src/lru.c:24-48 | the branch for a new key: node created, entered into both tables, counted, linked in front |
| `Lru.Lru.Refresh` | src/lru.c:52-58 | the branch for a held key: new value, moved to the front, everything else as it was |
| `Lru.List.Detach` | src/lru.c:85-102 | unlinks one node; the others keep their order, `prev` and `next` mirror each other, head and tail are right, and the node's own links are null |
| `Lru.List.Prepend` | src/lru.c:104-113 | links an unlinked node in front of all others |
| `Lru.Replay` | src/lru.c:21-132 | for every run on a fresh cache object, the answers, what the object holds in the end and what `len` has counted are those of the abstract run |
| `HashTable.Replay` | src/ht.c:34-278 | for every hash function and every run of the five operations, a fresh table gives the answers of a finite map and ends with its bindings |
| `HashTable.Table.Insert` | src/ht.c:59-143 | binds the key to the value, whether it was bound or not; every entry is in the bucket of its hash, no key twice, `len` is the sum of the bucket lengths; exactly when `len` has reached `cap`, the buckets become 2 * cap |
| `HashTable.Table.Placement` | src/ht.c:289-291 | in every valid table, bucket b holds exactly the bound entries whose hash modulo `cap` is b |
| `HashTable.Table.TryInsert` | src/ht.c:145-218 | inserts and succeeds exactly when the key is absent; the buckets become 2 * cap exactly when `len` has reached `cap`, also if it then fails |
| `HashTable.Table.Get` | src/ht.c:220-247 | the bound value, or null exactly when the key is absent |
| `HashTable.Table.Has` | src/ht.c:34-57 | whether the key is bound |
| `HashTable.Table.Delete` | src/ht.c:249-278 | removes exactly the given key and succeeds exactly when it was bound |
| `HashTable.Bucket.Remove` | src/ht.c:377-391 | closes the gap in the bucket and zeroes the freed slot |
| `HashTable.Bucket.Append` | src/ht.c:127-141 | adds at the end; the capacity is 2 at first and doubles when the bucket is full |
| `HashTable.Table.RehashBucket` | src/ht.c:302-352 | in place: stayers are packed hole-free in their order, movers are appended in their order to bucket i + old_cap, all other buckets are untouched; for either modulus |
| `HashTable.Table.RehashEntry` | src/ht.c:305-351 | one entry of the loop: compaction of the kept prefix, holes behind it, the unseen rest untouched |
| `HashTable.Table.Resize` | src/ht.c:293-354 | as written (`cap` never stored, so modulus old cap): the bucket array doubles, no entry moves, and the map is unchanged |
| `HashTable.Table.ResizeAndStoreCap` | src/ht.c:293-354 | the declared repair (new cap stored, modulus 2 * old cap): the rows are split stably by the new hash and still represent the same map |
| `HashRows.SplitRepresents` | src/ht.c:302-352 | splitting by the doubled modulus loses and duplicates nothing: the rows represent the same map under the new capacity |
| `HashRows.SplitWithOldModulus` | src/ht.c:302-352 | splitting by the old modulus is the identity on the old rows and leaves the new ones empty |
| `HashRows.DoubledModulus` | src/ht.c:289-291 | h mod 2c is h mod c or h mod c + c, so an entry stays or goes to exactly one other bucket |
| `Avl.Avl.Insert` | src/avl_tree.c:37-46 | on linked nodes: adds exactly the given key unless a tying one is present, reports which, keeps search order, balance and exact heights, counts it, and rotates at most once; the height, which bounds the nesting of calls, is logarithmic |
| `Avl.Avl.Delete` | src/avl_tree.c:48-56 | removes exactly the tying key, keeps all invariants; the exact condition of its return code: success if and only if the key was present and the unlinked node had a child; an absent key changes nothing; the height, which bounds the nesting of calls, is logarithmic |
| `Avl.Avl.InOrder` | src/avl_tree.c:67-74 | lists every key once in strictly increasing order |
| `Avl.Replay` | src/avl_tree.c:37-56 | every run of insertions and deletions on linked nodes is a run on a set of keys and ends in a valid AVL tree that holds that set; every return code of the run, and `num_el` as insertions reported less deletions reported |
| `Avl.InsertNode` | src/avl_tree.c:90-134 | the nodes form the tree that the value-level insertion gives; a duplicate returns the same root; counts rotations; terminates by the height, so that calls nest no deeper than that |
| `Avl.DeleteNode` | src/avl_tree.c:136-192 | the nodes form the tree that the value-level deletion gives, with no node but old ones; every rotation finds the nodes it dereferences; terminates by the height, so that calls nest no deeper than that |
| `Avl.RightRotate` | src/avl_tree.c:202-213 | in place on nodes: the rotated tree with recomputed heights |
| `Avl.LeftRotate` | src/avl_tree.c:215-226 | in place on nodes: the rotated tree with recomputed heights |
| `Avl.MinValueNode` | src/avl_tree.c:194-200 | finds a node of the tree that holds its leftmost key |
| `AvlTree.InsertOrdered` | src/avl_tree.c:90-134 | insertion keeps the search order and adds the key, and one node, exactly when no key ties with it |
| `AvlTree.InsertBalanced` | src/avl_tree.c:90-134 | insertion restores balance within 1 and exact stored heights; a subtree grows by at most one level |
| `AvlTree.InsertRotatesOnce` | src/avl_tree.c:112-131 | at most one single or double rotation in the whole insertion, exactly where a node is out of balance, and the choice by key is the choice by balance |
| `AvlTree.RestorePicks` | src/avl_tree.c:173-191 | which rotation a deletion performs, shape by shape: a single one where the heavy child is even or leans the same way, a double one where it leans the other way, none in balance |
| `AvlTree.InsertDuplicate` | src/avl_tree.c:108-110 | a duplicate leaves the whole tree unchanged, heights included |
| `AvlTree.DeleteOrdered` | src/avl_tree.c:136-192 | deletion removes exactly the keys that tie with the given one, also through the successor copy, and keeps the search order |
| `AvlTree.DeleteBalanced` | src/avl_tree.c:136-192 | deletion restores balance and exact heights and lowers a subtree by at most one level |
| `AvlTree.DeleteAbsent` | src/avl_tree.c:136-192 | deleting a key that is not there leaves the whole tree unchanged, heights included |
| `AvlTree.DeleteReports` | src/avl_tree.c:151-161 | `success` is set if and only if the key is present and the node that is unlinked has a child |
| `AvlTree.DeleteReportsFailureOnLeaf` | src/avl_tree.c:151-161 | a concrete case: deleting the only key empties the tree and reports failure |
| `AvlTree.MinKeyIsLeast` | src/avl_tree.c:194-200 | the leftmost key is below all others of a search tree |
| `AvlTree.Reassociated` | src/avl_tree.c:202-226 | what both rotations rest on: either both ways to hang three subtrees below two keys are search trees or neither is, with the same keys |
| `AvlTree.FibonacciBound` | src/avl_tree.c:112-133 | a tree of stored height h has at least Fib(h + 2) - 1 nodes |
| `AvlTree.LogarithmicDepth` | src/avl_tree.c:90-192 | the stored height h, by which `Avl.InsertNode` and `Avl.DeleteNode` terminate, satisfies 2^(h / 2) <= n + 1 |
| `AvlTree.InOrderIncreases` | src/avl_tree.c:261-268 | the in-order walk is strictly increasing and lists each key once |
| `Sha256.HashPieces` | src/sha256.c:97-168 | for every way to cut a message below 2^64 bits into pieces: init, one update per piece, final gives the standard's digest of the whole message |
| `Sha256.Ctx.Update` | src/sha256.c:110-122 | the bytes join the message hashed so far: whole blocks folded into the state, the rest buffered, `bitlen` modulo 2^64 |
| `Sha256.Ctx.Final` | src/sha256.c:124-168 | writes the digest of section 6.2 of FIPS 180-4 of everything passed to update |
| `Sha256.Ctx.PadRest` | src/sha256.c:127-140 | both padding branches leave the one padding of section 5.1.1 of FIPS 180-4, up to the length |
| `Sha256.Ctx.Transform` | src/sha256.c:56-95 | for every state and block, the compression of section 6.2.2 of FIPS 180-4 |
| `Sha256.Schedule` | src/sha256.c:59-63 | the two loops fill the recursive message schedule |
| `Sha256.Mix` | src/sha256.c:65-85 | the rotating eight-variable loop is the standard's 64 rounds |
| `Sha256Spec.ZeroCountIsLeast` | src/sha256.c:129-140 | the padding uses the least number of zero bytes that leaves a block eight bytes short |
| `Sha256Spec.LengthIsEncoded` | src/sha256.c:142-152 | the eight length bytes read in base 256 give back the bit length |
| `Sha256Vector.DigestOfAbc` | src/sha256.c:31-168 | the standard's functions, from padding to output, map "abc" to the published digest ba7816bf...f20015ad, worked out word by word |
| `Sha256Vector.RoundsAre` | src/sha256.c:75-85 | the working variables of that example after every eighth round |
| `Sha256Vector.ScheduleIs` | src/sha256.c:59-63 | its 64 schedule words |
| `Sha256Laws.ChooseIsSelection` | src/sha256.c:34 | CH takes the bits of y under the ones of x and those of z under its zeros |
| `Sha256Laws.MajorityDecides` | src/sha256.c:35 | MAJ is the common bit where x and y agree, and the bit of z elsewhere |
| `Sha256Laws.RotationWraps` | src/sha256.c:32 | ROTRIGHT by every amount: the bits that leave below come in above, in order |
| `Sha256Laws.RotationShifts` | src/sha256.c:32 | and the others move down by the amount |
| `Sha256Laws.RotationReturns` | src/sha256.c:32 | rotating by n and then by 32 - n gives the word back |
| `Sha256Laws.AddIsModular` | src/sha256.c:71-94 | addition of words is addition modulo 2^32 |
| `Sha256Laws.WordOfBytes` | src/sha256.c:157-167 | the four output bytes of a word, read most significant first, are the word |
| `Sha256Laws.BytesOfWord` | src/sha256.c:59-61 | and four bytes read as a word come out again in their order |
| `Sha256Constants.ConstantsAreCubeRoots` | src/sha256.c:42-53 | all 64 constants are the first 32 fractional bits of the cube roots of the table's primes (section 4.2.2 of FIPS 180-4) |
| `Sha256Constants.TableHoldsPrimes` | src/sha256.c:42-53 | every entry of the table of primes is prime |
| `Sha256Constants.TableIncreases` | src/sha256.c:42-53 | its entries increase |
| `Sha256Constants.TableMissesNone` | src/sha256.c:42-53 | the table starts at 2 and no prime lies between two of its entries, so that it lists the first 64 |
| `Sha256Constants.InitialValuesAreSquareRoots` | src/sha256.c:97-108 | the eight initial words are the first 32 fractional bits of the square roots of the first eight primes of the table (section 5.3.3) |
| `RandomBytes.Generator.GetRandomBytes` | src/util.c:33-63 | for every length: exactly the first bytes of HMAC(seed, c), HMAC(seed, c + 1), ... and the counter advanced by ceil(len / 32) modulo 2^64 |
| `RandomBytes.Generator.NextMac` | src/util.c:40-56 | one HMAC (section 2 of RFC 2104) over SHA-256 of the counter's eight bytes |
| `RandomBytes.XorIsExclusive` | src/util.c:41-42 | the pads flip exactly the bits that they have set, and applying one twice undoes it |
| `RandomBytes.LittleEndianIsReversed` | src/util.c:46 | the counter's bytes are those of its big-endian form, which `Sha256Spec.LengthIsEncoded` reads back, in reverse |
| `RandomBytes.MacStreamContinues` | src/util.c:33-63 | successive requests read one stream of MACs, across the wrap of the counter |
| `Sorting.StableSortsAgree` | src/merge_sort.c:10-65 | any two stable sorts of a sequence are identical and a permutation of it, ties included |
| `Sorting.SortBothWays` | src/merge_sort.c:10-15 | runs both sorts on two arrays that hold the same: they end equal, and as the stable sort |
| `Sorting.MergeSort` | src/merge_sort.c:10-15 | the array ends as the stable sort of what it held (length at least 1) |
| `Sorting.MergeRange` | src/merge_sort.c:17-29 | sorts its range stably and touches nothing else, whether or not the merge is skipped |
| `Sorting.Merge` | src/merge_sort.c:31-65 | in place through the scratch buffer: the two runs merged, left one first on ties, the rest of the array untouched |
| `Sorting.MeetInOrder` | src/merge_sort.c:25-27 | when the sorted halves meet in order, skipping the merge is right: it would change nothing |
| `Sorting.MergedIsStableSort` | src/merge_sort.c:46-64 | merging two sorted runs is the stable sort of one followed by the other |
| `Sorting.BubbleSort` | src/bubble_sort.c:4-18 | the array ends as the stable sort of what it held, for every length |
| `StableSort.StableSortIsUnique` | src/merge_sort.c:10-65 | two sorted sequences with the same ties in the same order are equal element by element |
| `StableSort.SwapNeighbours` | src/bubble_sort.c:11-15 | exchanging neighbours that do not tie disturbs no class of tied elements |
| `QuickSort.Sort` | src/quick_sort.c:41-43 | a sorted permutation for every length; the nesting of recursive calls is bounded by the binary logarithm of n + 1, which is the budget that it passes down |
| `QuickSort.QuickSortRange` | src/quick_sort.c:27-39 | sorts and permutes its range only; it terminates by a budget b with size + 1 < 2^(b + 1), of which every nested call has one less: this holds because it recurses only into the smaller side |
| `QuickSort.Partition` | src/quick_sort.c:3-25 | permutes its range and splits it at the returned index: not above the pivot before, above it behind |
| `PriorityQueue.DeleteAfterInsertIsMinimum` | src/pq.c:93-126 | in every reachable state (those of `PriorityQueue.Replay`), a delete right after an insert returns a minimum of all that is held |
| `PriorityQueue.InsertBringsMinimum` | src/pq.c:26-42 | whatever the array looked like, the index-by-index sweep brings a minimum to the root |
| `PriorityQueue.InsertKeepsHeap` | src/pq.c:93-106 | on a heap, insertion keeps full heap order |
| `PriorityQueue.DeleteKeepsHeapIff` | src/pq.c:44-77 | deletion from a heap gives a heap if and only if the element put at the root would not stop above a smaller lone left child or above two tying smaller children |
| `PriorityQueue.DeleteEdges` | src/pq.c:44-77 | exactly which parent-child edges a deletion breaks |
| `PriorityQueue.SiftDownEdges` | src/pq.c:52-76 | the same for the sift from any node |
| `PriorityQueue.DeleteWithoutTies` | src/pq.c:108-126 | without ties every edge is in order but possibly that of a lone left child, so all of them when the remaining length is odd |
| `PriorityQueue.DeleteCanBreakTheHeap` | src/pq.c:57-75 | concrete heaps for both early exits after which the root is not the minimum |
| `PriorityQueue.DeleteCanMissTheMinimum` | src/pq.c:57-75 | both heaps are reached by a run, and the next deletion of that run hands out an element that is not a minimum |
| `HeapMinima.DeleteLeavesMinimumIff` | src/pq.c:108-126 | ties allowed: after a deletion from a heap the root is a minimum (so the next deletion hands one out) if and only if the deletion does not stick at the root; sticking further down does not matter |
| `HeapMinima.NextDeletionIsMinimumIff` | src/pq.c:93-126 | the exact condition over every run without ties: the next deletion hands out a minimum unless the last operation was a deletion from three elements of which the second is below the third |
| `HeapMinima.DeleteHandsOutMinimum` | src/pq.c:108-126 | in every state that a run without ties reaches, a deletion hands out a minimum of what is held, unless exactly two elements are held |
| `HeapMinima.DeleteLeavesMinimum` | src/pq.c:108-126 | in the same states, a deletion leaves a minimum at the root unless it takes one of three elements of which the second is below the third |
| `HeapMinima.InsertRestoresHeap` | src/pq.c:26-42 | an insertion mends a heap that is out of order at a lone left child only |
| `HeapMinima.DeleteKeepsNear` | src/pq.c:44-77 | what every operation keeps without ties: heap order on every edge but that of a lone left child, which is in order with its grandparent |
| `PriorityQueue.Replay` | src/pq.c:93-126 | every run on a new queue object hands out what the abstract run hands out, and ends with what it holds |
| `PriorityQueue.RunConserves` | src/pq.c:93-126 | every run conserves the multiset of elements |
| `PriorityQueue.Pq.Insert` | src/pq.c:93-106 | on the array: grows by doubling when full, stores, sweeps; slots behind `len` stay zero |
| `PriorityQueue.Pq.Delete` | src/pq.c:108-126 | on the array: hands out the root, replaces it by the last element and sifts; fails exactly on the empty queue |
| `PriorityQueue.Pq.HeapifyUp` | src/pq.c:26-42 | the loop is the sweep, and leaves the slots behind the prefix alone |
| `PriorityQueue.Pq.HeapifyDown` | src/pq.c:44-77 | the loop is the sift, with both early exits |
| `TreeSpec.SearchesAgreeIff` | src/tree.c:201-260 | both searches decide membership; for a key that occurs they return the same node if and only if some match comes first in preorder and has no match nearer to the root |
| `TreeSpec.SearchesCanDiffer` | src/tree.c:201-260 | a concrete tree with a repeated key for which the searches return different nodes |
| `TreeSpec.SearchesAgree` | src/tree.c:201-260 | with unique keys both searches return the same node |
| `TreeSpec.RunsAgree` | src/tree.c:63-195 | from unique keys, every run of insertions of new keys and deletions builds the same trees, step by step, whichever search it uses (the runs are those of `Tree.Replay`) |
| `Tree.Replay` | src/tree.c:63-195 | every run of insertions below a parent and deletions on a tree object, with either search, goes through the trees of the abstract run and returns 0 exactly where its search finds a node |
| `TreeSpec.DfsFindsFirst` | src/tree.c:201-222 | depth-first search finds the first match in preorder, or nothing exactly when there is none |
| `TreeSpec.BfsFindsFirst` | src/tree.c:224-260 | breadth-first search finds the first match level by level, or nothing exactly when there is none |
| `TreeSpec.QueueShrinks` | src/tree.c:235-257 | the breadth-first loop ends: the total size of the queued subtrees decreases |
| `TreeSpec.InsertAtPaths` | src/tree.c:287-303 | insertion adds one leaf, the last child of its parent, and moves no other node |
| `TreeSpec.DeleteAtPaths` | src/tree.c:262-285 | deletion keeps exactly the nodes not at or below the deleted one, with their keys, and closes the gap among the siblings |
| `TreeSpec.BackForward` | src/tree.c:262-285 | every node that is not at or below the deleted one has a new place |
| `TreeSpec.ForwardBack` | src/tree.c:262-285 | every new place is that of just one kept node |
| `Tree.DepthFirstFindNode` | src/tree.c:201-222 | on linked nodes: the node of the first match, and its index among its siblings |
| `Tree.BreadthFirstFindNode` | src/tree.c:224-260 | with the linked queue: the node of the first match by levels, its index among its siblings, and termination |
| `Tree.Tree.DepthFirstFind` | src/tree.c:130-141 | whether the depth-first search finds a match |
| `Tree.Tree.BreadthFirstFind` | src/tree.c:143-155 | whether the breadth-first search finds a match |
| `Tree.Tree.DepthFirstInsert` | src/tree.c:63-94 | a last child below the node found, a root for the empty tree, or -1 and no change; all links stay right |
| `Tree.Tree.BreadthFirstInsert` | src/tree.c:96-128 | the same with the other search |
| `Tree.Tree.DepthFirstDelete` | src/tree.c:157-175 | removes exactly the subtree of the node found, or -1 and no change; all links stay right |
| `Tree.Tree.BreadthFirstDelete` | src/tree.c:177-195 | the same with the other search |
| `Tree.Node.InsertChild` | src/tree.c:287-303 | on the slots: one more child behind the others, its parent set, the capacity 2 at first and then doubled when full, all slots behind the last child zero |
| `Tree.Node.Realloc` | src/tree.c:305-324 | more slots, the new ones zero, with the same children in the old ones |
| `Tree.Node.DeleteChild` | src/tree.c:262-285 | on the slots, in both branches: the other children stay in order without a gap, and the slot this frees is zero |
| `BtBfs.Bfs` | src/bt_bfs.c:10-36 | over linked binary nodes: decides whether some node matches, and ends |
| `Queue.Queue.Enque` | src/queue.c:28-41 | appends at the tail of the linked queue |
| `Queue.Queue.Deque` | src/queue.c:43-59 | takes the first element, and fails exactly on the empty queue |
| `Vstr.PushAll` | src/vstr.c:139-173 | every run of pushes on a string object is a run on its contents, through whichever forms it goes, and each push returns 0 exactly when it still fits |
| `Vstr.RunConcatenates` | src/vstr.c:139-173 | a run of pushes gives the concatenation of all that was pushed if and only if that fits into 2^56 - 1 bytes |
| `Vstr.Vstr.PushChar` | src/vstr.c:139-155 | appends, or refuses at the maximum length; the exact moment of the one-way switch; zero bytes from `len` to the end of the buffer and len < cap are kept |
| `Vstr.Vstr.PushString` | src/vstr.c:157-173 | appends the bytes before the NUL, or refuses and keeps the contents; a refused string can still switch the form |
| `Vstr.Vstr.LargePushChar` | src/vstr.c:242-259 | the large form: the capacity doubles exactly when only the NUL fits, and never exceeds 2^57 |
| `Vstr.Vstr.LargePushString` | src/vstr.c:261-278 | the large form: the capacity grows by the string's length exactly when the string is accepted and does not fit |
| `Vstr.Vstr.FromLen` | src/vstr.c:55-68 | the string of the given bytes; from 2^56 - 1 bytes on, 23 zero bytes in the small form instead |
| `Vstr.Vstr.From` | src/vstr.c:39-53 | the string of the bytes before the NUL, with the same refusal |
| `Vstr.Vstr.NewLen` | src/vstr.c:27-37 | the empty string with room for n bytes |
| `Vstr.Vstr.Data` | src/vstr.c:109-114 | the returned pointer reads the contents followed by a NUL, also when the small buffer is full |
| `Vstr.Vstr.Cmp` | src/vstr.c:116-137 | on the buffers: the comparison of the contents |
| `VstrOrder.CompareIsTotalPreorder` | src/vstr.c:116-137 | on all byte strings the comparison satisfies what the library asks of a comparison function |
| `VstrOrder.CompareIsByRank` | src/vstr.c:116-137 | on all byte strings it is a lexicographic order: of the bytes up to the first NUL, an end mark above all bytes where there is none, and then the longer string first |
| `VstrOrder.CompareIsLexicographic` | src/vstr.c:116-137 | without NULs: smaller byte at the first difference first, a proper prefix after its extensions, 0 exactly on equality |
| `VstrOrder.CompareIsZeroIff` | src/vstr.c:116-137 | in general it is 0 exactly on equal lengths with equal bytes before the first NUL |
| `VstrOrder.EqualOnlyToItselfIff` | src/vstr.c:116-137 | 0 means equality for a given string if and only if it has no NUL before its last byte |
| `VstrOrder.NulHidesDifference` | src/vstr.c:116-137 | two different strings that compare as equal |
| `Siphash.Hash` | src/siphash.c:101-167 | for every length: SipHash-1-2 of the message (section 2 of the SipHash paper), with SipHash-c-d defined over the length-tagged little-endian words |
| `Siphash.LastWord` | src/siphash.c:114-148 | the fall-through switch builds the last word: the bytes left over, zeros, and the length modulo 256 |
| `Siphash.Round` | src/siphash.c:82-98 | the sequential macro is the paper's two-lane round |
| `SiphashVector.PaperValue` | src/siphash.c:82-167 | the definitions that `Siphash.Hash` is proved against give the published value of the paper's example, a129ca6149be45e5 with 2 and 4 rounds |
| `SiphashLaws.RoundPermutes` | src/siphash.c:82-98 | a round is a permutation of the states: it has an inverse, both ways |
| `SiphashLaws.RotatesBy13` | src/siphash.c:54-85 | ROTL by 13: the high bits come in below, and the others move up |
| `SiphashLaws.RotatesBy16` | src/siphash.c:54-89 | the same by 16 |
| `SiphashLaws.RotatesBy17` | src/siphash.c:54-95 | the same by 17 |
| `SiphashLaws.RotatesBy21` | src/siphash.c:54-92 | the same by 21 |
| `SiphashLaws.RotatesBy32` | src/siphash.c:54-97 | the same by 32 |
| `Siphash.PaddedIsInjective` | src/siphash.c:113-148 | no two messages are padded to the same bytes |

## Left out

- Lru.Lru.Update: `len` is unbounded; its wrap at 2^64 is not modelled.  The user's release callback is left out.
- HashTable.Table.Get: returns the value and not a pointer into the table, so writing through the pointer is not modelled; likewise for `lru_get`.
- HashTable.Table.RehashEntry: entries are values that sit in slots; that an entry keeps its address when it moves is not modelled.
- HashTable.Table.Insert: custom key comparison functions are left out; they would need a congruence with the hash that the code does not state.
- Avl.Avl.Insert: the comparison function is fixed when the tree is made, and not passed with every call; this is what makes the search order an invariant.
- Avl.DeleteNode: the successor's key is passed on by value, where the code passes a pointer into the node that is about to be removed.
- Lru.Lru.TrimCache: freed nodes are never allocated again in the model, so reuse of an address as a key of the reverse index does not arise.
- Lru.List.Detach: head and tail, which are fields of the cache in C, form an object of their own; the reverse index maps a node to its key directly, where C stores the key as a small string (`Vstr.Vstr.FromLen` gives back the same bytes).
- Tree.Node.InsertChild: a node that C reallocates, and so may move, is the same object here; dangling parent pointers after such a move are not modelled.
- Tree.Tree.DepthFirstDelete: `num_el`, which does not count the root and counts a deleted subtree as one, is left out.
- Sorting.MergeSort: the value of a zeroed scratch slot is a parameter, as element types are abstract.
- RandomBytes.Generator.GetRandomBytes: seeding from /dev/urandom, time and process id; the seed is any 64 bytes, and the counter's bytes are those of a little-endian machine.
- Vstr.Vstr.PushChar: the small and the large form, which share storage in C, are two separate parts, and `len + str_len` is not taken modulo 2^64 (no string in memory is that long).
- Vstr.Vstr.Cmp: of `strncmp` only the sign is fixed by the C standard; the model takes the difference of the bytes.
- Siphash.Hash: `inlen << 56` is modelled by what it keeps, the lowest byte of the length; unaligned loads are loads of eight bytes, least significant first.
- Queue.Queue.Enque: the link of a new node, which C leaves uninitialised, is null here; no proof uses it.
- Out-of-memory paths, all `*_free` functions, release callbacks and byte-level memory (flexible array members, padding, alignment).
- `vstr_format`, which depends on the C library's formatting.
- `insertion_sort.c`: its guard `j >= 0` on an unsigned index never stops the inner loop, so it is not a sort on all inputs.
- `list.c`: `list_insert_at` links a middle node to itself; what remains is covered by the recency list.
- `set.c`: the bucket code of the table without values.
- `vec.c`, `small_vec.h`, `binary_search.c`, `bt_compare.c` and the remaining tree walks: easy members.
