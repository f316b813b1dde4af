# Verified model of Collections-C

Collections-C is a C library of containers that rearrange their own nodes and buffers in place. This
project models its seven hardest containers in Dafny, with the branches, pointer writes, loops and
constants of the C code, and proves what the library promises about them: for every input, every
reachable state and, where it matters, every run of operations.

| container | source | files |
|---|---|---|
| red-black tree table | `src/cc_treetable.c` | `TreeModel`, `TreeSpec`, `TreeSearch`, `TreeInsert`, `TreeDelete`, `TreeRemove`, `TreeTable`, `TreeIter` |
| chained hash table | `src/cc_hashtable.c` | `HashModel`, `HashTable`, `HashIter` |
| ternary search tree | `src/cc_tsttable.c` | `TstSpec`, `TstModel`, `TstData`, `TstTable` |
| doubly linked list | `src/cc_list.c` | `ListSpec`, `ListModel`, `CList` |
| deque and queue | `src/cc_deque.c`, `src/cc_queue.c` | `Words`, `Ring`, `Deque` |
| array of records | `src/sized/cc_array_sized.c` | `Records`, `ArraySized` |
| priority queue | `src/cc_pqueue.c` | `HeapSpec`, `PQueue` |
| runs of operations | all of the maps, the deque and the queue | `Runs` |

## How the model is built

Every container is a class whose fields are those of the C structure and whose methods write them step
by step. Buffers are Dafny arrays. The nodes that a container allocates live in its field `mem`, a map
from addresses to node structures: `n->left = x` is `mem := mem[n := mem[n].(left := x)]`, allocation
adds an address that is not in use and `free` is `mem := Freed(mem, n)`, which demands that `n` is in
use. So a read through a freed or foreign pointer and a second `free` of the same node do not verify,
and `mem.Keys == ...` in a validity predicate says that nothing leaks. What this form does not capture
is listed below.

Beside the memory each class keeps a ghost view: a tree with a path back to the root (a zipper), a node
sequence, the chains of a hash table. `Focus`, `Linked` and `TableOk` tie the view to every pointer,
parent pointers and the mirrored `prev` links included. A method is proved against a function of the
view (`RotatedLeft`, `Merge`, `CutAt`, `SiftDown`); what the functions mean is proved about them as
lemmas. Comparators are total preorders with `cmp(x, x) == 0`; keys that compare equal are one key; the
hash agrees on equal keys and is otherwise arbitrary.

Where the code and its comments differ the model follows the code:

- `merge` (`src/cc_list.c:1150`) reports a wrong first node for one shape of input, which `split` never
  produces; the exact case is in the contract of `MergeParts`.
- `cc_deque_remove_at` (`src/cc_deque.c:356`) shifts part of a wrapped buffer the wrong way in one
  branch; `RemoveAtExact` and, for `cc_deque_filter_mut`, `FilterMutExact` state the exact conditions, and
  `WrongShiftReached` is an ordinary run that ends there.
- `cc_deque_new_conf` (`src/cc_deque.c:73`) allocates the capacity before rounding it; the constructor's
  contract says exactly when the deque can be used.
- The entries of the ternary search tree are allocated and never freed; the contracts of its removals
  say so.
- An empty key of the ternary search tree stands for the one-letter word at the root; `EmptyKeyExact`
  says exactly when that is harmless and `EmptyKeyClash` shows a table where it is not.
- `cc_pqueue_top` on an empty queue returns `CC_ERR_OUT_OF_RANGE`, its comment says
  `CC_ERR_VALUE_NOT_FOUND`. `cc_deque_add_first` and `cc_deque_add_last` report a deque at its maximal
  capacity as `CC_ERR_ALLOC`; `cc_hashtable_add` reports it as `CC_ERR_MAX_CAPACITY`.

## Model

| member | source | states |
|---|---|---|
| `TreeModel.ZipInOrder` | src/cc_treetable.c:25-50 | looking at the tree from any node, along its parent pointers, shows the same entry sequence |
| `TreeModel.ZipBalanced` | src/cc_treetable.c:946-1001 | equal black heights of the whole tree split into a condition on a subtree and one on the path above it |
| `TreeModel.ZipNoRedRed` | src/cc_treetable.c:946-1001 | "no red child of a red node" splits into subtree, path and the one edge between them |
| `TreeModel.LeftRotation` | src/cc_treetable.c:734-756 | the pointer writes of a left rotation turn a well-linked tree into the well-linked rotated tree, in any place, and leave the sentinel alone |
| `TreeModel.RightRotation` | src/cc_treetable.c:705-727 | the same for a right rotation |
| `TreeModel.RotatedLeftInOrder` | src/cc_treetable.c:734-756 | a left rotation keeps the key order |
| `TreeModel.RotatedRightInOrder` | src/cc_treetable.c:705-727 | a right rotation keeps the key order |
| `TreeTables.TreeTable.RotateLeft` | src/cc_treetable.c:734-756 | the method performs exactly that rotation on the memory |
| `TreeTables.TreeTable.RotateRight` | src/cc_treetable.c:705-727 | the method performs exactly that rotation on the memory |
| `TreeSpec.PositionSplits` | src/cc_treetable.c:764-785 | in a sorted sequence a key splits the entries into smaller ones and others |
| `TreeSpec.LookupMeans` | src/cc_treetable.c:171-182 | a key is found with a value exactly if an entry with an equal key holds that value |
| `TreeSpec.AddedLookup` | src/cc_treetable.c:372-417 | adding maps the key and its equals to the value and changes no other key |
| `TreeSpec.AddedSorted` | src/cc_treetable.c:372-417 | adding keeps the keys strictly sorted, and the size grows only for a new key |
| `TreeSpec.WithoutLookup` | src/cc_treetable.c:622-638 | removing unmaps exactly the keys equal to the removed one |
| `TreeTables.TreeTable.constructor` | src/cc_treetable.c:101-127 | an empty valid table that owns only its sentinel |
| `TreeSearch.GoLeft` | src/cc_treetable.c:764-785 | a step to the left loses no candidate: everything passed over is greater than the key |
| `TreeSearch.GoRight` | src/cc_treetable.c:764-785 | a step to the right loses no candidate |
| `TreeSearch.NotFound` | src/cc_treetable.c:764-785 | a search that ends at the sentinel proves the key absent and marks its place |
| `TreeSearch.HeightBound` | src/cc_treetable.c:764-785 | the height is at most twice the black height |
| `TreeSearch.SearchCost` | src/cc_treetable.c:764-785 | 2^height is at most (size + 1)^2 in every red-black tree |
| `TreeTables.TreeTable.GetNodeByKey` | src/cc_treetable.c:764-785 | finds the node exactly if the table holds the key; it compares once for each node on the way, down to the node or to the sentinel, and 2^k <= (size + 1)^2 for these k comparisons |
| `TreeTables.TreeTable.Get` | src/cc_treetable.c:171-182 | answers with the value the map holds, or that there is none |
| `TreeInsert.PushUp` | src/cc_treetable.c:425-465 | recoloring below a red uncle keeps the insertion invariant two levels up and the entries |
| `TreeInsert.InnerLeft` | src/cc_treetable.c:425-465 | rotating an inner red grandchild outwards keeps the invariant, left side |
| `TreeInsert.OuterLeft` | src/cc_treetable.c:425-465 | the final rotation leaves a black parent, hence no violation, left side |
| `TreeInsert.InnerRight` | src/cc_treetable.c:425-465 | the same for the right side |
| `TreeInsert.OuterRight` | src/cc_treetable.c:425-465 | the same for the right side |
| `TreeInsert.InsertDone` | src/cc_treetable.c:425-465 | once the parent is black, painting the root black restores every rule |
| `TreeTables.TreeTable.PushRedUp` | src/cc_treetable.c:425-465 | the recoloring branch writes exactly the three colors and moves to the grandparent |
| `TreeTables.TreeTable.InsertRotateLeftSide` | src/cc_treetable.c:425-465 | the rotating branch ends with a black parent, left side |
| `TreeTables.TreeTable.InsertRotateRightSide` | src/cc_treetable.c:425-465 | the rotating branch ends with a black parent, right side |
| `TreeTables.TreeTable.RebalanceAfterInsert` | src/cc_treetable.c:425-465 | terminates, restores all red-black rules and links, keeps entries, nodes and sentinel |
| `TreeTables.TreeTable.Add` | src/cc_treetable.c:372-417 | the table stays valid; an equal key keeps its node and its key and gets the value, a new one gets a new node at its place, and nothing else changes |
| `TreeTables.TreeTable.HangNewNode` | src/cc_treetable.c:372-417 | a new key's node goes to its place in key order and the rules are restored |
| `TreeTables.TreeTable.ReplaceValue` | src/cc_treetable.c:372-417 | an equal key keeps its node and its key and gets the value |
| `TreeDelete.SiblingIsNode` | src/cc_treetable.c:474-529 | the sibling of a subtree one black node short is never the sentinel, so the test for the side is unambiguous |
| `TreeDelete.RedSiblingLeft` | src/cc_treetable.c:474-529 | rotating a red sibling away keeps the deletion invariant and the entries |
| `TreeDelete.Sink` | src/cc_treetable.c:474-529 | a black sibling with black children turns red and the shortage moves up |
| `TreeDelete.NearLeft` | src/cc_treetable.c:474-529 | a red near nephew is rotated outwards under the invariant |
| `TreeDelete.RedSiblingRight` | src/cc_treetable.c:474-529 | rotating a red sibling away, right side |
| `TreeDelete.NearRight` | src/cc_treetable.c:474-529 | a red near nephew, right side |
| `TreeDelete.FarLeftRules` | src/cc_treetable.c:474-529 | a red far nephew ends the shortage with all rules restored |
| `TreeDelete.FarRightRules` | src/cc_treetable.c:474-529 | the same for the right side |
| `TreeDelete.FarLeftContents` | src/cc_treetable.c:474-529 | the rotation at a red far nephew keeps the entries, left side |
| `TreeDelete.FarRightContents` | src/cc_treetable.c:474-529 | the rotation at a red far nephew keeps the entries, right side |
| `TreeDelete.DeleteDone` | src/cc_treetable.c:474-529 | a shortage at a red node or at the root is repaired by painting it black |
| `TreeTables.TreeTable.RedSiblingLeftSide` | src/cc_treetable.c:474-529 | first case of the loop on memory, left side |
| `TreeTables.TreeTable.NearNephewLeftSide` | src/cc_treetable.c:474-529 | third case of the loop on memory, left side |
| `TreeTables.TreeTable.FarNephewLeftSide` | src/cc_treetable.c:474-529 | fourth case of the loop on memory, left side: the tree is whole again |
| `TreeTables.TreeTable.RedSiblingRightSide` | src/cc_treetable.c:474-529 | first case, right side |
| `TreeTables.TreeTable.NearNephewRightSide` | src/cc_treetable.c:474-529 | third case, right side |
| `TreeTables.TreeTable.FarNephewRightSide` | src/cc_treetable.c:474-529 | fourth case, right side |
| `TreeTables.TreeTable.DeleteStepLeftSide` | src/cc_treetable.c:474-529 | one turn of the loop keeps the invariant and comes nearer to its end, left side |
| `TreeTables.TreeTable.DeleteStepRightSide` | src/cc_treetable.c:474-529 | one turn of the loop, right side |
| `TreeTables.TreeTable.RebalanceAfterDelete` | src/cc_treetable.c:474-529 | terminates and turns a tree one black node short into a red-black tree with the same entries, also when the short place is the sentinel |
| `TreeTables.TreeTable.Transplant` | src/cc_treetable.c:532-541 | the whole memory after a transplant, including the sentinel's parent field |
| `TreeTables.TreeTable.TreeMin` | src/cc_treetable.c:544-553 | the leftmost node of a subtree |
| `TreeRemove.SpliceRepairable` | src/cc_treetable.c:574-608 | after unlinking a node with at most one child either all rules hold or exactly one black node is missing |
| `TreeRemove.PromoteRepairable` | src/cc_treetable.c:574-608 | the same when the successor takes the place and the color of the removed node |
| `TreeRemove.DetachDeep` | src/cc_treetable.c:574-608 | cutting out a deeper successor and handing it the right subtree leaves all links in order |
| `TreeRemove.PromoteFocus` | src/cc_treetable.c:574-608 | the successor's node itself moves up: its address keeps its key and value |
| `TreeTables.TreeTable.ReplaceBySuccessor` | src/cc_treetable.c:574-608 | a node with two children gives its place to its successor's node; links and the sentinel are ready for the rebalancing |
| `TreeTables.TreeTable.TakePlace` | src/cc_treetable.c:574-608 | the last four writes of that exchange |
| `TreeTables.TreeTable.Unlink` | src/cc_treetable.c:574-608 | `remove_node` up to rebalancing takes exactly the node's entry out |
| `TreeTables.TreeTable.UnlinkAndRebalance` | src/cc_treetable.c:574-608 | with the rebalancing: a red-black tree of exactly the other entries |
| `TreeTables.TreeTable.RemoveNode` | src/cc_treetable.c:574-608 | removing any node leaves a valid table with exactly the other entries at their old addresses, and frees only that node |
| `TreeTables.TreeTable.Remove` | src/cc_treetable.c:622-638 | the table afterwards is the old one without the key, and the value is returned; an absent key changes nothing |
| `TreeTables.TreeTable.RemoveFirst` | src/cc_treetable.c:647-662 | removes the entry with the least key |
| `TreeTables.TreeTable.GetSuccessor` | src/cc_treetable.c:795-812 | the node of the next entry in key order, or the sentinel |
| `TreeTables.TreeTable.TreeDestroy` | src/cc_treetable.c:135-146 | frees exactly the nodes of the subtree, each once |
| `TreeTables.TreeTable.RemoveAll` | src/cc_treetable.c:691-697 | leaves an empty valid table that owns only its sentinel |
| `TreeIter.TreeTableIter.constructor` | src/cc_treetable.c:879-887 | a new iterator has every entry ahead of it |
| `TreeIter.TreeTableIter.Next` | src/cc_treetable.c:896-916 | returns the next entry in key order |
| `TreeIter.TreeTableIter.Remove` | src/cc_treetable.c:925-937 | removes the entry returned last; the saved next node stays right |
| `TreeIter.KeptLookup` | src/cc_treetable.c:879-937 | dropping the entries of chosen steps unmaps exactly their keys |
| `TreeIter.Traverse` | src/cc_treetable.c:879-937 | for every set of steps at which the current entry is removed, the nodes, keys and values that the iterator returns are the original entries, each once and in key order, and a valid table with exactly the others is left |
| `Words.MaskIsMod` | src/cc_hashtable.c:634-640 | masking with a power of two less one is the remainder |
| `Words.MaskPred` | src/cc_deque.c:160-170 | stepping back from slot 0 wraps in the unsigned word and lands on the last slot |
| `Words.SmearStep` | src/cc_hashtable.c:445-469 | one step of the shift-or cascade doubles the run of leading ones |
| `Words.UpperPowTwo` | src/cc_deque.c:977-1002 | the least power of two that is at least n, for every n below the maximum |
| `HashModel.FindMeans` | src/cc_hashtable.c:255-272 | a key is found with a value exactly if some entry with an equal key holds it |
| `HashModel.AddedFind` | src/cc_hashtable.c:166-206 | adding maps the key and its equals to the value and changes no other key |
| `HashModel.RemovedFind` | src/cc_hashtable.c:309-342 | removing unmaps exactly the keys equal to the given one |
| `HashModel.SearchTable` | src/cc_hashtable.c:255-272 | a key is in the table exactly if it is in the chain of its hash |
| `HashModel.StepPast` | src/cc_hashtable.c:255-272 | one step along a chain: an equal key is recognised whichever way it is compared, any other key is passed |
| `HashTables.HashTable.Bucket` | src/cc_hashtable.c:634-640 | a key whose bucket has been passed to its end is not in the table |
| `HashModel.PushFrontTable` | src/cc_hashtable.c:166-206 | putting a new entry in front of its bucket keeps the whole table in order |
| `HashModel.CutTable` | src/cc_hashtable.c:309-342 | unlinking an entry from the head or the middle of a bucket keeps the whole table in order |
| `HashModel.MoveStep` | src/cc_hashtable.c:480-498 | moving one entry to its new bucket keeps moved and unmoved entries linked |
| `HashModel.MoveEnd` | src/cc_hashtable.c:480-498 | after the walk every entry lies once in the new bucket of its hash |
| `HashTables.HashTable.constructor` | src/cc_hashtable.c:82-110 | an empty table whose capacity is the least power of two for the request, or the largest one, with the threshold of that capacity |
| `HashTables.HashTable.Get` | src/cc_hashtable.c:255-272 | answers every key, NULL included, as the map does |
| `HashTables.HashTable.GetNullKey` | src/cc_hashtable.c:283-294 | the NULL key is found exactly if it is mapped |
| `HashTables.HashTable.Add` | src/cc_hashtable.c:166-206 | an equal key keeps its entry and gets the value, a new one gets a fresh entry, and nothing else changes; a table at its threshold doubles and no other does; it fails exactly when such a table has maximal capacity, and then changes nothing |
| `HashTables.HashTable.AddToBucket` | src/cc_hashtable.c:166-206 | an equal key keeps its entry, a new one gets a fresh entry in its bucket |
| `HashTables.HashTable.AddNullKey` | src/cc_hashtable.c:217-243 | the same for the NULL key, in bucket 0 |
| `HashTables.HashTable.PushEntry` | src/cc_hashtable.c:166-243 | the allocation and linking part of both: a fresh entry at the head of the bucket of its hash |
| `HashTables.HashTable.ReplaceValue` | src/cc_hashtable.c:166-243 | the replacing part of both: only the value of that entry changes |
| `HashTables.HashTable.Remove` | src/cc_hashtable.c:309-342 | takes out exactly the entry of the key, frees it, returns its value; otherwise changes nothing |
| `HashTables.HashTable.RemoveNullKey` | src/cc_hashtable.c:354-382 | the same for the NULL key |
| `HashTables.HashTable.RemoveKey` | src/cc_hashtable.c:309-342 | the loop of `cc_hashtable_remove` for a key that is not NULL |
| `HashTables.HashTable.CutEntry` | src/cc_hashtable.c:309-342 | bucket pointer or predecessor skip the entry, which is freed; the rest of the chain stays |
| `HashTables.HashTable.RemoveAll` | src/cc_hashtable.c:389-402 | frees every entry once and leaves an empty valid table |
| `HashTables.HashTable.MoveEntries` | src/cc_hashtable.c:480-498 | relinks every entry into the new array without allocating, freeing or changing one |
| `HashTables.HashTable.Resize` | src/cc_hashtable.c:415-437 | the same map in twice the buckets |
| `HashIter.FlatItems` | src/cc_hashtable.c:690-752 | the walk over buckets and chains meets every entry of the table and none twice |
| `HashIter.CutBehind` | src/cc_hashtable.c:761-764 | removing an entry behind a walk changes nothing ahead of it |
| `HashIter.NextBucket` | src/cc_hashtable.c:690-743 | the first bucket from a given one on that is not empty |
| `HashIter.HashTableIter.constructor` | src/cc_hashtable.c:690-705 | finds the first entry in any bucket layout; everything is ahead |
| `HashIter.HashTableIter.Next` | src/cc_hashtable.c:717-743 | returns the next entry of the walk, within a chain or in the next bucket that is not empty |
| `HashIter.HashTableIter.LastRead` | src/cc_hashtable.c:717-743 | what a reader finds behind the pointer returned last |
| `HashIter.HashTableIter.Remove` | src/cc_hashtable.c:761-764 | removes the entry returned last; the saved next entry stays live and right |
| `HashIter.Traverse` | src/cc_hashtable.c:690-764 | for every set of steps at which the current entry is removed, the entries that the iterator returns are the original ones, each exactly once, and exactly those of the other steps remain |
| `ListSpec.MergeSorted` | src/cc_list.c:1150-1208 | merging two stably sorted neighbours is a stable sort of both |
| `ListSpec.MergeSortStable` | src/cc_list.c:1092-1131 | the sort keeps exactly the nodes and orders them stably |
| `ListSpec.StableSortUnique` | src/cc_list.c:1092-1131 | distinct nodes have only one stable order, so the result is determined |
| `CLists.CList.LinkBehind` | src/cc_list.c:1813-1833 | the node moves to the place before the base, links mirrored, nothing else moves |
| `CLists.CList.MergeParts` | src/cc_list.c:1150-1208 | the two sections become their stable merge with at most l_size + r_size comparisons, the nodes around them stay, the tail is right, and the head is right exactly if it is not the case of one smaller right node before several left ones |
| `ListSpec.MergeStepsBound` | src/cc_list.c:1150-1208 | a merge makes at most one comparison for each node of its sections |
| `ListSpec.MergeHead` | src/cc_list.c:1150-1208 | which node a merge puts first |
| `CLists.CList.Split` | src/cc_list.c:1107-1131 | sorts any section of a list in place and leaves its ends in head and tail |
| `CLists.CList.SortInPlace` | src/cc_list.c:1092-1095 | the same node objects in stable order, links, head and tail right |
| `ListSpec.ReversedTwice` | src/cc_list.c:735-759 | reversing twice restores the list, and reversing puts every pair the other way round |
| `CLists.CList.SwapNodes` | src/cc_list.c:1869-1902 | two nodes exchange places, also with one node between them |
| `CLists.CList.SwapAdjacent` | src/cc_list.c:1910-1943 | the same for neighbours in either order |
| `CLists.CList.Reverse` | src/cc_list.c:735-759 | the reversed node sequence with mirrored links and exchanged ends |
| `CLists.CList.SpliceBetween` | src/cc_list.c:472-493 | the nodes of the second list move between the two neighbours, at either end too |
| `CLists.CList.SpliceAt` | src/cc_list.c:427-459 | the lists become one at the index and an empty one, or nothing changes |
| `CLists.CList.UnlinkNode` | src/cc_list.c:1953-1974 | exactly that node is unlinked and freed |
| `CLists.CList.GetNodeAt` | src/cc_list.c:2011-2033 | the node at the index, or that there is none |
| `TstSpec.FindZip` | src/cc_tsttable.c:125-159 | what a whole table finds for a word is what its search finds from the place it has reached |
| `TstSpec.ZipUpdate` | src/cc_tsttable.c:210-257 | changing a table where the search for a word ends changes that word only |
| `TstSpec.BranchUpdate` | src/cc_tsttable.c:166-194 | a new chain of nodes adds exactly its word |
| `TstSpec.ZipOrdered` | src/cc_tsttable.c:210-257 | inserting where the search ends keeps the search order |
| `TstSpec.BranchFind` | src/cc_tsttable.c:166-194 | a chain of nodes leads its word to the entry and every other word nowhere |
| `TstSpec.ZipOrderedLess` | src/cc_tsttable.c:338-370 | cutting nodes off keeps the search order |
| `TstSpec.ZipTrimmed` | src/cc_tsttable.c:338-370 | where childless nodes must be looked for after a change at one place |
| `TstSpec.KeysFound` | src/cc_tsttable.c:270-287 | the table finds exactly the words it spells, up to equal characters |
| `TstSpec.KeysApart` | src/cc_tsttable.c:270-287 | no word is spelled twice |
| `TstSpec.KeysCount` | src/cc_tsttable.c:431-434 | the number of entries is the number of words |
| `TstSpec.EmptyKeyExact` | src/cc_tsttable.c:210-257 | giving the empty key a value leaves all proper words of 8-bit characters alone exactly if no letter equals the root's character |
| `TstSpec.EmptyKeyClash` | src/cc_tsttable.c:210-257 | a concrete table where the empty key overwrites the word "a" |
| `TstModel.PruneStep` | src/cc_tsttable.c:338-370 | cutting a dead end off loses no word, and its parent is the next candidate |
| `TstModel.HangTable` | src/cc_tsttable.c:210-257 | hanging the new chain into the slot the search has found keeps every rule of the table and adds exactly the word |
| `TstModel.ClearLeaf` | src/cc_tsttable.c:294-331 | freeing a childless node leaves the rest linked and the count right |
| `TstData.DataSet` | src/cc_tsttable.c:223-233 | writing a node's entry, its own or a new one, leaves every other word's entry alone |
| `TstData.DataHang` | src/cc_tsttable.c:236-257 | a new branch gets an entry that no other node has |
| `TstData.DataLess` | src/cc_tsttable.c:338-370 | cutting nodes off leaves the other entries in order |
| `TstTables.TstTable.GetLastNode` | src/cc_tsttable.c:125-159 | the slot, the parent and the index at the end of the search, for every key |
| `TstTables.TstTable.constructor` | src/cc_tsttable.c:87-104 | an empty valid table |
| `TstTables.TstTable.MakeMidSubtree` | src/cc_tsttable.c:166-194 | the chain for the rest of the key, beside an untouched memory |
| `TstTables.TstTable.Add` | src/cc_tsttable.c:210-257 | the key leads to the value, every other word to what it did; the word's entry is overwritten in place or, for a new word, allocated, and the size grows exactly then; an empty key writes the root, or makes one from the NUL |
| `TstTables.TstTable.AddBranch` | src/cc_tsttable.c:210-257 | the same where the search ends at an empty slot |
| `TstTables.TstTable.Get` | src/cc_tsttable.c:270-287 | answers with the value of the word, or that there is none |
| `TstTables.TstTable.RemoveEowNode` | src/cc_tsttable.c:338-370 | exactly the word goes; pruning upwards terminates and leaves every childless node the end of a word |
| `TstTables.TstTable.Remove` | src/cc_tsttable.c:384-404 | exactly the word goes and the size drops by one, the entry stays allocated; an absent word changes nothing |
| `TstTables.TstTable.RemoveAll` | src/cc_tsttable.c:294-331 | the stackless walk terminates, frees every node exactly once and counts the size down to 0; no entry is freed |
| `Rings.MaskSlot` | src/cc_deque.c:160-191 | a masked index is the slot that many places on, around the end |
| `Rings.RemovedRight` | src/cc_deque.c:356-422 | in every branch but the wrong shift, removing in the middle deletes exactly that element |
| `Rings.RemoveAtExact` | src/cc_deque.c:396-409 | removal deletes the element for all contents if and only if the branch does not shift the wrong way |
| `Rings.RemovedRingExact` | src/cc_deque.c:356-422 | in plain terms, what any removal leaves: the first slot and each element, in every branch |
| `Rings.ShiftedWrongly` | src/cc_deque.c:396-409 | the wrong shift doubles one element, delays the following ones and loses the last; in a full buffer it also overwrites the first |
| `Rings.NoWrapSafe` | src/cc_deque.c:356-422 | contents that do not wrap never meet the wrong shift and stay so |
| `Rings.SafeStep` | src/cc_deque.c:840-858 | no step of the filter before the danger condition holds meets the wrong shift, and the condition stays false |
| `Rings.FilteredRingRight` | src/cc_deque.c:840-858 | from any safe point of the run the filter ends with exactly the elements that pass, in order |
| `Rings.FilterMutExact` | src/cc_deque.c:840-858 | the filter is right for all contents and all tests if and only if the contents do not wrap, or start with too few elements or reach too little beyond the middle for a wrong shift |
| `Rings.FilteredDrop` | src/cc_deque.c:840-858 | dropping an element that fails the test does not change what is kept |
| `Rings.WrongShiftExample` | src/cc_deque.c:396-409 | a concrete wrapped buffer in which a removal loses an element that was to stay |
| `Runs.WrongShiftReached` | src/cc_deque.c:396-409 | a run of additions and removals at the ends that leads to such a removal |
| `Deques.Deque.LastSlot` | src/cc_deque.c:160-191 | `last` is (first + size) mod capacity |
| `Deques.Deque.constructor` | src/cc_deque.c:73-95 | an empty deque of the rounded capacity over a buffer of the unrounded one, usable if and only if the two agree because the request was a power of two |
| `Deques.Deque.CopyBuffer` | src/cc_deque.c:909-935 | the elements come to lie from slot 0 on, wrapped or not |
| `Deques.Deque.ExpandCapacity` | src/cc_deque.c:948-968 | twice the capacity, the same elements |
| `Deques.Deque.AddFirst` | src/cc_deque.c:160-170 | one element more in front, through wrapping; a full deque doubles and no other does, and it fails exactly at maximal capacity |
| `Deques.Deque.AddLast` | src/cc_deque.c:181-191 | one element more at the back; a full deque doubles and no other does, and it fails exactly at maximal capacity |
| `Deques.Deque.RemoveFirst` | src/cc_deque.c:435-449 | the first element goes and is returned |
| `Deques.Deque.RemoveLast` | src/cc_deque.c:459-473 | the last element goes and is returned |
| `Deques.Deque.Reverse` | src/cc_deque.c:683-700 | the elements in reverse order, wrapped or not |
| `Deques.Deque.RemoveAt` | src/cc_deque.c:356-422 | every element that is left and the first slot, in every branch: the sequence without the element, or what the wrong shift makes of it |
| `Deques.Deque.ShiftFront` | src/cc_deque.c:375-395 | the shifting of the front half, wrapped or not, inside the buffer |
| `Deques.Deque.ShiftBack` | src/cc_deque.c:395-416 | the shifting of the back half, with the wrong direction in its wrapped branch |
| `Deques.Deque.FilterMut` | src/cc_deque.c:840-858 | terminates always, with the exact ring state; the order-preserving filter unless a wrong shift can occur |
| `Records.MovedRecords` | src/sized/cc_array_sized.c:557-594 | moving a block of bytes at record boundaries moves exactly those records, inside the buffer |
| `Records.SwappedRecords` | src/sized/cc_array_sized.c:252-264 | swapping byte by byte swaps the two records |
| `SizedArrays.ArraySized.Create` | src/sized/cc_array_sized.c:79-120 | an empty array with room for the records exactly if the capacity is not zero and leaves room to grow by the factor, otherwise a refusal |
| `SizedArrays.ArraySized.MoveRecords` | src/sized/cc_array_sized.c:576-590 | one `memmove` of whole records, inside the records in use |
| `Records.GapClosed` | src/sized/cc_array_sized.c:557-594 | closing the gap of a dropped cluster keeps unseen and kept records |
| `SizedArrays.ArraySized.FilterMut` | src/sized/cc_array_sized.c:557-594 | the order-preserving filter of the records, every move inside the buffer, for every record length |
| `SizedArrays.ArraySized.IndexOf` | src/sized/cc_array_sized.c:437-452 | the first equal record, or that there is none |
| `SizedArrays.ArraySized.Contains` | src/sized/cc_array_sized.c:705-721 | the number of equal records |
| `SizedArrays.ArraySized.SwapAt` | src/sized/cc_array_sized.c:252-264 | exactly the two records change places |
| `SizedArrays.ArraySized.Reverse` | src/sized/cc_array_sized.c:652-664 | the records in reverse order |
| `HeapSpec.SiftUpHeap` | src/cc_pqueue.c:218-246 | moving a new element up restores heap order and keeps the elements |
| `HeapSpec.SiftDownHeap` | src/cc_pqueue.c:300-330 | moving the root down restores heap order and keeps the elements |
| `HeapSpec.GreatestOf` | src/cc_pqueue.c:303-322 | the place that is picked holds a greatest of the three; among equals the parent stays and the left child goes before the right one |
| `HeapSpec.RootGreatest` | src/cc_pqueue.c:257-264 | the root of a heap is a greatest element |
| `PQueues.PQueue.Create` | src/cc_pqueue.c:101-140 | an empty queue exactly if the capacity is not zero and leaves room to grow by the factor, otherwise a refusal |
| `PQueues.PQueue.ExpandCapacity` | src/cc_pqueue.c:182-206 | the same heap in a buffer grown by the factor, or of the largest capacity if that does not grow; maximal capacity is reported |
| `Words.RefusesExact` | src/cc_pqueue.c:112-115 | a capacity is accepted exactly if some number of such buffers greater than the factor fits |
| `Words.AcceptedCapacity` | src/cc_pqueue.c:112-115 | an accepted capacity can double without passing the largest one |
| `PQueues.PQueue.Raise` | src/cc_pqueue.c:218-246 | the loop that moves the new element up does what the specification does |
| `PQueues.PQueue.Push` | src/cc_pqueue.c:218-246 | heap order, and the elements with the new one; only a full queue grows |
| `PQueues.PQueue.Pop` | src/cc_pqueue.c:274-294 | the root, a greatest element, leaves, all others stay, heap order holds |
| `PQueues.PQueue.Top` | src/cc_pqueue.c:257-264 | the root, which is a greatest element |
| `PQueues.PQueue.Heapify` | src/cc_pqueue.c:300-330 | the recursive method sinks the element exactly as the specification does |
| `PQueues.Drain` | src/cc_pqueue.c:274-294 | popping until empty yields exactly the elements in non-increasing order |
| `Runs.RunTree` | src/cc_treetable.c:171-697 | in any run of add, get, remove and remove_all every lookup and every removal returns the latest write of its key, and so would any further lookup; the table stays valid |
| `Runs.RunHash` | src/cc_hashtable.c:166-498 | the same for the hash table, NULL keys and growing included, until it cannot grow |
| `Runs.RunTst` | src/cc_tsttable.c:125-404 | the same for the ternary search tree with non-empty keys, and the size is the number of words |
| `Runs.RunDeque` | src/cc_deque.c:160-473 | in any run at both ends the removals return what a plain sequence would, and the deque holds the same, until it cannot grow |
| `Runs.RunQueue` | src/cc_queue.c:145-163 | first in, first out: what was polled followed by what is left is what was enqueued |

## Left out

- Node structures are entries of a map from addresses, one map to a container: the byte layout of nodes, pointers into a node other than the child slots of the ternary tree, and two containers sharing a node are not modelled.
- CLists.CList.SpliceAt: asks that the two lists are different and own different nodes; spliced into itself a list would lose its nodes.
- Allocation failure, custom allocators, callbacks, struct sizes and destroy functions: allocation succeeds.
- Load and expansion factors are floating point in the source; here `limit` and `grown` are arbitrary functions of a capacity (and the factor), `grown` never above the largest element count; the factor itself is a real number.
- 32-bit builds: words have 64 bits and the largest power of two is 2^63. Sizes and counters are not bounded by the word otherwise; where a subtraction wraps on purpose the wrap is modelled.
- Hash functions and `qsort`: the hash is an arbitrary function that agrees on equal keys.
- The two mirrored halves of the tree's rebalancing loops are separate methods for the left and the right side; the source writes them as two branches of one loop body.
- `cc_treetable_remove_last` on an empty table, and greater_than and lesser_than beyond the extreme keys, which answer with the sentinel; the predecessor search and last-key operations mirror the ones modelled.
- TreeIter.TreeTableIter.Remove: asks for at least one call of `Next` before, as the comment at `src/cc_treetable.c:915` does; the source would unlink the sentinel.
- HashIter.HashTableIter.Remove: asks that the entry returned last has not been removed yet, because the source reads its key after it was freed.
- Runs.RunTst: non-empty keys only; for the empty key see `EmptyKeyExact`.
- Iteration over the ternary search tree, which returns an inner word again on the way up.
- `cc_deque_add_at`, iteration over a full deque, trimming and copying at full size, whose code does not do what its comments say.
- SizedArrays.ArraySized.Create: asks for records of at least one byte.
- PQueues.PQueue.Heapify: reads the children only where they exist; the source reads both before it checks the bounds and then ignores them.
- Static and dynamic pools, ring buffer, array, stack, sets and singly linked list: easier relatives, or code whose comments do not match it.
