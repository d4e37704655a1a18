# Verified model of the IndexedDB bridge and of amounts

`packages/idb-bridge` implements IndexedDB in memory. This project models its layers, from the B+ tree up to cursors and
transactions, and proves what they promise; each layer is proved on top of the one below. `Amounts`, `AmountProducts` and
`AmountText` model the arithmetic of `packages/taler-util/src/amounts.ts` on their own.

| layer | files |
|---|---|
| B+ tree, as a value: insertion, deletion and what they mean | `SortedPairs`, `TreeSpec`, `TreeDelete`, `TreeOutlines`, `TreeStranded` |
| B+ tree, as nodes on the heap that trees share copy-on-write | `TreeNodes`, `TreeIteration`, `NodeDeletion`, `NodeHistories` |
| deletion as the code has it, in one history | `NodeStores`, `DescendingTree`, `DeletionHistory` |
| keys, key ranges, and the trees of the store as sorted maps | `Keys`, `KeyRanges`, `SortedMap`, `Filtering` |
| reads and cursors | `IndexQueries`, `Cursors`, `KeyQueries`, `KeyCursors` |
| stores, indexes, deletion of ranges | `IndexUpkeep`, `RangeDeletes`, `ObjectStores` |
| transactions | `TransactionProtocol`, `TransactionAtomicity`, `TransactionRequests`, `TransactionRecords` |
| keys of new records | `KeyGeneration`, `KeyInjection`, `KeyPaths` |
| structured clone | `StructuredClone`, `StructuredRevival`, `StructuredCopies` |
| amounts | `Amounts`, `AmountProducts`, `Decimals`, `AmountText` |

`dafny verify dfyconfig.toml` checks everything.

Where the source updates objects in place, the model has classes and methods; each method is proved against a specification on
values, and what the source promises is proved about that specification. Ghost parameters such as `all` and `trees` name the
nodes and the trees that exist. The store layers take the trees of the source for sorted maps that `with` and `without` never
change in place. Of `with` that is proved as the code has it (`TreeNodes.BTree.With`). Of `without` it is proved as the code
has it for trees of height one at most, which is two levels of nodes; for higher trees it is proved of a version with two
marks that the code lacks (`NodeDeletion.WithoutRange`), and it is not so of the code as it is (see below). What the store
layers say of deletion assumes, for higher trees, the version with the marks. `ObjectStores`, `TransactionAtomicity` and
`KeyGeneration` each have a class for the object store, with the fields that their part of the source works on.

## Where the code does not do what it is for

Each of these is modelled as the code has it; the lemma that is named states exactly when the code falls short, or shows a case.

- Deleting can leave an empty node at the right edge of the tree, since the merge loop tries a child only when that child is at
  most half full. Which deletions do so is computed from the old tree (`TreeStranded.DeleteKeepsShapeExactlyWhen`);
  `TreeStranded.DeletionStrandsLastLeaf` is an example, and in a tree whose nodes are half full each no deletion of one key does
  (`TreeStranded.HalfFullStrandsNothing`).
- Deleting takes the children of a shared right sibling into another node without marking them as shared, and the collapse of the
  root skips a shared root without marking its child. `NodeDeletion.AbsorbAsWritten` and `NodeDeletion.SkipRootAsWritten` have the
  code as it is, and state exactly when unshared nodes then still have one owner. When they do not, a later merge writes in place
  what another tree refers to: `DeletionHistory.WithoutChangesOriginal` is a history in which deleting one key from a clone makes
  the tree that was cloned list two keys twice. The other methods of `NodeDeletion` make the two missing marks only when asked to.
  With them every deletion is proved to change no other tree; without them that is proved of trees of height one at most, where
  only leaves are merged.
- `with` returns the tree itself when the key was there and overwrite is not given, though its comment promises a copy with the
  pair (`TreeNodes.BTree.With`).
- A read whose lower bound is open and is itself a key returns nothing, over an index, over a store and without repetition
  (`Cursors.OpenBoundLosesRecordsExactlyWhen`, `KeyCursors.OpenBoundLosesRecordsExactlyWhen`,
  `KeyCursors.OpenBoundLosesKeysExactlyWhen`).
- Deleting a range whose upper bound is open goes on to the end of the store unless the bound is itself a key
  (`RangeDeletes.DeletesExactlyWhen`, `RangeDeletes.OpenUpperExample`).
- A first read of an empty index without a lower bound fails with "invariant violated" instead of returning nothing, and so does
  deleting without a lower bound in an empty store, or above an open lower bound that no key is above
  (`IndexQueries.GetByIndex`, `KeyQueries.GetUnique`, `ObjectStores.ObjectStore.DeleteRecord`).
- Overwriting a record leaves the index entry of the old one behind (`IndexUpkeep.StoreKeepsExactExactlyWhen`,
  `IndexUpkeep.OverwriteThenDeleteDangles`).
- Deleting a range stops, with a DataError, at the first record that has no key in some index; the records are all still there,
  but the indexes have by then lost those before it (`ObjectStores.FailedDeleteStrays`).
- Storing under a number that is given explicitly sets the key generator to that number, so that the next generated key is in
  use. A zero counts as no generator, so that for it this shows only once the transaction has committed
  (`KeyGeneration.StoreKeepsFreshExactlyWhen`, `KeyGeneration.ExplicitCollides`).
- Injecting a key asks the value itself, and not the object on the way, whether a name is there. With three names or more this
  can lose a field or refuse a key (`KeyInjection.KeepsAllExactlyWhen`, `KeyInjection.ThreeNamesLose`,
  `KeyInjection.ThreeNamesFail`).
- Subtracting takes an amount to be too large by the order in which amounts are written, and not by their totals; the two differ
  when a fraction is one whole unit or more (`Amounts.Sub`, `Amounts.SubOfUnusual`).

## Model

| member | source | states |
|---|---|---|
| TreeSpec.SetKeepsInvariant | packages/idb-bridge/src/tree/b+tree.ts:1142-1177 | set on any tree whose leaves are at one depth keeps them so, with no node over full, and keeps every node but the root half full; the root grows by one level exactly when it splits |
| TreeSpec.SetUpdatesMap | packages/idb-bridge/src/tree/b+tree.ts:265-272 | set means map update: keys stay sorted, only the key that is set changes, an existing key only when overwrite is asked for, true exactly when the key was new, and the number of pairs follows |
| TreeSpec.SetNodeContents | packages/idb-bridge/src/tree/b+tree.ts:1410-1469 | the parts that set leaves, one node or two, hold the old pairs in order, updated at the key |
| TreeSpec.SetNodeShape | packages/idb-bridge/src/tree/b+tree.ts:1410-1469 | a node that does not split keeps its height, and both parts of one that does have it; no part is over full |
| TreeSpec.SetNodeHalfFull | packages/idb-bridge/src/tree/b+tree.ts:1227-1234 | splitting and shifting to the left never leave a node less than half full |
| TreeSpec.SetNodeMaxKey | packages/idb-bridge/src/tree/b+tree.ts:1450-1451 | the greatest key below a child changes only as the separator above it is updated |
| TreeSpec.SeparatorsAscend | packages/idb-bridge/src/tree/b+tree.ts:1361-1389 | the greatest keys of the children of one node ascend |
| TreeSpec.GoesToChild | packages/idb-bridge/src/tree/b+tree.ts:1334-1340 | a key of the tree is in the first child whose separator is not below it, and in no other |
| TreeSpec.HalfFullHolds | packages/idb-bridge/src/tree/b+tree.ts:1390-1404 | a half full tree of height h under the root holds at least (max / 2) ^ (h + 1) pairs |
| TreeSpec.HeightIsLogarithmic | packages/idb-bridge/src/tree/b+tree.ts:928-932 | a tree of height h >= 1 holds at least 2 * (max / 2) ^ h pairs |
| TreeNodes.Node.IndexOf | packages/idb-bridge/src/tree/b+tree.ts:1027-1097 | the binary search finds the key, or where it belongs, complemented when asked |
| TreeNodes.Node.Clone | packages/idb-bridge/src/tree/b+tree.ts:1313-1317 | a copied node has the same keys, values and children, and its children have become shared |
| TreeNodes.Node.Own | packages/idb-bridge/src/tree/b+tree.ts:1422-1422 | a shared child is replaced by a copy before it is written; no other node is changed but for becoming shared |
| TreeNodes.Node.InsertInLeaf | packages/idb-bridge/src/tree/b+tree.ts:1185-1197 | the pair goes in at its place and the others keep their order |
| TreeNodes.Node.SplitAndInsert | packages/idb-bridge/src/tree/b+tree.ts:1156-1166 | a full leaf and its new right sibling hold, between them, the old pairs with the new one in its place |
| TreeNodes.Node.SetInLeaf | packages/idb-bridge/src/tree/b+tree.ts:1142-1177 | a leaf becomes what the specification of set says, and the size of the tree is counted |
| TreeNodes.Node.TakeFromRight | packages/idb-bridge/src/tree/b+tree.ts:1484-1490 | the first item of the right sibling becomes the last of this node |
| TreeNodes.Node.Lend | packages/idb-bridge/src/tree/b+tree.ts:1429-1436 | a full child lends its first item to its left neighbour, which is copied first when it is shared, and the separator follows |
| TreeNodes.Node.SplitInner | packages/idb-bridge/src/tree/b+tree.ts:1476-1482 | an internal node is cut in two, and what it means with it |
| TreeNodes.Node.AddChild | packages/idb-bridge/src/tree/b+tree.ts:1453-1468 | the right part of a split child goes in after it, splitting this node when it is full, on the side where its greatest key belongs |
| TreeNodes.Node.Set | packages/idb-bridge/src/tree/b+tree.ts:1410-1469 | set on heap nodes gives what the specification gives, writes only nodes below that are not shared, and leaves every node in agreement with its children |
| TreeNodes.Node.Get | packages/idb-bridge/src/tree/b+tree.ts:1334-1340 | the walk down finds the value of the key |
| TreeNodes.BTree.Get | packages/idb-bridge/src/tree/b+tree.ts:247-249 | get is lookup in the map that the tree holds |
| TreeNodes.BTree.Clone | packages/idb-bridge/src/tree/b+tree.ts:643-649 | a clone holds the same pairs, and no tree has changed |
| TreeNodes.BTree.Set | packages/idb-bridge/src/tree/b+tree.ts:265-272 | set updates this tree, keeps it sound, and half full if it was, which is the whole invariant that checkValid checks, and changes no other tree, whatever nodes they share; nodes that were shared are not written |
| TreeNodes.BTree.With | packages/idb-bridge/src/tree/b+tree.ts:301-308 | a new tree with the pair, or this tree when the key was there and overwrite is not true; no tree that was there has changed |
| TreeNodes.BTree.Clear | packages/idb-bridge/src/tree/b+tree.ts:192-195 | the tree is empty and no other tree has changed |
| TreeNodes.NodeSize | packages/idb-bridge/src/tree/b+tree.ts:171-171 | the node size is what is asked for, between 4 and 256 |
| TreeNodes.Run | packages/idb-bridge/src/tree/b+tree.ts:265-308 | copy-on-write isolation: after any history of new, clone, set, with and clear on any number of trees, each tree holds what it would hold if it shared nothing, and satisfies the whole invariant |
| TreeNodes.AfterLeaves | packages/idb-bridge/src/tree/b+tree.ts:192-308 | what new, clone, set, with and clear leave under each key of each tree |
| TreeNodes.OneMoreOperation | packages/idb-bridge/src/tree/b+tree.ts:192-308 | operations take effect one after the other |
| TreeNodes.Node.ShiftDecision | packages/idb-bridge/src/tree/b+tree.ts:1423-1446 | the lengths and keys that the code looks at decide the shift that is specified, and the shift to the right sibling is never made, for its guard contradicts the search |
| NodeDeletion.EditLeafNode | packages/idb-bridge/src/tree/b+tree.ts:1238-1283 | deletion in a leaf takes out the pairs in the range, one by one, and counts them |
| NodeDeletion.OwnLoose | packages/idb-bridge/src/tree/b+tree.ts:1535-1535 | a shared child is replaced by a copy before it is edited |
| NodeDeletion.MergeSibling | packages/idb-bridge/src/tree/b+tree.ts:1589-1601 | merging two siblings on the heap, and then the two children that met, gives what is specified; nodes that are shared are not written: with the mark on the children of a shared sibling, or without it for leaves |
| NodeDeletion.AbsorbAsWritten | packages/idb-bridge/src/tree/b+tree.ts:1589-1601 | taking the children of the right sibling without marking them, as the source does, leaves the nodes such that, whatever they are taken to belong to, each that is not shared belongs to one node at most, if and only if the sibling is not shared or all its children are |
| NodeDeletion.TryMergeAt | packages/idb-bridge/src/tree/b+tree.ts:1573-1587 | child i and the next one are merged exactly when they fit in one node; with the mark, or without it where the children are leaves |
| NodeDeletion.MergeRange | packages/idb-bridge/src/tree/b+tree.ts:1554-1560 | the loop that merges, from the last edited child down, gives what is specified; with the mark, or without it where the children are leaves |
| NodeDeletion.DropFirst | packages/idb-bridge/src/tree/b+tree.ts:1561-1566 | a first child that is empty is the only one, and goes |
| NodeDeletion.Edit | packages/idb-bridge/src/tree/b+tree.ts:1502-1570 | forRange in edit mode gives what the specification gives, writes only nodes below that are not shared, and leaves every node in agreement with its children; with the mark, or without it in a tree of height one at most |
| NodeDeletion.CollapseRoot | packages/idb-bridge/src/tree/b+tree.ts:885-891 | a root with a single child gives way to it, and one with none to the empty leaf; no other tree loses its root; with the mark on the child of a shared root, or without it in a tree of height one at most |
| NodeDeletion.SkipRootAsWritten | packages/idb-bridge/src/tree/b+tree.ts:885-891 | the step of that loop as the source has it leaves each node that is not shared to one node or one tree at most if and only if the root that is skipped is not shared, or its child is |
| NodeDeletion.DeleteRangeIn | packages/idb-bridge/src/tree/b+tree.ts:866-918 | deleteRange takes the range out of this tree and changes no other, whatever nodes they share; all other trees stay sound, and so does this one unless a node has been stranded: the code as it is for trees of height one at most, and with the two marks for all |
| NodeDeletion.WithoutRange | packages/idb-bridge/src/tree/b+tree.ts:341-365 | without gives a new tree that has lost the range, or this tree when nothing is lost and that is asked for; no tree that was there has changed, and nodes that were shared are not written: the code as it is for trees of height one at most, and with the two marks for all |
| DeletionHistory.WithoutChangesOriginal | packages/idb-bridge/src/tree/b+tree.ts:341-365 | the code as it is: 23 keys are set, a range is deleted, the tree is cloned, and one key is deleted from the clone, which is what without does; then the tree that was cloned lists two keys twice |
| NodeHistories.RunSteps | packages/idb-bridge/src/tree/b+tree.ts:265-365 | copy-on-write isolation with deletions: after any history of new, clone, set, with, clear, deleteRange and without, up to a deletion that strands a node and including it, each tree holds what it would hold if it shared nothing; for the code as it is up to a deletion in a tree whose root has children that are not leaves, and with the two marks for all |
| NodeHistories.AfterStepLeaves | packages/idb-bridge/src/tree/b+tree.ts:341-918 | what deleteRange and without leave of the pairs of each tree |
| NodeHistories.OneMoreStep | packages/idb-bridge/src/tree/b+tree.ts:341-918 | steps take effect one after the other |
| NodeHistories.NoEmptyNode | packages/idb-bridge/src/tree/b+tree.ts:1136-1136 | the check for empty nodes succeeds exactly for a tree of the right shape |
| TreeDelete.DeleteRangeRemovesRange | packages/idb-bridge/src/tree/b+tree.ts:865-918 | deleteRange leaves exactly the pairs outside the range, in order, returns how many it took, and leaves all leaves at one depth with no node over full and no root with a single child |
| TreeDelete.OutsideMembers | packages/idb-bridge/src/tree/b+tree.ts:866-884 | outside a range are exactly the pairs with a key below it or above it; the upper end is in it only if that is asked for |
| TreeDelete.EditNodeContents | packages/idb-bridge/src/tree/b+tree.ts:1502-1570 | editing a node removes the range from what it holds, through recursive edits and nested merges |
| TreeDelete.EditCountRight | packages/idb-bridge/src/tree/b+tree.ts:1238-1283 | the count that forRange returns is the number of pairs removed |
| TreeDelete.NoEmptinessBug | packages/idb-bridge/src/tree/b+tree.ts:1563-1567 | when the first child is empty after merging it is the only one, so that the check named emptiness bug never fails |
| TreeDelete.JoinContents | packages/idb-bridge/src/tree/b+tree.ts:1589-1601 | merging two siblings, and then the two children that met, keeps all pairs in order |
| TreeDelete.CollapseIsLoose | packages/idb-bridge/src/tree/b+tree.ts:885-891 | root collapse ends at a leaf or at a root with two children or more |
| TreeStranded.DeleteKeepsShapeExactlyWhen | packages/idb-bridge/src/tree/b+tree.ts:1554-1560 | deleting a range leaves no empty node below the root if and only if the fate of the tree, computed before the deletion from what becomes of its children and from the sizes of the nodes along their sides, is to stay or to disappear |
| TreeStranded.EditHasFate | packages/idb-bridge/src/tree/b+tree.ts:1502-1570 | the fate that is computed from the old tree tells what the deletion of a range leaves: a whole tree, none, one with an empty node at its right edge, or one with an empty node that can no longer be merged; and it tells the sizes of the nodes along both sides of what is left |
| TreeStranded.JoinTells | packages/idb-bridge/src/tree/b+tree.ts:1573-1601 | what two siblings are and how they look from their sides tells what they are when they are merged |
| TreeStranded.MergeTells | packages/idb-bridge/src/tree/b+tree.ts:1554-1560 | the loop that merges can be followed on that |
| TreeOutlines.JoinFirst | packages/idb-bridge/src/tree/b+tree.ts:1589-1601 | the sizes at the left edge of two merged siblings follow from those at their edges |
| TreeOutlines.JoinLast | packages/idb-bridge/src/tree/b+tree.ts:1589-1601 | and so do those at the right edge |
| TreeStranded.HalfFullStrandsNothing | packages/idb-bridge/src/tree/b+tree.ts:1556-1559 | in a tree whose nodes are each half full no deletion of one key strands a node |
| TreeStranded.DeletionStrandsLastLeaf | packages/idb-bridge/src/tree/b+tree.ts:1556-1559 | two leaves of three pairs and one, which are half full on average as checkValid asks: deleting the one leaves an empty last leaf |
| TreeStranded.HistoryMeansMap | packages/idb-bridge/src/tree/b+tree.ts:265-295 | any history of set and deleteRange in which no deletion strands a node means the history of the map |
| TreeStranded.OneMoreEdit | packages/idb-bridge/src/tree/b+tree.ts:265-295 | one more edit of the map changes one pair, or takes out those in a range |
| TreeIteration.FindPath | packages/idb-bridge/src/tree/b+tree.ts:574-597 | the path leads to the leaf where the pairs from the key on begin; there is none exactly when there are no such pairs |
| TreeIteration.EntriesFrom | packages/idb-bridge/src/tree/b+tree.ts:450-458 | an iteration has before it the pairs with a key not below the given one |
| TreeIteration.FromExactly | packages/idb-bridge/src/tree/b+tree.ts:450-458 | those are the pairs with a key that is not below the given one, in order; all pairs when none is given |
| TreeIteration.Entries.Next | packages/idb-bridge/src/tree/b+tree.ts:460-498 | each call gives the first of the remaining pairs and leaves the others; at the end it stays at the end |
| TreeIteration.NextHigherPair | packages/idb-bridge/src/tree/b+tree.ts:718-723 | the pair with the least key above the given one, if there is one |
| Keys.CompareKeys | packages/idb-bridge/src/util/cmp.ts:41-106 | compareKeys, with its loop and its recursion, is the order that is specified |
| Keys.CompareIsTotalOrder | packages/idb-bridge/src/util/cmp.ts:41-106 | the order is total: opposite for opposite arguments, zero exactly for equal keys, and transitive, which is what the tree asks of its comparator |
| Keys.CompareOpposite | packages/idb-bridge/src/util/cmp.ts:52-69 | comparing the other way round gives the opposite, and zero means equal |
| Keys.CompareTransitive | packages/idb-bridge/src/util/cmp.ts:76-93 | transitive across key types and through nested arrays |
| Keys.TypesInOrder | packages/idb-bridge/src/util/cmp.ts:52-69 | numbers come before dates, dates before texts, texts before byte strings and those before arrays; numbers and dates go by value |
| Keys.TextsGoByFirstDifference | packages/idb-bridge/src/util/cmp.ts:95-105 | texts go by the first code unit that differs, and what ends first comes first |
| Keys.BytesGoByFirstDifference | packages/idb-bridge/src/util/cmp.ts:71-92 | and so do byte strings |
| Keys.ArraysGoByFirstDifference | packages/idb-bridge/src/util/cmp.ts:76-92 | arrays go by the first items that differ, and an array that ends first comes first |
| KeyRanges.RangeIsInterval | packages/idb-bridge/src/bridge-idb.ts:1475-1496 | what a range includes is an interval of the key order |
| KeyRanges.BoundFailsExactlyWhenEmpty | packages/idb-bridge/src/bridge-idb.ts:1437-1455 | bound refuses only ranges that include no key, and all of them unless both ends are open |
| KeyRanges.OpenEndsMayLeaveNothing | packages/idb-bridge/src/bridge-idb.ts:1437-1455 | between a text and the same with the least character added there is no key, and bound accepts them as open ends |
| SortedMap.GetWith | packages/idb-bridge/src/MemoryBackend.ts:1518-1522 | a tree with a pair holds it, and otherwise what it held |
| SortedMap.GetWithout | packages/idb-bridge/src/MemoryBackend.ts:1020-1022 | a tree without a key holds all the others |
| SortedMap.WithoutIsDelete | packages/idb-bridge/src/tree/b+tree.ts:341-346 | without is deletion of the range that is the one key |
| SortedMap.NextHigherIsLeastAbove | packages/idb-bridge/src/tree/b+tree.ts:718-728 | what nextHigherPair is proved to find in the tree is what the store layer takes it to be |
| IndexQueries.GetByIndex | packages/idb-bridge/src/MemoryBackend.ts:1135-1331 | a forward index read returns, up to the limit, all positions in the range that come after the last one and not before the key to advance to, in order; it fails exactly if there is neither a last position nor a lower bound, and either a key to advance to is given or the index is empty |
| IndexQueries.MatchesAhead | packages/idb-bridge/src/MemoryBackend.ts:1284-1317 | what is wanted is what lies ahead of the position where the walk begins |
| Cursors.EntriesOrdered | packages/idb-bridge/src/MemoryBackend.ts:1181-1191 | positions are listed by index key and then by primary key, each once |
| Cursors.ResumeLeavesRest | packages/idb-bridge/src/MemoryBackend.ts:1229-1277 | a read that resumes after the i-th position wants exactly the positions after it |
| Cursors.FirstIsLeast | packages/idb-bridge/src/MemoryBackend.ts:1284-1317 | what a read returns first is the least position that it may return, whatever has been deleted in between |
| Cursors.AnsweredExactly | packages/idb-bridge/src/MemoryBackend.ts:1135-1331 | what an index read answers, position by position: positions of the index between the bounds, after the last one and at or past the key to advance to, in order; all of them or the first that the limit allows, but none in a first read whose open lower bound is itself a key and is not passed |
| Cursors.IndexCursor.Iterate | packages/idb-bridge/src/bridge-idb.ts:197-261 | one step of a cursor moves it to the first position after the last one and at or past the key asked for, with its record unless it is a key cursor, or ends it; it fails exactly if the read does, or if there is no record at that position |
| Cursors.IterateAll | packages/idb-bridge/src/bridge-idb.ts:389-435 | stepping a cursor to the end gives the positions and the records that one unlimited read returns, and fails exactly where that read fails |
| Cursors.OpenBoundLosesRecordsExactlyWhen | packages/idb-bridge/src/MemoryBackend.ts:1181-1191 | a read loses records if and only if its lower bound is open, is itself a key of the index, and the next key is in the range |
| Cursors.OpenBoundExample | packages/idb-bridge/src/MemoryBackend.ts:1288-1293 | an index with keys 1 and 2, read above 1: nothing is returned |
| KeyQueries.GetFromStore | packages/idb-bridge/src/MemoryBackend.ts:1333-1395 | a forward store read returns, up to the limit, the records in the range after the last key and not before the key to advance to |
| KeyQueries.GetUnique | packages/idb-bridge/src/MemoryBackend.ts:1193-1227 | a read of unique index keys returns each index key in the range once, with its least primary key; it fails exactly where a read with repetition does |
| KeyQueries.ResumeLeavesRest | packages/idb-bridge/src/MemoryBackend.ts:1346-1359 | a store read that resumes after the i-th record wants exactly the records after it |
| KeyQueries.FirstIsLeast | packages/idb-bridge/src/MemoryBackend.ts:1367-1395 | what a store read returns first is the least record that it may return |
| KeyCursors.AnsweredExactly | packages/idb-bridge/src/MemoryBackend.ts:1333-1395 | and what a store read answers, record by record |
| KeyCursors.AnsweredFirstsExactly | packages/idb-bridge/src/MemoryBackend.ts:1193-1227 | without repetition each index key that is answered with comes with the least of its primary keys |
| KeyCursors.StoreCursor.Iterate | packages/idb-bridge/src/bridge-idb.ts:197-261 | one step of a cursor over a store moves it to the first record after the last one and at or past the key asked for, or ends it |
| KeyCursors.IterateStore | packages/idb-bridge/src/bridge-idb.ts:389-435 | stepping a cursor over a store to the end gives the records that one unlimited read returns |
| KeyCursors.UniqueCursor.Iterate | packages/idb-bridge/src/bridge-idb.ts:197-261 | one step of a cursor without repetition moves it to the next index key, with its least primary key, or ends it; it fails exactly if the read does, or if there is no record |
| KeyCursors.IterateUnique | packages/idb-bridge/src/bridge-idb.ts:389-435 | stepping a cursor without repetition to the end gives what one unlimited read without repetition returns |
| KeyCursors.ExactMeansFetched | packages/idb-bridge/src/MemoryBackend.ts:1320-1331 | while the index is the inverse image of the store no step of a cursor over it fails for want of a record |
| KeyCursors.OpenBoundLosesRecordsExactlyWhen | packages/idb-bridge/src/MemoryBackend.ts:1346-1374 | a store read loses records if and only if its lower bound is open, is itself a key, and the next key is in the range |
| KeyCursors.OpenBoundLosesKeysExactlyWhen | packages/idb-bridge/src/MemoryBackend.ts:1181-1227 | and so does a read without repetition |
| IndexUpkeep.InsertedLists | packages/idb-bridge/src/MemoryBackend.ts:1582-1606 | inserting lists the primary key under its index key, once and in order, and changes no other entry |
| IndexUpkeep.RemovedLists | packages/idb-bridge/src/MemoryBackend.ts:1043-1066 | removing takes the primary key out of its entry, and the entry away with the last one |
| IndexUpkeep.StoreKeepsComplete | packages/idb-bridge/src/MemoryBackend.ts:1518-1545 | after storing a record every stored record is listed under its index key |
| IndexUpkeep.StoreKeepsExactExactlyWhen | packages/idb-bridge/src/MemoryBackend.ts:1505-1545 | the index stays the inverse image of the store if and only if the record that is overwritten, if there is one, had no index key or the same |
| IndexUpkeep.DeleteKeepsAgreement | packages/idb-bridge/src/MemoryBackend.ts:999-1019 | a stored record is always found in the index, so deletion never reports an inconsistency, and both kinds of agreement are kept |
| IndexUpkeep.ExactMeansReadable | packages/idb-bridge/src/MemoryBackend.ts:1322-1331 | when the index is the inverse image of the store, every position it lists leads to a record |
| IndexUpkeep.OverwriteThenDeleteDangles | packages/idb-bridge/src/MemoryBackend.ts:1322-1331 | a record that is overwritten with another index key and then deleted leaves a position in the index that leads to no record |
| RangeDeletes.OpenUpperExample | packages/idb-bridge/src/MemoryBackend.ts:984-990 | a store with the keys 1 and 3: deleting what is below 2 deletes both |
| RangeDeletes.DeletesExactlyWhen | packages/idb-bridge/src/MemoryBackend.ts:945-1026 | deleteRecord deletes exactly the records in the range if and only if the upper bound is closed or absent, or is a key of the store, or has no key above it |
| RangeDeletes.DeletedIsIncluded | packages/idb-bridge/src/MemoryBackend.ts:966-1000 | a record is deleted exactly when the range includes its key, when the bound is met |
| RangeDeletes.StartFailsExactlyWhen | packages/idb-bridge/src/MemoryBackend.ts:945-960 | there is no key to start a deletion from exactly if there is no lower bound and the store is empty, or no key is above an open one |
| RangeDeletes.LeftExactly | packages/idb-bridge/src/MemoryBackend.ts:945-1026 | what a deletion leaves, key by key: those at or above the lower bound, or above an open one, up to the upper one are gone, and all others are as they were; an open upper bound ends the walk only if it is itself a key that the walk comes to |
| ObjectStores.Index.Insert | packages/idb-bridge/src/MemoryBackend.ts:1551-1607 | insertIntoIndex does to the index what is specified, or fails without changing it when the record has no index key |
| ObjectStores.Index.Delete | packages/idb-bridge/src/MemoryBackend.ts:1028-1066 | deleteFromIndex does what is specified; it fails exactly if the record has no index key, or if that has no entry |
| ObjectStores.ObjectStore.StoreRecord | packages/idb-bridge/src/MemoryBackend.ts:1518-1545 | the store has the record, every index has it inserted, every stored record is still listed, and the indexes stay the inverse image of the store if and only if the record that is overwritten, if there is one, has no other key in any of them |
| ObjectStores.ObjectStore.Clear | packages/idb-bridge/src/MemoryBackend.ts:868-904 | the store is empty and so is every index |
| ObjectStores.ObjectStore.CreateIndex | packages/idb-bridge/src/MemoryBackend.ts:804-865 | the new index is the inverse image of the store as it is |
| ObjectStores.ObjectStore.DeleteRecord | packages/idb-bridge/src/MemoryBackend.ts:907-1030 | deleting a range, key by key: it throws exactly if there is no lower bound in an empty store or no key above an open one, or if a record that it walks over lacks a key in an index, and then all records stay; otherwise the keys that it walks over are gone and all others are as they were, and every index follows the store; a single key is deleted if it is there, and all others stay |
| ObjectStores.DeleteAgrees | packages/idb-bridge/src/MemoryBackend.ts:1000-1026 | a deletion that comes to its end leaves the indexes in agreement with the store, and exact if they were |
| ObjectStores.FailedDeleteStrays | packages/idb-bridge/src/MemoryBackend.ts:1000-1026 | a deletion that fails leaves all records in the store, and each index without those up to the one that lacks a key; so an exact index stays complete if and only if nothing was taken out of it |
| ObjectStores.DeletesOneKey | packages/idb-bridge/src/MemoryBackend.ts:945-1026 | deleting a single key takes out that record and no other, unless it lacks a key in an index |
| ObjectStores.AfterLeaves | packages/idb-bridge/src/MemoryBackend.ts:868-1545 | what put, delete, clear and createIndex leave under a key |
| ObjectStores.OneMoreOperation | packages/idb-bridge/src/MemoryBackend.ts:868-1545 | operations take effect one after the other, up to the first that throws |
| ObjectStores.ObjectStore.Run | packages/idb-bridge/src/MemoryBackend.ts:868-1545 | any sequence of add or put, delete, clear and createIndex: unless one ends in a DataError every stored record is listed, and if no record is overwritten with another index key the indexes stay the inverse image of the store and every position leads to its record |
| TransactionProtocol.Backend.Connect | packages/idb-bridge/src/MemoryBackend.ts:435-466 | a database that is new is idle, one that is there stays as it is, and nothing else changes |
| TransactionProtocol.Backend.Begin | packages/idb-bridge/src/MemoryBackend.ts:477-515 | on an idle database readonly, readwrite and version change transactions begin at once, at their level and under the new cookie, and other modes are refused; on a busy one the call waits; an unknown one is refused |
| TransactionProtocol.Backend.Resume | packages/idb-bridge/src/MemoryBackend.ts:495-500 | a call that was woken looks again, and begins its transaction at its level if the database is idle, or waits for the next round |
| TransactionProtocol.Backend.Finish | packages/idb-bridge/src/MemoryBackend.ts:1609-1694 | the database is idle, the transaction runs no more, and every waiter has been woken; an unknown transaction changes nothing |
| TransactionProtocol.Perform | packages/idb-bridge/src/MemoryBackend.ts:477-548 | performing any interleaving of the steps leads to the state that the steps lead to |
| TransactionProtocol.AfterIsSound | packages/idb-bridge/src/MemoryBackend.ts:477-548 | whatever steps have been taken, a database is busy exactly when one transaction runs on it, and a call sleeps only on a busy database |
| TransactionProtocol.AtMostOneTransaction | packages/idb-bridge/src/MemoryBackend.ts:495-514 | whatever steps have been taken, no database has two transactions, and a database is marked busy exactly when one runs on it |
| TransactionProtocol.BeginsExactlyWhen | packages/idb-bridge/src/MemoryBackend.ts:477-548 | whatever steps have been taken, a call on an idle database leads to a transaction at its level that runs under a new cookie, one on a busy database to a call that waits, and one on an unknown database, or in an unknown mode on an idle one, to nothing |
| TransactionProtocol.EndsExactlyWhen | packages/idb-bridge/src/MemoryBackend.ts:1609-1694 | whatever steps have been taken, the end of a transaction leaves its database idle and wakes all who wait, and changes nothing else |
| TransactionProtocol.NoLostWakeUp | packages/idb-bridge/src/MemoryBackend.ts:152-171 | whatever steps have been taken, whoever sleeps waits for a transaction that is still running, whose end wakes it; and whoever waits for an idle database is awake and, when resumed, begins its transaction at its level, or is refused for its mode |
| TransactionAtomicity.Transaction.WriteData | packages/idb-bridge/src/MemoryBackend.ts:1518-1545 | the transaction sees the records, the generator and the index data that it writes and is otherwise unchanged in what it sees; the committed view stays |
| TransactionAtomicity.Transaction.SetVersion | packages/idb-bridge/src/MemoryBackend.ts:517-548 | the transaction sees the new version and the rest as before; the committed view stays |
| TransactionAtomicity.ApplyLeaves | packages/idb-bridge/src/MemoryBackend.ts:517-865 | what each operation leaves under each name: which stores there are, the version, and the records, generator, indexes and properties of each store |
| TransactionAtomicity.OneMoreOperation | packages/idb-bridge/src/MemoryBackend.ts:655-865 | operations take effect one after the other |
| TransactionAtomicity.Transaction.CreateObjectStore | packages/idb-bridge/src/MemoryBackend.ts:762-802 | the transaction sees an empty store under the name and the rest as before; the committed view stays |
| TransactionAtomicity.Transaction.DeleteObjectStore | packages/idb-bridge/src/MemoryBackend.ts:688-722 | the transaction no longer sees the store and sees the rest as before, or the call fails and it sees what it saw; the committed view stays |
| TransactionAtomicity.Transaction.RenameObjectStore | packages/idb-bridge/src/MemoryBackend.ts:724-760 | the transaction sees the store, with all its data and indexes, under the new name only, or the call fails and it sees what it saw; the committed view stays |
| TransactionAtomicity.Transaction.CreateIndex | packages/idb-bridge/src/MemoryBackend.ts:804-865 | the transaction sees the index with the data that it is filled with and the rest as before, or the call fails; the committed view stays |
| TransactionAtomicity.Transaction.DeleteIndex | packages/idb-bridge/src/MemoryBackend.ts:655-686 | the transaction no longer sees the index and sees the rest as before, or the call fails; the committed view stays |
| TransactionAtomicity.Transaction.DoAll | packages/idb-bridge/src/MemoryBackend.ts:655-865 | any sequence of operations shows the transaction what the operations make of what it saw, and the committed view stays |
| TransactionAtomicity.Transaction.Commit | packages/idb-bridge/src/MemoryBackend.ts:1649-1694 | what was the view of the transaction is the committed view |
| TransactionAtomicity.Transaction.Rollback | packages/idb-bridge/src/MemoryBackend.ts:1609-1647 | the committed view is what it was, and is the view of the connection again |
| TransactionAtomicity.Transaction.Run | packages/idb-bridge/src/MemoryBackend.ts:1609-1694 | atomicity: from what is committed, after any sequence of operations, a commit leaves the committed view that all of the operations make of it, and a rollback the one that was there; afterwards no store or index has data of its own |
| TransactionRecords.EffectAgrees | packages/idb-bridge/src/MemoryBackend.ts:804-1545 | every request on records, indexes and stores that does not throw, and every attempt to store that is refused, leaves a view in which every index is valid and lists every record that has a key |
| TransactionRequests.StoreRequestLeaves | packages/idb-bridge/src/MemoryBackend.ts:1448-1522 | what is found under each key after a store request: the value under the key that is given, read from it or generated, unless a record may not be overwritten, or there is none to update, or there is no such key; then all is as it was |
| TransactionRequests.StoreRequestMovesGenerator | packages/idb-bridge/src/util/makeStoreKeyValue.ts:96-175 | where the generator of a store stands after a store request, whether the record is then stored or not |
| TransactionRequests.DeleteRequestLeaves | packages/idb-bridge/src/MemoryBackend.ts:945-1026 | what is found under each key after a deletion: none under those between the bounds, and the others as they were |
| TransactionRequests.ClearRequestLeaves | packages/idb-bridge/src/MemoryBackend.ts:868-904 | after clearing no key is found |
| TransactionRequests.RecordRequestKeepsRest | packages/idb-bridge/src/MemoryBackend.ts:868-1545 | requests on records change neither the schema nor another store |
| TransactionRequests.SchemaRequestLeaves | packages/idb-bridge/src/MemoryBackend.ts:517-802 | what creating, deleting and renaming stores and a version change leave of the whole view |
| TransactionRequests.IndexRequestLeaves | packages/idb-bridge/src/MemoryBackend.ts:655-865 | creating and deleting an index changes the properties of its store and no record |
| TransactionRequests.ThrowsExactlyWhen | packages/idb-bridge/src/MemoryBackend.ts:945-1066 | a deletion throws exactly if there is no key to start from, or if a record that it would delete lacks a key in an index |
| TransactionRecords.NoneThrowsExactlyWhen | packages/idb-bridge/src/MemoryBackend.ts:868-1545 | no request of a run throws exactly if none does on what those before it have left |
| TransactionRecords.EffectKeepsNumbered | packages/idb-bridge/src/MemoryBackend.ts:1459-1522 | every request but one that gives a number explicitly leaves all numbers below the generators of the stores |
| TransactionRecords.RunRequests | packages/idb-bridge/src/MemoryBackend.ts:1411-1694 | before and after every transaction the committed indexes agree with the committed records, and, if no number is given explicitly, the committed generators are above the committed numbers: when it commits requests of which none throws, among them add, put, update and generated keys, and when it rolls back whatever it has done. What is committed is what the requests leave, each in turn: the records that are stored under their keys, none where it is deleted or cleared, and the rest as it was |
| KeyGeneration.TableKeepsFresh | packages/idb-bridge/src/util/makeStoreKeyValue.ts:96-175 | every row but one keeps all numeric keys below the generator, whether or not the record is then stored; a generated key is not in the store |
| KeyGeneration.StoreKeepsFreshExactlyWhen | packages/idb-bridge/src/MemoryBackend.ts:1459-1509 | storing keeps all numeric keys below the generator in effect if and only if no number is given explicitly, or it is zero, which counts as no generator, and the committed generator is above all keys |
| KeyGeneration.ExplicitCollides | packages/idb-bridge/src/util/makeStoreKeyValue.ts:106-115 | after a number is given explicitly the next generated key is that very number, and after a zero it is once the transaction has committed: adding fails, and putting replaces the record |
| KeyGeneration.OthersKeep | packages/idb-bridge/src/MemoryBackend.ts:1448-1522 | every other store operation keeps the keys below the generator, which never goes back |
| KeyGeneration.GeneratedIsNew | packages/idb-bridge/src/util/makeStoreKeyValue.ts:162-170 | a generated key is stored under, at whatever level, and was not in the store |
| KeyGeneration.InlineKeyIsKey | packages/idb-bridge/src/util/makeStoreKeyValue.ts:126-161 | with in-line keys, and a key path that reads what it writes, the value that is stored has the key that it is stored under |
| KeyGeneration.ObjectStore.StoreRecord | packages/idb-bridge/src/MemoryBackend.ts:1448-1522 | storing a record, key by key and row by row: under the key that is given without a key path, or that is read from the value, or generated, the value is found, unless a record has that key and may not be overwritten; an update succeeds exactly if the key is there; a key beside a key path, or no way to make one, is bad data; all other keys stay, and the generator is what the row says |
| KeyGeneration.ObjectStore.StoreChecked | packages/idb-bridge/src/MemoryBackend.ts:1459-1509 | the method keeps all numeric keys below its generator exactly under that condition, and never lowers the generator otherwise; a generated key is new |
| KeyGeneration.ObjectStore.Run | packages/idb-bridge/src/MemoryBackend.ts:1633-1679 | after any sequence of store, delete, clear, commit and rollback the store is what the operations make of it, and the keys given out are theirs |
| KeyGeneration.StepKeepsSound | packages/idb-bridge/src/MemoryBackend.ts:1459-1522 | every operation but one of the one row keeps the invariant; a key that is given out was not there, is there then, and is below the generator from then on |
| KeyGeneration.GivenOutOnce | packages/idb-bridge/src/MemoryBackend.ts:1633-1679 | no run without a rollback gives out a generated key twice, not even one whose record has been deleted |
| KeyGeneration.StepLeaves | packages/idb-bridge/src/MemoryBackend.ts:868-1694 | what deletion, clearing, commit and rollback leave of the records and the generator |
| KeyGeneration.GivenOutExactlyWhen | packages/idb-bridge/src/util/makeStoreKeyValue.ts:126-170 | a number is given out exactly when, without a key, a record is stored under it |
| KeyGeneration.OneMoreStep | packages/idb-bridge/src/MemoryBackend.ts:868-1694 | operations take effect, and numbers are given out, one after the other |
| KeyInjection.InjectKey | packages/idb-bridge/src/util/makeStoreKeyValue.ts:29-76 | what injectKey changes in the copy, object by object, and exactly when it fails |
| KeyInjection.InjectedKeyIsFound | packages/idb-bridge/src/util/makeStoreKeyValue.ts:129-135 | following the key path in the changed copy leads to the key |
| KeyInjection.KeepsAllExactlyWhen | packages/idb-bridge/src/util/makeStoreKeyValue.ts:61-64 | nothing of the value is lost if and only if the first name that the value itself lacks is also missing where the loop has come to |
| KeyInjection.TwoNamesKeepAll | packages/idb-bridge/src/util/makeStoreKeyValue.ts:56-67 | with a key path of one or two names nothing is lost |
| KeyInjection.TwoNamesRefuse | packages/idb-bridge/src/util/makeStoreKeyValue.ts:56-71 | with one or two names injection fails exactly when canInjectKey says so |
| KeyInjection.ThreeNamesLose | packages/idb-bridge/src/util/makeStoreKeyValue.ts:61-64 | a value and a key path of three names where a field is lost |
| KeyInjection.ThreeNamesFail | packages/idb-bridge/src/util/makeStoreKeyValue.ts:61-71 | a value and a key path of three names where a key that could be injected is refused |
| KeyPaths.InjectionIsFound | packages/idb-bridge/src/util/makeStoreKeyValue.ts:29-76 | what injectKey makes of a value has the key where the key path leads |
| KeyPaths.InjectedIsInjection | packages/idb-bridge/src/util/makeStoreKeyValue.ts:43-75 | what injectKey leaves on the heap is a copy of that |
| KeyPaths.AtPathReadsAndWrites | packages/idb-bridge/src/util/makeStoreKeyValue.ts:126-161 | a key path reads what its names lead to, and no key where they lead nowhere or to undefined; it writes exactly where injectKey does not fail, and then they lead to the number |
| KeyPaths.AtPathIsLawful | packages/idb-bridge/src/util/makeStoreKeyValue.ts:126-135 | a key path of one name or more reads the key that injectKey has written |
| KeyPaths.StoredUnderItsKey | packages/idb-bridge/src/util/makeStoreKeyValue.ts:126-161 | so the value that is stored has the key that it is stored under, whether the key was in it or has been generated |
| StructuredClone.Encapsulation.Encode | packages/idb-bridge/src/util/structuredClone.ts:78-144 | after encapsulating a value each object reached is written once, every reference to it refers there, and exactly the places that need a patch have one |
| StructuredClone.Compose | packages/idb-bridge/src/util/structuredClone.ts:97-129 | values at places apart may be encapsulated one after the other |
| StructuredClone.EncodedObject | packages/idb-bridge/src/util/structuredClone.ts:121-129 | an object is written when its properties have been, though they may refer to it |
| StructuredRevival.Revival.Walk | packages/idb-bridge/src/util/structuredClone.ts:199-216 | the walks of mutatePath and lookupPath find every step |
| StructuredRevival.Revival.MutatePath | packages/idb-bridge/src/util/structuredClone.ts:194-209 | a patch changes the place at its path and no other |
| StructuredRevival.Revive | packages/idb-bridge/src/util/structuredClone.ts:172-250 | after all patches every place holds what its text and its patch say |
| StructuredCopies.TextFits | packages/idb-bridge/src/util/structuredClone.ts:78-144 | what encapsulation leaves behind is a tree with patches that fit it |
| StructuredCopies.UnwrapWrap | packages/idb-bridge/src/util/structuredClone.ts:157-168 | the outer layer comes off again, whatever names the value uses |
| StructuredCopies.CopyIsRight | packages/idb-bridge/src/util/structuredClone.ts:217-248 | what is revived is isomorphic to the original |
| StructuredCopies.CopiedFieldByField | packages/idb-bridge/src/util/structuredClone.ts:217-248 | in the copy every field holds what the field of the original holds, or refers to the copy of what that refers to |
| StructuredCopies.CloneValue | packages/idb-bridge/src/util/structuredClone.ts:259-261 | structuredClone gives an isomorphic copy of fresh objects: sharing and cycles included |
| Amounts.Add | packages/taler-util/src/amounts.ts:139-175 | the exact sum of any list, saturated exactly when its whole part is over 2^52; a foreign currency is an error unless the sum before it is too large |
| Amounts.Sub | packages/taler-util/src/amounts.ts:184-212 | of normal amounts the exact difference, zero and saturated exactly when more is taken away than there is; of any amounts an answer that is not saturated has the exact total, and the answer is saturated exactly when at some place what is left comes before the next amount by whole units and then by fraction |
| Amounts.RunsOutExactlyWhen | packages/taler-util/src/amounts.ts:193-208 | the whole units run out exactly where what is left is written below the next amount |
| Amounts.RemainingTotal | packages/taler-util/src/amounts.ts:193-208 | what is left has the exact total, whatever it is written like |
| Amounts.TakenOfNormal | packages/taler-util/src/amounts.ts:184-212 | of normal amounts that is the exact difference, or zero and saturated |
| Amounts.SubOfUnusual | packages/taler-util/src/amounts.ts:193-206 | two units written as a fraction minus one unit is saturated, and one unit minus two written as a fraction goes below zero |
| Amounts.AddThenSubtract | packages/taler-util/src/amounts.ts:139-212 | taking away what was added gives the amount back |
| Amounts.SubtractThenAdd | packages/taler-util/src/amounts.ts:139-212 | and adding what was taken away |
| Amounts.CmpComparesTotals | packages/taler-util/src/amounts.ts:218-242 | the comparison is that of the totals, however the amounts are written |
| Amounts.MinAndMax | packages/taler-util/src/amounts.ts:334-350 | the smaller and the larger are, between them, the two amounts |
| AmountProducts.DivideIsFloor | packages/taler-util/src/amounts.ts:258-271 | division rounds the exact total down, and fails exactly for zero |
| AmountProducts.Mult | packages/taler-util/src/amounts.ts:352-382 | multiplication by doubling gives the amount and the saturation that adding as many copies gives |
| AmountProducts.SharesOfDivision | packages/taler-util/src/amounts.ts:258-271 | shares put together again are never more than the amount, and less by under one unit for each share |
| AmountText.ParseParts | packages/taler-util/src/amounts.ts:288-306 | a currency, a number of at most 2^52 and at most eight digits behind a point are read as the amount they denote |
| AmountText.ParseOnlyParts | packages/taler-util/src/amounts.ts:289-300 | nothing else is read |
| AmountText.ReadExamples | packages/taler-util/src/amounts.ts:288-306 | EUR:20.5, and a text with all kinds of characters in the currency, leading zeros and eight digits behind the point |
| AmountText.RefusedExamples | packages/taler-util/src/amounts.ts:289-292 | no currency, a blank in it, a point without digits and a sign are refused |
| AmountText.Stringify | packages/taler-util/src/amounts.ts:403-422 | the standard text: no leading zeros, exactly the digits of the fraction and no zero at the end |
| AmountText.ParseOfPrinted | packages/taler-util/src/amounts.ts:288-306 | the standard text of a valid amount is read as that amount |
| AmountText.PrintsUnique | packages/taler-util/src/amounts.ts:409-419 | there is one standard text |
| AmountText.StandardTextIsRead | packages/taler-util/src/amounts.ts:312-318 | however an amount was written, its standard text is read as the same amount |
| AmountText.StandardTextComesBack | packages/taler-util/src/amounts.ts:403-422 | a standard text that is read and printed comes back as it was |

## Left out

- The request and event front end of `bridge-idb.ts`, which depends on task queues and callbacks.
- `renameIndex`, `deleteDatabase`, closing a connection during a transaction, unique and multi-entry indexes, index keys that are
  arrays of several keys, backward cursors, `continuePrimaryKey` and `entriesReversed`.
- NodeDeletion.MergeSibling: of internal nodes, marks the children of a shared sibling, which the source does not.
- NodeDeletion.TryMergeAt: above the leaves' parents, rests on that.
- NodeDeletion.MergeRange: above the leaves' parents, rests on that.
- NodeDeletion.Edit: in trees of height two or more, rests on that. Where a child has become empty the source caches undefined as
  its greatest key, and the model keeps the old one; the tree is then no longer sound, and nothing is claimed of what later
  operations do to it.
- NodeDeletion.CollapseRoot: in trees of height two or more, marks the child of a shared root, which the source does not.
- NodeDeletion.DeleteRangeIn: in trees of height two or more, has both marks.
- NodeDeletion.WithoutRange: in trees of height two or more, has both marks.
- NodeHistories.RunSteps: stops after a deletion that strands a node; and, for the code as it is, before a deletion in a tree of
  height two or more.
- DeletionHistory.WithoutChangesOriginal: one history of the code as it is, for nodes of at most four keys; which histories in
  trees of height two or more are safe without the marks is not decided.
- SortedMap.WithoutIsDelete: is about values; that old trees stay is `NodeDeletion.WithoutRange`, with the marks.
- TreeDelete.DeleteRangeRemovesRange: for a tree without empty nodes.
- TreeStranded.HistoryMeansMap: ends at a deletion that strands a node; what operations do to empty nodes is not modelled.
- `withKeys`, `withRange`, `filter`, `mapValues`, `greedyClone`, `freeze` and the shared array of undefined values: wrappers and
  representation only.
- Shifting an item to the right sibling: the branch is never taken, since its guard compares with the separator that the search
  has just found not to be below the key.
- TransactionProtocol.Perform: the steps between two awaits are atomic, and refusals other than an unknown database or mode are
  not modelled.
- TransactionAtomicity.Transaction.Run: one connection to a database. An index that was deleted and committed stays in the list
  of committed indexes, and is not part of the view.
- TransactionRecords.RunRequests: a transaction that commits has no deletion that throws; what a DataError leaves behind is said
  in `ObjectStores.FailedDeleteStrays`. The generator that a generator of zero falls back to is part of the request.
- ObjectStores.ObjectStore.StoreRecord: one index key for each record and index.
- Keys are numbers without NaN, dates, strings, byte strings and arrays; conversion of other values to keys is not modelled.
- KeyGeneration.MakeStoreKeyValue: key paths are read and written by functions given to it; `KeyPaths` gives those that injectKey
  stands behind. An inline value that is not a key is passed on unchecked in the row for generated in-line keys; what the tree
  then does with it is not modelled.
- KeyPaths.AtPathIsLawful: how values are converted to keys is left open, but that numbers are keys as they are.
- KeyInjection.InjectKey: key paths are given as lists of names. Properties that strings and arrays have of themselves, such as
  length, and those that objects inherit are not modelled.
- StructuredClone.Encapsulation.Encode: arrays are dense and without other properties; the order of properties in the copy,
  regular expressions, NaN and the infinities are not modelled. Dates have no identity, and so two references to one date become
  two dates in the source as in the model.
- StructuredRevival.ParseText: stands for JSON.stringify and JSON.parse.
- Amounts and their text: rounding of floating-point numbers; `fromFloat`, `check` and `copy`.
- The wallet, codecs, HTTP, command line, web extension and tests.
