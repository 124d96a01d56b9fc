# The Epic node: storage, money and chain state

This project models the core of the Epic node, a Mimblewimble chain, and proves what its data structures and
checks promise.

- The storage engine. Outputs, range proofs and kernels live in Merkle mountain ranges: binary trees written in
  postorder to flat files. `Postorder` and `Navigation` are the position arithmetic, `AppendOnly` the buffered
  files, `PruneTheory` to `PruneList` the pruned roots and their caches, `LeafSet` the unspent leaves,
  `Compaction` to `Backend` the backend that deletes pruned subtrees, and `Pmmr` the tree on top of it.
- Money. `Emission` is the reward and levy schedule, `Schedule` the same schedule in numbers, `Sums` the sums of
  commitments.
- The chain state. `Outputs` and `Extension` apply blocks to three trees and the position index, `History` is the
  theory of rewinding, `TxHashSet` processes, rewinds and compacts a chain, and `Fork` leaves it for a better branch. Here
  the layers meet: the theorems about `ProcessBlock`, `Rewind`, `Reorganise` and `Compact` are about the bytes in the
  compacted files. `Genesis` builds the files, the trees and the chain from nothing and processes blocks, so that all
  invariants hold of actual states.
- Searching and waiting. `HeaderSearch` finds the block of an output and checks coinbase maturity, `Orphans` is the
  pool of blocks without a parent.
- Codecs: `Base58` and `Mnemonic`.
- `Wrappers` and `Arithmetic` are shared by all.
- `Difficulty` is the retarget. `Buckets` and `Pool` are the choice of transactions for a block.

State that the node changes in place is a class with a `Valid()` predicate that every method keeps. The logical
content of files and trees is kept in ghost fields that `Valid()` ties to the real ones. What a chain amounts to is a
`Ledger`: its headers, its UTXO set, all outputs, range proofs and kernels in order, and the two sizes. Blocks, rewinds
and branches are stated by what they make of the ledger.

A commitment is a pair of a value and a blinding factor with component-wise addition. Hash functions are
parameters; where inputs are matched by hash, two output identifiers with the same commitment are taken to have
different leaf hashes when their features differ. `HashersExist` is a hash function of 32 bytes for which this is so.
After a rewind an entry of the position index can lead to an output with another commitment, and then the hashes have to
tell that output from the input that was looked up (`Told`, `Tells`); with an index in which every entry has its own
commitment this asks for nothing (`ExactlyTold`).

Some promises hold only under a condition. Each has its exact condition and an input where it fails:

- Adding an inner node to the prune list keeps it canonical exactly when no root lies strictly below it (`AddedNode`).
  Leaf 1 and then its parent 3 leave both in the bitmap (`ParentAfterLeaf`).
- The search for the header of an output ends exactly for positions from the first to the last size (`EndsExactly`).
  With sizes 3 and 4 it never finds the first output of the first block (`FirstOutputNotFound`).
- A rewind restores the leaves up to the size of its target (`RewindExact`). Above it the leaf set holds exactly what came
  and was spent since, so nothing exactly when every output created since is unspent (`AboveTheSize`). The next push at
  such a position still adds just that position to the unspent ones (`UnspentPushed`).
- A rewind leaves the position index as it is. It still names an unspent output exactly when the commitment was not
  created again after the target, and the test for duplicates refuses exactly the taken commitments that were not
  (`StaleEntry`, `StaleTest`, `RewindAndTest`). In `DuplicateAccepted` an output that is taken is not refused, and
  `DuplicateRun` is a chain of four blocks where this comes about. The index fits the rewound state, so that
  blocks can be applied to it, exactly when no commitment unspent at the target was created again (`KeptExactly`);
  building it anew always makes it fit (`RewindAndRebuild`).
- When a branch takes over, the bitmaps of spent positions that were stored for its earlier blocks stay. The chain can be
  rewound from there on exactly when they are the positions those blocks spend (`Reorganise`). Where the blocks were
  stored one by one beside the better chain, they are when no earlier block spends an output of the branch
  (`BranchBitmap`), and are not when one has an input that the index of the chain does not know (`WrongBitmap`).
- Sorting the buckets of the pool puts parents before children exactly when every chosen child of a split-off transaction
  was split off too and sorts after it (`DependencyOrder`). In terms of the fees alone: in every order by falling fee
  exactly when such a child was split off and pays strictly less (`DependencyByFees`). `OutOfOrder` has a child before its
  parent.

The base-58 table has 128 entries and a byte 128 would be looked up behind its end; no well-formed UTF-8 text gets there
(`TextInTable`).

## Model

| member | source | states |
|---|---|---|
| Postorder.HeightAny | core/src/core/pmmr.rs:24-32 | the height of a position is the same in every perfect tree that holds it: the sequence does not depend on the size of the tree |
| Postorder.Family | core/src/core/pmmr/pmmr.rs:517-525 | parent and sibling of a position, for left and right children alike, and that the siblings have one parent |
| Postorder.RightChild | core/src/core/pmmr/pmmr.rs:517-525 | the node before a parent is its right child: every node that is not a leaf follows a right child of height one less |
| Postorder.Laminar | core/src/core/pmmr/pmmr.rs:580-588 | the ranges covered by two nodes are nested or disjoint |
| Postorder.ParentBelow | core/src/core/pmmr/pmmr.rs:517-525 | what lies strictly below a node has its parent not above that node |
| Navigation.ComputePeakMapHeight | core/src/core/pmmr/pmmr.rs:479-495 | the peeling loop gives the bitmap of peaks and the height that the recursive definition gives |
| Navigation.PostorderHeight | core/src/core/pmmr/pmmr.rs:500-506 | the height read off the peak map is the height in the tree |
| Navigation.ComputeFamily | core/src/core/pmmr/pmmr.rs:517-525 | parent and sibling read off the peak map are those of the tree |
| Navigation.ComputePath | core/src/core/pmmr/pmmr.rs:538-549 | the climbing loop visits exactly the ancestors of the position up to the last one, in order |
| Navigation.PathToBelow | core/src/core/pmmr/pmmr.rs:538-549 | a node is on the path exactly when the position lies below it and it is not beyond the end |
| Navigation.NLeaves | core/src/core/pmmr/pmmr.rs:426-434 | the number of leaves computed from peak sizes is the number of leaf positions up to the size |
| Navigation.ComputePeakSizesHeight | core/src/core/pmmr/pmmr.rs:451-471 | the peak sizes and the rest, with as many leaves as the peak map counts |
| Navigation.MmrSizeLeaves | core/src/core/pmmr/pmmr.rs:437-444 | n leaves make a range of 2n minus the number of ones in n, and the next leaf comes right after it |
| Navigation.LeafPosInverse | core/src/core/pmmr/pmmr.rs:437-444 | the insertion index and the leaf count are inverse on leaf positions |
| PruneTheory.RootsApart | store/src/prune_list.rs:231-246 | two roots of maximal pruned subtrees are never nested |
| PruneTheory.CompactedIsBelowRoot | store/src/pmmr.rs:262-264 | a node is compacted exactly when it lies strictly below a pruned root |
| PruneAdd.AddedLeaf | store/src/prune_list.rs:231-246 | after adding a leaf the bitmap is exactly the set of roots of maximal subtrees all of whose leaves were added, and the cache exactly the nodes of those subtrees |
| PruneAdd.AddedNode | store/src/prune_list.rs:231-246 | adding an inner node keeps the bitmap to the roots exactly when no root lay strictly below it |
| PruneAdd.ParentAfterLeaf | store/src/prune_list.rs:231-246 | leaf 1 and then node 3: both are in the bitmap, although 1 is not a root any more |
| PruneLists.PruneList.Add | store/src/prune_list.rs:231-246 | the climb ends, and the bitmap and cache are those of the grown set of leaves |
| PruneLists.PruneList.AddLeaves | store/src/prune_list.rs:231-246 | the same after any sequence of leaves, in any order |
| PruneLists.CanonicalUnique | store/src/prune_list.rs:231-282 | bitmap and cache depend on the set of leaves only, not on the order of additions |
| PruneLists.PruneList.BuildPrunedCache | store/src/prune_list.rs:269-282 | the cache recomputed from paths is the set of nodes covered by a root |
| PruneLists.PruneList.Flush | store/src/prune_list.rs:108-127 | rebuilding the caches gives the same pruned nodes as the incremental cache and fresh shift caches |
| PruneLists.PruneList.Open | store/src/prune_list.rs:66-96 | the caches built from a saved bitmap are those of the leaves below its roots |
| PruneLists.PruneList.InitCaches | store/src/prune_list.rs:99-105 | all three caches are those of the bitmap |
| PruneLists.PruneList.BuildShiftCache | store/src/prune_list.rs:161-180 | entry i is the sum of the shifts of the first roots up to i |
| PruneLists.PruneList.BuildLeafShiftCache | store/src/prune_list.rs:202-226 | the same for leaf shifts |
| PruneLists.LookupPart | store/src/prune_list.rs:144-159 | a lookup gives the sum over the roots not beyond the position |
| PruneLists.CoveredFromRoots | store/src/prune_list.rs:265-282 | a node is below some root exactly when its subtree is full |
| PruneShift.NodeShiftIsRank | store/src/prune_list.rs:144-180 | for a kept position, position minus shift is the number of kept positions up to it |
| PruneShift.LeafShiftIsRank | store/src/prune_list.rs:185-226 | for a kept leaf, leaf number minus leaf shift is its rank among the kept leaves |
| Gathering.RankIncreases | store/src/pmmr.rs:90-108 | ranks of kept positions are strictly increasing, so no two share a place in the file |
| BackendTheory.TotalShifts | store/src/prune_list.rs:130-138 | file size plus total shift is the full size, for nodes and for leaves |
| LeafSets.LeafSet.Rewind | store/src/leaf_set.rs:136-147 | members after the cutoff go, the given positions come back, all others stay |
| LeafSets.LeafSet.RemovedPreCutoff | store/src/leaf_set.rs:108-131 | exactly the leaves up to the cutoff that are not pruned, not unspent now and not spent after the cutoff |
| LeafSets.LeafSet.NeverPruned | store/src/leaf_set.rs:97-104 | what is taken as unpruned and the pruned leaves together are all leaves up to the cutoff, each in one of the two |
| LeafSets.LeafSet.Flush | store/src/leaf_set.rs:174-189 | the backup becomes the bitmap |
| LeafSets.LeafSet.Discard | store/src/leaf_set.rs:192-194 | the bitmap becomes the backup |
| AppendOnly.FixedFile.Append | store/src/types.rs:278-296 | the current sequence grows by the element; the committed one stays |
| AppendOnly.FixedFile.Rewind | store/src/types.rs:314-324 | the current sequence is a prefix of the committed one followed by what is in the buffer |
| AppendOnly.FixedFile.Flush | store/src/types.rs:327-380 | the committed sequence becomes the current one, also after a rewind followed by appends |
| AppendOnly.FixedFile.Discard | store/src/types.rs:383-397 | the current sequence becomes the committed one |
| AppendOnly.FixedFile.Read | store/src/types.rs:402-446 | reading from file or buffer gives the element of the current sequence, and nothing beyond it |
| AppendOnly.FixedFile.SavePrune | store/src/types.rs:466-509 | the streaming copy leaves out exactly the listed elements |
| AppendOnly.VariableFile.Append | store/src/types.rs:278-296 | as for fixed sizes; the entry of the size file starts where the last one ends |
| AppendOnly.VariableFile.EntryOf | store/src/types.rs:300-309 | the size file holds the offset and size of every element of the current sequence |
| AppendOnly.VariableFile.Rewind | store/src/types.rs:314-324 | data and size file go back together |
| AppendOnly.VariableFile.Flush | store/src/types.rs:327-380 | data and size file are committed together |
| AppendOnly.VariableFile.Discard | store/src/types.rs:383-397 | data and size file are discarded together |
| AppendOnly.VariableFile.Read | store/src/types.rs:402-446 | reading through the size file gives the element of the current sequence |
| AppendOnly.VariableFile.RebuildSizeFile | store/src/types.rs:511-553 | reading the data from the start gives contiguous entries for all elements |
| AppendOnly.VariableFile.SavePrune | store/src/types.rs:466-509 | the listed elements are gone and the size file fits the rest |
| AppendOnly.EntryRoundTrip | store/src/types.rs:46-61 | a size entry decodes to what was encoded exactly when the offset fits 64 bits and the size 16 |
| Backends.Backend.Append | store/src/pmmr.rs:68-88 | the logical content grows by the new element and hashes, and the leaf set by the true position of the leaf |
| Backends.Backend.GetFromFile | store/src/pmmr.rs:90-96 | the shifted read gives the logical hash, and nothing exactly for compacted positions and beyond the end |
| Backends.Backend.GetDataFromFile | store/src/pmmr.rs:98-108 | the same for the data of leaves |
| Backends.Backend.GetHash | store/src/pmmr.rs:113-119 | nothing for a spent leaf of a prunable tree, and otherwise the stored hash |
| Backends.Backend.GetData | store/src/pmmr.rs:122-130 | nothing for a spent leaf, and otherwise the stored data |
| Backends.Backend.Rewind | store/src/pmmr.rs:150-166 | the logical content is the prefix of the synced content, through shifted file positions |
| Backends.Backend.Sync | store/src/pmmr.rs:286-298 | the synced content becomes the present one |
| Backends.Backend.Discard | store/src/pmmr.rs:308-312 | everything since the last sync is undone, in files and leaf set |
| Backends.Backend.UnprunedSizeIs | store/src/pmmr.rs:268-270 | the computed size is the logical size, compacted positions included |
| Backends.Backend.CompactedTest | store/src/pmmr.rs:254-264 | the two bitmap tests decide whether a position is compacted |
| Backends.Backend.LeafSetReadable | store/src/pmmr.rs:113-130 | hash and data of every leaf in the leaf set are in the files |
| Compaction.PosToRm | store/src/pmmr.rs:381-424 | what is removed is exactly the growth of the set of compacted positions |
| Compaction.ExpandedExceptRoots | store/src/pmmr.rs:416-424 | leaving out the roots of the expansion leaves the newly compacted nodes |
| BackendTheory.ViewCompact | store/src/pmmr.rs:327-356 | files without the removed places are the files of the logical content for the grown prune list |
| Backends.Backend.CheckCompact | store/src/pmmr.rs:323-373 | compaction changes no logical hash or element, not the computed size and not the leaf set; the pruned leaves grow by those spent at the cutoff |
| Pmmrs.Pmmr.NewHashes | core/src/core/pmmr/pmmr.rs:180-209 | the hashes to append are the Merkle hashes of the new leaf and of every parent it completes; no left sibling is ever missing |
| Pmmrs.Pmmr.Push | core/src/core/pmmr/pmmr.rs:180-209 | pushing never fails, returns the next position and keeps every hash a Merkle hash, also on a compacted tree |
| Pmmrs.Pmmr.Prune | core/src/core/pmmr/pmmr.rs:248-259 | refused for an inner node, false for a leaf that is gone, and otherwise the leaf leaves the leaf set |
| Pmmrs.Pmmr.Rewind | core/src/core/pmmr/pmmr.rs:230-243 | moves up to the end of the mountain and leaves a prefix of hashes and elements |
| Pmmrs.Pmmr.GetHash | core/src/core/pmmr/pmmr.rs:262-272 | the logical hash inside the range |
| Pmmrs.Pmmr.GetData | core/src/core/pmmr/pmmr.rs:275-287 | the logical element inside the range |
| Pmmrs.Peaks | core/src/core/pmmr/pmmr.rs:403-423 | the loop gives the peaks of the range, or none when the size is not that of a whole range |
| Pmmrs.PeaksOpen | core/src/core/pmmr/pmmr.rs:403-423 | no peak has its parent in the range, so none is ever compacted |
| Pmmrs.Pmmr.PeakHashes | core/src/core/pmmr/pmmr.rs:83-93 | all peak hashes are there after any compaction |
| Pmmrs.Pmmr.Root | core/src/core/pmmr/pmmr.rs:132-144 | the root is the peaks bagged from the right, a function of the logical hashes |
| Pmmrs.MerkleUnique | core/src/core/pmmr/pmmr.rs:180-209 | the elements determine every hash, so trees with the same elements have the same root |
| Pmmrs.Pmmr.Compact | store/src/pmmr.rs:323-373 | reads at positions of the leaf set and hashes of nodes that are not below a pruned root are the same after compaction |
| Emission.Levy | core/src/consensus.rs:162-197 | the levy is positive exactly inside its schedule and smaller than the reward; LevyTable has its values |
| Emission.CumulativeRewardFoundation | core/src/consensus.rs:151-160 | the loop sums the levies since the last foundation height |
| Emission.LevyConserved | core/src/consensus.rs:125-230 | at every height the overage and the levy accrued since the last foundation height make up all block rewards, across all eras |
| Emission.PaidOut | core/src/consensus.rs:142-230 | at foundation heights the overage is the whole emission |
| Emission.TotalOverageAtHeight | core/src/consensus.rs:217-230 | the loop computes the overage without leaving the range of a 64-bit integer |
| Emission.FirstEras | core/src/consensus.rs:67-78 | what the first five eras emit |
| Emission.Halvings | core/src/consensus.rs:78-86 | over 64 halvings what is still to come stays below two eras at the present reward |
| Emission.SupplyCap | README.md:5 | fewer than 21 million coins over the whole schedule |
| Emission.OverageCapped | core/src/consensus.rs:217-230 | the overage of every height stays below the cap and fits 64 bits |
| Schedules.LevyTable | core/src/consensus.rs:162-197 | the levy of every height as a number: twelve of them, since rates and rewards change at different heights |
| Schedules.LevyYears | core/src/consensus.rs:162-197 | what each of the nine levy periods brings, in numbers |
| Schedules.OverageTable | core/src/consensus.rs:217-230 | the overage of every height of the first five eras in numbers, for every chain: what was mined less the levy of the heights since the last payment |
| Schedules.FirstOverages | core/src/consensus.rs:217-230 | the overage of the first block, of the first day and of a height in the second year |
| Schedules.HalvingAll | core/src/consensus.rs:78-86 | halving a number until nothing is left brings twice the number less its binary ones |
| Schedules.WholeEmission | README.md:5 | the whole emission to the last unit: 20,999,879.726688 coins |
| Sums.SumCommits | core/src/core/committed.rs:144-154 | dropping zero commitments does not change the sum |
| Sums.SumCommitments | core/src/core/committed.rs:88-110 | outputs minus inputs plus the overage, whichever its sign; an error for the one value without an absolute value |
| Sums.SumKernelExcesses | core/src/core/committed.rs:60-85 | the kernel sum without and with the offset |
| Sums.VerifyKernelSums | core/src/core/committed.rs:124-141 | succeeds exactly when the sums balance, with both sums as the result |
| Sums.WithSumsIs | core/src/core/block_sums.rs:62-81 | the earlier sums count as one more output and one more kernel |
| Sums.IncrementalIsFull | core/src/core/block_sums.rs:62-81 | checking a block against the earlier sums gives the verdict and the sums of checking the whole state |
| Sums.NoInflation | core/src/core/committed.rs:124-141 | with kernels of value zero a balanced state holds exactly the overage |
| Outputs.AppliedSum | chain/src/pipe.rs:586-613 | a block that fits changes the sum of the unspent outputs by its outputs minus its inputs |
| Outputs.AtMostOneUnspent | chain/src/txhashset/txhashset.rs:866-959 | no two unspent leaves have the same commitment |
| Outputs.OutputAdded | chain/src/txhashset/txhashset.rs:920-959 | a new commitment keeps every unspent leaf the entry of its commitment and adds one member to the UTXO set |
| Outputs.InputRemoved | chain/src/txhashset/txhashset.rs:889-918 | spending a leaf keeps the index right for all others and takes one member away |
| Outputs.StaleEntry | chain/src/txhashset/txhashset.rs:1067-1092 | after going back, the index that was not rewound still names an unspent leaf exactly when its commitment was not created again |
| Outputs.StaleTest | chain/src/txhashset/utxo_view.rs:90-99 | with that index exactly the commitments that are taken and were not created again are refused |
| Outputs.DuplicateAccepted | chain/src/txhashset/utxo_view.rs:90-99 | an output at position 1, another one at 2 and the first again at 4: back at size 1 its commitment is taken but not refused |
| Outputs.StaleIs | chain/src/txhashset/txhashset.rs:1067-1092 | the two facts above for every unspent leaf and every commitment |
| Outputs.StaleIndexed | chain/src/txhashset/txhashset.rs:1067-1092 | the index of the longer history is right for the prefix exactly when no commitment unspent there was created again |
| Extensions.Extension.LooksNew | chain/src/txhashset/utxo_view.rs:90-99 | for any index, refuses exactly when the index has an unspent leaf with that commitment |
| Extensions.Extension.ValidateInput | chain/src/txhashset/utxo_view.rs:78-87 | accepts exactly the members of the UTXO set, also with an index that a rewind left behind |
| Extensions.Extension.ValidateOutput | chain/src/txhashset/utxo_view.rs:90-99 | refuses exactly the commitments of unspent outputs |
| Extensions.Extension.ValidateBlock | chain/src/txhashset/utxo_view.rs:50-59 | accepts exactly the blocks whose outputs are all new and whose inputs are all unspent |
| Extensions.Extension.ExactlyTold | chain/src/txhashset/utxo_view.rs:78-87 | with an index whose entries all have their own commitment, no input is mistaken for another output |
| Extensions.Extension.ApplyOutput | chain/src/txhashset/txhashset.rs:920-959 | fails exactly for a commitment that is taken; otherwise the output and its proof are the elements at the same new position of both trees |
| Extensions.Extension.ApplyOutputs | chain/src/txhashset/txhashset.rs:866-872 | all outputs of a block: identifiers and proofs come behind the earlier ones in the order of the block |
| Extensions.Extension.PushBoth | chain/src/txhashset/txhashset.rs:930-957 | both trees grow by the same leaf to the same size, so the size and position checks pass; the leaf holds the identifier in one and the proof in the other |
| Extensions.UnspentPushed | chain/src/txhashset/txhashset.rs:930-957 | a new leaf adds just its position to the unspent ones, also when the bitmap held that position or later ones already |
| Extensions.Extension.ApplyInput | chain/src/txhashset/txhashset.rs:889-918 | succeeds exactly for a member of the UTXO set and spends its leaf in both trees |
| Extensions.Extension.ApplyKernel | chain/src/txhashset/txhashset.rs:962-967 | the kernel comes behind all others |
| Extensions.Extension.ApplyBlock | chain/src/txhashset/txhashset.rs:866-887 | succeeds exactly when the block fits; then UTXO' = (UTXO + outputs) - inputs, outputs, proofs and kernels come behind the earlier ones in order, with the index, the two leaf sets, the sizes and the bitmap of spent positions right |
| Extensions.Extension.RebuildIndex | chain/src/txhashset/txhashset.rs:1262-1282 | the index built from the unspent leaves is right, and every entry has its own commitment |
| Extensions.Extension.OutputsCommitted | chain/src/txhashset/txhashset.rs:801-809 | the commitments of the UTXO set, each once, and their sum |
| Extensions.Extension.KernelsCommitted | chain/src/txhashset/txhashset.rs:811-821 | the excess of every kernel, in order |
| Extensions.Extension.Sync | chain/src/txhashset/txhashset.rs:467-478 | the trees are written and stay as they are |
| Extensions.Extension.Discard | chain/src/txhashset/txhashset.rs:452-467 | the trees go back to what is in the files |
| Extensions.Extension.RewindToPos | chain/src/txhashset/txhashset.rs:1067-1092 | all three trees are prefixes, range proofs included, the unspent leaves are the old ones and the given ones up to the size, and above it the leaf set holds just the given ones |
| Extensions.Extension.Compact | chain/src/txhashset/txhashset.rs:309-323 | nothing logical changes, and in both trees the pruned leaves grow by exactly those up to the cutoff that are neither unspent nor to be put back |
| Histories.RewindExact | store/src/leaf_set.rs:136-147 | putting back what was spent since a block gives, up to its size, exactly the leaves unspent at that block |
| Histories.AboveTheSize | store/src/leaf_set.rs:136-147 | above that size it leaves exactly the leaves created and spent since, none exactly when all outputs created since are unspent |
| Histories.FateOfLater | store/src/leaf_set.rs:136-147 | a leaf created after a block was spent since exactly when it is not unspent now |
| Histories.LaterUnspent | chain/src/txhashset/txhashset.rs:1651-1696 | a leaf up to the size of a block was unspent then exactly when it is unspent now or was spent since |
| Histories.PrunedStays | chain/src/txhashset/txhashset.rs:297-323 | what compaction pruned at its horizon is spent at every block from there on and is not put back by a rewind |
| Histories.PrunedMore | chain/src/txhashset/txhashset.rs:297-323 | a later compaction prunes only leaves spent at the later of the two horizons |
| Histories.SpentLeaves | chain/src/txhashset/txhashset.rs:297-323 | what compaction adds are exactly the leaves that were created and spent at the block of the horizon |
| TxHashSets.FastOr | chain/src/txhashset/txhashset.rs:1666-1676 | batching up to 256 bitmaps never changes their union |
| TxHashSets.InputPosToRewind | chain/src/txhashset/txhashset.rs:1651-1696 | the batched walk gives the plain union of the bitmaps of the blocks after the target |
| TxHashSets.BitmapsAre | chain/src/store.rs:328-348 | that union is exactly what the blocks after the target have spent |
| Outputs.InputBitmapStep | chain/src/store.rs:328-337 | the bitmap of a block grows by the indexed position of each input |
| Outputs.BitmapPlaces | chain/src/store.rs:328-348 | for unspent inputs the bitmap is the set of the positions of their leaves |
| Outputs.BitmapMisses | chain/src/store.rs:328-337 | the bitmap has no more members than there are inputs, and fewer when the index does not know one of them |
| TxHashSets.TxHashSet.VerifyBlockSums | chain/src/pipe.rs:586-613 | passes exactly when checking the whole state after the block would, and stores its sums |
| TxHashSets.TxHashSet.ValidateKernelSums | chain/src/txhashset/txhashset.rs:1211-1226 | the verdict and sums from all unspent outputs, all kernels and the total overage; for an accepted chain of more than one block the sums stored for its head |
| TxHashSets.TxHashSet.HeadBalances | chain/src/pipe.rs:586-613 | every accepted chain of more than one block passes the check of the whole state with the stored sums of its head |
| TxHashSets.TxHashSet.HeadSums | chain/src/pipe.rs:586-613 | the sums stored for the head are those of the whole state, over every run |
| TxHashSets.TxHashSet.SupplyIsEmission | core/src/consensus.rs:217-230 | the unspent outputs hold exactly the scheduled emission, below 21 million coins |
| TxHashSets.TxHashSet.SetupHead | chain/src/chain.rs:1395-1427 | the first block is accepted exactly when it fits and, with a reward, balances; then the ledger is that block on an empty one, and nothing else is stored |
| TxHashSets.TxHashSet.ProcessBlock | chain/src/pipe.rs:93-183 | a block on the head is accepted exactly when it is new, next, spends and creates what it may, balances the whole state and names its sizes; then the ledger is the next one, with outputs, proofs and kernels in order, and the history grows by one mark; otherwise nothing changes |
| TxHashSets.TxHashSet.Apply | chain/src/txhashset/txhashset.rs:420-484 | the unit of work commits sums, trees and index together or leaves all of them as they were; the horizon of compaction stays |
| TxHashSets.TxHashSet.Extend | chain/src/pipe.rs:148-159 | one block within a unit of work is taken exactly when the ledger takes it; nothing goes to the files, and on failure headers and history stay |
| TxHashSets.TxHashSet.Commit | chain/src/store.rs:217-226 | the trees are written as they are and the bitmap of the last block is stored; the chain is valid exactly when the stored bitmaps are those of its blocks |
| TxHashSets.TxHashSet.Undo | chain/src/txhashset/txhashset.rs:452-467 | trees, index and sums go back to what was before the unit of work |
| TxHashSets.TxHashSet.Record | chain/src/pipe.rs:617-626 | the accepted block is added with its exact spent positions, and the accounts of the chain hold of it |
| TxHashSets.TxHashSet.HeadFinal | chain/src/txhashset/txhashset.rs:866-959 | at the head of every chain no commitment of an unspent output was created again after it |
| TxHashSets.TxHashSet.Rewind | chain/src/txhashset/txhashset.rs:1039-1060 | back to any block from the last compaction horizon on: its ledger and history, its sums and accounts, output and range proof of every unspent position still in the files, the leaf set above the size, and whether the index still fits |
| TxHashSets.TxHashSet.KeptExactly | chain/src/txhashset/txhashset.rs:1067-1092 | the index fits the state of an earlier block exactly when no commitment unspent there was created again since |
| TxHashSets.TxHashSet.Rebuild | chain/src/txhashset/txhashset.rs:1262-1282 | from any consistent state, also a rewound one, building the index and writing the trees gives a valid chain with the same ledger |
| TxHashSets.TxHashSet.Compact | chain/src/txhashset/txhashset.rs:297-323 | compaction keeps ledger, history, index and everything that rewinds to the new horizon or later need; in both trees it prunes exactly what was spent at the horizon, and the horizon never falls |
| Forks.ExtendAll | chain/src/pipe.rs:765-779 | the blocks of a branch are all taken exactly when each is taken by the ledger that those before it have made |
| Forks.TellsTold | chain/src/txhashset/utxo_view.rs:78-87 | inputs that hash differently from all known outputs with another commitment are never mistaken |
| Forks.RewindAndApplyFork | chain/src/pipe.rs:748-781 | back to where the branch left the chain and its blocks in turn: on the index that was not rewound the branch is applied exactly as its blocks demand |
| Forks.Abandon | chain/src/txhashset/txhashset.rs:452-467 | a unit of work that is given up leaves the chain that was there before, whatever was done in it |
| Forks.Shelve | chain/src/pipe.rs:161-174 | a branch without more work changes nothing but the stored bitmap of its last block, taken from the index of the chain |
| Forks.Reorganise | chain/src/pipe.rs:93-183 | the last block of a branch: refused without a trace, shelved, or the ledger is the one its branch makes of the ledger where it left; then the chain is valid exactly when the bitmaps of its earlier blocks are right |
| Forks.BranchBitmap | chain/src/store.rs:328-348 | for a block that spends no output of its branch the index of the other chain gives the positions it spends |
| Forks.RightBitmaps | chain/src/store.rs:217-226 | so the stored bitmaps of a branch whose earlier blocks spend none of its outputs are right |
| Forks.WrongBitmap | chain/src/store.rs:328-337 | and the bitmap of a block with an input that the index does not know is not |
| Forks.Switch | chain/src/pipe.rs:93-183 | a branch stored block by block takes over: the chain is valid in the first case and not in the second |
| Forks.ProcessAndRewind | chain/src/txhashset/txhashset.rs:1039-1060 | a block processed and taken back leaves the ledger, the history and the unspent leaves that were there before |
| Forks.RewindAndRebuild | chain/src/chain.rs:917-936 | going back to a block and building the index anew gives a valid chain with the ledger of that block |
| Forks.RewindAndTest | chain/src/txhashset/utxo_view.rs:90-99 | after going back the test for duplicates takes a commitment for new exactly when it is not taken or was created again since |
| Genesis.NewTree | store/src/pmmr.rs:203-253 | empty files make a valid empty tree |
| Genesis.NewExtension | chain/src/txhashset/txhashset.rs:114-162 | three empty trees and an empty index are consistent |
| Genesis.NewChain | chain/src/chain.rs:1395-1427 | from nothing to a valid chain of one block, accepted exactly when it fits and balances |
| Genesis.TwoBlocks | chain/src/pipe.rs:93-183 | a chain whose second block pays the reward to one output satisfies all invariants |
| Genesis.DuplicateRun | chain/src/txhashset/utxo_view.rs:90-99 | a chain of four blocks where the output of the second is spent by the third and created again by the fourth: back at the second block it is in the UTXO set and the test for duplicates takes it for new |
| HeaderSearch.GetHeaderForOutput | chain/src/chain.rs:1219-1251 | the search ends with the block that created the output |
| HeaderSearch.CreatedOnce | chain/src/chain.rs:1219-1251 | there is only one such block |
| HeaderSearch.EndsExactly | chain/src/chain.rs:1219-1251 | the loop ends exactly for a chain of one block or a position from the first to the last size |
| HeaderSearch.Endless | chain/src/chain.rs:1219-1251 | for every other position it goes on forever |
| HeaderSearch.FirstOutputNotFound | chain/src/chain.rs:1219-1251 | with sizes 3 and 4 the first output is never found, although the first block created it |
| HeaderSearch.Features | core/src/core/transaction.rs:1201-1206 | the first byte of an identifier tells plain outputs from coinbase outputs, and the rest is the commitment |
| HeaderSearch.VerifyCoinbaseMaturity | chain/src/txhashset/utxo_view.rs:103-134 | the test of the greatest position decides whether every coinbase spent was created early enough; an error when the cutoff header is missing |
| Orphans.OrphanBlockPool.Add | chain/src/chain.rs:87-124 | the orphan is held, or the pool is cut to the young orphans below the highest height that leaves fewer than 200; indexes agree, the size is bounded, evictions are counted and insertions = held + taken + evicted + replaced |
| Orphans.YoungIs | chain/src/chain.rs:99-102 | an orphan is too old after 300 seconds |
| Orphans.OrphanBlockPool.EvictHeights | chain/src/chain.rs:105-117 | whole heights go from the top, no more than needed |
| Orphans.OrphanBlockPool.CleanIndex | chain/src/chain.rs:118-119 | only entries that list no held orphan are dropped |
| Orphans.OrphanBlockPool.RemoveByHeight | chain/src/chain.rs:128-134 | exactly the held orphans of the height, each once |
| Orphans.OrphanBlockPool.CheckOrphans | chain/src/chain.rs:398-450 | ends for every outcome of every block: all orphans held at the heights it passes are processed, each once, it stops at the first height where none is accepted, exactly those that are orphans still are held again, and nothing is evicted |
| Orphans.AllAccepted | chain/src/chain.rs:398-450 | when every block is accepted, the search ends at the first height without orphans and none is left below it |
| Orphans.OrphanBlockPool.ProcessBatch | chain/src/chain.rs:412-431 | every orphan of the height is processed once, those that are orphans still are added again, and all others stay |
| Base58.CharDigit | keychain/src/base58.rs:108-239 | the digit table inverts the alphabet |
| Base58.DigitChar | keychain/src/base58.rs:108-239 | the alphabet inverts the digit table |
| Base58.EncodeIter | keychain/src/base58.rs:294-334 | the digit loops compute the base-58 form of the number, with one leading digit for each leading zero byte |
| Base58.From | keychain/src/base58.rs:242-275 | the in-place loop computes the base-256 form of the number, and the first bad byte is reported |
| Base58.TimesPlusInPlace | keychain/src/base58.rs:257-263 | one multiplication in place; no carry is left over |
| Base58.ScratchSuffices | keychain/src/base58.rs:244-245 | n base-58 digits always fit in 1 + 11n/15 bytes, because 58^15 < 256^11 |
| Base58.ConvertBack | keychain/src/base58.rs:242-334 | digits are determined by their value and their leading zeros |
| Base58.DecodeEncode | keychain/src/base58.rs:242-334 | decoding an encoded byte string gives it back, for all byte strings |
| Base58.EncodeDecode | keychain/src/base58.rs:242-334 | encoding a decoded string gives it back, for all strings that decode |
| Base58.TextInTable | keychain/src/base58.rs:242-256 | for no well-formed UTF-8 text does the lookup leave the table |
| Base58.TextWellFormed | keychain/src/base58.rs:242-256 | the text of any sequence of characters is well-formed, so every string the function can be given is covered |
| Base58.WellFormedText | keychain/src/base58.rs:242-256 | and whatever is well-formed is the text of some characters |
| Base58.CheckEncodeSlice | keychain/src/base58.rs:360-363 | the encoding of the data and the first four bytes of its hash |
| Base58.FromCheck | keychain/src/base58.rs:277-292 | the data without its checksum, or the error of the first check that fails |
| Base58.LowWordIs | keychain/src/base58.rs:49-52 | cutting eight bytes to 32 bits leaves the first four |
| Base58.CheckDecodeEncode | keychain/src/base58.rs:277-363 | the checked form decodes to the data, for every hash |
| Base58.CheckEncodeDecode | keychain/src/base58.rs:277-363 | every accepted checked string is the checked form of its data |
| Mnemonics.Lengths | keychain/src/mnemonic.rs:66-118 | 128 to 256 bits in steps of 32 are allowed, and three words for every 32 bits hold them and their checksum |
| Mnemonics.FromEntropy | keychain/src/mnemonic.rs:112-150 | the bit loops compute the 11-bit words of the entropy and its checksum, with every index and shift in range |
| Mnemonics.ToEntropy | keychain/src/mnemonic.rs:66-109 | the bit loops compute the bytes before the checksum, and wrong lengths, unknown words and wrong checksums are reported in this order |
| Mnemonics.PushBits | keychain/src/mnemonic.rs:133-145 | bits go to the next free places of the words, the greatest first |
| Mnemonics.LayBits | keychain/src/mnemonic.rs:88-94 | bits go to the next free places of the bytes from the right, the least first |
| Mnemonics.EntropyOfPhrase | keychain/src/mnemonic.rs:66-150 | to_entropy(from_entropy(e)) gives e for every entropy of an allowed length |
| Mnemonics.PhraseOfEntropy | keychain/src/mnemonic.rs:66-150 | from_entropy(to_entropy(m)) gives the words of every accepted phrase |
| Mnemonics.BinarySearch | keychain/src/mnemonic.rs:57-63 | halving an alphabetical list finds what looking at every word finds, or nothing when the word is not there |
| Mnemonics.AlphabeticalDistinct | keychain/src/mnemonic.rs:27-29 | an alphabetical list of 2048 words can stand for all numbers of 11 bits |
| Difficulties.DifficultyDataToVector | core/src/global.rs:494-528 | always the window and one more header, oldest first, with timestamps that never fall and simulated headers at the first difficulty and a steady pace |
| Difficulties.AdjustedTime | core/src/consensus.rs:478-485 | damping and clamping leave between two thirds and twice the goal |
| Difficulties.AdjustedIs | core/src/consensus.rs:478-485 | a third of the measured time and two thirds of the goal, rounded down, and twice the goal from four times the goal on |
| Difficulties.WindowTime | core/src/consensus.rs:653-680 | over a full window the timespans add up to the time from the header before the window to the last but one |
| Difficulties.RetargetBounds | core/src/consensus.rs:653-736 | the retarget lies between one half and three halves of the window mean, except at its floor |
| Difficulties.RetargetIs | core/src/consensus.rs:653-736 | the next difficulty is the one with which the work of the window would have filled the goal: d times the adjusted time is at most 60 times the sum and d + 1 times it is more, except at the floor |
| Difficulties.RetargetUnique | core/src/consensus.rs:653-736 | there is only one such difficulty |
| Difficulties.RetargetFalls | core/src/consensus.rs:653-736 | more time or less work never raises the difficulty |
| Difficulties.SlowAndFast | core/src/consensus.rs:653-736 | a slow window does not raise the difficulty above the mean of the window and a fast one does not lower it below |
| Difficulties.NextDifficultyEra1 | core/src/consensus.rs:653-736 | the loops compute the retarget from the timespans and the difficulties of the window, with the two inequalities that determine it |
| Difficulties.NextCuckooDifficulty | core/src/consensus.rs:552-574 | the same from the timestamps at the ends, whose difference is never negative |
| Difficulties.SteadyDifficulty | core/src/consensus.rs:653-736 | blocks every 60 seconds at constant difficulty are a fixed point |
| Buckets.WeightSteps | core/src/core/transaction.rs:585-591 | an output weighs four, a kernel one, an input takes one away, and nothing weighs less than one |
| Buckets.RateIs | core/src/core/transaction.rs:945-947 | the rate is a thousand times the fee for a unit of weight, rounded down |
| Buckets.SplitPaysLess | pool/src/pool.rs:306-312 | a transaction that would lower the fee for the weight of a bucket pays less itself, cut-through and rounding included |
| Buckets.DependencyOrder | pool/src/pool.rs:306-312 | for every order by falling fee, parents come first exactly when every chosen child of a split-off transaction was split off and sorts after it |
| Pools.DependencyByFees | pool/src/pool.rs:306-312 | in every order by falling fee parents come first exactly when every chosen child of a split-off transaction was split off and pays strictly less |
| Buckets.OutOfOrder | pool/src/pool.rs:374-396 | three transactions that end in the order first, third, second although the third spends from the second |
| Buckets.LeftOut | pool/src/pool.rs:313-398 | an entry is left out exactly when it spends from one left out, has two inputs from chosen ones, or its aggregate with the bucket is not valid |
| Buckets.IndependentChosen | pool/src/pool.rs:352-358 | an entry that spends nothing from the pool is chosen |
| Buckets.AllLinked | pool/src/pool.rs:313-398 | a chosen entry spends from no entry left out, has at most one input from chosen ones, and is listed with the creator of that input |
| Buckets.AllApart | pool/src/pool.rs:371-379 | a bucket that was split off stays alone and pays less than the one it came from, to the end of the walk |
| Buckets.SpreadOrder | pool/src/pool.rs:400-409 | the result goes by bucket, and within a bucket in the order of the pool |
| Buckets.SpreadAll | pool/src/pool.rs:313-410 | every chosen entry comes once and no other |
| Buckets.OnlyParents | pool/src/pool.rs:325-340 | where no two chosen entries create the same output, the creators of inputs are the parents |
| Pools.BucketTransactions | pool/src/pool.rs:313-410 | the loop with its hash maps computes the walk, and all of the above holds of the sorted result |
| Pools.Place | pool/src/pool.rs:352-385 | a transaction is dropped exactly when the aggregate is not valid, joins exactly when the bucket does not lose, and no bucket pays less after |
| Pools.LookAtInputs | pool/src/pool.rs:325-340 | rejected exactly for an input from a rejected entry or for two from the buckets; otherwise the bucket of the first |
| Pools.SortKeeps | pool/src/pool.rs:400-409 | every bucket once, by falling fee for its weight |
| Pools.ValidateRawTxs | pool/src/pool.rs:236-263 | an error exactly when an aggregate cannot be built, and otherwise what is kept one by one |
| Pools.KeptIsGreedy | pool/src/pool.rs:236-263 | what is kept is a subsequence, each member valid on top of those kept before it and each dropped one not |
| Pools.KeptIsValid | pool/src/pool.rs:236-263 | the aggregate of all that is kept is valid |

## Left out

- Positions are natural numbers; the node casts them to 32 bits for its bitmaps and takes them below 2^32.
- Files, memory maps, the key-value store, locks and threads: each operation is one atomic step, and operations of the
  operating system do not fail.
- Backend: the data file has elements of one size; the file of variable size is modelled by itself and not under the tree.
- AppendOnly.FixedFile.Rewind: needs a position inside the file, as its callers provide; beyond it the next flush would
  extend the file by bytes that nothing has written.
- AppendOnly.VariableFile.Append: elements shorter than 2^16 bytes and files shorter than 2^64, the ranges of a size entry;
  EntryRoundTrip says that no other entry can be read back.
- AppendOnly.VariableFile.Rewind: needs empty buffers. The comment at store/src/types.rs:311-313 says that a rewind within
  the buffer is not supported.
- Backends.Backend.Rewind: needs empty buffers, and no pruned leaf after the target. Leaves are pruned only below the
  horizon of a compaction, and what lies before it is not in the files any more.
- Pmmrs.Pmmr.Rewind: the same.
- Extensions.Extension.ApplyKernel: kernels have one length. The node opens their file with variable size
  (chain/src/txhashset/txhashset.rs:152-159), but what it writes is 114 bytes for every kernel
  (core/src/core/transaction.rs:193-201).
- HeaderSearch: sizes strictly increase from block to block, since every block has at least its coinbase output.
- Merkle proofs, snapshots, and the validation of a whole tree by rehashing it.
- TxHashSets.TxHashSet.ProcessBlock: covers a block on top of the head; Reorganise is the path for a branch. Proof of work,
  header validation, root hashes in headers, range proofs, signatures and the maturity check within block processing are
  not part of it.
- Forks.Reorganise: whether the branch has more work is a parameter, and the block where it left the chain and its blocks
  are handed in instead of being looked up. Covers an index that fits the state there; KeptExactly says when it does.
- Forks.Switch: between its two cases, an earlier block that spends an output of the branch whose commitment the index of
  the chain has at some other leaf, the exact condition is the one of Reorganise.
- TxHashSets.TxHashSet.SetupHead: covers a chain without a stored head; the sizes in the first header, and that a first
  block without kernels has no outputs, are demanded, since the node does not check them.
- Genesis.NewChain: the same of its first block.
- TxHashSets.TxHashSet.Rewind: covers targets from the last compaction on; what lies before it is not in the files any more.
- The header tree is a sequence of headers.
- Sums of commitments that come to the point at infinity, which the curve library reports as an error.
- Rewards beyond 64 halvings, where the shift leaves its domain.
- Emission.Levy: multiplies by an exact fraction; on all reward and levy pairs of the schedule this is the value of the
  floating-point product.
- Overflow of 64 bits in the difficulty sums; the secondary scaling factor; the hash difficulty that later heights use.
- Orphans: the time is a number handed in, and what becomes of a block in processing is an arbitrary outcome.
- Mnemonics: a phrase is a sequence of words; splitting text, the word list itself and the derivation of seeds are left
  out. The list only has to have 2048 words in alphabetical order.
- Pools: whether an aggregate is valid is a parameter; fees and weights do not overflow; adding to the pool and reconciling
  it would only repeat validation one by one.
- Cut-through and the internal validation of blocks, peer-to-peer messages, the API, configuration and logging.
