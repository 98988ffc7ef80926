# Verification of D4C's delta images

D4C stores container images as deltas ("dimg" files), composes deltas, applies them, and mounts
stacks of them lazily. All of it rests on one claim, made at several levels: composing deltas and
applying the result once gives what applying them one after the other gives. This project models the
code that makes that claim true and proves it, from single bytes up to an update request answered by
the server and an image shown by the file system.

| layer | modules |
|---|---|
| meaning of a file delta, byte by byte | `DeltaOps`, `Blocks` |
| composing two bsdiff block lists; their printed form | `BlockMerge`, `PatchFormat` |
| image trees, digests, what applying means, as a whole and path by path | `NameOrder`, `ImageTree`, `AppliedPaths`, `StoredImage`, `ImagePatch` |
| making and merging delta images, as functions, path by path and in place | `ImageDiff`, `DiffPaths`, `ImageMerge`, `MergePaths`, `FileEntries`, `FileEntryDiff`, `FileEntryDigest` |
| the codec behind a stored delta | `PatchCodec` |
| the goroutine pipeline that writes image bodies, and what it stores | `DiffSchedule`, `BodyPipeline`, `ImageStorage`, `DiffStorage` |
| chains of deltas and the slot-limited merge tree | `ChainMerge`, `MergeSchedule` |
| selecting a chain, on a graph that grows between searches | `Graphs`, `SearchHistory`, `Dijkstra`, `Store` |
| the whole way from store to image | `EndToEnd`, `LazyRead` |

`Results` holds the outcome types. Code that works by changing fields or looping is a class or a
method here as well (`BlockMerge.MergeBlocks`, `PatchFormat.ReadContent` and `WritePatch`, `Dijkstra.DirectedGraph`,
`Store.DimgStore`, `ChainMerge.DimgEntry`, `FileEntries.FileEntry`, `LazyRead.Di3fsNode`), and its contracts tie it
to specification functions; the theorems are lemmas about these. Goroutines are state machines whose
steps come in any order, with theorems over all runs. Every lemma switches automatic induction off, so that each
inductive step stands in the text.

Assumptions that appear as parameters or preconditions:

- the file codec: a delta is its byte operations and the old files it can be used on (`DeltaOps.FilePatch`), a generator of deltas
  satisfies `ImageDiff.Generates`, and `StoredImage.Codec` says what compressed bytes and patches stand for. When two deltas can be merged is the
  bsdiff codec's own condition (`ImageMerge.MergeableChild`); `PatchCodec.Merge` shows that merging patch files succeeds exactly under it;
- SHA-256 over JSON is an injective constructor (`ImageTree.Digest`, `Store.Injective`);
- edges cost at least zero and a search starts on a node (`Graphs.Sensible`); the marks may be those that failed searches have left
  (`Dijkstra.DirectedGraph.AtRest`);
- a delta image suits its base (`ImageTree.WellFormedOver`): it applies and verifies, entries are kept under their names, file
  sizes are content sizes, files have no link target, deltas fit the old files and are made against files that are not empty, and directory types are
  right; `ImageDiff.DiffApplyRoundTrip` shows that the delta images made here suit theirs, and `ImageMerge.MergeMeansBoth` that
  merging keeps it;
- images to be compared are as packing makes them (`ImageDiff.Full`): everything new, with sizes recorded for files and none for links;
- for the stored round trip over covered directories, that packing stores an empty file as nothing (`DiffStorage.EmptyFilesStoredEmpty`);
- the deltas of a store do what their ids say (`EndToEnd.Faithful`).

Where the code does not meet its intended property everywhere, the model keeps the code and a member
says exactly where it does:

- `getBlock` does not return for a position at or behind the end of the blocks (`BlockMerge.SearchPastEndNeverReturns`);
  `mergeBlocks` asks only for positions inside;
- `mergeBlocks` succeeds if and only if the lower list is not empty and every upper block reads inside the lower file,
  the empty ADD part of an insert-only block included (`BlockMerge.MergeBlocks`);
- `-2^63` is the one 64-bit value that does not survive being written and read (`PatchFormat.Int64RoundTrip`);
- entries of recorded size zero get no task in a diff, and what is below such a directory keeps the offsets that it had in the body of the new image. The
  delta image reproduces the new image if and only if each of these files reads back as its own content from the delta's body
  (`ImageDiff.DiffApplyRoundTrip`, `DiffStorage.StoredDiffRoundTrip`). That is so when no directory of recorded size zero holds content
  (`DiffStorage.CoveredStoredRoundTrip`); archive layers record directories with size zero, and `DiffStorage.StoredLayerIsLost` is a case where it is not;
- a patch file whose header announces 2^63 bytes or more is read as an empty list of blocks, whatever follows; the blocks of an accepted
  patch file reach the size that its header announces if and only if that is less (`PatchFormat.HugeHeaderReadsNothing`, `PatchFormat.ReadsUpToHeader`);
- a digest covers an entry's fields, its children and its bytes, but not its type. Under a root digest that is not empty an image is determined at every path
  (`AppliedPaths.DigestDeterminesImage`), and an entry's type is, if and only if it has bytes or children (`AppliedPaths.DigestDeterminesKind`,
  `AppliedPaths.EmptyEntriesShareDigest`);
- failed searches leave their marks in the graph, and adding an edge does not clear them. Until a search succeeds, a later one succeeds if and only if
  a walk to one of its goals keeps clear of the nodes that are marked as finished by then (`Dijkstra.DirectedGraph.ShortestPathWithMultipleGoals`,
  `Store.DimgStore.GetDimgEntriesWithDimgIds`). These are the nodes that each failed search could reach in the graph of its time, clear of those marked before
  (`SearchHistory.SearchAfterFailures`). So a request from an id that is marked, or one all of whose ways pass one, fails whatever is added
  (`SearchHistory.BlockedWaysFail`). `Store.ChildBeforeParent` is an image that is stored before its parent, and whose chain is not found once the parent has
  been stored; `SearchHistory.EdgeAddedTooLate` and `SearchHistory.FailureHidesReachableGoal` are others. On a graph that does not change, a search succeeds
  if and only if it can reach a goal that none of the failed ones could reach (`SearchHistory.SearchOnUnchangedGraph`);
- merging a selected chain of two or more deltas overwrites store entries: those of the deltas at which an inner task of the merge tree starts
  (`EndToEnd.StoredExactly`, `ChainMerge.StretchEndIsLargest`). After a request the digest map agrees with
  the graph if and only if the request failed or a single stored delta leads from the image wanted to an image at hand (`EndToEnd.SelectAndMerge`,
  `EndToEnd.OneDeltaChain`); `EndToEnd.TwoDeltaStore` is a store where none does, and `EndToEnd.LaterRequestGetsMerged` says what later requests are handed
  for each delta of the chain.

## Model

| member | source | states |
|---|---|---|
| `DeltaOps.ComposeMeansSequentialPatch` | pkg/bsdiffx/merge.go:299-390 | patching a base with the composition of two deltas gives, byte for byte modulo 256, what patching with the lower and then the upper one gives |
| `DeltaOps.AddByteWraps` | pkg/bsdiffx/merge.go:327 | the sum of two bytes is the one byte that differs from their integer sum by a multiple of 256 |
| `DeltaOps.PatchMeansDemands` | pkg/bsdiffx/merge.go:413-425 | a patched file is the one file whose every byte is, in integers, the old byte plus the difference up to a multiple of 256, or the stored byte; there is one if and only if all copied bytes lie inside the old file |
| `DeltaOps.ComposeInBounds` | pkg/bsdiffx/merge.go:299-390 | a composed delta reads only inside the base that the lower delta reads |
| `DeltaOps.ComposeAssociative` | pkg/bsdiffx/merge.go:249-399 | composing three deltas does not depend on which two are composed first |
| `Blocks.BlockCovering` | pkg/bsdiffx/merge.go:227-247 | in a gap-free list of non-empty blocks every position inside has a block |
| `Blocks.BlocksInOrder` | pkg/bsdiffx/merge.go:227-247 | a block ends before any later one starts, so the block covering a position is unique |
| `Blocks.OpsLength` | pkg/bsdiffx/merge.go:251-252 | the end of the last block of a gap-free list is the size of the file it describes |
| `Blocks.BlocksNeedExact` | pkg/bsdiffx/merge.go:255-276 | the need of a block list, one number at most, says exactly into which old files all its blocks fit, empty ADD parts included |
| `BlockMerge.GetBlock` | pkg/bsdiffx/merge.go:227-247 | the hand-written binary search ends and finds the block that contains the position, for every position inside a gap-free list of non-empty blocks |
| `BlockMerge.SearchPastEndNeverReturns` | pkg/bsdiffx/merge.go:227-247 | for a position at or behind the end, no number of rounds of that search gives an answer |
| `BlockMerge.MergeRun` | pkg/bsdiffx/merge.go:299-390 | the inner loop, over its four ADD/INSERT cases: the accumulated output stays the composition of the two deltas up to `cur`, which grows |
| `BlockMerge.MergeUpperBlock` | pkg/bsdiffx/merge.go:255-396 | one upper block adds blocks for exactly its own bytes, or fails exactly if it reads outside the lower file |
| `BlockMerge.MergeBlocks` | pkg/bsdiffx/merge.go:249-399 | total and closed: succeeds if and only if the lower list is not empty and all upper reads are inside it; the result means the composition of both, with the need of the lower one, and is non-empty blocks that tile the new file |
| `BlockMerge.DrawnFromReadsWithin` | pkg/bsdiffx/merge.go:320-323 | merged blocks read inside every base that the lower blocks read inside, so they can be merged again |
| `BlockMerge.MergedBlocksPatchLikeBoth` | pkg/bsdiffx/merge.go:249-399 | delta composition on block lists: merged blocks patch every base, in which the copied bytes of the lower list lie, as the two lists do in turn, and fit into it |
| `BlockMerge.CheckBlockMeans` | pkg/bsdiffx/merge.go:401-429 | `checkBlock` accepts a block if and only if it has a place in both files and every byte there is, in integers, old byte plus difference up to a multiple of 256, or what is stored |
| `BlockMerge.ChecksPassExactlyForTheUpdatedFile` | pkg/bsdiffx/merge.go:401-429 | all `checkBlock` calls pass if and only if the updated file is what the block list makes of the base |
| `PatchFormat.Int64RoundTrip` | pkg/bsdiffx/merge.go:112-147 | an int64 written in sign-and-magnitude form reads back as itself if and only if it is not the smallest one |
| `PatchFormat.SignBit` | pkg/bsdiffx/merge.go:112-147 | setting, clearing and testing the top bit of the last byte is, on the eight bytes written, the sign in the arithmetic sense |
| `PatchFormat.WrittenBytes` | pkg/bsdiffx/merge.go:112-130 | byte i of a written integer is `magnitude / 256^i` modulo 256, lowest first, and the eighth has seven bits of it below the sign |
| `PatchFormat.TripleLayout` | pkg/bsdiffx/merge.go:154-209 | one round of parsing succeeds if and only if three integers stand first, the added bytes do not go past the new size and all announced bytes are there; the added bytes come before the stored ones, the third integer is the seek |
| `PatchFormat.KnownStream` | pkg/bsdiffx/merge.go:149-217 | the blocks of a concrete stream of bytes, with positions and seeks |
| `PatchFormat.KnownPrinted` | pkg/bsdiffx/merge.go:48-110 | the bytes printed for a concrete block list: leading seek, seeks between blocks, none after the last |
| `PatchFormat.ReadContent` | pkg/bsdiffx/merge.go:149-217 | for every unsigned 64-bit size in the header, the parsing loop returns what the stream stands for under the signed reading of the size, or fails, and ends because its input shrinks |
| `PatchFormat.HugeHeaderReadsNothing` | pkg/bsdiffx/merge.go:149-154 | a header size of 2^63 or more is a negative bound for the loop: the result is no block, whatever the stream |
| `PatchFormat.ReadsUpToHeader` | pkg/bsdiffx/merge.go:149-217 | the blocks of an accepted patch file reach the size in its header if and only if that is below 2^63 |
| `PatchFormat.WritePatch` | pkg/bsdiffx/merge.go:48-110 | the printing loop writes the leading seek triple where needed and the triples with relative seeks |
| `PatchFormat.ParsePrinted` | pkg/bsdiffx/merge.go:48-217 | reading what was printed for a gap-free block list gives the same blocks, old and new positions included |
| `PatchFormat.ParsedShape` | pkg/bsdiffx/merge.go:149-217 | whatever stream is accepted, its blocks are non-empty and tile the new file |
| `PatchFormat.ReprintedStreamParsesTheSame` | pkg/bsdiffx/merge.go:149-217 | any accepted stream, zero-length triples included, keeps its blocks when parsed and printed again |
| `PatchFormat.ReprintedStreamPatchesTheSame` | pkg/bsdiffx/merge.go:149-217 | and it keeps what it does to every old file when it is executed triple by triple, seeks included; that is also what its blocks do |
| `PatchFormat.WellFormedEncodable` | pkg/bsdiffx/merge.go:88-95 | every well-formed block list over files of 64-bit size has control values that can be written |
| `PatchFormat.DeltaMergingBytes` | pkg/bsdiffx/merge.go:431-452 | parse, merge, print: succeeds exactly if both inputs parse, the lower one is not empty and the upper one fits its output; the printed patch stands for the composition of the two deltas, does to every base what the two inputs do in turn, and can be merged further |
| `NameOrder.BeforeMeans` | pkg/image/fs.go:226 | a name comes first if and only if it has the smaller character at the first difference, or is a proper prefix |
| `NameOrder.AscendingUnique` | pkg/image/fs.go:222-226 | a set of names has one sorted order, so directory digests do not depend on map order |
| `NameOrder.Sort` | pkg/image/fs.go:222-226 | the names of a directory, sorted |
| `ImageTree.CollectDigests` | pkg/image/fs.go:210-238 | the digests of the children by sorted names |
| `ImageTree.DigestInjective` | pkg/image/fs.go:210-252 | two digests that are equal and not empty were made of the same name, size, mode, owner, link target, child digests and bytes |
| `ImageTree.ChangedLeafFails` | pkg/image/fs.go:255-268 | a verified file or link verifies under its digest only with exactly its own fields and content |
| `ImageTree.ChangedDirFails` | pkg/image/fs.go:255-268 | the same for a directory that has a digest, with the digests of its children |
| `ImageTree.UpdateDirsRight` | pkg/image/diff.go:437-459 | after the update every directory is marked new exactly if all its children are |
| `ImageTree.NewExactlyWhenStandalone` | pkg/image/diff.go:437-459 | with right types an entry is new exactly if no descendant is SAME or DIFF |
| `ImageTree.UpdateDirsKeepsMeaning` | pkg/image/diff.go:437-459 | directory types change neither whether an image can be applied nor what it gives |
| `ImageTree.StandaloneIgnoresBase` | pkg/image/fs.go:133-139 | an entry without SAME and DIFF descendants applies to every base alike |
| `ImageTree.GeneratedDigestsVerify` | pkg/image/pack.go:319-336 | once directory digests have been generated bottom up, the whole image verifies |
| `AppliedPaths.AppliesExactly` | pkg/image/patch.go:90-206 | installing succeeds if and only if at every path the entry suits what the base has there and its digest covers its fields, its children's digests and its content |
| `AppliedPaths.InstalledAt` | pkg/image/patch.go:90-206 | afterwards there is a node exactly at the paths of the image, of the entry's kind, with its metadata, and for files with the content that its type says |
| `AppliedPaths.DigestDeterminesImage` | pkg/image/fs.go:210-268 | two images installed under one root digest that is not empty have at every path the same metadata and the same content, whatever deltas and bases they come from |
| `AppliedPaths.DigestDeterminesKind` | pkg/image/fs.go:210-252 | under one digest, what has bytes is a file and what has children is a directory |
| `AppliedPaths.EmptyEntriesShareDigest` | pkg/image/fs.go:200-208 | an empty file, an empty directory and both kinds of links with the same fields verify under the same digest |
| `ImagePatch.Verify` | pkg/image/fs.go:240-268 | accepts exactly the entries whose digest is that of all their fields, their children and their content |
| `ImagePatch.InstalledKinds` | pkg/image/patch.go:90-206 | at every path a stored image that has been installed leaves a folder, file, symbolic link or hard link exactly as its entry says |
| `ImagePatch.ApplyPatchImpl` | pkg/image/patch.go:90-206 | installing a stored image succeeds exactly if it can be read, suits the base, verifies and, for a base image, needs no other; the result is the meaning of the tree it stands for |
| `StoredImage.RepresentsOneTree` | pkg/image/fs.go:73-87 | entries with places in a body stand for one tree only |
| `PatchCodec.Merge` | pkg/image/merge.go:146-182 | merging two stored patches succeeds exactly when the image merge accepts the two entries, and its bytes are stored data for the merged entry |
| `ImageDiff.DiffApplyRoundTrip` | pkg/image/diff.go:437-528 | whatever a reader finds at the places of skipped files: the delta image applies to the old image if and only if each skipped file reads back as its content, and then it gives exactly the new image and is well-formed over the old one |
| `DiffPaths.DeltaEntryAt` | pkg/image/diff.go:345-399 | at every path, for any two images whose bodies can be read: a file that the scan comes to is SAME if and only if the old image has the same content there, with entries of the same names and types on the way; DIFF with the generated delta if and only if it has another one that is not empty, in binary mode; else NEW with its content. A file that the scan skips has none; everything else stays, and no entry is lost or made up |
| `DiffPaths.FullComparable` | pkg/image/diff.go:493-506 | between full images, two files at one path are always compared |
| `DiffPaths.DiffableExactly` | pkg/image/diff.go:461-467 | a diff is refused if and only if the scan comes to a SAME or DIFF entry |
| `ImageDiff.CoveredRoundTrip` | pkg/image/diff.go:461-528 | when no directory of recorded size zero holds content and empty files read back as empty, it always does |
| `ImageDiff.LayerDirectoryIsLost` | pkg/image/diff.go:469-472 | for a concrete image with a zero-sized directory the delta image applies if and only if the file in it reads back by chance |
| `ImageMerge.MergeSameMeaning` | pkg/image/merge.go:291-309 | an upper SAME file becomes the lower file with the upper's metadata, and means both |
| `ImageMerge.MergeDiffMeaning` | pkg/image/merge.go:102-182 | an upper delta is kept, applied or composed, depending on the lower file, and means both |
| `ImageMerge.MergedStandalone` | pkg/image/merge.go:254-266 | what is new in the upper image is taken over unchanged, and no lower entry is looked up below it |
| `ImageMerge.MergeMeansBoth` | pkg/image/merge.go:28-329 | for every base, every lower image over it and every upper image over the result, merging succeeds, stays well-formed over the base, and applies like the two in turn, at every path |
| `MergePaths.MergeableExactly` | pkg/image/merge.go:250-329 | for any two trees, merging succeeds if and only if at every path the upper entry finds the lower entry that its type needs, not hidden by a new directory, and the codec takes both |
| `MergePaths.MergedEntryAt` | pkg/image/merge.go:252-326 | for any two trees, at every path: the merged entry, with its kind, its body and where each of its metadata fields comes from |
| `ImageMerge.MergedVerifies` | pkg/image/merge.go:292-304 | if all directory digests of the upper image are right, all of the merged one are; at every path the merged image has an entry exactly where the upper one has, with the same digest |
| `ImageMerge.MergedMetadata` | pkg/image/merge.go:292-309 | over a lower image that suits its base, the merged image has the metadata of the upper one at every path |
| `FileEntries.FileEntry.UpdateDirFileEntry` | pkg/image/diff.go:437-459 | in place: the entry becomes the tree with updated directory types |
| `FileEntries.FileEntry.MergeChild` | pkg/image/merge.go:252-326 | in place, one name: the case split on the upper and lower types, with the work on the task it makes |
| `FileEntries.FileEntry.EnqueueMergeTasks` | pkg/image/merge.go:250-329 | in place, over lower nodes that move into the upper tree: succeeds exactly if the images can be merged, and the entry becomes the merged directory |
| `FileEntries.FileEntry.MergeDiffDimg` | pkg/image/merge.go:28-247 | in place: the upper tree becomes the merged image |
| `FileEntryDiff.DiffFileEntry` | pkg/image/diff.go:362-399 | in place: SAME exactly for equal contents, DIFF with the generated delta exactly for an old file that differs and is not empty in binary mode, else NEW |
| `FileEntryDiff.EnqueueDiffTasks` | pkg/image/diff.go:461-528 | in place, over an old tree that is only read: fails exactly if the scan meets an entry of a delta image, else the entry becomes the delta directory |
| `FileEntryDiff.GenerateDiff` | pkg/image/diff.go:210-435 | in place: the new tree becomes the delta image; after a failed scan only the directory types are set right |
| `FileEntryDigest.SealEntry` | pkg/image/pack.go:319-336 | in place: every directory below the entry gets the digest of its children, bottom up |
| `DiffSchedule.SendTasks` | pkg/image/diff.go:236-265 | the size-ordered scheduler sends every queued task once, those with an old file first, larger ones first within each group |
| `BodyPipeline.StepKeepsPlaces` | pkg/image/diff.go:210-429 | no step of the enqueuer, a worker or the writer loses or doubles a task |
| `BodyPipeline.RunInvariant` | pkg/image/merge.go:28-231 | the pipeline invariant holds in every state of every run |
| `BodyPipeline.RunIsSafe` | pkg/image/diff.go:423-427 | in every reachable state no task has been written twice, and none can be sent to the writer after its channel is closed |
| `BodyPipeline.FinishedLayout` | pkg/image/diff.go:268-318 | whatever the interleaving, at the end each entry's slice of the body is its own data, slices do not overlap and fill the body, and exactly the tasks with data have been written |
| `BodyPipeline.NeverStuck` | pkg/image/pack.go:24-111 | with a worker and room in the channels some step is possible until the writer is done |
| `BodyPipeline.EveryRunEnds` | pkg/image/pack.go:24-111 | every step uses up work, so every run ends |
| `ImageStorage.PipelineStoresTree` | pkg/image/merge.go:54-79 | after any finished run, the tree with the written offsets and sizes, next to the body, is a stored image of that tree |
| `DiffStorage.StoredDiffRoundTrip` | pkg/image/diff.go:210-435 | after any finished run over the tasks of a diff, the stored delta image can be installed over the old image if and only if every skipped file reads back, at its old place but in the new body, as its own content; installing then gives the new image |
| `DiffStorage.BodyHoldsChanges` | pkg/image/diff.go:362-366 | every byte of the delta body belongs to a file that the old image does not have with this content at its path, so an unchanged file takes no place |
| `DiffStorage.CoveredStoredRoundTrip` | pkg/image/diff.go:461-528 | when no directory of recorded size zero holds content, the stored delta image always gives the new image, empty files included |
| `DiffStorage.StoredLayerIsLost` | pkg/image/diff.go:469-472 | a concrete image with a zero-sized directory whose stored delta image cannot be installed |
| `ChainMerge.ChainSplit` | pkg/image/merge.go:338-367 | a chain over a base splits anywhere into a chain over the base and a chain over what that leaves |
| `ChainMerge.MergeStretches` | pkg/image/merge.go:338-367 | two merged neighbouring stretches can be merged, with the top id, the bottom parent id and the effect of both |
| `ChainMerge.BuiltTreeLeaves` | pkg/image/merge.go:475-492 | the leaves of the bisecting tree are the chain in order, with one merge less than leaves |
| `ChainMerge.BuiltTreeDepth` | pkg/image/merge.go:475-492 | its depth is the least that a binary tree over the chain can have |
| `ChainMerge.EveryBracketing` | pkg/image/merge.go:414-560 | along every tree over a stretch the merges succeed and the result does what the stretch does |
| `ChainMerge.LinearAndBisectAgree` | pkg/image/merge.go:414-473 | both ways of merging a chain give the same ids and the same effect on every base |
| `ChainMerge.MergeDimgsWithLinear` | pkg/image/merge.go:414-445 | in place: the bottom entry ends as the linear merge of the chain in the file of the last merge, or after a failure as the merge of the deltas below the one that failed; all others are left alone |
| `ChainMerge.StretchEndIsLargest` | pkg/image/merge.go:475-492 | among the tasks of the bisecting tree that start with a delta, the one up to `StretchEnd` is the largest |
| `ChainMerge.OverwrittenEnds` | pkg/image/merge.go:475-492 | which gives, for every chain, the whole chain at its top and nothing but itself at its bottom, so that of three deltas the first two are overwritten, of four the first and the third |
| `ChainMerge.RunMergeDimgTask` | pkg/image/merge.go:494-560 | in place, one merge at a time: every entry of a stretch ends as the result of the largest task that starts with it, in that merge's file, and as it was if that is a leaf; after a failure every entry still carries the result of some task that starts with it; entries outside are left alone |
| `ChainMerge.MergeDimgsWithBisect` | pkg/image/merge.go:456-473 | in place: fails on an empty chain, else exactly if the task tree fails; its result stands in the top entry, and the others are settled in the same way |
| `MergeSchedule.OrderDistinct` | pkg/image/merge.go:500-512 | the walk over the task tree comes to every task once |
| `MergeSchedule.OrderOfThree` | pkg/image/merge.go:494-512 | the walk over three deltas: bottom, middle, the merge of both, top, the merge of all |
| `MergeSchedule.UniqueParent` | pkg/image/merge.go:514-519 | a task is the child of one task, so its done channel has one reader |
| `MergeSchedule.StepKeepsInvariant` | pkg/image/merge.go:494-560 | every step of the walk or of a merge goroutine keeps slots, channels and entries in order |
| `MergeSchedule.RunIsSafe` | pkg/image/merge.go:494-560 | in every reachable state at most the limit of merges run, a merge has started only after both children reported, and no done channel is written twice or read more often than written |
| `MergeSchedule.FinishedRun` | pkg/image/merge.go:462-472 | a finished run leaves the result of the whole tree in the top entry and in every other one that of the highest task which starts there; every done channel was written once and read once |
| `MergeSchedule.NeverStuck` | pkg/image/merge.go:521-557 | with a limit of at least one, no state before completion is stuck |
| `MergeSchedule.EveryRunEnds` | pkg/image/merge.go:494-560 | every step uses up work, so every run ends |
| `Graphs.SettleInvariant` | pkg/algorithm/dijkstra.go:154-176 | processing a cheapest waiting node that is no goal keeps the search invariant |
| `Graphs.NextGoalIsCheapest` | pkg/algorithm/dijkstra.go:102-119 | a goal that comes up next costs no more than any walk to any goal |
| `Graphs.ExhaustedMeansNoGoal` | pkg/algorithm/dijkstra.go:106-109 | when no node is waiting, no goal can be reached clear of blocked nodes, and exactly the nodes that can be reached so are finished |
| `SearchHistory.FailuresAddUp` | pkg/algorithm/dijkstra.go:106-109 | over any history of additions and failed searches: what is blocked in the end is what was blocked before and what each search could reach in the graph of its time, clear of what was blocked then |
| `SearchHistory.SearchAfterFailures` | pkg/algorithm/dijkstra.go:94-119 | after such a history a search succeeds if and only if the graph by then has a way to one of its goals past every node that a failed search reached at its time |
| `SearchHistory.BlockedWaysFail` | pkg/algorithm/dijkstra.go:158-162 | whatever is added and searched for without success, a search all of whose ways pass a node blocked before fails |
| `SearchHistory.BlockedEndsFail` | pkg/algorithm/dijkstra.go:189-205 | so does one from a blocked node, or for goals that are all blocked |
| `SearchHistory.ClearedFindsAll` | pkg/algorithm/dijkstra.go:121-151 | with nothing blocked, as after every success, a search succeeds if and only if it can reach a goal |
| `SearchHistory.LeftBySearches` | pkg/algorithm/dijkstra.go:106-109 | without additions, failed searches leave blocked exactly what their starts can reach |
| `SearchHistory.SearchOnUnchangedGraph` | pkg/algorithm/dijkstra.go:94-119 | then a search succeeds if and only if it can reach a goal that none of them could reach, and all walks to such goals are open to it |
| `SearchHistory.FailureHidesReachableGoal` | pkg/algorithm/dijkstra.go:158-162 | three nodes in a row: after a failed search from the second, the third is not found from the first |
| `SearchHistory.EdgeAddedTooLate` | pkg/algorithm/dijkstra.go:69-86 | an edge added after a search from its source has failed: its target had not been reached, can be reached now, and is not found from there, but is found from another node with an edge to it |
| `Dijkstra.DirectedGraph.Add` | pkg/algorithm/dijkstra.go:69-86 | adds missing nodes and one edge, and leaves the marks between searches as they are, which is what a history says about an addition |
| `Dijkstra.DirectedGraph.Calc` | pkg/algorithm/dijkstra.go:154-176 | relaxes the edges of a node in order and finishes it |
| `Dijkstra.DirectedGraph.NextNode` | pkg/algorithm/dijkstra.go:178-209 | a cheapest node that is reached and not finished, in any map order, or none if there is none |
| `Dijkstra.DirectedGraph.TraceBack` | pkg/algorithm/dijkstra.go:121-132 | following `prev` and `via` ends at the start with a connected path of the recorded cost |
| `Dijkstra.DirectedGraph.ShortestPathWithMultipleGoals` | pkg/algorithm/dijkstra.go:94-151 | on whatever marks failed searches have left: success if and only if a walk clear of blocked nodes leads to a goal, and then a connected path of least cost among these walks, with no goal before its end and over the first of the cheapest edges between its nodes, and all marks cleared; a failure blocks, in addition, exactly what such walks lead to, which is what a history says about a search |
| `Store.GraphArcs` | pkg/image/store.go:110-112 | the graph built by adding headers has a node for every id mentioned and an arc for every header and nothing else |
| `Store.GraphInOrder` | pkg/image/store.go:110-112 | the arcs of a node are in the order in which the headers were added |
| `Store.FirstArcFirstStored` | pkg/algorithm/dijkstra.go:164-169 | so the first arc between two nodes is that of the delta stored first between the two images |
| `Store.UpdatableMeansOpen` | pkg/image/store.go:137-145 | a goal can be reached in the graph clear of blocked nodes if and only if a chain of stored deltas, clear of blocked ids, leads to it |
| `Store.BestChainIsSimple` | pkg/image/store.go:137-157 | a selected chain yields no image twice |
| `Store.ChildBeforeParent` | pkg/image/store.go:85-128 | for every image stored and asked for before its parent: once the parent is stored, both have a chain down to the empty base, and no request for either succeeds before some other request does |
| `Store.DimgStore.AddDimg` | pkg/image/store.go:85-115 | keeps graph and digest map in agreement, for every sequence of additions, and leaves the blocked ids as they are |
| `Store.DimgStore.EntriesOf` | pkg/image/store.go:147-154 | the entry of every edge on a path is found: the missing-entry error does not occur |
| `Store.DimgStore.GetDimgEntriesWithDimgIds` | pkg/image/store.go:137-157 | on whatever failed requests have left: success if and only if a chain clear of blocked ids leads to a goal; the chain is connected from the start to a goal, passes no goal earlier, no such chain to any goal is shorter, each delta is the first stored between its two images, and the entries are those that its digests lead to by now; a failure blocks exactly the ids that such chains lead to |
| `EndToEnd.ChainTurnsContent` | pkg/image/store.go:117-157 | a selected chain of faithful deltas turns the image it ended at into the requested one |
| `EndToEnd.PackedImageIsChain` | pkg/image/store.go:117-128 | a packed image without a parent is a faithful store by itself, and its selected chain down to the empty base |
| `EndToEnd.NoMergeFails` | pkg/image/merge.go:494-560 | no merge in the tree over a selected chain fails |
| `EndToEnd.OneDeltaChain` | pkg/image/store.go:137-157 | a selected chain is a single delta if and only if a stored delta leads from the image wanted to an image at hand, and empty if and only if the image is at hand |
| `EndToEnd.SelectAndMerge` | pkg/server/server.go:182-205 | the update request: success exactly if there is a chain clear of blocked ids and the image is not at hand already; the delta returned turns an image at hand into the requested one; the store agrees with itself afterwards if and only if the request failed or a single stored delta leads to an image at hand, and after a success each delta of the chain has the entry that the tree leaves it, all other deltas their own |
| `EndToEnd.TwoDeltaStore` | pkg/image/merge.go:541-557 | a faithful store in which the best chain has two deltas and no single one would do |
| `EndToEnd.StoredExactly` | pkg/image/merge.go:541-557 | after a merge, a delta of the chain is still stored under its digest if and only if no inner task starts with it |
| `EndToEnd.LaterRequestGetsMerged` | pkg/image/store.go:147-154 | after a merge, a later request that uses any delta of the merged chain is handed that delta, or else the file and header of the largest stretch merged into its entry, whose parent is not the image that the rest of the chain yields |
| `EndToEnd.ConcurrentMergeUpdates` | pkg/image/merge.go:456-560 | for every limit on concurrent merges and every interleaving, the top entry ends as the update, and every entry as the update over the largest stretch merged into it |
| `LazyRead.Di3fsNode.ReadBaseFiles` | pkg/di3fs/di3fs.go:66-114 | the loop over the lower entries returns the first new file patched by the deltas above it, or fails if there is none |
| `LazyRead.Di3fsNode.ReadFile` | pkg/di3fs/di3fs.go:125-172 | the content that the node's own entry and the lower entries stand for |
| `LazyRead.Di3fsNode.OpenFileInImage` | pkg/di3fs/di3fs.go:116-197 | succeeds exactly if the content can be read and the digest covers it and all fields, with the content in the open file and kept for later; else nothing is open |
| `LazyRead.Di3fsNode.Open` | pkg/di3fs/di3fs.go:199-214 | counts up whether or not it succeeds, and reads the file on the first of several opens only, so that later ones do not report a failure |
| `LazyRead.Di3fsNode.Release` | pkg/di3fs/di3fs.go:216-227 | counts down, closes the file on the last release, and keeps what has been written for later opens |
| `LazyRead.Di3fsNode.Read` | pkg/di3fs/di3fs.go:229-243 | while the node is open a read returns the bytes at its offset, as many as asked for or up to the end, or fails exactly if the content could not be read |
| `LazyRead.ChildBases` | pkg/di3fs/di3fs.go:281-291 | the entries of a child in the lower images, without the images that lack it |
| `LazyRead.ChildAligned` | pkg/di3fs/di3fs.go:281-292 | although images are dropped, entries and image bodies stay aligned down to the first one that needs nothing below |
| `LazyRead.LoadImages` | pkg/di3fs/di3fs.go:414-434 | opens images up to the first without a parent |
| `LazyRead.BestChainIsLoaded` | pkg/di3fs/di3fs.go:414-434 | for a chain that the store selects, that is all of them |
| `LazyRead.MountIsEagerApply` | pkg/di3fs/di3fs.go:66-310 | for every stack, at every path, the mounted tree has an entry exactly if applying all images eagerly leaves one, with the same metadata and, for files, the same verified content |
| `LazyRead.ShownNodeReads` | pkg/di3fs/di3fs.go:349-372 | such a node can be opened and reads that content |
| `LazyRead.MountShowsRequestedImage` | pkg/di3fs/di3fs.go:406-434 | mounting the chain that the store selects for an image shows that image |
| `LazyRead.NodeFor` | pkg/di3fs/di3fs.go:281-310 | the node at a path, made by going down from the root, has the entries of that path, newest first, next to the bodies of all images |
| `LazyRead.Do` | pkg/di3fs/di3fs.go:406-434 | on the files of a selected chain: all are opened, and at every path there is a node exactly if the image has one, with its metadata and, for files, its content |
| `LazyRead.MountRequested` | pkg/image/store.go:117-157 | from the request for an id to a node that can be read: for every store of faithful deltas, every id and every path |
| `LazyRead.Mount` | cmd/snapshotter/fs.go:52-78 | stores one delta image and mounts another: success exactly if a chain leads from the id asked for to the empty base, clear of what failed requests had blocked before the image was stored; every path then shows that image |

## Left out

- DeltaMergingBytes: the 32-byte header of a patch file and its compression are a parameter (`PatchCodec.Framing`); a patch is its new length and its control stream, and `ReadPatch`/`WritePatch` of the bsdiff library are not part of this model.
- MergeBlocks: positions are unbounded integers; 64-bit wrap-around is modelled where values are written and read.
- DiffApplyRoundTrip: DIFF bodies are the byte operations they stand for; how a generator finds them is a parameter.
- MergeMeansBoth: assumes one file codec per path; the panic on two different plugins, xdelta3 and plugin selection are not modelled.
- EnqueueMergeTasks: task creation and the worker's case split are one step per file here; that the order of the work does not matter to the body is the pipeline's theorem.
- EnqueueDiffTasks: fused in the same way, with the outcome of `bytes.Equal` and of the generator as values.
- ApplyPatchImpl: the tree left behind is a value; hard and symbolic links are leaf nodes, and following a symbolic link in the base is not modelled.
- FinishedLayout: runs without errors; the error and cancellation paths of the goroutines lose tasks on purpose.
- RunIsSafe: runs without errors, for the merge tree as well; a failed merge keeps its slot in the source.
- OpenFileInImage: the temporary file is its content.
- AddDimg: renaming and opening the file are left out; the header is given.
- MountIsEagerApply: inode wiring of hard links is left out; a hard link is an entry of its own.
- SelectAndMerge: uses the tree's merges one at a time; `ConcurrentMergeUpdates` covers all interleavings.
- `DimgStore.Walk`: its edges run against those of `AddDimg`, so the chain properties hold for stores built by `AddDimg` only.
- zstd and JSON encodings, the dimg and cdimg framing, tar and directory scanning, the snapshotter, FUSE server, HTTP, OCI pull and the command line are I/O or simple framing.
- File ownership and modes are numbers that are carried along; their widths are not modelled.
