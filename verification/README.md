# Verified cores of git

A Dafny model of eleven algorithmic cores of git, each proved against an independent
description of what it is for. `dafny verify dfyconfig.toml` checks everything.

| source file | what is modelled | modules |
|---|---|---|
| `git/blame.c` | the fuzzy line matcher of ignored revisions; passing blame to a parent over a diff | `Fingerprints`, `FuzzySpec`, `FuzzyRule`, `FuzzyMatch`, `BlameSpec`, `BlameNodes`, `BlamePass` |
| `git/cache-tree.c` | the cache of tree hashes beside the index, and its format on disk | `IndexSpec`, `CacheTrees`, `CacheTreeFormat` |
| `git/cbtree.c` | the crit-bit tree | `CritBitSpec`, `CritBitTree` |
| `git/combine-diff.c` | merging lost lines, and folding parents into a combined diff | `LineMerge`, `CoalesceLines`, `CombineSpec`, `CombineDiff` |
| `git/bisect.c` | weights of suspects and the choice of the next commit to try | `BisectGraph`, `BisectFill`, `Bisect` |
| `git/apply.c` | line images, the search for a hunk's place, white space ignored or not, applying and reversing | `ImageLines`, `FindPosition`, `FuzzyImages`, `HunkText`, `HunkPrint`, `HunkPlace`, `PatchSteps`, `ApplyPatch` |
| `git/add-patch.c` | counting, splitting and merging hunks | `SplitHunk` |
| `git/bundle-uri.c` | fetching bundles by creation token, and unbundling a list | `BundleFetch` |
| `git/attr.c` | the reused directory stack, macros and filling | `AttrFill`, `AttrOrder`, `Attributes` |
| `git/base85.c` | base 85 with its 32-bit overflow check | `Base85` |
| `git/alias.c` | quoting and splitting a command line | `CommandLine`, `CommandSpelling` |

Code that changes things in place is written as classes and loops (arrays of the matcher's
cache, linked nodes of the crit-bit tree, of the lost lines and of the blame entries, the
image buffer with its line table, the command line rewritten in its own memory); the functions they are proved
against are ghost or pure. Object hashing, diffs, pattern matching, downloads and unbundling
are function-valued parameters, so the results hold for every choice of them.

Main results, one per core:

- `FuzzyMatch.FuzzyFindMatchingLines`: the matcher with its banded cache and selective
  invalidation returns what a matcher without any cache returns, and never reorders lines.
  What that is, `FuzzyRule.Follows` tells from the fingerprints alone: of all lines the first
  with the greatest 2 * best - second is placed, and parts the others.
- `BlamePass.PassBlameToParent` with `BlameSpec.Conserved`, `BlameSpec.TextPreserved`: the
  entries are cut and relinked in place; blame is neither lost nor invented, and goes to a
  line with the same text.
- `CacheTrees.IndexState`: over every run of edits and updates, the cache tree agrees with
  the index, and an update yields the root that hashing from scratch yields.
- `CacheTreeFormat.WriteAndRead`, `CacheTreeFormat.ReadCutOff`: reading undoes writing, and
  every proper prefix of what was written is refused.
- `CritBitTree.Tree`: the tree refines a map from keys to nodes, listed in byte order.
- `CoalesceLines.Coalesce` with `LineMerge.MergeIsShortest`: lists of lost lines are merged
  into a shortest common supersequence, in place; with `LineMerge.MergeBaseFirst` for which
  of them.
- `CombineDiff.Combine` with `CombineSpec.ExactlyUpTo32`: each parent file and its line
  numbers can be rebuilt from what is folded together, whatever the parents and diffs are,
  exactly if there are at most 32 parents.
- `Bisect.Bisection.FindBisection`: every known weight is exact, the loop ends after a number
  of passes that the graph and the order of the list determine, and the choice divides the
  suspects best exactly if a best one is known by then.
- `FindPosition.FindPos`, `HunkPlace.ApplyOneFragment`, `ApplyPatch.ApplyAndReverse`: the
  nearest fitting place with the most context is found, each place being tried once; with
  white space ignored the common lines stay as they are in the file; a patch applied and
  reversed restores the bytes exactly if no newline is missing inside the new file. What the
  text of a hunk stands for is told by printing it (`HunkPrint.ParsePrint`).
- `SplitHunk.FileDiff.Split`, `SplitHunk.PiecesMerge`: a hunk falls into one piece per run of
  changes, or ends in an internal error, and the pieces merge back into it, each under an
  exact condition.
- `BundleFetch.TokenFetch.FetchByToken`: the walk over the bundles ends whatever downloads
  and unbundling do, and the token stored is the right one; a log of the visits tells which
  bundles were unbundled or lost, and where the walk turned.
- `Attributes.AttrCheck.Collect`: over every sequence of queries the answers are those of a
  freshly built stack scanned to its end. `AttrOrder.LastSettingCounts` and
  `AttrOrder.AnswerIsFirst` say which setting gives each answer.
- `Base85.BytesComeBack`, `Base85.TextComesBack`, `CommandLine.SplitQuote`, `CommandSpelling.SplitSpelled`:
  round trips, the last for every spelling of the arguments; `CommandSpelling.Refused` has
  the lines that are refused.

Where code and documentation disagree, the code is modelled:

- The check of the index before an update compares neighbours only, and its comment
  (`git/cache-tree.c:190-193`) says that a file and the directory of the same name are always
  neighbours. They are not (`CacheTrees.VerifyMissesConflict`); `CacheTrees.ConflictSeen`
  says exactly when the pair is seen. The cache tree does not rely on it: all results hold
  for every sorted index with distinct paths.
- A line that a parent shares with earlier ones gets its bit by shifting an `int`
  (`git/combine-diff.c:260`), while all other masks are `unsigned long`. For parent 31 the
  sign spreads over the bits of parents 32 to 63. `CombineDiff.CombineCrowd` folds in 33
  parents of which the last gets a line that it does not have; `CombineSpec.ExactlyUpTo32`
  shows that up to 32 parents nothing goes wrong, and from 33 on it can, whatever a compiler
  makes of larger shifts.
- The counter in `do_find_bisection` counts merges that change nothing in the tree, while its
  bound does not. So the fill loop may end with weights missing, and the search may pick a
  commit that is not a right choice, that is, one that changes the tree and divides the
  suspects best or nearly in halves: `Bisect.SearchStrand` is a history where it does.
  Such merges stay in the list only in walks that do not simplify, such as
  `rev-list --bisect --full-history --sparse -- path`.
  `BisectFill.PickedExactly` says exactly when the pick is right, on every graph and for every
  order of the list. For a list with parents before children, as a walk in topological order
  gives it, `BisectFill.ReachableInOrder` says it by what is there before the search: the
  counter starts below the bound, or some right choice does not have exactly one interesting
  parent. `BisectFill.SeesEnoughExactly` does the same for all weights being known.
- Pieces of a split hunk merge back only if the first piece has a new-side line before the
  second one starts: context in front, or an added line in the first run
  (`SplitHunk.PiecesMerge`). `SplitHunk.SplitAndMerge` splits a hunk whose pieces, both
  selected, do not merge.
- An empty context line is printed without its space under `diff.suppressBlankEmpty`. The
  parser of hunks does not count the run that such a line ends, and splitting a hunk reports
  an internal error when it comes to one (`SplitHunk.SplitBlank`).
  `SplitHunk.CountSplittable` says exactly when the count is the number of runs, and
  `SplitHunk.FileDiff.Split` exactly which hunks lead to the error: those with such a line
  before the last piece starts.
- A patch with a line that lacks its newline inside the new file can be applied, but what is
  written is then cut into fewer lines, and the patch in reverse does not lead back
  (`ApplyPatch.ApplyJoining`). `ApplyPatch.ApplyAndReverse` says exactly which patches do.
- Line numbers are mapped between chunks in `int`. `FuzzySpec.MapsRightIn32` says exactly for
  which chunks the product is not too large; the other results on the matcher are for these.
- Quoting no arguments and splitting the result gives one empty argument
  (`CommandLine.SplitNothing`).

One precondition is shown to be needed: the walk over bundles starts at one that is not yet
marked unbundled, as in a list just read. `BundleFetch.LeadsOn` shows that a first bundle
already marked is the only thing that could keep the walk in place, and
`BundleFetch.NeverEnds` that it would.

## Model

| member | source | states |
|---|---|---|
| `Fingerprints.Similarity` | git/blame.c:459-474 | walking one fingerprint's entries gives the size of the multiset intersection |
| `Fingerprints.Subtract` | git/blame.c:478-496 | removes entries as multiset difference does |
| `Fingerprints.SimilarityMonotone` | git/blame.c:459-496 | spending a fingerprint never makes another line more similar to it |
| `FuzzySpec.MappingSpread` | git/blame.c:548-555 | two target lines further apart than the bound used for invalidation have disjoint windows in the parent, for every line mapping, in unbounded numbers |
| `FuzzySpec.MapsRightIn32` | git/blame.c:548-555 | with 32-bit wrap-around every line of a chunk is mapped to the same line if and only if the product for the last one fits |
| `FuzzySpec.DistanceFitsIn32` | git/blame.c:958-969 | then the products for the bound and for the size of the cache fit, too |
| `FuzzySpec.SpreadTwo` | git/blame.c:961-962 | the exact floor and ceiling arithmetic behind it, for any pair of lines |
| `FuzzySpec.ScanIsBest` | git/blame.c:655-694 | one left-to-right scan of the window finds the greatest similarity, its first line, and the greatest among the others |
| `FuzzySpec.ScanUnique` | git/blame.c:666-694 | any two such answers agree on everything the matcher uses |
| `FuzzySpec.ScanSurvives` | git/blame.c:845-872 | a scan stays right on a smaller window and poorer fingerprints if its best and second lines are untouched |
| `FuzzySpec.ReferenceInOrder` | git/blame.c:761-910 | matches of the cache-free matcher never go backwards and stay in the parent's range |
| `FuzzyRule.ScanLikest` | git/blame.c:655-694 | the scan finds the first line with the greatest number of shared pairs times 1000 less the distance, and the greatest such product of any other line |
| `FuzzyRule.SureIs` | git/blame.c:696-714 | a line is as sure of a place as certainty says, if and only if the place is its best: twice the best product less the next |
| `FuzzyRule.SurestIs` | git/blame.c:781-803 | the line picked is the first with the greatest 2 * best - second among all lines that share anything |
| `FuzzyRule.AllHopeless` | git/blame.c:696-702 | nothing is picked if and only if no line shares a pair with any line it is compared with |
| `FuzzyRule.ReferenceFollows` | git/blame.c:761-910 | the cache-free matcher follows the rule, told without its scans: the surest line is placed and its pairs taken from the parent's line, then come the lines before it, up to that line, then those behind, from it on |
| `FuzzyRule.FollowsUnique` | git/blame.c:761-910 | the rule leaves no choice in matches or fingerprints |
| `FuzzyRule.SingleBeforeDouble` | git/blame.c:703-712 | X with one match of 3 comes before Y with two of 5, and that before Z with one of 2 |
| `FuzzyMatch.Matcher.CachedSimilarity` | git/blame.c:594-603 | a cell read from or written to the banded cache is the similarity under the current fingerprints |
| `FuzzyMatch.Matcher.ScanWindow` | git/blame.c:655-694 | the scan through the cache equals the scan of recomputed values, and touches one row |
| `FuzzyMatch.Matcher.FindBestLineMatches` | git/blame.c:632-727 | the line's certainty, match and second best are those of a fresh scan; written out: nothing if it shares no pair with a line in its window, else its first best line and twice the best product less the next |
| `FuzzyMatch.Matcher.CalculateLines` | git/blame.c:781-800 | picks the first most certain line of the range |
| `FuzzyMatch.Matcher.InvalidateSimilarities` | git/blame.c:815-843 | every cell that the spent fingerprint can change is forgotten, no other row is touched |
| `FuzzyMatch.Matcher.DiscardBefore` | git/blame.c:851-861 | exactly the earlier lines whose best or second match is no longer below the chosen one are recalculated |
| `FuzzyMatch.Matcher.DiscardAfter` | git/blame.c:862-872 | the same for later lines |
| `FuzzyMatch.Matcher.Settle` | git/blame.c:805-872 | after subtracting and invalidating, the cache is right for the first half, and will be for the second |
| `FuzzyMatch.Matcher.Recurse` | git/blame.c:761-910 | matches and remaining fingerprints equal those of the cache-free matcher; rows outside the range are untouched |
| `FuzzyMatch.ChunkGeometry` | git/blame.c:952-963 | the search distances chosen for a chunk are at most 10, inside the chunk, and spread wide enough |
| `FuzzyMatch.ChunkPlaces` | git/blame.c:526-555 | a line is expected exactly where its middle falls when the chunk is stretched onto the parent's; the search distance is 10, or one less than a shorter chunk |
| `FuzzyMatch.MatchRange` | git/blame.c:964-998 | a fresh cache leads to the reference outcome on every range |
| `FuzzyMatch.FuzzyFindMatchingLines` | git/blame.c:921-998 | nothing for an empty parent chunk; otherwise the reference outcome, in order and within the parent chunk, and what the rule of `FuzzyRule.Follows` says |
| `BlameNodes.ReverseBlame` | git/blame.c:1613-1623 | relinks a list in place, reversed, in front of another |
| `BlameNodes.SplitBlameAt` | git/blame.c:1632-1646 | shortens the node, and a new node takes the lines from the cut on; no other node changes |
| `BlameSpec.CutCovers` | git/blame.c:1632-1646 | the two parts of a cut entry cover exactly its lines below and from the cut |
| `BlameSpec.LinesPairUp` | git/blame.c:1919-1930 | outside the hunks, parent and target lines correspond one to one, in order |
| `BlameNodes.PassBefore` | git/blame.c:1807-1841 | every node starting before the hunk is cut at it, given to the parent and hung in front of the list for it, what is cut off in front of another; no other list changes |
| `BlamePass.PassPart` | git/blame.c:1807-1846 | lines before the hunk, shifted, are appended to the parent's list in order; the others stay pending, in order |
| `BlameNodes.KeepWithin` | git/blame.c:1865-1895 | every node starting in the hunk is cut at its end and hung in front of the list that stays, what is cut off in front of another |
| `BlamePass.KeepPart` | git/blame.c:1848-1907 | lines inside the hunk are appended to the target's list in order, and the pending ones hang behind it |
| `BlamePass.Pass.BlameChunk` | git/blame.c:1798-1907 | one hunk cuts the pending entries into passed, kept and pending, line by line, overlapping entries included; the queues stay linked lists with the right tails |
| `BlamePass.Pass.BlameChunkCb` | git/blame.c:1919-1930 | the offsets must agree with the hunks before; then all lines up to this hunk's end are placed |
| `BlamePass.Pass.BlameRest` | git/blame.c:1962-1973 | the lines after the last hunk go to the parent, and both lists are sorted |
| `BlamePass.PassBlameToParent` | git/blame.c:1937-1973 | for every ascending hunk sequence: refused if and only if there are entries and the offsets disagree; every line counted where the diff puts it; two linked lists without common nodes, sorted with one suspect each |
| `BlameSpec.Conserved` | git/blame.c:1798-1973 | each pair of final and suspect line ends in exactly one list as often as it was there, at the matching line |
| `BlameSpec.TextPreserved` | git/blame.c:1937-1973 | if entries say the text of their suspect's lines, they still do afterwards |
| `CritBitSpec.BestFinds` | git/cbtree.c:16-27 | descending by critical bits ends at a stored key |
| `CritBitSpec.KeysAscend` | git/cbtree.c:99-109 | left to right, keys ascend in byte order |
| `CritBitSpec.HighBitTwiddle` | git/cbtree.c:55-59 | the bit trick isolates the highest differing bit |
| `CritBitSpec.InsertWellFormed` | git/cbtree.c:30-90 | inserting at the first differing bit keeps bits increasing downwards and shared prefixes |
| `CritBitSpec.InsertContents` | git/cbtree.c:30-90 | it adds the key and nothing else |
| `CritBitSpec.PrefixUnderTop` | git/cbtree.c:111-136 | the keys with a prefix are exactly those below the node where its bits run out |
| `CritBitTree.Tree.BestMatch` | git/cbtree.c:16-27 | the pointer walk ends at the leaf the bits lead to |
| `CritBitTree.Tree.Lookup` | git/cbtree.c:92-97 | found if and only if inserted; for a shorter key, the first with that prefix |
| `CritBitTree.Tree.Insert` | git/cbtree.c:30-90 | keeps the invariant; a duplicate, be it the very node, returns the existing node and changes nothing; otherwise the map gains one entry |
| `CritBitTree.Tree.FindTop` | git/cbtree.c:114-129 | finds the top node of a prefix and its best match |
| `CritBitTree.Tree.CbDescend` | git/cbtree.c:99-109 | visits a subtree's keys in order, up to the first break |
| `CritBitTree.Tree.Each` | git/cbtree.c:111-136 | visits exactly the keys with the prefix, ascending, until the callback breaks |
| `IndexSpec.BetweenHasBase` | git/cache-tree.c:303-341 | paths sorted between two paths of a directory are in it |
| `IndexSpec.RunIsUnder` | git/cache-tree.c:303-341 | so a directory's entries are one run of the index |
| `IndexSpec.ItemsInTreeOrder` | git/cache-tree.c:350-436 | a level is written in tree order, directories compared as name with a slash |
| `CacheTrees.SubtreePos` | git/cache-tree.c:55-74 | binary search: the subtree's place, or where it belongs |
| `CacheTrees.FindOrCreate` | git/cache-tree.c:76-101 | the subtree is there afterwards, the array still sorted, nothing else changed |
| `CacheTrees.DoInvalidatePath` | git/cache-tree.c:109-153 | after any edit at the path, the tree agrees with the new index, its root invalid |
| `CacheTrees.DiscardUnused` | git/cache-tree.c:215-230 | keeps exactly the used subtrees, in order |
| `CacheTrees.UpdateSubtrees` | git/cache-tree.c:291-341 | every subdirectory of the run has an up-to-date used subtree |
| `CacheTrees.WriteLevel` | git/cache-tree.c:350-436 | the buffer holds the tree object that the index defines for this directory |
| `CacheTrees.UpdateOne` | git/cache-tree.c:251-464 | the node agrees with the index and covers all its entries, whatever was cached |
| `CacheTrees.IndexState.constructor` | git/cache-tree.c:475-476 | starts without a cache tree |
| `CacheTrees.IndexState.Edit` | git/cache-tree.c:155-159 | an edit with its invalidation keeps the agreement |
| `CacheTrees.IndexState.VerifyCache` | git/cache-tree.c:184-213 | accepts if and only if no two neighbours conflict |
| `CacheTrees.IndexState.CacheTreeUpdate` | git/cache-tree.c:466-493 | keeps the agreement; on success the root has the oid and count of hashing the whole index from scratch |
| `CacheTrees.VerifyMissesConflict` | git/cache-tree.c:184-213 | a sorted index with a conflict that no pair of neighbours shows |
| `CacheTrees.ConflictSeen` | git/cache-tree.c:184-213 | a conflict is seen next to the file if and only if no name that sorts before the slash comes between |
| `CacheTreeFormat.WriteOne` | git/cache-tree.c:495-533 | appends the encoding of a node and all below |
| `CacheTreeFormat.Strtol` | git/cache-tree.c:563-570 | reads a printed number back and stops right after it |
| `CacheTreeFormat.ReadCounts` | git/cache-tree.c:563-577 | reads the two counts, or refuses when they are cut off |
| `CacheTreeFormat.ReadHeader` | git/cache-tree.c:552-577 | the same with the name in front |
| `CacheTreeFormat.ReadFront` | git/cache-tree.c:552-584 | name, counts and the oid of a valid node |
| `CacheTreeFormat.AddSubtree` | git/cache-tree.c:76-107 | keeps the array sorted; a later name is appended |
| `CacheTreeFormat.ReadSubtree` | git/cache-tree.c:603-615 | reads and adds one subtree, or refuses |
| `CacheTreeFormat.ReadSubtrees` | git/cache-tree.c:603-617 | rebuilds all subtrees in order, or refuses |
| `CacheTreeFormat.ReadOne` | git/cache-tree.c:542-624 | on any text: ends, and if a node was written there in full, rebuilds it and stops at its end; if its end is missing, refuses |
| `CacheTreeFormat.WriteAndRead` | git/cache-tree.c:535-540 | whatever follows, reading gives back counts, valid oids and subtrees, consuming exactly the bytes written |
| `CacheTreeFormat.ReadCutOff` | git/cache-tree.c:626-638 | no proper prefix of a written tree is accepted |
| `LineMerge.MergedLength` | git/combine-diff.c:231-300 | the traced merge has length base plus new minus longest common subsequence |
| `LineMerge.SupersequenceBound` | git/combine-diff.c:193-314 | no common supersequence is shorter than that |
| `LineMerge.MergeIsShortest` | git/combine-diff.c:193-314 | the merge contains both lists in order and is shortest among all that do |
| `LineMerge.MergeBaseFirst` | git/combine-diff.c:231-249 | of the shortest merges it is one where, between two common lines, base lines come before new ones, as a tie goes to the new list reading backwards |
| `LineMerge.MergeLinesOf` | git/combine-diff.c:258-300 | lines with the new parent's bit spell the new list, and those of any parent whose bit a match does not set are unchanged |
| `LineMerge.MergedEmbeds` | git/combine-diff.c:258-300 | the base lines keep their order and earlier bits, gaining at most those of a match |
| `LineMerge.MergeIntoNone` | git/combine-diff.c:205-208 | an empty base takes the new list as it is |
| `LineMerge.MergeWithNone` | git/combine-diff.c:202-203 | nothing new leaves the base as it is |
| `CoalesceLines.FillTables` | git/combine-diff.c:221-249 | the table of directions is that of the longest common subsequence |
| `CoalesceLines.Unlink` | git/combine-diff.c:268-275 | takes one node out, links consistent |
| `CoalesceLines.LinkIn` | git/combine-diff.c:280-294 | puts one node in, links consistent |
| `CoalesceLines.TakeNew` | git/combine-diff.c:265-294 | moves a node from the new list into the base |
| `CoalesceLines.Trace` | git/combine-diff.c:255-300 | following the directions relinks the base into the merge, a match setting the bits of the shifted `int` |
| `CoalesceLines.Coalesce` | git/combine-diff.c:193-314 | a doubly linked list of old nodes whose contents are the merge with the bits of the shifted `int`, and its length |
| `CombineDiff.DiffState.ConsumeHunk` | git/combine-diff.c:376-408 | which line gets the lost lines, and the one line number recorded |
| `CombineDiff.DiffState.ConsumeLine` | git/combine-diff.c:410-425 | a lost line goes to the bucket, an added one flags the result line |
| `CombineDiff.DiffState.Feed` | git/combine-diff.c:443-462 | after any hunks, each result line has exactly the pending lines, flag and number that the hunks give it |
| `CombineSpec.FedByAll` | git/combine-diff.c:376-462 | if the hunks are a diff, pending lines and unflagged result lines spell the parent |
| `CombineDiff.CountLost` | git/combine-diff.c:485-491 | counts the lines of one parent |
| `CombineDiff.NumberLine` | git/combine-diff.c:471-494 | one line coalesced and numbered, and the number of the next |
| `CombineDiff.AssignNumbers` | git/combine-diff.c:471-495 | every line is coalesced, and its number is one plus the parent's lines before it as they can be rebuilt |
| `CombineSpec.FoldedNew` | git/combine-diff.c:427-496 | the new parent can be rebuilt, with its numbers |
| `CombineSpec.FoldedOther` | git/combine-diff.c:427-496 | parents folded before whose bits a match does not set still can |
| `CombineSpec.FoldedShared` | git/combine-diff.c:885-910 | a parent that takes over another one's bits can be rebuilt as that one, and the others still can |
| `CombineDiff.CombinedDiff.constructor` | git/combine-diff.c:1160-1188 | lines without parents |
| `CombineDiff.CombinedDiff.Fold` | git/combine-diff.c:427-496 | for every parent number: the result lines with the diff fed in, coalesced with the bits of the shifted `int`, and numbered |
| `CombineDiff.CombinedDiff.Reuse` | git/combine-diff.c:885-910 | every lost line and flag of the one parent is also the other's, and every number |
| `CombineDiff.FindSame` | git/combine-diff.c:1190-1198 | the first parent that is the same, itself if there is none before |
| `CombineDiff.Combine` | git/combine-diff.c:1190-1207 | all parents in turn; for up to 32 of them lost and unflagged lines interleave to each file, and numbers are right |
| `CombineSpec.CombinedFolds` | git/combine-diff.c:1190-1207 | after each of up to 32 parents, all so far can be rebuilt and nothing is there of those to come |
| `CombineSpec.CrowdFails` | git/combine-diff.c:260 | for every larger number of parents, a family of files and diffs where parent 32 cannot be rebuilt |
| `CombineSpec.ExactlyUpTo32` | git/combine-diff.c:1190-1207 | all families of n parents can be rebuilt if and only if n is at most 32 |
| `CombineDiff.CombineCrowd` | git/combine-diff.c:260 | folding in 33 such parents leaves parent 32 with a line that is not its own |
| `BisectGraph.ReachLeast` | git/bisect.c:42-67 | reachability is the least set closed under interesting parents |
| `BisectGraph.WeightAlone` | git/bisect.c:289-301 | the weight of a commit without interesting parents |
| `BisectGraph.WeightSingle` | git/bisect.c:362-377 | with one interesting parent, its weight plus one if the tree changes |
| `BisectGraph.ReachInList` | git/bisect.c:275-392 | suspects reach only suspects |
| `Bisect.Bisection.CountDistance` | git/bisect.c:42-67 | marks what is reachable and not yet marked, and counts its tree-changing commits |
| `Bisect.Bisection.ClearDistance` | git/bisect.c:69-76 | removes the marks of a list |
| `Bisect.Bisection.MeasureMerge` | git/bisect.c:334-335 | the count is the weight, and no mark is left |
| `Bisect.Bisection.CountInterestingParents` | git/bisect.c:93-105 | counts interesting parents, all or the first only |
| `Bisect.Bisection.Initialize` | git/bisect.c:284-309 | weights of the simple cases, and how many are ticked |
| `Bisect.Bisection.ApproxHalfway` | git/bisect.c:107-137 | says yes if and only if the commit changes the tree and divides the suspects evenly up to one, or up to a 1024th |
| `Bisect.Bisection.CountMerges` | git/bisect.c:327-342 | merges get exact weights and are counted, or one that is halfway is chosen; if none is chosen, none is halfway |
| `Bisect.Bisection.FillPass` | git/bisect.c:347-383 | exactly the commits of this pass get weights, which are exact, or one that is halfway is chosen |
| `Bisect.Bisection.Fill` | git/bisect.c:346-384 | the loop ends after as many passes as the graph and the order of the list say, or with a commit that is halfway |
| `BisectFill.CountedAll` | git/bisect.c:341-384 | without merges that change nothing, the loop stops only when all weights are known |
| `BisectFill.OnePass` | git/bisect.c:346-384 | with parents before children it makes one pass, or none if the counter starts at the bound |
| `BisectFill.SeesEnoughExactly` | git/bisect.c:327-384 | for such a list, something halfway is found or all weights are known if and only if a merge is halfway, the counter starts below the bound, or no tree-changing commit has a single interesting parent |
| `BisectFill.PickedExactly` | git/bisect.c:181-203 | the pick is a right choice if and only if a right choice has a known weight when the loop ends, or none has and the list begins with one |
| `BisectFill.PickedWell` | git/bisect.c:181-203 | with all weights known, or something halfway found, the pick is right |
| `BisectFill.ReachableInOrder` | git/bisect.c:275-392 | with parents before children the pick is right if and only if some right choice is in time: the counter starts below the bound, or the choice does not have exactly one interesting parent |
| `Bisect.Bisection.BestBisection` | git/bisect.c:181-203 | the most even of those with known weights; the head of the list if there is none |
| `Bisect.Bisection.DoFindBisection` | git/bisect.c:275-392 | known weights are exact on every graph; a halfway commit is picked if and only if the passes meet one, else the most even of those they reach, whose weights are exactly the known ones; for a list with parents first, exactly when all that is enough |
| `Bisect.SearchStrand` | git/bisect.c:394-444 | a history on which the search itself picks a commit that is not a right choice, because the counter starts at the bound |
| `Bisect.Bisection.Gather` | git/bisect.c:404-427 | exactly the interesting commits, in reversed order, and how many of them change the tree |
| `Bisect.Bisection.FindBisection` | git/bisect.c:394-444 | on every history: the commit picked, which is a right choice if and only if one is in reach of the loop, how many commits it reaches and how many there are; in particular it is right without merges that change nothing |
| `ImageLines.ComputeHash` | git/apply.c:284-294 | the 32-bit hash |
| `ImageLines.HashIgnoresSpace` | git/apply.c:284-294 | depends on non-space characters only |
| `ImageLines.FuzzyMatchLines` | git/apply.c:300-330 | true if and only if the lines agree after dropping line ends and squeezing runs of space |
| `ImageLines.MatchIsAligned` | git/apply.c:300-330 | lines match if and only if, without their ends, one becomes the other by exchanging non-empty runs of blanks |
| `ImageLines.FuzzyHash` | git/apply.c:284-330 | lines that match this way have equal hashes |
| `ImageLines.Image.AddLine` | git/apply.c:332-339 | one line more in buffer and table |
| `ImageLines.Image.RemoveFirst` | git/apply.c:2771-2777 | one line less at the front of buffer and table |
| `ImageLines.Image.RemoveLast` | git/apply.c:2779-2782 | one line less at the end |
| `ImageLines.Image.OffsetOf` | git/apply.c:2723-2725 | the byte offset of a line |
| `ImageLines.Image.Update` | git/apply.c:2789-2856 | replaces lines in buffer and table alike, marking them patched unless overlap is allowed |
| `ImageLines.SplitFlatten` | git/apply.c:346-370 | lines cut at newlines can be joined and cut again |
| `ImageLines.PrepareImage` | git/apply.c:346-370 | the table cuts the buffer into its lines |
| `FindPosition.HashRejectsNothing` | git/apply.c:2521-2569 | the check of hashes never rejects a place that matches exactly or up to white space |
| `FindPosition.HashCheck` | git/apply.c:2521-2525 | no line patched before, and all hashes equal |
| `FindPosition.FuzzyLines` | git/apply.c:2409-2437 | line by line at the right offsets, all lines match up to white space |
| `FuzzyImages.NextCommon` | git/apply.c:2374-2380 | skips what the hunk removes and stops at the next common line, which is there |
| `FuzzyImages.UpdatePostImage` | git/apply.c:2321-2407 | the new side keeps its added lines, and each common line becomes the corresponding one of the file; lengths follow, none is dropped |
| `FuzzyImages.SplitAgain` | git/apply.c:2341-2345 | lines cut again are never more, and the same if they are as many |
| `FindPosition.MatchFragment` | git/apply.c:2477-2569 | accepts if and only if place, hashes and lines agree |
| `FindPosition.Advance` | git/apply.c:2743-2767 | one place more on one side, in turns, offsets following line numbers |
| `FindPosition.Search` | git/apply.c:2723-2768 | finds the nearest accepted place, or that there is none, trying each place at most once |
| `FindPosition.FindPos` | git/apply.c:2683-2769 | the accepted place nearest to the clamped start, the later on ties; -1 if and only if none is accepted |
| `HunkText.ParseLine` | git/apply.c:2887-2983 | one line of a hunk goes to the images it belongs to, reversed or not, marked if it is common to both |
| `HunkText.ParseFragment` | git/apply.c:2863-2991 | the images hold the old and new lines of the hunk, the common ones marked; refused if and only if malformed |
| `HunkPrint.ParsePrint` | git/apply.c:2887-2983 | what was printed is read back exactly: every body, a blank context line with or without its space, a missing newline with its note, other header lines in between |
| `HunkPrint.BodyRefused` | git/apply.c:2962-2969 | a text is malformed if and only if some line begins with none of the six characters |
| `HunkText.RedoneFits` | git/apply.c:2321-2407 | the file's lines in place of the hunk's common ones give the new side adapted by the source's two counters |
| `HunkText.RedoneSame` | git/apply.c:2321-2407 | adapting to the very lines of the hunk changes nothing |
| `HunkPlace.KeptLess` | git/apply.c:3043-3058 | what is taken off both sides leaves the hunk with one line less of the larger context, or of both if they are equal |
| `HunkPlace.Locate` | git/apply.c:2993-3059 | ends with the nearest place for the hunk as it is; if there is none, anywhere; if there is none, with the most context for which there is one; -1 if and only if there is none down to the context asked for |
| `HunkPlace.Prepare` | git/apply.c:2527-2569 | at the place found, the new side stays as it is if the bytes agree, and is adapted to the file's white space otherwise; how many lines go; fails exactly where the lines of the place are fewer when cut again and there are new lines |
| `HunkPlace.ApplyOneFragment` | git/apply.c:2863-3117 | replaces and marks the old lines by the new at the fitting place nearest to the claim, with as much context as can be kept, the common lines as the file has them; refused if and only if the hunk is malformed or fits nowhere, and then changes nothing |
| `ApplyPatch.ApplyFragments` | git/apply.c:3248-3270 | hunk after hunk each goes where it should in the lines made so far, up to the first that cannot; ascending hunks that fit where they claim give the patched lines |
| `ApplyPatch.ReversePatches` | git/apply.c:2216-2232 | swaps the ranges of every hunk |
| `PatchSteps.ReverseFits` | git/apply.c:2216-2232 | the reversed hunks fit the result where they claim, and lead back, files made out of nothing or emptied included |
| `PatchSteps.ResultWellCut` | git/apply.c:346-370 | the result written out is cut into the same lines again if and only if no new line lacks its newline but the last of a hunk that ends the file |
| `ApplyPatch.ApplyAndReverse` | git/apply.c:2863-3117 | a patch that fits, applied and applied in reverse, restores the bytes, white space ignored or not, if and only if no newline is missing inside the new file |
| `ApplyPatch.ApplyJoining` | git/apply.c:2905-2907 | a patch with such a newline missing that does not lead back |
| `SplitHunk.CountSplittable` | git/add-patch.c:589-592 | counts the runs of changes ended by a context line with its space or by the end; these are all runs if and only if no run is ended by a blank line |
| `SplitHunk.RunsEnd` | git/add-patch.c:589-592 | every run ends in one of the two ways |
| `SplitHunk.ScanPieces` | git/add-patch.c:912-1069 | internal error if and only if a blank line comes before the last piece starts; else one piece per counted run, counts equal to the body's, neighbours sharing exactly the context between |
| `SplitHunk.OneStretch` | git/add-patch.c:912-1069 | a piece without blank lines holds exactly one run of changes |
| `SplitHunk.FileDiff.Split` | git/add-patch.c:912-1069 | the pieces replace the hunk and the others stay, or, exactly if a blank line is in the way, the internal error is reached |
| `SplitHunk.BlankAborts` | git/add-patch.c:956-1003 | a well-formed hunk with a blank line in the way |
| `SplitHunk.SplitBlank` | git/add-patch.c:956-1003 | splitting it reaches the internal error |
| `SplitHunk.NextOverlaps` | git/add-patch.c:774-785 | when the next piece continues what is merged |
| `SplitHunk.FileDiff.MergeHunks` | git/add-patch.c:749-874 | merges as the two lemmas below describe, and so exactly the longest stretch that continues the hunk; unselected hunks not at all |
| `SplitHunk.MergeLongest` | git/add-patch.c:764-873 | for any hunks in order: the longest stretch of selected hunks that continue one another becomes one hunk with the range and counts of all; stops where ranges of an edited hunk no longer overlap |
| `SplitHunk.PiecesMerge` | git/add-patch.c:749-874 | all pieces of a hunk give back its range and header if and only if a new-side line comes before the second |
| `SplitHunk.SplitAndMerge` | git/add-patch.c:749-1069 | a hunk that falls into two pieces which, both selected, do not merge |
| `BundleFetch.LeadsOn` | git/bundle-uri.c:543-609 | before the first move, the walk moves or stops whatever happens if and only if the bundle is not marked unbundled |
| `BundleFetch.NeverEnds` | git/bundle-uri.c:543-609 | otherwise it stays there |
| `BundleFetch.HeadingNext` | git/bundle-uri.c:543-609 | every move comes nearer to an end |
| `BundleFetch.TokenFetch.Visit` | git/bundle-uri.c:555-608 | one turn: download, unbundle, choose the direction; `BundleFetch.ExtendedLast` says what that comes to |
| `BundleFetch.ExtendedLast` | git/bundle-uri.c:555-608 | written out: a bundle with its file, or that is now fetched, and not marked is unpacked and marked if unbundling succeeds, and then the walk goes up; it goes down if that fails or the bundle is lost, which marks it, too; it goes straight on past a marked one, and halts at a file that is no bundle |
| `BundleFetch.MarkedAfter` | git/bundle-uri.c:543-609 | after any number of visits a bundle is marked if and only if it was before, or one of them unpacked it or found it lost |
| `BundleFetch.TokenFetch.FetchByToken` | git/bundle-uri.c:484-630 | ends for every oracle; with a token stored and no bundle newer nothing is done, and with none stored a newest token of 0 fails at once; on success all bundles down to the deepest visited are marked, the stored token is the greatest really unbundled and newer than before; on failure it stays; it succeeds if and only if the logged walk comes back up past the first bundle, and the bundles really unbundled are exactly those that some visit unpacked; if all goes well one visit is enough, and if nothing unpacks it fails |
| `BundleFetch.AttemptUnbundle` | git/bundle-uri.c:749-762 | finds a bundle that can be unbundled now, or there is none |
| `BundleFetch.UnbundleAll` | git/bundle-uri.c:764-779 | nothing more can be unbundled; if having more never hurts, everything that any order can unbundle is |
| `AttrFill.FillOne` | git/attr.c:1102-1119 | never leaves more attributes unknown, and ends even for cyclic macros; `AttrOrder.FillMeets` says what it fills in |
| `AttrFill.FillKeeps` | git/attr.c:1102-1150 | the first value set stays, through all macro expansions |
| `AttrFill.FillNothing` | git/attr.c:1102-1119 | with no value unknown, nothing changes, so stopping early is right |
| `AttrFill.FillAllNothing` | git/attr.c:1121-1140 | the same for all remaining rules |
| `AttrOrder.FillMeets` | git/attr.c:1102-1150 | filling from a rule is meeting its settings from the last to the first, each setting of a macro to true directly followed by the settings of the macro from the last on; only the first met for an attribute counts |
| `AttrOrder.AnswerIsFirst` | git/attr.c:1102-1206 | with any macros: an attribute has the value of the first setting met for it, over all rules from the last that applies on |
| `AttrOrder.LastSettingCounts` | git/attr.c:1102-1140 | if no rule that applies sets a macro to true: the value of the last setting in the last rule that applies and has one; unknown if and only if none has |
| `AttrOrder.LastDefinitionCounts` | git/attr.c:1157-1172 | the last definition of a macro is the one that counts |
| `AttrOrder.NoDefinition` | git/attr.c:1157-1172 | an attribute is no macro if and only if no rule defines it |
| `AttrOrder.TrueMacroSettles` | git/attr.c:1142-1150 | a macro that comes out true has settled every attribute of its definition |
| `Attributes.NextIsChild` | git/attr.c:1043-1057 | the next component of the path names a child of the top directory |
| `Attributes.FramesOnTheWay` | git/attr.c:1041-1067 | the frames are those of all directories above the path, each once with its own rules, from the root down |
| `Attributes.AttrCheck.Pop` | git/attr.c:1013-1031 | pops down to a directory above the path |
| `Attributes.AttrCheck.Push` | git/attr.c:1041-1067 | pushes the frames of the path's directories |
| `Attributes.AttrCheck.PrepareStack` | git/attr.c:982-1075 | from any earlier query, the stack is the one built from scratch |
| `Attributes.AttrCheck.FillOne` | git/attr.c:1102-1119 | fills as specified, and the count of unknown attributes is exact |
| `Attributes.AttrCheck.MacroExpandOne` | git/attr.c:1142-1150 | expands a macro that is set, the count exact |
| `Attributes.AllFilled` | git/attr.c:1121-1140 | stopping when nothing is unknown gives what a full scan gives |
| `Attributes.AttrCheck.Fill` | git/attr.c:1121-1140 | the values of a scan with no early exit |
| `Attributes.AttrCheck.DetermineMacros` | git/attr.c:1157-1172 | the innermost, last definition of each macro |
| `Attributes.AttrCheck.DirLen` | git/attr.c:1187-1198 | where the directory part ends, a slash at the very end not counting |
| `Attributes.AttrCheck.Collect` | git/attr.c:1179-1206 | for every sequence of paths, absolute ones included, the answer of a fresh stack; which setting that is, `AttrOrder.AnswerIsFirst` says |
| `Base85.DigitOfChar` | git/base85.c:16-39 | each digit's character has that digit |
| `Base85.CharOfDigit` | git/base85.c:16-39 | and no other character has one |
| `Base85.Prep` | git/base85.c:30-39 | the table holds the digit of every byte, filled once |
| `Base85.OverflowExact` | git/base85.c:61-65 | the two-part check refuses exactly the values of 2^32 and more, wrap-around included |
| `Base85.ReadGroup` | git/base85.c:47-65 | a group is accepted if and only if all five are digits and the value is below 2^32 |
| `Base85.Unpack` | git/base85.c:68-73 | rotating out the bytes, at most as many as asked for |
| `Base85.Decode85` | git/base85.c:41-78 | decodes as specified, for every text and length |
| `Base85.Pack` | git/base85.c:84-91 | up to four bytes make a word, missing ones zero |
| `Base85.Spell` | git/base85.c:93-97 | the five digits, most significant first |
| `Base85.Encode85` | git/base85.c:80-103 | encodes as specified |
| `Base85.ValueOfChars` | git/base85.c:93-97 | spelling a word gives digits of its value |
| `Base85.CharsOfValue` | git/base85.c:47-65 | five digits are the spelling of their value |
| `Base85.BytesComeBack` | git/base85.c:41-103 | decoding an encoding gives the bytes back, for every length and whatever follows |
| `Base85.TextComesBack` | git/base85.c:41-103 | for lengths divisible by four, encoding what was decoded gives the text back |
| `CommandLine.QuoteCmdline` | git/alias.c:50-65 | each argument quoted, one space between |
| `CommandLine.SplitCmdline` | git/alias.c:76-130 | parsing in place, up to the NUL, yields the arguments of the original line, or its error; no character is overwritten before it is read; what these are, `CommandSpelling.SplitSpelled` and `CommandSpelling.Refused` say |
| `CommandLine.SplitQuote` | git/alias.c:50-130 | splitting undoes quoting, for every non-empty vector of NUL-free strings below the limit |
| `CommandLine.SplitNothing` | git/alias.c:50-130 | the empty vector comes back as one empty argument |
| `CommandSpelling.PieceRead` | git/alias.c:85-112 | text as it is, behind backslashes, between single quotes (backslashes included) or between double quotes stands for itself |
| `CommandSpelling.SplitSpelled` | git/alias.c:76-130 | arguments put together from such pieces in any mixture, with any blanks between them, are split into just these; blanks at an end give an empty argument |
| `CommandSpelling.Refused` | git/alias.c:101-119 | a line is refused for its ending if and only if its last character is a backslash outside single quotes with none in force before it, and for a quote if and only if one is open at its end |

## Left out

- Blame: detection of moved and copied lines, passing blame of ignored revisions through the matcher, reference counts and the order of commits.
- BlameNodes.KeepWithin: the list of entries held back for ignored revisions is not modelled, so every node in the hunk stays with the target.
- BlamePass.KeepPart: the same.
- BlamePass.Pass.BlameChunk: the same.
- BlamePass.PassBlameToParent: the same.
- Fingerprints: computing them from text (pairs of characters in a hash table); the matcher holds for all fingerprints.
- CacheTrees.UpdateOne: sparse directories, intent-to-add and removed entries, missing-object checks, repair and dry-run modes are not modelled.
- Cache tree: unmerged entries. Nodes are values with one owner; the hash of a tree object is a parameter.
- CacheTreeFormat.Strtol: gives the end of the text where the C function would look past the buffer, and does not model overflow of the number.
- CombineSpec.ExactlyUpTo32: masks have a bit for every parent; that `unsigned long` has 64 is not modelled, as it only concerns numbers of parents that fail already.
- Combined diff: comparison that ignores white space, deleted results, printing. Within `CombineDiff` lost lines are sequences; `CoalesceLines` has the linked list.
- Bisect: listing all candidates sorted by distance, skipped commits, debug output. Commits are numbered with parents first, which every acyclic history allows.
- Apply: zero-context patches, white space repair, old lines beyond the end of the file, additions refused by option, binary patches, three-way merge, headers and names. Images hold lines of which only the end can be a newline, as they are cut.
- FindPosition.MatchFragment: does not model the white space correction that repairs both sides; the adaption to the file's white space follows in `HunkPlace.Prepare`, once the place is found, since only an accepted place is adapted to.
- FindPosition.FuzzyLines: old lines beyond the end of the file are not modelled.
- HunkPlace.Prepare: takes a new side that has lines, but no byte in them, to abort like any other.
- HunkPlace.Locate: where context may be reduced, asks that the hunk begins and ends with the context it counts, as the parser of patches counts it.
- ApplyPatch.ApplyFragments: stops at the first hunk that cannot be applied; writing rejects and going on is not modelled.
- ApplyPatch.ApplyAndReverse: that a missing newline keeps the patch from leading back is shown for the default of full context.
- Hunk editor: edited hunks, coloured text, header parsing, the interactive loop. Offsets are counted in lines of the body.
- SplitHunk.FileDiff.MergeHunks: stops at a hunk whose text an edit has moved, where the source compares and copies lines.
- Bundles: protocols, nested lists, parsing tokens, sorting the list by token (it is given sorted).
- Attributes: parsing attribute files, pattern matching, built-in attributes, threads; the set of attribute names is fixed while queries run.
- Base85, command lines: buffers given by the caller are sequences, except the line that is parsed in place; reading aliases from the configuration.
- Other parts of git, which would only add easier members or depend on the file system and the network.
