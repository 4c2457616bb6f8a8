# A model of the syntax-tree runtime and its neighbours

This project models the parts of the repository with the most state, and proves what they promise:

- **The syntax-tree store** (`subtree.c`, `tree.c`, balancing in `parser.c`): reference-counted nodes
  shared between handles, edits pushed down the tree in place or on copies, release by worklist, and
  repeat chains rotated in place. `SyntaxTrees`, `EditSpec` and `Summaries` say what trees, edits and
  summaries mean as values; `SubtreeMemory` is the memory they live in; `TreeStore` is the class whose
  methods change it; `EditInMemory`, `Reclamation`, `Rotations`, `Fragility` and `Balancing` hold the
  invariants that tie the two together. `Compressions` says exactly what memory a compression and a
  balancing walk end in, `NewDepths` which repeat depths it leaves, `StaleDepths` is a tree on which
  that goes wrong, and `TreeHandles` joins the store with the `IncludedRanges` that every handle keeps
  of its own.
- **The graph-structured parse stack** (`stack.c`): `StackGraph` (paths and consistency), `StackMerging`
  and `StackCircles` (what merging keeps, and when it closes a circle), `StackPops` and `PopWalks` (what
  a pop finds, and what it leaves out) and the class `ParseStack`; `CircularMerge` and `LostPaths` are
  the stacks on which that goes wrong.
- **Navigation by cached counts** (`tree_cursor.c`, `node.c`, `reusable_node.h`): `TreePaths` and
  `VisibleLists` are the plain lists, `TreeCursor`, `NodeChildren` and `ReusableNodes` the walkers.
  `TextPoints` says why an edited tree may still be walked.
- **Small machines**: `RangeDifferences`, `WasmAllocator`, `ParseTables`, `RawStrings`, `Reranking`
  and `IndexCaches`.

How the model reads the code:

- Pointers are keys of an explicit map from references to nodes; an address is never handed out twice.
  Reference counts are fields, and validity says that each equals the number of slots that hold it.
- Byte counts are unbounded naturals, except in the allocator, where addresses wrap at 32 bits, and in
  the included ranges, where the largest position stands for the end of all text.
- Whether a caller of the balancing walk is told to stop is left open at every check, and so is whether
  memory may grow; grammar facts (aliases, named symbols, repeat symbols) are parameters.
- A promoted inline leaf gets `false` and zero for the two fields the code leaves unset there.
- Balancing asks right caches only of the nodes its own handle reaches, and of their fragile edges,
  but nothing of parse states, which the parser overwrites after summarizing (parser.c:1028); other
  handles may hold edited trees with stale caches.
- A merge asks for nothing but a valid stack. The code does not notice when it closes a circle, and
  then nothing bounds it; the model tells when it has and does not follow it further. An order of
  state, position and cost that falls along every link rules circles out, and both pushes to higher keys
  and merges keep such an order.

Where the code departs from what it or its comments promise:

- The repeat depth of the parent of a compressed node can go stale (`NewDepths.ParentDepthIff` says
  exactly when, by what is known before), and a whole balancing walk can end so
  (`StaleDepths.LeaveStale`).
- An empty node without lookahead that begins its parent, but not the text, escapes edits
  (`EditProperties.NodeIsSafeIff`, with `EditProperties.EmptyFirstEscapes` for such trees, of which
  `EditProperties.SomeBeginEmpty` has one).
- Merging two versions can close a circle in the parse stack when steps without text have led back to
  the same state (`CircularMerge.CloseCircle`, for tokens as in `CircularMerge.ThereAreTokens`). Where
  no two links are equivalent, it does so exactly if a link of the second head, for which the first has
  room, leads back to the first (`ParseStack.Merge`, `StackCircles.AppendingClosesCircleIff`).
- A pop leaves out exactly the paths that go on from a link skipped for want of room
  (`ParseStack.Iterate`). A pop of everything loses a path exactly if the same walk without the cap
  needs more than 64 iterators at once (`PopWalks.AllFoundIff`, `LostPaths.LatticeLosesPaths`), and a
  pop by count exactly if a skipped path goes on to have that many (`PopWalks.CountLosesIff`).
- The raw-string scanner accepts a parenthesis in the opening delimiter although its single counter
  needs there to be none; `RawStrings.CounterSufficesIff` says exactly when it copes. Sixteen-character
  delimiters are refused.
- An allocation whose size wraps around breaks the heap (`WasmAllocator.BumpTilesIff`), and a heap of
  half the address space or more passes the size test (`WasmAllocator.DifferenceIsDistanceIff`).
- With negative scores the early exit of reranking can lose the best chunk
  (`Reranking.EarlyExitIsLosslessIff`).
- Invalidating a repository does not reach entries requested with a revision
  (`IndexCaches.InvalidationReaches`), and an at sign can make two repositories share an entry
  (`IndexCaches.SameKeyIff`).

## Model

| member | source | states |
|---|---|---|
| Lengths.AddIsMonoid | dotnet/native/tree-sitter/lib/src/length.h:25-30 | lengths add associatively with zero as unit, so totals do not depend on how a tree groups its parts |
| Lengths.SubCancelsPrefix | dotnet/native/tree-sitter/lib/src/length.h:32-37 | subtracting a prefix gives back what was added to it |
| Lengths.SubIsDistanceIff | dotnet/native/tree-sitter/lib/src/length.h:32-37 | subtraction is the distance between two positions exactly when the second is not before the first; otherwise it saturates |
| EditProperties.EditKeepsBytes | dotnet/native/tree-sitter/lib/src/subtree.c:649-781 | after any well-formed edit every parent still spans exactly its children and shares its first child's padding; each total is what the edit leaves of it |
| EditProperties.RootGrowsByInsertedMinusDeletedIff | dotnet/native/tree-sitter/lib/src/subtree.c:649-719 | the root total changes by inserted minus deleted if and only if the deletion ends inside the tree (or lies wholly behind it and keeps its length) |
| EditProperties.PlanVisits | dotnet/native/tree-sitter/lib/src/subtree.c:724-781 | which children receive which part of the edit: those left out lie wholly before it or behind it, those visited get it in their own coordinates |
| EditProperties.UnmarkedNodesAreReusable | dotnet/native/tree-sitter/lib/src/subtree.c:633-786 | reuse safety: a guarded node not marked as changed is the very subtree it was, and its text with lookahead ends at or before the edit or begins at or after the old end |
| EditProperties.MarkedNodesMeetTheEdit | dotnet/native/tree-sitter/lib/src/subtree.c:633-786 | precision: without column dependence, only nodes whose text or lookahead meets the edit are marked |
| EditProperties.NodeIsSafeIff | dotnet/native/tree-sitter/lib/src/subtree.c:640-781 | how far reuse safety goes: a node is safe from every edit if and only if it looked at some byte, or begins the text, or has something before it in its parent |
| EditProperties.UnguardedEscapes | dotnet/native/tree-sitter/lib/src/subtree.c:640-781 | any other node stays unmarked when all text up to just behind where it begins is deleted, however deep it lies |
| EditProperties.EmptyFirstEscapes | dotnet/native/tree-sitter/lib/src/subtree.c:640-781 | such nodes occur in trees ready for edits: an empty token that nobody looked ahead for, first in a phrase behind other text, escapes some edit |
| CachesInMemory.StoredCachesAreOk | dotnet/native/tree-sitter/lib/src/subtree.c:339-475 | if all nodes reached from a subtree cache the right summary, the tree it denotes has right caches, whatever else memory holds |
| CachesInMemory.SummariesAreReady | dotnet/native/tree-sitter/lib/src/subtree.c:363-383 | right summaries make parents span their children and lookahead cover theirs: what reuse safety asks for |
| CursorSpec.CachesOkCounts | dotnet/native/tree-sitter/lib/src/tree_cursor.c:165-179 | a tree with right caches has, at every node, the counts the cursor goes by |
| CachesInMemory.EditKeepsCounts | dotnet/native/tree-sitter/lib/src/subtree.c:675-721 | an edit leaves the cached child and descendant counts of every node as right as they were |
| TextPoints.EditedIsWalkable | dotnet/native/tree-sitter/lib/src/tree_cursor.c:165-179 | a tree that measures a text, edited with the points its bytes have in that text, may still be walked by the cursor, though its other caches are stale |
| SubtreeMemory.DenotesOne | dotnet/native/tree-sitter/lib/src/subtree.h:157-166 | following pointers from a subtree yields at most one tree |
| SubtreeMemory.TreeOf | dotnet/native/tree-sitter/lib/src/subtree.h:157-166 | every handle of a valid memory denotes exactly one tree: pointers close no cycle |
| SubtreeMemory.FencedFrame | dotnet/native/tree-sitter/lib/src/tree.c:22-25 | changing only nodes nobody outside points to changes no tree that starts outside |
| Reclamation.CountedIsReachable | dotnet/native/tree-sitter/lib/src/subtree.c:565-594 | with exact counts and no cycles, every node is reachable from some handle |
| Reclamation.Reclaimed | dotnet/native/tree-sitter/lib/src/subtree.c:565-594 | what a release leaves is exactly what the remaining handles reach |
| Reclamation.SurvivingTree | dotnet/native/tree-sitter/lib/src/subtree.c:565-594 | survivors of a release denote the trees they denoted |
| TreeStore.TreeStore.Retain | dotnet/native/tree-sitter/lib/src/subtree.c:558-563 | one more reference, nothing else |
| TreeStore.TreeStore.Release | dotnet/native/tree-sitter/lib/src/subtree.c:565-594 | giving up a reference frees every node left without owners, keeps every survivor's content, makes all counts exact again, and ends |
| TreeStore.TreeStore.FreeOne | dotnet/native/tree-sitter/lib/src/subtree.c:571-591 | one turn of the worklist: frees one node, drops its children's counts and enlists those that reach zero |
| TreeStore.TreeStore.TreeCopy | dotnet/native/tree-sitter/lib/src/tree.c:22-25 | a new handle on the same root; counts stay exact and no node's content changes |
| TreeStore.TreeStore.TreeDelete | dotnet/native/tree-sitter/lib/src/tree.c:27-36 | exact reclamation: the nodes left are exactly those the other handles reach, and their trees are unchanged |
| IncludedRanges.ShiftSaturates | dotnet/native/tree-sitter/lib/src/tree.c:62-69 | the wrap-around test is exact: a position behind the edit moves along, up to the largest one |
| IncludedRanges.EditedRangeCovers | dotnet/native/tree-sitter/lib/src/tree.c:56-88 | byte by byte, what one range covers after an edit |
| IncludedRanges.EditMovesRanges | dotnet/native/tree-sitter/lib/src/tree.c:56-88 | before the edit the same bytes are included, behind it the same moved along, and inserted text exactly if a range spans the end of what it replaced |
| IncludedRanges.EditKeepsOrder | dotnet/native/tree-sitter/lib/src/tree.c:56-88 | the included ranges stay in order and apart |
| IncludedRanges.EditRanges | dotnet/native/tree-sitter/lib/src/tree.c:56-88 | the loop moves every range in place |
| TreeHandles.TreeHandle.constructor | dotnet/native/tree-sitter/lib/src/tree.c:9-20 | a new handle has its own array of the ranges it is given |
| TreeHandles.TreeHandle.Copy | dotnet/native/tree-sitter/lib/src/tree.c:22-25 | a copy of a tree has its root and its own array with the same ranges |
| TreeHandles.TreeHandle.Edit | dotnet/native/tree-sitter/lib/src/tree.c:55-93 | an edit moves the included ranges and edits the tree; the other handles keep their trees |
| TreeHandles.TreeHandle.EditCopy | dotnet/native/tree-sitter/lib/src/tree.c:22-93 | an edit of a copy changes neither the tree nor the ranges of the original |
| TreeHandles.TreeHandle.Delete | dotnet/native/tree-sitter/lib/src/tree.c:27-36 | a deleted tree leaves exactly what the other handles reach |
| TreeStore.TreeStore.Clone | dotnet/native/tree-sitter/lib/src/subtree.c:260-281 | a copy of one node that shares its children, with their counts raised |
| TreeStore.TreeStore.MakeMut | dotnet/native/tree-sitter/lib/src/subtree.c:284-290 | the reference in a slot is exchanged for one nobody else holds: itself if unshared, else a copy |
| TreeStore.TreeStore.Reshape | dotnet/native/tree-sitter/lib/src/subtree.c:675-721 | an owned node with the edited padding, size and mark; inline leaves are promoted when they no longer fit |
| TreeStore.TreeStore.QueueChildren | dotnet/native/tree-sitter/lib/src/subtree.c:724-781 | the loop over the children queues exactly the edits of the plan, in order |
| TreeStore.TreeStore.EditEntryNode | dotnet/native/tree-sitter/lib/src/subtree.c:649-781 | one worklist entry: one node is rewritten in place or copied, its touched children are queued |
| TreeStore.TreeStore.TreeEdit | dotnet/native/tree-sitter/lib/src/tree.c:90-93 | one handle's tree becomes the edited tree; the other handles keep theirs, no node they reach is rewritten, counts stay exact |
| TreeStore.TreeStore.TreeEditAll | dotnet/native/tree-sitter/lib/src/tree.c:90-93 | copy-on-write isolation over any number of edits: the other handles keep their trees and every node they reach |
| TreeStore.TreeStore.CopyThenEdit | dotnet/native/tree-sitter/lib/src/tree.c:22-93 | edits of a copy are never seen through the original, whose nodes all stay as they were |
| EditInMemory.EditingStep | dotnet/native/tree-sitter/lib/src/subtree.c:644-783 | the worklist invariant: once all queued edits are done, the handle will denote the edited tree |
| EditInMemory.UntouchedTransitive | dotnet/native/tree-sitter/lib/src/subtree.c:284-290 | isolation composes: nodes a handle reaches stay reachable and unchanged over a run of edits |
| Summaries.FoldAppend | dotnet/native/tree-sitter/lib/src/subtree.c:358-438 | what a run of children adds to its parent's summary is a homomorphism of concatenation |
| Summaries.TallyIsFold | dotnet/native/tree-sitter/lib/src/subtree.c:358-438 | in a hidden alias-free parent the summary loop over the children computes that homomorphism |
| Summaries.RepeatIsTransparent | dotnet/native/tree-sitter/lib/src/subtree.c:358-438 | a hidden alias-free parent adds to a summary exactly what its children would |
| Summaries.RotationKeepsEssence | dotnet/native/tree-sitter/lib/src/subtree.c:322-324 | regrouping three runs of children under hidden parents adds the same to the parent above |
| Summaries.RotationKeepsSummary | dotnet/native/tree-sitter/lib/src/subtree.c:322-324 | so the rotated node's own summary is unchanged |
| TreeStore.TreeStore.TallyChildren | dotnet/native/tree-sitter/lib/src/subtree.c:358-438 | the loop computes the totals, column dependence and error flag of the children |
| TreeStore.TreeStore.NewSummary | dotnet/native/tree-sitter/lib/src/subtree.c:339-475 | every field a parent caches, from its children and its own flags |
| TreeStore.TreeStore.SummarizeChildren | dotnet/native/tree-sitter/lib/src/subtree.c:339-475 | one node caches its new summary; links, counts and all other nodes stay |
| VisibleTrees.RotationKeepsVisible | dotnet/native/tree-sitter/lib/src/subtree.c:322-324 | a rotation keeps what a client sees: the visible nodes with their fields and aliases |
| VisibleTrees.RotationKeepsLeaves | dotnet/native/tree-sitter/lib/src/subtree.c:322-324 | a rotation keeps the sequence of leaves |
| Fragility.RotationTracksFlags | dotnet/native/tree-sitter/lib/src/subtree.c:433-437 | a rotation disturbs the fragile edges of the two lower nodes only |
| Fragility.SummaryTracksFlags | dotnet/native/tree-sitter/lib/src/subtree.c:460-461 | a summary over right children makes the fragile edges of a node right, and over stale ones never too many |
| Rotations.RotatedValid | dotnet/native/tree-sitter/lib/src/subtree.c:322-324 | a rotation of unshared nodes keeps all counts exact and closes no cycle |
| Rotations.RotateTruth | dotnet/native/tree-sitter/lib/src/subtree.c:322-334 | every rotation of links has caches that make the two lower nodes right |
| Rotations.RotationKeepsOk | dotnet/native/tree-sitter/lib/src/subtree.c:322-334 | with those caches, every node of memory whose cache was right is still right |
| Rotations.RotationKeepsTrees | dotnet/native/tree-sitter/lib/src/subtree.c:322-334 | and every handle denotes a tree no client can tell from the old one |
| Balancing.SummarizeFresh | dotnet/native/tree-sitter/lib/src/subtree.c:329-335 | summarizing a node whose children are right makes it right |
| Balancing.SummarizeStale | dotnet/native/tree-sitter/lib/src/subtree.c:329-335 | summarizing a node too early does no harm |
| Balancing.LowestKidsFresh | dotnet/native/tree-sitter/lib/src/subtree.c:329-335 | bottom-up order: no child of the lowest stale node is stale |
| Balancing.CompressingRotates | dotnet/native/tree-sitter/lib/src/subtree.c:302-326 | one turn of the rotation loop keeps the memory one summary pass away from being right |
| Balancing.NothingStale | dotnet/native/tree-sitter/lib/src/subtree.c:329-335 | once nothing is stale, the caches of all nodes the handle reaches are right and all trees are as they were |
| Compressions.CompressedLinks | dotnet/native/tree-sitter/lib/src/subtree.c:292-336 | the links after a compression are those of the rotations that were possible, and memory stays valid |
| Compressions.CompressedElsewhere | dotnet/native/tree-sitter/lib/src/subtree.c:292-336 | a compression rewrites nothing but the nodes it rotates |
| Compressions.CompressedDepths | dotnet/native/tree-sitter/lib/src/subtree.c:463-474 | every repeat depth that was right before a compression is right after it, and so are those of all nodes rotated, but for parents of the node compressed |
| NewDepths.NewDepthIs | dotnet/native/tree-sitter/lib/src/subtree.c:463-474 | the depth a compression gives the node it starts at, told before by a recursion over the chain below it |
| NewDepths.ParentDepthIff | dotnet/native/tree-sitter/lib/src/subtree.c:463-474 | a parent keeps its depth; it is right exactly if the node compressed is neither its first nor its last child, or the parent does not continue the repetition, or the depth that node will have, known before, leaves the deeper of the parent's ends as deep as it is |
| Compressions.CompressedStates | dotnet/native/tree-sitter/lib/src/subtree.c:433-437 | the parse state is taken from exactly the rotated nodes that have an error child |
| StaleDepths.StartMayBeBalanced | dotnet/native/tree-sitter/lib/src/parser.c:1878-1933 | a visible root over a repetition of six nodes and one-byte leaves, every cache right, ready to be balanced |
| StaleDepths.RunEndsStale | dotnet/native/tree-sitter/lib/src/parser.c:1892-1929 | every finished run on it leaves the top of the repetition with a depth that is no longer right |
| StaleDepths.LeaveStale | dotnet/native/tree-sitter/lib/src/parser.c:1878-1933 | the same, by building that tree and calling the balancing walk |
| Balancing.WalkAdvances | dotnet/native/tree-sitter/lib/src/parser.c:1921-1928 | visiting a node puts exactly its unshared parents on the stack, none of them seen before |
| Balancing.WalkVisitsAll | dotnet/native/tree-sitter/lib/src/parser.c:1892-1929 | a finished walk has visited every parent reached through unshared parents |
| Balancing.WalkOnlyRebalances | dotnet/native/tree-sitter/lib/src/parser.c:1878-1933 | whatever the walk did: what the handle reaches has right caches, no right cache elsewhere was spoilt, other handles have the very same trees, no shared node was touched, parse states are kept or taken away |
| TreeStore.TreeStore.FindRotation | dotnet/native/tree-sitter/lib/src/subtree.c:302-320 | finds a rotation exactly if the first child and first grandchild are unshared parents with the same symbol |
| TreeStore.TreeStore.RotateChain | dotnet/native/tree-sitter/lib/src/subtree.c:302-327 | the first loop rotates as often as it can, up to the count, one rotation after the other, and stacks what it rotated |
| TreeStore.TreeStore.Unwind | dotnet/native/tree-sitter/lib/src/subtree.c:329-335 | the second loop summarizes each link from the bottom up until every cache is right |
| TreeStore.TreeStore.Compress | dotnet/native/tree-sitter/lib/src/subtree.c:292-336 | computes exactly the compressed memory; keeps validity, makes what the handle reaches right again, shows every client the same trees, and ends |
| TreeStore.TreeStore.BalanceTop | dotnet/native/tree-sitter/lib/src/parser.c:1905-1925 | the node on top is compressed by half its excess depth, a quarter, and so on, unless told to stop |
| TreeStore.TreeStore.Balance | dotnet/native/tree-sitter/lib/src/parser.c:1878-1933 | the whole walk, stopped or resumed at any check, for any handle whose own nodes have right caches: what it may change and what it keeps; finished means that every turn was taken and the stack is empty |
| StackGraph.PathsAgree | dotnet/native/tree-sitter/lib/src/stack.c:138-179 | path independence: along every path position bytes and cost are the sums of what it spells |
| StackGraph.PathsToBaseAgree | dotnet/native/tree-sitter/lib/src/stack.c:138-179 | all paths from a node to the base spell the same bytes and the same cost |
| StackGraph.PushKeepsGraph | dotnet/native/tree-sitter/lib/src/stack.c:512-523 | a push keeps every link consistent and closes no cycle |
| StackCircles.LinkClosesCircleIff | dotnet/native/tree-sitter/lib/src/stack.c:200-264 | another link closes a circle in the graph exactly if its node already leads back to the one that gets it |
| StackCircles.AppendingClosesCircleIff | dotnet/native/tree-sitter/lib/src/stack.c:231-240 | so appending the links of one node to another closes one exactly if some link that there is room for leads back |
| CircularMerge.CloseCircle | dotnet/native/tree-sitter/lib/src/stack.c:708-732 | two versions made by four pushes and a copy, going from one state to another and back on tokens without text, close a circle when they are merged |
| StackCircles.LayeredStaysAcyclic | dotnet/native/tree-sitter/lib/src/stack.c:708-732 | ranks that fall along every link, also after nodes of one key are merged, outlast every merge |
| StackCircles.KeyRankedIsLayered | dotnet/native/tree-sitter/lib/src/stack.c:231-250 | an order of state, position and cost that falls along every link gives such ranks |
| StackCircles.PushKeepsKeyRanks | dotnet/native/tree-sitter/lib/src/stack.c:512-523 | a push to a higher key keeps such an order |
| StackCircles.EdgesKeepKeyRanks | dotnet/native/tree-sitter/lib/src/stack.c:708-732 | every merge keeps it, so one invariant rules out circles over any run of pushes and merges |
| StackMerging.OneNodeGrows | dotnet/native/tree-sitter/lib/src/stack.c:200-264 | improving or adding one link keeps the whole graph consistent |
| StackMerging.PathGrown | dotnet/native/tree-sitter/lib/src/stack.c:200-264 | paths of all versions survive a merge, with matching subtrees |
| StackMerging.AbsorbedPath | dotnet/native/tree-sitter/lib/src/stack.c:708-720 | merging loses no path of the second version as long as no node is full: each has a counterpart of the same keys, symbols, sizes and costs, up to steps that span nothing |
| StackMerging.PathFollowsEdges | dotnet/native/tree-sitter/lib/src/stack.c:708-720 | merging invents no path: each walks along edges there were before, up to state, position and cost |
| ParseStack.ParseStack.constructor | dotnet/native/tree-sitter/lib/src/stack.c:421-438 | one version at the base node, state 1, position and cost zero |
| ParseStack.ParseStack.Push | dotnet/native/tree-sitter/lib/src/stack.c:512-523 | a new node above the head whose position and cost add the subtree's; nothing else changes; orders of keys that rise are kept |
| ParseStack.ParseStack.AddLink | dotnet/native/tree-sitter/lib/src/stack.c:200-264 | the link is absorbed by the first equivalent one, merged below it, or appended; never lost unless the node is full; appended, it closes a circle exactly if its node leads back; recursion ends unless a circle is closed |
| ParseStack.ParseStack.MergeLinks | dotnet/native/tree-sitter/lib/src/stack.c:231-240 | every link of one node is absorbed by the other and the graph only grows; where no two links are equivalent, a circle is closed exactly if one that there is room for leads back |
| ParseStack.ParseStack.Merge | dotnet/native/tree-sitter/lib/src/stack.c:708-720 | versions merge exactly when they may; the merged head absorbs every link, no edge is invented, the second version is removed; says when a circle is closed instead, which orders of keys rule out |
| ParseStack.ParseStack.RenumberVersion | dotnet/native/tree-sitter/lib/src/stack.c:676-689 | one version takes another's place |
| ParseStack.ParseStack.CopyVersion | dotnet/native/tree-sitter/lib/src/stack.c:697-706 | a version is duplicated at the end |
| StackPops.CountIsMetIff | dotnet/native/tree-sitter/lib/src/stack.c:525-532 | a pop by count ends on exactly the paths with that many counted links, the last of them counted |
| StackPops.BottomIsMetIff | dotnet/native/tree-sitter/lib/src/stack.c:592-595 | a pop of everything ends on exactly the paths that cannot go on |
| StackPops.SliceSpans | dotnet/native/tree-sitter/lib/src/stack.c:344-356 | a popped run of subtrees spans the text between the two nodes, whatever path it was popped along |
| StackPops.IteratorAdvances | dotnet/native/tree-sitter/lib/src/stack.c:379-413 | an iterator that goes on forgets no path: each goes on along a link that is followed or along one recorded as skipped |
| PopWalks.SlicesOfOneVersionAgree | dotnet/native/tree-sitter/lib/src/parser.c:993-996 | the slices of one version, of which the parser keeps one, all span the same text |
| PopWalks.SkipsIffOverflows | dotnet/native/tree-sitter/lib/src/stack.c:379-393 | a pop skips a link exactly if the same walk without the cap needs more than 64 iterators at once |
| PopWalks.AllFoundIff | dotnet/native/tree-sitter/lib/src/stack.c:379-393 | a pop of everything finds all paths to the bottom if and only if that walk never needs more |
| PopWalks.CountLosesIff | dotnet/native/tree-sitter/lib/src/stack.c:379-393 | a pop by count leaves a path out if and only if some skipped one goes on to have that many counted links |
| PopWalks.CrowdOverflows | dotnet/native/tree-sitter/lib/src/stack.c:387 | more than 64 ways down of one length still to be followed are too many |
| PopWalks.OverflowsOnlyIfWide | dotnet/native/tree-sitter/lib/src/stack.c:387 | and it takes more than 64 of almost one length, none through another, however deep the stack is |
| LostPaths.LatticeLosesPaths | dotnet/native/tree-sitter/lib/src/stack.c:366-393 | a stack of four nodes with eight, eight and two links on the way down, on which a pop of everything leaves paths out |
| LostPaths.NotAllFound | dotnet/native/tree-sitter/lib/src/stack.c:366-393 | and so does whatever such a pop files there, under whatever versions |
| StackPops.SliceFound | dotnet/native/tree-sitter/lib/src/stack.c:304-322 | a finished path is filed next to the other slices of its end node, or under a new version |
| ParseStack.ParseStack.AddSlice | dotnet/native/tree-sitter/lib/src/stack.c:304-322 | where the slice goes and whether a version is added |
| ParseStack.ParseStack.Iterate | dotnet/native/tree-sitter/lib/src/stack.c:324-419 | pop: each slice is a genuine path read left to right, paths are distinct, slices of one version contiguous; found are exactly the paths that meet the goal and do not go on from a link skipped for want of room; ends |
| ParseStack.ParseStack.PopCount | dotnet/native/tree-sitter/lib/src/stack.c:534-536 | the same for a number of subtrees |
| ParseStack.ParseStack.PopAll | dotnet/native/tree-sitter/lib/src/stack.c:597-599 | the same down to the bottom |
| VisibleLists.CountsAreLengths | dotnet/native/tree-sitter/lib/src/subtree.c:399-428 | the cached visible child and descendant counts are the lengths of the flattened and pre-order lists |
| TreePaths.ListedAtIndex | dotnet/native/tree-sitter/lib/src/tree_cursor.c:34-97 | a visible node is found in the pre-order list at its index |
| CursorSpec.NextIsTrue | dotnet/native/tree-sitter/lib/src/tree_cursor.c:60-97 | the child iterator yields each child's true start, place in the grammar, pre-order index and visibility |
| CursorSpec.AfterInList | dotnet/native/tree-sitter/lib/src/tree_cursor.c:309-343 | the visible children after a node are those behind it in its ancestor's list |
| CursorSpec.NextInList | dotnet/native/tree-sitter/lib/src/tree_cursor.c:309-343 | a visible node is an element of its nearest visible ancestor's list of children, followed there by what comes after it |
| CursorSpec.GoalReached | dotnet/native/tree-sitter/lib/src/tree_cursor.c:419-468 | a visible node whose index is the goal is the goal |
| TreeCursor.TreeCursor.constructor | dotnet/native/tree-sitter/lib/src/tree_cursor.c:165-179 | the cursor starts at the root of any tree whose counts are right, with true position and index |
| TreeCursor.TreeCursor.GotoFirstChild | dotnet/native/tree-sitter/lib/src/tree_cursor.c:188-217 | to the first of the flattened visible children, false exactly if there is none |
| TreeCursor.TreeCursor.GotoLastChild | dotnet/native/tree-sitter/lib/src/tree_cursor.c:219-257 | to the last of the flattened visible children |
| TreeCursor.TreeCursor.GotoNextSibling | dotnet/native/tree-sitter/lib/src/tree_cursor.c:309-359 | to the next visible child of the nearest visible ancestor, false exactly if there is none |
| TreeCursor.TreeCursor.GotoParent | dotnet/native/tree-sitter/lib/src/tree_cursor.c:408-417 | to the nearest visible ancestor, false exactly at the root |
| TreeCursor.TreeCursor.GotoDescendant | dotnet/native/tree-sitter/lib/src/tree_cursor.c:419-468 | to the i-th visible node in pre-order; beyond the last one, to the root |
| NodeChildren.NextChild | dotnet/native/tree-sitter/lib/src/node.c:80-105 | each child with its alias and true start |
| NodeChildren.LeadsToKid | dotnet/native/tree-sitter/lib/src/node.c:139-174 | going down into a hidden child asks for the right one of its children |
| NodeChildren.Child | dotnet/native/tree-sitter/lib/src/node.c:139-174 | the i-th flattened visible child at its true start, missing exactly if i is at least the cached count; only counts need be right |
| ReusableNodes.FoundAtPlace | dotnet/native/tree-sitter/lib/src/reusable_node.h:39-95 | every node is found in document order at its place |
| ReusableNodes.SiblingBegins | dotnet/native/tree-sitter/lib/src/reusable_node.h:39-60 | a sibling begins, in bytes and in order, where the one before it ends |
| ReusableNodes.LastChildEnds | dotnet/native/tree-sitter/lib/src/reusable_node.h:39-60 | a last child ends where its parent does |
| ReusableNodes.ReusableNode.Advance | dotnet/native/tree-sitter/lib/src/reusable_node.h:39-60 | to the first node behind the current subtree in document order, or the walk is over |
| ReusableNodes.ReusableNode.Descend | dotnet/native/tree-sitter/lib/src/reusable_node.h:62-74 | to the first child, which begins at the same byte; false exactly at a leaf |
| ReusableNodes.ReusableNode.AdvancePastLeaf | dotnet/native/tree-sitter/lib/src/reusable_node.h:76-79 | to the node behind the first leaf at or below the current one: always forward |
| ReusableNodes.ReusableNode.Reset | dotnet/native/tree-sitter/lib/src/reusable_node.h:81-95 | to the root's first child; nowhere if there is none |
| ReusableNodes.ReusableNode.ByteOffset | dotnet/native/tree-sitter/lib/src/reusable_node.h:29-33 | the bytes of everything before the current node; the largest number once the walk is over |
| RangeDifferences.AddedCovers | dotnet/native/tree-sitter/lib/src/get_changed_ranges.c:10-28 | adding a stretch covers exactly that stretch more |
| RangeDifferences.RangeArray.Add | dotnet/native/tree-sitter/lib/src/get_changed_ranges.c:10-28 | joins the last range or appends, dropping empty stretches |
| RangeDifferences.RangeArray.Intersects | dotnet/native/tree-sitter/lib/src/get_changed_ranges.c:30-44 | true exactly if some range from the index on meets the bytes |
| RangeDifferences.StepIsRight | dotnet/native/tree-sitter/lib/src/get_changed_ranges.c:76-101 | one step of the walk keeps the differences right up to the position reached |
| RangeDifferences.GetChangedRanges | dotnet/native/tree-sitter/lib/src/get_changed_ranges.c:46-104 | the output covers exactly the bytes in one list but not the other, in order, without empty or touching ranges |
| RangeDifferences.CanonicalIsUnique | dotnet/native/tree-sitter/lib/src/get_changed_ranges.c:46-104 | a set of bytes has only one such list |
| RangeDifferences.DifferenceIsSymmetric | dotnet/native/tree-sitter/lib/src/get_changed_ranges.c:46-104 | swapping the inputs gives the same ranges |
| WasmAllocator.RegionHoldsDataIff | dotnet/native/tree-sitter/lib/src/wasm/stdlib.c:39-43 | a region holds its data exactly if its end does not wrap around the address space |
| WasmAllocator.BumpTilesIff | dotnet/native/tree-sitter/lib/src/wasm/stdlib.c:78-90 | new space keeps the regions end to end exactly if the request does not wrap around |
| WasmAllocator.DifferenceIsDistanceIff | dotnet/native/tree-sitter/lib/src/wasm/stdlib.c:80-83 | the size the heap would grow to is computed as a signed number: right exactly if below half the address space, and never too large beyond that |
| WasmAllocator.Heap.LiveBlocksAreApart | dotnet/native/tree-sitter/lib/src/wasm/stdlib.c:62-109 | live blocks share no byte with each other |
| WasmAllocator.Heap.LiveBlocksAreInside | dotnet/native/tree-sitter/lib/src/wasm/stdlib.c:62-109 | live blocks, as large as requested, lie between the start of the heap and its next region |
| WasmAllocator.TilesApart | dotnet/native/tree-sitter/lib/src/wasm/stdlib.c:39-43 | of two regions one ends before the other begins |
| WasmAllocator.Unlinked | dotnet/native/tree-sitter/lib/src/wasm/stdlib.c:67-71 | unlinking a region leaves an acyclic list of the others |
| WasmAllocator.Heap.Malloc | dotnet/native/tree-sitter/lib/src/wasm/stdlib.c:62-93 | the first free region that is large enough, else new space; NULL exactly when the signed size test or the memory refuses; regions tile the heap, each live or free but not both |
| WasmAllocator.Heap.Free | dotnet/native/tree-sitter/lib/src/wasm/stdlib.c:95-109 | the last region is cut off, any other goes on the free list; the regions still tile the heap |
| ParseTables.Lookup | dotnet/native/tree-sitter/lib/src/language.h:73-93 | the value of a symbol in a large or small state |
| ParseTables.EntriesAgreeWithLookup | dotnet/native/tree-sitter/lib/src/language.h:73-178 | the entries of a state are exactly the symbols with non-zero looked-up value, each once |
| ParseTables.LookaheadIterator.constructor | dotnet/native/tree-sitter/lib/src/language.h:109-134 | a new iterator has every entry of the state ahead |
| ParseTables.LookaheadIterator.Next | dotnet/native/tree-sitter/lib/src/language.h:136-178 | yields the next entry with its decoded value, nothing exactly when none is left |
| RawStrings.CounterSufficesIff | dotnet/native/tree-sitter-cpp/src/scanner.c:59-95 | a single counter finds the first closing in every text exactly if what follows each parenthesis inside the delimiter is how the delimiter begins |
| RawStrings.ScanIsRight | dotnet/native/tree-sitter-cpp/src/scanner.c:59-95 | under that condition the scan ends at the first closing or at the end of the text |
| RawStrings.ScanMissesAClosing | dotnet/native/tree-sitter-cpp/src/scanner.c:60-61 | otherwise there is a text whose closing the scan overlooks, against the comment that a delimiter has no parenthesis |
| RawStrings.Scanner.ScanOpening | dotnet/native/tree-sitter-cpp/src/scanner.c:42-55 | records one to fifteen characters up to the parenthesis, and succeeds exactly if the text goes on so |
| RawStrings.Scanner.ScanClosing | dotnet/native/tree-sitter-cpp/src/scanner.c:27-39 | goes past the recorded delimiter exactly if the text goes on with it |
| RawStrings.Scanner.ScanContent | dotnet/native/tree-sitter-cpp/src/scanner.c:59-95 | marks the end the single-counter scan finds |
| RawStrings.Scanner.Deserialize | dotnet/native/tree-sitter-cpp/src/scanner.c:135-143 | restores what was serialized |
| RawStrings.ContentEndsAtClosing | dotnet/native/tree-sitter-cpp/src/scanner.c:59-95 | content without a closing in it ends exactly at the closing behind it |
| RawStrings.ReadBack | dotnet/native/tree-sitter-cpp/src/scanner.c:26-95 | round trip: reading d(c)d gives d, then c, then the closing delimiter |
| Reranking.SortIsStable | dotnet/src/Semble/Ranking/Penalties.cs:115-121 | the ranking order: descending, a permutation, ties in their old order |
| Reranking.LateOnesDoNotMatter | dotnet/src/Semble/Ranking/Penalties.cs:149-157 | candidates scoring no higher than all selected change nothing at the top |
| Reranking.StoppingIsLossless | dotnet/src/Semble/Ranking/Penalties.cs:127-132 | the early exit: with enough selected and the next penalised score no higher than their minimum, the rest can be left out |
| Reranking.EarlyExitIsLosslessIff | dotnet/src/Semble/Ranking/Penalties.cs:127-132 | the early exit loses nothing, for every number asked for, if and only if no negative score decays to above an earlier chunk's |
| Reranking.NonNegativesAreReranked | dotnet/src/Semble/Ranking/Penalties.cs:87-159 | which always holds of scores that are not negative |
| Reranking.NegativeScoresAreLost | dotnet/src/Semble/Ranking/Penalties.cs:127-132 | a list of two where it does not: decay lifts the second score above the first, and the best chunk is lost |
| Reranking.Reranker.Penalise | dotnet/src/Semble/Ranking/Penalties.cs:95-113 | every score is multiplied by the penalty of its file |
| Reranking.Reranker.Select | dotnet/src/Semble/Ranking/Penalties.cs:123-148 | the loop selects the decayed chunks up to the first where it may stop |
| Reranking.Reranker.RerankTopK | dotnet/src/Semble/Ranking/Penalties.cs:87-159 | the stable top of what the loop selects; that of all chunks scored with decay whenever the early exit loses nothing |
| IndexCaches.IndexCache.Get | dotnet/src/Semble.Mcp/IndexCache.cs:34-84 | shares the cached build and moves its key to the front, or starts one, evicting the least recently requested key when ten are cached |
| IndexCaches.IndexCache.Fail | dotnet/src/Semble.Mcp/IndexCache.cs:62-77 | a failed build is dropped only if it is still the cached one; newer builds of the key and all others stay |
| IndexCaches.IndexCache.Invalidate | dotnet/src/Semble.Mcp/IndexCache.cs:87-96 | the key of the source without a revision is removed from all three structures |
| IndexCaches.InvalidationReaches | dotnet/src/Semble.Mcp/IndexCache.cs:36-39 | an invalidation reaches a request of the same source exactly if that names no revision of a repository |
| IndexCaches.SameKeyIff | dotnet/src/Semble.Mcp/IndexCache.cs:36-39 | two requests for repositories share a build exactly if they agree on source and revision, or an at sign inside one of them splits the same key in two ways |
| IndexCaches.LastIsOldest | dotnet/src/Semble.Mcp/IndexCache.cs:50-56 | the last key of the list was requested before all others |
| IndexCaches.RemovedKey | dotnet/src/Semble.Mcp/IndexCache.cs:50-56 | taking a key out keeps the three structures on the same keys, once each |
| IndexCaches.AddedKey | dotnet/src/Semble.Mcp/IndexCache.cs:80-81 | so does putting a new key in front |

## Left out

- TreeStore.TreeStore.Compress: dynamic precedence is not modelled, because the parser raises it after summarizing; column dependence, which a summary reads from a stale size for the first child, is recomputed as in the code but not claimed to be right.
- TreeStore.TreeStore.NewSummary: dynamic precedence is not among the fields.
- TreeStore.TreeStore.SummarizeChildren: dynamic precedence is not among the fields.
- TreeStore.TreeStore.Clone: the pool of free trees and the copying of external scanner state are not modelled; a node is its fields and children.
- ParseStack.ParseStack.Merge: reference counts of stack nodes and `stack_node_release` are not modelled; nodes that no version reaches stay in the map, which no operation can observe.
- ParseStack.ParseStack.RenumberVersion: the summary of earlier states that a head may carry is not modelled.
- ParseStack.ParseStack.AddLink: once a circle is closed the recursion is not followed, since nothing bounds it; two links without a subtree to the same node count as equal, where the code would read the precedence of a null subtree; node counts follow the code but nothing is claimed of them.
- ParseStack.ParseStack.Iterate: pops of pending subtrees and of errors, and recording a summary, use the same loop with other stopping rules and are left out.
- Pausing, resuming and halting a version, and the node count since the last error: easy members.
- TextPoints.EditedIsWalkable: one edit of a tree that measures a text; that the edited tree measures the edited text is not claimed.
- TreeCursor.TreeCursor.GotoNextSibling: `goto_previous_sibling`, which keeps no index, and moves to a byte or point are left out.
- NodeChildren.Child: only lookups that include anonymous nodes, for which the cached count is exact.
- ReusableNodes.ReusableNode.Advance: the last external token is not tracked.
- ParseTables.LookaheadIterator.Next: a value is decoded by the kind of its group's first symbol, as in the code; action lists themselves are not modelled.
- WasmAllocator.Heap.Malloc: blocks may lie beyond the end of memory, since growth ignores headers; `realloc` and `calloc` are left out.
- RawStrings.Scanner.ScanOpening: wide characters are characters, and white space is whatever the parameter says.
- Reranking.Reranker.RerankTopK: scores are reals, so rounding and NaN are out; the path penalty is a non-negative parameter.
- IndexCaches.IndexCache.Fail: a build that fails before its continuation is attached runs it before the entry exists; that step is not modelled.
- Parsing, error recovery, queries, logging, I/O, search and chunking: they rest on generated tables, callbacks or foreign calls, or would add easier members.
