# Verified model of the extraction core

This project models, in Dafny, the parts of the code-indexing engine that carry real algorithmic
weight, and proves what they are for:

* **Multi-pattern matching** (`internal/cbm/ac.c`). The Aho–Corasick automaton is built in place:
  a trie in a flat goto array, then a breadth-first pass that overwrites the missing entries and
  merges output words. The proof goes from the two building loops to the statement a caller wants:
  bit *p* of a scan says whether pattern *p* occurs. The batch scan and the decompress-and-scan
  entry points are proved against the same meaning.
* **Syntax-tree walks** (`extract_unified.c`, `extract_node_stack.h`, `extract_calls.c`,
  `extract_usages.c`, `helpers.c`). The tree is a datatype, a cursor is a path into it. The
  capped scope stack is proved to describe each node's ancestors, both walks are proved to visit the
  same pre-order, and the capped metric walk is proved against a recursive definition of the metrics,
  which in turn is proved to count positions and their ancestors (`Nesting`).
* **The symbol-bitset cache** behind `cbm_kind_in_set`, against the linear string comparison.
* **Fixed points** in `scripts/gen-py-stdlib.py`: the stub worklist and the star re-exports.
* **Memory**: the bump arena, growable arrays, node stacks and strings that share it, byte by byte.
* **Qualified names and body identifiers**: buffers written within their bounds, and what they spell.

One module per file, one component per module. Code that the source runs by updating fields and
arrays is a class or a method with loops here; each such method is tied by its `ensures` to a
specification function or predicate, and the lemmas are about those. Masks are 64 explicit bits
(`Word64`). Allocation results, the decompressor, names found in source text, symbol tables and
stub parsing are parameters, and every theorem holds for all of them.

## How the matcher proof goes

`AcSpec` says what a longest interesting suffix is and proves the automaton law
(`LongestStep`) and how reports are inherited (`ReportsInherited`). `AcTables` holds the facts about
rows, links and the queue: states leave the queue in order of depth although they are numbered in
insertion order, so every state shallower than the one being expanded is finished
(`ShallowerFinished`), and every state is queued once (`AllQueued`, `ChildFresh`). `AcBfs` proves
that each of the three things the search can do — pop, fill an entry, push a child — keeps one
invariant (`Inv`), and that with an empty queue every row, output word and link is final
(`DoneState`). `AcAutomaton` runs this on the arrays. `AcScan`, `AcBatch` and `AcLz4` use only the
finished automaton's `Valid()`.

## Where the code and its description differ

* *Empty patterns.* States of depth one do not inherit the root's output, so an empty pattern is
  found only where the symbol just read starts no pattern. No pattern list is excluded:
  `AcScan.OccurrenceLaw` says exactly when the "bit set iff the pattern occurs" law holds,
  `AcScan.EmptyPatternMissed` gives an input where it does not, and `AcBatch.BatchEmptyPattern` gives
  the different condition of the batch scan, which skips the root.
* *Patterns beyond 64.* The comments in `cbm_ac_scan_batch` say the output chain is followed for
  patterns beyond the mask. Following it adds nothing (`AcBatch.ChainAddsNothing`), and ids from 64
  on are never reported (`AcBatch.BeyondTheMask`), whether the pattern occurs (`SixtyFifthOccurs`) or not.
* *The node-type cache* is described as always identical to the string comparison.
  `KindSet.Cache.KindInSet` says exactly when it is, in terms of the query and the cache before it;
  `KindSet.RuntimeNodesAreOrdinary` says which nodes are never affected. Two families are: error nodes
  beside a token of that spelling (`ErrorNodeMissed`), and nodes of a rule spelled like a beginning of
  "ERROR" beside a token of the same spelling (`PrefixRuleMissed`).
* *Re-exports* are described as iterated to a fixed point, but the loop stops after eight rounds.
  `Arrivals.ArrivalLaw` says exactly which names a module has after any number of rounds, for every
  graph and order; `FixpointIffEightSuffice` when eight are enough; `ChainIsCutOff` is a chain of ten
  modules on which they are not.
* *Metrics* are silently truncated when the stack of 4096 frames is full. `CappedWalk.WholeIffFits`
  says exactly which trees are walked whole, `Complexity.CountedAndDropped` what is counted of the
  others, and `Complexity.WideIsTruncated` gives trees on which a branch is lost.
* *Scopes* beyond 64 are silently dropped. `Ancestors.PastTheCap` says exactly what that costs in each
  field and `StateIsAncestorsIff` when it costs nothing; `NestIsCapped` gives trees on which the loop
  depth is too small, `FunctionPastTheCap` trees on which the enclosing function is wrong.

## Model

| member | source | states |
|---|---|---|
| Word64.ClearLowBit | internal/cbm/ac.c:29 | `b & (b - 1)` removes exactly the lowest id from the set of ids |
| Word64.CountTrailingZeros | internal/cbm/ac.c:392 | the returned bit is set and every lower one is clear |
| Word64.MinusOneValue | internal/cbm/ac.c:29 | the borrow on 64 bits is subtraction of one on the unsigned value |
| AcSpec.LongestIsLongest | internal/cbm/ac.c:102-138 | every state path that is a suffix of a text is a suffix of the longest one |
| AcSpec.LongestStep | internal/cbm/ac.c:243-247 | one symbol further, the longest suffix depends only on the longest suffix before |
| AcSpec.ReportsInherited | internal/cbm/ac.c:123-124 | from depth two on, what a state reports is its own pattern or what its failure state reports |
| AcSpec.ReportsOfLongest | internal/cbm/ac.c:243-247 | reporting in the longest-suffix state is reporting for the whole text read |
| AcTables.FlatWrite | internal/cbm/ac.c:80-83 | a store at `state * alpha_size + c` changes that one entry of the table and no other |
| AcTables.AddState | internal/cbm/ac.c:81-83 | a new state keeps the trie: distinct paths, parents present, every entry child or missing |
| AcTables.ShallowerFinished | internal/cbm/ac.c:117-134 | every state no deeper than the one being expanded is queued, and a strictly shallower one is already expanded |
| AcTables.AllQueued | internal/cbm/ac.c:117-134 | when the queue runs dry every state but the root has been through it |
| AcTables.ChildFresh | internal/cbm/ac.c:121-129 | a child met during expansion is not queued yet, so no state is queued twice |
| AcTables.PopQueue | internal/cbm/ac.c:118 | popping keeps the queue in depth order and equal to the set of reached states |
| AcTables.SkipQueue | internal/cbm/ac.c:130-132 | a symbol without a child keeps the queue equal to the set of reached states |
| AcBfs.FailRowFinal | internal/cbm/ac.c:123-131 | the entry read from the failure state's row is final when it is read |
| AcBfs.InheritedFinal | internal/cbm/ac.c:124 | the output word inherited by a child is complete when it is read |
| AcBfs.FailStep | internal/cbm/ac.c:123 | the longest proper suffix one symbol further is found from the failure state |
| AcBfs.FillInv | internal/cbm/ac.c:130-132 | filling a missing entry keeps the search invariant |
| AcBfs.PushStep | internal/cbm/ac.c:122-129 | linking and queueing a child keeps the search invariant, all indices in range, queue within capacity |
| AcBfs.PopInv | internal/cbm/ac.c:117-120 | popping a state keeps the search invariant |
| AcBfs.QueueFits | internal/cbm/ac.c:106-107 | distinct non-root states never fill the queue of `num_states` entries |
| AcBfs.StartInv | internal/cbm/ac.c:109-115 | after the root's children are queued the search invariant holds |
| AcBfs.DoneState | internal/cbm/ac.c:117-134 | at the end every row entry, output word and output link is final |
| AcAutomaton.Automaton.Go | internal/cbm/ac.c:80 | the flat lookup reads entry (s, c) of the table |
| AcAutomaton.Automaton.Follow | internal/cbm/ac.c:78-85 | one symbol leads to the state spelling the path plus that symbol, new only if absent |
| AcAutomaton.Automaton.Spell | internal/cbm/ac.c:77-85 | a pattern leads to the state whose path is the mapped pattern; states stay prefixes of patterns |
| AcAutomaton.Automaton.Mark | internal/cbm/ac.c:86-89 | afterwards every state's word and list say which of the patterns so far end there |
| AcAutomaton.Automaton.LoadPatterns | internal/cbm/ac.c:76-90 | after the pattern loop the trie holds exactly the patterns' prefixes, at most 1 + sum of lengths states |
| AcAutomaton.Automaton.RootLoops | internal/cbm/ac.c:92-97 | every entry of the root's row becomes the longest suffix of its symbol |
| AcAutomaton.Automaton.BuildTrie | internal/cbm/ac.c:72-99 | phase one: a trie with complete own outputs and a final root row |
| AcAutomaton.Automaton.Seed | internal/cbm/ac.c:109-115 | exactly the root's children are queued, in symbol order, with failure link zero |
| AcAutomaton.Automaton.Fill | internal/cbm/ac.c:130-132 | the copied transition keeps the search invariant on the arrays |
| AcAutomaton.Automaton.Push | internal/cbm/ac.c:122-129 | the stores for a child keep the search invariant on the arrays |
| AcAutomaton.Automaton.ExpandRow | internal/cbm/ac.c:118-133 | one popped state's row becomes final and its children are queued |
| AcAutomaton.Automaton.BuildFailure | internal/cbm/ac.c:102-138 | phase two: the complete automaton, and termination |
| AcAutomaton.MaxStates | internal/cbm/ac.c:185-188 | the table size is one plus the total pattern length |
| AcAutomaton.Build | internal/cbm/ac.c:176-218 | null exactly for no patterns; else a complete automaton for the mapped patterns, at most 1 + sum of lengths states, its alphabet map the table given or the bytes themselves, its size 256 unless a positive one is given |
| AcScan.StatesArePrefixes | internal/cbm/ac.c:76-90 | states are in bijection with the distinct prefixes of the mapped patterns |
| AcScan.Advance | internal/cbm/ac.c:244-245 | after each byte the state is the longest suffix read that is a state, and it is in range |
| AcScan.HitsAreFinds | internal/cbm/ac.c:243-247 | some state on the way reports a pattern iff the pattern is found in the text |
| AcScan.ScanBitmask | internal/cbm/ac.c:236-249 | bit p is set iff pattern p is found, for every p below 64 |
| AcScan.BuildAndScan | internal/cbm/ac.c:72-249 | from pattern list, alphabet and text to the mask: for a non-empty pattern bit p iff the pattern occurs in the text, byte for byte without a table and symbol for symbol under the table given; for an empty pattern if and only if some symbol starts no pattern |
| AcScan.OccurrenceLaw | internal/cbm/ac.c:109-115 | found means occurs if and only if the pattern is non-empty or the text has a symbol starting no pattern; `BuildAndScan` states it of the mask |
| AcScan.EmptyPatternMissed | internal/cbm/ac.c:109-115 | an input on which the empty pattern occurs and is not found |
| AcBatch.AscendingExact | internal/cbm/ac.c:391-398 | the bit loop lists exactly the ids of a word in ascending order |
| AcBatch.NewIdsExact | internal/cbm/ac.c:380-398 | over a run of words exactly the ids not seen before are listed, each once |
| AcBatch.ReportExact | internal/cbm/ac.c:374-408 | (n, p) is reported iff p is an id of name n |
| AcBatch.ReportOnce | internal/cbm/ac.c:374-408 | no pair is reported twice |
| AcBatch.ReportInOrder | internal/cbm/ac.c:374-408 | the report goes through the names in order |
| AcBatch.ChainAddsNothing | internal/cbm/ac.c:125-128 | an output link leads to a strictly shallower state whose ids are all in the word already |
| AcBatch.StoreBits | internal/cbm/ac.c:390-398 | the stored pairs are a prefix of the full report; with room left the whole word is taken over |
| AcBatch.ReportState | internal/cbm/ac.c:387-406 | the output walk terminates and stores exactly the state's new ids, as far as there is room |
| AcBatch.ScanName | internal/cbm/ac.c:375-407 | one name's part of the report is stored, as far as there is room |
| AcBatch.ScanBatch | internal/cbm/ac.c:367-410 | what is written is the full report cut at `max_matches` |
| AcBatch.BatchFindsAll | internal/cbm/ac.c:367-410 | the full report has (n, p) iff p is below 64 and pattern p occurs in name n, each pair once |
| AcBatch.BeyondTheMask | internal/cbm/ac.c:386-406 | no pattern from the sixty-fifth on is in the full report |
| AcBatch.LatePatternMissed | internal/cbm/ac.c:367-410 | the batch never writes such a pattern, however much room there is |
| AcBatch.SixtyFifthOccurs | internal/cbm/ac.c:86-88 | a list of sixty-five patterns and a name in which the last one occurs |
| AcBatch.BatchEmptyPattern | internal/cbm/ac.c:387-390 | an empty pattern is in the full report iff a non-empty prefix of a pattern ends where the last symbol starts no pattern |
| AcBatch.BeyondRoot | internal/cbm/ac.c:383-388 | the state is not the root iff some non-empty prefix of a pattern ends at the position |
| AcBatch.BatchMissesEmpty | internal/cbm/ac.c:387-390 | an input on which the empty pattern occurs and the mask finds it but the batch does not |
| AcBatch.BatchMissesEmptyPattern | internal/cbm/ac.c:367-410 | the same input put through the code: bit set in the mask, pair absent from the batch |
| AcLz4.DecompBuffer.Get | internal/cbm/ac.c:258-267 | the capacity covers the request, grows by 64 KiB chunks, and null is returned exactly on a failed allocation |
| AcLz4.EntryBits | internal/cbm/ac.c:272-289 | bit p is set iff the entry has data and two positive lengths, decompresses, and its text holds pattern p |
| AcLz4.ScanLz4Bitmask | internal/cbm/ac.c:272-289 | the mask of the decompressed text, zero for unusable entries, whatever the buffer held before |
| AcLz4.ScanEntries | internal/cbm/ac.c:321-346 | the non-zero masks of the entries in order with their positions, cut at `max_matches` |
| AcLz4.HitsExact | internal/cbm/ac.c:321-346 | an index and a mask are reported iff the mask is that entry's and has a bit set |
| AcLz4.HitsInOrder | internal/cbm/ac.c:321-346 | the entries are reported in strictly increasing order |
| AcLz4.ScanLz4Batch | internal/cbm/ac.c:298-349 | the same as scanning each entry by itself, zero results left out, cut at `max_matches` |
| AcLz4.NoHits | internal/cbm/ac.c:322-324 | entries without data or without a positive length contribute nothing |
| Tree.PositionsExact | internal/cbm/extract_unified.c:844-882 | the pre-order listing holds exactly the positions of the tree |
| Tree.PositionsOnce | internal/cbm/extract_unified.c:844-882 | the pre-order listing holds no position twice |
| Tree.NodesAtPositions | internal/cbm/extract_unified.c:845 | the nodes at the listed positions are the pre-order of nodes |
| Scopes.WalkState.Push | internal/cbm/extract_unified.c:16-24 | the stack gains the scope unless it is full |
| Scopes.WalkState.PopExpired | internal/cbm/extract_unified.c:27-31 | the stack loses exactly its deepest scopes at or below the cursor's depth |
| Scopes.WalkState.Recompute | internal/cbm/extract_unified.c:34-66 | the six fields are those the stack determines, outermost scope first |
| Scopes.PopCapped | internal/cbm/extract_unified.c:16-31 | popping after capping leaves the first 64 of the shallow scopes, whatever was dropped |
| UnifiedWalk.PushBoundary | internal/cbm/extract_unified.c:790-830 | the scopes a node opens are pushed in order, as far as they fit |
| UnifiedWalk.OpensInOrder | internal/cbm/extract_unified.c:790-830 | a node opens at most one definition, call, import and nesting scope, in this order, each exactly when its node type calls for it |
| UnifiedWalk.PopToPosition | internal/cbm/extract_unified.c:847 | after popping, the stack is exactly the first 64 scopes opened by the node's proper ancestors |
| UnifiedWalk.Climb | internal/cbm/extract_unified.c:871-881 | climbing stops at the next position in pre-order with its true depth, or at the end |
| UnifiedWalk.MoveOn | internal/cbm/extract_unified.c:864-881 | one move goes from a position to its successor in pre-order |
| UnifiedWalk.ExtractUnified | internal/cbm/extract_unified.c:832-885 | every position once, in pre-order, with its true depth and the state its ancestors' first 64 scopes determine |
| UnifiedWalk.VisitsArePreOrder | internal/cbm/extract_unified.c:842-882 | the cursor walk visits the same node sequence as the node-stack walk, each position once |
| Ancestors.StateIsAncestors | internal/cbm/extract_unified.c:34-66 | while at most 64 scopes are open the walk state is the state read off the ancestors |
| Ancestors.AncestorStateMeaning | internal/cbm/extract_unified.c:34-66 | loop and branch depth count the ancestors of those node types, a loop not being a branch; inside-call and inside-import say whether one exists |
| Ancestors.EnclosingFunc | internal/cbm/extract_unified.c:44-46 | the enclosing function is that of the innermost ancestor opening a named function |
| Ancestors.NoEnclosingFunc | internal/cbm/extract_unified.c:35 | without such an ancestor it is the module |
| Ancestors.EnclosingClass | internal/cbm/extract_unified.c:47-49 | the enclosing class is that of the innermost ancestor opening a named class |
| Ancestors.NoEnclosingClass | internal/cbm/extract_unified.c:36 | without such an ancestor there is no enclosing class |
| Ancestors.ClassByName | internal/cbm/extract_unified.c:47-49 | the enclosing class is the file's qualified name for the innermost ancestor of a class type with a name or impl block with a type |
| Ancestors.FuncByName | internal/cbm/extract_unified.c:107-128 | the enclosing function is the innermost named one: behind the class above it, or behind the file without one or in Wolfram |
| Ancestors.NamesByKind | internal/cbm/extract_unified.c:34-128 | both of the walk state, while at most 64 scopes are open, in terms of the ancestors' kinds and names alone; the module without a named function |
| Ancestors.IsInsideCall | internal/cbm/extract_usages.c:18-29 | true iff one of the ten nearest ancestors is a call |
| Ancestors.InsideCallAgreement | internal/cbm/extract_usages.c:18-29 | the parent walk implies the walk state; they agree iff the nearest call, if any, is within ten levels |
| Ancestors.InsideCallSound | internal/cbm/extract_unified.c:50-52 | however many scopes are open, the state never claims a call that is not there |
| Ancestors.PastTheCap | internal/cbm/extract_unified.c:16-66 | for any number of open scopes, all six fields: the ancestors' state is the walk state with the lost scopes taken into account |
| Ancestors.AllOpenedMeans | internal/cbm/extract_unified.c:34-66 | the ancestors' state is what all their scopes, uncapped and truly named, mean |
| Ancestors.FirstScopesTrue | internal/cbm/extract_unified.c:16-24 | whatever is lost past the cap, the 64 scopes kept are the true ones |
| Ancestors.StateIsAncestorsIff | internal/cbm/extract_unified.c:16-66 | the walk state is the ancestors' state iff the lost scopes hold no loop or branch and nothing new about function, class, call and import |
| Ancestors.NestIsCapped | internal/cbm/extract_unified.c:17-19 | under n nested loops the ancestors' state counts n and the walk state at most 64 |
| Ancestors.FunctionPastTheCap | internal/cbm/extract_unified.c:17-19 | inside a named function below 64 or more loops the walk state still names the module |
| NodeStack.TSNodeStack.Push | internal/cbm/extract_node_stack.h:33-47 | the node is appended, or dropped when a needed growth is refused; the capacity doubles, from 512 if there was none, only when the stack is full |
| NodeStack.TSNodeStack.Pop | internal/cbm/extract_node_stack.h:50-52 | the last node is removed and returned |
| NodeStack.TSNodeStack.ReverseFrom | internal/cbm/extract_node_stack.h:75-83 | the segment is reversed, the rest untouched |
| NodeStack.TSNodeStack.PushChildren | internal/cbm/extract_node_stack.h:66-84 | the same stack as pushing the children from last to first, minus exactly those dropped by a refused growth |
| NodeStack.AcceptedNodes | internal/cbm/extract_node_stack.h:33-47 | with every growth granted, or none needed, all nodes are accepted, otherwise a subsequence |
| NodeStack.PendingChildren | internal/cbm/extract_node_stack.h:66-84 | the pushed children are visited in order before everything below them |
| NodeStack.PendingKept | internal/cbm/extract_node_stack.h:66-84 | dropping children leaves out exactly what is below them and keeps the order |
| NodeStack.AcceptedOrRejected | internal/cbm/extract_node_stack.h:33-47 | every node pushed is accepted or rejected, with all that is below it |
| NodeStack.ConservedStep | internal/cbm/extract_calls.c:749-776 | a round keeps: visited, pending and below-dropped nodes are the nodes of the tree |
| NodeStack.Walk | internal/cbm/extract_calls.c:744-777 | the pop and push-children loop terminates and visits the pre-order, except exactly the nodes at and below those dropped by a refused growth; a tree no larger than the first capacity is visited whole whatever is refused |
| CappedWalk.CappedStack.PushChildren | internal/cbm/helpers.c:601-608 | the last children that fit are pushed, last child first |
| CappedWalk.WithChildrenAt | internal/cbm/helpers.c:601-608 | entry by entry: what was there, then the last children with the last of them lowest, up to the capacity |
| CappedWalk.VisitsCounted | internal/cbm/helpers.c:454-467 | a capped walk visits at most as many nodes as there are, and all of them iff every push fits |
| CappedWalk.FittingIsPreOrder | internal/cbm/helpers.c:454-467 | a walk in which every push fits is the pre-order walk |
| CappedWalk.WholeIffFits | internal/cbm/helpers.c:454-467 | the capped walk is the pre-order if and only if the tree fits |
| CappedWalk.FitsByPosition | internal/cbm/helpers.c:464 | a tree fits iff at every position the later siblings on the way down plus the children are at most the capacity |
| CappedWalk.SmallFits | internal/cbm/helpers.c:464 | a tree with no more nodes than the capacity fits |
| Complexity.CountBranching | internal/cbm/helpers.c:449-469 | counts the branching nodes of the capped visiting sequence |
| Complexity.VisitMetrics | internal/cbm/helpers.c:562-609 | one visit accounts for the node, for the children it drops, and leaves the rest pending |
| Complexity.CountedAndDropped | internal/cbm/helpers.c:562-609 | conservation: the recursive metrics are what is counted plus what is dropped, for every tree |
| Complexity.FittingDropsNothing | internal/cbm/helpers.c:602 | nothing is dropped where every push fits |
| Complexity.FramesAreVisits | internal/cbm/helpers.c:562-609 | the walk with frames visits the same nodes as the branching count |
| Complexity.UnderApproximates | internal/cbm/helpers.c:562-609 | each metric is at most the recursive one; all are equal iff what is dropped adds nothing |
| Complexity.WideIsTruncated | internal/cbm/helpers.c:602 | a family of trees on which a branch is dropped and cyclomatic is 0 |
| Complexity.BalancedVisit | internal/cbm/helpers.c:583-600 | nesting depths never run ahead of the counts |
| Complexity.WalkingStep | internal/cbm/helpers.c:562-609 | one visit keeps the whole walk invariant and makes the stack lighter |
| Complexity.Tally | internal/cbm/helpers.c:572-600 | the five updates add the frame's contribution and give the children their nesting |
| Complexity.ComputeComplexity | internal/cbm/helpers.c:540-610 | the sum over the capped frame sequence; with what is dropped it is the recursive metrics; equal if the tree fits or has at most 4096 nodes; cyclomatic <= cognitive <= c(c+1)/2; loop depth <= loop count |
| Complexity.SmallTreesAreCountedWhole | internal/cbm/helpers.c:454-467 | every tree of at most 4096 nodes fits and is walked in pre-order |
| Complexity.Measure | internal/cbm/helpers.c:471-476 | `cyclomatic` equals the branching count for every tree, truncated or not; the walk's metrics with a table, all zero without |
| Nesting.FrameDepths | internal/cbm/helpers.c:583-600 | the depths handed down to a position count its branching and its loop ancestors |
| Nesting.FrameRun | internal/cbm/helpers.c:574-582 | the access depth handed down is the run of access nodes next above |
| Nesting.FullByPosition | internal/cbm/helpers.c:562-609 | the recursive metrics of a subtree are what its positions contribute |
| Nesting.MetricsByPosition | internal/cbm/helpers.c:540-610 | by positions alone: numbers of branching and loop positions, the sum of one plus the branches above over the branching ones, the most loops on a path, the longest run of accesses on a path |
| Nesting.CountedByPosition | internal/cbm/helpers.c:562-609 | also for a truncated tree the metrics are what the positions of the visited nodes contribute, each in its true nesting |
| KindSet.BitsMeaning | internal/cbm/helpers.c:409-412 | an exact bitset answers that the kind is listed and a lookup of the kind gives the node's in-range symbol |
| KindSet.RuntimeNodesAreProper | internal/cbm/vendored/ts_runtime/src/language.c:179-198 | the one thing asked of a node holds of every node of every generated symbol table, error nodes included |
| KindSet.RuntimeNodesAreOrdinary | internal/cbm/vendored/ts_runtime/src/language.c:179-198 | with one public symbol per name and namedness and no symbol 0, a node is ordinary iff it is not of a named rule spelled like a beginning of "ERROR" |
| KindSet.LinearCompare | internal/cbm/helpers.c:321-329 | true iff the kind is in the list |
| KindSet.Cache.BuildSlot | internal/cbm/helpers.c:342-384 | exact iff there are symbols, memory and a symbol for every name; then the bits are exactly the symbols of the listed names |
| KindSet.Cache.Get | internal/cbm/helpers.c:388-400 | the slot of the language and list asked for, none iff all eight probed slots are foreign; only an empty slot is ever filled |
| KindSet.Cache.KindInSet | internal/cbm/helpers.c:402-415 | equals the comparison if and only if not (a bitset is ready in the cache before the call, the kind is listed, and its lookup does not give the node's in-range symbol) |
| KindSet.Cache.FreeCache | internal/cbm/helpers.c:421-430 | every slot is empty afterwards |
| KindSet.Cache.Answers | internal/cbm/helpers.c:402-430 | for every history of queries and clears and any hash, no answer claims an unlisted kind, and every ordinary node gets the comparison's answer; `RuntimeNodesAreOrdinary` says which nodes are |
| KindSet.ErrorNodeMissed | internal/cbm/helpers.c:409-412 | a grammar, a list and the error node on which a new cache answers false although the kind is listed |
| KindSet.PrefixRuleMissed | internal/cbm/helpers.c:409-412 | a grammar with a rule and a token "E" on which a new cache answers false for a listed node of the rule |
| Arena.StoreElsewhere | internal/cbm/arena.c:52-54 | a store in one region is invisible in every disjoint one |
| Arena.CBMArena.constructor | internal/cbm/arena.c:7-14 | one block of 64 KiB, or none when it could not be allocated |
| Arena.CBMArena.Grow | internal/cbm/arena.c:16-33 | a new block of at least twice the size, or nothing changed |
| Arena.CBMArena.Alloc | internal/cbm/arena.c:35-55 | a request that fits is met at the bump pointer of the current block, without a new block; one that does not, at the start of a new block of at least twice the size; refused, changing nothing, exactly if empty, without a block, or when a needed block is not to be had; aligned, disjoint from all before; total at most 2 * block size - 64 KiB |
| Arena.CBMArena.Bump | internal/cbm/arena.c:52-54 | the region is the next bytes of the last block, disjoint from all before |
| Arena.CBMArena.Destroy | internal/cbm/arena.c:102-107 | no blocks, no regions |
| Growable.FlattenInjective | internal/cbm/cbm.c:106-119 | the stored bytes determine the elements |
| Growable.RehomeOk | internal/cbm/cbm.c:106-119 | moving one array to new storage disturbs no other array, stack or string |
| Growable.AppendOk | internal/cbm/cbm.c:121-124 | storing one element disturbs no other array, stack or string |
| Growable.AddVecOk | internal/cbm/extract_node_stack.h:26-30 | a new stack in fresh storage disturbs nothing |
| Growable.AddBlobOk | internal/cbm/arena.c:68-77 | a string in a region of its own disturbs nothing |
| Growable.Pool.Reserve | internal/cbm/cbm.c:106-119 | room for one more exactly when there was some, with nothing changed, or the arena grants twice the capacity, from the first capacity if there was none; else nothing changed |
| Growable.Pool.Move | internal/cbm/cbm.c:110-117 | the elements are the same in the new storage |
| Growable.Pool.PushItem | internal/cbm/cbm.c:121-124 | one array gains the element, no other changes; with room always accepted at the same capacity, without it accepted at twice the capacity or dropped |
| Growable.Pool.PopItem | internal/cbm/extract_node_stack.h:50-52 | the last element is read back from the stored bytes and removed |
| Growable.Pool.AddStack | internal/cbm/extract_node_stack.h:26-30 | an empty stack with the asked capacity if granted, else with none and a first growth to 512 |
| Growable.Pool.AddText | internal/cbm/arena.c:68-77 | the text and its terminator are stored exactly when the arena grants the room, and stay |
| Growable.Pool.Run | internal/cbm/cbm.c:106-124 | which operations are accepted and every size, count and capacity afterwards follow from the form before; each array and stack holds what the operations make of it; exactly the granted texts are stored |
| Growable.NothingRefused | internal/cbm/arena.c:16-55 | with every block granted and one spare block an operation no push and no text is refused |
| Growable.RunInPlace | internal/cbm/arena.c:35-55 | a run whose demands together fit the current block is accepted in full and needs no new block, whatever allocations would do |
| Growable.TextsInPlace | internal/cbm/arena.c:35-77 | so do texts whose sizes with terminator, rounded up to eight, fit together |
| Growable.NextOk | internal/cbm/cbm.c:106-119 | an operation keeps the doubling of capacities and adds at most one block |
| Growable.KindsKept | internal/cbm/cbm.c:106-119 | element size and first capacity of a vector never change |
| Growable.ArrayCapacity | internal/cbm/cbm.c:109 | an array created at any point of a run has capacity zero or 32 doubled some number of times |
| Growable.RunsAreIndependent | internal/cbm/cbm.c:106-124 | each array and stack, there before the run or created in it, holds exactly its own accepted pushes in order |
| Stubs.EnqueueTargets | scripts/gen-py-stdlib.py:236-247 | each new target with a stub file is queued once; the search budget is kept |
| Stubs.VisitKeeps | scripts/gen-py-stdlib.py:228-247 | recording a module keeps the worklist invariant |
| Stubs.CollectedIsLeast | scripts/gen-py-stdlib.py:228-249 | with an empty queue the result is the least closed set |
| Stubs.CollectAllStubs | scripts/gen-py-stdlib.py:227-249 | terminates with the least set holding the roots and every star target that has a stub file, each parsed from its file |
| Stubs.AllowedRoots | scripts/gen-py-stdlib.py:208-225 | the first pass queues exactly the allowlisted public stub files, in listing order, under their dotted names |
| Stubs.RootsExact | scripts/gen-py-stdlib.py:208-225 | a file is queued iff it is in the listing and listed |
| Stubs.ListedByTop | scripts/gen-py-stdlib.py:217-222 | a file is listed by its topmost name alone: allowed and not starting with an underscore |
| Stubs.NameOfFile | scripts/gen-py-stdlib.py:211-225 | the name of a file is that of its directory for `__init__.pyi`, else the directory's, a dot and the file's without its extension |
| Stubs.PackageOrModule | scripts/gen-py-stdlib.py:211-224 | `a/b/__init__.pyi` and `a/b.pyi` are the same module a.b |
| Stubs.CollectListed | scripts/gen-py-stdlib.py:201-249 | both passes: the least closed set from the allowlisted files of the listing |
| Stubs.CollectedIsReached | scripts/gen-py-stdlib.py:228-249 | in terms of the input alone: exactly the modules reached from the roots by star imports through existing stub files |
| Reexports.CopyKeepsOwn | scripts/gen-py-stdlib.py:271-291 | own entries stay a prefix and no name is added twice |
| Reexports.CopyNames | scripts/gen-py-stdlib.py:271-291 | afterwards exactly the names of both lists |
| Reexports.CopyEntries | scripts/gen-py-stdlib.py:271-291 | what was there stays; every added entry is qualified by the importing module and has name and detail of the target's first entry of that name |
| Reexports.Copy | scripts/gen-py-stdlib.py:269-281 | the loop with its name set copies exactly the missing names and reports whether it did |
| Reexports.MergeSound | scripts/gen-py-stdlib.py:264-291 | past the own entries every one is qualified by the importing module and has name and detail of an own entry of a module in reach |
| Reexports.TakeOverAll | scripts/gen-py-stdlib.py:263-291 | a module takes over all its targets, lists only grow, and a change is reported iff there is one |
| Reexports.OwnEntryKept | scripts/gen-py-stdlib.py:272-273 | an entry a module has is never replaced |
| Reexports.NotOffered | scripts/gen-py-stdlib.py:264-291 | a name no target offers is not gained |
| Reexports.FirstTargetWins | scripts/gen-py-stdlib.py:263-291 | of several targets that offer a name the first in the order of the imports gives its detail, under the importing module's name |
| Reexports.Round | scripts/gen-py-stdlib.py:260-291 | a round is the in-place function over the modules in order, lists only grow, and a change is reported iff there is one |
| Reexports.ResolveReexports | scripts/gen-py-stdlib.py:252-291 | the modules after eight full rounds, whether or not it stops early; own entries first, every other qualified by the module and owned by a module in reach, no name added twice; stops early only when stable |
| Reexports.AfterRoundsOk | scripts/gen-py-stdlib.py:257-291 | after any number of rounds every module starts with its own entries, every other is qualified by the module, has name and detail of an own entry of a module in reach, and no name is added twice |
| Arrivals.StableIsLeastFixpoint | scripts/gen-py-stdlib.py:257-260 | a round that changes nothing has reached the least fixed point |
| Arrivals.ImportersFirstExact | scripts/gen-py-stdlib.py:259 | when importers come first, r rounds carry a name exactly r imports far |
| Reexports.StableRounds | scripts/gen-py-stdlib.py:259-261 | once a round changes nothing no later round does |
| Arrivals.RoundNames | scripts/gen-py-stdlib.py:262-291 | inside a round: a module done has what arrives within one round more, the others do not yet |
| Arrivals.ArrivalLaw | scripts/gen-py-stdlib.py:257-291 | for every graph and order, after r rounds a module has exactly the names that arrive within r rounds |
| Arrivals.OwnedIffArrives | scripts/gen-py-stdlib.py:257-291 | a name is owned in reach over star imports iff it arrives after enough rounds |
| Arrivals.CompleteWithin | scripts/gen-py-stdlib.py:257-291 | after k rounds a module has every name owned within k imports |
| Arrivals.FixpointIffEightSuffice | scripts/gen-py-stdlib.py:259 | the capped result is the least fixed point iff every name that arrives at all arrives within eight rounds |
| Arrivals.Resolve | scripts/gen-py-stdlib.py:252-291 | on any input: exactly the names that arrive within eight rounds, the fixed point iff eight suffice, and the fixed point whenever it stops early |
| Arrivals.ChainIsCutOff | scripts/gen-py-stdlib.py:259 | a chain of ten modules on which the first does not get the class of the last |
| Fqn.StripExtLen | internal/cbm/helpers.c:997-1007 | the position of the last dot if no slash follows it; the full length exactly when every dot has a slash behind it |
| Fqn.CountedFits | internal/cbm/helpers.c:1054 | the dotted segments need at most the path length and one |
| Fqn.AppendSegments | internal/cbm/helpers.c:1024-1043 | each non-empty part behind a dot, a final package file dropped exactly when a name follows |
| Fqn.FqnCompute | internal/cbm/helpers.c:1045-1074 | project, segments and name, written within the allocated length; null exactly when the buffer is refused |
| Fqn.FqnFolder | internal/cbm/helpers.c:1080-1111 | project and directory parts, written within the allocated length; null exactly when the buffer is refused |
| Fqn.NameLaw | internal/cbm/helpers.c:994-1074 | project, directories, file without extension and symbol joined by dots, empty parts left out, `__init__` and `index` left out where a symbol follows |
| Fqn.FolderLaw | internal/cbm/helpers.c:1080-1111 | project and non-empty directories joined by dots; the project alone for "." |
| Fqn.SplitSlashed | internal/cbm/helpers.c:1024-1043 | splitting undoes joining by slashes |
| Fqn.SlashedSplit | internal/cbm/helpers.c:1024-1043 | every path is its parts joined by slashes, so the name law covers every path |
| Idents.HashSpan | internal/cbm/extract_defs.c:38-44 | the 32-bit polynomial hash of the text |
| Idents.HashLaw | internal/cbm/extract_defs.c:38-52 | the hash is the sum of the bytes times powers of 31 modulo 2 to the 32, the key the hash with its low bit set |
| Idents.LastByteTells | internal/cbm/extract_defs.c:38-52 | texts that differ in the last byte only, by more than the low bit, have different keys |
| Idents.Probe | internal/cbm/extract_defs.c:49-63 | duplicate iff the key is found before a free slot; otherwise recorded if there is one; nothing recorded is lost |
| Idents.TokenBuffer.TryAppend | internal/cbm/extract_defs.c:47-74 | appended iff no duplicate and room; the buffer spells the tokens and keeps room for a terminator |
| Idents.OffersExact | internal/cbm/extract_defs.c:89-100 | the texts met are exactly those of leaves of the three identifier kinds, of one to 63 bytes |
| Idents.OffersInOrder | internal/cbm/extract_defs.c:89-100 | in the order of the visits |
| Idents.BodyTokens | internal/cbm/extract_defs.c:78-114 | of the identifiers the 512-entry walk meets: at most 40 kept, in the order met, in fewer than 512 bytes; none twice for at most 128 different ones; none left out without a reason |

## Left out

- Integer widths: `int` and `size_t` overflow in table sizes, counters and arena sizes is not modelled; the 32-bit hash and the 64-bit masks are.
- `ac_shrink_tables`, `cbm_ac_free` and the info functions: reallocation to the exact size and freeing change no entry that is read.
- Pattern ids of 64 and above: the scans never report them, which is proved; `output_list` is modelled only as far as it decides `output_next`.
- LZ4, tree-sitter, `malloc`: a bounded decompression function, a finite tree with a cursor, and a flag saying whether an allocation succeeds.
- Node-type tables (loops, accesses, declarations, language specs) are parameters, an absent table counting as an empty one; the theorems hold for every table.
- Names of functions, classes and impl blocks are functions of the node's position; how each language's grammar spells them is not modelled.
- The handlers called at each node of the unified walk: what they are given is modelled, what they extract is not.
- NodeStack.Walk: allocation outcomes are an input; that the stack's storage is a region of the arena is shown in `Growable`.
- NodeStack.TSNodeStack.Pop: a stack that is not empty is required, as the source's comment demands.
- Idents.BodyTokens: the final copy of the text into the arena is not modelled; an empty text stands for null.
- Stubs.CollectListed: the directory listing is an input, and which star targets have a stub file is a map from module name to path.
- Reexports.ResolveReexports: modules are values in a map instead of shared mutable lists; a function's `module_qn` is not kept apart from its qualified name.
- KindSet.Cache.KindInSet: languages and lists are identified by address and never change, as the source's static tables do not.
- `cbm_enclosing_func_qn_cached`: its first-match lookup by byte range cannot agree with the parent walk for nested functions.
- Per-language extraction of names, callees, imports, channels and types: long case tables that would only add easy members.
- The user interface, packaging, process control and the SQLite writer.
