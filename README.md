# PhaseUnfolder, modelled in Dafny

vg's `PhaseUnfolder` turns the pruned regions of a variation graph back into
haplotype-aware structure. Missing edges are found from the XG index's
embedded paths and from the GBWT index's threads. They form a complement
graph, which is split into components. In each component, the unfolder
collects the "border-to-border" paths:

- walks along an embedded path from a border node;
- searches over the component's edges that occur in some thread.

It then folds each such path, in its canonical orientation, into two tries:
one of prefixes and one of reverse suffixes. Each inner node of a path gets a
duplicate node id, recorded in a node mapping from duplicate to original id.
The two halves of a path are joined by a crossing edge. The tries and the
crossing edges become the nodes and edges of the unfolded graph, which is
added to the input graph.

The unfolder can also:

- restore the edges of the embedded paths into a graph;
- check that every path and thread can still be spelled in the unfolded
  graph through the duplicates;
- write, read and query the node mapping.

The project has seven modules:

- `Oriented`: node orientations (`ONode`) with the GBWT encoding
  `2 * id + strand`; reverse complements; the canonical orientation (the
  smaller of a path and its reverse complement); edges (`MakeEdge`).
- `Graphs`: a VG graph as a class of node ids and edges; the edges between
  neighbours of a path (`Steps`).
- `Registry`: the node mapping (`NodeMapping`): the range `[firstNode,
  nextNode)` of duplicate ids with their originals, its serialized form and
  its loader.
- `TrieFold`: `insert_path` as a pure function (`Fold`) on the folder's state.
  Properties are proved about it: the allocation pattern, the trie invariant,
  monotonicity, that every inserted path has an unfolded copy, and that two
  copies share inner nodes only on a shared prefix or suffix of their paths.
- `Walks`: the walks of `generate_paths`, and the GBWT (as its threads) with
  the searches of `generate_threads`. It holds what each emitted path is
  evidence of, that the searches miss no evidence, and the measure under
  which the depth-first search ends.
- `Verifier`: the reverse mapping and `verify_path` / `verify_paths`. The
  branch-stack search is a method, proved against the walk it finds.
- `Unfolder`: the `PhaseUnfolder` class. It has its scratch fields (border,
  state stack, tries, crossing edges) and one method per operation of the
  source. Each method is proved against the `TrieFold` and `Walks`
  functions.

## Model

| member | source | states |
|---|---|---|
| Oriented.DecodeEncode | src/phase_unfolder.cpp:364-365 | splitting an encoded node into id and strand gives back the node orientation that was encoded |
| Oriented.Decode | src/phase_unfolder.cpp:364-365 | every encoded value is the encoding of the orientation it decodes to |
| Oriented.NullIsZero | src/phase_unfolder.cpp:428-429 | the value 0 that marks an unassigned trie entry encodes exactly one orientation (id 0, forward) |
| Oriented.Reverse | src/phase_unfolder.cpp:414 | reversing keeps the id, flips the strand and moves the encoded value by one within its pair |
| Oriented.NodeLessIsEncodedLess | src/phase_unfolder.cpp:416 | the order on orientations is the numeric order of their encodings |
| Oriented.PathLessIsEncodedLess | src/phase_unfolder.cpp:416 | the path order is the lexicographic order of the encoded vectors, which std::min compares |
| Oriented.PathLessTotal | src/phase_unfolder.cpp:416 | any two different paths are ordered one way or the other |
| Oriented.PathLessAsymmetric | src/phase_unfolder.cpp:416 | no two paths are each smaller than the other |
| Oriented.ReverseComplementAt | src/phase_unfolder.cpp:412-415 | position size-1-i of the reverse complement holds the reverse of position i |
| Oriented.ReverseComplementInvolution | src/phase_unfolder.cpp:412-415 | taking the reverse complement twice gives back the path |
| Oriented.Canonical | src/phase_unfolder.cpp:416 | the orientation inserted is the path or its reverse complement, of the same length |
| Oriented.CanonicalIsMinimal | src/phase_unfolder.cpp:416 | the inserted orientation is not larger than its own reverse complement |
| Oriented.CanonicalOfReverseComplement | src/phase_unfolder.cpp:412-416 | a path and its reverse complement are inserted in the same orientation |
| Oriented.CanonicalIds | src/phase_unfolder.cpp:412-416 | choosing the orientation keeps every id below a bound that the path's ids are below |
| Oriented.MakeEdge | src/phase_unfolder.hpp:100-103 | the edge is (from, to) or its mirror (reverse to, reverse from) |
| Oriented.MakeEdgeMirror | src/phase_unfolder.hpp:100-103 | an edge and its mirror traversal give the same stored edge |
| Oriented.MakeEdgeCanonical | src/phase_unfolder.hpp:100-103 | making an edge from a stored edge's own ends gives it back |
| Graphs.Graph.constructor | src/phase_unfolder.cpp:17 | a new graph has no nodes and no edges |
| Graphs.Graph.AddNode | src/phase_unfolder.cpp:43 | adds the node id and changes no edge |
| Graphs.Graph.AddEdge | src/phase_unfolder.cpp:45 | adds the edge and changes no node |
| Graphs.Graph.Extend | src/phase_unfolder.cpp:27 | the graph gains every node and every edge of the other graph |
| Graphs.MakeEdgeEndpoints | src/phase_unfolder.hpp:100-103 | both spellings of an edge join the same two ids |
| Graphs.StepsExactly | src/phase_unfolder.cpp:38-48 | the edges of a path are exactly the edges made between some pair of neighbours |
| Graphs.AllStepsExactly | src/phase_unfolder.cpp:32-49 | the edges of a set of paths are exactly those of some one path |
| Registry.LookupAfterAllocation | src/phase_unfolder.cpp:430 | a new id resolves to its original, and every other id resolves as before |
| Registry.NodeMapping.constructor | src/phase_unfolder.cpp:9-11 | an empty mapping whose first duplicate will be next_node |
| Registry.NodeMapping.Insert | src/phase_unfolder.cpp:430 | hands out the next id, records its original, and leaves the resolution of every other id unchanged |
| Registry.NodeMapping.Serialize | src/phase_unfolder.hpp:78-83 | the file covers the ids from next_node - mapping_size up to next_node, each with its original |
| Registry.NodeMapping.Load | src/phase_unfolder.hpp:85-90 | the mapping is replaced by the file's, and new duplicates follow the file's last id |
| TrieFold.SplitBoundary | src/phase_unfolder.cpp:427-438 | each inner position of the path belongs to exactly one trie and the endpoints to neither; the two loops cover size - 2 positions |
| TrieFold.Intern | src/phase_unfolder.cpp:428-433 | a present key is kept and allocates nothing; a missing key gets the next id, standing for the node in its strand |
| TrieFold.FoldAllAppend | src/phase_unfolder.cpp:407-449 | inserting two batches of paths is inserting the first and then the second |
| TrieFold.FoldShortPath | src/phase_unfolder.cpp:409-411 | a path with fewer than two nodes changes nothing |
| TrieFold.FoldMirror | src/phase_unfolder.cpp:412-416 | inserting a path and inserting its reverse complement have the same effect |
| TrieFold.PrefixFoldAllMiss | src/phase_unfolder.cpp:425-434 | in a trie with no key at or after the chain end, the prefix loop allocates one duplicate per position, in order |
| TrieFold.SuffixFoldAllMiss | src/phase_unfolder.cpp:436-445 | likewise for the suffix loop, allocating its duplicates from the back |
| TrieFold.FoldIntoEmptyTries | src/phase_unfolder.cpp:407-449 | the first path allocates exactly size - 2 duplicates: the prefix half in order, then the suffix half from the back |
| TrieFold.EmptyTriesInv | src/phase_unfolder.hpp:149-153 | empty tries satisfy the trie invariant |
| TrieFold.StandsForAfterAllocation | src/phase_unfolder.cpp:430 | later allocations do not change what an allocated duplicate stands for |
| TrieFold.AllocationKeepsTries | src/phase_unfolder.hpp:149-151 | allocating an id keeps every trie entry a duplicate of the right node |
| TrieFold.FreshKeepsDistinct | src/phase_unfolder.cpp:430-431 | storing a freshly allocated id keeps the stored duplicate ids pairwise distinct |
| TrieFold.InternPrefixInv | src/phase_unfolder.cpp:428-433 | one prefix-trie step keeps the trie invariant |
| TrieFold.InternSuffixInv | src/phase_unfolder.cpp:439-444 | one suffix-trie step keeps the trie invariant |
| TrieFold.PrefixFoldInv | src/phase_unfolder.cpp:425-434 | the prefix loop keeps the trie invariant |
| TrieFold.SuffixFoldInv | src/phase_unfolder.cpp:436-445 | the suffix loop keeps the trie invariant |
| TrieFold.FoldOrientedInv | src/phase_unfolder.cpp:425-448 | inserting an oriented path keeps the trie invariant |
| TrieFold.FoldInv | src/phase_unfolder.cpp:407-449 | insert_path keeps the meaning of every entry and the uniqueness of duplicates |
| TrieFold.FoldAllInv | src/phase_unfolder.cpp:407-449 | any sequence of insertions keeps the trie invariant |
| TrieFold.PrefixFoldGrows | src/phase_unfolder.cpp:428 | the prefix loop only adds trie entries and registry records |
| TrieFold.SuffixFoldGrows | src/phase_unfolder.cpp:439 | the suffix loop only adds trie entries and registry records |
| TrieFold.FoldGrows | src/phase_unfolder.cpp:407-449 | insert_path never removes or changes a trie entry, a crossing edge or a record |
| TrieFold.FoldAllGrows | src/phase_unfolder.cpp:407-449 | the same for any sequence of insertions |
| TrieFold.PrefixChain | src/phase_unfolder.cpp:425-434 | the prefix loop leaves a chain of trie entries from the first node to the end it returns |
| TrieFold.SuffixChain | src/phase_unfolder.cpp:436-445 | the suffix loop leaves a chain of trie entries from the end it returns to the last node |
| TrieFold.FoldOrientedRepresents | src/phase_unfolder.cpp:425-448 | the inserted path is spelled by a prefix chain and a suffix chain joined by its crossing edge |
| TrieFold.FoldRepresents | src/phase_unfolder.cpp:407-449 | after insert_path the canonical orientation of the path is represented |
| TrieFold.RepresentedMonotone | src/phase_unfolder.cpp:407-449 | a represented path stays represented through later insertions |
| TrieFold.FoldAllRepresents | src/phase_unfolder.cpp:407-449 | every path of two or more nodes in a sequence of insertions is represented at the end |
| TrieFold.RepresentedCopies | src/phase_unfolder.hpp:115-117 | a represented path's copy keeps its endpoints and duplicates each inner node in the same strand |
| TrieFold.RepresentedWalk | src/phase_unfolder.cpp:282-299 | the emitted prefix, suffix and crossing edges join every pair of neighbours of the copy |
| TrieFold.UnfoldedCopy | src/phase_unfolder.cpp:262-307 | every inserted path has a copy in the unfolded component: same endpoints, duplicated inner nodes, all edges present, represented through the tries |
| TrieFold.PrefixesMeet | src/phase_unfolder.hpp:114-117 | two copies sharing a duplicate in their prefix halves share it at the same position, after the same path prefix and the same duplicates |
| TrieFold.PrefixStepMeets | src/phase_unfolder.hpp:114-117 | a duplicate shared in the prefix halves comes from the same path node after the same previous node |
| TrieFold.SuffixesMeet | src/phase_unfolder.hpp:114-117 | two copies sharing a duplicate in their suffix halves share it at the same distance from the end, before the same path suffix and the same duplicates |
| TrieFold.SuffixStepMeets | src/phase_unfolder.hpp:114-117 | a duplicate shared in the suffix halves comes from the same path node before the same next node |
| TrieFold.PrefixNotSuffix | src/phase_unfolder.hpp:114-117 | a prefix-trie duplicate is never a suffix-trie duplicate |
| TrieFold.CopiesMeet | src/phase_unfolder.hpp:56-59 | two represented copies share an inner node only on a shared prefix or a shared suffix of their paths |
| TrieFold.UnfoldedCopiesMeet | src/phase_unfolder.hpp:114-117 | the copies of any two inserted paths of original nodes do not merge: they meet only on a shared prefix or suffix |
| Walks.WalkContinues | src/phase_unfolder.cpp:320-331 | a walk goes past a position only over an edge of the component and never past a border node |
| Walks.WalkUnique | src/phase_unfolder.cpp:317-333 | the walk from a position is determined: at most one buffer satisfies the walk's conditions |
| Walks.BackwardIsForward | src/phase_unfolder.cpp:336-351 | the backward walk is the forward walk along the reverse complement of the path |
| Walks.EvidenceIsWalk | src/phase_unfolder.cpp:315-353 | a walk from an occurrence is its forward walk or its backward walk |
| Walks.OccurrenceWalks | src/phase_unfolder.cpp:315-353 | an occurrence has exactly two walks, the forward one and the backward one |
| Walks.Occurrences | src/phase_unfolder.cpp:314 | lists positions holding the node, and every such position |
| Walks.CoverOccurrence | src/phase_unfolder.cpp:315-353 | inserting both walks of one more occurrence covers that occurrence |
| Walks.CoverComplete | src/phase_unfolder.cpp:314-354 | once all occurrences are covered, the inserted paths are exactly the walks from the node in that path |
| Walks.ForwardWalk | src/phase_unfolder.cpp:317-333 | builds the forward walk: consecutive nodes joined by component edges, stopping at the first border node |
| Walks.BackwardWalk | src/phase_unfolder.cpp:336-353 | builds the backward walk: the same walk on the opposite strand towards the path's start |
| Walks.StateOkBounded | src/phase_unfolder.cpp:390-403 | a non-empty search state's path occurs in a thread, so it is no longer than the longest thread |
| Walks.EndsAtSnoc | src/phase_unfolder.cpp:398 | an occurrence of a path plus a node ends where an occurrence of the path ends, followed by that node |
| Walks.FindOk | src/phase_unfolder.cpp:389-395 | a non-empty find starts the search for the one-node path |
| Walks.ExtendOk | src/phase_unfolder.cpp:397-405 | a non-empty extend is the search for the longer path |
| Walks.ExtendIsSupport | src/phase_unfolder.cpp:397-401 | extend is empty exactly when the longer path occurs in no thread |
| Walks.SuccessorEdgesAreSteps | src/phase_unfolder.cpp:236-250 | the GBWT successor lists describe exactly the edges between neighbours on the threads |
| Walks.Follow | src/phase_unfolder.cpp:375-380 | an edge leads from a node out of its from side, or backwards out of its to side on the other strand, and nowhere otherwise |
| Walks.EdgesOf | src/phase_unfolder.cpp:372 | the edges at a node are edges of the component, and every edge touching the node is among them |
| Walks.NoneSupportedAdd | src/phase_unfolder.cpp:374-385 | an edge whose extension is not in a thread keeps the "no supported extension" fact |
| Walks.NoneSupportedAtNode | src/phase_unfolder.cpp:372 | only the edges at the last node can extend a path, so checking them suffices |
| Walks.BorderEvidence | src/phase_unfolder.cpp:367-370 | a popped path of two or more nodes ending at a border node is evidence and pushes nothing |
| Walks.MaximalEvidence | src/phase_unfolder.cpp:383-385 | a popped path that no edge extends is evidence |
| Walks.SeedSearching | src/phase_unfolder.cpp:389-395 | the one-node state of an orientation of the start node is a valid stack state |
| Walks.SeedsSearching | src/phase_unfolder.cpp:359-360 | the states for both orientations of the start node are valid stack states |
| Walks.ThreadWalkExtend | src/phase_unfolder.cpp:374-381 | extending along a component edge out of the last node keeps a path a walk from the start |
| Walks.EdgeLoopPush | src/phase_unfolder.cpp:374-381 | an edge across which the search extends pushes a valid state one node longer, recorded as that edge's extension |
| Walks.EdgeLoopSkip | src/phase_unfolder.cpp:374-381 | an edge that gives no extension pushes nothing and keeps the loop's facts, completeness included |
| Walks.ExpandedAtNode | src/phase_unfolder.cpp:372-381 | the extensions found over the edges at the last node are all the extensions over the component's edges |
| Walks.SupportedPrefix | src/phase_unfolder.cpp:374-381 | a non-empty prefix of a path found in a thread is found in that thread |
| Walks.SeedsCover | src/phase_unfolder.cpp:359-360 | every thread walk from the start node begins with one of the two seeds |
| Walks.CoverStep | src/phase_unfolder.cpp:362-386 | one search iteration loses no thread walk: each was emitted, is the popped path and gets inserted, or extends a path left on the stack |
| Walks.CoverTop | src/phase_unfolder.cpp:367-385 | a thread walk that extends the popped path is that path, inserted, or extends one of the pushed paths |
| Walks.CoverLonger | src/phase_unfolder.cpp:372-381 | a thread walk longer than the popped path continues across an edge whose extension was pushed |
| Walks.NothingPushed | src/phase_unfolder.cpp:383-385 | a path that no edge extends within the threads has nothing pushed after it |
| Walks.ExtensionSupported | src/phase_unfolder.cpp:374-381 | a pushed state one node longer shows an edge across which the path extends within the threads |
| Walks.CoveredExactly | src/phase_unfolder.cpp:262-274 | folding only evidence and all evidence from every border node means the folded paths are exactly the evidence |
| Walks.SearchingExtend | src/phase_unfolder.cpp:397-404 | extending a valid state along an edge, when the result occurs, gives a valid state |
| Walks.StartEvidence | src/phase_unfolder.cpp:271-274 | the paths and threads generated from one border node are evidence and include every path walk and thread walk from it |
| Walks.EvidenceAppend | src/phase_unfolder.cpp:271-274 | appending one more border node's output keeps everything evidence and extends the coverage of path and thread walks to that node |
| Walks.StackStep | src/phase_unfolder.cpp:362-386 | replacing the popped state by its extensions keeps a stack of valid states and makes it strictly lighter, so the search ends |
| Unfolder.PhaseUnfolder.constructor | src/phase_unfolder.cpp:9-11 | stores the indexes, starts the mapping at next_node, with empty scratch state |
| Unfolder.PhaseUnfolder.Emplace | src/phase_unfolder.cpp:428-433 | one emplace step changes trie and mapping as Intern says |
| Unfolder.PhaseUnfolder.WalkPrefixes | src/phase_unfolder.cpp:425-434 | the prefix loop changes the trie and the mapping as PrefixFold says, keeping the invariant |
| Unfolder.PhaseUnfolder.WalkSuffixes | src/phase_unfolder.cpp:436-445 | the suffix loop changes the trie and the mapping as SuffixFold says, keeping the invariant |
| Unfolder.PhaseUnfolder.SuffixStep | src/phase_unfolder.cpp:439-444 | one suffix step, as the first step of SuffixFold |
| Unfolder.PhaseUnfolder.ReverseComplementArray | src/phase_unfolder.cpp:412-415 | the buffer holds the reverse complement of the path |
| Unfolder.PhaseUnfolder.InsertOriented | src/phase_unfolder.cpp:425-448 | folds an oriented path as FoldOriented says, keeping the invariant |
| Unfolder.PhaseUnfolder.InsertPath | src/phase_unfolder.cpp:407-449 | the new state is Fold of the old one; border and stack are unchanged |
| Unfolder.PhaseUnfolder.InsertWalks | src/phase_unfolder.cpp:316-353 | inserts the forward and the backward walk from an occurrence, in that order |
| Unfolder.PhaseUnfolder.InsertOccurrence | src/phase_unfolder.cpp:315-354 | one occurrence more is covered and its walks are folded |
| Unfolder.PhaseUnfolder.InsertOccurrences | src/phase_unfolder.cpp:314-354 | folds exactly the walks from the occurrences of the node in one path |
| Unfolder.PhaseUnfolder.GeneratePaths | src/phase_unfolder.cpp:309-356 | folds exactly the walks from the node along every embedded path |
| Unfolder.PhaseUnfolder.CreateState | src/phase_unfolder.cpp:389-395 | pushes the search of the one-node path if it occurs, otherwise nothing |
| Unfolder.PhaseUnfolder.ExtendState | src/phase_unfolder.cpp:397-405 | pushes the extended state exactly when the extension is non-empty, and says so |
| Unfolder.PhaseUnfolder.FollowEdge | src/phase_unfolder.cpp:375-380 | follows the edge out of the state's last node when it leads anywhere and pushes a non-empty extension |
| Unfolder.PhaseUnfolder.ExtendAlongEdges | src/phase_unfolder.cpp:372-381 | pushes at most one valid longer state per edge, pushes the extension across every edge that gives a supported one, and reports none only when no edge does |
| Unfolder.PhaseUnfolder.VisitEdge | src/phase_unfolder.cpp:374-381 | one edge of the loop keeps the loop's facts, among them that every extending edge seen so far has its state pushed |
| Unfolder.PhaseUnfolder.ExpandState | src/phase_unfolder.cpp:372-385 | pushes every supported extension, each extending the path, or inserts the path as a maximal path exactly when there are none |
| Unfolder.PhaseUnfolder.PopState | src/phase_unfolder.cpp:363-385 | pops the top state; a border-ending path is inserted, any other has all its supported extensions pushed and is inserted exactly when there are none |
| Unfolder.PhaseUnfolder.SeedStates | src/phase_unfolder.cpp:359-360 | the stack starts with the seeds for both orientations of the start node |
| Unfolder.PhaseUnfolder.GenerateThreads | src/phase_unfolder.cpp:358-387 | the search ends with an empty stack; everything it folded is thread evidence from the start node, and every thread walk from the start node that is evidence was folded |
| Unfolder.PhaseUnfolder.ThreadStep | src/phase_unfolder.cpp:362-386 | one search iteration keeps the stack valid, strictly lowers its weight and loses no thread walk: each is emitted or extends a stacked path |
| Unfolder.PhaseUnfolder.CollectBorder | src/phase_unfolder.cpp:263-268 | the border gains the component's nodes that the graph also has |
| Unfolder.PhaseUnfolder.UnfoldFrom | src/phase_unfolder.cpp:271-274 | the paths and threads from one border node are evidence, and every path walk and thread walk from it is among them |
| Unfolder.PhaseUnfolder.EmitEdges | src/phase_unfolder.cpp:283-299 | adds every edge of the set and both of its end nodes |
| Unfolder.PhaseUnfolder.UnfoldBorder | src/phase_unfolder.cpp:270-274 | folds evidence from every border node, and every path walk and thread walk from the border is among the folded paths |
| Unfolder.PhaseUnfolder.EmitState | src/phase_unfolder.cpp:282-299 | adds the prefix-trie, suffix-trie and crossing edges with their end nodes |
| Unfolder.PhaseUnfolder.Emit | src/phase_unfolder.cpp:282-306 | writes the folded state into the unfolded graph, clears the scratch state, returns the number of crossing edges |
| Unfolder.PhaseUnfolder.UnfoldComponent | src/phase_unfolder.cpp:262-307 | the folded paths are exactly the evidence of the component (border-to-border and maximal path and thread walks), folded from empty tries; the unfolded graph gains their edges; returns the crossing count |
| Unfolder.PhaseUnfolder.UnfoldInto | src/phase_unfolder.cpp:18-20 | one component is unfolded into the shared unfolded graph, folding exactly its evidence into empty tries |
| Unfolder.PhaseUnfolder.Unfold | src/phase_unfolder.cpp:13-28 | each component is unfolded in order from exactly its evidence, the graph gains the union of their edges and end nodes, and the total of crossing edges is returned |
| Unfolder.PhaseUnfolder.AddMissingSteps | src/phase_unfolder.cpp:38-48 | adds the path's edges that the graph lacks, with their end nodes |
| Unfolder.PhaseUnfolder.RestorePaths | src/phase_unfolder.cpp:30-54 | the graph gains every edge of every embedded path and the end nodes of those that were missing |
| Unfolder.PhaseUnfolder.Complement | src/phase_unfolder.cpp:213-251 | the complement holds exactly the path and thread edges that the graph lacks, with their end nodes |
| Unfolder.PhaseUnfolder.AddSuccessorEdges | src/phase_unfolder.cpp:236-250 | adds the GBWT successor edges that the graph lacks |
| Unfolder.PhaseUnfolder.AddOutgoing | src/phase_unfolder.cpp:238-249 | adds the outgoing edges of one node that the graph lacks |
| Unfolder.PhaseUnfolder.AddMissing | src/phase_unfolder.cpp:41-46 | adds the candidate and its two end nodes exactly when the graph lacks it |
| Unfolder.PhaseUnfolder.VerifyPaths | src/phase_unfolder.cpp:152-187 | counts the failures over the embedded paths and then the threads; short paths pass; a path without duplicated nodes passes exactly when all its edges are present; a path that passes is spelled to its last node by a walk of the unfolded graph |
| Unfolder.PhaseUnfolder.GetMapping | src/phase_unfolder.cpp:209-211 | a duplicate resolves to its recorded original, any other id to itself |
| Unfolder.PhaseUnfolder.WriteMapping | src/phase_unfolder.cpp:189-197 | no file when it cannot be created; otherwise the header and every record of the mapping |
| Unfolder.PhaseUnfolder.ReadMapping | src/phase_unfolder.cpp:199-207 | an unopenable file leaves the mapping alone; otherwise the mapping becomes the file's |
| Unfolder.AllUnfoldedSnoc | src/phase_unfolder.cpp:18-20 | unfolding one more component extends the per-component facts |
| Unfolder.ComponentCopiesMeet | src/phase_unfolder.hpp:114-117 | in an unfolded component the copies of any two folded paths of original nodes meet only on a shared prefix or suffix |
| Unfolder.Smallest | src/phase_unfolder.cpp:271 | the next border node to visit is in the set and below every other |
| Verifier.Choice | src/phase_unfolder.cpp:106-112 | the node chosen at a position is a candidate for the path's node there |
| Verifier.WalkSnoc | src/phase_unfolder.cpp:132-142 | a verified walk extended over a present edge to a candidate stays verified |
| Verifier.NoDuplicatesWalk | src/phase_unfolder.cpp:116-146 | without duplicates, a verified walk over the whole path means all the path's edges are present |
| Verifier.NoDuplicatesBlocked | src/phase_unfolder.cpp:133-135 | without duplicates, a missing edge on the walk means the path's edges are not all present |
| Verifier.Sibling | src/phase_unfolder.cpp:124-131 | at most one branch is pushed, at the same offset and different from the current one; none when nothing is duplicated |
| Verifier.RankLaterOffset | src/phase_unfolder.cpp:142 | a branch at a later offset has a lower rank |
| Verifier.RankSibling | src/phase_unfolder.cpp:124-131 | a pushed sibling has a lower rank than its branch |
| Verifier.SiblingLighter | src/phase_unfolder.cpp:124-142 | pushing the sibling and advancing keeps the stack lighter than the popped branch's weight |
| Verifier.ListBound | src/phase_unfolder.cpp:158-168 | some bound exceeds no candidate list's length |
| Verifier.WalkedStep | src/phase_unfolder.cpp:132-142 | advancing over a present edge extends the verified walk |
| Verifier.StackedStep | src/phase_unfolder.cpp:124-142 | the stack bookkeeping survives one advance, with or without the clear |
| Verifier.StackedBlocked | src/phase_unfolder.cpp:124-135 | the stack bookkeeping survives a blocked edge |
| Verifier.StackedLighter | src/phase_unfolder.cpp:103-147 | the stack after extending a branch is lighter than before popping it |
| Verifier.ClearStep | src/phase_unfolder.cpp:137-139 | after the clear at a forced position no pending branch starts before it |
| Verifier.StartExtending | src/phase_unfolder.cpp:104-115 | a popped branch starts the inner loop's bookkeeping |
| Verifier.StepForward | src/phase_unfolder.cpp:117-142 | one successful inner step keeps the inner loop's bookkeeping |
| Verifier.StepBlocked | src/phase_unfolder.cpp:117-135 | a missing edge ends the inner loop with its bookkeeping |
| Verifier.ReachedEnd | src/phase_unfolder.cpp:144-146 | an inner loop that reaches the last node yields a verified walk to the end |
| Verifier.BlockedEnd | src/phase_unfolder.cpp:133-135 | an inner loop that stops yields the missing edge it stopped at |
| Verifier.ExtendStep | src/phase_unfolder.cpp:117-142 | one inner-loop step advances over a present edge or reports a missing one |
| Verifier.ExtendBranch | src/phase_unfolder.cpp:115-146 | extends a branch: the walk is verified, the pushed branches are lighter, and it reaches the end or names the missing edge |
| Verifier.VerifyPath | src/phase_unfolder.cpp:92-150 | short paths pass; a pass gives a verified walk from some offset to the end; without duplicates, passes exactly when all edges are present |
| Verifier.InsertSorted | src/phase_unfolder.cpp:167 | inserting into an increasing list keeps it increasing and adds exactly the element |
| Verifier.RemoveDuplicates | src/phase_unfolder.cpp:167 | the list becomes increasing, without repeats, with the same elements |
| Verifier.ReverseOfNonEmpty | src/phase_unfolder.cpp:159-165 | every list of the reverse mapping is non-empty |
| Verifier.ReverseMapping | src/phase_unfolder.cpp:156-168 | each original maps to its duplicates, plus itself when the unfolded graph has it, increasing and non-empty |
| Verifier.FailuresZero | src/phase_unfolder.cpp:154-186 | no failures exactly when every path passes; never more failures than paths |
| Verifier.VerifyAll | src/phase_unfolder.cpp:170-184 | one result per path in order; the failure count is the number of false results; a path without duplicates passes exactly when its edges are present; a passing path is spelled by a walk of the unfolded graph |

## Left out

- disjoint_subgraphs: splitting the complement into connected components
  belongs to VG and is not part of this model. `Unfold` takes the list of
  components as a parameter. `Complement` builds the complement graph that
  the split starts from.
- Node contents: a node is its id. The sequences copied from the XG index
  into the unfolded graph are not modelled.
- XG, GBWT and gcsa internals. Embedded paths are a list of node-orientation
  sequences in path-rank order. The GBWT is the list of its threads.
  `find` / `extend` are set comprehensions over thread positions. The
  successor lists are derived from the threads.
- File streams. `WriteMapping` takes whether the file can be created.
  `ReadMapping` takes the file contents, or none when the file cannot be
  opened. The error message is not modelled. The byte format is gcsa's and
  is not modelled.
- `Registry.NodeMapping.Load` requires a consistent file: one record per id
  of its header range. The gcsa loader is not part of this model.
- Progress output, and the `show_progress` flag of unfold, restore_paths and
  complement_components.
- OpenMP in verify_paths: the loop runs sequentially, and the atomic counter
  is a plain sum.
- Iteration order of unordered containers. The border is visited in
  increasing order (`Unfolder.Smallest`); the source's hash order is
  unspecified. The edges at a node, and the entries of the tries, are
  visited in an arbitrary order.
- Verifier.RemoveDuplicates: gcsa::removeDuplicates is modelled as sort, then
  drop repeats. The order inside a candidate list only affects which
  duplicate verify_path tries first.
- Verifier.VerifyPath: a pass guarantees a verified walk only from the
  offset where the last popped branch started, not from the path's start.
  A branch pushed as (offset, curr + 1, 0) resumes at `offset` with a
  different duplicate. The edge into that duplicate is never checked.
  Example: path x a y, with a duplicated as a1 and a2; edges x-a1 and a2-y
  are present, x-a2 and a1-y are missing. The path passes although no walk
  spells it. The contract states exactly what the code ensures. Without
  duplicates it is the full "all edges present" property, both ways.
- Unfolder.PhaseUnfolder.constructor and Unfolder.PhaseUnfolder.ReadMapping:
  the first duplicate id must be at least 1. The constructor gives `Valid()`
  only when `nextNode >= 1`, and ReadMapping requires `firstNode >= 1`.
  The tries store 0 as "no duplicate yet" (src/phase_unfolder.cpp:428-429,
  439-440), so a duplicate with id 0 would be allocated again on every
  lookup. The source does not check this.
- Unfolder.PhaseUnfolder.UnfoldComponent: its own contract does not state
  that the unfolded copies are disjoint except for their endpoints.
  `Unfolder.ComponentCopiesMeet` states it about the folded state that
  UnfoldComponent, UnfoldInto and Unfold return. It holds for paths whose
  node ids lie below the first duplicate id (`TrieFold.Below`). The model
  takes this as a hypothesis and does not enforce it. The header asks the
  caller for `next_node` = largest id + 1 (src/phase_unfolder.hpp:45-46).
- Integer widths: ids, offsets and counts are unbounded. The source's 64-bit
  types do not overflow on realistic graphs.
