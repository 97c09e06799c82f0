/**
 * The PhaseUnfolder: the class whose methods fold the evidence paths of one
 * pruned component into two tries and a set of crossing edges, and then turn
 * those into the nodes and edges of the unfolded graph.
 */
module Unfolder {
  import opened Oriented
  import opened Registry
  import opened Graphs
  import opened TrieFold
  import opened Walks
  import opened Verifier

  class PhaseUnfolder {
    /** The embedded paths of the XG index, in path-rank order. */
    const xgPaths: seq<seq<ONode>>
    /** The GBWT index, as the threads it stores. */
    const gbwt: Gbwt
    /** Duplicate id -> original id. */
    const mapping: NodeMapping

    /** Scratch state for the current component. */
    var border: set<nat>
    var states: seq<ThreadState>
    /** prefixes[(from, to)] is the duplicate of to; suffixes[(from, to)] is the duplicate of from. */
    var prefixes: map<Key, ONode>
    var suffixes: map<Key, ONode>
    var crossingEdges: set<Key>

    /** The first duplicate id of the registry. */
    function First(): nat
      reads mapping
    {
      mapping.firstNode
    }

    /** The folder's state as a value. */
    function View(): FoldState
      reads this, mapping
    {
      FoldState(prefixes, suffixes, crossingEdges, mapping.originals)
    }

    /**
     * The registry is well formed, duplicate ids start above 0 (so that a
     * stored duplicate is never the unassigned marker), and the trie entries
     * mean what the header says.
     */
    ghost predicate Valid()
      reads this, mapping
    {
      && mapping.Valid()
      && mapping.firstNode >= 1
      && TrieInv(mapping.firstNode, View())
    }

    /** No component is being unfolded. */
    predicate Idle()
      reads this
    {
      border == {} && states == [] && prefixes == map[] && suffixes == map[] && crossingEdges == {}
    }

    constructor (xgPaths: seq<seq<ONode>>, gbwt: Gbwt, nextNode: nat)
      ensures this.xgPaths == xgPaths && this.gbwt == gbwt && fresh(mapping)
      ensures mapping.Valid() && mapping.firstNode == nextNode && mapping.nextNode == nextNode
      ensures mapping.originals == []
      ensures Idle()
      ensures nextNode >= 1 ==> Valid()
    {
      this.xgPaths := xgPaths;
      this.gbwt := gbwt;
      mapping := new NodeMapping(nextNode);
      border := {};
      states := [];
      prefixes := map[];
      suffixes := map[];
      crossingEdges := {};
    }

    /**
     * One step of either trie loop of insert_path: emplace `key` with the
     * unassigned marker and, if the entry is still unassigned, allocate a
     * duplicate of `node` for it. Returns the trie and the entry's value.
     */
    method Emplace(trie: map<Key, ONode>, key: Key, node: ONode) returns (trie': map<Key, ONode>, dup: ONode)
      requires mapping.Valid() && mapping.firstNode >= 1
      requires forall k :: k in trie ==> trie[k].id >= mapping.firstNode
      modifies mapping
      ensures mapping.Valid() && mapping.firstNode == old(mapping.firstNode)
      ensures Interned(trie', mapping.originals, dup)
              == Intern(mapping.firstNode, trie, old(mapping.originals), key, node)
    {
      trie' := trie;
      if key !in trie' {
        trie' := trie'[key := Null];
      }
      if trie'[key] == Null {
        var newId := mapping.Insert(node.id);
        trie' := trie'[key := ONode(newId, node.isReverse)];
      }
      dup := trie'[key];
    }

    /** The prefix loop of insert_path: positions 1 .. h-1 of `p`, forward from p[0]. */
    method WalkPrefixes(p: seq<ONode>, h: nat) returns (from: ONode)
      requires Valid() && 1 <= h <= |p|
      modifies this`prefixes, mapping
      ensures mapping.Valid() && First() == old(First())
      ensures TriesOk(First(), prefixes, suffixes, mapping.originals)
      ensures var c := PrefixFold(First(), old(prefixes), old(mapping.originals), p[0], p, 1, h);
              prefixes == c.trie && mapping.originals == c.originals && from == c.end
    {
      ghost var first := First();
      ghost var c := PrefixFold(first, prefixes, mapping.originals, p[0], p, 1, h);
      from := p[0];
      for i := 1 to h
        invariant mapping.Valid() && First() == first
        invariant TriesOk(first, prefixes, suffixes, mapping.originals)
        invariant PrefixFold(first, prefixes, mapping.originals, from, p, i, h) == c
      {
        InternPrefixInv(first, prefixes, suffixes, mapping.originals, (from, p[i]));
        PrefixFoldUnfold(first, prefixes, mapping.originals, from, p, i, h);
        prefixes, from := Emplace(prefixes, (from, p[i]), p[i]);
      }
    }

    /** The suffix loop of insert_path: positions |p|-2 down to h of `p`, backward from the last node. */
    method WalkSuffixes(p: seq<ONode>, h: nat) returns (to: ONode)
      requires mapping.Valid() && mapping.firstNode >= 1
      requires TriesOk(First(), prefixes, suffixes, mapping.originals)
      requires 1 <= h <= |p| - 1
      modifies this`suffixes, mapping
      ensures mapping.Valid() && First() == old(First())
      ensures TriesOk(First(), prefixes, suffixes, mapping.originals)
      ensures var c := SuffixFold(First(), old(suffixes), old(mapping.originals), p[|p| - 1], p, |p| - 2, h);
              suffixes == c.trie && mapping.originals == c.originals && to == c.end
    {
      ghost var first := First();
      ghost var c := SuffixFold(first, suffixes, mapping.originals, p[|p| - 1], p, |p| - 2, h);
      to := p[|p| - 1];
      var i: int := |p| - 2;
      while i >= h
        invariant h - 1 <= i <= |p| - 2
        invariant mapping.Valid() && First() == first
        invariant TriesOk(first, prefixes, suffixes, mapping.originals)
        invariant SuffixFold(first, suffixes, mapping.originals, to, p, i, h) == c
      {
        to := SuffixStep(p, i, h, to);
        i := i - 1;
      }
    }

    /** One step of the suffix loop: interns the key (p[i], to) in the suffix trie. */
    method SuffixStep(p: seq<ONode>, i: nat, h: nat, to: ONode) returns (to': ONode)
      requires mapping.Valid() && mapping.firstNode >= 1
      requires TriesOk(First(), prefixes, suffixes, mapping.originals)
      requires 1 <= h <= i < |p|
      modifies this`suffixes, mapping
      ensures mapping.Valid() && First() == old(First())
      ensures TriesOk(First(), prefixes, suffixes, mapping.originals)
      ensures SuffixFold(First(), suffixes, mapping.originals, to', p, i - 1, h)
              == SuffixFold(First(), old(suffixes), old(mapping.originals), to, p, i, h)
    {
      ghost var first := First();
      ghost var r := Intern(first, suffixes, mapping.originals, (p[i], to), p[i]);
      InternSuffixInv(first, prefixes, suffixes, mapping.originals, (p[i], to));
      SuffixFoldUnfold(first, suffixes, mapping.originals, to, p, i, h);
      suffixes, to' := Emplace(suffixes, (p[i], to), p[i]);
      assert suffixes == r.trie && mapping.originals == r.originals && to' == r.dup;
    }

    /** The reverse complement that insert_path builds in a buffer of the path's length. */
    static method ReverseComplementArray(path: seq<ONode>) returns (reverseComplement: array<ONode>)
      ensures fresh(reverseComplement)
      ensures reverseComplement[..] == ReverseComplement(path)
    {
      var n := |path|;
      reverseComplement := new ONode[n](_ => Null);
      for i := 0 to n
        invariant forall j :: 0 <= j < i ==> reverseComplement[n - 1 - j] == Reverse(path[j])
      {
        reverseComplement[n - 1 - i] := Reverse(path[i]);
      }
      forall j | 0 <= j < n
        ensures reverseComplement[j] == ReverseComplement(path)[j]
      {
        ReverseComplementAt(path, n - 1 - j);
      }
    }

    /** The rest of insert_path, once the path is in canonical orientation. */
    method InsertOriented(p: seq<ONode>)
      requires Valid() && |p| >= 2
      modifies this, mapping
      ensures Valid() && First() == old(First())
      ensures View() == FoldOriented(First(), old(View()), p)
      ensures border == old(border) && states == old(states)
    {
      ghost var first := First();
      ghost var s0 := View();
      var n := |p|;
      var h := Half(n);
      var from := WalkPrefixes(p, h);
      ghost var front := PrefixFold(first, s0.prefixes, s0.originals, p[0], p, 1, h);
      var to := WalkSuffixes(p, h);
      ghost var back := SuffixFold(first, s0.suffixes, front.originals, p[n - 1], p, n - 2, h);

      // Crossing edge.
      crossingEdges := crossingEdges + {(from, to)};
      FoldOrientedParts(first, s0, p);
      FoldOrientedInv(first, s0, p);
    }

    /**
     * insert_path: folds the canonical orientation of `path` into the tries
     * and records its crossing edge.
     */
    method InsertPath(path: seq<ONode>)
      requires Valid()
      modifies this, mapping
      ensures Valid() && First() == old(First())
      ensures View() == Fold(First(), old(View()), path)
      ensures border == old(border) && states == old(states)
    {
      if |path| < 2 {
        return;
      }
      var reverseComplement := ReverseComplementArray(path);
      var toInsert := if PathLess(reverseComplement[..], path) then reverseComplement[..] else path;
      assert toInsert == Canonical(path);

      InsertOriented(toInsert);
    }
  
    // -------------------------------------------------------------------------
    // Evidence along embedded paths.

    /**
     * The body of generate_paths for one occurrence: inserts the forward walk
     * and then the backward walk from position `occ` of `path`.
     */
    method InsertWalks(path: seq<ONode>, occ: nat, component: Graph, ghost es: set<Edge>, ghost bd: set<nat>)
      returns (forward: seq<ONode>, backward: seq<ONode>)
      requires Valid() && occ < |path| && es == component.edges && bd == border
      modifies this, mapping
      ensures Valid() && First() == old(First())
      ensures border == bd && states == old(states)
      ensures View() == Fold(First(), Fold(First(), old(View()), forward), backward)
      ensures WalkOk(path, occ, es, bd, forward)
      ensures WalkOk(ReverseComplement(path), |path| - 1 - occ, es, bd, backward)
    {
      forward := ForwardWalk(path, occ, component, border);
      InsertPath(forward);
      backward := BackwardWalk(path, occ, component, border);
      InsertPath(backward);
    }

    /** One iteration of the occurrence loop of generate_paths: both walks from the k-th occurrence. */
    method InsertOccurrence(path: seq<ONode>, occurrences: seq<nat>, k: nat, component: Graph, from: nat,
                            ghost es: set<Edge>, ghost bd: set<nat>, ghost s0: FoldState, ghost emitted: seq<seq<ONode>>)
      returns (ghost emitted': seq<seq<ONode>>)
      requires Valid() && k < |occurrences| && occurrences[k] < |path| && path[occurrences[k]].id == from
      requires es == component.edges && bd == border
      requires View() == FoldAll(First(), s0, emitted)
      requires Covers(path, occurrences, k, from, es, bd, emitted)
      modifies this, mapping
      ensures Valid() && First() == old(First())
      ensures border == bd && states == old(states)
      ensures View() == FoldAll(First(), s0, emitted')
      ensures Covers(path, occurrences, k + 1, from, es, bd, emitted')
    {
      var forward, backward := InsertWalks(path, occurrences[k], component, es, bd);
      FoldAllSnoc(First(), s0, emitted, forward);
      FoldAllSnoc(First(), s0, emitted + [forward], backward);
      CoverOccurrence(path, occurrences, k, from, es, bd, emitted, forward, backward);
      emitted' := emitted + [forward] + [backward];
    }

    /** The occurrence loop of generate_paths, over the positions of `from` in one embedded path. */
    method InsertOccurrences(path: seq<ONode>, component: Graph, from: nat) returns (ghost emitted: seq<seq<ONode>>)
      requires Valid()
      modifies this, mapping
      ensures Valid() && First() == old(First())
      ensures border == old(border) && states == old(states)
      ensures View() == FoldAll(First(), old(View()), emitted)
      ensures forall b :: b in emitted <==> OccurrenceEvidence(path, from, component.edges, border, b)
    {
      ghost var s0 := View();
      ghost var edges, bd := component.edges, border;
      emitted := [];
      var occurrences := Occurrences(path, from);
      for k := 0 to |occurrences|
        invariant Valid() && First() == old(First())
        invariant border == bd && states == old(states)
        invariant View() == FoldAll(First(), s0, emitted)
        invariant Covers(path, occurrences, k, from, edges, bd, emitted)
      {
        emitted := InsertOccurrence(path, occurrences, k, component, from, edges, bd, s0, emitted);
      }
      CoverComplete(path, from, edges, bd, emitted);
    }

    /**
     * generate_paths: for every occurrence of `from` in every embedded path,
     * inserts the forward walk and the backward walk from that occurrence.
     */
    method GeneratePaths(component: Graph, from: nat) returns (ghost emitted: seq<seq<ONode>>)
      requires Valid()
      modifies this, mapping
      ensures Valid() && First() == old(First())
      ensures border == old(border) && states == old(states)
      ensures View() == FoldAll(First(), old(View()), emitted)
      ensures forall b :: b in emitted <==> PathEvidence(xgPaths, from, component.edges, border, b)
    {
      ghost var s0 := View();
      emitted := [];
      for rank := 0 to |xgPaths|
        invariant Valid() && First() == old(First())
        invariant border == old(border) && states == old(states)
        invariant View() == FoldAll(First(), s0, emitted)
        invariant forall b :: b in emitted <==>
                    exists r :: 0 <= r < rank && OccurrenceEvidence(xgPaths[r], from, component.edges, border, b)
      {
        var batch := InsertOccurrences(xgPaths[rank], component, from);
        FoldAllAppend(First(), s0, emitted, batch);
        emitted := emitted + batch;
      }
    }

    // -------------------------------------------------------------------------
    // Evidence along GBWT threads.

    /** create_state: pushes the search for the one-node path [(node, isReverse)] if it occurs in a thread. */
    method CreateState(node: nat, isReverse: bool)
      modifies this`states
      ensures states == old(states) + Seed(gbwt, ONode(node, isReverse))
    {
      var search := Find(gbwt, ONode(node, isReverse));
      if IsEmpty(search) {
        return;
      }
      states := states + [ThreadState(search, [search.node])];
    }

    /**
     * extend_state: extends the search of `state` with (node, isReverse) and
     * pushes the extended state if the longer path occurs in a thread.
     */
    method ExtendState(state: ThreadState, node: nat, isReverse: bool) returns (extended: bool)
      modifies this`states
      ensures var search := Extend(gbwt, state.search, ONode(node, isReverse));
              && extended == !IsEmpty(search)
              && states == old(states) + if extended then [ThreadState(search, state.path + [search.node])] else []
    {
      var search := Extend(gbwt, state.search, ONode(node, isReverse));
      if IsEmpty(search) {
        return false;
      }
      states := states + [ThreadState(search, state.path + [search.node])];
      return true;
    }

    /**
     * One iteration of the edge loop of generate_threads: if `e` leaves the
     * last node of `state` on its `from` side, or enters it on its reverse
     * side, extends the state across `e`.
     */
    method FollowEdge(state: ThreadState, e: Edge) returns (extended: bool)
      modifies this`states
      ensures var next := Follow(e, state.search.node);
              if extended then
                && next.Some?
                && states == old(states) + [ThreadState(Extend(gbwt, state.search, next.value), state.path + [next.value])]
                && !IsEmpty(Extend(gbwt, state.search, next.value))
              else
                && states == old(states)
                && (next.Some? ==> IsEmpty(Extend(gbwt, state.search, next.value)))
    {
      var v := state.search.node;
      var node := v.id;
      var isReverse := v.isReverse;
      extended := false;
      if e.from.id == node && e.from.isReverse == isReverse {
        assert e.from == v && ONode(e.to.id, e.to.isReverse) == e.to;
        extended := ExtendState(state, e.to.id, e.to.isReverse);
      } else if e.to.id == node && e.to.isReverse != isReverse {
        assert e.to == Reverse(v) && ONode(e.from.id, !e.from.isReverse) == Reverse(e.from);
        extended := ExtendState(state, e.from.id, !e.from.isReverse);
      }
    }

    /**
     * The edge loop of generate_threads: follows every edge at the last node
     * of `state` and pushes each extension that occurs in a thread.
     */
    method ExtendAlongEdges(component: Graph, from: nat, state: ThreadState)
      returns (wasExtended: bool, ghost pushed: seq<ThreadState>)
      requires Searching(gbwt, component.edges, border, from, state)
      requires !(|state.path| >= 2 && state.search.node.id in border)
      modifies this`states
      ensures states == old(states) + pushed
      ensures |pushed| <= |component.edges|
      ensures AllSearching(gbwt, component.edges, border, from, pushed) && PathsOfLength(pushed, |state.path| + 1)
      ensures Expanded(gbwt, component.edges, state, pushed)
      ensures wasExtended <==> pushed != []
      ensures !wasExtended ==> NoneSupported(gbwt, component.edges, state.path)
    {
      var v := state.search.node;
      var edges := EdgesOf(component.edges, v.id);
      ghost var es, bd, s0 := component.edges, border, states;
      SubsetSize(edges, es);
      pushed := [];
      wasExtended := false;
      var rest := edges;
      while rest != {}
        invariant rest <= edges && border == bd
        invariant states == s0 + pushed
        invariant |pushed| <= |edges| - |rest|
        invariant EdgeLoop(gbwt, es, bd, from, state, edges - rest, pushed, wasExtended)
        decreases |rest|
      {
        var e :| e in rest;
        var extended;
        extended, pushed := VisitEdge(state, e, from, es, bd, s0, edges - rest, pushed, wasExtended);
        assert edges - (rest - {e}) == (edges - rest) + {e};
        wasExtended := wasExtended || extended;
        rest := rest - {e};
      }
      assert edges - rest == EdgesOf(es, state.path[|state.path| - 1].id);
      ExpandedAtNode(gbwt, es, state, pushed);
      if !wasExtended {
        NoneSupportedAtNode(gbwt, es, state.path);
      }
    }

    /** One edge of the edge loop of extend_state: follows `e` and pushes the extension if it is supported. */
    method VisitEdge(state: ThreadState, e: Edge, ghost from: nat, ghost es: set<Edge>, ghost bd: set<nat>,
                     ghost s0: seq<ThreadState>, ghost done: set<Edge>, ghost pushed: seq<ThreadState>,
                     ghost wasExtended: bool)
      returns (extended: bool, ghost pushed': seq<ThreadState>)
      requires Searching(gbwt, es, bd, from, state) && !(|state.path| >= 2 && state.search.node.id in bd)
      requires e in es && EdgeLoop(gbwt, es, bd, from, state, done, pushed, wasExtended)
      requires states == s0 + pushed
      modifies this`states
      ensures states == s0 + pushed'
      ensures |pushed'| <= |pushed| + 1
      ensures EdgeLoop(gbwt, es, bd, from, state, done + {e}, pushed', wasExtended || extended)
    {
      extended := FollowEdge(state, e);
      if extended {
        EdgeLoopPush(gbwt, es, bd, from, state, done, pushed, wasExtended, e);
        pushed' := pushed + [Across(gbwt, state, e)];
        assert states == s0 + pushed';
      } else {
        EdgeLoopSkip(gbwt, es, bd, from, state, done, pushed, wasExtended, e);
        pushed' := pushed;
      }
    }

    /**
     * The part of the search loop of generate_threads for a popped state that
     * does not end at a border node: its extensions are pushed, or, if there
     * are none, the path is inserted as a maximal path.
     */
    method ExpandState(component: Graph, from: nat, state: ThreadState) returns (inserted: bool, ghost pushed: seq<ThreadState>)
      requires Valid() && Searching(gbwt, component.edges, border, from, state)
      requires !(|state.path| >= 2 && state.search.node.id in border)
      modifies this, mapping
      ensures Valid() && First() == old(First()) && border == old(border)
      ensures View() == if inserted then Fold(First(), old(View()), state.path) else old(View())
      ensures inserted ==> ThreadEvidence(gbwt, component.edges, border, from, state.path)
      ensures states == old(states) + pushed
      ensures inserted <==> pushed == []
      ensures Expansion(gbwt, component.edges, border, from, state, pushed)
      ensures Expanded(gbwt, component.edges, state, pushed)
    {
      var wasExtended;
      wasExtended, pushed := ExtendAlongEdges(component, from, state);
      if !wasExtended {
        MaximalEvidence(gbwt, component.edges, border, from, state);
        InsertPath(state.path);  // A maximal path.
      }
      inserted := !wasExtended;
    }

    /**
     * One iteration of the search loop of generate_threads: pops the top
     * state; a path that ends at a border node, or that no edge extends, is
     * inserted; otherwise its extensions are pushed.
     */
    method PopState(component: Graph, from: nat, ghost es: set<Edge>, ghost bd: set<nat>)
      returns (state: ThreadState, inserted: bool, ghost pushed: seq<ThreadState>)
      requires Valid() && states != [] && es == component.edges && bd == border
      requires Searching(gbwt, es, bd, from, states[|states| - 1])
      modifies this, mapping
      ensures Valid() && First() == old(First()) && border == bd
      ensures state == old(states[|states| - 1])
      ensures View() == if inserted then Fold(First(), old(View()), state.path) else old(View())
      ensures inserted ==> ThreadEvidence(gbwt, es, bd, from, state.path)
      ensures states == old(states[..|states| - 1]) + pushed
      ensures inserted <==> pushed == []
      ensures Expansion(gbwt, es, bd, from, state, pushed)
      ensures Popped(gbwt, es, bd, from, state, inserted, pushed)
    {
      state := states[|states| - 1];
      states := states[..|states| - 1];
      if |state.path| >= 2 && state.search.node.id in border {
        BorderEvidence(gbwt, es, bd, from, state);
        InsertPath(state.path);  // A border-to-border path.
        inserted, pushed := true, [];
      } else {
        inserted, pushed := ExpandState(component, from, state);
      }
    }

    /** The start of generate_threads: one state for each orientation of `from` that occurs in a thread. */
    method SeedStates(component: Graph, from: nat)
      requires states == []
      modifies this`states
      ensures states == Seed(gbwt, ONode(from, false)) + Seed(gbwt, ONode(from, true))
      ensures AllSearching(gbwt, component.edges, border, from, states)
    {
      CreateState(from, false);
      CreateState(from, true);
      SeedsSearching(gbwt, component.edges, border, from);
    }

    /**
     * generate_threads: a depth-first search over the paths from `from` that
     * follow edges of the component and occur in a thread. A path that
     * reaches a border node, or that no edge extends, is inserted.
     */
    method GenerateThreads(component: Graph, from: nat) returns (ghost emitted: seq<seq<ONode>>)
      requires Valid() && states == []
      modifies this, mapping
      ensures Valid() && First() == old(First())
      ensures border == old(border) && states == []
      ensures View() == FoldAll(First(), old(View()), emitted)
      ensures AllThreadEvidence(gbwt, component.edges, border, from, emitted)
      ensures forall q :: ThreadEvidence(gbwt, component.edges, border, from, q) ==> q in emitted
    {
      ghost var s0 := View();
      ghost var es, bd := component.edges, border;
      emitted := [];
      SeedStates(component, from);
      SeedsCover(gbwt, es, bd, from);

      while states != []
        invariant Valid() && First() == old(First()) && border == bd
        invariant View() == FoldAll(First(), s0, emitted)
        invariant AllThreadEvidence(gbwt, es, bd, from, emitted)
        invariant AllSearching(gbwt, es, bd, from, states)
        invariant ThreadsCovered(gbwt, es, bd, from, emitted, states)
        decreases Weight(states, |es| + 1, MaxLength(gbwt.threads))
      {
        emitted := ThreadStep(component, from, es, bd, s0, emitted);
      }
    }

    /** One iteration of generate_threads: pops a state and either emits it or expands it. */
    method ThreadStep(component: Graph, from: nat, ghost es: set<Edge>, ghost bd: set<nat>,
                      ghost s0: FoldState, ghost emitted: seq<seq<ONode>>)
      returns (ghost emitted': seq<seq<ONode>>)
      requires Valid() && states != [] && es == component.edges && bd == border
      requires View() == FoldAll(First(), s0, emitted)
      requires AllThreadEvidence(gbwt, es, bd, from, emitted)
      requires AllSearching(gbwt, es, bd, from, states)
      requires ThreadsCovered(gbwt, es, bd, from, emitted, states)
      modifies this, mapping
      ensures Valid() && First() == old(First()) && border == bd
      ensures View() == FoldAll(First(), s0, emitted')
      ensures AllThreadEvidence(gbwt, es, bd, from, emitted')
      ensures AllSearching(gbwt, es, bd, from, states)
      ensures ThreadsCovered(gbwt, es, bd, from, emitted', states)
      ensures Weight(states, |es| + 1, MaxLength(gbwt.threads)) < Weight(old(states), |es| + 1, MaxLength(gbwt.threads))
    {
      ghost var before := states;
      AllSearchingPop(gbwt, es, bd, from, states);
      var state, inserted;
      ghost var pushed;
      state, inserted, pushed := PopState(component, from, es, bd);
      StackStep(gbwt, es, bd, from, before, pushed);
      CoverStep(gbwt, es, bd, from, emitted, before, inserted, pushed);
      emitted' := emitted;
      if inserted {
        FoldAllSnoc(First(), s0, emitted, state.path);
        ThreadEvidenceSnoc(gbwt, es, bd, from, emitted, state.path);
        emitted' := emitted + [state.path];
      }
    }

    // -------------------------------------------------------------------------
    // unfold_component and unfold.

    /** The start of unfold_component: the nodes of the component that are also in the graph. */
    method CollectBorder(component: Graph, graph: Graph)
      modifies this`border
      ensures border == old(border) + component.nodes * graph.nodes
    {
      var rest := component.nodes;
      while rest != {}
        invariant rest <= component.nodes
        invariant border == old(border) + (component.nodes - rest) * graph.nodes
        decreases rest
      {
        var id :| id in rest;
        if graph.HasNode(id) {
          border := border + {id};
        }
        rest := rest - {id};
      }
    }

    /** One iteration of the border loop of unfold_component: generate_paths, then generate_threads. */
    method UnfoldFrom(component: Graph, start: nat) returns (ghost batch: seq<seq<ONode>>)
      requires Valid() && states == [] && start in border
      modifies this, mapping
      ensures Valid() && First() == old(First())
      ensures border == old(border) && states == []
      ensures View() == FoldAll(First(), old(View()), batch)
      ensures AllEvidence(xgPaths, gbwt, component.edges, border, batch)
      ensures Covered(xgPaths, gbwt, {start}, component.edges, border, batch)
    {
      ghost var s0 := View();
      var fromPaths := GeneratePaths(component, start);
      var fromThreads := GenerateThreads(component, start);
      FoldAllAppend(First(), s0, fromPaths, fromThreads);
      StartEvidence(xgPaths, gbwt, component.edges, border, start, fromPaths, fromThreads);
      batch := fromPaths + fromThreads;
    }

    /** The emission loops of unfold_component: each edge goes into `unfolded` with both its end nodes. */
    static method EmitEdges(unfolded: Graph, es: set<Edge>)
      modifies unfolded
      ensures unfolded.edges == old(unfolded.edges) + es
      ensures unfolded.nodes == old(unfolded.nodes) + Endpoints(es)
    {
      var rest := es;
      while rest != {}
        invariant rest <= es
        invariant unfolded.edges == old(unfolded.edges) + (es - rest)
        invariant unfolded.nodes == old(unfolded.nodes) + Endpoints(es - rest)
        decreases rest
      {
        var e :| e in rest;
        unfolded.AddNode(e.from.id);
        unfolded.AddNode(e.to.id);
        unfolded.AddEdge(e);
        EndpointsAdd(es - rest, e);
        assert es - (rest - {e}) == (es - rest) + {e};
        rest := rest - {e};
      }
    }

    /** The border loop of unfold_component, over the border nodes in increasing order. */
    method UnfoldBorder(component: Graph) returns (ghost emitted: seq<seq<ONode>>)
      requires Valid() && states == []
      modifies this, mapping
      ensures Valid() && First() == old(First())
      ensures border == old(border) && states == []
      ensures View() == FoldAll(First(), old(View()), emitted)
      ensures AllEvidence(xgPaths, gbwt, component.edges, border, emitted)
      ensures Covered(xgPaths, gbwt, border, component.edges, border, emitted)
    {
      ghost var s0 := View();
      ghost var es, bd := component.edges, border;
      var starts := border;
      emitted := [];
      while starts != {}
        invariant Valid() && First() == old(First())
        invariant border == bd && states == [] && starts <= bd
        invariant View() == FoldAll(First(), s0, emitted)
        invariant AllEvidence(xgPaths, gbwt, es, bd, emitted)
        invariant Covered(xgPaths, gbwt, bd - starts, es, bd, emitted)
        decreases starts
      {
        var start := Smallest(starts);
        var batch := UnfoldFrom(component, start);
        FoldAllAppend(First(), s0, emitted, batch);
        EvidenceAppend(xgPaths, gbwt, es, bd, bd - starts, start, emitted, batch);
        assert (bd - starts) + {start} == bd - (starts - {start});
        emitted := emitted + batch;
        starts := starts - {start};
      }
    }

    /** The three emission loops of unfold_component: prefix-trie edges, suffix-trie edges, crossing edges. */
    static method EmitState(unfolded: Graph, s: FoldState)
      modifies unfolded
      ensures unfolded.edges == old(unfolded.edges) + EmittedEdges(s)
      ensures unfolded.nodes == old(unfolded.nodes) + Endpoints(EmittedEdges(s))
    {
      var fromPrefixes := PrefixEdges(s.prefixes, s.prefixes.Keys);
      var fromSuffixes := SuffixEdges(s.suffixes, s.suffixes.Keys);
      var fromCrossing := CrossingEdges(s.crossing);
      EmitEdges(unfolded, fromPrefixes);
      EmitEdges(unfolded, fromSuffixes);
      EmitEdges(unfolded, fromCrossing);
      EndpointsUnion(fromPrefixes, fromSuffixes);
      EndpointsUnion(fromPrefixes + fromSuffixes, fromCrossing);
    }

    /**
     * The end of unfold_component: writes the folded state into `unfolded`,
     * clears the scratch state and returns the number of crossing edges.
     */
    method Emit(unfolded: Graph) returns (haplotypePaths: nat)
      requires Valid() && states == []
      modifies this, unfolded
      ensures Valid() && Idle() && First() == old(First()) && mapping.originals == old(mapping.originals)
      ensures unfolded.edges == old(unfolded.edges) + EmittedEdges(old(View()))
      ensures unfolded.nodes == old(unfolded.nodes) + Endpoints(EmittedEdges(old(View())))
      ensures haplotypePaths == |old(crossingEdges)|
    {
      EmitState(unfolded, View());
      haplotypePaths := |crossingEdges|;
      border := {};
      prefixes := map[];
      suffixes := map[];
      crossingEdges := {};
      EmptyTriesInv(First(), mapping.originals, {});
    }

    /**
     * unfold_component: folds the evidence paths from every border node of
     * the component, writes the result into `unfolded` and clears the
     * scratch state. Returns the number of crossing edges, one per distinct
     * unfolded path.
     */
    method UnfoldComponent(component: Graph, graph: Graph, unfolded: Graph)
      returns (haplotypePaths: nat, ghost emitted: seq<seq<ONode>>, ghost folded: FoldState)
      requires Valid() && Idle()
      requires unfolded != component && unfolded != graph
      modifies this, mapping, unfolded
      ensures Valid() && Idle() && First() == old(First())
      ensures folded == FoldAll(First(), old(View()), emitted)
      ensures mapping.originals == folded.originals
      ensures forall q :: q in emitted <==> Evidence(xgPaths, gbwt, component.edges, component.nodes * graph.nodes, q)
      ensures unfolded.edges == old(unfolded.edges) + EmittedEdges(folded)
      ensures unfolded.nodes == old(unfolded.nodes) + Endpoints(EmittedEdges(folded))
      ensures haplotypePaths == |folded.crossing|
    {
      CollectBorder(component, graph);
      ghost var bd, es := border, component.edges;
      emitted := UnfoldBorder(component);
      CoveredExactly(xgPaths, gbwt, es, bd, emitted);
      folded := View();
      haplotypePaths := Emit(unfolded);
      assert bd == component.nodes * graph.nodes && es == component.edges;
    }

    /** One iteration of the component loop of unfold. */
    method UnfoldInto(component: Graph, graph: Graph, unfolded: Graph, ghost folded: seq<FoldState>)
      returns (paths: nat, ghost qs: seq<seq<ONode>>, ghost f: FoldState)
      requires Valid() && Idle() && unfolded != component && unfolded != graph
      requires unfolded.edges == UnionEmitted(folded) && unfolded.nodes == Endpoints(UnionEmitted(folded))
      modifies this, mapping, unfolded
      ensures Valid() && Idle() && First() == old(First())
      ensures ComponentUnfolded(First(), xgPaths, gbwt, component.edges, component.nodes * graph.nodes, qs, f)
      ensures unfolded.edges == UnionEmitted(folded + [f])
      ensures unfolded.nodes == Endpoints(UnionEmitted(folded + [f]))
      ensures paths == |f.crossing|
    {
      ghost var start := View();
      paths, qs, f := UnfoldComponent(component, graph, unfolded);
      assert FoldedFromScratch(First(), f, qs) by {
        assert f == FoldAll(First(), FoldState(map[], map[], {}, start.originals), qs);
      }
      assert (folded + [f])[..|folded|] == folded;
      EndpointsUnion(UnionEmitted(folded), EmittedEdges(f));
    }

    /**
     * unfold: unfolds every component of the complement graph into one
     * shared graph and then adds that graph to `graph`. The components are
     * the connected components of the complement (see Complement).
     */
    method Unfold(graph: Graph, components: seq<Graph>)
      returns (haplotypePaths: nat, ghost emitted: seq<seq<seq<ONode>>>, ghost folded: seq<FoldState>)
      requires Valid() && Idle()
      requires graph !in components
      modifies this, mapping, graph
      ensures Valid() && Idle() && First() == old(First())
      ensures AllUnfolded(First(), xgPaths, gbwt, old(Views(components, graph.nodes)), emitted, folded)
      ensures graph.edges == old(graph.edges) + UnionEmitted(folded)
      ensures graph.nodes == old(graph.nodes) + Endpoints(UnionEmitted(folded))
      ensures haplotypePaths == TotalCrossing(folded)
    {
      ghost var views := Views(components, graph.nodes);
      var unfolded := new Graph();
      haplotypePaths := 0;
      emitted, folded := [], [];
      for i := 0 to |components|
        invariant Valid() && Idle() && First() == old(First())
        invariant unfolded !in components && unfolded != graph
        invariant graph.edges == old(graph.edges) && graph.nodes == old(graph.nodes)
        invariant AllUnfolded(First(), xgPaths, gbwt, views[..i], emitted, folded)
        invariant unfolded.edges == UnionEmitted(folded)
        invariant unfolded.nodes == Endpoints(UnionEmitted(folded))
        invariant haplotypePaths == TotalCrossing(folded)
      {
        var paths, qs, f := UnfoldInto(components[i], graph, unfolded, folded);
        assert views[i] == (components[i].edges, components[i].nodes * graph.nodes);
        AllUnfoldedSnoc(First(), xgPaths, gbwt, views, i, emitted, folded, qs, f);
        TotalCrossingSnoc(folded, f);
        haplotypePaths := haplotypePaths + paths;
        emitted, folded := emitted + [qs], folded + [f];
      }
      assert views[..|components|] == views;
      graph.Extend(unfolded);
    }

    // -------------------------------------------------------------------------
    // restore_paths and the complement graph.

    /**
     * The edge loop of restore_paths and of complement_components for one
     * path: each edge between neighbours of `p` that `graph` does not have
     * goes into `target` with both its end nodes. `target` may be `graph`.
     */
    static method AddMissingSteps(graph: Graph, target: Graph, p: seq<ONode>)
      requires p != []
      modifies target
      ensures target.edges == old(target.edges) + (Steps(p) - old(graph.edges))
      ensures target.nodes == old(target.nodes) + Endpoints(Steps(p) - old(graph.edges))
    {
      ghost var g0, t0, n0 := graph.edges, target.edges, target.nodes;
      var prev := p[0];
      for i := 1 to |p|
        invariant prev == p[i - 1]
        invariant graph == target || graph.edges == g0
        invariant graph == target ==> t0 == g0
        invariant target.edges == t0 + (Steps(p[..i]) - g0)
        invariant target.nodes == n0 + Endpoints(Steps(p[..i]) - g0)
      {
        var curr := p[i];
        var candidate := MakeEdge(prev, curr);
        assert p[..i + 1][..i] == p[..i];
        assert Steps(p[..i + 1]) == Steps(p[..i]) + {candidate};
        AddMissing(graph, target, candidate);
        MissingAdd(Steps(p[..i]), candidate, g0);
        prev := curr;
      }
      assert p[..|p|] == p;
    }

    /**
     * restore_paths: adds every edge between neighbours on an embedded path
     * that the graph lacks, together with its end nodes.
     */
    method RestorePaths(graph: Graph)
      modifies graph
      ensures graph.edges == old(graph.edges) + AllSteps(xgPaths)
      ensures graph.nodes == old(graph.nodes) + Endpoints(AllSteps(xgPaths) - old(graph.edges))
    {
      ghost var e0, n0 := graph.edges, graph.nodes;
      for rank := 0 to |xgPaths|
        invariant graph.edges == e0 + AllSteps(xgPaths[..rank])
        invariant graph.nodes == n0 + Endpoints(AllSteps(xgPaths[..rank]) - e0)
      {
        ghost var done := AllSteps(xgPaths[..rank]);
        assert xgPaths[..rank + 1][..rank] == xgPaths[..rank];
        if xgPaths[rank] != [] {
          AddMissingSteps(graph, graph, xgPaths[rank]);
          ghost var added := Steps(xgPaths[rank]);
          assert (done + added) - e0 == (done - e0) + (added - (e0 + done));
          EndpointsUnion(done - e0, added - (e0 + done));
        }
      }
      assert xgPaths[..|xgPaths|] == xgPaths;
    }

    /**
     * The first part of complement_components: the graph of the edges that
     * the embedded paths or the threads use but `graph` lacks, with their
     * end nodes. (Its split into connected components is not part of this
     * model.)
     */
    method Complement(graph: Graph) returns (complement: Graph)
      ensures fresh(complement)
      ensures complement.edges == (AllSteps(xgPaths) + AllSteps(gbwt.threads)) - graph.edges
      ensures complement.nodes == Endpoints(complement.edges)
    {
      complement := new Graph();
      for rank := 0 to |xgPaths|
        invariant fresh(complement)
        invariant complement.edges == AllSteps(xgPaths[..rank]) - graph.edges
        invariant complement.nodes == Endpoints(complement.edges)
      {
        ghost var done := AllSteps(xgPaths[..rank]);
        assert xgPaths[..rank + 1][..rank] == xgPaths[..rank];
        if xgPaths[rank] != [] {
          AddMissingSteps(graph, complement, xgPaths[rank]);
          EndpointsUnion(done - graph.edges, Steps(xgPaths[rank]) - graph.edges);
        }
      }
      assert xgPaths[..|xgPaths|] == xgPaths;
      AddSuccessorEdges(graph, complement);
      SuccessorEdgesAreSteps(gbwt);
    }

    /** The GBWT loop of complement_components: every node of the alphabet and each of its successors. */
    method AddSuccessorEdges(graph: Graph, complement: Graph)
      requires complement != graph
      modifies complement
      ensures complement.edges == old(complement.edges) + (SuccessorEdges(gbwt) - graph.edges)
      ensures complement.nodes == old(complement.nodes) + Endpoints(SuccessorEdges(gbwt) - graph.edges)
    {
      ghost var t0, n0 := complement.edges, complement.nodes;
      var nodes := Alphabet(gbwt);
      ghost var visited: set<ONode> := {};
      while nodes != {}
        invariant visited == Alphabet(gbwt) - nodes && nodes <= Alphabet(gbwt)
        invariant complement.edges == t0 + (EdgesFrom(gbwt, visited) - graph.edges)
        invariant complement.nodes == n0 + Endpoints(EdgesFrom(gbwt, visited) - graph.edges)
        decreases nodes
      {
        var v :| v in nodes;
        AddOutgoing(graph, complement, v, Successors(gbwt, v));
        EdgesFromAdd(gbwt, visited, v);
        MissingUnion(EdgesFrom(gbwt, visited), OutEdges(v, Successors(gbwt, v)), graph.edges);
        visited := visited + {v};
        nodes := nodes - {v};
      }
      assert visited == Alphabet(gbwt);
    }

    /** The outgoing-edge loop for one node `v`: the edge to each of `successors` that `graph` lacks. */
    static method AddOutgoing(graph: Graph, complement: Graph, v: ONode, successors: set<ONode>)
      requires complement != graph
      modifies complement
      ensures complement.edges == old(complement.edges) + (OutEdges(v, successors) - graph.edges)
      ensures complement.nodes == old(complement.nodes) + Endpoints(OutEdges(v, successors) - graph.edges)
    {
      ghost var t0, n0 := complement.edges, complement.nodes;
      var outgoing := successors;
      ghost var visited: set<ONode> := {};
      while outgoing != {}
        invariant visited == successors - outgoing && outgoing <= successors
        invariant complement.edges == t0 + (OutEdges(v, visited) - graph.edges)
        invariant complement.nodes == n0 + Endpoints(OutEdges(v, visited) - graph.edges)
        decreases outgoing
      {
        var w :| w in outgoing;
        var candidate := MakeEdge(v, w);
        AddMissing(graph, complement, candidate);
        OutEdgesAdd(v, visited, w);
        MissingAdd(OutEdges(v, visited), candidate, graph.edges);
        visited := visited + {w};
        outgoing := outgoing - {w};
      }
      assert visited == successors;
    }

    /** The body of every edge loop of restore_paths and complement_components. */
    static method AddMissing(graph: Graph, target: Graph, candidate: Edge)
      modifies target
      ensures old(graph.HasEdge(candidate)) ==> target.edges == old(target.edges) && target.nodes == old(target.nodes)
      ensures !old(graph.HasEdge(candidate)) ==> target.edges == old(target.edges) + {candidate}
      ensures !old(graph.HasEdge(candidate)) ==> target.nodes == old(target.nodes) + {candidate.from.id, candidate.to.id}
    {
      if !graph.HasEdge(candidate) {
        target.AddNode(candidate.from.id);
        target.AddNode(candidate.to.id);
        target.AddEdge(candidate);
      }
    }

    // -------------------------------------------------------------------------
    // Verification.

    /**
     * verify_paths: builds the reverse mapping, then checks the embedded
     * paths and after them the GBWT threads against the unfolded graph and
     * counts the failures. `results` holds the outcome for each path in order.
     */
    method VerifyPaths(unfolded: Graph) returns (failures: nat, ghost results: seq<bool>, ghost table: Table)
      requires mapping.Valid()
      ensures ReverseOf(table, First(), mapping.originals, unfolded.nodes)
      ensures var paths := xgPaths + gbwt.threads;
              && |results| == |paths| && failures == Failures(results)
              && (forall i :: 0 <= i < |paths| && |paths[i]| < 2 ==> results[i])
              && (forall i :: 0 <= i < |paths| && NoDuplicates(paths[i], table)
                              ==> (results[i] <==> AllEdgesPresent(paths[i], unfolded.edges)))
              && (forall i :: 0 <= i < |paths| && results[i] && |paths[i]| >= 2
                              ==> Spelled(paths[i], table, unfolded.edges))
    {
      var reverseMapping := ReverseMapping(mapping, unfolded);
      table := reverseMapping;
      failures, results := VerifyAll(xgPaths + gbwt.threads, unfolded, reverseMapping);
    }

    // -------------------------------------------------------------------------
    // The node mapping.

    /** get_mapping: the original id of a duplicate; any other id stands for itself. */
    function GetMapping(id: nat): (original: nat)
      reads mapping
      requires mapping.Valid()
      ensures First() <= id < mapping.nextNode ==> original == mapping.originals[id - First()]
      ensures !(First() <= id < mapping.nextNode) ==> original == id
    {
      mapping.Resolve(id)
    }

    /**
     * write_mapping: serializes the registry; `None` when the file cannot be
     * created (the source then reports an error and writes nothing).
     */
    method WriteMapping(canCreate: bool) returns (file: Option<MappingFile>)
      requires mapping.Valid()
      ensures file.None? <==> !canCreate
      ensures file.Some? ==> Consistent(file.value) && file.value.firstNode == First()
      ensures file.Some? ==> file.value.nextNode == mapping.nextNode && file.value.records == mapping.originals
    {
      if !canCreate {
        return None;
      }
      file := Some(mapping.Serialize());
    }

    /**
     * read_mapping: replaces the registry with the file's; `None` (a file that
     * cannot be opened) leaves it unchanged.
     */
    method ReadMapping(file: Option<MappingFile>)
      requires Idle()
      requires file.Some? ==> Consistent(file.value) && file.value.firstNode >= 1
      requires file.None? ==> Valid()
      modifies mapping
      ensures Valid()
      ensures file.None? ==> mapping.firstNode == old(mapping.firstNode) && mapping.originals == old(mapping.originals)
      ensures file.Some? ==> mapping.firstNode == file.value.firstNode && mapping.nextNode == file.value.nextNode
      ensures file.Some? ==> mapping.originals == file.value.records
    {
      if file.Some? {
        mapping.Load(file.value);
        EmptyTriesInv(First(), mapping.originals, {});
      }
    }
  }

  /**
   * What unfolding one component produced: the folded state `f` comes from
   * folding the paths `qs` into empty tries, every path of `qs` is evidence
   * for the component, and every walk along an embedded path from a border
   * node is among them.
   */
  ghost predicate ComponentUnfolded(first: nat, paths: seq<seq<ONode>>, g: Gbwt, edges: set<Edge>, border: set<nat>,
                                    qs: seq<seq<ONode>>, f: FoldState)
  {
    && FoldedFromScratch(first, f, qs)
    && (forall q :: q in qs <==> Evidence(paths, g, edges, border, q))
  }

  /**
   * The copies in an unfolded component do not merge: any two of the folded
   * paths made of original nodes have copies in the folded state that share
   * an inner node only on a shared prefix or a shared suffix of the paths.
   */
  lemma ComponentCopiesMeet(first: nat, paths: seq<seq<ONode>>, g: Gbwt, edges: set<Edge>, border: set<nat>,
                            qs: seq<seq<ONode>>, f: FoldState, r: nat, r': nat)
    returns (w: seq<ONode>, w': seq<ONode>)
    requires ComponentUnfolded(first, paths, g, edges, border, qs, f)
    requires r < |qs| && |qs[r]| >= 2 && Below(first, qs[r])
    requires r' < |qs| && |qs[r']| >= 2 && Below(first, qs[r'])
    ensures Represented(f, Canonical(qs[r]), w) && Represented(f, Canonical(qs[r']), w')
    ensures forall i, j :: 1 <= i < |w| - 1 && 1 <= j < |w'| - 1 && w[i] == w'[j]
                           ==> MeetOnShared(Canonical(qs[r]), w, Canonical(qs[r']), w', i, j)
  {
    var originals :| f == FoldAll(first, FoldState(map[], map[], {}, originals), qs);
    EmptyTriesInv(first, originals, {});
    w, w' := UnfoldedCopiesMeet(first, FoldState(map[], map[], {}, originals), qs, r, r');
  }

  /** For each component, its edges and its border (the nodes it shares with a graph whose nodes are `graphNodes`). */
  ghost function Views(cs: seq<Graph>, graphNodes: set<nat>): (r: seq<(set<Edge>, set<nat>)>)
    reads cs
    ensures |r| == |cs|
    ensures forall i :: 0 <= i < |cs| ==> r[i] == (cs[i].edges, cs[i].nodes * graphNodes)
  {
    seq(|cs|, i requires 0 <= i < |cs| reads cs => (cs[i].edges, cs[i].nodes * graphNodes))
  }

  /** ComponentUnfolded holds for each component view, in order. */
  ghost predicate AllUnfolded(first: nat, paths: seq<seq<ONode>>, g: Gbwt, views: seq<(set<Edge>, set<nat>)>,
                              qss: seq<seq<seq<ONode>>>, fs: seq<FoldState>)
    decreases |views|
  {
    && |qss| == |views| && |fs| == |views|
    && (views != [] ==>
          var n := |views| - 1;
          && AllUnfolded(first, paths, g, views[..n], qss[..n], fs[..n])
          && ComponentUnfolded(first, paths, g, views[n].0, views[n].1, qss[n], fs[n]))
  }

  lemma AllUnfoldedSnoc(first: nat, paths: seq<seq<ONode>>, g: Gbwt, views: seq<(set<Edge>, set<nat>)>, i: nat,
                        qss: seq<seq<seq<ONode>>>, fs: seq<FoldState>, qs: seq<seq<ONode>>, f: FoldState)
    requires i < |views| && AllUnfolded(first, paths, g, views[..i], qss, fs)
    requires ComponentUnfolded(first, paths, g, views[i].0, views[i].1, qs, f)
    ensures AllUnfolded(first, paths, g, views[..i + 1], qss + [qs], fs + [f])
  {
    assert views[..i + 1][..i] == views[..i];
    assert (qss + [qs])[..i] == qss && (fs + [f])[..i] == fs;
  }

  /** `f` is what folding `qs` into empty tries (over some registry) gives. */
  ghost predicate FoldedFromScratch(first: nat, f: FoldState, qs: seq<seq<ONode>>)
  {
    exists originals :: f == FoldAll(first, FoldState(map[], map[], {}, originals), qs)
  }

  /** The edges of `done` that `known` lacks, after one more candidate, and their end nodes. */
  lemma MissingAdd(done: set<Edge>, c: Edge, known: set<Edge>)
    ensures c in known || c in done ==> (done + {c}) - known == done - known
    ensures c !in known ==> (done + {c}) - known == (done - known) + {c}
    ensures c !in known ==> Endpoints((done + {c}) - known) == Endpoints(done - known) + {c.from.id, c.to.id}
  {
    if c !in known {
      assert (done + {c}) - known == (done - known) + {c};
      EndpointsAdd(done - known, c);
    }
  }

  /** The missing edges of a union, and their end nodes. */
  lemma MissingUnion(a: set<Edge>, b: set<Edge>, known: set<Edge>)
    ensures (a + b) - known == (a - known) + (b - known)
    ensures Endpoints((a + b) - known) == Endpoints(a - known) + Endpoints(b - known)
  {
    assert (a + b) - known == (a - known) + (b - known);
    EndpointsUnion(a - known, b - known);
  }

  /** The edges that a sequence of unfolded components emit together. */
  function UnionEmitted(fs: seq<FoldState>): set<Edge>
    decreases |fs|
  {
    if fs == [] then {} else UnionEmitted(fs[..|fs| - 1]) + EmittedEdges(fs[|fs| - 1])
  }

  /** The number of crossing edges over a sequence of unfolded components. */
  function TotalCrossing(fs: seq<FoldState>): nat
    decreases |fs|
  {
    if fs == [] then 0 else TotalCrossing(fs[..|fs| - 1]) + |fs[|fs| - 1].crossing|
  }

  lemma TotalCrossingSnoc(fs: seq<FoldState>, f: FoldState)
    ensures TotalCrossing(fs + [f]) == TotalCrossing(fs) + |f.crossing|
  {
    assert (fs + [f])[..|fs|] == fs;
  }

  /** The smallest element of a non-empty set (the next start in std::set order). */
  method Smallest(s: set<nat>) returns (m: nat)
    requires s != {}
    ensures m in s && forall x :: x in s ==> m <= x
  {
    m :| m in s;
    var rest := s - {m};
    while rest != {}
      invariant m in s && rest <= s
      invariant forall x :: x in s && x !in rest ==> m <= x
      decreases rest
    {
      var x :| x in rest;
      if x < m {
        m := x;
      }
      rest := rest - {x};
    }
  }
}
