/**
 * The evidence that the phase unfolder collects inside one component:
 * walks along embedded (XG) paths, and walks supported by the haplotype
 * threads of the GBWT index.
 *
 * The GBWT index is modelled by the threads it stores. A search state is the
 * last node of the searched path together with every (thread, position) at
 * which an occurrence of the searched path ends; it is empty when the path
 * occurs nowhere.
 */
module Walks {
  import opened Oriented
  import opened Graphs

  // ---------------------------------------------------------------------------
  // Walks along an embedded path (generate_paths).

  /**
   * `b` is the buffer that the walk along `q` from position `start` builds:
   * the nodes q[start], q[start + 1], ... for as long as the component has the
   * edge between consecutive nodes, stopping inclusively at the first border
   * node after the start. The start itself is not tested against the border.
   */
  ghost predicate WalkOk(q: seq<ONode>, start: nat, edges: set<Edge>, border: set<nat>, b: seq<ONode>)
  {
    && 1 <= |b| && start + |b| <= |q|
    && (forall j :: 0 <= j < |b| ==> b[j] == q[start + j])
    && (forall j :: 1 <= j < |b| ==> MakeEdge(b[j - 1], b[j]) in edges)
    && (forall j :: 1 <= j < |b| - 1 ==> b[j].id !in border)
    && (|| start + |b| == |q|
        || (|b| >= 2 && b[|b| - 1].id in border)
        || MakeEdge(b[|b| - 1], q[start + |b|]) !in edges)
  }

  /** A walk that goes past position m has neither stopped at m nor could have. */
  lemma WalkContinues(q: seq<ONode>, start: nat, edges: set<Edge>, border: set<nat>, b: seq<ONode>, m: nat)
    requires WalkOk(q, start, edges, border, b)
    requires 1 <= m < |b|
    ensures start + m < |q|
    ensures MakeEdge(q[start + m - 1], q[start + m]) in edges
    ensures m >= 2 ==> q[start + m - 1].id !in border
  {
    assert b[m - 1] == q[start + m - 1] && b[m] == q[start + m];
  }

  /** The walk is determined by where it starts: at most one buffer satisfies WalkOk. */
  lemma WalkUnique(q: seq<ONode>, start: nat, edges: set<Edge>, border: set<nat>, b1: seq<ONode>, b2: seq<ONode>)
    requires WalkOk(q, start, edges, border, b1)
    requires WalkOk(q, start, edges, border, b2)
    ensures b1 == b2
  {
    if |b1| < |b2| {
      assert b1[|b1| - 1] == q[start + |b1| - 1];
      WalkContinues(q, start, edges, border, b2, |b1|);
      assert false;
    } else if |b2| < |b1| {
      assert b2[|b2| - 1] == q[start + |b2| - 1];
      WalkContinues(q, start, edges, border, b1, |b2|);
      assert false;
    }
  }

  /** Whether `from` occurs in `q`, and the buffers of the forward and backward walks from there. */
  ghost predicate EvidenceAt(q: seq<ONode>, occ: nat, from: nat, edges: set<Edge>, border: set<nat>, b: seq<ONode>)
  {
    && occ < |q| && q[occ].id == from
    && (WalkOk(q, occ, edges, border, b) || WalkOk(ReverseComplement(q), |q| - 1 - occ, edges, border, b))
  }

  /** A walk from an occurrence is its forward walk or its backward walk. */
  lemma EvidenceIsWalk(q: seq<ONode>, occ: nat, edges: set<Edge>, border: set<nat>, forward: seq<ONode>, backward: seq<ONode>, b: seq<ONode>)
    requires occ < |q|
    requires WalkOk(q, occ, edges, border, forward)
    requires WalkOk(ReverseComplement(q), |q| - 1 - occ, edges, border, backward)
    requires EvidenceAt(q, occ, q[occ].id, edges, border, b)
    ensures b == forward || b == backward
  {
    if WalkOk(q, occ, edges, border, b) {
      WalkUnique(q, occ, edges, border, b, forward);
    } else {
      WalkUnique(ReverseComplement(q), |q| - 1 - occ, edges, border, b, backward);
    }
  }

  /** An occurrence has exactly two walks: the forward one and the backward one. */
  lemma OccurrenceWalks(q: seq<ONode>, occ: nat, edges: set<Edge>, border: set<nat>, forward: seq<ONode>, backward: seq<ONode>)
    requires occ < |q|
    requires WalkOk(q, occ, edges, border, forward)
    requires WalkOk(ReverseComplement(q), |q| - 1 - occ, edges, border, backward)
    ensures EvidenceAt(q, occ, q[occ].id, edges, border, forward)
    ensures EvidenceAt(q, occ, q[occ].id, edges, border, backward)
    ensures forall b :: EvidenceAt(q, occ, q[occ].id, edges, border, b) ==> b == forward || b == backward
  {
    forall b | EvidenceAt(q, occ, q[occ].id, edges, border, b)
      ensures b == forward || b == backward
    {
      EvidenceIsWalk(q, occ, edges, border, forward, backward, b);
    }
  }

  /**
   * The bookkeeping of the occurrence loop of generate_paths after k
   * occurrences: everything emitted is evidence from some occurrence, and
   * every walk from occs[0], ..., occs[k-1] has been emitted.
   */
  ghost predicate Covers(q: seq<ONode>, occs: seq<nat>, k: nat, from: nat, edges: set<Edge>, border: set<nat>,
                         emitted: seq<seq<ONode>>)
  {
    && k <= |occs|
    && (forall b :: b in emitted ==> OccurrenceEvidence(q, from, edges, border, b))
    && (forall i, b :: 0 <= i < k && EvidenceAt(q, occs[i], from, edges, border, b) ==> b in emitted)
  }

  /** Appending the two walks from occs[k] covers one more occurrence. */
  lemma CoverOccurrence(q: seq<ONode>, occs: seq<nat>, k: nat, from: nat, edges: set<Edge>, border: set<nat>,
                        before: seq<seq<ONode>>, forward: seq<ONode>, backward: seq<ONode>)
    requires k < |occs| && occs[k] < |q| && q[occs[k]].id == from
    requires WalkOk(q, occs[k], edges, border, forward)
    requires WalkOk(ReverseComplement(q), |q| - 1 - occs[k], edges, border, backward)
    requires Covers(q, occs, k, from, edges, border, before)
    ensures Covers(q, occs, k + 1, from, edges, border, before + [forward] + [backward])
  {
    var after := before + [forward] + [backward];
    OccurrenceWalks(q, occs[k], edges, border, forward, backward);
    forall b | b in after
      ensures OccurrenceEvidence(q, from, edges, border, b)
    {
      if b !in before {
        assert EvidenceAt(q, occs[k], from, edges, border, b);
      }
    }
    forall i, b | 0 <= i < k + 1 && EvidenceAt(q, occs[i], from, edges, border, b)
      ensures b in after
    {
      if i < k {
        assert b in before;
      }
    }
  }

  /** Once every occurrence of `from` is covered, the emitted paths are exactly the evidence in `q`. */
  lemma CoverComplete(q: seq<ONode>, from: nat, edges: set<Edge>, border: set<nat>, emitted: seq<seq<ONode>>)
    requires Covers(q, Occurrences(q, from), |Occurrences(q, from)|, from, edges, border, emitted)
    ensures forall b :: b in emitted <==> OccurrenceEvidence(q, from, edges, border, b)
  {
    var occs := Occurrences(q, from);
    forall b | OccurrenceEvidence(q, from, edges, border, b)
      ensures b in emitted
    {
      var occ: nat :| EvidenceAt(q, occ, from, edges, border, b);
      var i :| 0 <= i < |occs| && occs[i] == occ;
    }
  }

  /** node_ranks_in_path: the positions of `path` that hold node `id`, in increasing order. */
  function Occurrences(path: seq<ONode>, id: nat): (r: seq<nat>)
    ensures forall k :: 0 <= k < |r| ==> r[k] < |path| && path[r[k]].id == id
    ensures forall o :: 0 <= o < |path| && path[o].id == id ==> o in r
    decreases |path|
  {
    if path == [] then []
    else
      var r := Occurrences(path[..|path| - 1], id);
      assert forall o :: 0 <= o < |path| - 1 ==> path[..|path| - 1][o] == path[o];
      r + (if path[|path| - 1].id == id then [|path| - 1] else [])
  }

  /** `b` is the buffer of a walk from some occurrence of `from` in `q`. */
  ghost predicate OccurrenceEvidence(q: seq<ONode>, from: nat, edges: set<Edge>, border: set<nat>, b: seq<ONode>)
  {
    exists occ: nat :: EvidenceAt(q, occ, from, edges, border, b)
  }

  /** `b` is the buffer of a walk from an occurrence of `from` in one of the embedded paths. */
  ghost predicate PathEvidence(paths: seq<seq<ONode>>, from: nat, edges: set<Edge>, border: set<nat>, b: seq<ONode>)
  {
    exists r :: 0 <= r < |paths| && OccurrenceEvidence(paths[r], from, edges, border, b)
  }

  /**
   * The forward walk of generate_paths: from position `occ` of an embedded
   * path towards its end.
   */
  method ForwardWalk(path: seq<ONode>, occ: nat, component: Graph, border: set<nat>) returns (buffer: seq<ONode>)
    requires occ < |path|
    ensures WalkOk(path, occ, component.edges, border, buffer)
  {
    var prev := path[occ];
    buffer := [prev];
    var i := occ + 1;
    while i < |path|
      invariant occ + 1 <= i <= |path|
      invariant buffer == path[occ..i] && prev == path[i - 1]
      invariant forall j :: 1 <= j < |buffer| ==> MakeEdge(buffer[j - 1], buffer[j]) in component.edges
      invariant forall j :: 1 <= j < |buffer| ==> buffer[j].id !in border
    {
      var curr := path[i];
      if !component.HasEdge(MakeEdge(prev, curr)) {
        break;  // A maximal path.
      }
      buffer := buffer + [curr];
      if curr.id in border {
        break;  // A border-to-border path.
      }
      prev := curr;
      i := i + 1;
    }
  }

  /**
   * The backward walk stated on the path itself: the buffer holds
   * path[occ], path[occ - 1], ... on the opposite strand, with the same
   * edge, border and stopping conditions as WalkOk.
   */
  ghost predicate BackwardOk(path: seq<ONode>, occ: nat, edges: set<Edge>, border: set<nat>, b: seq<ONode>)
  {
    && 1 <= |b| <= occ + 1 && occ < |path|
    && (forall k :: 0 <= k < |b| ==> b[k] == Reverse(path[occ - k]))
    && (forall j :: 1 <= j < |b| ==> MakeEdge(b[j - 1], b[j]) in edges)
    && (forall j :: 1 <= j < |b| - 1 ==> b[j].id !in border)
    && (|| |b| == occ + 1
        || (|b| >= 2 && b[|b| - 1].id in border)
        || MakeEdge(b[|b| - 1], Reverse(path[occ - |b|])) !in edges)
  }

  /** The nodes met walking backwards from `occ` are a slice of the reverse complement `rc`. */
  lemma BackwardSlice(path: seq<ONode>, rc: seq<ONode>, occ: nat, b: seq<ONode>)
    requires |rc| == |path| && forall j :: 0 <= j < |rc| ==> rc[j] == Reverse(path[|path| - 1 - j])
    requires |b| <= occ + 1 && occ < |path|
    requires forall k :: 0 <= k < |b| ==> b[k] == Reverse(path[occ - k])
    ensures b == rc[|path| - 1 - occ..|path| - 1 - occ + |b|]
  {
    var start := |path| - 1 - occ;
    forall k | 0 <= k < |b|
      ensures rc[start + k] == b[k]
    {
      assert |path| - 1 - (start + k) == occ - k;
    }
  }

  /** Walking a path backwards is walking its reverse complement `rc` forwards. */
  lemma BackwardIsForward(path: seq<ONode>, rc: seq<ONode>, occ: nat, edges: set<Edge>, border: set<nat>, b: seq<ONode>)
    requires |rc| == |path| && forall j :: 0 <= j < |rc| ==> rc[j] == Reverse(path[|path| - 1 - j])
    requires BackwardOk(path, occ, edges, border, b)
    ensures WalkOk(rc, |path| - 1 - occ, edges, border, b)
  {
    BackwardSlice(path, rc, occ, b);
    if |b| < occ + 1 {
      assert rc[|path| - 1 - occ + |b|] == Reverse(path[occ - |b|]);
    }
  }

  /** Position j of the reverse complement holds position |p| - 1 - j, flipped. */
  lemma ReverseComplementIndex(p: seq<ONode>)
    ensures forall j :: 0 <= j < |p| ==> ReverseComplement(p)[j] == Reverse(p[|p| - 1 - j])
  {
    forall j | 0 <= j < |p|
      ensures ReverseComplement(p)[j] == Reverse(p[|p| - 1 - j])
    {
      ReverseComplementAt(p, |p| - 1 - j);
    }
  }

  /**
   * The backward walk of generate_paths: from position `occ` towards the start
   * of the path, on the opposite strand. It is the forward walk along the
   * reverse complement of the path.
   */
  method BackwardWalk(path: seq<ONode>, occ: nat, component: Graph, border: set<nat>) returns (buffer: seq<ONode>)
    requires occ < |path|
    ensures WalkOk(ReverseComplement(path), |path| - 1 - occ, component.edges, border, buffer)
  {
    var prev := Reverse(path[occ]);
    buffer := [prev];
    var i := occ;
    while i > 0
      invariant i <= occ && |buffer| == occ - i + 1
      invariant forall k :: 0 <= k < |buffer| ==> buffer[k] == Reverse(path[occ - k])
      invariant prev == buffer[|buffer| - 1]
      invariant forall j :: 1 <= j < |buffer| ==> MakeEdge(buffer[j - 1], buffer[j]) in component.edges
      invariant forall j :: 1 <= j < |buffer| ==> buffer[j].id !in border
    {
      var curr := Reverse(path[i - 1]);
      if !component.HasEdge(MakeEdge(prev, curr)) {
        break;  // A maximal path.
      }
      buffer := buffer + [curr];
      if curr.id in border {
        break;  // A border-to-border path.
      }
      prev := curr;
      i := i - 1;
    }
    ReverseComplementIndex(path);
    BackwardIsForward(path, ReverseComplement(path), occ, component.edges, border, buffer);
  }

  // ---------------------------------------------------------------------------
  // The GBWT index as a list of threads (find / extend).

  datatype Gbwt = Gbwt(threads: seq<seq<ONode>>)

  /** (t, j) is a position of thread t at which an occurrence of `p` ends. */
  ghost predicate EndsAt(g: Gbwt, t: nat, j: nat, p: seq<ONode>)
  {
    && t < |g.threads| && |p| <= j + 1 <= |g.threads[t]|
    && (forall i :: 0 <= i < |p| ==> g.threads[t][j + 1 - |p| + i] == p[i])
  }

  /** `p` is a substring of some thread. */
  ghost predicate Supported(g: Gbwt, p: seq<ONode>)
  {
    exists t: nat, j: nat :: EndsAt(g, t, j, p)
  }

  datatype Search = Search(node: ONode, occ: set<(nat, nat)>)

  predicate IsEmpty(s: Search)
  {
    s.occ == {}
  }

  /** find(v): every position of every thread that holds v. */
  function Find(g: Gbwt, v: ONode): Search
  {
    Search(v, set t: nat, j: nat | t < |g.threads| && j < |g.threads[t]| && g.threads[t][j] == v :: (t, j))
  }

  /** extend(s, w): the occurrences of s that continue with w, moved one position on. */
  function Extend(g: Gbwt, s: Search, w: ONode): Search
  {
    Search(w, set o | o in s.occ && o.0 < |g.threads| && o.1 + 1 < |g.threads[o.0]| && g.threads[o.0][o.1 + 1] == w
                   :: (o.0, o.1 + 1))
  }

  /** The nodes that occur in some thread (the GBWT's alphabet apart from the endmarker). */
  function Alphabet(g: Gbwt): set<ONode>
  {
    set t: nat, j: nat | t < |g.threads| && j < |g.threads[t]| :: g.threads[t][j]
  }

  /**
   * edges(v) without the endmarker: the nodes that follow `v` in some thread.
   * (A thread that ends at v gives the endmarker, which the callers skip.)
   */
  function Successors(g: Gbwt, v: ONode): set<ONode>
  {
    set t: nat, j: nat | t < |g.threads| && j + 1 < |g.threads[t]| && g.threads[t][j] == v :: After(g.threads[t], j)
  }

  /** The node after position j. */
  function After(thread: seq<ONode>, j: nat): ONode
    requires j + 1 < |thread|
  {
    thread[j + 1]
  }

  /** The edges from `v` to each node of `ws`. */
  function OutEdges(v: ONode, ws: set<ONode>): set<Edge>
  {
    set w | w in ws :: MakeEdge(v, w)
  }

  lemma OutEdgesAdd(v: ONode, ws: set<ONode>, w: ONode)
    ensures OutEdges(v, ws + {w}) == OutEdges(v, ws) + {MakeEdge(v, w)}
  {
  }

  /** The successor edges of the nodes of `vs`. */
  function EdgesFrom(g: Gbwt, vs: set<ONode>): set<Edge>
  {
    set v, w | v in vs && w in Successors(g, v) :: MakeEdge(v, w)
  }

  lemma EdgesFromAdd(g: Gbwt, vs: set<ONode>, v: ONode)
    ensures EdgesFrom(g, vs + {v}) == EdgesFrom(g, vs) + OutEdges(v, Successors(g, v))
  {
  }

  /** The edges that the GBWT's successor lists describe. */
  function SuccessorEdges(g: Gbwt): set<Edge>
  {
    EdgesFrom(g, Alphabet(g))
  }

  /** The successor lists describe exactly the edges between neighbours on some thread. */
  lemma SuccessorEdgesAreSteps(g: Gbwt)
    ensures SuccessorEdges(g) == AllSteps(g.threads)
  {
    forall e | e in SuccessorEdges(g)
      ensures e in AllSteps(g.threads)
    {
      SuccessorEdgeIsStep(g, e);
    }
    forall e | e in AllSteps(g.threads)
      ensures e in SuccessorEdges(g)
    {
      StepIsSuccessorEdge(g, e);
    }
  }

  lemma SuccessorEdgeIsStep(g: Gbwt, e: Edge)
    requires e in SuccessorEdges(g)
    ensures e in AllSteps(g.threads)
  {
    var v, w :| v in Alphabet(g) && w in Successors(g, v) && e == MakeEdge(v, w);
    var t: nat, j: nat :| t < |g.threads| && j + 1 < |g.threads[t]| && g.threads[t][j] == v && After(g.threads[t], j) == w;
    assert StepAt(g.threads[t], j + 1, e);
    StepsExactly(g.threads[t], e);
    AllStepsExactly(g.threads, e);
  }

  lemma StepIsSuccessorEdge(g: Gbwt, e: Edge)
    requires e in AllSteps(g.threads)
    ensures e in SuccessorEdges(g)
  {
    AllStepsExactly(g.threads, e);
    var t :| 0 <= t < |g.threads| && e in Steps(g.threads[t]);
    StepsExactly(g.threads[t], e);
    var i :| StepAt(g.threads[t], i, e);
    var v, w := g.threads[t][i - 1], g.threads[t][i];
    assert v in Alphabet(g);
    assert w in Successors(g, v) by {
      var j: nat := i - 1;
      assert t < |g.threads| && j + 1 < |g.threads[t]| && g.threads[t][j] == v && After(g.threads[t], j) == w;
    }
    assert e in EdgesFrom(g, Alphabet(g));
  }

  /** The length of the longest thread. */
  function MaxLength(threads: seq<seq<ONode>>): (m: nat)
    ensures forall t :: 0 <= t < |threads| ==> |threads[t]| <= m
  {
    if threads == [] then 0
    else
      var m := MaxLength(threads[..|threads| - 1]);
      var last := |threads[|threads| - 1]|;
      assert forall t :: 0 <= t < |threads| - 1 ==> threads[t] == threads[..|threads| - 1][t];
      if last > m then last else m
  }

  /** A search state paired with the path searched so far (state_type). */
  datatype ThreadState = ThreadState(search: Search, path: seq<ONode>)

  /**
   * The search state of a stacked path: it is positioned on the path's last
   * node and holds exactly the ends of the path's occurrences in the threads,
   * of which there is at least one.
   */
  ghost predicate StateOk(g: Gbwt, st: ThreadState)
  {
    && |st.path| >= 1
    && st.search.node == st.path[|st.path| - 1]
    && st.search.occ != {}
    && (forall o :: o in st.search.occ <==> EndsAt(g, o.0, o.1, st.path))
  }

  /** A non-empty search state describes a supported path, so the path is no longer than a thread. */
  lemma StateOkBounded(g: Gbwt, st: ThreadState)
    requires StateOk(g, st)
    ensures Supported(g, st.path)
    ensures |st.path| <= MaxLength(g.threads)
  {
    var o :| o in st.search.occ;
    assert EndsAt(g, o.0, o.1, st.path);
  }

  /** An occurrence of p + [w] ends at j exactly when one of p ends at j - 1 and w follows it. */
  lemma EndsAtSnoc(g: Gbwt, t: nat, j: nat, p: seq<ONode>, w: ONode)
    requires j >= 1
    ensures EndsAt(g, t, j, p + [w])
            <==> EndsAt(g, t, j - 1, p) && j < |g.threads[t]| && g.threads[t][j] == w
  {
    var q := p + [w];
    if EndsAt(g, t, j, q) {
      forall i | 0 <= i < |p|
        ensures g.threads[t][j - 1 + 1 - |p| + i] == p[i]
      {
        assert q[i] == p[i];
      }
      assert q[|p|] == w;
    }
    if EndsAt(g, t, j - 1, p) && j < |g.threads[t]| && g.threads[t][j] == w {
      forall i | 0 <= i < |q|
        ensures g.threads[t][j + 1 - |q| + i] == q[i]
      {
        if i < |p| {
          assert q[i] == p[i];
        }
      }
    }
  }

  /** create_state: a successful find(v) starts the search of the one-node path [v]. */
  lemma FindOk(g: Gbwt, v: ONode)
    requires !IsEmpty(Find(g, v))
    ensures StateOk(g, ThreadState(Find(g, v), [v]))
  {
    var s := Find(g, v);
    forall o
      ensures o in s.occ <==> EndsAt(g, o.0, o.1, [v])
    {
      if o.0 < |g.threads| && o.1 < |g.threads[o.0]| {
        assert [v][0] == v;
      }
    }
  }

  /** extend_state: a successful extend(s, w) is the search of the path with w appended. */
  lemma ExtendOk(g: Gbwt, st: ThreadState, w: ONode)
    requires StateOk(g, st)
    requires !IsEmpty(Extend(g, st.search, w))
    ensures StateOk(g, ThreadState(Extend(g, st.search, w), st.path + [w]))
  {
    var s := Extend(g, st.search, w);
    var p := st.path + [w];
    forall o
      ensures o in s.occ <==> EndsAt(g, o.0, o.1, p)
    {
      if o.1 >= 1 {
        EndsAtSnoc(g, o.0, o.1, st.path, w);
        if EndsAt(g, o.0, o.1, p) {
          assert (o.0, o.1 - 1) in st.search.occ;
        }
      }
    }
  }

  /** extend(s, w) is non-empty exactly when the path with w appended is supported. */
  lemma ExtendIsSupport(g: Gbwt, st: ThreadState, w: ONode)
    requires StateOk(g, st)
    ensures IsEmpty(Extend(g, st.search, w)) <==> !Supported(g, st.path + [w])
  {
    var p := st.path + [w];
    if Supported(g, p) {
      var t: nat, j: nat :| EndsAt(g, t, j, p);
      EndsAtSnoc(g, t, j, st.path, w);
      assert (t, j - 1) in st.search.occ;
      assert (t, j) in Extend(g, st.search, w).occ;
    } else if !IsEmpty(Extend(g, st.search, w)) {
      ExtendOk(g, st, w);
      StateOkBounded(g, ThreadState(Extend(g, st.search, w), p));
    }
  }

  // ---------------------------------------------------------------------------
  // Following an edge of the component from an oriented node (generate_threads).

  /**
   * Where an edge leads when it is traversed from `v`: out of its `from` side
   * when that is `v`, otherwise backwards out of its `to` side when that is
   * the other strand of `v`.
   */
  function Follow(e: Edge, v: ONode): (r: Option<ONode>)
    ensures r.Some? ==> (e == Edge(v, r.value) || e == Edge(Reverse(r.value), Reverse(v)))
    ensures e.from == v ==> r == Some(e.to)
    ensures r.None? <==> e.from != v && e.to != Reverse(v)
  {
    if e.from == v then Some(e.to)
    else if e.to == Reverse(v) then Some(Reverse(e.from))
    else None
  }

  /** The edges that have an end at node id `id` (edges_of). */
  function EdgesOf(edges: set<Edge>, id: nat): (r: set<Edge>)
    ensures r <= edges
    ensures forall e :: e in edges && (e.from.id == id || e.to.id == id) ==> e in r
  {
    set e | e in edges && (e.from.id == id || e.to.id == id)
  }

  /** Some edge of `edges` leads from `a` to `b`. */
  ghost predicate Step(edges: set<Edge>, a: ONode, b: ONode)
  {
    exists e :: e in edges && Follow(e, a) == Some(b)
  }

  /** Every step of `q` follows an edge of the component. */
  ghost predicate FollowsEdges(edges: set<Edge>, q: seq<ONode>)
  {
    forall j :: 1 <= j < |q| ==> Step(edges, q[j - 1], q[j])
  }

  /**
   * A path on the search stack: it starts at node `from`, follows edges of
   * the component and meets no border node strictly inside.
   */
  ghost predicate ThreadWalk(edges: set<Edge>, border: set<nat>, from: nat, q: seq<ONode>)
  {
    && |q| >= 1 && q[0].id == from
    && FollowsEdges(edges, q)
    && (forall j :: 1 <= j < |q| - 1 ==> q[j].id !in border)
  }

  /**
   * No edge of `es` at the last node of `q` extends `q` to a path that
   * occurs in a thread.
   */
  ghost predicate NoneSupported(g: Gbwt, es: set<Edge>, q: seq<ONode>)
    requires |q| >= 1
  {
    forall e :: e in es && Follow(e, q[|q| - 1]).Some? ==> !Supported(g, q + [Follow(e, q[|q| - 1]).value])
  }

  /**
   * What generate_threads inserts: a stacked path that is a substring of a
   * thread and either ends at a border node or cannot be extended along any
   * edge of the component without leaving the threads.
   */
  ghost predicate ThreadEvidence(g: Gbwt, edges: set<Edge>, border: set<nat>, from: nat, q: seq<ONode>)
  {
    && ThreadWalk(edges, border, from, q)
    && Supported(g, q)
    && ((|q| >= 2 && q[|q| - 1].id in border) || NoneSupported(g, edges, q))
  }

  /** One more edge that yields no supported extension. */
  lemma NoneSupportedAdd(g: Gbwt, es: set<Edge>, q: seq<ONode>, e: Edge)
    requires |q| >= 1 && NoneSupported(g, es, q)
    requires Follow(e, q[|q| - 1]).Some? ==> !Supported(g, q + [Follow(e, q[|q| - 1]).value])
    ensures NoneSupported(g, es + {e}, q)
  {
  }

  /** Only the edges at the last node of `q` can extend it (edges_of). */
  lemma NoneSupportedAtNode(g: Gbwt, es: set<Edge>, q: seq<ONode>)
    requires |q| >= 1 && NoneSupported(g, EdgesOf(es, q[|q| - 1].id), q)
    ensures NoneSupported(g, es, q)
  {
    var v := q[|q| - 1];
    forall e | e in es && Follow(e, v).Some?
      ensures !Supported(g, q + [Follow(e, v).value])
    {
      assert e.from == v || e.to == Reverse(v);
      assert e in EdgesOf(es, v.id);
    }
  }

  /** Every path of `qs` is thread evidence. */
  ghost predicate AllThreadEvidence(g: Gbwt, edges: set<Edge>, border: set<nat>, from: nat, qs: seq<seq<ONode>>)
  {
    forall q :: q in qs ==> ThreadEvidence(g, edges, border, from, q)
  }

  lemma ThreadEvidenceSnoc(g: Gbwt, edges: set<Edge>, border: set<nat>, from: nat, qs: seq<seq<ONode>>, q: seq<ONode>)
    requires AllThreadEvidence(g, edges, border, from, qs)
    requires ThreadEvidence(g, edges, border, from, q)
    ensures AllThreadEvidence(g, edges, border, from, qs + [q])
  {
    forall q' | q' in qs + [q]
      ensures ThreadEvidence(g, edges, border, from, q')
    {
      if q' != q {
        assert q' in qs;
      }
    }
  }

  /** A state on the search stack: its search is right and its path is a thread walk from `from`. */
  ghost predicate Searching(g: Gbwt, edges: set<Edge>, border: set<nat>, from: nat, st: ThreadState)
  {
    StateOk(g, st) && ThreadWalk(edges, border, from, st.path)
  }

  /** A popped state whose path reached the border is evidence for its path, and pushes nothing. */
  lemma BorderEvidence(g: Gbwt, edges: set<Edge>, border: set<nat>, from: nat, st: ThreadState)
    requires Searching(g, edges, border, from, st) && |st.path| >= 2 && st.search.node.id in border
    ensures ThreadEvidence(g, edges, border, from, st.path)
    ensures Expansion(g, edges, border, from, st, [])
  {
    StateOkBounded(g, st);
  }

  /** A popped state that no edge extends is evidence for its path. */
  lemma MaximalEvidence(g: Gbwt, edges: set<Edge>, border: set<nat>, from: nat, st: ThreadState)
    requires Searching(g, edges, border, from, st) && NoneSupported(g, edges, st.path)
    ensures ThreadEvidence(g, edges, border, from, st.path)
  {
    StateOkBounded(g, st);
  }

  /** Every state of `sts` is a state on the search stack. */
  ghost predicate AllSearching(g: Gbwt, edges: set<Edge>, border: set<nat>, from: nat, sts: seq<ThreadState>)
  {
    forall k :: 0 <= k < |sts| ==> Searching(g, edges, border, from, sts[k])
  }

  /** Every state of `sts` holds a path of length m. */
  predicate PathsOfLength(sts: seq<ThreadState>, m: nat)
  {
    forall k :: 0 <= k < |sts| ==> |sts[k].path| == m
  }

  /** A one-node path at `from` that occurs in a thread starts the search. */
  lemma SeedSearching(g: Gbwt, edges: set<Edge>, border: set<nat>, from: nat, v: ONode)
    requires v.id == from && !IsEmpty(Find(g, v))
    ensures Searching(g, edges, border, from, ThreadState(Find(g, v), [Find(g, v).node]))
  {
    FindOk(g, v);
  }

  /** The state that create_state pushes for `v`, if `v` occurs in a thread. */
  function Seed(g: Gbwt, v: ONode): seq<ThreadState>
  {
    var search := Find(g, v);
    if IsEmpty(search) then [] else [ThreadState(search, [search.node])]
  }

  /** The seeds for both orientations of `from` are search states. */
  lemma SeedsSearching(g: Gbwt, edges: set<Edge>, border: set<nat>, from: nat)
    ensures AllSearching(g, edges, border, from, Seed(g, ONode(from, false)) + Seed(g, ONode(from, true)))
  {
    SeedAllSearching(g, edges, border, from, ONode(from, false));
    SeedAllSearching(g, edges, border, from, ONode(from, true));
    AllSearchingAppend(g, edges, border, from, Seed(g, ONode(from, false)), Seed(g, ONode(from, true)));
  }

  lemma SeedAllSearching(g: Gbwt, edges: set<Edge>, border: set<nat>, from: nat, v: ONode)
    requires v.id == from
    ensures AllSearching(g, edges, border, from, Seed(g, v))
  {
    if !IsEmpty(Find(g, v)) {
      SeedSearching(g, edges, border, from, v);
    }
  }

  lemma AllSearchingPop(g: Gbwt, edges: set<Edge>, border: set<nat>, from: nat, sts: seq<ThreadState>)
    requires sts != [] && AllSearching(g, edges, border, from, sts)
    ensures AllSearching(g, edges, border, from, sts[..|sts| - 1])
    ensures Searching(g, edges, border, from, sts[|sts| - 1])
  {
    var below := sts[..|sts| - 1];
    forall k | 0 <= k < |below|
      ensures Searching(g, edges, border, from, below[k])
    {
      assert below[k] == sts[k];
    }
  }

  lemma AllSearchingAppend(g: Gbwt, edges: set<Edge>, border: set<nat>, from: nat, below: seq<ThreadState>,
                           pushed: seq<ThreadState>)
    requires AllSearching(g, edges, border, from, below)
    requires AllSearching(g, edges, border, from, pushed)
    ensures AllSearching(g, edges, border, from, below + pushed)
  {
    var all := below + pushed;
    forall k | 0 <= k < |all|
      ensures Searching(g, edges, border, from, all[k])
    {
      if k < |below| {
        assert all[k] == below[k];
      } else {
        assert all[k] == pushed[k - |below|];
      }
    }
  }

  lemma AllSearchingSnoc(g: Gbwt, edges: set<Edge>, border: set<nat>, from: nat, sts: seq<ThreadState>, st: ThreadState)
    requires AllSearching(g, edges, border, from, sts)
    requires Searching(g, edges, border, from, st)
    ensures AllSearching(g, edges, border, from, sts + [st])
  {
    var all := sts + [st];
    forall k | 0 <= k < |all|
      ensures Searching(g, edges, border, from, all[k])
    {
      if k < |sts| {
        assert all[k] == sts[k];
      }
    }
  }

  /** A thread walk extended along an edge out of its last node is a thread walk. */
  lemma ThreadWalkExtend(edges: set<Edge>, border: set<nat>, from: nat, p: seq<ONode>, e: Edge, w: ONode)
    requires ThreadWalk(edges, border, from, p)
    requires e in edges && Follow(e, p[|p| - 1]) == Some(w)
    requires !(|p| >= 2 && p[|p| - 1].id in border)
    ensures ThreadWalk(edges, border, from, p + [w])
  {
    var q := p + [w];
    forall j | 1 <= j < |q|
      ensures Step(edges, q[j - 1], q[j])
    {
      if j < |p| {
        assert q[j - 1] == p[j - 1] && q[j] == p[j];
      } else {
        assert q[j - 1] == p[|p| - 1] && q[j] == w;
        assert e in edges && Follow(e, q[j - 1]) == Some(q[j]);
      }
    }
    forall j | 1 <= j < |q| - 1
      ensures q[j].id !in border
    {
      assert q[j] == p[j];
    }
  }

  /** The state that follows `st` across edge `e`. */
  function Across(g: Gbwt, st: ThreadState, e: Edge): ThreadState
    requires Follow(e, st.search.node).Some?
  {
    var w := Follow(e, st.search.node).value;
    ThreadState(Extend(g, st.search, w), st.path + [w])
  }

  /**
   * The states pushed for `st` after the edges `es`: each extends the path
   * of `st`, and every edge of `es` across which the search of `st` extends
   * has its extension among them.
   */
  ghost predicate Expanded(g: Gbwt, es: set<Edge>, st: ThreadState, pushed: seq<ThreadState>)
  {
    && (forall k :: 0 <= k < |pushed| ==> st.path <= pushed[k].path)
    && (forall e :: e in es && Follow(e, st.search.node).Some?
                    && !IsEmpty(Extend(g, st.search, Follow(e, st.search.node).value))
                    ==> Across(g, st, e) in pushed)
  }

  /** Only the edges at the last node of `st` extend it (edges_of). */
  lemma ExpandedAtNode(g: Gbwt, es: set<Edge>, st: ThreadState, pushed: seq<ThreadState>)
    requires Expanded(g, EdgesOf(es, st.search.node.id), st, pushed)
    ensures Expanded(g, es, st, pushed)
  {
    var v := st.search.node;
    forall e | e in es && Follow(e, v).Some? && !IsEmpty(Extend(g, st.search, Follow(e, v).value))
      ensures Across(g, st, e) in pushed
    {
      assert e.from == v || e.to == Reverse(v);
      assert e in EdgesOf(es, v.id);
    }
  }

  /**
   * The edge loop at the last node of `st`, after the edges `done`: the
   * pushed states are search states one node longer, one for each edge of
   * `done` across which the search extends, and if none was pushed then no
   * edge of `done` gives a supported extension.
   */
  ghost predicate EdgeLoop(g: Gbwt, edges: set<Edge>, border: set<nat>, from: nat, st: ThreadState,
                           done: set<Edge>, pushed: seq<ThreadState>, wasExtended: bool)
  {
    && |st.path| >= 1
    && AllSearching(g, edges, border, from, pushed) && PathsOfLength(pushed, |st.path| + 1)
    && Expanded(g, done, st, pushed)
    && (wasExtended <==> pushed != [])
    && (!wasExtended ==> NoneSupported(g, done, st.path))
  }

  /** One more edge of the loop, across which the search was extended. */
  lemma EdgeLoopPush(g: Gbwt, edges: set<Edge>, border: set<nat>, from: nat, st: ThreadState,
                     done: set<Edge>, pushed: seq<ThreadState>, wasExtended: bool, e: Edge)
    requires Searching(g, edges, border, from, st) && !(|st.path| >= 2 && st.search.node.id in border)
    requires e in edges && EdgeLoop(g, edges, border, from, st, done, pushed, wasExtended)
    requires Follow(e, st.search.node).Some? && !IsEmpty(Extend(g, st.search, Follow(e, st.search.node).value))
    ensures EdgeLoop(g, edges, border, from, st, done + {e}, pushed + [Across(g, st, e)], true)
  {
    SearchingExtend(g, edges, border, from, st, e, Follow(e, st.search.node).value);
    AllSearchingSnoc(g, edges, border, from, pushed, Across(g, st, e));
    var pushed' := pushed + [Across(g, st, e)];
    assert PathsOfLength(pushed', |st.path| + 1);
    forall k | 0 <= k < |pushed'|
      ensures st.path <= pushed'[k].path
    {
      if k < |pushed| {
        assert pushed'[k] == pushed[k];
      }
    }
    forall e' | e' in done + {e} && Follow(e', st.search.node).Some?
                && !IsEmpty(Extend(g, st.search, Follow(e', st.search.node).value))
      ensures Across(g, st, e') in pushed'
    {
      if e' != e {
        assert Across(g, st, e') in pushed;
      }
    }
  }

  /** One more edge of the loop that gave no extension. */
  lemma EdgeLoopSkip(g: Gbwt, edges: set<Edge>, border: set<nat>, from: nat, st: ThreadState,
                     done: set<Edge>, pushed: seq<ThreadState>, wasExtended: bool, e: Edge)
    requires StateOk(g, st) && EdgeLoop(g, edges, border, from, st, done, pushed, wasExtended)
    requires Follow(e, st.search.node).Some? ==> IsEmpty(Extend(g, st.search, Follow(e, st.search.node).value))
    ensures EdgeLoop(g, edges, border, from, st, done + {e}, pushed, wasExtended)
  {
    if !wasExtended {
      var next := Follow(e, st.search.node);
      if next.Some? {
        ExtendIsSupport(g, st, next.value);
      }
      NoneSupportedAdd(g, done, st.path, e);
    }
  }

  /** Extending a stacked state along an edge, when the longer path occurs, gives a stacked state. */
  lemma SearchingExtend(g: Gbwt, edges: set<Edge>, border: set<nat>, from: nat, st: ThreadState, e: Edge, w: ONode)
    requires Searching(g, edges, border, from, st)
    requires e in edges && Follow(e, st.search.node) == Some(w)
    requires !IsEmpty(Extend(g, st.search, w))
    requires !(|st.path| >= 2 && st.search.node.id in border)
    ensures Searching(g, edges, border, from, ThreadState(Extend(g, st.search, w), st.path + [w]))
  {
    ExtendOk(g, st, w);
    ThreadWalkExtend(edges, border, from, st.path, e, w);
  }

  // ---------------------------------------------------------------------------
  // The search of generate_threads misses no thread walk.

  /** A non-empty prefix of a path that occurs in a thread occurs in that thread too. */
  lemma SupportedPrefix(g: Gbwt, q: seq<ONode>, m: nat)
    requires Supported(g, q) && 1 <= m <= |q|
    ensures Supported(g, q[..m])
  {
    var t: nat, j: nat :| EndsAt(g, t, j, q);
    var j' := j - (|q| - m);
    forall i | 0 <= i < m
      ensures g.threads[t][j' + 1 - m + i] == q[..m][i]
    {
      assert g.threads[t][j + 1 - |q| + i] == q[i];
    }
    assert EndsAt(g, t, j', q[..m]);
  }

  /**
   * The outcome of popping `st`: a path that ends at a border node is
   * inserted; any other path has its extensions pushed and is inserted
   * exactly when there are none.
   */
  ghost predicate Popped(g: Gbwt, edges: set<Edge>, border: set<nat>, from: nat, st: ThreadState,
                         inserted: bool, pushed: seq<ThreadState>)
  {
    if |st.path| >= 2 && st.search.node.id in border then inserted
    else Expanded(g, edges, st, pushed) && AllSearching(g, edges, border, from, pushed)
         && PathsOfLength(pushed, |st.path| + 1) && (inserted <==> pushed == [])
  }

  /**
   * Every thread walk from `from` that is evidence has been emitted or
   * starts with the path of a state still on the stack.
   */
  ghost predicate ThreadsCovered(g: Gbwt, edges: set<Edge>, border: set<nat>, from: nat,
                                 emitted: seq<seq<ONode>>, stack: seq<ThreadState>)
  {
    forall q :: ThreadEvidence(g, edges, border, from, q)
                ==> q in emitted || exists k :: 0 <= k < |stack| && stack[k].path <= q
  }

  /** The seeds of both orientations of `from` start every thread walk from `from`. */
  lemma SeedsCover(g: Gbwt, edges: set<Edge>, border: set<nat>, from: nat)
    ensures ThreadsCovered(g, edges, border, from, [], Seed(g, ONode(from, false)) + Seed(g, ONode(from, true)))
  {
    var lo: seq<ThreadState>, hi: seq<ThreadState> := Seed(g, ONode(from, false)), Seed(g, ONode(from, true));
    forall q | ThreadEvidence(g, edges, border, from, q)
      ensures exists k :: 0 <= k < |lo + hi| && (lo + hi)[k].path <= q
    {
      var v := q[0];
      var t: nat, j: nat :| EndsAt(g, t, j, q);
      assert g.threads[t][j + 1 - |q| + 0] == v;
      assert (t, j + 1 - |q|) in Find(g, v).occ;
      assert [v] <= q;
      if v.isReverse {
        assert v == ONode(from, true);
        assert (lo + hi)[|lo|] == hi[0];
      } else {
        assert v == ONode(from, false);
        assert (lo + hi)[0] == lo[0];
      }
    }
  }

  /**
   * A step of the search: the popped state `st` either ends at a border node
   * and is inserted, or has its extensions pushed and is inserted when there
   * are none. Either way no thread walk is lost.
   */
  lemma CoverStep(g: Gbwt, edges: set<Edge>, border: set<nat>, from: nat, emitted: seq<seq<ONode>>,
                  before: seq<ThreadState>, inserted: bool, pushed: seq<ThreadState>)
    requires before != [] && ThreadsCovered(g, edges, border, from, emitted, before)
    requires Searching(g, edges, border, from, before[|before| - 1])
    requires Popped(g, edges, border, from, before[|before| - 1], inserted, pushed)
    ensures ThreadsCovered(g, edges, border, from, emitted + if inserted then [before[|before| - 1].path] else [],
                           before[..|before| - 1] + pushed)
  {
    var st := before[|before| - 1];
    var emitted' := emitted + if inserted then [st.path] else [];
    var stack' := before[..|before| - 1] + pushed;
    forall q | ThreadEvidence(g, edges, border, from, q)
      ensures q in emitted' || exists k :: 0 <= k < |stack'| && stack'[k].path <= q
    {
      if q !in emitted {
        var k :| 0 <= k < |before| && before[k].path <= q;
        if k < |before| - 1 {
          assert stack'[k] == before[k];
        } else {
          CoverTop(g, edges, border, from, st, inserted, pushed, q);
          if !inserted {
            var i :| 0 <= i < |pushed| && pushed[i].path <= q;
            assert stack'[|before| - 1 + i] == pushed[i];
          }
        }
      }
    }
  }

  /** A thread walk that starts with the path of the popped state is that path, inserted, or starts with a pushed path. */
  lemma CoverTop(g: Gbwt, edges: set<Edge>, border: set<nat>, from: nat, st: ThreadState,
                 inserted: bool, pushed: seq<ThreadState>, q: seq<ONode>)
    requires Searching(g, edges, border, from, st)
    requires Popped(g, edges, border, from, st, inserted, pushed)
    requires ThreadEvidence(g, edges, border, from, q) && st.path <= q
    ensures if inserted then q == st.path else exists i :: 0 <= i < |pushed| && pushed[i].path <= q
  {
    if |st.path| == |q| {
      assert q == st.path;
      if !(|q| >= 2 && st.search.node.id in border) {
        NothingPushed(g, edges, border, from, q, pushed);
      }
    } else {
      CoverLonger(g, edges, border, from, st, pushed, q);
    }
  }

  /** A path that no edge extends within the threads has no search state one node longer. */
  lemma NothingPushed(g: Gbwt, edges: set<Edge>, border: set<nat>, from: nat, q: seq<ONode>, pushed: seq<ThreadState>)
    requires |q| >= 1 && NoneSupported(g, edges, q)
    requires AllSearching(g, edges, border, from, pushed) && PathsOfLength(pushed, |q| + 1)
    requires forall k :: 0 <= k < |pushed| ==> q <= pushed[k].path
    ensures pushed == []
  {
    if pushed != [] {
      ExtensionSupported(g, edges, border, from, q, pushed[0]);
      assert false;
    }
  }

  /** A search state one node longer than `q` that extends it shows an edge across which `q` extends within the threads. */
  lemma ExtensionSupported(g: Gbwt, edges: set<Edge>, border: set<nat>, from: nat, q: seq<ONode>, next: ThreadState)
    requires |q| >= 1 && Searching(g, edges, border, from, next)
    requires |next.path| == |q| + 1 && q <= next.path
    ensures !NoneSupported(g, edges, q)
  {
    var n := |q|;
    StateOkBounded(g, next);
    assert next.path == q + [next.path[n]] && next.path[n - 1] == q[n - 1];
    assert Step(edges, next.path[n - 1], next.path[n]);
    var e :| e in edges && Follow(e, q[n - 1]) == Some(next.path[n]);
  }

  /** A thread walk longer than the popped path continues it across an edge whose extension was pushed. */
  lemma CoverLonger(g: Gbwt, edges: set<Edge>, border: set<nat>, from: nat, st: ThreadState,
                    pushed: seq<ThreadState>, q: seq<ONode>)
    requires Searching(g, edges, border, from, st)
    requires ThreadEvidence(g, edges, border, from, q) && st.path <= q && |st.path| < |q|
    requires !(|st.path| >= 2 && st.search.node.id in border) ==> Expanded(g, edges, st, pushed)
    ensures !(|st.path| >= 2 && st.search.node.id in border)
    ensures exists i :: 0 <= i < |pushed| && pushed[i].path <= q
  {
    var n := |st.path|;
    assert q[n - 1] == st.search.node;
    var w := q[n];
    assert Step(edges, q[n - 1], w);
    var e :| e in edges && Follow(e, st.search.node) == Some(w);
    SupportedPrefix(g, q, n + 1);
    assert q[..n + 1] == st.path + [w];
    ExtendIsSupport(g, st, w);
    var i :| 0 <= i < |pushed| && pushed[i] == Across(g, st, e);
    assert pushed[i].path == q[..n + 1];
  }

  /**
   * What unfold_component folds: a walk along an embedded path or a thread
   * walk, from some node of the border.
   */
  ghost predicate Evidence(paths: seq<seq<ONode>>, g: Gbwt, edges: set<Edge>, border: set<nat>, q: seq<ONode>)
  {
    exists from :: from in border && (PathEvidence(paths, from, edges, border, q) || ThreadEvidence(g, edges, border, from, q))
  }

  /** Every path of `qs` is evidence. */
  ghost predicate AllEvidence(paths: seq<seq<ONode>>, g: Gbwt, edges: set<Edge>, border: set<nat>, qs: seq<seq<ONode>>)
  {
    forall q :: q in qs ==> Evidence(paths, g, edges, border, q)
  }

  /** Every walk along an embedded path, and every thread walk, from a node of `froms` is among `qs`. */
  ghost predicate Covered(paths: seq<seq<ONode>>, g: Gbwt, froms: set<nat>, edges: set<Edge>, border: set<nat>,
                          qs: seq<seq<ONode>>)
  {
    && (forall from, b :: from in froms && PathEvidence(paths, from, edges, border, b) ==> b in qs)
    && (forall from, b :: from in froms && ThreadEvidence(g, edges, border, from, b) ==> b in qs)
  }

  /** Emitting only evidence and all of it from every border node: `qs` holds exactly the evidence. */
  lemma CoveredExactly(paths: seq<seq<ONode>>, g: Gbwt, edges: set<Edge>, border: set<nat>, qs: seq<seq<ONode>>)
    requires AllEvidence(paths, g, edges, border, qs) && Covered(paths, g, border, edges, border, qs)
    ensures forall q :: q in qs <==> Evidence(paths, g, edges, border, q)
  {
    forall q | Evidence(paths, g, edges, border, q)
      ensures q in qs
    {
      var from :| from in border && (PathEvidence(paths, from, edges, border, q) || ThreadEvidence(g, edges, border, from, q));
    }
  }

  /** The two searches from one border node emit evidence, and every walk along an embedded path. */
  lemma StartEvidence(paths: seq<seq<ONode>>, g: Gbwt, edges: set<Edge>, border: set<nat>, from: nat,
                      fromPaths: seq<seq<ONode>>, fromThreads: seq<seq<ONode>>)
    requires from in border
    requires forall b :: b in fromPaths <==> PathEvidence(paths, from, edges, border, b)
    requires AllThreadEvidence(g, edges, border, from, fromThreads)
    requires forall q :: ThreadEvidence(g, edges, border, from, q) ==> q in fromThreads
    ensures AllEvidence(paths, g, edges, border, fromPaths + fromThreads)
    ensures Covered(paths, g, {from}, edges, border, fromPaths + fromThreads)
  {
    forall q | q in fromPaths + fromThreads
      ensures Evidence(paths, g, edges, border, q)
    {
      if q in fromPaths {
        assert PathEvidence(paths, from, edges, border, q);
      } else {
        assert ThreadEvidence(g, edges, border, from, q);
      }
    }
  }

  /** Appending the output of one more border node. */
  lemma EvidenceAppend(paths: seq<seq<ONode>>, g: Gbwt, edges: set<Edge>, border: set<nat>, froms: set<nat>,
                       from: nat, qs: seq<seq<ONode>>, batch: seq<seq<ONode>>)
    requires AllEvidence(paths, g, edges, border, qs) && AllEvidence(paths, g, edges, border, batch)
    requires Covered(paths, g, froms, edges, border, qs) && Covered(paths, g, {from}, edges, border, batch)
    ensures AllEvidence(paths, g, edges, border, qs + batch)
    ensures Covered(paths, g, froms + {from}, edges, border, qs + batch)
  {
    forall q | q in qs + batch
      ensures Evidence(paths, g, edges, border, q)
    {
      if q in qs {
        assert Evidence(paths, g, edges, border, q);
      } else {
        assert q in batch;
      }
    }
    forall f, b | f in froms + {from} && PathEvidence(paths, f, edges, border, b)
      ensures b in qs + batch
    {
      if f in froms {
        assert b in qs;
      } else {
        assert b in batch;
      }
    }
    forall f, b | f in froms + {from} && ThreadEvidence(g, edges, border, f, b)
      ensures b in qs + batch
    {
      if f in froms {
        assert b in qs;
      } else {
        assert b in batch;
      }
    }
  }

  // ---------------------------------------------------------------------------
  // The measure that bounds the search: a stacked path of length k weighs
  // base^(bound - k), and a popped path is replaced by fewer than `base`
  // paths one node longer.

  function Pow(base: nat, e: nat): (r: nat)
    ensures base >= 1 ==> r >= 1
  {
    if e == 0 then 1 else Times(base, Pow(base, e - 1))
  }

  function Weight(stack: seq<ThreadState>, base: nat, bound: nat): nat
  {
    if stack == [] then 0
    else
      var top := stack[|stack| - 1];
      Weight(stack[..|stack| - 1], base, bound) + Pow(base, if |top.path| <= bound then bound - |top.path| else 0)
  }

  lemma WeightPush(stack: seq<ThreadState>, st: ThreadState, base: nat, bound: nat)
    ensures Weight(stack + [st], base, bound)
            == Weight(stack, base, bound) + Pow(base, if |st.path| <= bound then bound - |st.path| else 0)
  {
    assert (stack + [st])[..|stack|] == stack;
  }

  /** n entries of weight `unit`, added up one at a time. */
  function Times(n: nat, unit: nat): nat
  {
    if n == 0 then 0 else Times(n - 1, unit) + unit
  }

  /** Pushing states whose paths all have length m adds base^(bound - m) per state. */
  lemma {:induction false} WeightAppend(below: seq<ThreadState>, pushed: seq<ThreadState>, base: nat, bound: nat, m: nat)
    requires m <= bound
    requires PathsOfLength(pushed, m)
    ensures Weight(below + pushed, base, bound) == Weight(below, base, bound) + Times(|pushed|, Pow(base, bound - m))
    decreases |pushed|
  {
    if pushed != [] {
      var init, last := pushed[..|pushed| - 1], pushed[|pushed| - 1];
      WeightAppend(below, init, base, bound, m);
      assert below + pushed == (below + init) + [last];
      WeightPush(below + init, last, base, bound);
    } else {
      assert below + pushed == below;
    }
  }

  lemma {:induction false} TimesIsProduct(n: nat, unit: nat)
    ensures Times(n, unit) == n * unit
  {
    if n > 0 {
      TimesIsProduct(n - 1, unit);
    }
  }

  /** The states pushed for the popped state `st`: at most one per edge, search states one node longer. */
  ghost predicate Expansion(g: Gbwt, edges: set<Edge>, border: set<nat>, from: nat, st: ThreadState, pushed: seq<ThreadState>)
  {
    |pushed| <= |edges| && AllSearching(g, edges, border, from, pushed) && PathsOfLength(pushed, |st.path| + 1)
  }

  /**
   * Replacing the top of a stack of search states by its expansion leaves a
   * stack of search states that is lighter in the measure with base |edges| + 1
   * and bound the longest thread.
   */
  lemma StackStep(g: Gbwt, edges: set<Edge>, border: set<nat>, from: nat, before: seq<ThreadState>, pushed: seq<ThreadState>)
    requires before != [] && AllSearching(g, edges, border, from, before)
    requires Expansion(g, edges, border, from, before[|before| - 1], pushed)
    ensures AllSearching(g, edges, border, from, before[..|before| - 1] + pushed)
    ensures Weight(before[..|before| - 1] + pushed, |edges| + 1, MaxLength(g.threads))
            < Weight(before, |edges| + 1, MaxLength(g.threads))
  {
    StackBound(g, edges, border, from, before, pushed);
    StackLighter(before, pushed, |edges| + 1, MaxLength(g.threads));
    StackSearching(g, edges, border, from, before, pushed);
  }

  /** The paths on the stack and the pushed paths fit in a thread. */
  lemma StackBound(g: Gbwt, edges: set<Edge>, border: set<nat>, from: nat, before: seq<ThreadState>, pushed: seq<ThreadState>)
    requires before != [] && AllSearching(g, edges, border, from, before)
    requires Expansion(g, edges, border, from, before[|before| - 1], pushed)
    ensures |before[|before| - 1].path| <= MaxLength(g.threads)
    ensures pushed != [] ==> |before[|before| - 1].path| + 1 <= MaxLength(g.threads)
  {
    assert Searching(g, edges, border, from, before[|before| - 1]);
    StateOkBounded(g, before[|before| - 1]);
    if pushed != [] {
      assert Searching(g, edges, border, from, pushed[0]);
      StateOkBounded(g, pushed[0]);
    }
  }

  /** The stack with its top replaced by the expansion holds search states. */
  lemma StackSearching(g: Gbwt, edges: set<Edge>, border: set<nat>, from: nat, before: seq<ThreadState>, pushed: seq<ThreadState>)
    requires before != [] && AllSearching(g, edges, border, from, before)
    requires AllSearching(g, edges, border, from, pushed)
    ensures AllSearching(g, edges, border, from, before[..|before| - 1] + pushed)
  {
    AllSearchingPop(g, edges, border, from, before);
    AllSearchingAppend(g, edges, border, from, before[..|before| - 1], pushed);
  }

  /**
   * Popping the top state, whose path has length m <= bound, and pushing
   * fewer than `base` states whose paths have length m + 1 <= bound makes
   * the stack lighter.
   */
  lemma StackLighter(before: seq<ThreadState>, pushed: seq<ThreadState>, base: nat, bound: nat)
    requires before != [] && |before[|before| - 1].path| <= bound
    requires pushed != [] ==> |before[|before| - 1].path| + 1 <= bound
    requires |pushed| < base
    requires PathsOfLength(pushed, |before[|before| - 1].path| + 1)
    ensures Weight(before[..|before| - 1] + pushed, base, bound) < Weight(before, base, bound)
  {
    var below, m := before[..|before| - 1], |before[|before| - 1].path|;
    assert Weight(before, base, bound) == Weight(below, base, bound) + Pow(base, bound - m);
    if pushed == [] {
      assert below + pushed == below;
    } else {
      WeightAppend(below, pushed, base, bound, m + 1);
      FewerThanBase(|pushed|, base, bound - m - 1);
    }
  }

  lemma SubsetSize<T>(a: set<T>, b: set<T>)
    requires a <= b
    ensures |a| <= |b|
    decreases b
  {
    if a != {} {
      var x :| x in a;
      SubsetSize(a - {x}, b - {x});
    }
  }

  /** Fewer than `base` entries of weight base^e weigh less than one entry of weight base^(e+1). */
  lemma FewerThanBase(count: nat, base: nat, e: nat)
    requires count < base
    ensures Times(count, Pow(base, e)) < Pow(base, e + 1)
  {
    TimesIsProduct(count, Pow(base, e));
    TimesIsProduct(base, Pow(base, e));
    assert Pow(base, e) >= 1;
    assert count * Pow(base, e) < base * Pow(base, e);
  }
}
