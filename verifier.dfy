/**
 * The verifier of the phase unfolder: the table from original ids to the
 * ids that may stand for them in the unfolded graph, and the branch search
 * (verify_path) that looks for a walk in the unfolded graph whose nodes
 * stand for the nodes of an evidence path.
 */
module Verifier {
  import opened Oriented
  import opened Registry
  import opened Graphs
  import opened Walks

  /** original id -> the ids that may stand for it (reverse_mapping in the source). */
  type Table = map<nat, seq<nat>>

  // ---------------------------------------------------------------------------
  // Candidate lists.

  /** Every list of the table has an entry 0, as verify_path assumes. */
  predicate NonEmptyLists(table: Table)
  {
    forall id :: id in table ==> table[id] != []
  }

  /** No list of the table is longer than `k`, and k >= 1. */
  predicate Bounded(table: Table, k: nat)
  {
    k >= 1 && forall id :: id in table ==> |table[id]| <= k
  }

  /** The number of duplicates verify_path counts for an id: 0 for an id without an entry. */
  function Dups(table: Table, id: nat): nat
  {
    if id in table then |table[id]| else 0
  }

  /** The number of choices for an id: an id without an entry stands for itself only. */
  function Count(table: Table, id: nat): nat
  {
    if id in table then |table[id]| else 1
  }

  /** A step to a node with at most one candidate: every walk goes through it. */
  predicate Forced(table: Table, id: nat)
  {
    Dups(table, id) <= 1
  }

  /** The c-th choice for the node at offset `o` of `path`, with the path's orientation. */
  function Choice(path: seq<ONode>, table: Table, o: nat, c: nat): (x: ONode)
    requires o < |path| && c < Count(table, path[o].id)
    ensures IsCandidate(table, path[o], x)
  {
    var id := path[o].id;
    ONode(if id in table then table[id][c] else id, path[o].isReverse)
  }

  /** `x` may stand for `v` in the unfolded graph. */
  predicate IsCandidate(table: Table, v: ONode, x: ONode)
  {
    x.isReverse == v.isReverse && (if v.id in table then x.id in table[v.id] else x.id == v.id)
  }

  /** No node of `path` has duplicates: every node stands for itself only. */
  predicate NoDuplicates(path: seq<ONode>, table: Table)
  {
    forall i :: 0 <= i < |path| ==> path[i].id !in table
  }

  /** The pair of `w` ending at position j is an edge of `edges`. */
  predicate Linked(w: seq<ONode>, j: int, edges: set<Edge>)
  {
    0 < j < |w| && MakeEdge(w[j - 1], w[j]) in edges
  }

  /** Every consecutive pair of `path` is an edge of `edges`. */
  predicate AllEdgesPresent(path: seq<ONode>, edges: set<Edge>)
  {
    forall i :: 1 <= i < |path| ==> Linked(path, i, edges)
  }

  /**
   * `w` is a walk in the unfolded graph through candidates for the nodes of
   * `path` from offset `o` on: the search has checked each of its edges.
   */
  ghost predicate VerifiedWalk(path: seq<ONode>, table: Table, edges: set<Edge>, o: nat, w: seq<ONode>)
  {
    && |w| >= 1 && o + |w| <= |path|
    && (forall j :: 0 <= j < |w| ==> IsCandidate(table, path[o + j], w[j]))
    && (forall j :: 1 <= j < |w| ==> Linked(w, j, edges))
  }

  /**
   * Some walk in the unfolded graph spells a suffix of `path` through
   * candidates and reaches its last node: what a successful check of a path
   * vouches for, duplicates or not.
   */
  ghost predicate Spelled(path: seq<ONode>, table: Table, edges: set<Edge>)
  {
    exists o: nat, w: seq<ONode> :: o + |w| == |path| && VerifiedWalk(path, table, edges, o, w)
  }

  lemma WalkSnoc(path: seq<ONode>, table: Table, edges: set<Edge>, o: nat, w: seq<ONode>, x: ONode)
    requires VerifiedWalk(path, table, edges, o, w) && o + |w| < |path|
    requires IsCandidate(table, path[o + |w|], x) && MakeEdge(w[|w| - 1], x) in edges
    ensures VerifiedWalk(path, table, edges, o, w + [x])
  {
    var w' := w + [x];
    forall j | 0 <= j < |w'|
      ensures IsCandidate(table, path[o + j], w'[j])
    {
      if j < |w| {
        assert w'[j] == w[j];
      }
    }
    forall j | 1 <= j < |w'|
      ensures Linked(w', j, edges)
    {
      if j < |w| {
        assert Linked(w, j, edges);
        assert w'[j - 1] == w[j - 1] && w'[j] == w[j];
      }
    }
  }

  /** Without duplicates, the only candidate of a node is the node itself. */
  lemma OnlyCandidate(path: seq<ONode>, table: Table, i: nat, x: ONode)
    requires NoDuplicates(path, table) && i < |path| && IsCandidate(table, path[i], x)
    ensures x == path[i]
  {
  }

  /** Without duplicates, a verified walk over the whole path is the path itself. */
  lemma NoDuplicatesWalk(path: seq<ONode>, table: Table, edges: set<Edge>, w: seq<ONode>)
    requires NoDuplicates(path, table) && VerifiedWalk(path, table, edges, 0, w) && |w| == |path|
    ensures AllEdgesPresent(path, edges)
  {
    forall i | 1 <= i < |path|
      ensures Linked(path, i, edges)
    {
      assert Linked(w, i, edges);
      OnlyCandidate(path, table, i - 1, w[i - 1]);
      OnlyCandidate(path, table, i, w[i]);
    }
  }

  /** Without duplicates, a missing edge after a verified walk from the start is a missing edge of the path. */
  lemma NoDuplicatesBlocked(path: seq<ONode>, table: Table, edges: set<Edge>, w: seq<ONode>, blocked: ONode)
    requires NoDuplicates(path, table) && VerifiedWalk(path, table, edges, 0, w) && |w| < |path|
    requires IsCandidate(table, path[|w|], blocked) && MakeEdge(w[|w| - 1], blocked) !in edges
    ensures !AllEdgesPresent(path, edges)
  {
    OnlyCandidate(path, table, |w| - 1, w[|w| - 1]);
    OnlyCandidate(path, table, |w|, blocked);
    assert !Linked(path, |w|, edges);
  }

  // ---------------------------------------------------------------------------
  // Branches.

  /**
   * A branching point of the search: the walk resumes at `offset` with
   * choice `curr` there and choice `next` at offset + 1.
   */
  datatype PathBranch = PathBranch(offset: nat, curr: nat, next: nat)

  /** PathBranch::advance: one offset further; the old next choice becomes the current one. */
  function Advance(b: PathBranch): PathBranch
  {
    PathBranch(b.offset + 1, b.next, 0)
  }

  /** The choices of `b` index into the candidate lists at its offsets. */
  predicate CursorOk(path: seq<ONode>, table: Table, b: PathBranch)
  {
    && b.offset < |path|
    && b.curr < Count(table, path[b.offset].id)
    && (b.offset + 1 < |path| ==> b.next < Count(table, path[b.offset + 1].id))
  }

  /** A stacked branch: a valid cursor that still has an edge to check. */
  predicate BranchOk(path: seq<ONode>, table: Table, b: PathBranch)
  {
    b.offset + 1 < |path| && CursorOk(path, table, b)
  }

  predicate AllBranchesOk(path: seq<ONode>, table: Table, bs: seq<PathBranch>)
  {
    forall j :: 0 <= j < |bs| ==> BranchOk(path, table, bs[j])
  }

  lemma AllBranchesOkAppend(path: seq<ONode>, table: Table, bs: seq<PathBranch>, more: seq<PathBranch>)
    requires AllBranchesOk(path, table, bs) && AllBranchesOk(path, table, more)
    ensures AllBranchesOk(path, table, bs + more)
  {
    forall j | 0 <= j < |bs + more|
      ensures BranchOk(path, table, (bs + more)[j])
    {
      if j < |bs| {
        assert (bs + more)[j] == bs[j];
      } else {
        assert (bs + more)[j] == more[j - |bs|];
      }
    }
  }

  /**
   * The branch that verify_path pushes before it tries the edge from offset
   * to offset + 1: the next choice at offset + 1 if one is left, and
   * otherwise the next choice at offset, to be resumed from offset.
   */
  function Sibling(path: seq<ONode>, table: Table, b: PathBranch, currDuplicates: nat): (r: seq<PathBranch>)
    requires b.offset + 1 < |path|
    ensures |r| <= 1
    ensures currDuplicates == Dups(table, path[b.offset].id) && NonEmptyLists(table) && CursorOk(path, table, b)
            ==> AllBranchesOk(path, table, r)
    ensures forall s :: s in r ==> s.offset == b.offset && s != b
    ensures NoDuplicates(path, table) && currDuplicates == 0 ==> r == []
  {
    var id := path[b.offset + 1].id;
    if id in table && b.next + 1 < |table[id]| then [PathBranch(b.offset, b.curr, b.next + 1)]
    else if b.curr + 1 < currDuplicates then [PathBranch(b.offset, b.curr + 1, 0)]
    else []
  }

  // ---------------------------------------------------------------------------
  // The measure of the search. A branch ranks by (|path| - offset, choices
  // left at offset, choices left at offset + 1), read as digits in base
  // k^2, k, 1; a stacked branch of rank r weighs (|path| + 1)^r. Every push
  // ranks below the popped branch, and one pop pushes at most |path|
  // branches, so the stack gets lighter with every pop.

  function Digit(k: nat, c: nat): nat
  {
    if c < k then k - 1 - c else 0
  }

  function Rank(n: nat, k: nat, b: PathBranch): nat
  {
    Times(if b.offset < n then n - b.offset else 0, Times(k, k)) + Times(Digit(k, b.curr), k) + Digit(k, b.next)
  }

  function BranchWeight(n: nat, k: nat, bs: seq<PathBranch>): nat
  {
    if bs == [] then 0
    else BranchWeight(n, k, bs[..|bs| - 1]) + Pow(n + 1, Rank(n, k, bs[|bs| - 1]))
  }

  lemma {:induction false} TimesMonotone(a: nat, b: nat, unit: nat)
    requires a <= b
    ensures Times(a, unit) <= Times(b, unit)
    decreases b
  {
    if a < b {
      TimesMonotone(a, b - 1, unit);
    }
  }

  lemma {:induction false} PowMonotone(base: nat, a: nat, b: nat)
    requires base >= 1 && a <= b
    ensures Pow(base, a) <= Pow(base, b)
    decreases b
  {
    if a < b {
      PowMonotone(base, a, b - 1);
      TimesMonotone(1, base, Pow(base, b - 1));
    }
  }

  /** The low digits of a rank stay below one unit of the offset digit. */
  lemma LowDigits(k: nat, c: nat, d: nat)
    requires c < k && d < k
    ensures Times(Digit(k, c), k) + Digit(k, d) < Times(k, k)
  {
    TimesMonotone(Digit(k, c), k - 1, k);
  }

  /** A branch at a later offset ranks lower, whatever its choices. */
  lemma RankLaterOffset(n: nat, k: nat, a: PathBranch, b: PathBranch)
    requires a.offset < b.offset < n && b.curr < k && b.next < k
    ensures Rank(n, k, b) < Rank(n, k, a)
  {
    LowDigits(k, b.curr, b.next);
    TimesMonotone(n - b.offset, n - a.offset - 1, Times(k, k));
  }

  /** A sibling at the same offset ranks lower than the branch that pushes it. */
  lemma RankSibling(n: nat, k: nat, b: PathBranch, s: PathBranch)
    requires b.offset == s.offset && b.curr < k && b.next < k && s.curr < k && s.next < k
    requires (s.curr == b.curr && s.next == b.next + 1) || (s.curr == b.curr + 1 && s.next == 0)
    ensures Rank(n, k, s) < Rank(n, k, b)
  {
    if s.curr == b.curr + 1 {
      assert Times(Digit(k, b.curr), k) == Times(Digit(k, s.curr), k) + k;
    }
  }

  /** A branch before the end of the path has a positive rank. */
  lemma RankPositive(n: nat, k: nat, offset: nat)
    requires offset < n && k >= 1
    ensures forall c, d :: Rank(n, k, PathBranch(offset, c, d)) >= 1
  {
    TimesMonotone(1, n - offset, Times(k, k));
    TimesMonotone(1, k, k);
  }

  lemma BranchWeightAppend(n: nat, k: nat, bs: seq<PathBranch>, s: PathBranch)
    ensures BranchWeight(n, k, bs + [s]) == BranchWeight(n, k, bs) + Pow(n + 1, Rank(n, k, s))
  {
    assert (bs + [s])[..|bs|] == bs;
  }

  /** Choices that index into the lists are digits below k. */
  lemma CursorDigits(path: seq<ONode>, table: Table, k: nat, b: PathBranch)
    requires Bounded(table, k) && CursorOk(path, table, b)
    ensures b.curr < k && (b.offset + 1 < |path| ==> b.next < k)
  {
    assert Count(table, path[b.offset].id) <= k;
    if b.offset + 1 < |path| {
      assert Count(table, path[b.offset + 1].id) <= k;
    }
  }

  /**
   * The sibling pushed at a cursor that ranks no higher than the popped
   * branch b0 adds at most (|path| + 1)^(rank(b0) - 1) to the stack.
   */
  lemma SiblingLighter(path: seq<ONode>, table: Table, k: nat, b: PathBranch, currDuplicates: nat,
                       b0: PathBranch, bs: seq<PathBranch>)
    requires Bounded(table, k) && NonEmptyLists(table) && BranchOk(path, table, b)
    requires currDuplicates == Dups(table, path[b.offset].id)
    requires Rank(|path|, k, b) <= Rank(|path|, k, b0) && b0.offset < |path|
    ensures Rank(|path|, k, b0) >= 1
    ensures BranchWeight(|path|, k, bs + Sibling(path, table, b, currDuplicates))
            <= BranchWeight(|path|, k, bs) + Pow(|path| + 1, Rank(|path|, k, b0) - 1)
  {
    var n := |path|;
    var r := Sibling(path, table, b, currDuplicates);
    CursorDigits(path, table, k, b);
    RankPositive(n, k, b0.offset);
    if r == [] {
      assert bs + r == bs;
    } else {
      var s := r[0];
      assert BranchOk(path, table, s);
      CursorDigits(path, table, k, s);
      RankSibling(n, k, b, s);
      PowMonotone(n + 1, Rank(n, k, s), Rank(n, k, b0) - 1);
      assert r == [s];
      BranchWeightAppend(n, k, bs, s);
    }
  }

  /** A computed bound on the lengths of the table's lists. */
  lemma {:induction false} ListBound(table: Table) returns (k: nat)
    ensures Bounded(table, k)
    decreases |table|
  {
    if table == map[] {
      k := 1;
    } else {
      var id :| id in table;
      var rest := table - {id};
      assert |rest| < |table| by {
        assert rest.Keys + {id} == table.Keys;
      }
      var k' := ListBound(rest);
      k := if |table[id]| > k' then |table[id]| else k';
      forall id' | id' in table
        ensures |table[id']| <= k
      {
        if id' != id {
          assert id' in rest;
        }
      }
    }
  }

  // ---------------------------------------------------------------------------
  // verify_path.

  /** The weight that one offset of the walk may add to the stack. */
  function Unit(n: nat, k: nat, b0: PathBranch): nat
  {
    Pow(n + 1, if Rank(n, k, b0) >= 1 then Rank(n, k, b0) - 1 else 0)
  }

  // The state of the inner loop of verify_path after walking `walk` from
  // the popped branch b0 to cursor b, with stack bs (bs0 when the walk
  // began), in three parts.

  /** The walk is verified and runs from b0's current choice to b's. */
  ghost predicate Walked(path: seq<ONode>, table: Table, edges: set<Edge>, b0: PathBranch, b: PathBranch, walk: seq<ONode>)
  {
    && b0.offset <= b.offset < |path| && b.offset == b0.offset + |walk| - 1
    && CursorOk(path, table, b) && CursorOk(path, table, b0)
    && VerifiedWalk(path, table, edges, b0.offset, walk)
    && walk[|walk| - 1] == Choice(path, table, b.offset, b.curr)
    && walk[0] == Choice(path, table, b0.offset, b0.curr)
  }

  /**
   * The stack holds valid branches and weighs at most one unit per offset
   * walked more than at the start; the cursor ranks no higher than b0.
   */
  predicate Stacked(path: seq<ONode>, table: Table, k: nat, b0: PathBranch, bs0: seq<PathBranch>,
                    b: PathBranch, bs: seq<PathBranch>)
  {
    var n := |path|;
    && b0.offset <= b.offset < n
    && AllBranchesOk(path, table, bs)
    && Rank(n, k, b) <= Rank(n, k, b0)
    && BranchWeight(n, k, bs) + Times(n - b.offset - 1, Unit(n, k, b0))
       <= BranchWeight(n, k, bs0) + Times(n - b0.offset - 1, Unit(n, k, b0))
  }

  /** Every stacked branch resumes at or after each forced node walked through after offset o0. */
  predicate ClearAfterForced(path: seq<ONode>, table: Table, o0: nat, offset: nat, bs: seq<PathBranch>)
  {
    forall i, j :: o0 < i <= offset && i < |path| && Forced(table, path[i].id) && 0 <= j < |bs| ==> i <= bs[j].offset
  }

  lemma WalkedStep(path: seq<ONode>, table: Table, edges: set<Edge>, b0: PathBranch, b: PathBranch,
                   walk: seq<ONode>, next: ONode)
    requires NonEmptyLists(table) && Walked(path, table, edges, b0, b, walk) && b.offset + 1 < |path|
    requires next == Choice(path, table, b.offset + 1, b.next) && MakeEdge(walk[|walk| - 1], next) in edges
    ensures Walked(path, table, edges, b0, Advance(b), walk + [next])
  {
    WalkSnoc(path, table, edges, b0.offset, walk, next);
    assert (walk + [next])[0] == walk[0];
  }

  lemma StackedStep(path: seq<ONode>, table: Table, k: nat, b0: PathBranch, bs0: seq<PathBranch>,
                    b: PathBranch, bs: seq<PathBranch>, bs': seq<PathBranch>)
    requires NonEmptyLists(table) && Bounded(table, k) && BranchOk(path, table, b)
    requires Stacked(path, table, k, b0, bs0, b, bs)
    requires bs' == [] || bs' == bs + Sibling(path, table, b, Dups(table, path[b.offset].id))
    ensures Stacked(path, table, k, b0, bs0, Advance(b), bs')
  {
    var n := |path|;
    var unit := Unit(n, k, b0);
    var pushed := bs + Sibling(path, table, b, Dups(table, path[b.offset].id));
    SiblingLighter(path, table, k, b, Dups(table, path[b.offset].id), b0, bs);
    AllBranchesOkAppend(path, table, bs, Sibling(path, table, b, Dups(table, path[b.offset].id)));
    CursorDigits(path, table, k, b);
    RankLaterOffset(n, k, b, Advance(b));
    assert Times(n - b.offset - 1, unit) == Times(n - b.offset - 2, unit) + unit;
  }

  /** The branches pushed when the walk is blocked after cursor b. */
  lemma StackedBlocked(path: seq<ONode>, table: Table, k: nat, b0: PathBranch, bs0: seq<PathBranch>,
                       b: PathBranch, bs: seq<PathBranch>)
    requires NonEmptyLists(table) && Bounded(table, k) && BranchOk(path, table, b)
    requires Stacked(path, table, k, b0, bs0, b, bs)
    ensures var pushed := bs + Sibling(path, table, b, Dups(table, path[b.offset].id));
            && AllBranchesOk(path, table, pushed)
            && BranchWeight(|path|, k, pushed) < BranchWeight(|path|, k, bs0) + Pow(|path| + 1, Rank(|path|, k, b0))
  {
    var n := |path|;
    var unit := Unit(n, k, b0);
    var sibling := Sibling(path, table, b, Dups(table, path[b.offset].id));
    SiblingLighter(path, table, k, b, Dups(table, path[b.offset].id), b0, bs);
    AllBranchesOkAppend(path, table, bs, sibling);
    TimesMonotone(1, n - b.offset - 1, unit);
    StackedLighter(path, table, k, b0, bs0, b, bs, BranchWeight(n, k, bs + sibling));
  }

  /** At the end of the walk the stack weighs less than the popped branch did. */
  lemma StackedLighter(path: seq<ONode>, table: Table, k: nat, b0: PathBranch, bs0: seq<PathBranch>,
                       b: PathBranch, bs: seq<PathBranch>, w: nat)
    requires Bounded(table, k) && Stacked(path, table, k, b0, bs0, b, bs)
    requires w <= BranchWeight(|path|, k, bs) + Times(|path| - b.offset - 1, Unit(|path|, k, b0))
    ensures w < BranchWeight(|path|, k, bs0) + Pow(|path| + 1, Rank(|path|, k, b0))
  {
    var n, o0 := |path|, b0.offset;
    RankPositive(n, k, o0);
    assert Rank(n, k, b0) >= 1 by {
      assert b0 == PathBranch(o0, b0.curr, b0.next);
    }
    var r, unit := Rank(n, k, b0), Unit(n, k, b0);
    assert unit == Pow(n + 1, r - 1);
    FewerThanBase(n - o0, n + 1, r - 1);
    TimesMonotone(n - o0 - 1, n - o0, unit);
    assert w <= BranchWeight(n, k, bs0) + Times(n - o0 - 1, unit);
    assert Times(n - o0, unit) < Pow(n + 1, r);
  }

  lemma ClearStep(path: seq<ONode>, table: Table, o0: nat, b: PathBranch, bs: seq<PathBranch>, currDuplicates: nat,
                  bs': seq<PathBranch>)
    requires ClearAfterForced(path, table, o0, b.offset, bs) && b.offset + 1 < |path|
    requires bs' == [] || bs' == bs + Sibling(path, table, b, currDuplicates)
    requires Forced(table, path[b.offset + 1].id) ==> bs' == []
    ensures ClearAfterForced(path, table, o0, b.offset, bs + Sibling(path, table, b, currDuplicates))
    ensures ClearAfterForced(path, table, o0, b.offset + 1, bs')
  {
    var sibling := Sibling(path, table, b, currDuplicates);
    var pushed := bs + sibling;
    forall i, j | o0 < i <= b.offset && i < |path| && Forced(table, path[i].id) && 0 <= j < |pushed|
      ensures i <= pushed[j].offset
    {
      if j < |bs| {
        assert pushed[j] == bs[j];
      } else {
        assert pushed[j] in sibling;
      }
    }
  }

  /** The loop state of verify_path's inner loop at cursor b with current node curr. */
  ghost predicate Extending(path: seq<ONode>, table: Table, edges: set<Edge>, k: nat, b0: PathBranch, bs0: seq<PathBranch>,
                            b: PathBranch, bs: seq<PathBranch>, walk: seq<ONode>, curr: ONode, currDuplicates: nat)
  {
    && Walked(path, table, edges, b0, b, walk)
    && Stacked(path, table, k, b0, bs0, b, bs)
    && ClearAfterForced(path, table, b0.offset, b.offset, bs)
    && (bs0 == [] && NoDuplicates(path, table) ==> bs == [])
    && curr == walk[|walk| - 1] && currDuplicates == Dups(table, path[b.offset].id)
  }

  /**
   * The state in which verify_path's inner loop stops at a missing edge
   * from cursor b to the candidate `next`, with the sibling pushed.
   */
  ghost predicate Blocked(path: seq<ONode>, table: Table, edges: set<Edge>, k: nat, b0: PathBranch, bs0: seq<PathBranch>,
                          b: PathBranch, bs: seq<PathBranch>, walk: seq<ONode>, next: ONode)
  {
    && Walked(path, table, edges, b0, b, walk) && b.offset + 1 < |path|
    && AllBranchesOk(path, table, bs)
    && BranchWeight(|path|, k, bs) < BranchWeight(|path|, k, bs0) + Pow(|path| + 1, Rank(|path|, k, b0))
    && ClearAfterForced(path, table, b0.offset, b.offset, bs)
    && (bs0 == [] && NoDuplicates(path, table) ==> bs == [])
    && IsCandidate(table, path[b.offset + 1], next)
    && MakeEdge(walk[|walk| - 1], next) !in edges
  }

  lemma StartExtending(path: seq<ONode>, table: Table, edges: set<Edge>, k: nat, b0: PathBranch, bs0: seq<PathBranch>,
                       curr: ONode, currDuplicates: nat)
    requires BranchOk(path, table, b0) && AllBranchesOk(path, table, bs0)
    requires curr == Choice(path, table, b0.offset, b0.curr) && currDuplicates == Dups(table, path[b0.offset].id)
    ensures Extending(path, table, edges, k, b0, bs0, b0, bs0, [curr], curr, currDuplicates)
  {
  }

  /**
   * The outcome of extending the popped branch b0 over stack bs0: a
   * verified walk from b0's offset that either reaches the end of the path
   * or is blocked by a missing edge to candidate `blocked`; the stack left
   * holds valid branches, weighs less than b0 did, resumes after every
   * forced node of the walk, and stays empty for a path without duplicates.
   */
  ghost predicate ExtendedTo(path: seq<ONode>, table: Table, edges: set<Edge>, k: nat, b0: PathBranch, bs0: seq<PathBranch>,
                             reached: bool, bs: seq<PathBranch>, walk: seq<ONode>, blocked: ONode)
  {
    && AllBranchesOk(path, table, bs)
    && BranchWeight(|path|, k, bs) < BranchWeight(|path|, k, bs0) + Pow(|path| + 1, Rank(|path|, k, b0))
    && VerifiedWalk(path, table, edges, b0.offset, walk) && CursorOk(path, table, b0)
    && walk[0] == Choice(path, table, b0.offset, b0.curr)
    && (reached <==> b0.offset + |walk| == |path|)
    && (!reached ==> && IsCandidate(table, path[b0.offset + |walk|], blocked)
                     && MakeEdge(walk[|walk| - 1], blocked) !in edges)
    && ClearAfterForced(path, table, b0.offset, b0.offset + |walk| - 1, bs)
    && (bs0 == [] && NoDuplicates(path, table) ==> bs == [])
  }

  /** A walk that reaches the last offset ends the search with a lighter stack. */
  lemma ReachedEnd(path: seq<ONode>, table: Table, edges: set<Edge>, k: nat, b0: PathBranch, bs0: seq<PathBranch>,
                   b: PathBranch, bs: seq<PathBranch>, walk: seq<ONode>, curr: ONode, currDuplicates: nat)
    requires Bounded(table, k) && b.offset + 1 >= |path|
    requires Extending(path, table, edges, k, b0, bs0, b, bs, walk, curr, currDuplicates)
    ensures ExtendedTo(path, table, edges, k, b0, bs0, true, bs, walk, curr)
  {
    StackedLighter(path, table, k, b0, bs0, b, bs, BranchWeight(|path|, k, bs));
  }

  /** A walk blocked by a missing edge ends the search for this branch with a lighter stack. */
  lemma BlockedEnd(path: seq<ONode>, table: Table, edges: set<Edge>, k: nat, b0: PathBranch, bs0: seq<PathBranch>,
                   b: PathBranch, bs: seq<PathBranch>, walk: seq<ONode>, next: ONode)
    requires Blocked(path, table, edges, k, b0, bs0, b, bs, walk, next)
    ensures ExtendedTo(path, table, edges, k, b0, bs0, false, bs, walk, next)
  {
  }

  /** Stepping along an edge that exists keeps the loop state. */
  lemma StepForward(path: seq<ONode>, table: Table, edges: set<Edge>, k: nat, b0: PathBranch, bs0: seq<PathBranch>,
                    b: PathBranch, bs: seq<PathBranch>, walk: seq<ONode>, curr: ONode, currDuplicates: nat,
                    next: ONode, nextDuplicates: nat, bs': seq<PathBranch>)
    requires NonEmptyLists(table) && Bounded(table, k) && b.offset + 1 < |path|
    requires Extending(path, table, edges, k, b0, bs0, b, bs, walk, curr, currDuplicates)
    requires next == Choice(path, table, b.offset + 1, b.next) && nextDuplicates == Dups(table, path[b.offset + 1].id)
    requires MakeEdge(curr, next) in edges
    requires bs' == if nextDuplicates <= 1 then [] else bs + Sibling(path, table, b, currDuplicates)
    ensures Extending(path, table, edges, k, b0, bs0, Advance(b), bs', walk + [next], next, nextDuplicates)
  {
    ClearStep(path, table, b0.offset, b, bs, currDuplicates, bs');
    WalkedStep(path, table, edges, b0, b, walk, next);
    StackedStep(path, table, k, b0, bs0, b, bs, bs');
    if bs0 == [] && NoDuplicates(path, table) {
      assert path[b.offset].id !in table;
      assert bs + Sibling(path, table, b, currDuplicates) == [] + [];
    }
  }

  /** Stopping at a missing edge leaves the stack with the sibling pushed. */
  lemma StepBlocked(path: seq<ONode>, table: Table, edges: set<Edge>, k: nat, b0: PathBranch, bs0: seq<PathBranch>,
                    b: PathBranch, bs: seq<PathBranch>, walk: seq<ONode>, curr: ONode, currDuplicates: nat, next: ONode)
    requires NonEmptyLists(table) && Bounded(table, k) && b.offset + 1 < |path|
    requires Extending(path, table, edges, k, b0, bs0, b, bs, walk, curr, currDuplicates)
    requires next == Choice(path, table, b.offset + 1, b.next) && MakeEdge(curr, next) !in edges
    ensures Blocked(path, table, edges, k, b0, bs0, b, bs + Sibling(path, table, b, currDuplicates), walk, next)
  {
    ClearStep(path, table, b0.offset, b, bs, currDuplicates, []);
    StackedBlocked(path, table, k, b0, bs0, b, bs);
    if bs0 == [] && NoDuplicates(path, table) {
      assert path[b.offset].id !in table;
      assert bs + Sibling(path, table, b, currDuplicates) == [] + [];
    }
  }

  /**
   * One iteration of the inner loop of verify_path: resolves the choice at
   * the next offset, pushes the sibling branch, and either stops at a
   * missing edge or steps to the next offset, dropping every pending branch
   * when the next node has at most one candidate.
   */
  method ExtendStep(path: seq<ONode>, unfolded: Graph, table: Table, branch: PathBranch, branches: seq<PathBranch>,
                    curr: ONode, currDuplicates: nat, ghost k: nat, ghost b0: PathBranch, ghost bs0: seq<PathBranch>,
                    ghost walk: seq<ONode>)
    returns (stepped: bool, branch': PathBranch, branches': seq<PathBranch>, curr': ONode, currDuplicates': nat,
             ghost walk': seq<ONode>)
    requires NonEmptyLists(table) && Bounded(table, k) && branch.offset + 1 < |path|
    requires Extending(path, table, unfolded.edges, k, b0, bs0, branch, branches, walk, curr, currDuplicates)
    ensures stepped ==> && branch' == Advance(branch) && walk' == walk + [curr']
                        && Extending(path, table, unfolded.edges, k, b0, bs0, branch', branches', walk', curr', currDuplicates')
    ensures !stepped ==> && branch' == branch && walk' == walk
                         && Blocked(path, table, unfolded.edges, k, b0, bs0, branch, branches', walk, curr')
  {
    currDuplicates' := 0;
    var nodeId := path[branch.offset + 1].id;
    if nodeId in table {
      var duplicates := table[nodeId];
      currDuplicates' := |duplicates|;
      nodeId := duplicates[branch.next];
    }
    curr' := ONode(nodeId, path[branch.offset + 1].isReverse);
    assert curr' == Choice(path, table, branch.offset + 1, branch.next);
    assert currDuplicates' == Dups(table, path[branch.offset + 1].id);
    branches' := branches + Sibling(path, table, branch, currDuplicates);
    if !unfolded.HasEdge(MakeEdge(curr, curr')) {
      StepBlocked(path, table, unfolded.edges, k, b0, bs0, branch, branches, walk, curr, currDuplicates, curr');
      return false, branch, branches', curr', currDuplicates', walk;
    }
    if currDuplicates' <= 1 {  // Every walk goes through the next node.
      branches' := [];
    }
    StepForward(path, table, unfolded.edges, k, b0, bs0, branch, branches, walk, curr, currDuplicates,
                curr', currDuplicates', branches');
    stepped, branch', walk' := true, Advance(branch), walk + [curr'];
  }

  /**
   * The inner loop of verify_path for one popped branch: resolves the
   * branch's choices, then walks forward while the edges exist.
   */
  method ExtendBranch(path: seq<ONode>, unfolded: Graph, table: Table, branch0: PathBranch,
                      branches0: seq<PathBranch>, ghost k: nat)
    returns (reached: bool, branches: seq<PathBranch>, ghost walk: seq<ONode>, ghost blocked: ONode)
    requires NonEmptyLists(table) && Bounded(table, k)
    requires BranchOk(path, table, branch0) && AllBranchesOk(path, table, branches0)
    ensures ExtendedTo(path, table, unfolded.edges, k, branch0, branches0, reached, branches, walk, blocked)
  {
    var n := |path|;
    ghost var edges := unfolded.edges;
    branches := branches0;
    var branch := branch0;
    var currDuplicates: nat := 0;
    var nodeId := path[branch.offset].id;
    if nodeId in table {
      var duplicates := table[nodeId];
      currDuplicates := |duplicates|;
      nodeId := duplicates[branch.curr];
    }
    var curr := ONode(nodeId, path[branch.offset].isReverse);
    walk := [curr];
    blocked := curr;
    StartExtending(path, table, edges, k, branch0, branches0, curr, currDuplicates);
    while branch.offset + 1 < n
      invariant branch.offset < n
      invariant Extending(path, table, edges, k, branch0, branches0, branch, branches, walk, curr, currDuplicates)
      decreases n - branch.offset
    {
      var stepped;
      stepped, branch, branches, curr, currDuplicates, walk := ExtendStep(path, unfolded, table, branch, branches,
                                                                          curr, currDuplicates, k, branch0, branches0, walk);
      if !stepped {
        BlockedEnd(path, table, edges, k, branch0, branches0, branch, branches, walk, curr);
        return false, branches, walk, curr;
      }
    }
    ReachedEnd(path, table, edges, k, branch0, branches0, branch, branches, walk, curr, currDuplicates);
    reached := true;
  }

  /**
   * verify_path: true when some branch walks from its offset to the end of
   * the path through candidates joined by edges of the unfolded graph.
   */
  method VerifyPath(path: seq<ONode>, unfolded: Graph, table: Table)
    returns (ok: bool, ghost start: nat, ghost walk: seq<ONode>)
    requires NonEmptyLists(table)
    ensures |path| < 2 ==> ok
    ensures ok && |path| >= 2 ==> start + |walk| == |path| && VerifiedWalk(path, table, unfolded.edges, start, walk)
    ensures NoDuplicates(path, table) ==> (ok <==> AllEdgesPresent(path, unfolded.edges))
  {
    start, walk := 0, [];
    if |path| < 2 {
      return true, start, walk;
    }
    ghost var k := ListBound(table);
    var branches := [PathBranch(0, 0, 0)];
    ghost var first := true;
    while branches != []
      invariant AllBranchesOk(path, table, branches)
      invariant NoDuplicates(path, table) && first ==> branches == [PathBranch(0, 0, 0)]
      invariant NoDuplicates(path, table) && !first ==> branches == [] && !AllEdgesPresent(path, unfolded.edges)
      decreases BranchWeight(|path|, k, branches)
    {
      var branch := branches[|branches| - 1];
      branches := branches[..|branches| - 1];
      var reached;
      ghost var blocked;
      reached, branches, walk, blocked := ExtendBranch(path, unfolded, table, branch, branches, k);
      if reached {
        if NoDuplicates(path, table) {
          NoDuplicatesWalk(path, table, unfolded.edges, walk);
        }
        return true, branch.offset, walk;
      }
      if NoDuplicates(path, table) {
        NoDuplicatesBlocked(path, table, unfolded.edges, walk, blocked);
      }
      first := false;
    }
    return false, start, walk;
  }

  // ---------------------------------------------------------------------------
  // The reverse mapping of verify_paths.

  /** The entries of `r` strictly increase: sorted and free of repeats. */
  predicate Increasing(r: seq<nat>)
  {
    forall i, j :: 0 <= i < j < |r| ==> r[i] < r[j]
  }

  /** Inserts x into an increasing sequence unless it is there already. */
  function InsertSorted(x: nat, r: seq<nat>): (r': seq<nat>)
    requires Increasing(r)
    ensures Increasing(r') && forall y :: y in r' <==> y == x || y in r
  {
    if r == [] then [x]
    else if x < r[0] then [x] + r
    else if x == r[0] then r
    else
      var tail := InsertSorted(x, r[1..]);
      assert forall y :: y in r[1..] ==> r[0] < y;
      IncreasingCons(r[0], tail);
      [r[0]] + tail
  }

  lemma IncreasingCons(a: nat, t: seq<nat>)
    requires Increasing(t) && forall y :: y in t ==> a < y
    ensures Increasing([a] + t)
  {
    var r := [a] + t;
    forall i, j | 0 <= i < j < |r|
      ensures r[i] < r[j]
    {
      assert r[j] == t[j - 1] && t[j - 1] in t;
      if i > 0 {
        assert r[i] == t[i - 1];
      }
    }
  }

  /**
   * gcsa::removeDuplicates (sort, then drop repeats), as its result: the
   * same elements in increasing order.
   */
  function RemoveDuplicates(s: seq<nat>): (r: seq<nat>)
    ensures Increasing(r) && forall y :: y in r <==> y in s
  {
    if s == [] then []
    else
      var rest := RemoveDuplicates(s[..|s| - 1]);
      assert forall y :: y in s <==> y in s[..|s| - 1] || y == s[|s| - 1] by {
        assert s == s[..|s| - 1] + [s[|s| - 1]];
      }
      InsertSorted(s[|s| - 1], rest)
  }

  /** x is a duplicate allocated for the original `id` in the registry (first, originals). */
  predicate IsDuplicate(first: nat, originals: seq<nat>, x: nat, id: nat)
  {
    first <= x < first + |originals| && originals[x - first] == id
  }

  /**
   * `table` lists, for each original id that has duplicates, exactly those
   * duplicates and the original itself when the unfolded graph still
   * contains it.
   */
  ghost predicate ReverseOf(table: Table, first: nat, originals: seq<nat>, nodes: set<nat>)
  {
    && (forall id :: id in table <==> id in originals)
    && (forall id, x :: id in table ==> (x in table[id] <==> IsDuplicate(first, originals, x, id) || (x == id && id in nodes)))
  }

  lemma ReverseOfNonEmpty(table: Table, first: nat, originals: seq<nat>, nodes: set<nat>)
    requires ReverseOf(table, first, originals, nodes)
    ensures NonEmptyLists(table)
  {
    forall id | id in table
      ensures table[id] != []
    {
      var i :| 0 <= i < |originals| && originals[i] == id;
      assert IsDuplicate(first, originals, first + i, id);
    }
  }

  /**
   * Builds reverse_mapping: one pass over the duplicate range appends each
   * duplicate, and the original if the unfolded graph has it, to its
   * original's list; a second pass sorts each list and drops repeats.
   */
  method ReverseMapping(mapping: NodeMapping, unfolded: Graph) returns (table: Table)
    requires mapping.Valid()
    ensures ReverseOf(table, mapping.firstNode, mapping.originals, unfolded.nodes)
    ensures forall id :: id in table ==> Increasing(table[id])
    ensures NonEmptyLists(table)
  {
    ghost var first, originals, nodes := mapping.firstNode, mapping.originals, unfolded.nodes;
    table := map[];
    var duplicate := mapping.firstNode;
    while duplicate < mapping.nextNode
      invariant first <= duplicate <= mapping.nextNode
      invariant ReverseOf(table, first, originals[..duplicate - first], nodes)
    {
      var original := mapping.Resolve(duplicate);
      assert original == originals[duplicate - first];
      var list := if original in table then table[original] else [];
      list := list + [duplicate];
      if unfolded.HasNode(original) {
        list := list + [original];
      }
      ghost var before := originals[..duplicate - first];
      ghost var after := originals[..duplicate + 1 - first];
      assert after == before + [original];
      forall id: nat, x: nat | IsDuplicate(first, after, x, id)
        ensures IsDuplicate(first, before, x, id) || (x == duplicate && id == original)
      {
      }
      forall id: nat, x: nat | IsDuplicate(first, before, x, id)
        ensures IsDuplicate(first, after, x, id)
      {
        assert after[x - first] == before[x - first];
      }
      assert IsDuplicate(first, after, duplicate, original);
      table := table[original := list];
      duplicate := duplicate + 1;
    }
    assert originals[..duplicate - first] == originals;
    ghost var built := table;
    var pending := table.Keys;
    while pending != {}
      invariant pending <= table.Keys && table.Keys == built.Keys
      invariant forall id :: id in pending ==> table[id] == built[id]
      invariant forall id :: id in table && id !in pending ==> Increasing(table[id])
      invariant forall id, x :: id in table && id !in pending ==> (x in table[id] <==> x in built[id])
      decreases pending
    {
      var id :| id in pending;
      table := table[id := RemoveDuplicates(table[id])];
      pending := pending - {id};
    }
    assert forall id, x :: id in table ==> (x in table[id] <==> x in built[id]);
    ReverseOfNonEmpty(table, first, originals, nodes);
  }

  // ---------------------------------------------------------------------------
  // verify_paths.

  /** The number of paths whose check failed. */
  function Failures(results: seq<bool>): nat
  {
    if results == [] then 0
    else Failures(results[..|results| - 1]) + (if results[|results| - 1] then 0 else 1)
  }

  /** No failures exactly when every path checked out, and never more failures than paths. */
  lemma {:induction false} FailuresZero(results: seq<bool>)
    ensures Failures(results) == 0 <==> forall i :: 0 <= i < |results| ==> results[i]
    ensures Failures(results) <= |results|
  {
    if results != [] {
      var init := results[..|results| - 1];
      FailuresZero(init);
      if Failures(results) == 0 {
        forall i | 0 <= i < |results|
          ensures results[i]
        {
          if i < |init| {
            assert results[i] == init[i];
          }
        }
      }
      if forall i :: 0 <= i < |results| ==> results[i] {
        forall i | 0 <= i < |init|
          ensures init[i]
        {
          assert init[i] == results[i];
        }
      }
    }
  }

  /** The loop of verify_paths: checks every path in turn and counts the failures. */
  method VerifyAll(paths: seq<seq<ONode>>, unfolded: Graph, table: Table) returns (failures: nat, ghost results: seq<bool>)
    requires NonEmptyLists(table)
    ensures |results| == |paths| && failures == Failures(results)
    ensures forall i :: 0 <= i < |paths| && |paths[i]| < 2 ==> results[i]
    ensures forall i :: 0 <= i < |paths| && NoDuplicates(paths[i], table)
                        ==> (results[i] <==> AllEdgesPresent(paths[i], unfolded.edges))
    ensures forall i :: 0 <= i < |paths| && results[i] && |paths[i]| >= 2
                        ==> Spelled(paths[i], table, unfolded.edges)
  {
    failures, results := 0, [];
    var i := 0;
    while i < |paths|
      invariant i == |results| <= |paths| && failures == Failures(results)
      invariant forall j :: 0 <= j < i && |paths[j]| < 2 ==> results[j]
      invariant forall j :: 0 <= j < i && NoDuplicates(paths[j], table)
                            ==> (results[j] <==> AllEdgesPresent(paths[j], unfolded.edges))
      invariant forall j :: 0 <= j < i && results[j] && |paths[j]| >= 2
                            ==> Spelled(paths[j], table, unfolded.edges)
    {
      var ok, start, walk := VerifyPath(paths[i], unfolded, table);
      if !ok {
        failures := failures + 1;
      }
      assert (results + [ok])[..i] == results;
      results := results + [ok];
      i := i + 1;
    }
  }
}
