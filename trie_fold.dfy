/**
 * The trie folder as pure functions: what one call of insert_path does to the
 * prefix trie, the suffix trie, the crossing-edge set and the duplicate
 * registry, and the properties of that effect.
 *
 * A canonical path p of n >= 2 nodes is split at h = (n + 1) / 2. Positions
 * 1 .. h-1 are walked forward from p[0] through the prefix trie, positions
 * n-2 down to h backward from p[n-1] through the suffix trie, and the two
 * chain ends are joined by one crossing edge.
 */
module TrieFold {
  import opened Oriented
  import opened Registry
  import opened Graphs

  type Key = (ONode, ONode)

  /** The folder's state: the two tries, the crossing edges and the originals of the registry. */
  datatype FoldState = FoldState(
    prefixes: map<Key, ONode>,
    suffixes: map<Key, ONode>,
    crossing: set<Key>,
    originals: seq<nat>)

  /** `dup` is a copy of `v`: it resolves to the id of `v` and keeps its strand. */
  predicate StandsFor(first: nat, originals: seq<nat>, dup: ONode, v: ONode)
  {
    Lookup(first, originals, dup.id) == v.id && dup.isReverse == v.isReverse
  }

  ghost predicate Submap(a: map<Key, ONode>, b: map<Key, ONode>)
  {
    forall k :: k in a ==> k in b && b[k] == a[k]
  }

  /** The split point: the prefix trie handles positions 1 .. Half(n) - 1. */
  function Half(n: nat): nat
  {
    (n + 1) / 2
  }

  /**
   * Every internal position of a path of n >= 2 nodes is handled by exactly
   * one trie, the two endpoints by neither, and for odd n the middle node goes
   * to the prefix trie.
   */
  lemma SplitBoundary(n: nat, i: nat)
    requires n >= 2
    ensures 1 <= Half(n) <= n - 1
    ensures 1 <= i <= n - 2 ==> ((1 <= i < Half(n)) != (Half(n) <= i <= n - 2))
    ensures n % 2 == 1 ==> 1 <= (n - 1) / 2 < Half(n) || n == 1
    ensures (Half(n) - 1) + (n - 1 - Half(n)) == n - 2
  {
  }

  datatype Interned = Interned(trie: map<Key, ONode>, originals: seq<nat>, dup: ONode)

  /**
   * One trie lookup for `key`: a hit returns the stored duplicate and allocates
   * nothing; a miss allocates the next id of the registry for `node`, keeping
   * its strand, and stores it under `key`.
   */
  function Intern(first: nat, trie: map<Key, ONode>, originals: seq<nat>, key: Key, node: ONode): (r: Interned)
    ensures key in r.trie && r.trie[key] == r.dup
    ensures key in trie ==> r.originals == originals && r.trie == trie
    ensures key !in trie ==> r.originals == originals + [node.id] && r.dup.id == first + |originals|
    ensures key !in trie ==> StandsFor(first, r.originals, r.dup, node)
  {
    if key in trie then Interned(trie, originals, trie[key])
    else
      var dup := ONode(first + |originals|, node.isReverse);
      LookupAfterAllocation(first, originals, node.id, dup.id);
      Interned(trie[key := dup], originals + [node.id], dup)
  }

  datatype Chain = Chain(trie: map<Key, ONode>, originals: seq<nat>, end: ONode)

  /** The forward walk through the prefix trie over positions i .. stop-1. */
  function PrefixFold(first: nat, trie: map<Key, ONode>, originals: seq<nat>, from: ONode,
                      p: seq<ONode>, i: nat, stop: nat): Chain
    requires stop <= |p|
    decreases stop - i
  {
    if i >= stop then Chain(trie, originals, from)
    else
      var r := Intern(first, trie, originals, (from, p[i]), p[i]);
      PrefixFold(first, r.trie, r.originals, r.dup, p, i + 1, stop)
  }

  /** The backward walk through the suffix trie over positions i down to stop. */
  function SuffixFold(first: nat, trie: map<Key, ONode>, originals: seq<nat>, to: ONode,
                      p: seq<ONode>, i: nat, stop: nat): Chain
    requires i < |p| && 1 <= stop <= i + 1
    decreases i
  {
    if i < stop then Chain(trie, originals, to)
    else
      var r := Intern(first, trie, originals, (p[i], to), p[i]);
      SuffixFold(first, r.trie, r.originals, r.dup, p, i - 1, stop)
  }

  /** Inserting a path of at least two nodes that is already in canonical orientation. */
  function FoldOriented(first: nat, s: FoldState, p: seq<ONode>): FoldState
    requires |p| >= 2
  {
    var n := |p|;
    var h := Half(n);
    var front := PrefixFold(first, s.prefixes, s.originals, p[0], p, 1, h);
    var back := SuffixFold(first, s.suffixes, front.originals, p[n - 1], p, n - 2, h);
    FoldState(front.trie, back.trie, s.crossing + {(front.end, back.end)}, back.originals)
  }

  /** FoldOriented, field by field. */
  lemma FoldOrientedParts(first: nat, s: FoldState, p: seq<ONode>)
    requires |p| >= 2
    ensures var n, h := |p|, Half(|p|);
            var front := PrefixFold(first, s.prefixes, s.originals, p[0], p, 1, h);
            var back := SuffixFold(first, s.suffixes, front.originals, p[n - 1], p, n - 2, h);
            FoldOriented(first, s, p) == FoldState(front.trie, back.trie, s.crossing + {(front.end, back.end)}, back.originals)
  {
  }

  /** The effect of insert_path(path) on the folder's state. */
  function Fold(first: nat, s: FoldState, path: seq<ONode>): FoldState
  {
    if |path| < 2 then s else FoldOriented(first, s, Canonical(path))
  }

  /** The effect of inserting the paths one after another. */
  function FoldAll(first: nat, s: FoldState, paths: seq<seq<ONode>>): FoldState
    decreases |paths|
  {
    if paths == [] then s
    else Fold(first, FoldAll(first, s, paths[..|paths| - 1]), paths[|paths| - 1])
  }

  /** Inserting one more path. */
  lemma FoldAllSnoc(first: nat, s: FoldState, paths: seq<seq<ONode>>, q: seq<ONode>)
    ensures FoldAll(first, s, paths + [q]) == Fold(first, FoldAll(first, s, paths), q)
  {
    assert (paths + [q])[..|paths|] == paths;
  }

  /** Inserting two batches of paths, one after the other. */
  lemma {:induction false} FoldAllAppend(first: nat, s: FoldState, a: seq<seq<ONode>>, b: seq<seq<ONode>>)
    ensures FoldAll(first, s, a + b) == FoldAll(first, FoldAll(first, s, a), b)
    decreases |b|
  {
    if b != [] {
      var init, last := b[..|b| - 1], b[|b| - 1];
      FoldAllAppend(first, s, a, init);
      assert a + b == (a + init) + [last];
      FoldAllSnoc(first, s, a + init, last);
      FoldAllSnoc(first, FoldAll(first, s, a), init, last);
      assert init + [last] == b;
    } else {
      assert a + b == a;
    }
  }

  /** A path with fewer than two nodes changes nothing. */
  lemma FoldShortPath(first: nat, s: FoldState, path: seq<ONode>)
    requires |path| < 2
    ensures Fold(first, s, path) == s
  {
  }

  /** Folding a path and folding its reverse complement have the same effect. */
  lemma FoldMirror(first: nat, s: FoldState, path: seq<ONode>)
    ensures Fold(first, s, ReverseComplement(path)) == Fold(first, s, path)
  {
    CanonicalOfReverseComplement(path);
  }

  // ---------------------------------------------------------------------------
  // How many duplicates a fold allocates, and for which positions.

  function Ids(q: seq<ONode>): (r: seq<nat>)
    ensures |r| == |q|
    ensures forall j :: 0 <= j < |q| ==> r[j] == q[j].id
  {
    if q == [] then [] else [q[0].id] + Ids(q[1..])
  }

  /** The ids of p[i], p[i-1], ..., p[stop]. */
  function IdsDown(p: seq<ONode>, i: nat, stop: nat): (r: seq<nat>)
    requires i < |p| && 1 <= stop <= i + 1
    ensures |r| == i + 1 - stop
    decreases i
  {
    if i < stop then [] else [p[i].id] + IdsDown(p, i - 1, stop)
  }

  lemma IdsStep(p: seq<ONode>, i: nat, stop: nat)
    requires i < stop <= |p|
    ensures Ids(p[i..stop]) == [p[i].id] + Ids(p[i + 1..stop])
  {
    assert p[i..stop][1..] == p[i + 1..stop];
  }

  lemma AppendAssociative(a: seq<nat>, b: seq<nat>, c: seq<nat>)
    ensures (a + b) + c == a + (b + c)
  {
  }

  /** One step of each walk, stated once so that callers need not unfold the definitions. */
  lemma PrefixFoldUnfold(first: nat, trie: map<Key, ONode>, originals: seq<nat>,
                         from: ONode, p: seq<ONode>, i: nat, stop: nat)
    requires i < stop <= |p|
    ensures var r := Intern(first, trie, originals, (from, p[i]), p[i]);
            PrefixFold(first, trie, originals, from, p, i, stop)
              == PrefixFold(first, r.trie, r.originals, r.dup, p, i + 1, stop)
  {
  }

  lemma SuffixFoldUnfold(first: nat, trie: map<Key, ONode>, originals: seq<nat>,
                         to: ONode, p: seq<ONode>, i: nat, stop: nat)
    requires i < |p| && 1 <= stop <= i
    ensures var r := Intern(first, trie, originals, (p[i], to), p[i]);
            SuffixFold(first, trie, originals, to, p, i, stop)
              == SuffixFold(first, r.trie, r.originals, r.dup, p, i - 1, stop)
  {
  }

  /**
   * While every key of the trie starts below the current chain end, every
   * lookup misses: the walk allocates one duplicate per position.
   */
  lemma {:induction false} PrefixFoldAllMiss(first: nat, trie: map<Key, ONode>, originals: seq<nat>,
                                             from: ONode, p: seq<ONode>, i: nat, stop: nat)
    requires i <= stop <= |p|
    requires forall k :: k in trie ==> k.0.id < from.id
    requires from.id < first + |originals|
    ensures PrefixFold(first, trie, originals, from, p, i, stop).originals == originals + Ids(p[i..stop])
    decreases stop - i
  {
    if i < stop {
      var key := (from, p[i]);
      var dup := ONode(first + |originals|, p[i].isReverse);
      var trie', originals' := trie[key := dup], originals + [p[i].id];
      assert key !in trie;
      assert Intern(first, trie, originals, key, p[i]) == Interned(trie', originals', dup);
      PrefixFoldUnfold(first, trie, originals, from, p, i, stop);
      assert forall k :: k in trie' ==> k.0.id < dup.id;
      PrefixFoldAllMiss(first, trie', originals', dup, p, i + 1, stop);
      IdsStep(p, i, stop);
      AppendAssociative(originals, [p[i].id], Ids(p[i + 1..stop]));
    }
  }

  lemma {:induction false} SuffixFoldAllMiss(first: nat, trie: map<Key, ONode>, originals: seq<nat>,
                                             to: ONode, p: seq<ONode>, i: nat, stop: nat)
    requires i < |p| && 1 <= stop <= i + 1
    requires forall k :: k in trie ==> k.1.id < to.id
    requires to.id < first + |originals|
    ensures SuffixFold(first, trie, originals, to, p, i, stop).originals == originals + IdsDown(p, i, stop)
    decreases i
  {
    if i >= stop {
      var key := (p[i], to);
      var dup := ONode(first + |originals|, p[i].isReverse);
      var trie', originals' := trie[key := dup], originals + [p[i].id];
      assert key !in trie;
      assert Intern(first, trie, originals, key, p[i]) == Interned(trie', originals', dup);
      SuffixFoldUnfold(first, trie, originals, to, p, i, stop);
      assert forall k :: k in trie' ==> k.1.id < dup.id;
      SuffixFoldAllMiss(first, trie', originals', dup, p, i - 1, stop);
      assert IdsDown(p, i, stop) == [p[i].id] + IdsDown(p, i - 1, stop);
      AppendAssociative(originals, [p[i].id], IdsDown(p, i - 1, stop));
    }
  }

  /**
   * The first path folded into empty tries allocates exactly one duplicate per
   * internal position: first those of positions 1 .. h-1 in order, then those
   * of positions n-2 down to h. The two endpoints are never duplicated.
   */
  lemma FoldIntoEmptyTries(first: nat, s: FoldState, path: seq<ONode>)
    requires |path| >= 2 && s.prefixes == map[] && s.suffixes == map[]
    requires forall i :: 0 <= i < |path| ==> path[i].id < first
    ensures var p := Canonical(path);
            Fold(first, s, path).originals
              == s.originals + Ids(p[1..Half(|p|)]) + IdsDown(p, |p| - 2, Half(|p|))
    ensures |Fold(first, s, path).originals| == |s.originals| + |path| - 2
  {
    var p := Canonical(path);
    var n := |p|;
    var h := Half(n);
    CanonicalIds(path, first);
    PrefixFoldAllMiss(first, s.prefixes, s.originals, p[0], p, 1, h);
    var front := PrefixFold(first, s.prefixes, s.originals, p[0], p, 1, h);
    SuffixFoldAllMiss(first, s.suffixes, front.originals, p[n - 1], p, n - 2, h);
  }

  // ---------------------------------------------------------------------------
  // The trie invariant: what the entries mean (the header's comment on the tries).

  /**
   * prefixes[(from, to)] is a duplicate of `to`, suffixes[(from, to)] is a
   * duplicate of `from`, and every stored value is an allocated duplicate id.
   */
  ghost predicate TriesMeaning(first: nat, pre: map<Key, ONode>, suf: map<Key, ONode>, originals: seq<nat>)
  {
    forall k ::
      && (k in pre ==> first <= pre[k].id < first + |originals| && StandsFor(first, originals, pre[k], k.1))
      && (k in suf ==> first <= suf[k].id < first + |originals| && StandsFor(first, originals, suf[k], k.0))
  }

  /** No duplicate id is stored twice: each duplicate stands for one context only. */
  ghost predicate TriesDistinct(pre: map<Key, ONode>, suf: map<Key, ONode>)
  {
    && (forall k, k' {:trigger DupId(pre, k), DupId(pre, k')} ::
          k in pre && k' in pre && DupId(pre, k) == DupId(pre, k') ==> k == k')
    && (forall k, k' {:trigger DupId(suf, k), DupId(suf, k')} ::
          k in suf && k' in suf && DupId(suf, k) == DupId(suf, k') ==> k == k')
    && (forall k, k' {:trigger DupId(pre, k), DupId(suf, k')} ::
          k in pre && k' in suf ==> DupId(pre, k) != DupId(suf, k'))
  }

  /** The duplicate id stored under `k`. */
  ghost function DupId(t: map<Key, ONode>, k: Key): nat
  {
    if k in t then t[k].id else 0
  }

  ghost predicate TriesOk(first: nat, pre: map<Key, ONode>, suf: map<Key, ONode>, originals: seq<nat>)
  {
    TriesMeaning(first, pre, suf, originals) && TriesDistinct(pre, suf)
  }

  ghost predicate TrieInv(first: nat, s: FoldState)
  {
    TriesOk(first, s.prefixes, s.suffixes, s.originals)
  }

  lemma EmptyTriesInv(first: nat, originals: seq<nat>, crossing: set<Key>)
    ensures TrieInv(first, FoldState(map[], map[], crossing, originals))
  {
  }

  /** Appending to the registry does not change what the allocated ids resolve to. */
  lemma StandsForAfterAllocation(first: nat, originals: seq<nat>, more: seq<nat>, dup: ONode, v: ONode)
    requires first <= dup.id < first + |originals|
    requires StandsFor(first, originals, dup, v)
    ensures StandsFor(first, originals + more, dup, v)
  {
  }

  /** Allocating one id keeps the meaning of every stored entry. */
  lemma AllocationKeepsTries(first: nat, pre: map<Key, ONode>, suf: map<Key, ONode>, originals: seq<nat>, x: nat)
    requires TriesMeaning(first, pre, suf, originals)
    ensures TriesMeaning(first, pre, suf, originals + [x])
  {
    forall k | k in pre
      ensures StandsFor(first, originals + [x], pre[k], k.1)
    {
      StandsForAfterAllocation(first, originals, [x], pre[k], k.1);
    }
    forall k | k in suf
      ensures StandsFor(first, originals + [x], suf[k], k.0)
    {
      StandsForAfterAllocation(first, originals, [x], suf[k], k.0);
    }
  }

  /** A fresh id, above every stored one, keeps the stored ids distinct. */
  lemma FreshKeepsDistinct(first: nat, pre: map<Key, ONode>, suf: map<Key, ONode>, originals: seq<nat>,
                           key: Key, dup: ONode, intoPrefixes: bool)
    requires TriesMeaning(first, pre, suf, originals) && TriesDistinct(pre, suf)
    requires dup.id == first + |originals|
    requires intoPrefixes ==> key !in pre
    requires !intoPrefixes ==> key !in suf
    ensures intoPrefixes ==> TriesDistinct(pre[key := dup], suf)
    ensures !intoPrefixes ==> TriesDistinct(pre, suf[key := dup])
  {
    var t := if intoPrefixes then pre else suf;
    var t' := t[key := dup];
    forall k | k in t'
      ensures DupId(t', k) == if k == key then dup.id else DupId(t, k)
      ensures k != key ==> k in t && DupId(t, k) < dup.id
    {
    }
  }

  lemma InternPrefixInv(first: nat, pre: map<Key, ONode>, suf: map<Key, ONode>, originals: seq<nat>, key: Key)
    requires TriesOk(first, pre, suf, originals)
    ensures var r := Intern(first, pre, originals, key, key.1);
            TriesOk(first, r.trie, suf, r.originals)
  {
    if key !in pre {
      var dup := ONode(first + |originals|, key.1.isReverse);
      AllocationKeepsTries(first, pre, suf, originals, key.1.id);
      FreshKeepsDistinct(first, pre, suf, originals, key, dup, true);
      LookupAfterAllocation(first, originals, key.1.id, dup.id);
    }
  }

  lemma InternSuffixInv(first: nat, pre: map<Key, ONode>, suf: map<Key, ONode>, originals: seq<nat>, key: Key)
    requires TriesOk(first, pre, suf, originals)
    ensures var r := Intern(first, suf, originals, key, key.0);
            TriesOk(first, pre, r.trie, r.originals)
  {
    if key !in suf {
      var dup := ONode(first + |originals|, key.0.isReverse);
      AllocationKeepsTries(first, pre, suf, originals, key.0.id);
      FreshKeepsDistinct(first, pre, suf, originals, key, dup, false);
      LookupAfterAllocation(first, originals, key.0.id, dup.id);
    }
  }

  lemma {:induction false} PrefixFoldInv(first: nat, pre: map<Key, ONode>, suf: map<Key, ONode>, originals: seq<nat>,
                                         from: ONode, p: seq<ONode>, i: nat, stop: nat)
    requires stop <= |p|
    requires TriesOk(first, pre, suf, originals)
    ensures var c := PrefixFold(first, pre, originals, from, p, i, stop);
            TriesOk(first, c.trie, suf, c.originals)
    decreases stop - i
  {
    if i < stop {
      var r := Intern(first, pre, originals, (from, p[i]), p[i]);
      InternPrefixInv(first, pre, suf, originals, (from, p[i]));
      PrefixFoldUnfold(first, pre, originals, from, p, i, stop);
      PrefixFoldInv(first, r.trie, suf, r.originals, r.dup, p, i + 1, stop);
    }
  }

  lemma {:induction false} SuffixFoldInv(first: nat, pre: map<Key, ONode>, suf: map<Key, ONode>, originals: seq<nat>,
                                         to: ONode, p: seq<ONode>, i: nat, stop: nat)
    requires i < |p| && 1 <= stop <= i + 1
    requires TriesOk(first, pre, suf, originals)
    ensures var c := SuffixFold(first, suf, originals, to, p, i, stop);
            TriesOk(first, pre, c.trie, c.originals)
    decreases i
  {
    if i >= stop {
      var r := Intern(first, suf, originals, (p[i], to), p[i]);
      InternSuffixInv(first, pre, suf, originals, (p[i], to));
      SuffixFoldUnfold(first, suf, originals, to, p, i, stop);
      SuffixFoldInv(first, pre, r.trie, r.originals, r.dup, p, i - 1, stop);
    }
  }

  /** insert_path keeps the meaning of the trie entries and the uniqueness of duplicates. */
  lemma FoldOrientedInv(first: nat, s: FoldState, p: seq<ONode>)
    requires |p| >= 2
    requires TrieInv(first, s)
    ensures TrieInv(first, FoldOriented(first, s, p))
  {
    var n := |p|;
    var h := Half(n);
    var front := PrefixFold(first, s.prefixes, s.originals, p[0], p, 1, h);
    var back := SuffixFold(first, s.suffixes, front.originals, p[n - 1], p, n - 2, h);
    PrefixFoldInv(first, s.prefixes, s.suffixes, s.originals, p[0], p, 1, h);
    SuffixFoldInv(first, front.trie, s.suffixes, front.originals, p[n - 1], p, n - 2, h);
    assert FoldOriented(first, s, p) == FoldState(front.trie, back.trie, s.crossing + {(front.end, back.end)}, back.originals);
  }

  lemma FoldInv(first: nat, s: FoldState, path: seq<ONode>)
    requires TrieInv(first, s)
    ensures TrieInv(first, Fold(first, s, path))
  {
    if |path| >= 2 {
      FoldOrientedInv(first, s, Canonical(path));
    }
  }

  lemma {:induction false} FoldAllInv(first: nat, s: FoldState, paths: seq<seq<ONode>>)
    requires TrieInv(first, s)
    ensures TrieInv(first, FoldAll(first, s, paths))
    decreases |paths|
  {
    if paths != [] {
      FoldAllInv(first, s, paths[..|paths| - 1]);
      FoldInv(first, FoldAll(first, s, paths[..|paths| - 1]), paths[|paths| - 1]);
    }
  }

  // ---------------------------------------------------------------------------
  // What the folded state represents: every inserted path survives as a walk
  // through the tries and one crossing edge.

  /** The tries and the crossing set only grow. */
  ghost predicate Grows(s: FoldState, s': FoldState)
  {
    && Submap(s.prefixes, s'.prefixes)
    && Submap(s.suffixes, s'.suffixes)
    && s.crossing <= s'.crossing
    && s.originals <= s'.originals
  }

  lemma {:induction false} PrefixFoldGrows(first: nat, trie: map<Key, ONode>, originals: seq<nat>,
                                           from: ONode, p: seq<ONode>, i: nat, stop: nat)
    requires stop <= |p|
    ensures var c := PrefixFold(first, trie, originals, from, p, i, stop);
            Submap(trie, c.trie) && originals <= c.originals
    decreases stop - i
  {
    if i < stop {
      var r := Intern(first, trie, originals, (from, p[i]), p[i]);
      PrefixFoldUnfold(first, trie, originals, from, p, i, stop);
      PrefixFoldGrows(first, r.trie, r.originals, r.dup, p, i + 1, stop);
    }
  }

  lemma {:induction false} SuffixFoldGrows(first: nat, trie: map<Key, ONode>, originals: seq<nat>,
                                           to: ONode, p: seq<ONode>, i: nat, stop: nat)
    requires i < |p| && 1 <= stop <= i + 1
    ensures var c := SuffixFold(first, trie, originals, to, p, i, stop);
            Submap(trie, c.trie) && originals <= c.originals
    decreases i
  {
    if i >= stop {
      var r := Intern(first, trie, originals, (p[i], to), p[i]);
      SuffixFoldUnfold(first, trie, originals, to, p, i, stop);
      SuffixFoldGrows(first, r.trie, r.originals, r.dup, p, i - 1, stop);
    }
  }

  /** insert_path never removes or changes a trie entry, a crossing edge or a registry record. */
  lemma FoldGrows(first: nat, s: FoldState, path: seq<ONode>)
    ensures Grows(s, Fold(first, s, path))
  {
    if |path| >= 2 {
      var p := Canonical(path);
      var n := |p|;
      var h := Half(n);
      var front := PrefixFold(first, s.prefixes, s.originals, p[0], p, 1, h);
      var back := SuffixFold(first, s.suffixes, front.originals, p[n - 1], p, n - 2, h);
      PrefixFoldGrows(first, s.prefixes, s.originals, p[0], p, 1, h);
      SuffixFoldGrows(first, s.suffixes, front.originals, p[n - 1], p, n - 2, h);
      assert FoldOriented(first, s, p) == FoldState(front.trie, back.trie, s.crossing + {(front.end, back.end)}, back.originals);
    }
  }

  lemma {:induction false} FoldAllGrows(first: nat, s: FoldState, paths: seq<seq<ONode>>)
    ensures Grows(s, FoldAll(first, s, paths))
    decreases |paths|
  {
    if paths != [] {
      var s' := FoldAll(first, s, paths[..|paths| - 1]);
      FoldAllGrows(first, s, paths[..|paths| - 1]);
      FoldGrows(first, s', paths[|paths| - 1]);
    }
  }

  /**
   * `w` is the unfolded copy of the canonical path `p` in state `s`: it has
   * the endpoints of p, its first half is a chain of prefix-trie entries, its
   * second half a chain of suffix-trie entries, and the two halves meet in a
   * crossing edge.
   */
  ghost predicate Represented(s: FoldState, p: seq<ONode>, w: seq<ONode>)
  {
    var n, h := |p|, Half(|p|);
    && n >= 2 && |w| == n
    && w[0] == p[0] && w[n - 1] == p[n - 1]
    && (forall i :: 1 <= i < h ==> ChainStep(s.prefixes, w[i - 1], p[i], w[i]))
    && (forall i :: h <= i <= n - 2 ==> ChainStep(s.suffixes, p[i], w[i + 1], w[i]))
    && (w[h - 1], w[h]) in s.crossing
  }

  /** The trie maps (a, b) to d. */
  ghost predicate ChainStep(trie: map<Key, ONode>, a: ONode, b: ONode, d: ONode)
  {
    (a, b) in trie && trie[(a, b)] == d
  }

  /** The walk that the prefix walk leaves behind: positions i-1 .. stop-1 of the path. */
  lemma {:induction false} PrefixChain(first: nat, trie: map<Key, ONode>, originals: seq<nat>,
                                       from: ONode, p: seq<ONode>, i: nat, stop: nat) returns (w: seq<ONode>)
    requires 1 <= i <= stop <= |p|
    ensures |w| == stop - i + 1 && w[0] == from
    ensures w[|w| - 1] == PrefixFold(first, trie, originals, from, p, i, stop).end
    ensures forall j :: 1 <= j < |w| ==> ChainStep(PrefixFold(first, trie, originals, from, p, i, stop).trie, w[j - 1], p[i - 1 + j], w[j])
    decreases stop - i
  {
    if i == stop {
      w := [from];
    } else {
      var r := Intern(first, trie, originals, (from, p[i]), p[i]);
      PrefixFoldUnfold(first, trie, originals, from, p, i, stop);
      var rest := PrefixChain(first, r.trie, r.originals, r.dup, p, i + 1, stop);
      PrefixFoldGrows(first, r.trie, r.originals, r.dup, p, i + 1, stop);
      w := [from] + rest;
      var c := PrefixFold(first, r.trie, r.originals, r.dup, p, i + 1, stop);
      forall j | 1 <= j < |w|
        ensures ChainStep(c.trie, w[j - 1], p[i - 1 + j], w[j])
      {
        if j >= 2 {
          assert w[j - 1] == rest[j - 2] && w[j] == rest[j - 1];
          assert i - 1 + j == (i + 1) - 1 + (j - 1);
        } else {
          assert w[0] == from && w[1] == rest[0] == r.dup;
          assert (from, p[i]) in r.trie && r.trie[(from, p[i])] == r.dup;
          assert Submap(r.trie, c.trie);
        }
      }
    }
  }

  /** The walk that the suffix walk leaves behind: positions stop .. i+1 of the path. */
  lemma {:induction false} SuffixChain(first: nat, trie: map<Key, ONode>, originals: seq<nat>,
                                       to: ONode, p: seq<ONode>, i: nat, stop: nat) returns (w: seq<ONode>)
    requires i < |p| && 1 <= stop <= i + 1
    ensures |w| == i + 2 - stop && w[|w| - 1] == to
    ensures w[0] == SuffixFold(first, trie, originals, to, p, i, stop).end
    ensures forall j :: 0 <= j < |w| - 1 ==> ChainStep(SuffixFold(first, trie, originals, to, p, i, stop).trie, p[stop + j], w[j + 1], w[j])
    decreases i
  {
    if i < stop {
      w := [to];
    } else {
      var r := Intern(first, trie, originals, (p[i], to), p[i]);
      SuffixFoldUnfold(first, trie, originals, to, p, i, stop);
      var rest := SuffixChain(first, r.trie, r.originals, r.dup, p, i - 1, stop);
      SuffixFoldGrows(first, r.trie, r.originals, r.dup, p, i - 1, stop);
      w := rest + [to];
      var c := SuffixFold(first, r.trie, r.originals, r.dup, p, i - 1, stop);
      forall j | 0 <= j < |w| - 1
        ensures ChainStep(c.trie, p[stop + j], w[j + 1], w[j])
      {
        if j < |w| - 2 {
          assert w[j] == rest[j] && w[j + 1] == rest[j + 1];
        } else {
          assert stop + j == i && w[j] == r.dup;
        }
      }
    }
  }

  lemma FoldOrientedRepresents(first: nat, s: FoldState, p: seq<ONode>) returns (w: seq<ONode>)
    requires |p| >= 2
    ensures Represented(FoldOriented(first, s, p), p, w)
  {
    var n := |p|;
    var h := Half(n);
    var front := PrefixFold(first, s.prefixes, s.originals, p[0], p, 1, h);
    var back := SuffixFold(first, s.suffixes, front.originals, p[n - 1], p, n - 2, h);
    var wf := PrefixChain(first, s.prefixes, s.originals, p[0], p, 1, h);
    var wb := SuffixChain(first, s.suffixes, front.originals, p[n - 1], p, n - 2, h);
    w := wf + wb;
    var f := FoldOriented(first, s, p);
    assert f.prefixes == front.trie && f.suffixes == back.trie;
    assert (front.end, back.end) in f.crossing;
    FrontOfJoin(f.prefixes, p, wf, wb);
    BackOfJoin(f.suffixes, p, h, wf, wb);
  }

  /** The prefix chain survives appending the suffix chain. */
  lemma FrontOfJoin(trie: map<Key, ONode>, p: seq<ONode>, wf: seq<ONode>, wb: seq<ONode>)
    requires |wf| <= |p|
    requires forall j :: 1 <= j < |wf| ==> ChainStep(trie, wf[j - 1], p[j], wf[j])
    ensures forall i :: 1 <= i < |wf| ==> ChainStep(trie, (wf + wb)[i - 1], p[i], (wf + wb)[i])
    ensures |wf| > 0 ==> (wf + wb)[0] == wf[0] && (wf + wb)[|wf| - 1] == wf[|wf| - 1]
  {
    forall i | 1 <= i < |wf|
      ensures ChainStep(trie, (wf + wb)[i - 1], p[i], (wf + wb)[i])
    {
      assert (wf + wb)[i - 1] == wf[i - 1] && (wf + wb)[i] == wf[i];
    }
  }

  /** The suffix chain, shifted past the prefix chain. */
  lemma BackOfJoin(trie: map<Key, ONode>, p: seq<ONode>, h: nat, wf: seq<ONode>, wb: seq<ONode>)
    requires h == |wf| && h + |wb| <= |p| + 1
    requires forall j :: 0 <= j < |wb| - 1 ==> ChainStep(trie, p[h + j], wb[j + 1], wb[j])
    ensures forall i :: h <= i <= h + |wb| - 2 ==> ChainStep(trie, p[i], (wf + wb)[i + 1], (wf + wb)[i])
    ensures |wb| > 0 ==> (wf + wb)[h] == wb[0] && (wf + wb)[h + |wb| - 1] == wb[|wb| - 1]
  {
    forall i | h <= i <= h + |wb| - 2
      ensures ChainStep(trie, p[i], (wf + wb)[i + 1], (wf + wb)[i])
    {
      assert (wf + wb)[i] == wb[i - h] && (wf + wb)[i + 1] == wb[i - h + 1];
      assert p[i] == p[h + (i - h)];
    }
  }

  /** insert_path leaves the canonical orientation of the path represented in the tries. */
  lemma FoldRepresents(first: nat, s: FoldState, path: seq<ONode>) returns (w: seq<ONode>)
    requires |path| >= 2
    ensures Represented(Fold(first, s, path), Canonical(path), w)
  {
    w := FoldOrientedRepresents(first, s, Canonical(path));
  }

  /** A represented path stays represented when the state grows. */
  lemma RepresentedMonotone(s: FoldState, s': FoldState, p: seq<ONode>, w: seq<ONode>)
    requires Represented(s, p, w) && Grows(s, s')
    ensures Represented(s', p, w)
  {
    var n, h := |p|, Half(|p|);
    assert (w[h - 1], w[h]) in s'.crossing;
  }

  /**
   * Every path of length at least two inserted by a sequence of insert_path
   * calls is represented in the final state.
   */
  lemma {:induction false} FoldAllRepresents(first: nat, s: FoldState, paths: seq<seq<ONode>>, r: nat)
    returns (w: seq<ONode>)
    requires r < |paths| && |paths[r]| >= 2
    ensures Represented(FoldAll(first, s, paths), Canonical(paths[r]), w)
    decreases |paths|
  {
    var init := paths[..|paths| - 1];
    var s' := FoldAll(first, s, init);
    if r == |paths| - 1 {
      w := FoldRepresents(first, s', paths[r]);
    } else {
      assert paths[r] == init[r];
      w := FoldAllRepresents(first, s, init, r);
      FoldGrows(first, s', paths[|paths| - 1]);
      RepresentedMonotone(s', Fold(first, s', paths[|paths| - 1]), Canonical(paths[r]), w);
    }
  }

  /**
   * Under the trie invariant the walk is a copy of the path: the endpoints are
   * the path's own nodes and every inner node is a duplicate of the node at
   * the same position.
   */
  lemma RepresentedCopies(first: nat, s: FoldState, p: seq<ONode>, w: seq<ONode>)
    requires TrieInv(first, s) && Represented(s, p, w)
    ensures forall i :: 1 <= i < |p| - 1 ==> StandsFor(first, s.originals, w[i], p[i]) && w[i].id >= first
  {
    var n, h := |p|, Half(|p|);
    forall i | 1 <= i < n - 1
      ensures StandsFor(first, s.originals, w[i], p[i]) && w[i].id >= first
    {
      if i < h {
        assert s.prefixes[(w[i - 1], p[i])] == w[i];
      } else {
        assert s.suffixes[(p[i], w[i + 1])] == w[i];
      }
    }
  }

  // ---------------------------------------------------------------------------
  // Copies do not merge: two represented copies share a duplicate only where
  // their paths share a prefix (in the prefix halves) or a suffix (in the
  // suffix halves).

  /** Every node of `p` is an original node: its id lies below the first duplicate id. */
  predicate Below(first: nat, p: seq<ONode>)
  {
    forall i :: 0 <= i < |p| ==> p[i].id < first
  }

  /**
   * Two copies that meet in their prefix halves meet at the same position,
   * after the same prefix of their paths and along the same duplicates.
   */
  lemma {:induction false} PrefixesMeet(first: nat, s: FoldState, p: seq<ONode>, w: seq<ONode>,
                                        p': seq<ONode>, w': seq<ONode>, i: nat, j: nat)
    requires TrieInv(first, s) && Represented(s, p, w) && Represented(s, p', w')
    requires Below(first, p) && Below(first, p')
    requires 1 <= i < Half(|p|) && 1 <= j < Half(|p'|) && w[i] == w'[j]
    ensures i == j && p[..i + 1] == p'[..i + 1] && w[..i + 1] == w'[..i + 1]
    decreases i
  {
    PrefixStepMeets(first, s, p, w, p', w', i, j);
    if i == 1 {
      assert p[..2] == [p[0], p[1]] && p'[..2] == [p'[0], p'[1]];
      assert w[..2] == [w[0], w[1]] && w'[..2] == [w'[0], w'[1]];
    } else {
      PrefixesMeet(first, s, p, w, p', w', i - 1, j - 1);
      assert p[..i + 1] == p[..i] + [p[i]] && p'[..i + 1] == p'[..i] + [p'[i]];
      assert w[..i + 1] == w[..i] + [w[i]] && w'[..i + 1] == w'[..i] + [w'[i]];
    }
  }

  /** One prefix-trie step back from a shared duplicate: same path node, same previous node, and both at their first step or neither. */
  lemma PrefixStepMeets(first: nat, s: FoldState, p: seq<ONode>, w: seq<ONode>,
                        p': seq<ONode>, w': seq<ONode>, i: nat, j: nat)
    requires TrieInv(first, s) && Represented(s, p, w) && Represented(s, p', w')
    requires Below(first, p) && Below(first, p')
    requires 1 <= i < Half(|p|) && 1 <= j < Half(|p'|) && w[i] == w'[j]
    ensures p[i] == p'[j] && w[i - 1] == w'[j - 1]
    ensures i == 1 <==> j == 1
    ensures i == 1 ==> p[0] == p'[0]
  {
    assert ChainStep(s.prefixes, w[i - 1], p[i], w[i]) && ChainStep(s.prefixes, w'[j - 1], p'[j], w'[j]);
    assert DupId(s.prefixes, (w[i - 1], p[i])) == DupId(s.prefixes, (w'[j - 1], p'[j]));
    RepresentedCopies(first, s, p, w);
    RepresentedCopies(first, s, p', w');
    assert w[0].id < first && w'[0].id < first;
  }

  /**
   * Two copies that meet in their suffix halves meet at the same distance
   * from the end, before the same suffix of their paths and along the same
   * duplicates.
   */
  lemma {:induction false} SuffixesMeet(first: nat, s: FoldState, p: seq<ONode>, w: seq<ONode>,
                                        p': seq<ONode>, w': seq<ONode>, i: nat, j: nat)
    requires TrieInv(first, s) && Represented(s, p, w) && Represented(s, p', w')
    requires Below(first, p) && Below(first, p')
    requires Half(|p|) <= i <= |p| - 2 && Half(|p'|) <= j <= |p'| - 2 && w[i] == w'[j]
    ensures |p| - i == |p'| - j && p[i..] == p'[j..] && w[i..] == w'[j..]
    decreases |p| - i
  {
    var n, n' := |p|, |p'|;
    SuffixStepMeets(first, s, p, w, p', w', i, j);
    if i == n - 2 {
      assert p[i..] == [p[i], p[n - 1]] && p'[j..] == [p'[j], p'[n' - 1]];
      assert w[i..] == [w[i], w[n - 1]] && w'[j..] == [w'[j], w'[n' - 1]];
    } else {
      SuffixesMeet(first, s, p, w, p', w', i + 1, j + 1);
      assert p[i..] == [p[i]] + p[i + 1..] && p'[j..] == [p'[j]] + p'[j + 1..];
      assert w[i..] == [w[i]] + w[i + 1..] && w'[j..] == [w'[j]] + w'[j + 1..];
    }
  }

  /** One suffix-trie step back from a shared duplicate: same path node, same next node, and both at their last step or neither. */
  lemma SuffixStepMeets(first: nat, s: FoldState, p: seq<ONode>, w: seq<ONode>,
                        p': seq<ONode>, w': seq<ONode>, i: nat, j: nat)
    requires TrieInv(first, s) && Represented(s, p, w) && Represented(s, p', w')
    requires Below(first, p) && Below(first, p')
    requires Half(|p|) <= i <= |p| - 2 && Half(|p'|) <= j <= |p'| - 2 && w[i] == w'[j]
    ensures p[i] == p'[j] && w[i + 1] == w'[j + 1]
    ensures i == |p| - 2 <==> j == |p'| - 2
    ensures i == |p| - 2 ==> p[|p| - 1] == p'[|p'| - 1]
  {
    assert ChainStep(s.suffixes, p[i], w[i + 1], w[i]) && ChainStep(s.suffixes, p'[j], w'[j + 1], w'[j]);
    assert DupId(s.suffixes, (p[i], w[i + 1])) == DupId(s.suffixes, (p'[j], w'[j + 1]));
    RepresentedCopies(first, s, p, w);
    RepresentedCopies(first, s, p', w');
    assert w[|p| - 1].id < first && w'[|p'| - 1].id < first;
  }

  /** A duplicate from the prefix trie is never one from the suffix trie. */
  lemma PrefixNotSuffix(first: nat, s: FoldState, p: seq<ONode>, w: seq<ONode>,
                        p': seq<ONode>, w': seq<ONode>, i: nat, j: nat)
    requires TrieInv(first, s) && Represented(s, p, w) && Represented(s, p', w')
    requires 1 <= i < Half(|p|) && Half(|p'|) <= j <= |p'| - 2
    ensures w[i] != w'[j]
  {
    assert ChainStep(s.prefixes, w[i - 1], p[i], w[i]) && ChainStep(s.suffixes, p'[j], w'[j + 1], w'[j]);
    assert DupId(s.prefixes, (w[i - 1], p[i])) != DupId(s.suffixes, (p'[j], w'[j + 1]));
  }

  /**
   * Where two represented copies share an inner node: both in their prefix
   * halves, at the same position after the same prefix, or both in their
   * suffix halves, at the same distance from the end before the same suffix.
   */
  ghost predicate MeetOnShared(p: seq<ONode>, w: seq<ONode>, p': seq<ONode>, w': seq<ONode>, i: nat, j: nat)
    requires i < |p| == |w| && j < |p'| == |w'|
  {
    || (i < Half(|p|) && j < Half(|p'|) && i == j && p[..i + 1] == p'[..j + 1] && w[..i + 1] == w'[..j + 1])
    || (i >= Half(|p|) && j >= Half(|p'|) && |p| - i == |p'| - j && p[i..] == p'[j..] && w[i..] == w'[j..])
  }

  /** Two represented copies meet only on a shared prefix or a shared suffix of their paths. */
  lemma CopiesMeet(first: nat, s: FoldState, p: seq<ONode>, w: seq<ONode>,
                   p': seq<ONode>, w': seq<ONode>, i: nat, j: nat)
    requires TrieInv(first, s) && Represented(s, p, w) && Represented(s, p', w')
    requires Below(first, p) && Below(first, p')
    requires 1 <= i <= |p| - 2 && 1 <= j <= |p'| - 2 && w[i] == w'[j]
    ensures MeetOnShared(p, w, p', w', i, j)
  {
    if i < Half(|p|) {
      if j < Half(|p'|) {
        PrefixesMeet(first, s, p, w, p', w', i, j);
      } else {
        PrefixNotSuffix(first, s, p, w, p', w', i, j);
      }
    } else {
      if j < Half(|p'|) {
        PrefixNotSuffix(first, s, p', w', p, w, j, i);
      } else {
        SuffixesMeet(first, s, p, w, p', w', i, j);
      }
    }
  }

  // ---------------------------------------------------------------------------
  // The unfolded component: the edges that unfold_component emits from a state.

  /** A prefix entry (from, to) -> d gives the edge from `from` to its duplicate d. */
  function PrefixEdges(pre: map<Key, ONode>, ks: set<Key>): set<Edge>
  {
    set k | k in ks && k in pre :: MakeEdge(k.0, pre[k])
  }

  /** A suffix entry (from, to) -> d gives the edge from the duplicate d to `to`. */
  function SuffixEdges(suf: map<Key, ONode>, ks: set<Key>): set<Edge>
  {
    set k | k in ks && k in suf :: MakeEdge(suf[k], k.1)
  }

  /** A crossing pair gives its own edge. */
  function CrossingEdges(cs: set<Key>): set<Edge>
  {
    set c | c in cs :: MakeEdge(c.0, c.1)
  }

  function EmittedEdges(s: FoldState): set<Edge>
  {
    PrefixEdges(s.prefixes, s.prefixes.Keys) + SuffixEdges(s.suffixes, s.suffixes.Keys) + CrossingEdges(s.crossing)
  }

  /** The unfolded component holds the represented copy of the path as a walk. */
  lemma RepresentedWalk(s: FoldState, p: seq<ONode>, w: seq<ONode>)
    requires Represented(s, p, w)
    ensures forall i :: 1 <= i < |w| ==> MakeEdge(w[i - 1], w[i]) in EmittedEdges(s)
  {
    var n, h := |p|, Half(|p|);
    forall i | 1 <= i < n
      ensures MakeEdge(w[i - 1], w[i]) in EmittedEdges(s)
    {
      if i < h {
        var k := (w[i - 1], p[i]);
        assert k in s.prefixes && s.prefixes[k] == w[i];
        assert MakeEdge(k.0, s.prefixes[k]) in PrefixEdges(s.prefixes, s.prefixes.Keys);
      } else if i == h {
        var c := (w[h - 1], w[h]);
        assert MakeEdge(c.0, c.1) in CrossingEdges(s.crossing);
      } else {
        var k := (p[i - 1], w[i]);
        assert k in s.suffixes && s.suffixes[k] == w[i - 1];
        assert MakeEdge(s.suffixes[k], k.1) in SuffixEdges(s.suffixes, s.suffixes.Keys);
      }
    }
  }

  /**
   * What unfold_component builds from the folded state: every inserted path
   * of length at least two has a copy in the unfolded component, with the
   * path's own end nodes, duplicates of its inner nodes in the same strands,
   * and an emitted edge between each pair of neighbours.
   */
  lemma UnfoldedCopy(first: nat, s: FoldState, paths: seq<seq<ONode>>, r: nat) returns (w: seq<ONode>)
    requires TrieInv(first, s)
    requires r < |paths| && |paths[r]| >= 2
    ensures var p, t := Canonical(paths[r]), FoldAll(first, s, paths);
            && |w| == |p| && w[0] == p[0] && w[|w| - 1] == p[|p| - 1]
            && (forall i :: 1 <= i < |w| ==> MakeEdge(w[i - 1], w[i]) in EmittedEdges(t))
            && (forall i :: 1 <= i < |w| - 1 ==> StandsFor(first, t.originals, w[i], p[i]) && w[i].id >= first)
            && Represented(t, p, w)
  {
    var t := FoldAll(first, s, paths);
    w := FoldAllRepresents(first, s, paths, r);
    FoldAllInv(first, s, paths);
    RepresentedWalk(t, Canonical(paths[r]), w);
    RepresentedCopies(first, t, Canonical(paths[r]), w);
  }

  /**
   * The copies of two inserted paths made of original nodes do not merge:
   * where they share an inner node, the two paths share the prefix up to it
   * (in the prefix halves) or the suffix from it (in the suffix halves), and
   * the copies agree along that prefix or suffix.
   */
  lemma UnfoldedCopiesMeet(first: nat, s: FoldState, paths: seq<seq<ONode>>, r: nat, r': nat)
    returns (w: seq<ONode>, w': seq<ONode>)
    requires TrieInv(first, s)
    requires r < |paths| && |paths[r]| >= 2 && Below(first, paths[r])
    requires r' < |paths| && |paths[r']| >= 2 && Below(first, paths[r'])
    ensures var t := FoldAll(first, s, paths);
            Represented(t, Canonical(paths[r]), w) && Represented(t, Canonical(paths[r']), w')
    ensures forall i, j :: 1 <= i < |w| - 1 && 1 <= j < |w'| - 1 && w[i] == w'[j]
                           ==> MeetOnShared(Canonical(paths[r]), w, Canonical(paths[r']), w', i, j)
  {
    var t := FoldAll(first, s, paths);
    var p, p' := Canonical(paths[r]), Canonical(paths[r']);
    w := UnfoldedCopy(first, s, paths, r);
    w' := UnfoldedCopy(first, s, paths, r');
    FoldAllInv(first, s, paths);
    CanonicalIds(paths[r], first);
    CanonicalIds(paths[r'], first);
    forall i, j | 1 <= i < |w| - 1 && 1 <= j < |w'| - 1 && w[i] == w'[j]
      ensures MeetOnShared(p, w, p', w', i, j)
    {
      CopiesMeet(first, t, p, w, p', w', i, j);
    }
  }
}
