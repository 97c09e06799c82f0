/**
 * Oriented nodes, paths over them and edges between them: the value types that
 * the phase unfolder passes around as GBWT `node_type` values and `Edge`s.
 */
module Oriented {

  datatype Option<T> = None | Some(value: T)

  /** A node id together with the strand on which it is traversed. */
  datatype ONode = ONode(id: nat, isReverse: bool)

  /** The GBWT packing of an oriented node into one integer: 2 * id + strand. */
  function Encode(v: ONode): nat
  {
    2 * v.id + (if v.isReverse then 1 else 0)
  }

  /** Unpacking, the inverse of Encode. */
  function Decode(x: nat): (v: ONode)
    ensures Encode(v) == x
  {
    ONode(x / 2, x % 2 == 1)
  }

  lemma DecodeEncode(v: ONode)
    ensures Decode(Encode(v)) == v
  {
  }

  /** The value 0, used as the end-of-thread marker and as the "unassigned" trie value. */
  const Null: ONode := ONode(0, false)

  lemma NullIsZero(v: ONode)
    ensures Encode(v) == 0 <==> v == Null
  {
  }

  /** The same node on the other strand (gbwt::Node::reverse flips the lowest bit). */
  function Reverse(v: ONode): (r: ONode)
    ensures r.id == v.id && r.isReverse != v.isReverse
    ensures Encode(r) == if v.isReverse then Encode(v) - 1 else Encode(v) + 1
  {
    ONode(v.id, !v.isReverse)
  }

  /** The order on oriented nodes: by id, then forward before reverse. */
  predicate NodeLess(a: ONode, b: ONode)
  {
    a.id < b.id || (a.id == b.id && !a.isReverse && b.isReverse)
  }

  lemma NodeLessIsEncodedLess(a: ONode, b: ONode)
    ensures NodeLess(a, b) <==> Encode(a) < Encode(b)
  {
  }

  /** Lexicographic order on paths, as `operator<` on std::vector. */
  predicate PathLess(a: seq<ONode>, b: seq<ONode>)
    decreases |a|
  {
    if |a| == 0 then |b| > 0
    else if |b| == 0 then false
    else NodeLess(a[0], b[0]) || (a[0] == b[0] && PathLess(a[1..], b[1..]))
  }

  /** Lexicographic order on vectors of packed nodes, which is what the source compares. */
  predicate EncodedLess(a: seq<nat>, b: seq<nat>)
    decreases |a|
  {
    if |a| == 0 then |b| > 0
    else if |b| == 0 then false
    else a[0] < b[0] || (a[0] == b[0] && EncodedLess(a[1..], b[1..]))
  }

  function EncodePath(p: seq<ONode>): (r: seq<nat>)
    ensures |r| == |p|
    ensures forall i :: 0 <= i < |p| ==> r[i] == Encode(p[i])
  {
    if p == [] then [] else [Encode(p[0])] + EncodePath(p[1..])
  }

  /** Comparing paths of oriented nodes agrees with comparing their packed encodings. */
  lemma {:induction false} PathLessIsEncodedLess(a: seq<ONode>, b: seq<ONode>)
    ensures PathLess(a, b) <==> EncodedLess(EncodePath(a), EncodePath(b))
    decreases |a|
  {
    if |a| > 0 && |b| > 0 {
      NodeLessIsEncodedLess(a[0], b[0]);
      var ea, eb := EncodePath(a), EncodePath(b);
      assert ea[1..] == EncodePath(a[1..]);
      assert eb[1..] == EncodePath(b[1..]);
      assert ea[0] == eb[0] <==> a[0] == b[0] by {
        if ea[0] == eb[0] { DecodeEncode(a[0]); DecodeEncode(b[0]); }
      }
      PathLessIsEncodedLess(a[1..], b[1..]);
    }
  }

  lemma {:induction false} PathLessTotal(a: seq<ONode>, b: seq<ONode>)
    ensures PathLess(a, b) || a == b || PathLess(b, a)
    decreases |a|
  {
    if |a| > 0 && |b| > 0 && a[0] == b[0] {
      PathLessTotal(a[1..], b[1..]);
      if a[1..] == b[1..] {
        assert a == [a[0]] + a[1..] && b == [b[0]] + b[1..];
      }
    }
  }

  lemma {:induction false} PathLessAsymmetric(a: seq<ONode>, b: seq<ONode>)
    ensures !(PathLess(a, b) && PathLess(b, a))
    decreases |a|
  {
    if |a| > 0 && |b| > 0 && a[0] == b[0] {
      PathLessAsymmetric(a[1..], b[1..]);
    }
  }

  /** The path traversed end to start with every strand flipped. */
  function ReverseComplement(p: seq<ONode>): (r: seq<ONode>)
    ensures |r| == |p|
  {
    if p == [] then [] else ReverseComplement(p[1..]) + [Reverse(p[0])]
  }

  /** Position |p| - 1 - i of the reverse complement holds position i with its strand flipped. */
  lemma {:induction false} ReverseComplementAt(p: seq<ONode>, i: nat)
    requires i < |p|
    ensures ReverseComplement(p)[|p| - 1 - i] == Reverse(p[i])
    decreases |p|
  {
    if i > 0 {
      ReverseComplementAt(p[1..], i - 1);
    }
  }

  lemma ReverseComplementInvolution(p: seq<ONode>)
    ensures ReverseComplement(ReverseComplement(p)) == p
  {
    var r := ReverseComplement(p);
    var rr := ReverseComplement(r);
    forall i | 0 <= i < |p|
      ensures rr[i] == p[i]
    {
      ReverseComplementAt(r, |p| - 1 - i);
      ReverseComplementAt(p, i);
    }
  }

  /** The canonical orientation of a path: std::min(path, reverse complement). */
  function Canonical(p: seq<ONode>): (r: seq<ONode>)
    ensures r == p || r == ReverseComplement(p)
    ensures |r| == |p|
  {
    var rc := ReverseComplement(p);
    if PathLess(rc, p) then rc else p
  }

  /** The canonical form is the smaller of the two orientations. */
  lemma CanonicalIsMinimal(p: seq<ONode>)
    ensures !PathLess(ReverseComplement(Canonical(p)), Canonical(p))
  {
    var rc := ReverseComplement(p);
    ReverseComplementInvolution(p);
    PathLessAsymmetric(rc, p);
  }

  /** A path and its reverse complement have the same canonical form. */
  lemma CanonicalOfReverseComplement(p: seq<ONode>)
    ensures Canonical(ReverseComplement(p)) == Canonical(p)
  {
    var rc := ReverseComplement(p);
    ReverseComplementInvolution(p);
    PathLessTotal(rc, p);
    PathLessAsymmetric(rc, p);
  }

  /** Canonical form only reorders and flips nodes, so an upper bound on the ids survives it. */
  lemma CanonicalIds(p: seq<ONode>, bound: nat)
    requires forall i :: 0 <= i < |p| ==> p[i].id < bound
    ensures forall i :: 0 <= i < |p| ==> Canonical(p)[i].id < bound
  {
    forall i | 0 <= i < |p|
      ensures ReverseComplement(p)[i].id < bound
    {
      ReverseComplementAt(p, |p| - 1 - i);
    }
  }

  /** An edge between two node sides, from the end of `from` to the start of `to`. */
  datatype Edge = Edge(from: ONode, to: ONode)

  /**
   * make_edge: the two spellings (a, b) and (reverse b, reverse a) describe the
   * same edge; one of them is chosen as the stored form.
   */
  function MakeEdge(a: ONode, b: ONode): (e: Edge)
    ensures e == Edge(a, b) || e == Edge(Reverse(b), Reverse(a))
  {
    var c, d := Reverse(b), Reverse(a);
    if NodeLess(c, a) || (c == a && NodeLess(d, b)) then Edge(c, d) else Edge(a, b)
  }

  /** Walking an edge backwards on the other strands gives the same edge. */
  lemma MakeEdgeMirror(a: ONode, b: ONode)
    ensures MakeEdge(Reverse(b), Reverse(a)) == MakeEdge(a, b)
  {
  }

  /** The stored form of an edge is its own canonical form. */
  lemma MakeEdgeCanonical(a: ONode, b: ONode)
    ensures MakeEdge(MakeEdge(a, b).from, MakeEdge(a, b).to) == MakeEdge(a, b)
  {
  }
}
