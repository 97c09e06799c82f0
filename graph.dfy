/**
 * The graph storage (VG) as the phase unfolder sees it: a set of node ids and
 * a set of edges in their stored form.
 */
module Graphs {
  import opened Oriented

  class Graph {
    var nodes: set<nat>
    var edges: set<Edge>

    constructor ()
      ensures nodes == {} && edges == {}
    {
      nodes := {};
      edges := {};
    }

    function HasNode(id: nat): bool
      reads this
    {
      id in nodes
    }

    function HasEdge(e: Edge): bool
      reads this
    {
      e in edges
    }

    method AddNode(id: nat)
      modifies this
      ensures nodes == old(nodes) + {id} && edges == old(edges)
    {
      nodes := nodes + {id};
    }

    method AddEdge(e: Edge)
      modifies this
      ensures edges == old(edges) + {e} && nodes == old(nodes)
    {
      edges := edges + {e};
    }

    /** extend(other): adds every node and every edge of `other`. */
    method Extend(other: Graph)
      modifies this
      ensures nodes == old(nodes) + old(other.nodes) && edges == old(edges) + old(other.edges)
    {
      nodes := nodes + other.nodes;
      edges := edges + other.edges;
    }
  }

  /** Every stored edge is in the form that MakeEdge produces. */
  ghost predicate CanonicalEdges(edges: set<Edge>)
  {
    forall e :: e in edges ==> e == MakeEdge(e.from, e.to)
  }

  /** The ids at either end of some edge of the set. */
  function Endpoints(edges: set<Edge>): set<nat>
  {
    (set e | e in edges :: e.from.id) + (set e | e in edges :: e.to.id)
  }

  /** Adding an edge adds the ids of its two ends. */
  lemma EndpointsAdd(edges: set<Edge>, e: Edge)
    ensures Endpoints(edges + {e}) == Endpoints(edges) + {e.from.id, e.to.id}
  {
  }

  /** The endpoints of a union are the union of the endpoints. */
  lemma EndpointsUnion(a: set<Edge>, b: set<Edge>)
    ensures Endpoints(a + b) == Endpoints(a) + Endpoints(b)
  {
  }

  /** Both spellings of an edge have the same two ids. */
  lemma MakeEdgeEndpoints(a: ONode, b: ONode)
    ensures {MakeEdge(a, b).from.id, MakeEdge(a, b).to.id} == {a.id, b.id}
  {
  }

  /** The edges between consecutive nodes of a path. */
  function Steps(p: seq<ONode>): set<Edge>
    decreases |p|
  {
    if |p| < 2 then {} else Steps(p[..|p| - 1]) + {MakeEdge(p[|p| - 2], p[|p| - 1])}
  }

  /** The edges between consecutive nodes of every path of a collection. */
  function AllSteps(paths: seq<seq<ONode>>): set<Edge>
    decreases |paths|
  {
    if paths == [] then {} else AllSteps(paths[..|paths| - 1]) + Steps(paths[|paths| - 1])
  }

  /** `e` joins positions i - 1 and i of `p`. */
  ghost predicate StepAt(p: seq<ONode>, i: int, e: Edge)
  {
    1 <= i < |p| && e == MakeEdge(p[i - 1], p[i])
  }

  /** Steps holds exactly the edges between neighbours of the path. */
  lemma {:induction false} StepsExactly(p: seq<ONode>, e: Edge)
    ensures e in Steps(p) <==> exists i :: StepAt(p, i, e)
    decreases |p|
  {
    if |p| >= 2 {
      var q := p[..|p| - 1];
      StepsExactly(q, e);
      if e in Steps(p) {
        if e in Steps(q) {
          var i :| StepAt(q, i, e);
          assert StepAt(p, i, e);
        } else {
          assert StepAt(p, |p| - 1, e);
        }
      }
      if exists i :: StepAt(p, i, e) {
        var i :| StepAt(p, i, e);
        if i < |p| - 1 {
          assert StepAt(q, i, e);
        }
      }
    }
  }

  /** AllSteps holds exactly the edges between neighbours on some path. */
  lemma {:induction false} AllStepsExactly(paths: seq<seq<ONode>>, e: Edge)
    ensures e in AllSteps(paths) <==> exists r :: 0 <= r < |paths| && e in Steps(paths[r])
    decreases |paths|
  {
    if paths != [] {
      var q := paths[..|paths| - 1];
      AllStepsExactly(q, e);
      if exists r :: 0 <= r < |paths| && e in Steps(paths[r]) {
        var r :| 0 <= r < |paths| && e in Steps(paths[r]);
        if r < |paths| - 1 {
          assert e in Steps(q[r]);
        }
      }
    }
  }
}
