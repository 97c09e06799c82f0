/**
 * The duplicate registry (gcsa::NodeMapping as the phase unfolder uses it):
 * duplicate ids are handed out from a contiguous range [firstNode, nextNode),
 * and each remembers the original id it stands for.
 */
module Registry {

  /**
   * Resolution of an id against a registry that starts at `first` and holds
   * `originals`: ids in the allocated range resolve to their recorded original,
   * every other id to itself.
   */
  function Lookup(first: nat, originals: seq<nat>, id: nat): nat
  {
    if first <= id < first + |originals| then originals[id - first] else id
  }

  /** Allocating one more id leaves the resolution of every other id alone. */
  lemma LookupAfterAllocation(first: nat, originals: seq<nat>, original: nat, id: nat)
    ensures Lookup(first, originals + [original], first + |originals|) == original
    ensures id != first + |originals| ==>
              Lookup(first, originals + [original], id) == Lookup(first, originals, id)
  {
  }

  /** The file image: a header {first, next} followed by one record per duplicate. */
  datatype MappingFile = MappingFile(firstNode: nat, nextNode: nat, records: seq<nat>)

  /** A file that the loader accepts: the header range has one record per id. */
  predicate Consistent(f: MappingFile)
  {
    f.firstNode + |f.records| == f.nextNode
  }

  class NodeMapping {
    var firstNode: nat
    var nextNode: nat
    var originals: seq<nat>

    ghost predicate Valid()
      reads this
    {
      nextNode == firstNode + |originals|
    }

    /** An empty registry whose first duplicate will be `next`. */
    constructor (next: nat)
      ensures Valid()
      ensures firstNode == next && nextNode == next && originals == []
    {
      firstNode := next;
      nextNode := next;
      originals := [];
    }

    /** The original id that `id` stands for (mapping(id) in the source). */
    function Resolve(id: nat): nat
      reads this
    {
      Lookup(firstNode, originals, id)
    }

    /**
     * insert(original): allocates the next id of the range for `original`. Not
     * idempotent: every call hands out a new id.
     */
    method Insert(original: nat) returns (id: nat)
      requires Valid()
      modifies this
      ensures Valid()
      ensures firstNode == old(firstNode)
      ensures id == old(nextNode) && nextNode == old(nextNode) + 1
      ensures originals == old(originals) + [original]
      ensures Resolve(id) == original
      ensures forall d :: d != id ==> Resolve(d) == old(Resolve(d))
    {
      LookupAfterAllocation(firstNode, originals, original, 0);
      id := nextNode;
      originals := originals + [original];
      nextNode := nextNode + 1;
      forall d | d != id
        ensures Lookup(firstNode, originals, d) == Lookup(firstNode, old(originals), d)
      {
        LookupAfterAllocation(firstNode, old(originals), original, d);
      }
    }

    /**
     * serialize: the header and the records of every allocated duplicate. The
     * records cover exactly [nextNode - |records|, nextNode).
     */
    function Serialize(): (f: MappingFile)
      reads this
      requires Valid()
      ensures Consistent(f)
      ensures f.nextNode - |f.records| == f.firstNode == firstNode
      ensures forall d :: f.firstNode <= d < f.nextNode ==> f.records[d - f.firstNode] == Resolve(d)
    {
      MappingFile(firstNode, nextNode, originals)
    }

    /**
     * load: replaces the registry with the one in the file. New duplicates
     * are then numbered from the file's nextNode on.
     */
    method Load(f: MappingFile)
      requires Consistent(f)
      modifies this
      ensures Valid()
      ensures firstNode == f.firstNode && nextNode == f.nextNode && originals == f.records
      ensures forall d :: f.firstNode <= d < f.nextNode ==> Resolve(d) == f.records[d - f.firstNode]
    {
      firstNode, nextNode, originals := f.firstNode, f.nextNode, f.records;
    }
  }
}
