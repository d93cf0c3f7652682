/** malloc and free as bookkeeping: the set of blocks that are allocated and not yet freed. */
module Memory {
  /** Only what is owned changed: everything else that was allocated still is, nothing leaked. */
  ghost predicate Conserved(live: set<object>, owned: set<object>, live': set<object>, owned': set<object>) {
    owned <= live && owned' <= live' && live' - owned' == live - owned
  }

  lemma ConservedSame(live: set<object>, owned: set<object>)
    requires owned <= live
    ensures Conserved(live, owned, live, owned)
  {
  }

  lemma ConservedMalloc(live: set<object>, owned: set<object>, block: object)
    requires owned <= live && block !in live
    ensures Conserved(live, owned, live + {block}, owned + {block})
  {
  }

  lemma ConservedFree(live: set<object>, owned: set<object>, block: object)
    requires owned <= live && block in owned
    ensures Conserved(live, owned, live - {block}, owned - {block})
  {
  }

  lemma ConservedFreeAll(live: set<object>, owned: set<object>, blocks: set<object>)
    requires blocks <= owned <= live
    ensures Conserved(live, owned, live - blocks, owned - blocks)
  {
  }

  lemma ConservedSteps(live: set<object>, owned: set<object>, live': set<object>, owned': set<object>,
                       live'': set<object>, owned'': set<object>)
    requires Conserved(live, owned, live', owned') && Conserved(live', owned', live'', owned'')
    ensures Conserved(live, owned, live'', owned'')
  {
  }

  /** Owning newly allocated blocks as well. */
  lemma ConservedGrows(live: set<object>, owned: set<object>, live': set<object>, owned': set<object>,
                       blocks: set<object>)
    requires Conserved(live, owned, live', owned') && blocks !! live'
    ensures Conserved(live, owned, live' + blocks, owned' + blocks)
  {
  }

  /** What happens to a part happens to the whole; the rest of it is neither lost nor shared. */
  lemma ConservedPart(live: set<object>, part: set<object>, live': set<object>, part': set<object>, whole: set<object>)
    requires Conserved(live, part, live', part') && part <= whole <= live
    ensures Conserved(live, whole, live', (whole - part) + part')
    ensures (whole - part) !! part'
  {
    var whole' := (whole - part) + part';
    forall o ensures o in live' - whole' <==> o in live - whole {
      assert o in live' - part' <==> o in live - part;
    }
    forall o | o in whole - part ensures o in live' && o !in part' {
      assert o in live - part;
    }
  }

  /** Disjoint footprints in a row. */
  ghost predicate Disjoint(foot: seq<set<object>>) {
    forall i, j :: 0 <= i < j < |foot| ==> foot[i] !! foot[j]
  }

  ghost function Union(foot: seq<set<object>>): (r: set<object>)
    ensures forall i :: 0 <= i < |foot| ==> foot[i] <= r
    ensures forall o :: o in r ==> exists i :: 0 <= i < |foot| && o in foot[i]
  {
    if foot == [] then {}
    else
      var before := foot[..|foot| - 1];
      assert forall i :: 0 <= i < |before| ==> before[i] == foot[i];
      Union(before) + foot[|foot| - 1]
  }

  lemma UnionEmpty()
    ensures Union([]) == {} && Disjoint([])
  {
  }

  lemma UnionSnoc(foot: seq<set<object>>, f: set<object>)
    ensures Union(foot + [f]) == Union(foot) + f
    ensures Disjoint(foot) && Union(foot) !! f ==> Disjoint(foot + [f])
  {
    assert (foot + [f])[..|foot|] == foot;
  }

  lemma UnionPrefix(foot: seq<set<object>>, i: nat)
    requires i < |foot| && Disjoint(foot)
    ensures Union(foot[..i + 1]) == Union(foot[..i]) + foot[i] && Union(foot[..i]) !! foot[i]
    ensures Union(foot[..i]) <= Union(foot)
  {
    assert foot[..i + 1][..i] == foot[..i];
    forall o | o in Union(foot[..i]) ensures o in Union(foot) && o !in foot[i] {
      var j :| 0 <= j < i && o in foot[..i][j];
      assert o in foot[j];
    }
  }

  lemma UnionUpdate(foot: seq<set<object>>, i: nat, f: set<object>)
    requires i < |foot| && Disjoint(foot) && forall j :: 0 <= j < |foot| && j != i ==> foot[j] !! f
    ensures Union(foot[i := f]) == (Union(foot) - foot[i]) + f
    ensures Disjoint(foot[i := f])
  {
    var foot' := foot[i := f];
    forall o | o in Union(foot') ensures o in (Union(foot) - foot[i]) + f {
      var j :| 0 <= j < |foot'| && o in foot'[j];
      if j != i {
        assert o in foot[j];
      }
    }
    forall o | o in (Union(foot) - foot[i]) + f ensures o in Union(foot') {
      if o in f {
        assert o in foot'[i];
      } else {
        var j :| 0 <= j < |foot| && o in foot[j];
        assert o in foot'[j];
      }
    }
  }

  /** The blocks of the nodes of a linked structure. */
  ghost function Blocks(nodes: seq<object>): (r: set<object>)
    ensures forall i :: 0 <= i < |nodes| ==> nodes[i] in r
  {
    set i | 0 <= i < |nodes| :: nodes[i]
  }

  class Heap {
    ghost var live: set<object>

    constructor ()
      ensures live == {}
    {
      live := {};
    }

    ghost method Malloc(block: object)
      requires block !in live
      modifies this
      ensures live == old(live) + {block}
    {
      live := live + {block};
    }

    /** Freeing a block twice, or one that was never allocated, is not possible. */
    ghost method Free(block: object)
      requires block in live
      modifies this
      ensures live == old(live) - {block}
    {
      live := live - {block};
    }
  }
}
