/** queue.c on the heap: a doubly-linked list that is used first in, first out. */
module Queues {
  import opened Words
  import opened Memory
  import opened Window

  /** `head` leads towards the newest node, `tail` towards the oldest. */
  class QueueNode {
    var value: MemRef
    var head: QueueNode?
    var tail: QueueNode?

    constructor (value: MemRef)
      ensures this.value == value && head == null && tail == null
    {
      this.value := value;
      head := null;
      tail := null;
    }
  }

  ghost function NodeOf(nodes: seq<QueueNode>, i: int): QueueNode? {
    if 0 <= i < |nodes| then nodes[i] else null
  }

  ghost predicate Different(nodes: seq<QueueNode>) {
    forall i, j :: 0 <= i < j < |nodes| ==> nodes[i] != nodes[j]
  }

  /** Different nodes from the oldest to the newest, whose links are inverse to each other. */
  ghost predicate Chained(nodes: seq<QueueNode>, contents: seq<MemRef>)
    reads nodes
  {
    && Different(nodes) && |contents| == |nodes|
    && forall i :: 0 <= i < |nodes| ==>
         nodes[i].head == NodeOf(nodes, i + 1) && nodes[i].tail == NodeOf(nodes, i - 1) && nodes[i].value == contents[i]
  }

  /** A new node behind the newest, to which the newest already points. */
  lemma ChainedSnoc(nodes: seq<QueueNode>, contents: seq<MemRef>, node: QueueNode)
    requires Different(nodes) && |contents| == |nodes| && node !in nodes
    requires forall i :: 0 <= i < |nodes| ==>
               nodes[i].head == (if i + 1 == |nodes| then node else NodeOf(nodes, i + 1))
               && nodes[i].tail == NodeOf(nodes, i - 1) && nodes[i].value == contents[i]
    requires node.head == null && node.tail == NodeOf(nodes, |nodes| - 1)
    ensures Chained(nodes + [node], contents + [node.value])
  {
    var all := nodes + [node];
    forall i | 0 <= i < |all|
      ensures all[i].head == NodeOf(all, i + 1) && all[i].tail == NodeOf(all, i - 1)
              && all[i].value == (contents + [node.value])[i]
    {
      assert i < |nodes| ==> all[i] == nodes[i];
      assert i + 1 < |nodes| ==> all[i + 1] == nodes[i + 1];
      assert all[|nodes|] == node;
      assert i > 0 ==> all[i - 1] == nodes[i - 1];
    }
  }

  /** Without the oldest node, once the next one no longer points to it. */
  lemma ChainedRest(nodes: seq<QueueNode>, contents: seq<MemRef>)
    requires nodes != [] && Different(nodes) && |contents| == |nodes|
    requires forall i :: 1 <= i < |nodes| ==>
               nodes[i].head == NodeOf(nodes, i + 1) && nodes[i].value == contents[i]
               && nodes[i].tail == (if i == 1 then null else NodeOf(nodes, i - 1))
    ensures Chained(nodes[1..], contents[1..])
  {
    var rest := nodes[1..];
    forall i | 0 <= i < |rest|
      ensures rest[i].head == NodeOf(rest, i + 1) && rest[i].tail == NodeOf(rest, i - 1)
              && rest[i].value == contents[1..][i]
    {
      assert rest[i] == nodes[i + 1];
      assert i > 0 ==> rest[i - 1] == nodes[i];
      assert i + 1 < |rest| ==> rest[i + 1] == nodes[i + 2];
    }
  }

  lemma BlocksSnoc(nodes: seq<QueueNode>, node: QueueNode)
    ensures Blocks(nodes + [node]) == Blocks(nodes) + {node}
  {
    assert (nodes + [node])[|nodes|] == node;
    forall i | 0 <= i < |nodes| ensures (nodes + [node])[i] == nodes[i] {
    }
    forall b | b in Blocks(nodes) ensures b in Blocks(nodes + [node]) {
      var i :| 0 <= i < |nodes| && nodes[i] == b;
      assert (nodes + [node])[i] == b;
    }
  }

  lemma BlocksFirst(nodes: seq<QueueNode>)
    requires nodes != [] && Different(nodes)
    ensures Blocks(nodes[1..]) == Blocks(nodes) - {nodes[0]}
  {
    forall b | b in Blocks(nodes) - {nodes[0]} ensures b in Blocks(nodes[1..]) {
      var i :| 0 <= i < |nodes| && nodes[i] == b;
      assert nodes[1..][i - 1] == b;
    }
  }

  class Queue {
    var size: Ull
    var head: QueueNode?
    var tail: QueueNode?

    // The nodes from the oldest on, and what they hold.
    ghost var nodes: seq<QueueNode>
    ghost var contents: seq<MemRef>

    ghost predicate Valid()
      reads this, nodes
    {
      && Chained(nodes, contents) && size == |nodes|
      && tail == NodeOf(nodes, 0) && head == NodeOf(nodes, |nodes| - 1)
    }

    ghost function Repr(): set<object>
      reads this
    {
      {this} + Blocks(nodes)
    }

    ghost predicate Owned(heap: Heap)
      reads this, heap
    {
      heap !in Repr() && Repr() <= heap.live
    }

    /** new_queue */
    constructor (ghost heap: Heap)
      modifies heap
      ensures Valid() && contents == [] && fresh(this)
      ensures Repr() == {this} && heap.live == old(heap.live) + {this}
    {
      size := 0;
      head := null;
      tail := null;
      nodes := [];
      contents := [];
      new;
      heap.Malloc(this);
    }

    /** enqueue; every queued reference occupies memory, so there are never 2^64 of them */
    method Enqueue(value: MemRef, ghost heap: Heap)
      requires Valid() && Owned(heap) && |contents| + 1 < WORD
      modifies Repr(), heap
      ensures Valid() && Owned(heap) && contents == old(contents) + [value] && size == |contents|
      ensures fresh(Repr() - old(Repr())) && Conserved(old(heap.live), old(Repr()), heap.live, Repr())
    {
      hide Blocks, Conserved, Chained;
      var node := new QueueNode(value);
      heap.Malloc(node);
      BlocksSnoc(nodes, node);
      ConservedMalloc(old(heap.live), Repr(), node);
      assert node !in nodes;
      Link(node);
      assert Repr() == old(Repr()) + {node};
    }

    /** The pointer changes of enqueue. */
    method Link(node: QueueNode)
      requires Valid() && |contents| + 1 < WORD && node !in nodes && node.head == null && node.tail == null
      modifies this, nodes, node
      ensures Valid() && size == |contents| && contents == old(contents) + [old(node.value)]
              && nodes == old(nodes) + [node]
    {
      hide Blocks;
      if head == null {
        head := node;
        tail := node;
      } else {
        head.head := node;
        node.tail := head;
        head := node;
      }
      size := Inc(size);
      nodes := nodes + [node];
      contents := contents + [node.value];
      ChainedSnoc(old(nodes), old(contents), node);
    }

    /** dequeue: the oldest value, or the empty reference when there is none */
    method Dequeue(ghost heap: Heap) returns (value: MemRef)
      requires Valid() && Owned(heap)
      modifies Repr(), heap
      ensures Valid() && Owned(heap) && size == |contents|
      ensures if old(contents) == [] then value == MemRef(0, 0) && contents == []
              else value == old(contents)[0] && contents == old(contents)[1..]
      ensures Repr() <= old(Repr()) && Conserved(old(heap.live), old(Repr()), heap.live, Repr())
    {
      hide Blocks, Conserved, Chained;
      ConservedSame(heap.live, Repr());
      if tail != null {
        var node := tail;
        value := node.value;
        Oldest();
        ConservedFree(heap.live, Repr(), node);
        Unlink(node);
        heap.Free(node);
        assert Repr() == old(Repr()) - {node};
      } else {
        Oldest();
        value := MemRef(0, 0);
      }
    }

    lemma Oldest()
      requires Valid()
      ensures (tail == null <==> contents == []) && size == |contents| == |nodes|
      ensures tail != null ==>
                tail == nodes[0] && tail.value == contents[0] && {this} + Blocks(nodes[1..]) == Repr() - {tail}
    {
      if tail != null {
        BlocksFirst(nodes);
      }
    }

    /** The pointer changes of dequeue. */
    method Unlink(node: QueueNode)
      requires Valid() && nodes != [] && node == tail
      modifies this, nodes
      ensures Valid() && size == |contents| && nodes == old(nodes)[1..] && contents == old(contents)[1..]
    {
      hide Blocks;
      if size == 1 {
        head := null;
        tail := null;
      } else {
        tail := node.head;
        tail.tail := null;
      }
      size := Dec(size);
      nodes := nodes[1..];
      contents := contents[1..];
      ChainedRest(old(nodes), old(contents));
    }

    /** destroy_queue */
    method Destroy(ghost heap: Heap)
      requires Valid() && Owned(heap)
      modifies Repr(), heap
      ensures heap.live == old(heap.live) - old(Repr())
    {
      hide Blocks, Conserved;
      ConservedSame(heap.live, Repr());
      while size != 0
        invariant Valid() && Owned(heap) && Repr() <= old(Repr())
        invariant Conserved(old(heap.live), old(Repr()), heap.live, Repr())
        decreases size
      {
        ghost var live, owned := heap.live, Repr();
        var value := Dequeue(heap);
        ConservedSteps(old(heap.live), old(Repr()), live, owned, heap.live, Repr());
      }
      OnlyHeader();
      ghost var live := heap.live;
      heap.Free(this);
      AllFreed(old(heap.live), old(Repr()), live, this);
    }

    lemma OnlyHeader()
      requires Valid() && size == 0
      ensures Repr() == {this}
    {
    }
  }

  lemma AllFreed(live: set<object>, owned: set<object>, live': set<object>, last: object)
    requires Conserved(live, owned, live', {last})
    ensures live' - {last} == live - owned
  {
  }
}
