/** linkedlist.c on the heap: nodes, pointers, and the count field. */
module LinkedLists {
  import opened Words
  import opened AssociationList
  import opened Memory

  class SllNode {
    var entry: KeyValue
    var next: SllNode?

    constructor (entry: KeyValue)
      ensures this.entry == entry && next == null
    {
      this.entry := entry;
      next := null;
    }
  }

  lemma BlocksCons(node: SllNode, nodes: seq<SllNode>)
    ensures Blocks([node] + nodes) == {node} + Blocks(nodes)
  {
    forall b: object | b in {node} + Blocks(nodes) ensures b in Blocks([node] + nodes) {
      assert ([node] + nodes)[0] == node;
      if b != node {
        var i :| 0 <= i < |nodes| && nodes[i] == b;
        assert ([node] + nodes)[i + 1] == b;
      }
    }
  }

  lemma BlocksSnoc(nodes: seq<SllNode>, i: nat)
    requires i < |nodes| && Different(nodes)
    ensures Blocks(nodes[..i + 1]) == Blocks(nodes[..i]) + {nodes[i]}
    ensures nodes[i] !in Blocks(nodes[..i])
  {
    assert forall j :: 0 <= j < i ==> nodes[..i][j] == nodes[..i + 1][j];
    assert nodes[..i + 1][i] == nodes[i];
  }

  lemma NoBlocks()
    ensures Blocks([]) == {}
  {
  }

  /** A list header is not one of its nodes. */
  lemma NotANode(list: LinkedList, nodes: seq<SllNode>)
    ensures list !in Blocks(nodes)
  {
  }

  lemma BlocksWithout(nodes: seq<SllNode>, i: nat)
    requires i < |nodes| && Different(nodes)
    ensures Blocks(Without(nodes, i)) == Blocks(nodes) - {nodes[i]}
  {
    var rest := Without(nodes, i);
    assert forall j :: 0 <= j < |rest| ==> rest[j] == nodes[if j < i then j else j + 1];
    forall b: object | b in Blocks(nodes) - {nodes[i]} ensures b in Blocks(rest) {
      var j :| 0 <= j < |nodes| && nodes[j] == b;
      assert rest[if j < i then j else j - 1] == b;
    }
  }

  ghost function NodeOf(nodes: seq<SllNode>, i: nat): SllNode? {
    if i < |nodes| then nodes[i] else null
  }

  ghost predicate Different(nodes: seq<SllNode>) {
    forall i, j :: 0 <= i < j < |nodes| ==> nodes[i] != nodes[j]
  }

  /** Different nodes, linked in this order, that hold these entries. */
  ghost predicate Chained(nodes: seq<SllNode>, items: seq<KeyValue>)
    reads nodes
  {
    && Different(nodes)
    && |items| == |nodes|
    && forall i :: 0 <= i < |nodes| ==> nodes[i].next == NodeOf(nodes, i + 1) && nodes[i].entry == items[i]
  }

  lemma ChainedCons(node: SllNode, nodes: seq<SllNode>, items: seq<KeyValue>)
    requires Chained(nodes, items) && node !in nodes && node.next == NodeOf(nodes, 0)
    ensures Chained([node] + nodes, [node.entry] + items)
  {
    assert forall i :: 0 <= i < |nodes| ==> ([node] + nodes)[i + 1] == nodes[i];
  }

  function Without<T>(s: seq<T>, i: nat): (r: seq<T>)
    requires i < |s|
    ensures |r| == |s| - 1
    ensures forall j :: 0 <= j < i ==> r[j] == s[j]
    ensures forall j :: i <= j < |r| ==> r[j] == s[j + 1]
  {
    s[..i] + s[i + 1..]
  }

  lemma WithoutUpdated<T>(s: seq<T>, i: nat, x: T)
    requires i < |s|
    ensures Without(s[i := x], i) == s[..i] + s[i + 1..]
  {
  }

  lemma DifferentWithout(nodes: seq<SllNode>, i: nat)
    requires i < |nodes| && Different(nodes)
    ensures Different(Without(nodes, i))
  {
    hide Without;
    var rest := Without(nodes, i);
    assert forall j :: 0 <= j < |rest| ==> rest[j] == nodes[if j < i then j else j + 1];
  }

  /** Once its predecessor points past it, a node can be left out. */
  lemma ChainedWithout(nodes: seq<SllNode>, items: seq<KeyValue>, i: nat)
    requires Different(nodes)
    requires i < |nodes| == |items| && forall j :: 0 <= j < |nodes| ==> nodes[j].entry == items[j]
    requires forall j :: 0 <= j < |nodes| && j != i ==>
               nodes[j].next == NodeOf(nodes, if j + 1 == i then i + 1 else j + 1)
    ensures Chained(Without(nodes, i), Without(items, i))
  {
    hide Without, Different;
    DifferentWithout(nodes, i);
    var rest := Without(nodes, i);
    forall j | 0 <= j < |rest| ensures rest[j].next == NodeOf(rest, j + 1) {
      if j < i {
        assert rest[j] == nodes[j];
      } else {
        assert rest[j] == nodes[j + 1];
      }
    }
  }

  class LinkedList {
    var count: Ull
    var head: SllNode?

    // The nodes from the head on, and their entries.
    ghost var nodes: seq<SllNode>
    ghost var items: seq<KeyValue>

    ghost predicate Valid()
      reads this, nodes
    {
      head == NodeOf(nodes, 0) && Chained(nodes, items)
    }

    ghost function Model(): SList
      reads this
    {
      SList(count, items)
    }

    /** The blocks that this list owns. */
    ghost function Repr(): (r: set<object>)
      reads this
    {
      {this} + Blocks(nodes)
    }

    /** Everything owned is allocated. */
    ghost predicate Owned(heap: Heap)
      reads this, heap
    {
      heap !in Repr() && Repr() <= heap.live
    }

    /** new_linked_list */
    constructor (ghost heap: Heap)
      modifies heap
      ensures Valid() && Model() == EMPTY_LIST && fresh(this)
      ensures Repr() == {this} && heap.live == old(heap.live) + {this}
    {
      count := 0;
      head := null;
      nodes := [];
      items := [];
      new;
      heap.Malloc(this);
    }

    /** destroy_linked_list */
    method Destroy(ghost heap: Heap)
      requires Valid() && Owned(heap)
      modifies heap
      ensures heap.live == old(heap.live) - Repr()
    {
      hide Blocks;
      NoBlocks();
      var node := head;
      ghost var i := 0;
      assert nodes[..0] == [] && nodes[..|nodes|] == nodes;
      while node != null
        invariant i <= |nodes| && node == NodeOf(nodes, i)
        invariant heap.live == old(heap.live) - Blocks(nodes[..i])
        decreases |nodes| - i
      {
        var oldNode := node;
        node := node.next;
        BlocksSnoc(nodes, i);
        heap.Free(oldNode);
        i := i + 1;
      }
      NotANode(this, nodes);
      heap.Free(this);
    }

    /** sll_find */
    method Find(key: Ull) returns (node: SllNode?, ghost i: nat)
      requires Valid()
      ensures node == NodeOf(nodes, IndexOf(items, key)) && i == IndexOf(items, key) && |items| == |nodes|
      ensures node != null ==> node.entry == items[i]
    {
      node := head;
      i := 0;
      while node != null
        invariant i <= |nodes| && node == NodeOf(nodes, i)
        invariant forall j :: 0 <= j < i ==> items[j].key != key
        decreases |nodes| - i
      {
        if node.entry.key == key {
          break;
        }
        node := node.next;
        i := i + 1;
      }
    }

    /** sll_put_key_value */
    method PutKeyValue(entry: KeyValue, ghost heap: Heap)
      requires Valid() && Owned(heap)
      modifies this, heap
      ensures Valid() && Owned(heap) && Model() == Push(old(Model()), entry)
      ensures items == [entry] + old(items) && count == (old(count) + 1) % WORD
      ensures |nodes| == |old(nodes)| + 1 && nodes[1..] == old(nodes) && fresh(nodes[0])
      ensures fresh(Repr() - old(Repr())) && Conserved(old(heap.live), old(Repr()), heap.live, Repr())
    {
      hide Blocks, Conserved, Chained;
      var newHead := new SllNode(entry);
      heap.Malloc(newHead);
      if head != null {
        newHead.next := head;
      } else {
        newHead.next := null;
      }
      BlocksCons(newHead, nodes);
      ConservedMalloc(old(heap.live), Repr(), newHead);
      ChainedCons(newHead, nodes, items);
      head := newHead;
      count := Inc(count);
      nodes := [newHead] + nodes;
      items := [entry] + items;
      assert Repr() == old(Repr()) + {newHead};
    }

    /** Assigning to the value of the node at position i. */
    method SetValue(node: SllNode, value: Ull, ghost i: nat)
      requires Valid() && i < |nodes| && i < |items| && node == nodes[i]
      modifies `items, node`entry
      ensures Valid() && items == old(items)[i := KeyValue(old(items)[i].key, value)] && node.entry.value == value
    {
      node.entry := KeyValue(node.entry.key, value);
      items := items[i := node.entry];
    }

    /** sll_add, with sll_insert */
    method Add(key: Ull, ghost heap: Heap)
      requires Valid() && Owned(heap)
      modifies this, nodes, heap
      ensures Valid() && Owned(heap) && Model() == AddKey(old(Model()), key)
      ensures var i := IndexOf(old(items), key);
              if i < |old(items)| then
                && nodes == old(nodes) && count == old(count)
                && items == old(items)[i := KeyValue(key, (old(items)[i].value + 1) % WORD)]
              else
                && |nodes| == |old(nodes)| + 1 && nodes[1..] == old(nodes) && fresh(nodes[0])
                && items == [KeyValue(key, 1)] + old(items)
      ensures fresh(Repr() - old(Repr())) && Conserved(old(heap.live), old(Repr()), heap.live, Repr())
    {
      hide Blocks, IndexOf, Conserved, Chained;
      ConservedSame(heap.live, Repr());
      var node, i := Find(key);
      if node != null {
        SetValue(node, Inc(node.entry.value), i);
      } else {
        PutKeyValue(KeyValue(key, 1), heap);
      }
    }

    /** sll_delete: unlink and free the node at position i, whose predecessor is given. */
    method Delete(node: SllNode, previous: SllNode?, ghost i: nat, ghost heap: Heap)
      requires Valid() && Owned(heap)
      requires i < |nodes| && node == nodes[i] && previous == if i == 0 then null else nodes[i - 1]
      modifies this, nodes, heap
      ensures Valid() && Owned(heap)
      ensures Model() == SList(Dec(old(count)), Without(old(items), i)) && nodes == Without(old(nodes), i)
      ensures Repr() <= old(Repr()) && Conserved(old(heap.live), old(Repr()), heap.live, Repr())
    {
      hide Blocks, Without, Conserved, Chained;
      FreeOne(i);
      ConservedFree(heap.live, Repr(), node);
      count := Dec(count);
      Unlink(node, previous, i);
      heap.Free(node);
      assert Repr() == old(Repr()) - {node};
    }

    lemma FreeOne(i: nat)
      requires Valid() && i < |nodes|
      ensures nodes[i] in Repr() && {this} + Blocks(Without(nodes, i)) == Repr() - {nodes[i]}
    {
      hide Blocks, Without;
      BlocksWithout(nodes, i);
      NotANode(this, nodes);
    }

    /** The pointer change of sll_delete. */
    method Unlink(node: SllNode, previous: SllNode?, ghost i: nat)
      requires Valid()
      requires i < |nodes| && node == nodes[i] && previous == if i == 0 then null else nodes[i - 1]
      modifies `head, `nodes, `items, nodes
      ensures Valid() && nodes == Without(old(nodes), i) && items == Without(old(items), i)
    {
      hide Without;
      if previous != null {
        previous.next := node.next;
      } else {
        head := node.next;
      }
      ChainedWithout(nodes, items, i);
      nodes := Without(nodes, i);
      items := Without(items, i);
    }

    /** The walk of sll_remove, which keeps the node before. */
    method FindWithPrevious(key: Ull) returns (node: SllNode?, previous: SllNode?, ghost i: nat)
      requires Valid()
      ensures node == NodeOf(nodes, IndexOf(items, key)) && i == IndexOf(items, key) && |items| == |nodes|
      ensures node != null ==> node.entry == items[i]
      ensures previous == if i == 0 then null else nodes[i - 1]
    {
      node := head;
      previous := null;
      i := 0;
      while node != null
        invariant i <= |nodes| && node == NodeOf(nodes, i)
        invariant previous == if i == 0 then null else nodes[i - 1]
        invariant forall j :: 0 <= j < i ==> items[j].key != key
        decreases |nodes| - i
      {
        if node.entry.key == key {
          break;
        }
        previous := node;
        node := node.next;
        i := i + 1;
      }
    }

    /** sll_remove */
    method Remove(key: Ull, ghost heap: Heap)
      requires Valid() && Owned(heap)
      modifies this, nodes, heap
      ensures Valid() && Owned(heap) && Model() == RemoveKey(old(Model()), key)
      ensures var i := IndexOf(old(items), key);
              if i < |old(items)| then
                var value := (old(items)[i].value - 1) % WORD;
                if value == 0 then
                  && i < |old(nodes)| && nodes == old(nodes)[..i] + old(nodes)[i + 1..]
                  && items == old(items)[..i] + old(items)[i + 1..]
                else
                  nodes == old(nodes) && items == old(items)[i := KeyValue(key, value)]
              else
                nodes == old(nodes) && items == old(items)
      ensures Repr() <= old(Repr()) && Conserved(old(heap.live), old(Repr()), heap.live, Repr())
    {
      hide Blocks, IndexOf, Conserved, Chained;
      ConservedSame(heap.live, Repr());
      var node, previous, i := FindWithPrevious(key);
      if node != null {
        SetValue(node, Dec(node.entry.value), i);
        if node.entry.value == 0 {
          WithoutUpdated(old(items), i, items[i]);
          Delete(node, previous, i, heap);
        }
      }
    }

    lemma HeadIsFirst()
      requires Valid()
      ensures |nodes| == |items| && (head == null <==> nodes == [])
      ensures nodes != [] ==> head == nodes[0] && head.entry == items[0]
      ensures nodes != [] ==> Without(items, 0) == items[1..] && Without(nodes, 0) == nodes[1..]
    {
    }

    /** sll_pop. As written, count is lowered a second time after sll_delete. */
    method Pop(v: Variant, ghost heap: Heap) returns (entry: Option<KeyValue>)
      requires Valid() && Owned(heap)
      modifies this, nodes, heap
      ensures Valid() && Owned(heap)
      ensures entry == if old(items) == [] then None else Some(old(items)[0])
      ensures Model() == if old(items) == [] then old(Model()) else Popped(v, old(Model()))
      ensures old(items) == [] <==> old(nodes) == []
      ensures old(items) != [] ==>
                && items == old(items)[1..] && old(nodes) != [] && nodes == old(nodes)[1..]
                && count == (old(count) - if v.AsWritten? then 2 else 1) % WORD
      ensures Repr() <= old(Repr()) && Conserved(old(heap.live), old(Repr()), heap.live, Repr())
    {
      hide Blocks, Conserved, Different, Chained, Without;
      ConservedSame(heap.live, Repr());
      HeadIsFirst();
      if head != null {
        entry := Some(head.entry);
        Delete(head, null, 0, heap);
        if v.AsWritten? {
          count := Dec(count);
        }
      } else {
        entry := None;
      }
    }
  }
}
