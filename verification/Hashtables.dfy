/** hashtable.c on the heap: tables with sixteen buckets that own lists and deeper tables. */
module Hashtables {
  import opened Words
  import opened AssociationList
  import opened Trie
  import opened Memory
  import opened LinkedLists

  /** `struct bucket`, which lies inside the table; `table` is null until the bucket is expanded,
      `list` only until the table is set up. */
  datatype Cell = Cell(table: Hashtable?, list: LinkedList?)

  /** The footprint f holds exactly what the cell owns, in the state that the bucket b describes. */
  ghost predicate CellValid(c: Cell, f: set<object>, b: Bucket, level: nat)
    reads f
    decreases b
  {
    && c.list != null && c.list in f && c.list.Repr() <= f && c.list.Valid() && c.list.Model() == b.list
    && (c.table != null <==> b.Deep?)
    && (c.table == null ==> f == c.list.Repr())
    && (c.table != null ==>
          && c.table in f && c.table.Repr <= f && c.table.Repr !! c.list.Repr()
          && f == c.list.Repr() + c.table.Repr
          && c.table.level == level && c.table.model == b.table && c.table.Valid())
  }

  /** What a valid cell offers to code that works on it. */
  ghost predicate CellOpen(c: Cell, f: set<object>, b: Bucket, level: nat)
    reads f
  {
    && c.list != null && c.list in f && c.list.Repr() <= f && c.list.Valid() && c.list.Model() == b.list
    && (c.table == null ==> b.Flat? && f == c.list.Repr())
    && (c.table != null ==>
          && b.Deep? && c.table in f && c.table.Repr <= f && c.table in c.table.Repr && c.table.Valid()
          && c.table.model == b.table && c.table.level == level && c.table.count == b.table.count
          && f - c.table.Repr == c.list.Repr())
  }

  lemma CellOpens(c: Cell, f: set<object>, b: Bucket, level: nat)
    requires CellValid(c, f, b, level)
    ensures CellOpen(c, f, b, level)
  {
  }

  class Hashtable {
    var count: Ull
    var level: nat
    var shifts: nat
    const bucket: array<Cell>

    // The value of the table, the footprint of each cell, and everything the table owns.
    ghost var model: Table
    ghost var foot: seq<set<object>>
    ghost var Repr: set<object>

    ghost predicate Valid()
      reads this, Repr
      decreases model
    {
      Skeleton(TABLE_SIZE) && count == model.count
    }

    /** Everything but one cell is in order; with i == TABLE_SIZE, every cell is. */
    ghost predicate Skeleton(i: nat)
      reads this, Repr
      decreases model, 0
    {
      && Frame()
      && forall j :: 0 <= j < TABLE_SIZE && j != i ==> CellValid(bucket[j], foot[j], model.buckets[j], level + 1)
    }

    ghost predicate Frame()
      reads this
    {
      && bucket.Length == TABLE_SIZE && |foot| == TABLE_SIZE && |model.buckets| == TABLE_SIZE
      && level <= LAST_LEVEL && shifts == 4 * level
      && Repr == {this, bucket} + Union(foot)
      && this !in Union(foot) && bucket !in Union(foot) && Disjoint(foot)
    }

    /** Footprints of different cells share nothing, nor do they hold the table itself. */
    lemma Apart(i: nat, j: nat)
      requires Frame() && i < TABLE_SIZE && j < TABLE_SIZE
      ensures foot[i] <= Repr && this !in foot[i] && bucket !in foot[i]
      ensures i != j ==> foot[j] <= Repr - foot[i]
    {
    }

    /** A table whose cells are all filled is an empty table. */
    ghost method Assemble()
      requires Filled(TABLE_SIZE) && model == NewTable() && count == 0
      requires level <= LAST_LEVEL && shifts == 4 * level
      modifies `Repr
      ensures Valid() && Repr == {this, bucket} + Union(foot)
    {
      hide CellValid, Union, Disjoint, NewTable;
      NewTableBuckets();
      forall j | 0 <= j < TABLE_SIZE ensures this !in foot[j] {
        assert foot[j] <= Union(foot);
      }
      Repr := {this, bucket} + Union(foot);
      assert Skeleton(TABLE_SIZE);
    }

    /** Once the one cell is in order again, so is the table. */
    ghost method Restore(i: nat, f: set<object>, b: Bucket)
      requires i < TABLE_SIZE && Skeleton(i)
      requires CellValid(bucket[i], f, b, level + 1)
      requires f !! (Repr - foot[i])
      modifies `foot, `model, `Repr
      ensures Valid() && model == old(model).With(i, b, count)
      ensures Repr == (old(Repr) - old(foot[i])) + f
      ensures foot == old(foot)[i := f]
    {
      hide CellValid, Union, Disjoint;
      forall j | 0 <= j < TABLE_SIZE && j != i ensures foot[j] !! f && this !in foot[j] {
        Apart(i, j);
      }
      UnionUpdate(foot, i, f);
      foot := foot[i := f];
      model := model.With(i, b, count);
      Repr := {this, bucket} + Union(foot);
    }

    /** The first i cells of a new table hold empty lists. */
    ghost predicate Filled(i: nat)
      reads this, bucket, Union(foot)
    {
      && i <= bucket.Length == TABLE_SIZE && |foot| == i && Disjoint(foot)
      && this !in Union(foot) && bucket !in Union(foot)
      && forall j :: 0 <= j < i ==> CellValid(bucket[j], foot[j], Flat(EMPTY_LIST), level + 1)
    }

    /** _new_hashtable */
    constructor (level: nat, ghost heap: Heap)
      requires level <= LAST_LEVEL
      modifies heap
      ensures Valid() && model == NewTable() && this.level == level
      ensures fresh(Repr) && heap.live == old(heap.live) + Repr && count == 0
    {
      count := 0;
      this.level := level;
      var bits := GetPowerOfTwo(TABLE_SIZE);
      BitsPerLevel(bits);
      shifts := bits * level;
      bucket := new Cell[TABLE_SIZE](_ => Cell(null, null));
      model := NewTable();
      foot := [];
      Repr := {};
      new;
      SetUp(heap);
    }

    method SetUp(ghost heap: Heap)
      requires bucket.Length == TABLE_SIZE && foot == [] && model == NewTable() && count == 0
      requires level <= LAST_LEVEL && shifts == 4 * level && this !in heap.live && bucket !in heap.live
      modifies `foot, `Repr, bucket, heap
      ensures Valid() && fresh(Repr - {this, bucket}) && heap.live == old(heap.live) + Repr
    {
      hide Blocks, Valid, LinkedList.Valid, Skeleton, CellValid, Union, Disjoint, NewTable, Filled;
      heap.Malloc(this);
      heap.Malloc(bucket);
      FillCells(heap);
      Assemble();
    }

    /** The loop over the cells. */
    method FillCells(ghost heap: Heap)
      requires bucket.Length == TABLE_SIZE && foot == []
      modifies `foot, bucket, heap
      ensures Filled(TABLE_SIZE) && fresh(Union(foot)) && heap.live == old(heap.live) + Union(foot)
    {
      hide CellValid, Union, Disjoint;
      UnionEmpty();
      for i := 0 to TABLE_SIZE
        invariant Filled(i) && fresh(Union(foot))
        invariant heap.live == old(heap.live) + Union(foot)
      {
        FillCell(i, heap);
      }
    }

    method FillCell(i: nat, ghost heap: Heap)
      requires i < TABLE_SIZE && Filled(i) && heap !in Union(foot)
      modifies `foot, bucket, heap
      ensures Filled(i + 1)
      ensures fresh(Union(foot) - old(Union(foot))) && heap.live == old(heap.live) + (Union(foot) - old(Union(foot)))
      ensures old(Union(foot)) <= Union(foot)
    {
      hide CellValid, Union, Disjoint;
      var list := new LinkedList(heap);
      bucket[i] := Cell(null, list);
      FlatCell(bucket[i], level + 1);
      UnionSnoc(foot, {list});
      foot := foot + [{list}];
      FilledKept(i);
    }

    twostate lemma FilledKept(i: nat)
      requires i < TABLE_SIZE && old(Filled(i)) && bucket.Length == TABLE_SIZE && level == old(level)
      requires |foot| == i + 1 && foot[..i] == old(foot)
      requires forall j :: 0 <= j < i ==> bucket[j] == old(bucket[j])
      requires unchanged(old(Union(foot)))
      ensures forall j :: 0 <= j < i ==> CellValid(bucket[j], foot[j], Flat(EMPTY_LIST), level + 1)
    {
      hide CellValid, Union, Disjoint;
      forall j | 0 <= j < i ensures CellValid(bucket[j], foot[j], Flat(EMPTY_LIST), level + 1) {
        assert foot[j] == old(foot[j]) && foot[j] <= old(Union(foot));
        assert old(CellValid(bucket[j], foot[j], Flat(EMPTY_LIST), level + 1));
        assert forall o :: o in foot[j] ==> unchanged(o);
      }
    }

    /** Everything owned is allocated. */
    ghost predicate Owned(heap: Heap)
      reads this, heap
    {
      heap !in Repr && Repr <= heap.live
    }

    /** What Valid says about one cell. */
    lemma OpenCell(i: nat)
      requires Valid() && i < TABLE_SIZE
      ensures Frame() && Skeleton(i) && count == model.count
      ensures foot[i] <= Repr && this !in foot[i] && bucket !in foot[i]
      ensures CellOpen(bucket[i], foot[i], model.buckets[i], level + 1)
    {
      hide CellValid, Union, Disjoint, CellOpen;
      Apart(i, i);
      assert CellValid(bucket[i], foot[i], model.buckets[i], level + 1);
      CellOpens(bucket[i], foot[i], model.buckets[i], level + 1);
    }

    /** Changes inside one cell's footprint leave the other cells in order. */
    twostate lemma OthersKept(i: nat)
      requires i < TABLE_SIZE && old(Skeleton(i)) && Frame()
      requires foot == old(foot) && model == old(model) && Repr == old(Repr)
      requires level == old(level) && shifts == old(shifts)
      requires forall j :: 0 <= j < TABLE_SIZE && j != i ==> bucket[j] == old(bucket[j])
      requires forall o :: o in Repr - foot[i] && o != this && o != bucket ==> unchanged(o)
      ensures Skeleton(i)
    {
      hide CellValid, Union, Disjoint;
      forall j | 0 <= j < TABLE_SIZE && j != i
        ensures CellValid(bucket[j], foot[j], model.buckets[j], level + 1)
      {
        Apart(i, j);
        Apart(j, j);
        assert old(CellValid(bucket[j], foot[j], model.buckets[j], level + 1));
        assert forall o :: o in foot[j] ==> unchanged(o);
      }
    }

    /** Putting a changed cell back: the table is in order, and nothing but the cell's own blocks changed. */
    ghost method Close(i: nat, f: set<object>, b: Bucket, live: set<object>, heap: Heap)
      requires i < TABLE_SIZE && Skeleton(i)
      requires CellValid(bucket[i], f, b, level + 1)
      requires Repr <= live && Conserved(live, foot[i], heap.live, f) && heap !in f + Repr
      modifies `foot, `model, `Repr
      ensures Valid() && Owned(heap) && model == old(model).With(i, b, count)
      ensures Repr == (old(Repr) - old(foot[i])) + f && Conserved(live, old(Repr), heap.live, Repr)
      ensures foot == old(foot)[i := f]
    {
      hide CellValid, Union, Disjoint;
      Apart(i, i);
      ConservedPart(live, foot[i], heap.live, f, Repr);
      Restore(i, f, b);
    }

    /** The same when the cell's table changed and its list did not. */
    ghost method CloseTable(i: nat, live: set<object>, owned: set<object>, heap: Heap)
      requires i < TABLE_SIZE && Skeleton(i) && bucket[i].table != null && bucket[i].list != null
      requires var c := bucket[i];
               && c.list.Valid() && c.table.Valid() && c.table.level == level + 1
               && owned <= foot[i] && c.list.Repr() == foot[i] - owned
               && Conserved(live, owned, heap.live, c.table.Repr) && heap !in c.table.Repr
      requires Repr <= live && heap !in Repr
      modifies `foot, `model, `Repr
      ensures Valid() && Owned(heap)
      ensures model == old(model).With(i, Deep(bucket[i].list.Model(), bucket[i].table.model), count)
      ensures Repr <= old(Repr) + bucket[i].table.Repr && Conserved(live, old(Repr), heap.live, Repr)
    {
      hide Union, Disjoint, Conserved;
      var c := bucket[i];
      Apart(i, i);
      ConservedPart(live, owned, heap.live, c.table.Repr, foot[i]);
      Close(i, c.list.Repr() + c.table.Repr, Deep(c.list.Model(), c.table.model), live, heap);
    }

    /** put */
    method Put(key: Ull, v: Variant, ghost path: seq<nat>, ghost heap: Heap)
      requires Valid() && Owned(heap)
      requires |path| == level && Placed(path, model) && OnPath(key, path)
      modifies Repr, heap
      ensures Valid() && Owned(heap) && level == old(level) && count == model.count
      ensures model == Insert(v, level, old(model), Touch(key))
      ensures fresh(Repr - old(Repr)) && Conserved(old(heap.live), old(Repr), heap.live, Repr)
      decreases LAST_LEVEL - level, 3
    {
      hide Blocks, Valid, LinkedList.Valid, Skeleton, CellValid, Union, Disjoint, Conserved, Placed, Insert, OnPath,
           Shr;
      var index := Shr(key, shifts) % TABLE_SIZE;
      OpenCell(index);
      if bucket[index].table != null {
        PutBelow(index, key, v, path, heap);
      } else {
        PutHere(index, key, v, path, heap);
      }
    }

    /** put into a bucket that was expanded */
    method PutBelow(index: nat, key: Ull, v: Variant, ghost path: seq<nat>, ghost heap: Heap)
      requires Valid() && Owned(heap)
      requires |path| == level && Placed(path, model) && OnPath(key, path)
      requires index == Index(key, level) && index < bucket.Length && bucket[index].table != null
      modifies Repr, heap
      ensures Valid() && Owned(heap) && level == old(level) && count == model.count
      ensures model == Insert(v, level, old(model), Touch(key))
      ensures fresh(Repr - old(Repr)) && Conserved(old(heap.live), old(Repr), heap.live, Repr)
      decreases LAST_LEVEL - level, 2
    {
      hide Blocks, Valid, LinkedList.Valid, Skeleton, CellValid, Union, Disjoint, Conserved, Placed, Insert, OnPath,
           Shr;
      OpenCell(index);
      var c := bucket[index];
      PlacedChild(path, model, key);
      OnPathStep(key, path, index);
      var oldCount := c.table.count;
      c.table.Put(key, v, path + [index], heap);
      if oldCount != c.table.count {
        count := Inc(count);
      }
      InsertBelow(v, level, model, Touch(key), index, c.table.model, count);
      OthersKept(index);
      CloseTable(index, old(heap.live), old(c.table.Repr), heap);
    }

    /** put into a bucket that is still a list */
    method PutHere(index: nat, key: Ull, v: Variant, ghost path: seq<nat>, ghost heap: Heap)
      requires Valid() && Owned(heap)
      requires |path| == level && Placed(path, model) && OnPath(key, path)
      requires index == Index(key, level) && index < bucket.Length && bucket[index].table == null
      modifies Repr, heap
      ensures Valid() && Owned(heap) && level == old(level) && count == model.count
      ensures model == Insert(v, level, old(model), Touch(key))
      ensures fresh(Repr - old(Repr)) && Conserved(old(heap.live), old(Repr), heap.live, Repr)
      decreases LAST_LEVEL - level, 2
    {
      hide Blocks, Valid, LinkedList.Valid, Skeleton, CellValid, Union, Disjoint, Conserved, Placed, Insert, OnPath,
           Shr, AddKey, Settle;
      OpenCell(index);
      var c := bucket[index];
      PlacedChild(path, model, key);
      OnPathStep(key, path, index);
      EnterRefines(path + [index], c.list.Model(), Touch(key));
      var oldCount := c.list.count;
      c.list.Add(key, heap);
      if oldCount != c.list.count {
        count := Inc(count);
      }
      InsertHere(v, level, model, Touch(key), index, Settle(v, level, c.list.Model()), count);
      OthersKept(index);
      SettleBucket(index, v, path + [index], old(heap.live), heap);
    }

    /** hashtable_put_key_value */
    method PutKeyValue(entry: KeyValue, v: Variant, ghost path: seq<nat>, ghost heap: Heap)
      requires Valid() && Owned(heap)
      requires |path| == level && Placed(path, model) && OnPath(entry.key, path)
      requires Find(level, model, entry.key).None?
      modifies Repr, heap
      ensures Valid() && Owned(heap) && level == old(level) && count == model.count
      ensures model == Insert(v, level, old(model), Carry(entry.key, entry.value))
      ensures fresh(Repr - old(Repr)) && Conserved(old(heap.live), old(Repr), heap.live, Repr)
      decreases LAST_LEVEL - level, 3
    {
      hide Blocks, Valid, LinkedList.Valid, Skeleton, CellValid, Union, Disjoint, Conserved, Placed, Insert, OnPath,
           Shr, Find;
      var index := Shr(entry.key, shifts) % TABLE_SIZE;
      OpenCell(index);
      if bucket[index].table != null {
        PutKeyValueBelow(index, entry, v, path, heap);
      } else {
        PutKeyValueHere(index, entry, v, path, heap);
      }
    }

    /** hashtable_put_key_value into a bucket that was expanded */
    method PutKeyValueBelow(index: nat, entry: KeyValue, v: Variant, ghost path: seq<nat>, ghost heap: Heap)
      requires Valid() && Owned(heap)
      requires |path| == level && Placed(path, model) && OnPath(entry.key, path)
      requires Find(level, model, entry.key).None?
      requires index == Index(entry.key, level) && index < bucket.Length && bucket[index].table != null
      modifies Repr, heap
      ensures Valid() && Owned(heap) && level == old(level) && count == model.count
      ensures model == Insert(v, level, old(model), Carry(entry.key, entry.value))
      ensures fresh(Repr - old(Repr)) && Conserved(old(heap.live), old(Repr), heap.live, Repr)
      decreases LAST_LEVEL - level, 2
    {
      hide Blocks, Valid, LinkedList.Valid, Skeleton, CellValid, Union, Disjoint, Conserved, Placed, Insert, OnPath,
           Shr, Find;
      OpenCell(index);
      var c := bucket[index];
      PlacedChild(path, model, entry.key);
      OnPathStep(entry.key, path, index);
      var oldCount := c.table.count;
      c.table.PutKeyValue(entry, v, path + [index], heap);
      if oldCount != c.table.count {
        count := Inc(count);
      }
      InsertBelow(v, level, model, Carry(entry.key, entry.value), index, c.table.model, count);
      OthersKept(index);
      CloseTable(index, old(heap.live), old(c.table.Repr), heap);
    }

    /** hashtable_put_key_value into a bucket that is still a list */
    method PutKeyValueHere(index: nat, entry: KeyValue, v: Variant, ghost path: seq<nat>, ghost heap: Heap)
      requires Valid() && Owned(heap)
      requires |path| == level && Placed(path, model) && OnPath(entry.key, path)
      requires Find(level, model, entry.key).None?
      requires index == Index(entry.key, level) && index < bucket.Length && bucket[index].table == null
      modifies Repr, heap
      ensures Valid() && Owned(heap) && level == old(level) && count == model.count
      ensures model == Insert(v, level, old(model), Carry(entry.key, entry.value))
      ensures fresh(Repr - old(Repr)) && Conserved(old(heap.live), old(Repr), heap.live, Repr)
      decreases LAST_LEVEL - level, 2
    {
      hide Blocks, Valid, LinkedList.Valid, Skeleton, CellValid, Union, Disjoint, Conserved, Placed, Insert, OnPath,
           Shr, Find, Settle;
      OpenCell(index);
      var c := bucket[index];
      PlacedChild(path, model, entry.key);
      OnPathStep(entry.key, path, index);
      EnterRefines(path + [index], c.list.Model(), Carry(entry.key, entry.value));
      var oldCount := c.list.count;
      c.list.PutKeyValue(entry, heap);
      if oldCount != c.list.count {
        count := Inc(count);
      }
      InsertHere(v, level, model, Carry(entry.key, entry.value), index, Settle(v, level, c.list.Model()), count);
      OthersKept(index);
      SettleBucket(index, v, path + [index], old(heap.live), heap);
    }

    /** delete */
    method Delete(key: Ull, v: Variant, ghost path: seq<nat>, ghost heap: Heap)
      requires Valid() && Owned(heap)
      requires |path| == level && Placed(path, model) && OnPath(key, path)
      modifies Repr, heap
      ensures Valid() && Owned(heap) && level == old(level) && count == model.count
      ensures model == Trie.Delete(level, old(model), key)
      ensures fresh(Repr - old(Repr)) && Conserved(old(heap.live), old(Repr), heap.live, Repr)
      decreases LAST_LEVEL - level, 3
    {
      hide Blocks, Valid, LinkedList.Valid, Skeleton, CellValid, Union, Disjoint, Conserved, Placed, Trie.Delete,
           OnPath, Shr;
      var index := Shr(key, shifts) % TABLE_SIZE;
      OpenCell(index);
      if bucket[index].table != null {
        DeleteBelow(index, key, v, path, heap);
      } else {
        DeleteHere(index, key, v, path, heap);
      }
    }

    /** delete from a bucket that is a list */
    method DeleteHere(index: nat, key: Ull, v: Variant, ghost path: seq<nat>, ghost heap: Heap)
      requires Valid() && Owned(heap)
      requires |path| == level && Placed(path, model) && OnPath(key, path)
      requires index == Index(key, level) && index < bucket.Length && bucket[index].table == null
      modifies Repr, heap
      ensures Valid() && Owned(heap) && level == old(level) && count == model.count
      ensures model == Trie.Delete(level, old(model), key)
      ensures fresh(Repr - old(Repr)) && Conserved(old(heap.live), old(Repr), heap.live, Repr)
      decreases LAST_LEVEL - level, 2
    {
      hide Blocks, Valid, LinkedList.Valid, Skeleton, CellValid, Union, Disjoint, Conserved, Placed, Trie.Delete,
           OnPath, Shr, RemoveKey;
      OpenCell(index);
      var c := bucket[index];
      var oldCount := c.list.count;
      c.list.Remove(key, heap);
      if oldCount != c.list.count {
        count := Dec(count);
      }
      Trie.DeleteHere(level, model, key, index, c.list.Model(), count);
      OthersKept(index);
      FlatCell(c, level + 1);
      Close(index, c.list.Repr(), Flat(c.list.Model()), old(heap.live), heap);
    }

    /** delete from a bucket that was expanded, which is merged when too few keys are left */
    method DeleteBelow(index: nat, key: Ull, v: Variant, ghost path: seq<nat>, ghost heap: Heap)
      requires Valid() && Owned(heap)
      requires |path| == level && Placed(path, model) && OnPath(key, path)
      requires index == Index(key, level) && index < bucket.Length && bucket[index].table != null
      modifies Repr, heap
      ensures Valid() && Owned(heap) && level == old(level) && count == model.count
      ensures model == Trie.Delete(level, old(model), key)
      ensures fresh(Repr - old(Repr)) && Conserved(old(heap.live), old(Repr), heap.live, Repr)
      decreases LAST_LEVEL - level, 2
    {
      hide Blocks, Valid, LinkedList.Valid, Skeleton, CellValid, Union, Disjoint, Conserved, Placed, Trie.Delete,
           OnPath, Shr;
      OpenCell(index);
      var c := bucket[index];
      PlacedChild(path, model, key);
      OnPathStep(key, path, index);
      var oldCount := c.table.count;
      c.table.Delete(key, v, path + [index], heap);
      if oldCount != c.table.count {
        count := Dec(count);
      }
      Trie.DeleteBelow(level, model, key, index, c.table.model, count);
      OthersKept(index);
      if c.table.count < MERGE_SIZE {
        MergeBucket(index, v, old(heap.live), old(c.table.Repr), heap);
      } else {
        CloseTable(index, old(heap.live), old(c.table.Repr), heap);
      }
    }

    /** The merge: the entries of the inner lists are moved over, and the inner table is destroyed. */
    method MergeBucket(index: nat, v: Variant, ghost live: set<object>, ghost owned: set<object>, ghost heap: Heap)
      requires index < TABLE_SIZE && Frame() && Skeleton(index)
      requires var c := bucket[index];
               && c.table != null && c.list != null && c.list.Valid() && c.table.Valid()
               && owned <= foot[index] && c.list.Repr() == foot[index] - owned
               && Conserved(live, owned, heap.live, c.table.Repr) && heap !in c.table.Repr
      requires Repr <= live && heap !in Repr
      modifies this, bucket, bucket[index].list.Repr(), bucket[index].table.Repr, heap
      ensures Valid() && Owned(heap) && level == old(level) && count == old(count) == model.count
      ensures model
              == old(model).With(index, Merge(old(bucket[index].list.Model()), old(bucket[index].table.model)), count)
      ensures fresh(Repr - old(Repr)) && Conserved(live, old(Repr), heap.live, Repr)
    {
      hide Blocks, Valid, LinkedList.Valid, Skeleton, CellValid, Union, Disjoint, Conserved, Merge;
      var list := bucket[index].list;
      Apart(index, index);
      ConservedPart(live, owned, heap.live, bucket[index].table.Repr, Repr);
      MergeCell(index, v, live, owned, heap);
      bucket[index] := Cell(null, list);
      OthersKept(index);
      FlatCell(Cell(null, list), level + 1);
      Close(index, list.Repr(), Flat(list.Model()), live, heap);
    }

    /** The part of a merge before the bucket lets go of the inner table. */
    method MergeCell(index: nat, v: Variant, ghost live: set<object>, ghost owned: set<object>, ghost heap: Heap)
      requires index < TABLE_SIZE && Frame()
      requires var c := bucket[index];
               && c.table != null && c.list != null && c.list.Valid() && c.table.Valid()
               && owned <= foot[index] && c.list.Repr() == foot[index] - owned
               && Conserved(live, owned, heap.live, c.table.Repr) && heap !in c.table.Repr
      requires Repr <= live && heap !in Repr
      modifies bucket[index].list.Repr(), bucket[index].table.Repr, heap
      ensures var list := old(bucket[index].list);
              && unchanged(this) && unchanged(bucket) && list.Valid() && list.Owned(heap)
              && Flat(list.Model()) == Merge(old(list.Model()), old(bucket[index].table.model))
              && Conserved(live, foot[index], heap.live, list.Repr())
              && fresh(list.Repr() - old(list.Repr()))
    {
      hide Blocks, Valid, LinkedList.Valid, Skeleton, CellValid, Union, Disjoint, Conserved, Merge;
      var inner, list := bucket[index].table, bucket[index].list;
      Apart(index, index);
      ConservedPart(live, owned, heap.live, inner.Repr, foot[index]);
      ConservedPart(live, owned, heap.live, inner.Repr, Repr);
      MergeInto(inner, list, v, heap);
      ConservedSteps(live, foot[index], old(heap.live), old(inner.Repr + list.Repr()), heap.live, list.Repr());
    }

    /** The loop of a merge over the inner buckets. */
    method MoveListsTo(dest: LinkedList, v: Variant, ghost heap: Heap)
      requires Valid() && Owned(heap) && dest.Valid() && dest.Owned(heap) && dest.Repr() !! Repr
      modifies Repr, dest.Repr(), heap
      ensures Valid() && Owned(heap) && dest.Valid() && dest.Owned(heap) && dest.Repr() !! Repr
      ensures dest.Model() == PushAll(old(dest.Model()), ListEntries(old(model).buckets))
      ensures Repr <= old(Repr) && fresh(dest.Repr() - old(dest.Repr()))
      ensures Conserved(old(heap.live), old(Repr + dest.Repr()), heap.live, Repr + dest.Repr())
    {
      hide Blocks, Valid, LinkedList.Valid, Skeleton, CellValid, Union, Disjoint, Conserved, PushAll, ListEntries,
           Frame;
      OpenCell(0);
      BucketCount();
      ConservedSame(heap.live, Repr + dest.Repr());
      assert model.buckets[0..] == model.buckets;
      for i := 0 to TABLE_SIZE
        invariant Valid() && Owned(heap) && dest.Valid() && dest.Owned(heap) && dest.Repr() !! Repr
        invariant |model.buckets| == TABLE_SIZE && model.buckets[i..] == old(model).buckets[i..]
        invariant PushAll(dest.Model(), ListEntries(model.buckets[i..]))
                  == PushAll(old(dest.Model()), ListEntries(old(model).buckets))
        invariant Repr <= old(Repr) && fresh(dest.Repr() - old(dest.Repr()))
        invariant Conserved(old(heap.live), old(Repr + dest.Repr()), heap.live, Repr + dest.Repr())
      {
        ghost var live, owned, to := heap.live, Repr + dest.Repr(), dest.Model();
        PushAllNext(to, model.buckets, i);
        MoveListTo(i, dest, v, heap);
        ConservedSteps(old(heap.live), old(Repr + dest.Repr()), live, owned, heap.live, Repr + dest.Repr());
      }
      PushAllEnd(dest.Model(), model.buckets[TABLE_SIZE..]);
    }

    lemma BucketCount()
      requires Valid()
      ensures |model.buckets| == TABLE_SIZE
    {
    }

    /** One inner bucket. */
    method MoveListTo(i: nat, dest: LinkedList, v: Variant, ghost heap: Heap)
      requires Valid() && Owned(heap) && dest.Valid() && dest.Owned(heap) && dest.Repr() !! Repr
      requires i < TABLE_SIZE && |model.buckets| == TABLE_SIZE
      modifies Repr, dest.Repr(), heap
      ensures Valid() && Owned(heap) && dest.Valid() && dest.Owned(heap) && dest.Repr() !! Repr
      ensures dest.Model() == PushAll(old(dest.Model()), old(model).buckets[i].list.items)
      ensures |model.buckets| == TABLE_SIZE && model.buckets[i + 1..] == old(model).buckets[i + 1..]
      ensures Repr <= old(Repr) && fresh(dest.Repr() - old(dest.Repr()))
      ensures Conserved(old(heap.live), old(Repr + dest.Repr()), heap.live, Repr + dest.Repr())
    {
      hide Blocks, Valid, LinkedList.Valid, Skeleton, CellValid, Union, Disjoint, Conserved, PushAll, Drained;
      OpenCell(i);
      var c := bucket[i];
      DrainInto(c.list, dest, v, heap);
      OthersKept(i);
      ListShrunk(i, old(c.list.Repr()), heap);
      ConservedPart(old(heap.live), old(c.list.Repr() + dest.Repr()), heap.live, c.list.Repr() + dest.Repr(),
                    old(Repr + dest.Repr()));
      SwapPart(old(Repr), old(c.list.Repr()), c.list.Repr(), old(dest.Repr()), dest.Repr());
    }

    /** A cell whose list gave up some of its nodes. */
    ghost method ListShrunk(i: nat, owned: set<object>, heap: Heap)
      requires i < TABLE_SIZE && Frame() && Skeleton(i) && count == model.count
      requires var c := bucket[i];
               && c.list != null && c.list.Valid() && c.list.Repr() <= owned <= foot[i]
               && (c.table == null ==> owned == foot[i])
               && (c.table != null ==> c.table.Valid() && c.table.level == level + 1 && c.table.Repr == foot[i] - owned)
      modifies `foot, `model, `Repr
      ensures Valid() && Repr == (old(Repr) - owned) + bucket[i].list.Repr()
      ensures |model.buckets| == TABLE_SIZE && model.buckets[i + 1..] == old(model).buckets[i + 1..]
    {
      hide Blocks, Valid, LinkedList.Valid, Skeleton, CellValid, Union, Disjoint;
      var c := bucket[i];
      Apart(i, i);
      if c.table == null {
        FlatCell(c, level + 1);
        Restore(i, c.list.Repr(), Flat(c.list.Model()));
      } else {
        DeepCell(c, level + 1);
        Restore(i, c.list.Repr() + c.table.Repr, Deep(c.list.Model(), c.table.model));
      }
    }

    /** destroy_hashtable */
    method Destroy(ghost heap: Heap)
      requires Valid() && Owned(heap)
      modifies heap
      ensures heap.live == old(heap.live) - Repr
      decreases model, 1
    {
      hide Blocks, Valid, LinkedList.Valid, Skeleton, CellValid, Union, Disjoint;
      OpenCell(0);
      UnionEmpty();
      assert foot[..0] == [] && foot[..TABLE_SIZE] == foot;
      for i := 0 to TABLE_SIZE
        invariant heap.live == old(heap.live) - Union(foot[..i])
      {
        OpenCell(i);
        UnionPrefix(foot, i);
        DestroyCell(i, heap);
      }
      heap.Free(bucket);
      heap.Free(this);
    }

    method DestroyCell(i: nat, ghost heap: Heap)
      requires Valid() && heap !in Repr && i < |foot| && foot[i] <= heap.live && i < TABLE_SIZE
      modifies heap
      ensures heap.live == old(heap.live) - foot[i]
      decreases model, 0
    {
      hide Blocks, Valid, LinkedList.Valid, Skeleton, CellValid, Union, Disjoint;
      OpenCell(i);
      var c := bucket[i];
      if c.table != null {
        c.table.Destroy(heap);
      }
      c.list.Destroy(heap);
    }

    /** The list of a bucket was extended: split it when it is too long. */
    method SettleBucket(index: nat, v: Variant, ghost path: seq<nat>, ghost live: set<object>, ghost heap: Heap)
      requires index < TABLE_SIZE && Frame() && Skeleton(index) && |path| == level + 1
      requires var c := bucket[index];
               && c.table == null && c.list != null && c.list.Valid() && c.list.Owned(heap)
               && ListOk(path, c.list.Model())
               && Conserved(live, foot[index], heap.live, c.list.Repr())
      requires Repr <= live && heap !in Repr
      modifies this, bucket, bucket[index].list.Repr(), heap
      ensures Valid() && Owned(heap) && level == old(level) && count == old(count) == model.count
      ensures model == old(model).With(index, Settle(v, level, old(bucket[index].list.Model())), count)
      ensures fresh(Repr - old(Repr) - old(bucket[index].list.Repr()))
      ensures Conserved(live, old(Repr), heap.live, Repr)
      decreases LAST_LEVEL - level, 1
    {
      hide Blocks, Valid, LinkedList.Valid, Skeleton, CellValid, Union, Disjoint, Conserved, OnPath, ListOk, Drained,
           Trie.Pour;
      var c := bucket[index];
      if c.list.count > SPLIT_SIZE {
        SplitBucket(index, v, path, live, heap);
      } else {
        FlatCell(c, level + 1);
        Close(index, c.list.Repr(), Flat(c.list.Model()), live, heap);
      }
    }

    /** The split: a new table takes over all entries. The new table's level stays within the last one,
        because a list at the last level never gets this long. */
    method SplitBucket(index: nat, v: Variant, ghost path: seq<nat>, ghost live: set<object>, ghost heap: Heap)
      requires index < TABLE_SIZE && Frame() && Skeleton(index) && |path| == level + 1
      requires var c := bucket[index];
               && c.table == null && c.list != null && c.list.Valid() && c.list.Owned(heap)
               && ListOk(path, c.list.Model()) && c.list.count > SPLIT_SIZE
               && Conserved(live, foot[index], heap.live, c.list.Repr())
      requires Repr <= live && heap !in Repr
      modifies this, bucket, bucket[index].list.Repr(), heap
      ensures Valid() && Owned(heap) && level == old(level) && count == old(count) == model.count
      ensures model == old(model).With(index, Settle(v, level, old(bucket[index].list.Model())), count)
      ensures fresh(Repr - old(Repr) - old(bucket[index].list.Repr()))
      ensures Conserved(live, old(Repr), heap.live, Repr)
      decreases LAST_LEVEL - level, 0
    {
      hide Blocks, Valid, LinkedList.Valid, Skeleton, CellValid, Union, Disjoint, Conserved, OnPath, ListOk, Drained,
           Trie.Pour, Settle;
      var list := bucket[index].list;
      if level == LAST_LEVEL {
        LastLevelNeverSplits(path, list.Model());
        assert false;
      }
      ConservedPart(live, foot[index], heap.live, list.Repr(), Repr);
      var table := SplitList(list, level + 1, v, path, heap);
      bucket[index] := Cell(table, list);
      ConservedSteps(live, foot[index], old(heap.live), old(list.Repr()), heap.live, list.Repr() + table.Repr);
      OthersKept(index);
      DeepCell(bucket[index], level + 1);
      SettleSplits(v, level, old(list.Model()));
      Close(index, list.Repr() + table.Repr, Deep(list.Model(), table.model), live, heap);
    }
  }

  /** Move the entries of the inner lists over, then destroy the inner table. */
  method MergeInto(inner: Hashtable, list: LinkedList, v: Variant, ghost heap: Heap)
    requires inner.Valid() && inner.Owned(heap) && list.Valid() && list.Owned(heap) && list.Repr() !! inner.Repr
    modifies inner.Repr, list.Repr(), heap
    ensures list.Valid() && list.Owned(heap) && fresh(list.Repr() - old(list.Repr()))
    ensures Flat(list.Model()) == Merge(old(list.Model()), old(inner.model))
    ensures Conserved(old(heap.live), old(inner.Repr + list.Repr()), heap.live, list.Repr())
  {
    hide Blocks, Conserved;
    inner.MoveListsTo(list, v, heap);
    ghost var live := heap.live;
    ConservedFreeAll(live, inner.Repr + list.Repr(), inner.Repr);
    assert inner.Repr + list.Repr() - inner.Repr == list.Repr();
    inner.Destroy(heap);
    ConservedSteps(old(heap.live), old(inner.Repr + list.Repr()), live, inner.Repr + list.Repr(), heap.live,
                   list.Repr());
  }

  lemma PushAllNext(l: SList, buckets: seq<Bucket>, i: nat)
    requires i < |buckets|
    ensures PushAll(PushAll(l, buckets[i].list.items), ListEntries(buckets[i + 1..]))
            == PushAll(l, ListEntries(buckets[i..]))
  {
    assert buckets[i..][1..] == buckets[i + 1..];
    PushAllConcat(l, buckets[i].list.items, ListEntries(buckets[i + 1..]));
  }

  lemma PushAllEnd(l: SList, buckets: seq<Bucket>)
    requires buckets == []
    ensures PushAll(l, ListEntries(buckets)) == l
  {
  }

  lemma {:induction false} PushAllConcat(l: SList, a: seq<KeyValue>, b: seq<KeyValue>)
    ensures PushAll(l, a + b) == PushAll(PushAll(l, a), b)
    decreases |a|
  {
    if a == [] {
      assert a + b == b;
    } else {
      PushAllConcat(Push(l, a[0]), a[1..], b);
      assert (a + b)[1..] == a[1..] + b;
    }
  }

  /** The inner loop of a merge: every entry popped from one list becomes the head of the other. */
  method DrainInto(src: LinkedList, dest: LinkedList, v: Variant, ghost heap: Heap)
    requires src.Valid() && src.Owned(heap) && dest.Valid() && dest.Owned(heap) && src.Repr() !! dest.Repr()
    modifies src.Repr(), dest.Repr(), heap
    ensures src.Valid() && src.Owned(heap) && dest.Valid() && dest.Owned(heap) && src.Repr() !! dest.Repr()
    ensures src.Model() == Drained(v, old(src.Model())) && dest.Model() == PushAll(old(dest.Model()), old(src.items))
    ensures src.Repr() <= old(src.Repr()) && fresh(dest.Repr() - old(dest.Repr()))
    ensures Conserved(old(heap.live), old(src.Repr() + dest.Repr()), heap.live, src.Repr() + dest.Repr())
  {
    hide Blocks, Conserved;
    ConservedSame(heap.live, src.Repr() + dest.Repr());
    var more := DrainOne(src, dest, v, heap);
    while more
      invariant src.Valid() && src.Owned(heap) && dest.Valid() && dest.Owned(heap) && src.Repr() !! dest.Repr()
      invariant Drained(v, src.Model()) == Drained(v, old(src.Model()))
      invariant PushAll(dest.Model(), src.items) == PushAll(old(dest.Model()), old(src.items))
      invariant !more ==> src.items == []
      invariant src.Repr() <= old(src.Repr()) && fresh(dest.Repr() - old(dest.Repr()))
      invariant Conserved(old(heap.live), old(src.Repr() + dest.Repr()), heap.live, src.Repr() + dest.Repr())
      decreases |src.items|, more
    {
      ghost var live, owned := heap.live, src.Repr() + dest.Repr();
      more := DrainOne(src, dest, v, heap);
      ConservedSteps(old(heap.live), old(src.Repr() + dest.Repr()), live, owned, heap.live, src.Repr() + dest.Repr());
    }
  }

  /** One round of the loop. */
  method DrainOne(src: LinkedList, dest: LinkedList, v: Variant, ghost heap: Heap) returns (more: bool)
    requires src.Valid() && src.Owned(heap) && dest.Valid() && dest.Owned(heap) && src.Repr() !! dest.Repr()
    modifies src.Repr(), dest.Repr(), heap
    ensures src.Valid() && src.Owned(heap) && dest.Valid() && dest.Owned(heap) && src.Repr() !! dest.Repr()
    ensures more == (old(src.items) != [])
    ensures if more
            then src.Model() == Popped(v, old(src.Model()))
                 && dest.Model() == Push(old(dest.Model()), old(src.items)[0])
            else src.Model() == old(src.Model()) && dest.Model() == old(dest.Model())
    ensures src.Repr() <= old(src.Repr()) && fresh(dest.Repr() - old(dest.Repr()))
    ensures Conserved(old(heap.live), old(src.Repr() + dest.Repr()), heap.live, src.Repr() + dest.Repr())
  {
    hide Blocks, Conserved;
    ghost var both := src.Repr() + dest.Repr();
    var entry := src.Pop(v, heap);
    ConservedPart(old(heap.live), old(src.Repr()), heap.live, src.Repr(), both);
    assert both - old(src.Repr()) + src.Repr() == src.Repr() + dest.Repr();
    more := entry.Some?;
    if more {
      ghost var live, owned := heap.live, src.Repr() + dest.Repr();
      dest.PutKeyValue(entry.value, heap);
      ConservedPart(live, old(dest.Repr()), heap.live, dest.Repr(), owned);
      assert owned - old(dest.Repr()) == src.Repr();
      assert owned - old(dest.Repr()) + dest.Repr() == src.Repr() + dest.Repr();
      ConservedSteps(old(heap.live), both, live, owned, heap.live, src.Repr() + dest.Repr());
    }
  }

  lemma SwapPart(whole: set<object>, part: set<object>, part': set<object>, other: set<object>, other': set<object>)
    requires part <= whole && whole !! other && (whole + other) - (part + other) !! part' + other'
    ensures ((whole + other) - (part + other)) + (part' + other') == ((whole - part) + part') + other'
    ensures part' <= part ==> part' !! other' ==> ((whole - part) + part') !! other'
  {
  }

  /** A new table with everything that was in the list. */
  method SplitList(list: LinkedList, level: nat, v: Variant, ghost path: seq<nat>, ghost heap: Heap)
    returns (table: Hashtable)
    requires list.Valid() && list.Owned(heap) && |path| == level <= LAST_LEVEL && ListOk(path, list.Model())
    modifies list.Repr(), heap
    ensures list.Valid() && list.Owned(heap) && list.Model() == Drained(v, old(list.Model()))
    ensures table.Valid() && table.level == level && fresh(table.Repr) && list.Repr() !! table.Repr
    ensures table.model == Trie.Pour(v, level, NewTable(), old(list.items)) && heap !in table.Repr
    ensures list.Repr() <= old(list.Repr())
    ensures Conserved(old(heap.live), old(list.Repr()), heap.live, list.Repr() + table.Repr)
    decreases LAST_LEVEL - level, 6
  {
    hide Blocks, Conserved, OnPath, Insert, Find, Placed;
    table := new Hashtable(level, heap);
    NewTablePlaced(path);
    ConservedSame(old(heap.live), list.Repr());
    ConservedGrows(old(heap.live), list.Repr(), old(heap.live), list.Repr(), table.Repr);
    ghost var owned, before := list.Repr() + table.Repr, heap.live;
    PourList(list, table, v, path, heap);
    ConservedSteps(old(heap.live), old(list.Repr()), before, owned, heap.live, list.Repr() + table.Repr);
  }

  /** The loop of a split: every entry popped from the list is put into the new table with its value. */
  method PourList(list: LinkedList, table: Hashtable, v: Variant, ghost path: seq<nat>, ghost heap: Heap)
    requires list.Valid() && list.Owned(heap) && table.Valid() && table.Owned(heap)
    requires list.Repr() !! table.Repr && |path| == table.level && Pourable(path, table.model, list.items)
    modifies list.Repr(), table.Repr, heap
    ensures list.Valid() && list.Owned(heap) && table.Valid() && table.Owned(heap)
    ensures list.Repr() !! table.Repr && table.level == old(table.level)
    ensures list.Model() == Drained(v, old(list.Model()))
    ensures table.model == Trie.Pour(v, table.level, old(table.model), old(list.items))
    ensures list.Repr() <= old(list.Repr()) && fresh(table.Repr - old(table.Repr))
    ensures Conserved(old(heap.live), old(list.Repr() + table.Repr), heap.live, list.Repr() + table.Repr)
    decreases LAST_LEVEL - table.level, 5
  {
    hide Blocks, Conserved, Pourable, Insert, Find;
    ConservedSame(heap.live, list.Repr() + table.Repr);
    var more := PourOne(list, table, v, path, heap);
    while more
      invariant list.Valid() && list.Owned(heap) && table.Valid() && table.Owned(heap)
      invariant list.Repr() !! table.Repr && table.level == old(table.level)
      invariant Pourable(path, table.model, list.items)
      invariant Drained(v, list.Model()) == Drained(v, old(list.Model()))
      invariant Trie.Pour(v, table.level, table.model, list.items)
                == Trie.Pour(v, table.level, old(table.model), old(list.items))
      invariant !more ==> list.items == []
      invariant list.Repr() <= old(list.Repr()) && fresh(table.Repr - old(table.Repr))
      invariant Conserved(old(heap.live), old(list.Repr() + table.Repr), heap.live, list.Repr() + table.Repr)
      decreases |list.items|, more
    {
      ghost var live, owned := heap.live, list.Repr() + table.Repr;
      more := PourOne(list, table, v, path, heap);
      ConservedSteps(old(heap.live), old(list.Repr() + table.Repr), live, owned, heap.live, list.Repr() + table.Repr);
    }
  }

  /** One round of the loop. */
  method PourOne(list: LinkedList, table: Hashtable, v: Variant, ghost path: seq<nat>, ghost heap: Heap)
    returns (more: bool)
    requires list.Valid() && list.Owned(heap) && table.Valid() && table.Owned(heap)
    requires list.Repr() !! table.Repr && |path| == table.level && Pourable(path, table.model, list.items)
    modifies list.Repr(), table.Repr, heap
    ensures list.Valid() && list.Owned(heap) && table.Valid() && table.Owned(heap)
    ensures list.Repr() !! table.Repr && table.level == old(table.level)
    ensures more == (old(list.items) != [])
    ensures Pourable(path, table.model, list.items)
    ensures if more
            then
              var first := old(list.items)[0];
              && list.Model() == Popped(v, old(list.Model()))
              && table.model == Insert(v, table.level, old(table.model), Carry(first.key, first.value))
            else list.Model() == old(list.Model()) && table.model == old(table.model)
    ensures list.Repr() <= old(list.Repr()) && fresh(table.Repr - old(table.Repr))
    ensures Conserved(old(heap.live), old(list.Repr() + table.Repr), heap.live, list.Repr() + table.Repr)
    decreases LAST_LEVEL - table.level, 4
  {
    hide Blocks, Conserved, Insert, Find, Placed, OnPath, Pourable;
    ghost var both := list.Repr() + table.Repr;
    var entry := list.Pop(v, heap);
    ConservedPart(old(heap.live), old(list.Repr()), heap.live, list.Repr(), both);
    assert both - old(list.Repr()) + list.Repr() == list.Repr() + table.Repr;
    more := entry.Some?;
    if more {
      ghost var live, owned := heap.live, list.Repr() + table.Repr;
      PourStep(v, path, table.model, old(list.items));
      table.PutKeyValue(entry.value, v, path, heap);
      ConservedPart(live, old(table.Repr), heap.live, table.Repr, owned);
      assert owned - old(table.Repr) + table.Repr == list.Repr() + table.Repr;
      ConservedSteps(old(heap.live), both, live, owned, heap.live, list.Repr() + table.Repr);
    }
  }

  lemma DeepCell(c: Cell, level: nat)
    requires c.list != null && c.list.Valid() && c.table != null && c.table.Valid() && c.table.level == level
    requires c.list.Repr() !! c.table.Repr
    ensures CellValid(c, c.list.Repr() + c.table.Repr, Deep(c.list.Model(), c.table.model), level)
  {
  }

  lemma FlatCell(c: Cell, level: nat)
    requires c.table == null && c.list != null && c.list.Valid()
    ensures CellValid(c, c.list.Repr(), Flat(c.list.Model()), level)
  {
  }
}
