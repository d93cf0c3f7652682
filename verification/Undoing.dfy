/** Deleting a reference's pages undoes putting them, whatever was put in between. This needs the deletes to be
    lossless, which they are in every reachable trie, also for the text as written. */
module Undoing {
  import opened Words
  import opened AssociationList
  import opened Trie
  import opened TrieDelete
  import opened TrieShape
  import opened TrieRuns
  import opened ListLengths
  import opened Window

  // ------------------------------------------------------------------
  // What puts and deletes of references do

  /** The pages of several references put one reference after the other. */
  function PutRefs(v: Variant, t: Table, refs: seq<MemRef>): Table {
    if refs == [] then t
    else
      var ref := refs[|refs| - 1];
      PutPages(v, PutRefs(v, t, refs[..|refs| - 1]), ref.address, ref.pageCount)
  }

  lemma {:induction false} PutPagesEffect(v: Variant, t: Table, page: Ull, n: nat)
    requires Placed([], t) && page + n <= WORD
    ensures var t' := PutPages(v, t, page, n);
            && Placed([], t')
            && forall p: Ull :: Find(0, t', p) == if page <= p < page + n then Bumped(Find(0, t, p)) else Find(0, t, p)
  {
    hide Placed, Find, Insert, Bumped, Wrap;
    if n > 0 {
      PutPagesEffect(v, t, page, n - 1);
      WrapStep(page + n - 1);
      var key: Ull := page + n - 1;
      assert OnPath(key, []);
      InsertRefines(v, [], PutPages(v, t, page, n - 1), Touch(key));
    }
  }

  lemma {:induction false} PutRefsEffect(v: Variant, t: Table, refs: seq<MemRef>)
    requires Placed([], t) && RefsInRange(refs)
    ensures var t' := PutRefs(v, t, refs);
            Placed([], t') && forall p: Ull :: Find(0, t', p) == BumpedBy(Find(0, t, p), Cover(refs, p))
  {
    hide Placed, Find, Bumped, PutPages;
    if refs != [] {
      var before, ref := refs[..|refs| - 1], refs[|refs| - 1];
      PutRefsEffect(v, t, before);
      PutPagesEffect(v, PutRefs(v, t, before), ref.address, ref.pageCount);
    }
  }

  /** Every merge that these deletes trigger is lossless. */
  ghost predicate LosslessDeletes(t: Table, page: Ull, n: nat) {
    n > 0 ==> LosslessDeletes(t, page, n - 1) && Lossless(0, DeletePages(t, page, n - 1), Wrap(page + n - 1))
  }

  lemma {:induction false} DeletePagesEffect(t: Table, page: Ull, n: nat)
    requires Placed([], t) && page + n <= WORD && LosslessDeletes(t, page, n)
    ensures var t' := DeletePages(t, page, n);
            && Placed([], t')
            && forall p: Ull :: Find(0, t', p) == if page <= p < page + n then Dropped(Find(0, t, p)) else Find(0, t, p)
  {
    hide Placed, Find, Delete, Dropped, Lossless, Wrap;
    if n > 0 {
      DeletePagesEffect(t, page, n - 1);
      WrapStep(page + n - 1);
      var key: Ull := page + n - 1;
      assert OnPath(key, []);
      DeleteRefines([], DeletePages(t, page, n - 1), key);
    }
  }

  /** In the full shape, deletes are always lossless. */
  lemma {:induction false} ShapedDeletes(t: Table, page: Ull, n: nat)
    requires Placed([], t) && Sized(Repaired, MERGE_SIZE, 0, t)
    ensures LosslessDeletes(t, page, n)
    ensures Placed([], DeletePages(t, page, n)) && Sized(Repaired, MERGE_SIZE, 0, DeletePages(t, page, n))
  {
    hide Placed, Sized, Delete, Lossless, Wrap;
    if n > 0 {
      ShapedDeletes(t, page, n - 1);
      StepPlaced(Repaired, DeletePages(t, page, n - 1), Del(Wrap(page + n - 1)));
      StepShape(DeletePages(t, page, n - 1), Del(Wrap(page + n - 1)));
    }
  }

  lemma {:induction false} ShapedPuts(t: Table, page: Ull, n: nat)
    requires Placed([], t) && Sized(Repaired, MERGE_SIZE, 0, t)
    ensures Placed([], PutPages(Repaired, t, page, n)) && Sized(Repaired, MERGE_SIZE, 0, PutPages(Repaired, t, page, n))
  {
    hide Placed, Sized, Insert, Wrap;
    if n > 0 {
      ShapedPuts(t, page, n - 1);
      StepPlaced(Repaired, PutPages(Repaired, t, page, n - 1), Put(Wrap(page + n - 1)));
      StepShape(PutPages(Repaired, t, page, n - 1), Put(Wrap(page + n - 1)));
    }
  }

  lemma {:induction false} ShapedRefs(t: Table, refs: seq<MemRef>)
    requires Placed([], t) && Sized(Repaired, MERGE_SIZE, 0, t)
    ensures Placed([], PutRefs(Repaired, t, refs)) && Sized(Repaired, MERGE_SIZE, 0, PutRefs(Repaired, t, refs))
  {
    hide Placed, Sized, PutPages;
    if refs != [] {
      var before, ref := refs[..|refs| - 1], refs[|refs| - 1];
      ShapedRefs(t, before);
      ShapedPuts(PutRefs(Repaired, t, before), ref.address, ref.pageCount);
    }
  }

  lemma {:induction false} BumpedByFirst(o: Option<Ull>, n: nat)
    ensures BumpedBy(Bumped(o), n) == Bumped(BumpedBy(o, n))
  {
    hide Bumped;
    if n > 0 {
      BumpedByFirst(o, n - 1);
    }
  }

  /** A trie after one reference and then others were put. */
  function WithRef(v: Variant, t: Table, ref: MemRef, others: seq<MemRef>): Table {
    PutRefs(v, PutPages(v, t, ref.address, ref.pageCount), others)
  }

  /** Deleting a reference's pages undoes putting them, whatever other references were put in between, if and only
      if without the reference none of its pages would be stored with the wrapped value zero, which takes 2^64
      references to one page. This holds in every trie where the deletes are lossless. */
  lemma DeleteUndoesPut(v: Variant, t: Table, ref: MemRef, others: seq<MemRef>)
    requires Placed([], t) && RefsInRange(others) && ref.address + ref.pageCount <= WORD
    requires LosslessDeletes(WithRef(v, t, ref, others), ref.address, ref.pageCount)
    ensures (forall p: Ull :: Find(0, DeletePages(WithRef(v, t, ref, others), ref.address, ref.pageCount), p)
                              == Find(0, PutRefs(v, t, others), p))
            <==> forall p: Ull :: Covers(ref, p) ==> Find(0, PutRefs(v, t, others), p) != Some(0)
  {
    hide Find, Placed, PutPages, DeletePages, PutRefs, BumpedBy, Cover, LosslessDeletes;
    var put := PutPages(v, t, ref.address, ref.pageCount);
    PutPagesEffect(v, t, ref.address, ref.pageCount);
    PutRefsEffect(v, put, others);
    PutRefsEffect(v, t, others);
    DeletePagesEffect(PutRefs(v, put, others), ref.address, ref.pageCount);
    forall p: Ull
      ensures Find(0, DeletePages(PutRefs(v, put, others), ref.address, ref.pageCount), p)
              == Find(0, PutRefs(v, t, others), p)
              <==> !(Covers(ref, p) && Find(0, PutRefs(v, t, others), p) == Some(0))
    {
      BumpedByFirst(Find(0, t, p), Cover(others, p));
    }
  }

  /** Repaired, that is every reachable trie. */
  lemma RepairedDeletesLossless(ops: seq<TrieOp>, ref: MemRef, others: seq<MemRef>)
    ensures LosslessDeletes(WithRef(Repaired, Run(Repaired, ops), ref, others), ref.address, ref.pageCount)
  {
    hide Placed, Sized, Run, PutPages, PutRefs, LosslessDeletes;
    RunShape(ops);
    ShapedPuts(Run(Repaired, ops), ref.address, ref.pageCount);
    ShapedRefs(PutPages(Repaired, Run(Repaired, ops), ref.address, ref.pageCount), others);
    ShapedDeletes(WithRef(Repaired, Run(Repaired, ops), ref, others), ref.address, ref.pageCount);
  }

  // ------------------------------------------------------------------
  // The text as written: what every reachable trie keeps

  /** A nested table is as it was created, with all counts exact, or it has six keys beside those of `added`,
      and so do the tables inside. */
  ghost predicate Pinned(added: set<Ull>, level: nat, t: Table)
    decreases t, 1
  {
    Sized(AsWritten, MERGE_SIZE, level, t)
    || (t.count >= MERGE_SIZE + |Keys(level, t) * added| && NestedPinned(added, level, t))
  }

  ghost predicate NestedPinned(added: set<Ull>, level: nat, t: Table)
    decreases t, 0
  {
    forall i :: 0 <= i < |t.buckets| && t.buckets[i].Deep? ==> Pinned(added, level + 1, t.At(i).table)
  }

  ghost predicate PinnedIn(added: set<Ull>, level: nat, b: Bucket) {
    b.Deep? ==> Pinned(added, level, b.table)
  }

  lemma SizedNestedPinned(added: set<Ull>, level: nat, t: Table)
    requires Sized(AsWritten, MERGE_SIZE, level, t)
    ensures NestedPinned(added, level, t)
  {
  }

  lemma PinnedAt(added: set<Ull>, level: nat, t: Table, i: nat)
    requires NestedPinned(added, level, t) && i < |t.buckets|
    ensures PinnedIn(added, level + 1, t.buckets[i])
  {
  }

  lemma PinnedWith(added: set<Ull>, level: nat, t: Table, i: nat, b: Bucket, c: Ull)
    requires NestedPinned(added, level, t) && i < |t.buckets| && PinnedIn(added, level + 1, b)
    ensures NestedPinned(added, level, t.With(i, b, c))
  {
    hide Pinned;
    var t' := t.With(i, b, c);
    forall j | 0 <= j < |t'.buckets| && t'.buckets[j].Deep? ensures Pinned(added, level + 1, t'.At(j).table) {
      assert t'.buckets[j] == if j == i then b else t.buckets[j];
    }
  }

  /** put, below one bucket and then in the table. */
  lemma {:induction false} PinnedInsert(m: nat, added: set<Ull>, path: seq<nat>, t: Table, key: Ull)
    requires m < WORD - 1 && Placed(path, t) && OnPath(key, path) && Bounded(m, |path|, t)
    requires NestedPinned(added, |path|, t)
    ensures NestedPinned(added, |path|, Insert(AsWritten, |path|, t, Touch(key)))
    decreases t
  {
    hide Placed, Find, Insert, Bounded, OnPath, Shr, Settle, Keys, Pinned, NestedPinned, Sized;
    var e, i := Touch(key), Index(key, |path|);
    var below, t' := path + [i], Insert(AsWritten, |path|, t, e);
    OnPathStep(key, path, i);
    PlacedChild(path, t, key);
    BoundedAt(m, |path|, t, i);
    PinnedAt(added, |path|, t, i);
    assert |below| == |path| + 1;
    match t.buckets[i] {
      case Deep(l, n) =>
        if Sized(AsWritten, MERGE_SIZE, |below|, n) {
          InsertSized(AsWritten, MERGE_SIZE, below, n, e);
          SizedIsPinned(added, |below|, Insert(AsWritten, |below|, n, e));
        } else {
          PinnedSplit(added, |below|, n);
          BoundedCount(m, |below|, n);
          PinnedInsert(m, added, below, n, key);
          InsertRefines(AsWritten, below, n, e);
          PinnedCount(m, added, below, n, Insert(AsWritten, |below|, n, e), e);
        }
      case Flat(l) =>
        EnterRefines(below, l, e);
        SettlePinned(added, below, Enter(l, e));
    }
    OneBucketChanges(AsWritten, |path|, t, e);
    PinnedWith(added, |path|, t, i, InsertIn(AsWritten, |path|, t.buckets[i], e), t'.count);
  }

  lemma SizedIsPinned(added: set<Ull>, level: nat, t: Table)
    requires Sized(AsWritten, MERGE_SIZE, level, t)
    ensures Pinned(added, level, t)
  {
  }

  lemma PinnedSplit(added: set<Ull>, level: nat, t: Table)
    requires Pinned(added, level, t) && !Sized(AsWritten, MERGE_SIZE, level, t)
    ensures t.count >= MERGE_SIZE + |Keys(level, t) * added| && NestedPinned(added, level, t)
  {
  }

  lemma PinnedCount(m: nat, added: set<Ull>, path: seq<nat>, t: Table, t': Table, e: Entry)
    requires Inserted(path, t, t', e) && t.count <= m < WORD - 1 && NestedPinned(added, |path|, t')
    requires t.count >= MERGE_SIZE + |Keys(|path|, t) * added|
    ensures Pinned(added, |path|, t')
  {
    hide Placed, Find, Sized, NestedPinned;
    var keys := Keys(|path|, t);
    assert Keys(|path|, t') == keys + {e.key};
    if e.key in keys {
      assert Keys(|path|, t') == keys;
    } else {
      SubsetSize((keys + {e.key}) * added, keys * added + {e.key});
      assert |keys * added + {e.key}| == |keys * added| + 1;
    }
  }

  /** A table that a split has just made is pinned, however few keys it holds. */
  lemma SettlePinned(added: set<Ull>, path: seq<nat>, l: SList)
    requires 1 <= |path| <= LAST_LEVEL + 1 && ListOk(path, l)
    ensures PinnedIn(added, |path|, Settle(AsWritten, |path| - 1, l))
  {
    hide Find, Wrap, OnPath, Distinct, Placed, Sized, Pour, Drained, Pinned;
    if l.count > SPLIT_SIZE && |path| <= LAST_LEVEL {
      SettleSplits(AsWritten, |path| - 1, l);
      NewTablePlaced(path);
      NewTableSized(AsWritten, MERGE_SIZE, path);
      PourSized(AsWritten, MERGE_SIZE, path, NewTable(), l.items);
      SizedIsPinned(added, |path|, Pour(AsWritten, |path|, NewTable(), l.items));
    }
  }

  /** delete merges a table with fewer than six keys; the others stay pinned without anything added. */
  lemma {:induction false} PinnedDelete(path: seq<nat>, t: Table, key: Ull)
    requires Placed(path, t) && OnPath(key, path) && NestedPinned({}, |path|, t)
    ensures NestedPinned({}, |path|, Delete(|path|, t, key))
    decreases t
  {
    hide Placed, Find, Delete, OnPath, Shr, Merge, Keys, Pinned, NestedPinned, Sized;
    var i, t' := Index(key, |path|), Delete(|path|, t, key);
    var below := path + [i];
    OnPathStep(key, path, i);
    PlacedChild(path, t, key);
    PinnedAt({}, |path|, t, i);
    assert |below| == |path| + 1;
    match t.buckets[i] {
      case Deep(l, n) =>
        var n' := Delete(|path| + 1, n, key);
        if Sized(AsWritten, MERGE_SIZE, |below|, n) {
          SizedNestedPinned({}, |below|, n);
        } else {
          PinnedSplit({}, |below|, n);
        }
        PinnedDelete(below, n, key);
        if n'.count < MERGE_SIZE {
          DeleteRefines(below, n, key);
          MergeContents(below, l, n');
        } else {
          LargeIsPinned(|below|, n');
        }
      case Flat(l) =>
    }
    OneBucketChanges(AsWritten, |path|, t, Touch(key));
    PinnedWith({}, |path|, t, i, DeleteIn(|path|, t.buckets[i], key), t'.count);
  }

  lemma LargeIsPinned(level: nat, t: Table)
    requires t.count >= MERGE_SIZE && NestedPinned({}, level, t)
    ensures Pinned({}, level, t)
  {
    hide Sized, NestedPinned;
    assert Keys(level, t) * {} == {};
  }

  lemma {:induction false} RunPinned(ops: seq<TrieOp>)
    requires Bound(ops) + SPLIT_SIZE + MERGE_SIZE < WORD
    ensures NestedPinned({}, 0, Run(AsWritten, ops))
  {
    hide Placed, Find, Insert, Delete, Bounded, Pinned, NestedPinned;
    if ops == [] {
      NewTablePinned();
    } else {
      var before, op := ops[..|ops| - 1], ops[|ops| - 1];
      var t := Run(AsWritten, before);
      RunPinned(before);
      RunPlaced(AsWritten, before);
      RunBounded(before);
      assert OnPath(op.key, []);
      if op.Put? {
        PinnedInsert(Bound(before), {}, [], t, op.key);
      } else {
        PinnedDelete([], t, op.key);
      }
    }
  }

  lemma NewTablePinned()
    ensures NestedPinned({}, 0, NewTable())
  {
    NewTableBuckets();
  }

  /** Keys that are not stored yet may be added without harm. */
  lemma {:induction false} NothingAdded(added: set<Ull>, path: seq<nat>, t: Table)
    requires Placed(path, t) && NestedPinned({}, |path|, t) && Keys(|path|, t) !! added
    ensures NestedPinned(added, |path|, t)
    decreases t
  {
    hide Find, Sized, Keys, Placed;
    forall i | 0 <= i < |t.buckets| && t.buckets[i].Deep? ensures Pinned(added, |path| + 1, t.At(i).table) {
      var n := t.buckets[i].table;
      PlacedTable(path, t, i);
      NestedKeys(path, t, i);
      assert |path + [i]| == |path| + 1;
      PinnedAt({}, |path|, t, i);
      if !Sized(AsWritten, MERGE_SIZE, |path| + 1, n) {
        NothingAdded(added, path + [i], n);
        assert Keys(|path| + 1, n) * added == {};
      }
    }
  }

  lemma PlacedTable(path: seq<nat>, t: Table, i: nat)
    requires Placed(path, t) && i < |t.buckets| && t.buckets[i].Deep?
    ensures i < TABLE_SIZE && Placed(path + [i], t.buckets[i].table) && t.buckets[i].table < t
  {
  }

  // ------------------------------------------------------------------
  // Deletes of keys that were added

  /** Every count is the number of keys below, and nested tables have six of them. Nothing is said of lists. */
  ghost predicate Tight(level: nat, t: Table)
    decreases t
  {
    && t.count == Wrap(|Keys(level, t)|)
    && forall i :: 0 <= i < |t.buckets| && t.buckets[i].Deep? ==>
         t.buckets[i].table.count >= MERGE_SIZE && Tight(level + 1, t.buckets[i].table)
  }

  ghost predicate TightIn(level: nat, b: Bucket) {
    b.Deep? ==> b.table.count >= MERGE_SIZE && Tight(level, b.table)
  }

  lemma {:induction false} SizedIsTight(v: Variant, level: nat, t: Table)
    requires Sized(v, MERGE_SIZE, level, t)
    ensures Tight(level, t)
    decreases t
  {
    hide Keys, Wrap;
    forall i | 0 <= i < |t.buckets| && t.buckets[i].Deep? ensures Tight(level + 1, t.buckets[i].table) {
      SizedIsTight(v, level + 1, t.buckets[i].table);
    }
  }

  lemma TightAt(level: nat, t: Table, i: nat)
    requires Tight(level, t) && i < |t.buckets|
    ensures TightIn(level + 1, t.buckets[i]) && t.count == Wrap(|Keys(level, t)|)
  {
  }

  lemma TightWith(level: nat, t: Table, i: nat, b: Bucket, c: Ull)
    requires Tight(level, t) && i < |t.buckets| && TightIn(level + 1, b) && c == Wrap(|Keys(level, t.With(i, b, c))|)
    ensures Tight(level, t.With(i, b, c))
  {
    hide Keys, Wrap;
  }

  /** A tight table with fewer than six keys has no table inside. */
  lemma SmallTightIsFlat(path: seq<nat>, t: Table)
    requires |path| > 0 && Placed(path, t) && Tight(|path|, t) && t.count < MERGE_SIZE
    ensures NestedEmpty(|path|, t)
  {
    hide Placed, Find, Wrap, Keys;
    forall i | 0 <= i < |t.buckets| ensures t.buckets[i].Flat? {
      if t.buckets[i].Deep? {
        PlacedTable(path, t, i);
        TightAt(|path|, t, i);
        TightCount(|path| + 1, t.buckets[i].table);
        NestedSmaller(path, t, i);
        assert false;
      }
    }
  }

  lemma TightCount(level: nat, t: Table)
    requires Tight(level, t)
    ensures t.count == Wrap(|Keys(level, t)|)
  {
  }

  /** Deleting from a tight table loses nothing and keeps it tight. */
  lemma {:induction false} TightDelete(path: seq<nat>, t: Table, key: Ull)
    requires Placed(path, t) && OnPath(key, path) && Tight(|path|, t)
    ensures Lossless(|path|, t, key) && Tight(|path|, Delete(|path|, t, key))
    decreases t
  {
    hide Placed, Find, Delete, OnPath, Shr, Merge, Keys, Tight, Wrap, NestedEmpty;
    var i, t' := Index(key, |path|), Delete(|path|, t, key);
    var below := path + [i];
    OnPathStep(key, path, i);
    PlacedChild(path, t, key);
    TightAt(|path|, t, i);
    assert |below| == |path| + 1;
    match t.buckets[i] {
      case Deep(l, n) =>
        var n' := Delete(|path| + 1, n, key);
        TightDelete(below, n, key);
        DeleteRefines(below, n, key);
        if n'.count < MERGE_SIZE {
          SmallTightIsFlat(below, n');
          MergeContents(below, l, n');
        }
      case Flat(l) =>
    }
    DeleteRefines(path, t, key);
    KeysAfterDelete(|path|, t, t', key);
    OneBucketChanges(AsWritten, |path|, t, Touch(key));
    TightWith(|path|, t, i, DeleteIn(|path|, t.buckets[i], key), t'.count);
  }

  /** A nested table is tight, or it has six keys beside those of `added`, and so do the tables inside. */
  ghost predicate Loose(added: set<Ull>, level: nat, t: Table)
    decreases t, 1
  {
    Tight(level, t) || (t.count >= MERGE_SIZE + |Keys(level, t) * added| && NestedLoose(added, level, t))
  }

  ghost predicate NestedLoose(added: set<Ull>, level: nat, t: Table)
    decreases t, 0
  {
    forall i :: 0 <= i < |t.buckets| && t.buckets[i].Deep? ==> Loose(added, level + 1, t.At(i).table)
  }

  ghost predicate LooseIn(added: set<Ull>, level: nat, b: Bucket) {
    b.Deep? ==> Loose(added, level, b.table)
  }

  lemma {:induction false} PinnedIsLoose(added: set<Ull>, level: nat, t: Table)
    requires NestedPinned(added, level, t)
    ensures NestedLoose(added, level, t)
    decreases t
  {
    hide Keys, Sized, Tight;
    forall i | 0 <= i < |t.buckets| && t.buckets[i].Deep? ensures Loose(added, level + 1, t.At(i).table) {
      var n := t.At(i).table;
      assert Pinned(added, level + 1, n) && n < t;
      if Sized(AsWritten, MERGE_SIZE, level + 1, n) {
        SizedIsTight(AsWritten, level + 1, n);
      } else {
        PinnedIsLoose(added, level + 1, n);
      }
    }
  }

  lemma LooseAt(added: set<Ull>, level: nat, t: Table, i: nat)
    requires NestedLoose(added, level, t) && i < |t.buckets|
    ensures LooseIn(added, level + 1, t.buckets[i])
  {
  }

  lemma LooseWith(added: set<Ull>, level: nat, t: Table, i: nat, b: Bucket, c: Ull)
    requires NestedLoose(added, level, t) && i < |t.buckets| && LooseIn(added, level + 1, b)
    ensures NestedLoose(added, level, t.With(i, b, c))
  {
    hide Loose;
    var t' := t.With(i, b, c);
    forall j | 0 <= j < |t'.buckets| && t'.buckets[j].Deep? ensures Loose(added, level + 1, t'.At(j).table) {
      assert t'.buckets[j] == if j == i then b else t.buckets[j];
    }
  }

  /** Deleting a key of `added`, or an occurrence of a key that stays, loses nothing. */
  lemma {:induction false} LooseDelete(added: set<Ull>, path: seq<nat>, t: Table, key: Ull)
    requires Placed(path, t) && OnPath(key, path) && NestedLoose(added, |path|, t)
    requires key in added || Find(|path|, t, key).None? || Dropped(Find(|path|, t, key)).Some?
    ensures Lossless(|path|, t, key) && NestedLoose(added, |path|, Delete(|path|, t, key))
    decreases t, 0
  {
    hide Placed, Find, Delete, OnPath, Shr, Merge, Keys, Tight, NestedEmpty, Loose, NestedLoose, Dropped;
    var i, t' := Index(key, |path|), Delete(|path|, t, key);
    var below := path + [i];
    OnPathStep(key, path, i);
    PlacedChild(path, t, key);
    LooseAt(added, |path|, t, i);
    assert |below| == |path| + 1;
    match t.buckets[i] {
      case Deep(l, n) =>
        LooseDeleteIn(added, below, n, key);
        DeleteRefines(below, n, key);
        if Delete(|below|, n, key).count < MERGE_SIZE {
          MergeContents(below, l, Delete(|below|, n, key));
        }
      case Flat(l) =>
    }
    OneBucketChanges(AsWritten, |path|, t, Touch(key));
    LooseWith(added, |path|, t, i, DeleteIn(|path|, t.buckets[i], key), t'.count);
  }

  lemma {:induction false} LooseDeleteIn(added: set<Ull>, path: seq<nat>, n: Table, key: Ull)
    requires |path| > 0 && Placed(path, n) && OnPath(key, path) && Loose(added, |path|, n)
    requires key in added || Find(|path|, n, key).None? || Dropped(Find(|path|, n, key)).Some?
    ensures Lossless(|path|, n, key)
    ensures var n' := Delete(|path|, n, key);
            if n'.count < MERGE_SIZE then NestedEmpty(|path|, n') else Loose(added, |path|, n')
    decreases n, 1
  {
    hide Placed, Find, Delete, OnPath, Keys, Tight, NestedEmpty, NestedLoose, Dropped;
    var n' := Delete(|path|, n, key);
    DeleteRefines(path, n, key);
    if Tight(|path|, n) {
      TightDelete(path, n, key);
      if n'.count < MERGE_SIZE {
        SmallTightIsFlat(path, n');
      }
    } else {
      LooseDelete(added, path, n, key);
      LooseCount(added, path, n, n', key);
    }
  }

  lemma LooseCount(added: set<Ull>, path: seq<nat>, n: Table, n': Table, key: Ull)
    requires Deleted(path, n, n', key) && Exact(|path|, n, n', key)
    requires key in added || Find(|path|, n, key).None? || Dropped(Find(|path|, n, key)).Some?
    requires n.count >= MERGE_SIZE + |Keys(|path|, n) * added|
    ensures n'.count >= MERGE_SIZE + |Keys(|path|, n') * added|
  {
    hide Placed, Find, Dropped;
    var keys, o := Keys(|path|, n), Find(|path|, n, key);
    if o.Some? && Dropped(o).None? {
      assert Keys(|path|, n') == keys - {key};
      assert (keys - {key}) * added == keys * added - {key};
      assert key in keys * added;
    } else {
      NothingDropped();
      assert Keys(|path|, n') == keys;
    }
  }

  // ------------------------------------------------------------------
  // Every reachable trie of the text as written

  /** The pages of several references. */
  function TotalPages(refs: seq<MemRef>): nat {
    if refs == [] then 0 else TotalPages(refs[..|refs| - 1]) + refs[|refs| - 1].pageCount
  }

  lemma {:induction false} CoverWithinTotal(refs: seq<MemRef>, p: Ull)
    ensures Cover(refs, p) <= TotalPages(refs)
  {
    if refs != [] {
      CoverWithinTotal(refs[..|refs| - 1], p);
    }
  }

  lemma {:induction false} PinnedPages(m: nat, added: set<Ull>, t: Table, page: Ull, n: nat)
    requires SPLIT_SIZE + 1 <= m && m + MERGE_SIZE * (n + 2) + SPLIT_SIZE < WORD
    requires Placed([], t) && Bounded(m, 0, t) && NestedPinned(added, 0, t)
    ensures var t' := PutPages(AsWritten, t, page, n);
            Placed([], t') && Bounded(m + MERGE_SIZE * n, 0, t') && NestedPinned(added, 0, t')
  {
    hide Placed, Insert, Bounded, NestedPinned, Wrap;
    if n > 0 {
      PinnedPages(m, added, t, page, n - 1);
      var before, key := PutPages(AsWritten, t, page, n - 1), Wrap(page + n - 1);
      assert OnPath(key, []);
      InsertRefines(AsWritten, [], before, Touch(key));
      InsertBounded(m + MERGE_SIZE * (n - 1), [], before, Touch(key));
      PinnedInsert(m + MERGE_SIZE * (n - 1), added, [], before, key);
    }
  }

  lemma {:induction false} PinnedRefs(m: nat, added: set<Ull>, t: Table, refs: seq<MemRef>)
    requires SPLIT_SIZE + 1 <= m && m + MERGE_SIZE * (TotalPages(refs) + 2) + SPLIT_SIZE < WORD
    requires Placed([], t) && Bounded(m, 0, t) && NestedPinned(added, 0, t)
    ensures var t' := PutRefs(AsWritten, t, refs);
            Placed([], t') && Bounded(m + MERGE_SIZE * TotalPages(refs), 0, t') && NestedPinned(added, 0, t')
  {
    hide Placed, Bounded, NestedPinned, PutPages;
    if refs != [] {
      var before, ref := refs[..|refs| - 1], refs[|refs| - 1];
      PinnedRefs(m, added, t, before);
      PinnedPages(m + MERGE_SIZE * TotalPages(before), added, PutRefs(AsWritten, t, before),
                  ref.address, ref.pageCount);
    }
  }

  /** The first n of these pages stay when one occurrence goes, or are in `added`. */
  lemma {:induction false} LooseDeletes(added: set<Ull>, t: Table, page: Ull, n: nat)
    requires Placed([], t) && NestedLoose(added, 0, t) && page + n <= WORD
    requires forall p: Ull :: page <= p < page + n ==>
               p in added || Find(0, t, p).None? || Dropped(Find(0, t, p)).Some?
    ensures LosslessDeletes(t, page, n) && NestedLoose(added, 0, DeletePages(t, page, n))
  {
    hide Placed, NestedLoose, Find, Delete, Lossless, Wrap, Dropped;
    if n > 0 {
      LooseDeletes(added, t, page, n - 1);
      DeletePagesEffect(t, page, n - 1);
      var key: Ull := page + n - 1;
      WrapStep(key);
      assert OnPath(key, []);
      LooseDelete(added, [], DeletePages(t, page, n - 1), key);
    }
  }

  /** In every reachable trie of the text as written, whether or not keys were lost before: the deletes that undo
      a reference lose nothing. The bound keeps all values and counts below 2^64. */
  lemma AsWrittenDeletesLossless(ops: seq<TrieOp>, ref: MemRef, others: seq<MemRef>)
    requires RefsInRange(others) && ref.address + ref.pageCount <= WORD
    requires Bound(ops) + MERGE_SIZE * (ref.pageCount + TotalPages(others) + 2) + SPLIT_SIZE < WORD
    ensures LosslessDeletes(WithRef(AsWritten, Run(AsWritten, ops), ref, others), ref.address, ref.pageCount)
  {
    hide Placed, Find, Run, Bounded, NestedPinned, NestedLoose, PutPages, PutRefs, LosslessDeletes, Keys, Dropped,
         Cover;
    var t := Run(AsWritten, ops);
    var added := set k: Ull | k !in Keys(0, t);
    var put := PutPages(AsWritten, t, ref.address, ref.pageCount);
    RunPlaced(AsWritten, ops);
    RunBounded(ops);
    RunPinned(ops);
    NothingAdded(added, [], t);
    PinnedPages(Bound(ops), added, t, ref.address, ref.pageCount);
    PinnedRefs(Bound(ops) + MERGE_SIZE * ref.pageCount, added, put, others);
    PinnedIsLoose(added, 0, PutRefs(AsWritten, put, others));
    forall p: Ull | Covers(ref, p)
      ensures p in added || Dropped(Find(0, PutRefs(AsWritten, put, others), p)).Some?
    {
      PutPagesEffect(AsWritten, t, ref.address, ref.pageCount);
      PutRefsEffect(AsWritten, put, others);
      StaysStored(ops, p, others);
    }
    LooseDeletes(added, PutRefs(AsWritten, put, others), ref.address, ref.pageCount);
  }

  /** A key that was stored before keeps an occurrence. */
  lemma StaysStored(ops: seq<TrieOp>, p: Ull, others: seq<MemRef>)
    requires |ops| + TotalPages(others) + 1 < WORD
    ensures p in Keys(0, Run(AsWritten, ops)) ==>
              Dropped(BumpedBy(Bumped(Find(0, Run(AsWritten, ops), p)), Cover(others, p))).Some?
  {
    hide Find, Run, Cover, Tally;
    StoredAtMost(AsWritten, ops, p);
    StoredValuesPositive(ops, p);
    CoverWithinTotal(others, p);
    var o := Find(0, Run(AsWritten, ops), p);
    if o.Some? {
      BumpedBySum(o.value + 1, Cover(others, p));
    }
  }

  lemma {:induction false} BumpedBySum(x: Ull, n: nat)
    requires x + n < WORD
    ensures BumpedBy(Some(x), n) == Some(x + n)
  {
    if n > 0 {
      BumpedBySum(x, n - 1);
    }
  }

  /** For either text and every reachable trie: putting a reference, then others, and deleting the first one again
      leaves each key with the value it has without that reference. */
  lemma ReferenceIsUndone(v: Variant, ops: seq<TrieOp>, ref: MemRef, others: seq<MemRef>)
    requires RefsInRange(others) && ref.address + ref.pageCount <= WORD
    requires Bound(ops) + MERGE_SIZE * (ref.pageCount + TotalPages(others) + 2) + SPLIT_SIZE < WORD
    ensures var t := Run(v, ops);
            forall p: Ull :: Find(0, DeletePages(WithRef(v, t, ref, others), ref.address, ref.pageCount), p)
                             == Find(0, PutRefs(v, t, others), p)
  {
    hide Placed, Find, Run, PutPages, PutRefs, DeletePages, LosslessDeletes, Cover, Tally;
    var t := Run(v, ops);
    RunPlaced(v, ops);
    if v.AsWritten? {
      AsWrittenDeletesLossless(ops, ref, others);
    } else {
      RepairedDeletesLossless(ops, ref, others);
    }
    DeleteUndoesPut(v, t, ref, others);
    forall p: Ull ensures Find(0, PutRefs(v, t, others), p) != Some(0) {
      PutRefsEffect(v, t, others);
      StoredAtMost(v, ops, p);
      StoredValuesPositive(ops, p);
      CoverWithinTotal(others, p);
      NeverZero(Find(0, t, p), Cover(others, p));
    }
  }

  lemma NeverZero(o: Option<Ull>, n: nat)
    requires o.Some? ==> 1 <= o.value && o.value + n < WORD
    requires n < WORD
    ensures BumpedBy(o, n) != Some(0)
  {
    if o.Some? {
      BumpedBySum(o.value, n);
    } else if n > 0 {
      BumpedByValue(n);
    }
  }
}
