/** How long the lists of a trie get. For the text as written count is no bound: what bounds the lists is that
    a list which was ever popped keeps a huge count, so that it is split again before it can grow. */
module ListLengths {
  import opened Words
  import opened AssociationList
  import opened Trie
  import opened TrieDelete
  import opened TrieShape
  import opened TrieRuns

  /** Every list of the trie, at every level, holds at most SPLIT_SIZE keys. */
  ghost predicate ShortLists(t: Table)
    decreases t
  {
    forall i :: 0 <= i < |t.buckets| ==>
      && |t.buckets[i].list.items| <= SPLIT_SIZE
      && (t.buckets[i].Deep? ==> ShortLists(t.buckets[i].table))
  }

  // ------------------------------------------------------------------
  // The invariant of the text as written

  /** The popped entries, of which there are at least sixteen and at most m, are missing from count. */
  ghost predicate Underflowed(m: nat, l: SList) {
    WORD - m + |l.items| <= l.count <= WORD - (SPLIT_SIZE + 1) + |l.items|
  }

  /** A list that was never popped has its length as count; one that was got its keys from a merge. */
  ghost predicate ListBounded(m: nat, l: SList) {
    l.count == |l.items| <= SPLIT_SIZE || (|l.items| < MERGE_SIZE && Underflowed(m, l))
  }

  /** The same after one more key came in. */
  ghost predicate ListFull(m: nat, l: SList) {
    l.count == |l.items| <= SPLIT_SIZE + 1 || (|l.items| <= MERGE_SIZE && Underflowed(m, l))
  }

  /** Counts are at most m and never less than the number of keys. */
  ghost predicate Bounded(m: nat, level: nat, t: Table)
    decreases t
  {
    && |Keys(level, t)| <= t.count <= m
    && (forall i :: 0 <= i < |t.buckets| && t.buckets[i].Flat? ==> ListBounded(m, t.buckets[i].list))
    && (forall i :: 0 <= i < |t.buckets| && t.buckets[i].Deep? ==>
          Underflowed(m, t.buckets[i].list) && Bounded(m, level + 1, t.buckets[i].table))
  }

  ghost predicate BoundedIn(m: nat, level: nat, b: Bucket) {
    match b
    case Flat(l) => ListBounded(m, l)
    case Deep(l, n) => Underflowed(m, l) && Bounded(m, level, n)
  }

  lemma {:induction false} BoundedGrows(m: nat, m': nat, level: nat, t: Table)
    requires Bounded(m, level, t) && m <= m'
    ensures Bounded(m', level, t)
    decreases t
  {
    forall i | 0 <= i < |t.buckets| && t.buckets[i].Deep? ensures Bounded(m', level + 1, t.buckets[i].table) {
      BoundedGrows(m, m', level + 1, t.buckets[i].table);
    }
  }

  lemma BoundedAt(m: nat, level: nat, t: Table, i: nat)
    requires Bounded(m, level, t) && i < |t.buckets|
    ensures BoundedIn(m, level + 1, t.buckets[i])
  {
  }

  lemma BoundedCount(m: nat, level: nat, t: Table)
    requires Bounded(m, level, t)
    ensures |Keys(level, t)| <= t.count <= m
  {
  }

  lemma BoundedWith(m: nat, level: nat, t: Table, i: nat, b: Bucket, c: Ull)
    requires Bounded(m, level, t) && i < |t.buckets| && BoundedIn(m, level + 1, b)
    requires |Keys(level, t.With(i, b, c))| <= c <= m
    ensures Bounded(m, level, t.With(i, b, c))
  {
    hide Keys, Underflowed, ListBounded;
  }

  /** A table in full shape that was just poured is bounded by its number of keys. */
  lemma {:induction false} SizedIsBounded(m: nat, least: nat, path: seq<nat>, t: Table)
    requires Placed(path, t) && |path| > 0 && Sized(AsWritten, least, |path|, t)
    requires SPLIT_SIZE + 1 <= m && |Keys(|path|, t)| <= m
    ensures Bounded(m, |path|, t)
    decreases t
  {
    hide Find, Wrap, Keys;
    NestedCount(path, t);
    forall i | 0 <= i < |t.buckets| && t.buckets[i].Deep?
      ensures Underflowed(m, t.buckets[i].list) && Bounded(m, |path| + 1, t.buckets[i].table)
    {
      assert |path + [i]| == |path| + 1;
      NestedKeys(path, t, i);
      SubsetSize(Keys(|path| + 1, t.buckets[i].table), Keys(|path|, t));
      SizedIsBounded(m, least, path + [i], t.buckets[i].table);
    }
  }

  // ------------------------------------------------------------------
  // put

  lemma EnterFull(m: nat, path: seq<nat>, l: SList, e: Entry)
    requires ListOk(path, l) && OnPath(e.key, path) && ListBounded(m, l)
    requires e.Carry? ==> Assoc(l.items, e.key).None?
    ensures ListFull(m, Enter(l, e))
  {
    hide ListOk, OnPath, Assoc;
    EnterRefines(path, l, e);
  }

  /** A list whose count is huge is split, however short it is; so is one with sixteen keys. */
  lemma SettleBounded(m: nat, path: seq<nat>, l: SList)
    requires 1 <= |path| <= LAST_LEVEL + 1 && ListOk(path, l) && ListFull(m, l)
    requires SPLIT_SIZE + 1 <= m && m + 2 * MERGE_SIZE + SPLIT_SIZE < WORD
    ensures BoundedIn(m + MERGE_SIZE, |path|, Settle(AsWritten, |path| - 1, l))
  {
    hide ListOk, Find, Wrap, OnPath, Keys, Pour, Drained;
    if l.count > SPLIT_SIZE {
      if |path| == LAST_LEVEL + 1 {
        LastLevelNeverSplits(path, l);
        assert false;
      }
      SettleSplits(AsWritten, |path| - 1, l);
      DrainedPopped(m, l);
      PouredBounded(m + MERGE_SIZE, path, l);
    }
  }

  lemma DrainedPopped(m: nat, l: SList)
    requires ListFull(m, l) && l.count > SPLIT_SIZE && SPLIT_SIZE + 1 <= m && m + 2 * MERGE_SIZE < WORD
    ensures Underflowed(m + MERGE_SIZE, Drained(AsWritten, l))
  {
    hide Wrap;
    var left := l.count - 2 * |l.items|;
    DrainedCount(AsWritten, l);
    WrapAround(left);
  }

  lemma WrapAround(n: int)
    requires 0 <= n + WORD && n < WORD
    ensures Wrap(n) == if n < 0 then n + WORD else n
  {
    WrapIsModulo(n);
  }

  lemma PouredBounded(m: nat, path: seq<nat>, l: SList)
    requires 1 <= |path| <= LAST_LEVEL && ListOk(path, l) && |l.items| <= SPLIT_SIZE + 1 <= m
    ensures Bounded(m, |path|, Pour(AsWritten, |path|, NewTable(), l.items))
  {
    hide Find, Wrap, OnPath, Distinct, Placed;
    var items := l.items;
    var n := Pour(AsWritten, |path|, NewTable(), items);
    NewTablePlaced(path);
    NewTableSized(AsWritten, 0, path);
    PourSized(AsWritten, 0, path, NewTable(), items);
    PourRefines(AsWritten, path, NewTable(), items);
    ListKeysSize(items);
    assert Keys(|path|, n) == ListKeys(items);
    SizedIsBounded(m, 0, path, n);
  }

  /** One insertion raises the bound by six at most. */
  lemma {:induction false} InsertBounded(m: nat, path: seq<nat>, t: Table, e: Entry)
    requires SPLIT_SIZE + 1 <= m && m + 2 * MERGE_SIZE + SPLIT_SIZE < WORD
    requires Placed(path, t) && OnPath(e.key, path) && Bounded(m, |path|, t)
    requires e.Carry? ==> Find(|path|, t, e.key).None?
    ensures Bounded(m + MERGE_SIZE, |path|, Insert(AsWritten, |path|, t, e))
    decreases t
  {
    hide Placed, Find, Insert, Bounded, OnPath, Shr, Settle, Keys;
    var i, t' := Index(e.key, |path|), Insert(AsWritten, |path|, t, e);
    var below := path + [i];
    OnPathStep(e.key, path, i);
    PlacedChild(path, t, e.key);
    BoundedAt(m, |path|, t, i);
    BoundedCount(m, |path|, t);
    assert |below| == |path| + 1;
    match t.buckets[i] {
      case Deep(l, n) =>
        InsertBounded(m, below, n, e);
      case Flat(l) =>
        EnterRefines(below, l, e);
        EnterFull(m, below, l, e);
        SettleBounded(m, below, Enter(l, e));
    }
    InsertRefines(AsWritten, path, t, e);
    KeysGrow(path, t, t', e);
    BoundedGrows(m, m + MERGE_SIZE, |path|, t);
    OneBucketChanges(AsWritten, |path|, t, e);
    BoundedWith(m + MERGE_SIZE, |path|, t, i, InsertIn(AsWritten, |path|, t.buckets[i], e), t'.count);
  }

  lemma KeysGrow(path: seq<nat>, t: Table, t': Table, e: Entry)
    requires Inserted(path, t, t', e) && |Keys(|path|, t)| <= t.count < WORD - 1
    ensures |Keys(|path|, t')| <= t'.count <= t.count + 1
  {
    hide Placed, Find;
    assert Keys(|path|, t') == Keys(|path|, t) + {e.key};
    assert e.key in Keys(|path|, t) ==> Keys(|path|, t') == Keys(|path|, t);
  }

  // ------------------------------------------------------------------
  // delete

  lemma RemoveBounded(m: nat, l: SList, key: Ull)
    requires Distinct(l.items) && ListBounded(m, l) && m < WORD
    ensures ListBounded(m, RemoveKey(l, key))
    ensures Underflowed(m, l) && |l.items| < MERGE_SIZE ==> Underflowed(m, RemoveKey(l, key))
  {
    hide Distinct;
    RemoveKeyRefines(l, key);
  }

  /** A merge happens when at most five keys are left, so this is how many the list gets. */
  lemma MergeBounded(m: nat, path: seq<nat>, l: SList, n: Table)
    requires |path| > 0 && Placed(path, n) && Bounded(m, |path|, n) && n.count < MERGE_SIZE
    requires l.items == [] && Underflowed(m, l) && m < WORD
    ensures |Merge(l, n).list.items| < MERGE_SIZE && Underflowed(m, Merge(l, n).list)
  {
    hide Placed, Find, Wrap, Merge, Distinct;
    MergeContents(path, l, n);
    var merged := Merge(l, n).list;
    ListKeysSize(merged.items);
    forall k | k in ListKeys(merged.items) ensures k in Keys(|path|, n) {
      assert FindIn(|path|, Merge(l, n), k).Some?;
    }
    SubsetSize(ListKeys(merged.items), Keys(|path|, n));
    WrapAround(l.count + |merged.items|);
  }

  lemma KeysShrink(path: seq<nat>, t: Table, t': Table, key: Ull)
    requires Deleted(path, t, t', key) && |Keys(|path|, t)| <= t.count
    ensures |Keys(|path|, t')| <= t'.count <= t.count
  {
    hide Placed, Find, Dropped;
    var keys, o := Keys(|path|, t), Find(|path|, t, key);
    var gone := o.Some? && Dropped(o).None?;
    assert Dropped(None).None? by { NothingDropped(); }
    SubsetSize(Keys(|path|, t'), if gone then keys - {key} else keys);
    assert gone ==> key in keys && |keys - {key}| == |keys| - 1;
  }

  lemma NothingDropped()
    ensures Dropped(None).None?
  {
  }

  lemma {:induction false} DeleteBounded(m: nat, path: seq<nat>, t: Table, key: Ull)
    requires m < WORD && Placed(path, t) && OnPath(key, path) && Bounded(m, |path|, t)
    ensures Bounded(m, |path|, Delete(|path|, t, key))
    decreases t
  {
    hide Placed, Find, Delete, Bounded, OnPath, Shr, Merge, Keys;
    var i, t' := Index(key, |path|), Delete(|path|, t, key);
    var below := path + [i];
    OnPathStep(key, path, i);
    PlacedChild(path, t, key);
    BoundedAt(m, |path|, t, i);
    BoundedCount(m, |path|, t);
    assert |below| == |path| + 1;
    match t.buckets[i] {
      case Deep(l, n) =>
        var n' := Delete(|path| + 1, n, key);
        DeleteBounded(m, below, n, key);
        DeleteRefines(below, n, key);
        if n'.count < MERGE_SIZE {
          MergeBounded(m, below, l, n');
          MergeContents(below, l, n');
        }
      case Flat(l) =>
        RemoveBounded(m, l, key);
    }
    DeleteRefines(path, t, key);
    KeysShrink(path, t, t', key);
    OneBucketChanges(AsWritten, |path|, t, Touch(key));
    BoundedWith(m, |path|, t, i, DeleteIn(|path|, t.buckets[i], key), t'.count);
  }

  // ------------------------------------------------------------------
  // What replaces the distance between two restructurings

  /** A list that was popped is split by the next put that reaches it, however few keys it holds. */
  lemma PoppedIsSplitNext(m: nat, path: seq<nat>, l: SList, e: Entry)
    requires 1 <= |path| <= LAST_LEVEL + 1 && ListOk(path, l) && OnPath(e.key, path)
    requires e.Carry? ==> Assoc(l.items, e.key).None?
    requires |l.items| < MERGE_SIZE && Underflowed(m, l) && m + SPLIT_SIZE < WORD
    ensures Settle(AsWritten, |path| - 1, Enter(l, e)).Deep?
  {
    hide ListOk, OnPath, Assoc, Find, Settle, Underflowed;
    EnterRefines(path, l, e);
    UnderflowIsHuge(m, l);
    SettleRefines(AsWritten, path, Enter(l, e));
  }

  lemma UnderflowIsHuge(m: nat, l: SList)
    requires |l.items| < MERGE_SIZE && Underflowed(m, l) && m + SPLIT_SIZE < WORD
    ensures SPLIT_SIZE < l.count && Inc(l.count) == l.count + 1
  {
  }

  /** So is, as written, every list that a merge filled: after the merge of a bucket, and any deletes, the next
      put under it expands it again. */
  lemma MergedIsSplitNext(m: nat, path: seq<nat>, l: SList, n: Table, e: Entry)
    requires 1 <= |path| <= LAST_LEVEL + 1 && Placed(path, n) && Bounded(m, |path|, n) && n.count < MERGE_SIZE
    requires l.items == [] && Underflowed(m, l) && m + SPLIT_SIZE < WORD
    requires OnPath(e.key, path) && e.Touch?
    ensures Settle(AsWritten, |path| - 1, Enter(Merge(l, n).list, e)).Deep?
  {
    hide Placed, Bounded, OnPath, Merge, Settle, ListOk, Find;
    MergeBounded(m, path, l, n);
    MergeContents(path, l, n);
    PoppedIsSplitNext(m, path, Merge(l, n).list, e);
  }

  // ------------------------------------------------------------------
  // Runs

  function Bound(ops: seq<TrieOp>): nat {
    SPLIT_SIZE + 1 + MERGE_SIZE * |ops|
  }

  lemma {:induction false} RunBounded(ops: seq<TrieOp>)
    requires Bound(ops) + SPLIT_SIZE + MERGE_SIZE < WORD
    ensures Bounded(Bound(ops), 0, Run(AsWritten, ops))
  {
    hide Placed, Find, Insert, Delete, Bounded;
    if ops == [] {
      NewTableBounded(Bound(ops));
    } else {
      var before, op := ops[..|ops| - 1], ops[|ops| - 1];
      var t := Run(AsWritten, before);
      RunBounded(before);
      RunPlaced(AsWritten, before);
      assert OnPath(op.key, []);
      if op.Put? {
        InsertBounded(Bound(before), [], t, Touch(op.key));
      } else {
        DeleteBounded(Bound(before), [], t, op.key);
        BoundedGrows(Bound(before), Bound(ops), 0, Delete(0, t, op.key));
      }
    }
  }

  lemma NewTableBounded(m: nat)
    ensures Bounded(m, 0, NewTable())
  {
    NewTablePlaced([]);
    NewTableBuckets();
    assert Keys(0, NewTable()) == {};
  }

  lemma {:induction false} BoundedIsShort(m: nat, path: seq<nat>, t: Table)
    requires Placed(path, t) && Bounded(m, |path|, t)
    ensures ShortLists(t)
    decreases t
  {
    hide Keys, ListOk;
    forall i | 0 <= i < |t.buckets| && t.buckets[i].Deep? ensures ShortLists(t.buckets[i].table) {
      assert |path + [i]| == |path| + 1;
      BoundedIsShort(m, path + [i], t.buckets[i].table);
    }
  }

  lemma {:induction false} SizedIsShort(path: seq<nat>, t: Table)
    requires Placed(path, t) && Sized(Repaired, MERGE_SIZE, |path|, t)
    ensures ShortLists(t)
    decreases t
  {
    hide Keys, ListOk, Wrap;
    forall i | 0 <= i < |t.buckets| && t.buckets[i].Deep? ensures ShortLists(t.buckets[i].table) {
      assert |path + [i]| == |path| + 1;
      SizedIsShort(path + [i], t.buckets[i].table);
    }
  }

  /** No list ever holds more than fifteen keys: after any run of the repaired text, and after any run of the text
      as written that is too short for six entries an operation to make a list's count wrap around again. */
  lemma ListsStayShort(v: Variant, ops: seq<TrieOp>)
    requires v.AsWritten? ==> MERGE_SIZE * (|ops| + 1) + 2 * SPLIT_SIZE + 1 < WORD
    ensures ShortLists(Run(v, ops))
  {
    hide Placed, Sized, Bounded;
    RunPlaced(v, ops);
    match v
    case AsWritten =>
      RunBounded(ops);
      BoundedIsShort(Bound(ops), [], Run(v, ops));
    case Repaired =>
      RunShape(ops);
      SizedIsShort([], Run(v, ops));
  }
}
