/** The full shape of a trie: counts, thresholds, and list lengths. */
module TrieShape {
  import opened Words
  import opened AssociationList
  import opened Trie
  import opened TrieDelete

  /** The distinct keys stored at and below a table. */
  ghost function Keys(level: nat, t: Table): set<Ull> {
    set k: Ull | Find(level, t, k).Some?
  }

  /** Every count is the number of distinct keys below (modulo 2^64), lists hold at most
      SPLIT_SIZE keys, and a nested table has at least `least` keys. The repaired text keeps this
      shape for ever, the text as written exactly until its first merge (ShapeEndsWithMerge). */
  ghost predicate Sized(v: Variant, least: nat, level: nat, t: Table)
    decreases t
  {
    && t.count == Wrap(|Keys(level, t)|)
    && (forall i :: 0 <= i < |t.buckets| && t.buckets[i].Flat? ==> ListSized(t.buckets[i].list))
    && (forall i :: 0 <= i < |t.buckets| && t.buckets[i].Deep? ==>
          && t.buckets[i].list.count == CountWhenPopped(v)
          && t.buckets[i].table.count >= least
          && Sized(v, least, level + 1, t.buckets[i].table))
  }

  /** What popping its sixteen entries leaves in a list's count. */
  function CountWhenPopped(v: Variant): Ull {
    if v.AsWritten? then WORD - (SPLIT_SIZE + 1) else 0
  }

  ghost predicate ListSized(l: SList) {
    l.count == |l.items| <= SPLIT_SIZE
  }

  ghost predicate SizedIn(v: Variant, least: nat, level: nat, b: Bucket) {
    match b
    case Flat(l) => ListSized(l)
    case Deep(l, n) => l.count == CountWhenPopped(v) && n.count >= least && Sized(v, least, level, n)
  }

  // ------------------------------------------------------------------
  // Counting keys

  ghost function Below(n: nat): (s: set<Ull>)
    requires n <= WORD
    ensures |s| == n && forall k: Ull :: k in s <==> k < n
  {
    if n == 0 then {} else Below(n - 1) + {n - 1}
  }

  lemma SubsetSize<T>(a: set<T>, b: set<T>)
    requires a <= b
    ensures |a| <= |b|
  {
    assert b == a + (b - a);
  }

  /** A table below the root misses at least the keys with another first index, so its count never wraps. */
  lemma NestedCount(path: seq<nat>, t: Table)
    requires Placed(path, t) && |path| > 0
    ensures |Keys(|path|, t)| < WORD && Wrap(|Keys(|path|, t)|) == |Keys(|path|, t)|
  {
    hide Placed, Wrap;
    var other := OtherRootIndex(path[0]);
    forall k | k in Keys(|path|, t) ensures k in Below(WORD) - {other} {
      FoundOnPath(path, t, k);
    }
    SubsetSize(Keys(|path|, t), Below(WORD) - {other});
    WrapStep(|Keys(|path|, t)|);
  }

  function OtherRootIndex(i: nat): (key: Ull)
    ensures Index(key, 0) != i
  {
    if i == 0 then 1 else 0
  }

  ghost function ListKeys(items: seq<KeyValue>): set<Ull> {
    set k: Ull | Assoc(items, k).Some?
  }

  lemma {:induction false} ListKeysSize(items: seq<KeyValue>)
    requires Distinct(items)
    ensures |ListKeys(items)| == |items|
  {
    if items == [] {
      assert ListKeys(items) == {};
    } else {
      ListKeysSize(items[1..]);
      ListKeysSplit(items);
    }
  }

  lemma ListKeysSplit(items: seq<KeyValue>)
    requires Distinct(items) && items != []
    ensures ListKeys(items) == ListKeys(items[1..]) + {items[0].key}
    ensures items[0].key !in ListKeys(items[1..])
  {
    assert forall j :: 0 <= j < |items| - 1 ==> items[1..][j] == items[j + 1];
  }

  lemma CountWith(keys: set<Ull>, key: Ull)
    ensures Wrap(|keys + {key}|) == if key in keys then Wrap(|keys|) else Inc(Wrap(|keys|))
  {
    hide Wrap, Inc;
    var n := |keys + {key}|;
    assert n == if key in keys then |keys| else |keys| + 1 by {
      assert key in keys ==> keys + {key} == keys;
    }
    WrapNext(|keys|, |keys| + 1);
  }

  lemma CountWithout(keys: set<Ull>, key: Ull)
    requires key in keys
    ensures Wrap(|keys - {key}|) == Dec(Wrap(|keys|))
  {
    hide Wrap, Dec;
    assert |keys - {key}| == |keys| - 1;
    WrapNext(|keys - {key}|, |keys|);
  }

  lemma KeysAfterInsert(level: nat, t: Table, t': Table, key: Ull)
    requires Find(level, t', key).Some?
    requires forall k: Ull :: k != key ==> Find(level, t', k) == Find(level, t, k)
    requires t'.count == if Find(level, t, key).None? then Inc(t.count) else t.count
    requires t.count == Wrap(|Keys(level, t)|)
    ensures Keys(level, t') == Keys(level, t) + {key}
    ensures t'.count == Wrap(|Keys(level, t')|)
  {
    hide Find, Wrap;
    assert Keys(level, t') == Keys(level, t) + {key};
    CountWith(Keys(level, t), key);
  }

  lemma KeysAfterDelete(level: nat, t: Table, t': Table, key: Ull)
    requires Exact(level, t, t', key)
    requires var gone := Find(level, t, key).Some? && Dropped(Find(level, t, key)).None?;
             t'.count == if gone then Dec(t.count) else t.count
    requires t.count == Wrap(|Keys(level, t)|)
    ensures t'.count == Wrap(|Keys(level, t')|)
  {
    hide Find, Wrap;
    var o := Find(level, t, key);
    if o.Some? && Dropped(o).None? {
      assert Keys(level, t') == Keys(level, t) - {key};
      CountWithout(Keys(level, t), key);
    } else {
      assert Keys(level, t') == Keys(level, t);
    }
  }

  lemma SizedWith(v: Variant, least: nat, level: nat, t: Table, i: nat, b: Bucket, c: Ull)
    requires Sized(v, least, level, t) && i < |t.buckets| && SizedIn(v, least, level + 1, b)
    requires c == Wrap(|Keys(level, t.With(i, b, c))|)
    ensures Sized(v, least, level, t.With(i, b, c))
  {
  }

  lemma SizedAt(v: Variant, least: nat, level: nat, t: Table, i: nat)
    requires Sized(v, least, level, t) && i < |t.buckets|
    ensures SizedIn(v, least, level + 1, t.buckets[i])
  {
  }

  lemma NewTableSized(v: Variant, least: nat, path: seq<nat>)
    requires |path| <= LAST_LEVEL
    ensures Sized(v, least, |path|, NewTable())
  {
    NewTablePlaced(path);
    assert Keys(|path|, NewTable()) == {};
  }

  // ------------------------------------------------------------------
  // put keeps the shape

  /** Any threshold up to SPLIT_SIZE + 1 is kept: a table is only made for sixteen keys. */
  lemma {:induction false} InsertSized(v: Variant, least: nat, path: seq<nat>, t: Table, e: Entry)
    requires least <= SPLIT_SIZE + 1
    requires Placed(path, t) && OnPath(e.key, path) && Sized(v, least, |path|, t)
    requires e.Carry? ==> Find(|path|, t, e.key).None?
    ensures Sized(v, least, |path|, Insert(v, |path|, t, e))
    decreases LevelsBelow(|path|), 1, t
  {
    hide Insert, Placed, Find;
    var i := Index(e.key, |path|);
    var below := path + [i];
    OnPathStep(e.key, path, i);
    PlacedChild(path, t, e.key);
    assert |below| == |path| + 1 && SizedIn(v, least, |path| + 1, t.buckets[i]);
    match t.buckets[i] {
      case Deep(l, n) =>
        InsertSized(v, least, below, n, e);
        InsertGrows(v, below, n, e);
      case Flat(l) =>
        EnterRefines(below, l, e);
        SettleSized(v, least, below, Enter(l, e));
    }
    InsertSizedAt(v, least, path, t, e);
  }

  lemma InsertSizedAt(v: Variant, least: nat, path: seq<nat>, t: Table, e: Entry)
    requires Placed(path, t) && OnPath(e.key, path) && Sized(v, least, |path|, t)
    requires e.Carry? ==> Find(|path|, t, e.key).None?
    requires SizedIn(v, least, |path| + 1, InsertIn(v, |path|, t.buckets[Index(e.key, |path|)], e))
    ensures Sized(v, least, |path|, Insert(v, |path|, t, e))
  {
    hide Placed, Find, Insert;
    var i, t' := Index(e.key, |path|), Insert(v, |path|, t, e);
    PlacedChild(path, t, e.key);
    InsertRefines(v, path, t, e);
    KeysAfterInsert(|path|, t, t', e.key);
    OneBucketChanges(v, |path|, t, e);
    SizedWith(v, least, |path|, t, i, InsertIn(v, |path|, t.buckets[i], e), t'.count);
  }

  /** Below the root, inserting never lowers a count. */
  lemma InsertGrows(v: Variant, path: seq<nat>, t: Table, e: Entry)
    requires Placed(path, t) && OnPath(e.key, path) && |path| > 0 && t.count == Wrap(|Keys(|path|, t)|)
    requires e.Carry? ==> Find(|path|, t, e.key).None?
    ensures Insert(v, |path|, t, e).count >= t.count
  {
    var t' := Insert(v, |path|, t, e);
    InsertRefines(v, path, t, e);
    KeysAfterInsert(|path|, t, t', e.key);
    NestedCount(path, t);
    NestedCount(path, t');
    SubsetSize(Keys(|path|, t), Keys(|path|, t'));
  }

  lemma {:induction false} SettleSized(v: Variant, least: nat, path: seq<nat>, l: SList)
    requires least <= SPLIT_SIZE + 1
    requires 1 <= |path| <= LAST_LEVEL + 1 && ListOk(path, l)
    requires l.count == |l.items| <= SPLIT_SIZE + 1
    ensures SizedIn(v, least, |path|, Settle(v, |path| - 1, l))
    decreases LevelsBelow(|path| - 1), 0
  {
    if |path| == LAST_LEVEL + 1 {
      LastLevelNeverSplits(path, l);
    } else if l.count > SPLIT_SIZE {
      var n := Pour(v, |path|, NewTable(), l.items);
      DrainedCount(v, l);
      NewTablePlaced(path);
      NewTableSized(v, least, path);
      PourSized(v, least, path, NewTable(), l.items);
      PourRefines(v, path, NewTable(), l.items);
      ListKeysSize(l.items);
      assert Keys(|path|, n) == ListKeys(l.items);
      NestedCount(path, n);
    }
  }

  lemma {:induction false} PourSized(v: Variant, least: nat, path: seq<nat>, t: Table, items: seq<KeyValue>)
    requires least <= SPLIT_SIZE + 1
    requires Pourable(path, t, items) && Sized(v, least, |path|, t)
    ensures Sized(v, least, |path|, Pour(v, |path|, t, items))
    decreases LevelsBelow(|path|), 2, |items|
  {
    if items != [] {
      var e := Carry(items[0].key, items[0].value);
      assert items[0] in items;
      InsertSized(v, least, path, t, e);
      PourStep(v, path, t, items);
      PourSized(v, least, path, Insert(v, |path|, t, e), items[1..]);
    }
  }

  // ------------------------------------------------------------------
  // delete keeps the shape, and therefore loses nothing

  lemma NestedKeys(path: seq<nat>, t: Table, i: nat)
    requires Placed(path, t) && i < TABLE_SIZE && t.buckets[i].Deep?
    ensures Keys(|path| + 1, t.buckets[i].table) <= Keys(|path|, t)
  {
    var n := t.buckets[i].table;
    assert |path + [i]| == |path| + 1;
    forall k | k in Keys(|path| + 1, n) ensures k in Keys(|path|, t) {
      FoundOnPath(path + [i], n, k);
      OnPathStep(k, path, i);
      PlacedChild(path, t, k);
    }
  }

  /** A nested table has no more keys than the table around it. */
  lemma NestedSmaller(path: seq<nat>, t: Table, i: nat)
    requires |path| > 0 && Placed(path, t) && i < TABLE_SIZE && t.buckets[i].Deep?
    requires t.count == Wrap(|Keys(|path|, t)|)
    requires t.buckets[i].table.count == Wrap(|Keys(|path| + 1, t.buckets[i].table)|)
    ensures t.buckets[i].table.count <= t.count
  {
    NestedCount(path, t);
    NestedKeys(path, t, i);
    SubsetSize(Keys(|path| + 1, t.buckets[i].table), Keys(|path|, t));
    WrapStep(|Keys(|path| + 1, t.buckets[i].table)|);
  }

  /** A table with fewer than MERGE_SIZE keys has no nested table left to lose. */
  lemma SmallTableIsFlat(v: Variant, path: seq<nat>, t: Table)
    requires |path| > 0 && Placed(path, t) && Sized(v, MERGE_SIZE, |path|, t) && t.count < MERGE_SIZE
    ensures forall i :: 0 <= i < TABLE_SIZE ==> t.buckets[i].Flat?
  {
    forall i | 0 <= i < TABLE_SIZE ensures t.buckets[i].Flat? {
      if t.buckets[i].Deep? {
        NestedSmaller(path, t, i);
        assert false;
      }
    }
  }

  /** The merged list holds as many keys as the table had; its count starts from what the pops left. */
  lemma MergeSized(v: Variant, path: seq<nat>, l: SList, n: Table)
    requires |path| > 0 && Placed(path, n) && Sized(v, MERGE_SIZE, |path|, n) && n.count < MERGE_SIZE
    requires l.items == []
    ensures NestedEmpty(|path|, n)
    ensures |Merge(l, n).list.items| == n.count
    ensures Merge(l, n).list.count == Wrap(l.count + n.count)
  {
    hide Placed, Find, Wrap;
    SmallTableIsFlat(v, path, n);
    MergeContents(path, l, n);
    MergeExact(path, l, n);
    var merged := Merge(l, n).list;
    ListKeysSize(merged.items);
    assert Keys(|path|, n) == ListKeys(merged.items) by {
      forall k: Ull ensures Find(|path|, n, k) == Assoc(merged.items, k) {
        assert FindIn(|path|, Merge(l, n), k) == Find(|path|, n, k);
      }
    }
    NestedCount(path, n);
  }

  /** No merge happens on the way of this delete. */
  predicate NoMerge(level: nat, t: Table, key: Ull)
    decreases t
  {
    match t.At(Index(key, level))
    case Flat(_) => true
    case Deep(_, n) => NoMerge(level + 1, n, key) && Delete(level + 1, n, key).count >= MERGE_SIZE
  }

  lemma {:induction false} DeleteSized(v: Variant, path: seq<nat>, t: Table, key: Ull)
    requires v.Repaired? || NoMerge(|path|, t, key)
    requires Placed(path, t) && OnPath(key, path) && Sized(v, MERGE_SIZE, |path|, t)
    ensures Sized(v, MERGE_SIZE, |path|, Delete(|path|, t, key))
    ensures Lossless(|path|, t, key)
    decreases t
  {
    hide Placed, Find, Delete;
    var i := Index(key, |path|);
    var below := path + [i];
    OnPathStep(key, path, i);
    PlacedChild(path, t, key);
    assert |below| == |path| + 1 && SizedIn(v, MERGE_SIZE, |path| + 1, t.buckets[i]);
    match t.buckets[i] {
      case Deep(l, n) =>
        var n' := Delete(|path| + 1, n, key);
        DeleteSized(v, below, n, key);
        DeleteRefines(below, n, key);
        if n'.count < MERGE_SIZE {
          MergeSized(v, below, l, n');
          WrapStep(n'.count);
        }
      case Flat(l) =>
        RemoveKeyRefines(l, key);
    }
    DeleteSizedAt(v, path, t, key);
  }

  /** The merge at one level loses nothing, nor do those further down. */
  ghost predicate LosslessIn(level: nat, b: Bucket, key: Ull) {
    b.Deep? ==>
      && Lossless(level + 1, b.table, key)
      && var n' := Delete(level + 1, b.table, key);
         n'.count < MERGE_SIZE ==> NestedEmpty(level + 1, n')
  }

  lemma DeleteSizedAt(v: Variant, path: seq<nat>, t: Table, key: Ull)
    requires Placed(path, t) && OnPath(key, path) && Sized(v, MERGE_SIZE, |path|, t)
    requires SizedIn(v, MERGE_SIZE, |path| + 1, DeleteIn(|path|, t.buckets[Index(key, |path|)], key))
    requires LosslessIn(|path|, t.buckets[Index(key, |path|)], key)
    ensures Sized(v, MERGE_SIZE, |path|, Delete(|path|, t, key)) && Lossless(|path|, t, key)
  {
    hide Placed, Find, Delete;
    var i, t' := Index(key, |path|), Delete(|path|, t, key);
    PlacedChild(path, t, key);
    DeleteRefines(path, t, key);
    OneBucketChanges(v, |path|, t, Touch(key));
    assert Lossless(|path|, t, key);
    KeysAfterDelete(|path|, t, t', key);
    SizedWith(v, MERGE_SIZE, |path|, t, i, DeleteIn(|path|, t.buckets[i], key), t'.count);
  }

  /** As written, a delete keeps the full shape if and only if it merges nothing: a merged list's count is that of
      its keys less the sixteen pops it is short of. */
  lemma {:induction false} ShapeEndsWithMerge(path: seq<nat>, t: Table, key: Ull)
    requires Placed(path, t) && OnPath(key, path) && Sized(AsWritten, MERGE_SIZE, |path|, t)
    ensures Sized(AsWritten, MERGE_SIZE, |path|, Delete(|path|, t, key)) <==> NoMerge(|path|, t, key)
    decreases t
  {
    hide Placed, Find, Delete, Shr, Merge, Keys, Wrap;
    if NoMerge(|path|, t, key) {
      DeleteSized(AsWritten, path, t, key);
    } else {
      var i := Index(key, |path|);
      var below, l, n := path + [i], t.buckets[i].list, t.buckets[i].table;
      var n' := Delete(|path| + 1, n, key);
      OnPathStep(key, path, i);
      PlacedChild(path, t, key);
      assert |below| == |path| + 1;
      OneBucketChanges(AsWritten, |path|, t, Touch(key));
      assert SizedIn(AsWritten, MERGE_SIZE, |path| + 1, t.buckets[i]);
      var t' := Delete(|path|, t, key);
      assert t'.buckets[i] == DeleteIn(|path|, t.buckets[i], key);
      ShapeEndsWithMerge(below, n, key);
      DeleteRefines(below, n, key);
      MergedIsNotSized(below, l, n');
      if Sized(AsWritten, MERGE_SIZE, |path|, t') {
        SizedAt(AsWritten, MERGE_SIZE, |path|, t', i);
      }
    }
  }

  lemma MergedIsNotSized(path: seq<nat>, l: SList, n: Table)
    requires Placed(path, n) && l.items == [] && l.count == CountWhenPopped(AsWritten)
    ensures Merge(l, n).Flat? && !ListSized(Merge(l, n).list)
  {
    hide Placed, Find, Merge, Wrap;
    var merged := Merge(l, n).list;
    MergeContents(path, l, n);
    if |merged.items| <= SPLIT_SIZE {
      WrapStep(l.count + |merged.items|);
    }
  }
}
