/** delete of hashtable.c: what a merge keeps, and exactly when a delete refines counting one less. */
module TrieDelete {
  import opened Words
  import opened AssociationList
  import opened Trie

  /** The lists of a row of buckets hold each entry in the bucket its key selects. */
  lemma {:induction false} ListEntriesContents(path: seq<nat>, t: Table, j: nat)
    requires Placed(path, t) && j <= TABLE_SIZE
    ensures Distinct(ListEntries(t.buckets[j..]))
    ensures forall e :: e in ListEntries(t.buckets[j..])
                        <==> j <= Index(e.key, |path|) && e in t.buckets[Index(e.key, |path|)].list.items
    decreases TABLE_SIZE - j
  {
    if j < TABLE_SIZE {
      ListEntriesContents(path, t, j + 1);
      var items, rest := t.buckets[j].list.items, ListEntries(t.buckets[j + 1..]);
      assert t.buckets[j..][1..] == t.buckets[j + 1..];
      assert ListEntries(t.buckets[j..]) == items + rest;
      forall e | e in items ensures Index(e.key, |path|) == j {
        OnPathStep(e.key, path, j);
      }
      DistinctConcat(items, rest);
    }
  }

  lemma DistinctConcat(a: seq<KeyValue>, b: seq<KeyValue>)
    requires Distinct(a) && Distinct(b) && forall d, e :: d in a && e in b ==> d.key != e.key
    ensures Distinct(a + b)
  {
    forall i, j | 0 <= i < j < |a + b|
      ensures (a + b)[i].key != (a + b)[j].key
    {
      if i < |a| <= j {
        assert a[i] in a && b[j - |a|] in b;
      }
    }
  }

  /** How many entries the lists before a bucket hold. */
  function EntriesBefore(buckets: seq<Bucket>, i: nat): nat
    requires i <= |buckets|
  {
    if i == 0 then 0 else |buckets[0].list.items| + EntriesBefore(buckets[1..], i - 1)
  }

  lemma {:induction false} ListEntriesAt(buckets: seq<Bucket>, i: nat, j: nat)
    requires i < |buckets| && j < |buckets[i].list.items|
    ensures var at := EntriesBefore(buckets, i) + j;
            at < |ListEntries(buckets)| && ListEntries(buckets)[at] == buckets[i].list.items[j]
  {
    if i > 0 {
      ListEntriesAt(buckets[1..], i - 1, j);
    }
  }

  lemma {:induction false} ListEntriesSize(buckets: seq<Bucket>)
    ensures |ListEntries(buckets)| == EntriesBefore(buckets, |buckets|)
  {
    if buckets != [] {
      ListEntriesSize(buckets[1..]);
    }
  }

  /** Entry j of bucket i lies where it comes when `all` entries are moved to the head in turn. */
  ghost predicate MovedTo(buckets: seq<Bucket>, i: nat, j: nat, merged: seq<KeyValue>, all: nat)
    requires i < |buckets| && j < |buckets[i].list.items| && all <= |merged|
  {
    var at := EntriesBefore(buckets, i) + j;
    at < all && merged[all - 1 - at] == buckets[i].list.items[j]
  }

  /** The merged list node by node: the buckets are emptied from the first on and each list from its head, and every
      entry becomes the new head. */
  lemma MergeOrder(l: SList, n: Table)
    ensures var merged, all := Merge(l, n).list.items, EntriesBefore(n.buckets, |n.buckets|);
            && |merged| == all + |l.items|
            && (forall j :: 0 <= j < |l.items| ==> merged[all + j] == l.items[j])
            && forall i, j :: 0 <= i < |n.buckets| && 0 <= j < |n.buckets[i].list.items| ==>
                 MovedTo(n.buckets, i, j, merged, all)
  {
    hide EntriesBefore, ListEntries, PushAll;
    var entries := ListEntries(n.buckets);
    PushAllOrder(l, entries);
    ListEntriesSize(n.buckets);
    forall i, j | 0 <= i < |n.buckets| && 0 <= j < |n.buckets[i].list.items|
      ensures MovedTo(n.buckets, i, j, Merge(l, n).list.items, |entries|)
    {
      ListEntriesAt(n.buckets, i, j);
    }
  }

  /** A merge gives a list that is in order and holds exactly what the inner lists held. */
  lemma MergeContents(path: seq<nat>, l: SList, n: Table)
    requires Placed(path, n) && l.items == []
    ensures Merge(l, n).Flat? && ListOk(path, Merge(l, n).list)
    ensures forall k: Ull :: FindIn(|path|, Merge(l, n), k)
                             == if n.At(Index(k, |path|)).Flat? then Find(|path|, n, k) else None
    ensures Merge(l, n).list.count == Wrap(l.count + |ListEntries(n.buckets)|)
    ensures |Merge(l, n).list.items| == |ListEntries(n.buckets)|
  {
    var entries, merged := ListEntries(n.buckets), Merge(l, n).list.items;
    assert n.buckets[0..] == n.buckets;
    ListEntriesContents(path, n, 0);
    PushAllContents(l, entries);
    forall e | e in merged ensures OnPath(e.key, path) {
      OnPathStep(e.key, path, Index(e.key, |path|));
      assert n.buckets[Index(e.key, |path|)].Flat?;
    }
    forall k: Ull
      ensures Assoc(merged, k) == if n.At(Index(k, |path|)).Flat? then Find(|path|, n, k) else None
    {
      MergedKey(path, n, merged, k);
    }
  }

  lemma MergedKey(path: seq<nat>, n: Table, merged: seq<KeyValue>, k: Ull)
    requires Placed(path, n) && Distinct(merged)
    requires forall e :: e in merged <==> e in n.buckets[Index(e.key, |path|)].list.items
    ensures Assoc(merged, k) == if n.At(Index(k, |path|)).Flat? then Find(|path|, n, k) else None
  {
    var items := n.buckets[Index(k, |path|)].list.items;
    PlacedChild(path, n, k);
    assert Distinct(items);
    if Assoc(merged, k).Some? {
      AssocMember(merged, k, Assoc(merged, k).value);
      AssocMember(items, k, Assoc(merged, k).value);
    } else if Assoc(items, k).Some? {
      AssocMember(items, k, Assoc(items, k).value);
      AssocMember(merged, k, Assoc(items, k).value);
    }
  }

  ghost predicate NoKeys(level: nat, t: Table) {
    forall k: Ull :: Find(level, t, k).None?
  }

  /** No key is stored below a nested table of this table. */
  ghost predicate NestedEmpty(level: nat, t: Table) {
    forall i :: 0 <= i < |t.buckets| && t.buckets[i].Deep? ==> NoKeys(level + 1, t.buckets[i].table)
  }

  ghost predicate SameKeys(level: nat, b: Bucket, t: Table) {
    forall k: Ull :: FindIn(level, b, k) == Find(level, t, k)
  }

  /** A merge keeps the map exactly when the merged table has no nested table with keys. */
  lemma MergeExact(path: seq<nat>, l: SList, n: Table)
    requires Placed(path, n) && l.items == []
    ensures NestedEmpty(|path|, n) <==> SameKeys(|path|, Merge(l, n), n)
  {
    if NestedEmpty(|path|, n) {
      MergeKeeps(path, l, n);
    } else {
      var i :| 0 <= i < |n.buckets| && n.buckets[i].Deep? && !NoKeys(|path| + 1, n.buckets[i].table);
      MergeLoses(path, l, n, i);
    }
  }

  lemma MergeKeeps(path: seq<nat>, l: SList, n: Table)
    requires Placed(path, n) && l.items == [] && NestedEmpty(|path|, n)
    ensures SameKeys(|path|, Merge(l, n), n)
  {
    MergeContents(path, l, n);
    forall k: Ull ensures FindIn(|path|, Merge(l, n), k) == Find(|path|, n, k) {
      PlacedChild(path, n, k);
    }
  }

  lemma MergeLoses(path: seq<nat>, l: SList, n: Table, i: nat)
    requires Placed(path, n) && l.items == []
    requires i < |n.buckets| && n.buckets[i].Deep? && !NoKeys(|path| + 1, n.buckets[i].table)
    ensures !SameKeys(|path|, Merge(l, n), n)
  {
    var k: Ull :| Find(|path| + 1, n.buckets[i].table, k).Some?;
    FoundOnPath(path + [i], n.buckets[i].table, k);
    OnPathStep(k, path, i);
    MergeContents(path, l, n);
    assert FindIn(|path|, Merge(l, n), k) != Find(|path|, n, k);
  }

  /** What is left of the key's value and of every other key's after one deletion. */
  function After(key: Ull, k: Ull, o: Option<Ull>): Option<Ull> {
    if k == key then Dropped(o) else o
  }

  /** Every merge that this delete triggers meets only nested tables without keys. */
  ghost predicate Lossless(level: nat, t: Table, key: Ull)
    decreases t
  {
    match t.At(Index(key, level))
    case Flat(_) => true
    case Deep(_, n) =>
      var n' := Delete(level + 1, n, key);
      Lossless(level + 1, n, key) && (n'.count < MERGE_SIZE ==> NestedEmpty(level + 1, n'))
  }

  /** What delete guarantees as the text stands: the invariant is kept, nothing appears, what is
      still stored has the right value, and count goes down exactly when the key's last reference goes. */
  ghost predicate Deleted(path: seq<nat>, t: Table, t': Table, key: Ull) {
    && Placed(path, t')
    && (forall k: Ull :: Find(|path|, t', k).Some? ==>
          Find(|path|, t', k) == After(key, k, Find(|path|, t, k)))
    && t'.count == if Find(|path|, t, key).Some? && Dropped(Find(|path|, t, key)).None? then Dec(t.count) else t.count
  }

  ghost predicate Exact(level: nat, t: Table, t': Table, key: Ull) {
    forall k: Ull :: Find(level, t', k) == After(key, k, Find(level, t, k))
  }

  ghost predicate ExactIn(level: nat, b: Bucket, b': Bucket, key: Ull) {
    forall k: Ull :: FindIn(level, b', k) == After(key, k, FindIn(level, b, k))
  }

  /** delete refines counting one occurrence less if and only if every merge on the way is lossless. */
  lemma {:induction false} DeleteRefines(path: seq<nat>, t: Table, key: Ull)
    requires Placed(path, t) && OnPath(key, path)
    ensures Deleted(path, t, Delete(|path|, t, key), key)
    ensures Lossless(|path|, t, key) <==> Exact(|path|, t, Delete(|path|, t, key), key)
    decreases t
  {
    var i := Index(key, |path|);
    var below := path + [i];
    OnPathStep(key, path, i);
    PlacedChild(path, t, key);
    match t.buckets[i] {
      case Deep(l, n) =>
        DeleteRefines(below, n, key);
        DeletedDeep(path, t, key);
      case Flat(l) =>
        RemoveKeyRefines(l, key);
        DeletedFlat(path, t, key);
    }
  }

  /** A bucket that lost nothing but the key's last reference, or that lost more. */
  lemma DeletedBucket(path: seq<nat>, t: Table, key: Ull, b: Bucket, b': Bucket, t': Table, level: nat)
    requires Placed(path, t) && b == t.buckets[Index(key, |path|)] && level == |path| + 1
    requires t' == t.With(Index(key, |path|), b', t'.count)
    requires PlacedIn(path + [Index(key, |path|)], b')
    requires forall k: Ull :: FindIn(level, b', k).Some? ==> FindIn(level, b', k) == After(key, k, FindIn(level, b, k))
    ensures Placed(path, t')
    ensures Find(|path|, t, key) == FindIn(level, b, key)
    ensures forall k: Ull :: Find(|path|, t', k).Some? ==> Find(|path|, t', k) == After(key, k, Find(|path|, t, k))
    ensures ExactIn(level, b, b', key) <==> Exact(|path|, t, t', key)
  {
    var i := Index(key, |path|);
    PlacedWith(path, t, i, b', t'.count);
    forall k: Ull
      ensures Find(|path|, t', k) == if Index(k, |path|) == i then FindIn(level, b', k) else Find(|path|, t, k)
      ensures Index(k, |path|) == i ==> Find(|path|, t, k) == FindIn(level, b, k)
    {
      FindWith(|path|, t, i, b', t'.count, k);
    }
    forall k: Ull | Index(k, |path|) != i
      ensures FindIn(level, b', k).None? && FindIn(level, b, k).None?
    {
      NotInBucket(path, b, i, k);
      NotInBucket(path, b', i, k);
    }
  }

  /** A bucket holds no key whose index is another one. */
  lemma NotInBucket(path: seq<nat>, b: Bucket, i: nat, k: Ull)
    requires PlacedIn(path + [i], b) && Index(k, |path|) != i
    ensures FindIn(|path| + 1, b, k).None?
  {
    OnPathStep(k, path, i);
    match b
    case Flat(l) =>
      assert forall j :: 0 <= j < |l.items| ==> l.items[j] in l.items;
    case Deep(_, n) =>
      if Find(|path| + 1, n, k).Some? {
        FoundOnPath(path + [i], n, k);
      }
  }

  lemma DeletedFlat(path: seq<nat>, t: Table, key: Ull)
    requires Placed(path, t) && OnPath(key, path) && t.buckets[Index(key, |path|)].Flat?
    ensures Deleted(path, t, Delete(|path|, t, key), key)
    ensures Exact(|path|, t, Delete(|path|, t, key), key)
  {
    var i := Index(key, |path|);
    var b := t.buckets[i];
    RemoveKeyRefines(b.list, key);
    RemovedListOk(path + [i], b.list, key);
    DeletedBucket(path, t, key, b, Flat(RemoveKey(b.list, key)), Delete(|path|, t, key), |path| + 1);
  }

  lemma RemovedListOk(path: seq<nat>, l: SList, key: Ull)
    requires ListOk(path, l)
    ensures ListOk(path, RemoveKey(l, key))
  {
    RemoveKeyRefines(l, key);
    var l' := RemoveKey(l, key);
    forall e | e in l'.items ensures OnPath(e.key, path) {
      AssocMember(l'.items, e.key, e.value);
      assert l.items[IndexOf(l.items, e.key)] in l.items;
    }
    if |path| == LAST_LEVEL + 1 {
      LastLevelNeverSplits(path, l);
    }
  }

  /** The bucket that delete leaves above a nested table: merged or not. */
  lemma MergedBucket(path: seq<nat>, l: SList, n: Table, b: Bucket)
    requires Placed(path, n) && l.items == []
    requires b == if n.count < MERGE_SIZE then Merge(l, n) else Deep(l, n)
    ensures PlacedIn(path, b)
    ensures forall k: Ull :: FindIn(|path|, b, k).Some? ==> FindIn(|path|, b, k) == Find(|path|, n, k)
    ensures SameKeys(|path|, b, n) <==> (n.count < MERGE_SIZE ==> NestedEmpty(|path|, n))
  {
    MergeContents(path, l, n);
    MergeExact(path, l, n);
  }

  lemma DeletedDeep(path: seq<nat>, t: Table, key: Ull)
    requires Placed(path, t) && t.buckets[Index(key, |path|)].Deep?
    requires var n := t.buckets[Index(key, |path|)].table;
             var n' := Delete(|path| + 1, n, key);
             && Deleted(path + [Index(key, |path|)], n, n', key)
             && (Lossless(|path| + 1, n, key) <==> Exact(|path| + 1, n, n', key))
    ensures Deleted(path, t, Delete(|path|, t, key), key)
    ensures Lossless(|path|, t, key) <==> Exact(|path|, t, Delete(|path|, t, key), key)
  {
    var level, b := |path| + 1, t.buckets[Index(key, |path|)];
    var below := path + [Index(key, |path|)];
    var t', n' := Delete(|path|, t, key), Delete(level, b.table, key);
    var b' := if n'.count < MERGE_SIZE then Merge(b.list, n') else Deep(b.list, n');
    assert |below| == level;
    PlacedChild(path, t, key);
    DeleteDeep(|path|, t, key, b', n');
    DeletedInBucket(below, b, n', b', key);
    DeletedBucket(path, t, key, b, b', t', level);
    assert Deleted(path, t, t', key) by {
      assert Find(|path|, t, key) == Find(level, b.table, key);
      assert n'.count == b.table.count <==> t'.count == t.count;
    }
    assert Lossless(|path|, t, key) <==> ExactIn(level, b, b', key);
  }

  /** delete on a deep bucket, spelled out. */
  lemma DeleteDeep(level: nat, t: Table, key: Ull, b: Bucket, n: Table)
    requires |t.buckets| == TABLE_SIZE && t.buckets[Index(key, level)].Deep?
    requires n == Delete(level + 1, t.buckets[Index(key, level)].table, key)
    requires b == if n.count < MERGE_SIZE then Merge(t.buckets[Index(key, level)].list, n)
                  else Deep(t.buckets[Index(key, level)].list, n)
    ensures var t' := Delete(level, t, key);
            && t' == t.With(Index(key, level), b, t'.count)
            && t'.count == if t.buckets[Index(key, level)].table.count != n.count then Dec(t.count) else t.count
    ensures Lossless(level, t, key)
            <==> Lossless(level + 1, t.buckets[Index(key, level)].table, key)
                 && (n.count < MERGE_SIZE ==> NestedEmpty(level + 1, n))
  {
  }

  lemma DeletedInBucket(path: seq<nat>, b: Bucket, n': Table, b': Bucket, key: Ull)
    requires b.Deep? && b.list.items == []
    requires Deleted(path, b.table, n', key)
    requires b' == if n'.count < MERGE_SIZE then Merge(b.list, n') else Deep(b.list, n')
    ensures PlacedIn(path, b')
    ensures forall k: Ull :: FindIn(|path|, b', k).Some? ==>
              FindIn(|path|, b', k) == After(key, k, FindIn(|path|, b, k))
    ensures Exact(|path|, b.table, n', key) && (n'.count < MERGE_SIZE ==> NestedEmpty(|path|, n'))
            <==> ExactIn(|path|, b, b', key)
  {
    MergedBucket(path, b.list, n', b');
    LostStaysLost(|path|, key, b, n', b');
  }

  /** A merge brings nothing back that the inner delete lost. */
  lemma LostStaysLost(level: nat, key: Ull, b: Bucket, n': Table, b': Bucket)
    requires b.Deep?
    requires forall k: Ull :: FindIn(level, b', k).Some? ==> FindIn(level, b', k) == Find(level, n', k)
    requires forall k: Ull :: Find(level, n', k).Some? ==> Find(level, n', k) == After(key, k, Find(level, b.table, k))
    ensures Exact(level, b.table, n', key) && SameKeys(level, b', n')
            <==> ExactIn(level, b, b', key)
  {
    if ExactIn(level, b, b', key) {
      forall k: Ull ensures Find(level, n', k) == After(key, k, Find(level, b.table, k)) == FindIn(level, b', k) {
        assert FindIn(level, b', k) == After(key, k, FindIn(level, b, k));
      }
    }
  }
}
