/** The hash trie of hashtable.c, as values: tables, buckets, and what put and delete do to them. */
module Trie {
  import opened Words
  import opened AssociationList

  const SPLIT_SIZE: nat := 15
  const MERGE_SIZE: nat := 6
  const LAST_LEVEL: nat := 15

  /** Deep: `bucket.table` is not NULL. The list of a deep bucket is kept allocated. */
  datatype Bucket = Flat(list: SList) | Deep(list: SList, table: Table)

  datatype Table = Table(count: Ull, buckets: seq<Bucket>)
  {
    /** `bucket[i]`; a table has sixteen. */
    function At(i: nat): (b: Bucket)
      ensures b.Deep? ==> b.table < this
    {
      if i < |buckets| then buckets[i] else Flat(EMPTY_LIST)
    }

    /** Storing bucket i; count goes up by one when the bucket's own count changed. */
    function With(i: nat, b: Bucket, newCount: Ull): Table {
      Table(newCount, if i < |buckets| then buckets[i := b] else buckets)
    }
  }

  /** _new_hashtable */
  function NewTable(): Table {
    Table(0, seq(TABLE_SIZE, _ => Flat(EMPTY_LIST)))
  }

  lemma NewTableBuckets()
    ensures |NewTable().buckets| == TABLE_SIZE && NewTable().count == 0
    ensures forall i :: 0 <= i < TABLE_SIZE ==> NewTable().buckets[i] == Flat(EMPTY_LIST)
  {
  }

  /** What a table is asked to take in: one more occurrence of a key (put), or a key with
      the value it already had (hashtable_put_key_value, used when a list is split). */
  datatype Entry = Touch(key: Ull) | Carry(key: Ull, value: Ull)

  function Enter(l: SList, e: Entry): SList {
    match e
    case Touch(key) => AddKey(l, key)
    case Carry(key, value) => Push(l, KeyValue(key, value))
  }

  /** put and hashtable_put_key_value, which differ only in what they do to a list. */
  function Insert(v: Variant, level: nat, t: Table, e: Entry): Table
    decreases LevelsBelow(level), 1, t
  {
    var i := Index(e.key, level);
    match t.At(i)
    case Deep(l, n) =>
      var n' := Insert(v, level + 1, n, e);
      t.With(i, Deep(l, n'), if n.count != n'.count then Inc(t.count) else t.count)
    case Flat(l) =>
      var l' := Enter(l, e);
      t.With(i, Settle(v, level, l'), if l.count != l'.count then Inc(t.count) else t.count)
  }

  function LevelsBelow(level: nat): nat {
    if level <= LAST_LEVEL then LAST_LEVEL - level else 0
  }

  /** A list whose count passes SPLIT_SIZE is poured into a new table one level down. The code
      has no test of the level: the method that mirrors it is proved never to split at level 15. */
  function Settle(v: Variant, level: nat, l: SList): Bucket
    decreases LevelsBelow(level), 0
  {
    if l.count > SPLIT_SIZE && level < LAST_LEVEL then
      Deep(Drained(v, l), Pour(v, level + 1, NewTable(), l.items))
    else
      Flat(l)
  }

  /** Inserting popped entries one after the other. */
  function Pour(v: Variant, level: nat, t: Table, items: seq<KeyValue>): Table
    decreases LevelsBelow(level), 2, |items|
  {
    if items == [] then t
    else Pour(v, level, Insert(v, level, t, Carry(items[0].key, items[0].value)), items[1..])
  }

  /** The entries of the lists of a row of buckets; those of nested tables are not among them. */
  function ListEntries(buckets: seq<Bucket>): seq<KeyValue> {
    if buckets == [] then [] else buckets[0].list.items + ListEntries(buckets[1..])
  }

  /** The bucket after a merge: the inner lists are moved over, then the inner table is destroyed. */
  function Merge(l: SList, n: Table): Bucket {
    Flat(PushAll(l, ListEntries(n.buckets)))
  }

  function Delete(level: nat, t: Table, key: Ull): Table
    decreases t
  {
    var i := Index(key, level);
    match t.At(i)
    case Deep(l, n) =>
      var n' := Delete(level + 1, n, key);
      t.With(i, if n'.count < MERGE_SIZE then Merge(l, n') else Deep(l, n'),
             if n.count != n'.count then Dec(t.count) else t.count)
    case Flat(l) =>
      var l' := RemoveKey(l, key);
      t.With(i, Flat(l'), if l.count != l'.count then Dec(t.count) else t.count)
  }

  /** The bucket that takes the place of b in a table at this level. */
  function InsertIn(v: Variant, level: nat, b: Bucket, e: Entry): Bucket {
    match b
    case Deep(l, n) => Deep(l, Insert(v, level + 1, n, e))
    case Flat(l) => Settle(v, level, Enter(l, e))
  }

  function DeleteIn(level: nat, b: Bucket, key: Ull): Bucket {
    match b
    case Deep(l, n) =>
      var n' := Delete(level + 1, n, key);
      if n'.count < MERGE_SIZE then Merge(l, n') else Deep(l, n')
    case Flat(l) => Flat(RemoveKey(l, key))
  }

  /** What a change of one bucket means for the table: the count is watched, not recomputed. */
  lemma InsertBelow(v: Variant, level: nat, t: Table, e: Entry, i: nat, n: Table, c: Ull)
    requires |t.buckets| == TABLE_SIZE && i == Index(e.key, level) && t.buckets[i].Deep?
    requires n == Insert(v, level + 1, t.buckets[i].table, e)
    requires c == if t.buckets[i].table.count != n.count then Inc(t.count) else t.count
    ensures t.With(i, Deep(t.buckets[i].list, n), c) == Insert(v, level, t, e)
  {
  }

  lemma InsertHere(v: Variant, level: nat, t: Table, e: Entry, i: nat, b: Bucket, c: Ull)
    requires |t.buckets| == TABLE_SIZE && i == Index(e.key, level) && t.buckets[i].Flat?
    requires b == Settle(v, level, Enter(t.buckets[i].list, e))
    requires c == if t.buckets[i].list.count != Enter(t.buckets[i].list, e).count then Inc(t.count) else t.count
    ensures t.With(i, b, c) == Insert(v, level, t, e)
  {
  }

  lemma DeleteBelow(level: nat, t: Table, key: Ull, i: nat, n: Table, c: Ull)
    requires |t.buckets| == TABLE_SIZE && i == Index(key, level) && t.buckets[i].Deep?
    requires n == Delete(level + 1, t.buckets[i].table, key)
    requires c == if t.buckets[i].table.count != n.count then Dec(t.count) else t.count
    ensures var b := if n.count < MERGE_SIZE then Merge(t.buckets[i].list, n) else Deep(t.buckets[i].list, n);
            t.With(i, b, c) == Delete(level, t, key)
  {
  }

  lemma DeleteHere(level: nat, t: Table, key: Ull, i: nat, l: SList, c: Ull)
    requires |t.buckets| == TABLE_SIZE && i == Index(key, level) && t.buckets[i].Flat?
    requires l == RemoveKey(t.buckets[i].list, key)
    requires c == if t.buckets[i].list.count != l.count then Dec(t.count) else t.count
    ensures t.With(i, Flat(l), c) == Delete(level, t, key)
  {
  }

  /** An insertion or a deletion changes the bucket that the key's digit at this level names, and no other. */
  lemma OtherBucketsStay(v: Variant, level: nat, t: Table, e: Entry, j: nat)
    requires |t.buckets| == TABLE_SIZE && j < TABLE_SIZE && j != e.key / Pow2(4 * level) % 16
    ensures var t' := Insert(v, level, t, e);
            |t'.buckets| == TABLE_SIZE && t'.buckets[j] == t.buckets[j]
    ensures var t' := Delete(level, t, e.key);
            |t'.buckets| == TABLE_SIZE && t'.buckets[j] == t.buckets[j]
  {
    hide Insert, Delete, Pow2;
    IndexIs(e.key, level);
    OneBucketChanges(v, level, t, e);
  }

  lemma SettleSplits(v: Variant, level: nat, l: SList)
    requires l.count > SPLIT_SIZE && level < LAST_LEVEL
    ensures Settle(v, level, l) == Deep(Drained(v, l), Pour(v, level + 1, NewTable(), l.items))
  {
  }

  lemma OneBucketChanges(v: Variant, level: nat, t: Table, e: Entry)
    requires |t.buckets| == TABLE_SIZE
    ensures var i, t' := Index(e.key, level), Insert(v, level, t, e);
            t' == t.With(i, InsertIn(v, level, t.buckets[i], e), t'.count)
    ensures var i, t' := Index(e.key, level), Delete(level, t, e.key);
            t' == t.With(i, DeleteIn(level, t.buckets[i], e.key), t'.count)
  {
  }

  // ------------------------------------------------------------------
  // What a trie means

  /** The value stored for a key: the list at the end of the key's path is searched. */
  function Find(level: nat, t: Table, key: Ull): Option<Ull>
    decreases t
  {
    match t.At(Index(key, level))
    case Flat(l) => Assoc(l.items, key)
    case Deep(_, n) => Find(level + 1, n, key)
  }

  /** The same for one bucket of a table; `level` is that of a table inside the bucket. */
  function FindIn(level: nat, b: Bucket, key: Ull): Option<Ull> {
    match b
    case Flat(l) => Assoc(l.items, key)
    case Deep(_, n) => Find(level, n, key)
  }

  // ------------------------------------------------------------------
  // The invariant of the text as it stands. It does not rely on any list's count, except
  // at the last level, where no list is ever popped.

  ghost predicate ListOk(path: seq<nat>, l: SList) {
    && Distinct(l.items)
    && (forall e :: e in l.items ==> OnPath(e.key, path))
    && (|path| == LAST_LEVEL + 1 ==> l.count == |l.items|)
  }

  /** Every key of the table at this path lies on the path its indices name, lists have distinct
      keys, a bucket with a table has an empty list, and no table lies below level 15. */
  ghost predicate Placed(path: seq<nat>, t: Table)
    decreases t
  {
    && |t.buckets| == TABLE_SIZE
    && |path| <= LAST_LEVEL
    && (forall i :: 0 <= i < TABLE_SIZE && t.buckets[i].Flat? ==> ListOk(path + [i], t.buckets[i].list))
    && (forall i :: 0 <= i < TABLE_SIZE && t.buckets[i].Deep? ==>
          t.buckets[i].list.items == [] && Placed(path + [i], t.buckets[i].table))
  }

  ghost predicate PlacedIn(path: seq<nat>, b: Bucket) {
    match b
    case Flat(l) => ListOk(path, l)
    case Deep(l, n) => l.items == [] && Placed(path, n)
  }

  /** At level 15 a list holds at most one key, so it can never be split. */
  lemma LastLevelNeverSplits(path: seq<nat>, l: SList)
    requires |path| == LAST_LEVEL + 1 && ListOk(path, l)
    ensures |l.items| <= 1 && l.count <= SPLIT_SIZE
  {
    if |l.items| > 1 {
      assert l.items[0] in l.items && l.items[1] in l.items;
      PathRebuildsKey(l.items[0].key, path);
      PathRebuildsKey(l.items[1].key, path);
      assert false;
    }
  }

  /** Only keys on a table's path are found in it. */
  lemma {:induction false} FoundOnPath(path: seq<nat>, t: Table, key: Ull)
    requires Placed(path, t) && Find(|path|, t, key).Some?
    ensures OnPath(key, path)
    decreases t
  {
    var i := Index(key, |path|);
    match t.buckets[i]
    case Flat(l) =>
      assert l.items[IndexOf(l.items, key)] in l.items;
      OnPathStep(key, path, i);
    case Deep(_, n) =>
      FoundOnPath(path + [i], n, key);
      OnPathStep(key, path, i);
  }

  /** Replacing the bucket on a key's path by one that differs only in that key changes only that key. */
  lemma ChangedBucket(path: seq<nat>, level: nat, t: Table, key: Ull, b: Bucket, b': Bucket, c: Ull)
    requires Placed(path, t) && b == t.buckets[Index(key, |path|)] && level == |path| + 1
    requires PlacedIn(path + [Index(key, |path|)], b')
    requires forall k: Ull :: k != key ==> FindIn(level, b', k) == FindIn(level, b, k)
    ensures Placed(path, t.With(Index(key, |path|), b', c))
    ensures Find(|path|, t, key) == FindIn(level, b, key)
    ensures Find(|path|, t.With(Index(key, |path|), b', c), key) == FindIn(level, b', key)
    ensures forall k: Ull :: k != key ==>
              Find(|path|, t.With(Index(key, |path|), b', c), k) == Find(|path|, t, k)
  {
    PlacedWith(path, t, Index(key, |path|), b', c);
    forall k: Ull
      ensures Find(|path|, t.With(Index(key, |path|), b', c), k)
              == if Index(k, |path|) == Index(key, |path|) then FindIn(level, b', k) else Find(|path|, t, k)
      ensures Index(k, |path|) == Index(key, |path|) ==> Find(|path|, t, k) == FindIn(level, b, k)
    {
      FindWith(|path|, t, Index(key, |path|), b', c, k);
    }
  }

  lemma FindWith(level: nat, t: Table, i: nat, b: Bucket, c: Ull, key: Ull)
    requires i < |t.buckets| == TABLE_SIZE
    ensures Find(level, t.With(i, b, c), key)
            == if Index(key, level) == i then FindIn(level + 1, b, key) else Find(level, t, key)
    ensures Find(level, t, key) == FindIn(level + 1, t.buckets[Index(key, level)], key)
  {
    assert t.With(i, b, c).At(Index(key, level)) == if Index(key, level) == i then b else t.At(Index(key, level));
  }

  lemma PlacedWith(path: seq<nat>, t: Table, i: nat, b: Bucket, c: Ull)
    requires Placed(path, t) && i < TABLE_SIZE && PlacedIn(path + [i], b)
    ensures Placed(path, t.With(i, b, c))
  {
  }

  /** One step down a key's path. */
  lemma PlacedChild(path: seq<nat>, t: Table, key: Ull)
    requires Placed(path, t)
    ensures |t.buckets| == TABLE_SIZE && |path| <= LAST_LEVEL
    ensures var i := Index(key, |path|);
            && PlacedIn(path + [i], t.buckets[i])
            && (t.buckets[i].Deep? ==> |path| < LAST_LEVEL && t.buckets[i].table < t)
            && Find(|path|, t, key) == FindIn(|path| + 1, t.buckets[i], key)
  {
  }

  lemma NewTablePlaced(path: seq<nat>)
    requires |path| <= LAST_LEVEL
    ensures Placed(path, NewTable())
    ensures forall k: Ull :: Find(|path|, NewTable(), k) == None
  {
  }

  // ------------------------------------------------------------------
  // put, through every cascade of splits

  function Entered(e: Entry, o: Option<Ull>): Option<Ull> {
    if e.Touch? then Bumped(o) else Some(e.value)
  }

  /** t' is t with the entry taken in: no other key changes, the invariant is kept, and count
      grows by one exactly when the key is new. */
  ghost predicate Inserted(path: seq<nat>, t: Table, t': Table, e: Entry) {
    && Placed(path, t')
    && Find(|path|, t', e.key) == Entered(e, Find(|path|, t, e.key))
    && (forall k: Ull :: k != e.key ==> Find(|path|, t', k) == Find(|path|, t, k))
    && t'.count == if Find(|path|, t, e.key).None? then Inc(t.count) else t.count
  }

  /** Insert refines one more occurrence of the key, or the carried value for a key that was absent. */
  lemma {:induction false} InsertRefines(v: Variant, path: seq<nat>, t: Table, e: Entry)
    requires Placed(path, t) && OnPath(e.key, path)
    requires e.Carry? ==> Find(|path|, t, e.key).None?
    ensures Inserted(path, t, Insert(v, |path|, t, e), e)
    decreases LevelsBelow(|path|), 1, t
  {
    var i := Index(e.key, |path|);
    var below := path + [i];
    OnPathStep(e.key, path, i);
    PlacedChild(path, t, e.key);
    match t.buckets[i] {
      case Deep(l, n) =>
        InsertRefines(v, below, n, e);
        InsertedDeep(v, path, t, e);
      case Flat(l) =>
        EnterRefines(below, l, e);
        SettleRefines(v, below, Enter(l, e));
        InsertedFlat(v, path, t, e);
    }
  }

  lemma InsertedDeep(v: Variant, path: seq<nat>, t: Table, e: Entry)
    requires Placed(path, t) && t.buckets[Index(e.key, |path|)].Deep?
    requires var i := Index(e.key, |path|);
             var n := t.buckets[i].table;
             Inserted(path + [i], n, Insert(v, |path| + 1, n, e), e)
    ensures Inserted(path, t, Insert(v, |path|, t, e), e)
  {
    hide Shr, OnPath, ListOk, Find, Settle, PlacedIn, Bumped;
    var i := Index(e.key, |path|);
    var b := t.buckets[i];
    var b' := Deep(b.list, Insert(v, |path| + 1, b.table, e));
    ChangedBucket(path, |path| + 1, t, e.key, b, b', Insert(v, |path|, t, e).count);
  }

  lemma InsertedFlat(v: Variant, path: seq<nat>, t: Table, e: Entry)
    requires Placed(path, t) && t.buckets[Index(e.key, |path|)].Flat?
    requires var i := Index(e.key, |path|);
             var l := t.buckets[i].list;
             var b' := Settle(v, |path|, Enter(l, e));
             && ListEntered(l, Enter(l, e), e)
             && PlacedIn(path + [i], b')
             && forall k: Ull :: FindIn(|path| + 1, b', k) == Assoc(Enter(l, e).items, k)
    ensures Inserted(path, t, Insert(v, |path|, t, e), e)
  {
    var i := Index(e.key, |path|);
    var b := t.buckets[i];
    ChangedBucket(path, |path| + 1, t, e.key, b, Settle(v, |path|, Enter(b.list, e)), Insert(v, |path|, t, e).count);
  }

  ghost predicate ListEntered(l: SList, l': SList, e: Entry) {
    && Assoc(l'.items, e.key) == Entered(e, Assoc(l.items, e.key))
    && (forall k: Ull :: k != e.key ==> Assoc(l'.items, k) == Assoc(l.items, k))
    && l'.count == (if Assoc(l.items, e.key).None? then Inc(l.count) else l.count)
    && |l'.items| == |l.items| + (if Assoc(l.items, e.key).None? then 1 else 0)
  }

  lemma EnterRefines(path: seq<nat>, l: SList, e: Entry)
    requires ListOk(path, l) && OnPath(e.key, path)
    requires e.Carry? ==> Assoc(l.items, e.key).None?
    ensures ListOk(path, Enter(l, e)) && ListEntered(l, Enter(l, e), e)
  {
    if e.Touch? {
      AddKeyRefines(l, e.key);
    } else {
      forall k: Ull
        ensures Assoc(Enter(l, e).items, k) == if k == e.key then Some(e.value) else Assoc(l.items, k)
      {
        AssocPush(l, KeyValue(e.key, e.value), k);
      }
      AssocPush(l, KeyValue(e.key, e.value), e.key);
    }
    if |path| == LAST_LEVEL + 1 {
      LastLevelNeverSplits(path, l);
    }
  }

  lemma {:induction false} SettleRefines(v: Variant, path: seq<nat>, l: SList)
    requires 1 <= |path| <= LAST_LEVEL + 1 && ListOk(path, l)
    ensures PlacedIn(path, Settle(v, |path| - 1, l))
    ensures forall k: Ull :: FindIn(|path|, Settle(v, |path| - 1, l), k) == Assoc(l.items, k)
    ensures Settle(v, |path| - 1, l).Deep? <==> l.count > SPLIT_SIZE
    decreases LevelsBelow(|path| - 1), 0
  {
    if |path| == LAST_LEVEL + 1 {
      LastLevelNeverSplits(path, l);
    } else {
      NewTablePlaced(path);
      PourRefines(v, path, NewTable(), l.items);
    }
  }

  /** Keys still to be poured: different, on the path, and not yet in the table. */
  ghost predicate Pourable(path: seq<nat>, t: Table, items: seq<KeyValue>) {
    && Placed(path, t)
    && Distinct(items)
    && forall e :: e in items ==> OnPath(e.key, path) && Find(|path|, t, e.key).None?
  }

  lemma {:induction false} PourStep(v: Variant, path: seq<nat>, t: Table, items: seq<KeyValue>)
    requires Pourable(path, t, items) && items != []
    ensures Placed(path, t) && OnPath(items[0].key, path) && Find(|path|, t, items[0].key).None?
    ensures Pourable(path, Insert(v, |path|, t, Carry(items[0].key, items[0].value)), items[1..])
    decreases LevelsBelow(|path|), 2
  {
    var e := Carry(items[0].key, items[0].value);
    assert items[0] in items;
    InsertRefines(v, path, t, e);
    forall d | d in items[1..]
      ensures OnPath(d.key, path) && Find(|path|, Insert(v, |path|, t, e), d.key).None?
    {
      assert d in items;
      assert d.key != items[0].key;
    }
  }

  /** Pouring distinct new keys adds exactly them. */
  lemma {:induction false} PourRefines(v: Variant, path: seq<nat>, t: Table, items: seq<KeyValue>)
    requires Pourable(path, t, items)
    ensures Placed(path, Pour(v, |path|, t, items))
    ensures forall k: Ull :: Find(|path|, Pour(v, |path|, t, items), k)
                             == if Assoc(items, k).Some? then Assoc(items, k) else Find(|path|, t, k)
    decreases LevelsBelow(|path|), 3, |items|
  {
    if items != [] {
      var e := Carry(items[0].key, items[0].value);
      assert items[0] in items;
      InsertRefines(v, path, t, e);
      PourStep(v, path, t, items);
      PourRefines(v, path, Insert(v, |path|, t, e), items[1..]);
      forall k: Ull
        ensures Assoc(items, k) == if k == items[0].key then Some(items[0].value) else Assoc(items[1..], k)
      {
      }
      AssocIs(items, 0);
      assert forall i :: 0 <= i < |items| - 1 ==> items[1..][i] == items[i + 1];
      assert Assoc(items[1..], items[0].key).None?;
    }
  }

  // ------------------------------------------------------------------
  // The order of a split

  /** The entries that go to one bucket, in the order in which they come. */
  function InBucket(items: seq<KeyValue>, level: nat, i: nat): seq<KeyValue> {
    if items == [] then []
    else (if Index(items[0].key, level) == i then [items[0]] else []) + InBucket(items[1..], level, i)
  }

  lemma {:induction false} DeepStays(v: Variant, level: nat, t: Table, items: seq<KeyValue>, i: nat)
    requires |t.buckets| == TABLE_SIZE && i < TABLE_SIZE && t.buckets[i].Deep?
    ensures |Pour(v, level, t, items).buckets| == TABLE_SIZE && Pour(v, level, t, items).buckets[i].Deep?
    decreases |items|
  {
    hide Insert, Index;
    if items != [] {
      var e := Carry(items[0].key, items[0].value);
      OneBucketChanges(v, level, t, e);
      DeepStays(v, level, Insert(v, level, t, e), items[1..], i);
    }
  }

  /** A bucket that is still a list after pouring has got its entries one after the other, so the last is the head. */
  lemma {:induction false} PourOrder(v: Variant, level: nat, t: Table, items: seq<KeyValue>, i: nat)
    requires |t.buckets| == TABLE_SIZE && i < TABLE_SIZE
    requires |Pour(v, level, t, items).buckets| == TABLE_SIZE && Pour(v, level, t, items).buckets[i].Flat?
    ensures t.buckets[i].Flat?
    ensures Pour(v, level, t, items).buckets[i].list == PushAll(t.buckets[i].list, InBucket(items, level, i))
    decreases |items|
  {
    hide Insert, Index;
    if t.buckets[i].Deep? {
      DeepStays(v, level, t, items, i);
      assert false;
    }
    if items != [] {
      var e := Carry(items[0].key, items[0].value);
      OneBucketChanges(v, level, t, e);
      PourOrder(v, level, Insert(v, level, t, e), items[1..], i);
      var rest := InBucket(items[1..], level, i);
      assert ([items[0]] + rest)[1..] == rest && [] + rest == rest;
      if Index(items[0].key, level) == i {
        assert Insert(v, level, t, e).buckets[i] == Settle(v, level, Push(t.buckets[i].list, items[0]));
      } else {
        assert Insert(v, level, t, e).buckets[i] == t.buckets[i];
      }
    }
  }
}
