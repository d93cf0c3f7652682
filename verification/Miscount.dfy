/** The text as written reports a wrong size: a trace of thirty one-byte accesses with pages of
    sixteen bytes and a window of seventeen. The second pop decrement leaves a merged list with a
    huge count, the next touch splits it again however short it is, and a merge one level up then
    destroys a nested table that still has keys. */
module Miscount {
  import opened Words
  import opened AssociationList
  import opened Trie
  import opened TrieDelete
  import opened TrieShape
  import opened TrieRuns
  import opened Restructuring
  import opened Window
  import opened Evictions

  const CFG: Config := Config(4, 17)

  /** Sixteen pages that share their two lowest indices, page 16 in between, then the last page again and again. */
  function Page(i: nat): (page: Ull)
    ensures page <= 3840
  {
    if i < 11 then 256 * i else if i == 11 then 16 else if i < 17 then 256 * (i - 1) else 3840
  }

  function Trace(n: nat): seq<Access> {
    if n == 0 then [] else Trace(n - 1) + [Access(16 * Page(n - 1), 1)]
  }

  function TrieAfter(n: nat): Table {
    RunWindow(AsWritten, CFG, Trace(n)).trie
  }

  lemma OneMore(n: nat)
    ensures RunWindow(AsWritten, CFG, Trace(n + 1))
            == Slide(AsWritten, CFG, RunWindow(AsWritten, CFG, Trace(n)), Access(16 * Page(n), 1))
  {
    hide Slide, Page;
    assert Trace(n + 1)[..|Trace(n + 1)| - 1] == Trace(n);
  }

  lemma {:induction false} QueueAfter(n: nat)
    ensures RunWindow(AsWritten, CFG, Trace(n)).queue
            == seq(if n > 17 then 17 else n, i requires 0 <= i => MemRef(Page(if n > 17 then n - 17 + i else i), 1))
  {
    hide Page, PutPages, DeletePages, ToRef;
    if n > 0 {
      QueueAfter(n - 1);
      PageRef(n - 1);
      OneMore(n - 1);
    }
  }

  lemma PageRef(i: nat)
    ensures ToRef(4, Access(16 * Page(i), 1)) == MemRef(Page(i), 1)
  {
    ShrStep(16 * Page(i), 0);
  }

  lemma NextTrie(n: nat)
    ensures var t := Insert(AsWritten, 0, TrieAfter(n), Touch(Page(n)));
            TrieAfter(n + 1) == if n < 17 then t else Delete(0, t, Page(n - 17))
  {
    hide Page, Insert, Delete, RunWindow, PutPages, DeletePages, ToRef;
    QueueAfter(n);
    PageRef(n);
    OneMore(n);
    OnePage(TrieAfter(n), Page(n));
    OnePage(PutPages(AsWritten, TrieAfter(n), Page(n), 1), Page(if n < 17 then 0 else n - 17));
  }

  lemma OnePage(t: Table, page: Ull)
    ensures PutPages(AsWritten, t, page, 1) == Insert(AsWritten, 0, t, Touch(page))
    ensures DeletePages(t, page, 1) == Delete(0, t, page)
  {
    hide Insert, Delete;
    assert PutPages(AsWritten, t, page, 0) == t && DeletePages(t, page, 0) == t;
  }

  /** The pages number lo to hi - 1 of the trace. */
  ghost function Pages(lo: nat, hi: nat): set<Ull> {
    set i | lo <= i < hi :: Page(i)
  }

  lemma {:induction false} PagesCount(lo: nat, hi: nat)
    requires lo <= hi <= 17
    ensures |Pages(lo, hi)| == hi - lo
    decreases hi
  {
    if lo == hi {
      assert Pages(lo, hi) == {};
    } else {
      PagesCount(lo, hi - 1);
      assert Pages(lo, hi) == Pages(lo, hi - 1) + {Page(hi - 1)};
    }
  }

  lemma PageIndices(i: nat)
    requires i < 17
    ensures Index(Page(i), 0) == 0 && Index(Page(i), 1) == if i == 11 then 1 else 0
    ensures i != 11 ==> Index(Page(i), 2) == if i < 11 then i else i - 1
  {
    ShrStep(Page(i), 0);
    ShrStep(Page(i), 1);
  }

  /** A trie that holds exactly these pages, each but the last once, and in which no merge has happened. */
  ghost predicate Holds(t: Table, lo: nat, hi: nat) {
    && Placed([], t) && Sized(AsWritten, MERGE_SIZE, 0, t)
    && (forall k: Ull :: Find(0, t, k).Some? <==> k in Pages(lo, hi))
    && (forall k: Ull :: k in Pages(lo, hi) && k != Page(16) ==> Find(0, t, k) == Some(1))
  }

  lemma {:induction false} FirstPages(n: nat)
    requires n <= 17
    ensures Holds(TrieAfter(n), 0, n)
  {
    hide Placed, Sized, Find, Insert, Page, Pages;
    if n == 0 {
      NewTablePlaced([]);
      NewTableSized(AsWritten, MERGE_SIZE, []);
      NoPages();
    } else {
      FirstPages(n - 1);
      NextTrie(n - 1);
      NextPage(TrieAfter(n - 1), n - 1);
    }
  }

  lemma NoPages()
    ensures Pages(0, 0) == {}
  {
  }

  lemma NextPage(t: Table, n: nat)
    requires n < 17 && Holds(t, 0, n)
    ensures Holds(Insert(AsWritten, 0, t, Touch(Page(n))), 0, n + 1)
  {
    hide Placed, Sized, Find, Insert;
    assert OnPath(Page(n), []);
    InsertRefines(AsWritten, [], t, Touch(Page(n)));
    InsertSized(AsWritten, MERGE_SIZE, [], t, Touch(Page(n)));
    assert Pages(0, n + 1) == Pages(0, n) + {Page(n)};
    assert Page(n) !in Pages(0, n);
  }

  // ------------------------------------------------------------------
  // The tables at the root's first bucket, and at that table's first bucket

  ghost predicate Nested(t: Table) {
    Expanded(t, [0]) && Expanded(t, [0, 0])
  }

  function Inner(t: Table): Table {
    if t.At(0).Deep? then t.At(0).table else t
  }

  lemma NestedIs(t: Table)
    ensures Nested(t) <==> t.At(0).Deep? && t.At(0).table.At(0).Deep?
  {
    assert [0, 0][1..] == [0];
    if t.At(0).Deep? {
      assert Expanded(t.At(0).table, [0]) <==> t.At(0).table.At(0).Deep?;
    }
  }

  /** Once seventeen pages are stored, both buckets have been split. */
  lemma Splits(t: Table)
    requires Holds(t, 0, 17)
    ensures Nested(t)
  {
    hide Placed, Sized, Find, Expanded, Page;
    assert Under([], t, [0]) == Pages(0, 17) by {
      assert [] + [0] == [0];
      forall i | 0 <= i < 17 ensures OnPath(Page(i), [0]) {
        PageIndices(i);
      }
    }
    assert Under([], t, [0, 0]) == Pages(0, 17) - {16} by {
      assert [] + [0, 0] == [0, 0];
      forall i | 0 <= i < 17 ensures OnPath(Page(i), [0, 0]) <==> Page(i) != 16 {
        PageIndices(i);
        PageSixteen(i);
      }
    }
    PagesCount(0, 17);
    if !Expanded(t, [0]) {
      UnexpandedIsSmall(AsWritten, [], t, [0]);
    }
    if !Expanded(t, [0, 0]) {
      UnexpandedIsSmall(AsWritten, [], t, [0, 0]);
    }
  }

  lemma PageSixteen(i: nat)
    requires i < 17
    ensures Page(i) == 16 <==> i == 11
  {
  }

  /** The nested tables' counts. */
  lemma InnerCounts(t: Table, lo: nat)
    requires lo <= 11 && Holds(t, lo, 17) && Nested(t)
    ensures var t1 := Inner(t);
            var t2 := Inner(t1);
            && t.At(0).Deep? && t1.At(0).Deep?
            && Placed([0], t1) && Sized(AsWritten, MERGE_SIZE, 1, t1) && t1.count == 17 - lo
            && Placed([0, 0], t2) && Sized(AsWritten, MERGE_SIZE, 2, t2) && t2.count == 16 - lo
            && Keys(1, t1) == Pages(lo, 17) && Keys(2, t2) == Pages(lo, 17) - {16}
            && t1.At(0).list.items == [] && t1.At(0).list.count == CountWhenPopped(AsWritten)
  {
    hide Find, Page, Index;
    NestedIs(t);
    var t1 := Inner(t);
    var t2 := Inner(t1);
    assert [] + [0] == [0] && [0] + [0] == [0, 0];
    PageIndices(0);
    PlacedAt([], t, 0);
    PlacedAt([0], t1, 0);
    assert Keys(1, t1) == Pages(lo, 17) by {
      KeysBelow([], t, 0);
      forall i | lo <= i < 17 ensures Index(Page(i), 0) == 0 {
        PageIndices(i);
      }
    }
    assert Keys(2, t2) == Pages(lo, 17) - {16} by {
      KeysBelow([0], t1, 0);
      forall i | lo <= i < 17 ensures Index(Page(i), 1) == 0 <==> Page(i) != 16 {
        PageIndices(i);
        PageSixteen(i);
      }
    }
    PagesCount(lo, 17);
    PageSixteen(11);
    NestedCount([0], t1);
    NestedCount([0, 0], t2);
  }

  /** The keys of a nested table are those of the table around it that select its bucket. */
  lemma KeysBelow(path: seq<nat>, t: Table, i: nat)
    requires Placed(path, t) && i < TABLE_SIZE && t.buckets[i].Deep?
    ensures Keys(|path| + 1, t.buckets[i].table) == set k | k in Keys(|path|, t) && Index(k, |path|) == i
  {
    hide Placed, Find;
    PlacedAt(path, t, i);
    OwnKeys(path, t, i, t.buckets[i].table);
    forall k | k in Keys(|path|, t) && Index(k, |path|) == i ensures k in Keys(|path| + 1, t.buckets[i].table) {
      PlacedChild(path, t, k);
    }
  }

  // ------------------------------------------------------------------
  // The steps after the first seventeen

  /** Touching the last page again changes no structure. */
  lemma TouchAgain(t: Table, lo: nat)
    requires lo <= 11 && Holds(t, lo, 17) && Nested(t)
    ensures var u := Insert(AsWritten, 0, t, Touch(Page(16)));
            Holds(u, lo, 17) && Nested(u)
  {
    hide Placed, Sized, Find, Insert, Page;
    var e := Touch(Page(16));
    var u := Insert(AsWritten, 0, t, e);
    assert OnPath(Page(16), []) && Page(16) in Pages(lo, 17);
    InsertRefines(AsWritten, [], t, e);
    InsertSized(AsWritten, MERGE_SIZE, [], t, e);
    StaysNested(t, e);
  }

  lemma StaysNested(t: Table, e: Entry)
    requires Placed([], t) && Nested(t) && e == Touch(Page(16))
    ensures Nested(Insert(AsWritten, 0, t, e))
  {
    hide Find, Insert, Page, Index;
    NestedIs(t);
    NestedIs(Insert(AsWritten, 0, t, e));
    PageIndices(16);
    PlacedAt([], t, 0);
    OneBucketChanges(AsWritten, 0, t, e);
    OneBucketChanges(AsWritten, 1, t.buckets[0].table, e);
  }

  /** Where a page other than 16 goes, three tables deep. */
  lemma DropStep(t: Table, lo: nat)
    requires lo < 11 && Holds(t, lo, 17) && Nested(t)
    ensures var t1, t2, key := Inner(t), Inner(Inner(t)), Page(lo);
            var t2' := Delete(2, t2, key);
            && NoMerge(2, t2, key) && t2'.count == 15 - lo
            && Index(key, 0) == 0 && Index(key, 1) == 0
            && Placed([0, 0], t2') && Sized(AsWritten, MERGE_SIZE, 2, t2')
  {
    hide Placed, Sized, Find, Delete, Page, NoMerge;
    var t1, t2, key := Inner(t), Inner(Inner(t)), Page(lo);
    InnerCounts(t, lo);
    PageIndices(lo);
    assert [] + [0] == [0] && [0] + [0] == [0, 0];
    OnPathStep(key, [], 0);
    OnPathStep(key, [0], 0);
    FlatAtLast(t2, lo);
    DeleteRefines([0, 0], t2, key);
    DeleteSized(AsWritten, [0, 0], t2, key);
    PlacedChild([], t, key);
    PlacedChild([0], t1, key);
    assert Find(2, t2, key) == Find(0, t, key) == Some(1) by {
      PagesDiffer(lo, 16);
    }
  }

  /** Each page but 16 has a bucket of its own in the third table, which is therefore a list. */
  lemma FlatAtLast(t2: Table, lo: nat)
    requires lo < 11 && Placed([0, 0], t2) && Sized(AsWritten, MERGE_SIZE, 2, t2)
    requires Keys(2, t2) == Pages(lo, 17) - {16}
    ensures t2.At(Index(Page(lo), 2)).Flat? && NoMerge(2, t2, Page(lo))
  {
    hide Placed, Find, Index, Page;
    var j := Index(Page(lo), 2);
    PlacedAt([0, 0], t2, j);
    if t2.buckets[j].Deep? {
      var x := t2.buckets[j].table;
      KeysBelow([0, 0], t2, j);
      forall k | k in Keys(3, x) ensures k == Page(lo) {
        var i :| lo <= i < 17 && Page(i) == k;
        PageIndices(i);
        PageIndices(lo);
        PageSixteen(i);
      }
      SubsetSize(Keys(3, x), {Page(lo)});
      SizedAt(AsWritten, MERGE_SIZE, 2, t2, j);
      NestedCount([0, 0] + [j], x);
      assert false;
    }
  }

  lemma PagesDiffer(i: nat, j: nat)
    requires i < j < 17
    ensures Page(i) != Page(j)
  {
  }

  /** What a delete of page lo leaves, whether or not the third table is merged on the way. */
  lemma DropSecond(t: Table, lo: nat)
    requires lo < 11 && Holds(t, lo, 17) && Nested(t)
    ensures var t1, t2, key := Inner(t), Inner(Inner(t)), Page(lo);
            var t1', t2' := Delete(1, t1, key), Delete(2, t2, key);
            && t1'.count == 16 - lo && Placed([0], t1')
            && t1'.At(0) == (if t2'.count < MERGE_SIZE then Merge(t1.At(0).list, t2') else Deep(t1.At(0).list, t2'))
            && Delete(0, t, key).At(0) == Deep(t.At(0).list, t1')
  {
    hide Placed, Sized, Find, Delete, Page, Index;
    var t1, key := Inner(t), Page(lo);
    InnerCounts(t, lo);
    DropStep(t, lo);
    OnPathStep(key, [], 0);
    assert [] + [0] == [0];
    DeleteRefines([0], t1, key);
    PlacedChild([], t, key);
    PlacedChild([0], t1, key);
    PagesDiffer(lo, 16);
    assert Find(1, t1, key) == Some(1);
    OneBucketChanges(AsWritten, 1, t1, Touch(key));
    OneBucketChanges(AsWritten, 0, t, Touch(key));
  }

  /** The pages that a delete without loss leaves. */
  lemma LosslessDrop(t: Table, lo: nat)
    requires lo < 16 && Placed([], t) && Lossless(0, t, Page(lo))
    requires forall k: Ull :: Find(0, t, k).Some? <==> k in Pages(lo, 17)
    requires forall k: Ull :: k in Pages(lo, 17) && k != Page(16) ==> Find(0, t, k) == Some(1)
    ensures var t' := Delete(0, t, Page(lo));
            && Placed([], t')
            && (forall k: Ull :: Find(0, t', k).Some? <==> k in Pages(lo + 1, 17))
            && (forall k: Ull :: k in Pages(lo + 1, 17) && k != Page(16) ==> Find(0, t', k) == Some(1))
            && t'.count == Dec(t.count)
  {
    hide Placed, Find, Delete, Page, Lossless;
    assert OnPath(Page(lo), []);
    DeleteRefines([], t, Page(lo));
    PagesDiffer(lo, 16);
    assert Page(lo) in Pages(lo, 17);
    assert Pages(lo + 1, 17) == Pages(lo, 17) - {Page(lo)} by {
      forall i | lo < i < 17 ensures Page(i) != Page(lo) {
        PagesDiffer(lo, i);
      }
    }
  }

  /** Ten deletes keep both tables. */
  lemma DropFirst(t: Table, lo: nat)
    requires lo <= 9 && Holds(t, lo, 17) && Nested(t)
    ensures Holds(Delete(0, t, Page(lo)), lo + 1, 17) && Nested(Delete(0, t, Page(lo)))
  {
    hide Placed, Sized, Find, Delete, Page, Index, NoMerge, Lossless;
    var t', key := Delete(0, t, Page(lo)), Page(lo);
    InnerCounts(t, lo);
    DropStep(t, lo);
    DropSecond(t, lo);
    NoMergeStep(t, key);
    assert OnPath(key, []);
    DeleteSized(AsWritten, [], t, key);
    LosslessDrop(t, lo);
    NestedIs(t');
  }

  lemma NoMergeStep(t: Table, key: Ull)
    requires t.At(0).Deep? && Inner(t).At(0).Deep? && Index(key, 0) == 0 && Index(key, 1) == 0
    requires NoMerge(2, Inner(Inner(t)), key)
    requires Delete(2, Inner(Inner(t)), key).count >= MERGE_SIZE && Delete(1, Inner(t), key).count >= MERGE_SIZE
    ensures NoMerge(0, t, key)
  {
    hide Delete, Index;
    assert NoMerge(1, Inner(t), key);
  }

  /** The second table after the first merge: six keys, and in its first bucket a list of five whose
      count the sixteen double pops have left eleven below zero. */
  ghost predicate Shortened(t: Table) {
    && t.At(0).Deep? && Inner(t).count == 6 && t.count == 6
    && Inner(t).At(0).Flat? && Inner(t).At(0).list.count == WORD - 11
    && t.At(0).list.items == []
  }

  ghost predicate Stores(t: Table, lo: nat) {
    && Placed([], t)
    && (forall k: Ull :: Find(0, t, k).Some? <==> k in Pages(lo, 17))
    && (forall k: Ull :: k in Pages(lo, 17) && k != Page(16) ==> Find(0, t, k) == Some(1))
  }

  lemma FirstMerge(t: Table)
    requires Holds(t, 10, 17) && Nested(t)
    ensures Stores(Delete(0, t, Page(10)), 11) && Shortened(Delete(0, t, Page(10)))
  {
    hide Placed, Sized, Find, Delete, Page, Index, NoMerge, Lossless, PushAll, ListEntries;
    var t1, t2, key := Inner(t), Inner(Inner(t)), Page(10);
    var t1', t2' := Delete(1, t1, key), Delete(2, t2, key);
    InnerCounts(t, 10);
    DropStep(t, 10);
    DropSecond(t, 10);
    MergeSized(AsWritten, [0, 0], t1.At(0).list, t2');
    WrapStep(WORD - 11);
    MergedLossless(t, key);
    LosslessDrop(t, 10);
    PagesCount(10, 17);
    assert t.count == 7 by {
      CountOf(t, 10);
    }
    assert t.At(0).list.items == [] by {
      PlacedAt([], t, 0);
    }
  }

  lemma CountOf(t: Table, lo: nat)
    requires lo <= 17 && Holds(t, lo, 17)
    ensures t.count == 17 - lo
  {
    hide Find, Page, Placed;
    PagesCount(lo, 17);
    assert Keys(0, t) == Pages(lo, 17);
    WrapStep(17 - lo);
  }

  lemma MergedLossless(t: Table, key: Ull)
    requires t.At(0).Deep? && Inner(t).At(0).Deep? && Index(key, 0) == 0 && Index(key, 1) == 0
    requires NoMerge(2, Inner(Inner(t)), key) && NestedEmpty(2, Delete(2, Inner(Inner(t)), key))
    requires Placed([0, 0], Inner(Inner(t))) && Sized(AsWritten, MERGE_SIZE, 2, Inner(Inner(t)))
    requires OnPath(key, [0, 0])
    requires Delete(1, Inner(t), key).count >= MERGE_SIZE
    ensures Lossless(0, t, key)
  {
    hide Delete, Index, Placed, Sized, NestedEmpty, NoMerge;
    DeleteSized(AsWritten, [0, 0], Inner(Inner(t)), key);
    assert Lossless(1, Inner(t), key);
  }

  /** The next touch of one of the five splits their list again, although it is short. */
  lemma SplitAgain(t: Table)
    requires Stores(t, 11) && Shortened(t)
    ensures var u := Insert(AsWritten, 0, t, Touch(Page(16)));
            Stores(u, 11) && u.count == 6 && Nested(u) && Inner(u).count == 6 && u.At(0).list.items == []
  {
    hide Placed, Find, Insert, Page, Index, Shr, OnPath;
    var e, t1 := Touch(Page(16)), Inner(t);
    var u := Insert(AsWritten, 0, t, e);
    EmptyPath(Page(16));
    LastPages(11, 16);
    InsertRefines(AsWritten, [], t, e);
    PageIndices(16);
    PlacedChild([], t, Page(16));
    assert [] + [0] == [0];
    OnPathStep(Page(16), [], 0);
    OneBucketChanges(AsWritten, 0, t, e);
    SplitInner(t1);
    NestedIs(u);
  }

  lemma SplitInner(t1: Table)
    requires Placed([0], t1) && t1.At(0).Flat? && t1.At(0).list.count == WORD - 11 && Find(1, t1, Page(16)).Some?
    ensures var u1 := Insert(AsWritten, 1, t1, Touch(Page(16)));
            u1.At(0).Deep? && u1.count == t1.count
  {
    hide Placed, Find, Insert, Page, Index, AddKey, Settle, Drained, Pour, Shr;
    var e := Touch(Page(16));
    PageIndices(16);
    EmptyPath(Page(16));
    assert [] + [0] == [0];
    OnPathStep(Page(16), [], 0);
    PlacedChild([0], t1, Page(16));
    InsertRefines(AsWritten, [0], t1, e);
    OneBucketChanges(AsWritten, 1, t1, e);
    PlacedIsDistinct([0, 0], t1.At(0).list);
    AddKeyRefines(t1.At(0).list, Page(16));
    SettleSplits(AsWritten, 1, AddKey(t1.At(0).list, Page(16)));
  }

  lemma PlacedIsDistinct(path: seq<nat>, l: SList)
    requires ListOk(path, l)
    ensures Distinct(l.items)
  {
  }

  /** The next merge empties the lists only: the five keys in the nested table are gone. */
  lemma LosingMerge(t: Table)
    requires Stores(t, 11) && t.count == 6 && Nested(t) && Inner(t).count == 6 && t.At(0).list.items == []
    ensures var t' := Delete(0, t, 16);
            && Placed([], t') && t'.count == 5
            && forall i :: 11 <= i < 17 ==> Find(0, t', Page(i)) == None
  {
    hide Placed, Find, Delete, Page, Index, Merge, Shr;
    var t1 := Inner(t);
    var t', t1' := Delete(0, t, 16), Delete(1, t1, 16);
    NestedIs(t);
    PageSixteen(11);
    PageIndices(11);
    PagesDiffer(11, 16);
    assert OnPath(16, []) && 16 in Pages(11, 17) && [] + [0] == [0];
    OnPathStep(16, [], 0);
    PlacedChild([], t, 16);
    DeleteRefines([], t, 16);
    DeleteRefines([0], t1, 16);
    PlacedChild([0], t1, 16);
    OneBucketChanges(AsWritten, 1, t1, Touch(16));
    OneBucketChanges(AsWritten, 0, t, Touch(16));
    assert t1'.count == 5 && t1'.At(0).Deep?;
    MergeContents([0], t.At(0).list, t1');
    forall i | 11 <= i < 17 ensures Find(0, t', Page(i)) == None {
      PageIndices(i);
      PlacedChild([], t', Page(i));
    }
  }

  // ------------------------------------------------------------------
  // The whole run

  lemma {:induction false} BeforeFirstMerge(n: nat)
    requires 17 <= n <= 27
    ensures Holds(TrieAfter(n), n - 17, 17) && Nested(TrieAfter(n))
  {
    hide Insert, Delete, RunWindow, Holds, Nested, Trace;
    if n == 17 {
      FirstPages(17);
      Splits(TrieAfter(17));
    } else {
      BeforeFirstMerge(n - 1);
      NextTrie(n - 1);
      TouchAgain(TrieAfter(n - 1), n - 18);
      DropFirst(Insert(AsWritten, 0, TrieAfter(n - 1), Touch(Page(n - 1))), n - 18);
    }
  }

  /** Twenty-nine accesses: the trie's count is five, and five keys are gone. */
  lemma AfterLosingMerge()
    ensures Placed([], TrieAfter(29)) && TrieAfter(29).count == 5
    ensures forall i :: 11 <= i < 17 ==> Find(0, TrieAfter(29), Page(i)) == None
  {
    hide Insert, Delete, RunWindow, Holds, Nested, Trace, Stores, Shortened, Find, Placed;
    BeforeFirstMerge(27);
    NextTrie(27);
    TouchAgain(TrieAfter(27), 10);
    FirstMerge(Insert(AsWritten, 0, TrieAfter(27), Touch(Page(27))));
    NextTrie(28);
    SplitAgain(TrieAfter(28));
    StoresPlaced(Insert(AsWritten, 0, TrieAfter(28), Touch(Page(28))));
    LosingMerge(Insert(AsWritten, 0, TrieAfter(28), Touch(Page(28))));
  }

  /** Thirty accesses: the trie's count is six. */
  lemma CountAfterThirty()
    ensures TrieAfter(30).count == 6
  {
    hide Insert, Delete, RunWindow, Trace, Find, Placed;
    AfterLosingMerge();
    NextTrie(29);
    LastStep(TrieAfter(29));
  }

  lemma StoresPlaced(t: Table)
    requires Stores(t, 11)
    ensures Placed([], t)
  {
  }

  /** A lost page is counted again when it is touched, and is not found when it is evicted. */
  lemma LastStep(t: Table)
    requires Placed([], t) && t.count == 5
    requires Find(0, t, Page(16)) == None && Find(0, t, Page(12)) == None
    ensures Delete(0, Insert(AsWritten, 0, t, Touch(Page(16))), Page(12)).count == 6
  {
    hide Placed, Find, Insert, Delete, Page;
    var u := Insert(AsWritten, 0, t, Touch(Page(16)));
    assert OnPath(Page(16), []) && OnPath(Page(12), []);
    PagesDiffer(12, 16);
    InsertRefines(AsWritten, [], t, Touch(Page(16)));
    DeleteRefines([], u, Page(12));
  }

  lemma {:induction false} TraceAt(n: nat, i: nat)
    requires i < n
    ensures |Trace(n)| == n && Trace(n)[i] == Access(16 * Page(i), 1)
  {
    hide Page;
    TraceLength(n - 1);
    if i < n - 1 {
      TraceAt(n - 1, i);
    }
  }

  lemma {:induction false} TraceLength(n: nat)
    ensures |Trace(n)| == n
  {
    hide Page;
    if n > 0 {
      TraceLength(n - 1);
    }
  }

  /** One byte touches one page. */
  lemma TouchesOne(i: nat, p: Ull)
    ensures Touches(4, Access(16 * Page(i), 1), p) <==> p == Page(i)
  {
    hide Page;
    TouchesInterval(4, Access(16 * Page(i), 1), p);
    ShrStep(16 * Page(i), 0);
  }

  /** After so many accesses, the last seventeen touch the pages from the first of them on. */
  lemma TouchedAfter(n: nat)
    requires 17 <= n <= 33
    ensures PagesTouched(4, Last(Trace(n), 17)) == Pages(n - 17, 17)
  {
    hide Touches, Page, Trace, Pages, Touched;
    var last := Last(Trace(n), 17);
    TraceLength(n);
    forall j | 0 <= j < 17 ensures last[j] == Access(16 * Page(n - 17 + j), 1) {
      TraceAt(n, n - 17 + j);
    }
    forall p: Ull ensures Touched(4, last, p) <==> p in Pages(n - 17, 17) {
      TouchedByLast(last, n - 17, p);
    }
  }

  lemma TouchedByLast(last: seq<Access>, lo: nat, p: Ull)
    requires |last| == 17 && lo <= 16 && forall j :: 0 <= j < 17 ==> last[j] == Access(16 * Page(lo + j), 1)
    ensures Touched(4, last, p) <==> p in Pages(lo, 17)
  {
    hide Touches, Page;
    if p in Pages(lo, 17) {
      var i :| lo <= i < 17 && Page(i) == p;
      TouchesOne(i, p);
      assert last[i - lo] == Access(16 * Page(i), 1);
    }
    if Touched(4, last, p) {
      var j :| 0 <= j < 17 && Touches(4, last[j], p);
      TouchesOne(lo + j, p);
      LastPages(lo, lo + j);
    }
  }

  lemma LastPages(lo: nat, i: nat)
    requires lo <= i && lo <= 16
    ensures Page(i) in Pages(lo, 17)
  {
    assert i >= 17 ==> Page(i) == Page(16);
  }

  /** Every access of the trace is one byte, which the window should handle. */
  lemma TraceIsOk(n: nat)
    requires n < WORD
    ensures TraceOk(4, Trace(n)) && NoQueueOverflow(CFG, Trace(n))
  {
    hide Trace, Page;
    TraceLength(n);
    forall j | 0 <= j < n ensures InRange(Trace(n)[j]) && Countable(4, Trace(n)[j]) {
      TraceAt(n, j);
    }
  }

  /** The text as written reports six pages where the last seventeen accesses touch four. So some
      merge of that run lost keys. */
  lemma AsWrittenMiscounts()
    ensures TraceOk(4, Trace(30)) && NoQueueOverflow(CFG, Trace(30))
    ensures RunWindow(AsWritten, CFG, Trace(30)).trie.count == 6
    ensures |PagesTouched(4, Last(Trace(30), 17))| == 4
    ensures !LosslessRun(AsWritten, WindowOps(CFG, Trace(30)))
  {
    hide Page, Trace, RunWindow, LosslessRun, WindowOps, Find, PagesTouched;
    CountAfterThirty();
    TouchedAfter(30);
    PagesCount(13, 17);
    TraceIsOk(30);
    if LosslessRun(AsWritten, WindowOps(CFG, Trace(30))) {
      WindowSizeIsDistinctPages(AsWritten, CFG, Trace(30));
      WrapStep(4);
      assert false;
    }
  }

  /** One access earlier the size is right by chance: five keys are lost, and none of them has been touched again. */
  lemma RightByChance()
    ensures TraceOk(4, Trace(29)) && NoQueueOverflow(CFG, Trace(29))
    ensures RunWindow(AsWritten, CFG, Trace(29)).trie.count == |PagesTouched(4, Last(Trace(29), 17))| == 5
    ensures !LosslessRun(AsWritten, WindowOps(CFG, Trace(29)))
  {
    hide Page, Trace, RunWindow, LosslessRun, WindowOps, Find, Touched, Pages, Tally, Run;
    AfterLosingMerge();
    TouchedAfter(29);
    PagesCount(12, 17);
    TraceIsOk(29);
    LastPages(12, 16);
    assert Page(16) in PagesTouched(4, Last(Trace(29), 17));
    if LosslessRun(AsWritten, WindowOps(CFG, Trace(29))) {
      WindowIsTrieRun(AsWritten, CFG, Trace(29));
      TalliedAreTouched(CFG, Trace(29));
      RunCount(AsWritten, WindowOps(CFG, Trace(29)));
      assert false;
    }
  }

  /** The thirtieth access evicts page 12, which is due and not stored. */
  lemma EvictionMisses()
    ensures Oldest(CFG, Trace(29), Access(16 * Page(29), 1)) == MemRef(Page(12), 1)
    ensures Find(0, Insert(AsWritten, 0, TrieAfter(29), Touch(Page(29))), Page(12)) == None
    ensures !DeletesFind(AsWritten, WindowOps(CFG, Trace(30)))
  {
    hide Page, Find, Insert, Trace, RunWindow, Placed, Run, ToRef, Queued, WindowOps, DeletesFind;
    QueueBeforeLast();
    NotFoundBeforeLast();
    WindowIsTrieRun(AsWritten, CFG, Trace(29));
    LastOps();
    DeleteMisses(WindowOps(CFG, Trace(29)), Page(29), Page(12));
  }

  lemma DeleteMisses(ops: seq<TrieOp>, put: Ull, key: Ull)
    requires Find(0, Insert(AsWritten, 0, Run(AsWritten, ops), Touch(put)), key) == None
    ensures !DeletesFind(AsWritten, ops + [Put(put)] + [Del(key)])
  {
    hide Find, Insert, Run;
    var puts := ops + [Put(put)];
    RunSnoc(AsWritten, ops, Put(put));
    assert (puts + [Del(key)])[..|puts|] == puts;
  }

  lemma NotFoundBeforeLast()
    ensures Find(0, Insert(AsWritten, 0, TrieAfter(29), Touch(Page(29))), Page(12)) == None
  {
    hide Page, Find, Insert, RunWindow, Placed, Trace;
    AfterLosingMerge();
    PageIsLast(29);
    PagesDiffer(12, 16);
    EmptyPath(Page(29));
    InsertRefines(AsWritten, [], TrieAfter(29), Touch(Page(29)));
  }

  lemma QueueBeforeLast()
    ensures var queue := Queued(CFG, Trace(29));
            |queue| == 17 && queue[0] == MemRef(Page(12), 1)
    ensures Oldest(CFG, Trace(29), Access(16 * Page(29), 1)) == MemRef(Page(12), 1)
  {
    hide Page, Trace, RunWindow, ToRef, Queued, Run;
    QueueAfter(29);
    WindowIsTrieRun(AsWritten, CFG, Trace(29));
  }

  lemma LastOps()
    ensures WindowOps(CFG, Trace(30)) == WindowOps(CFG, Trace(29)) + [Put(Page(29))] + [Del(Page(12))]
  {
    hide Page, ToRef, Queued, WindowOps, PutOps, DelOps, Trace;
    QueueBeforeLast();
    PageRef(29);
    OnePageOps(Page(29));
    OnePageOps(Page(12));
    NextOps(29);
  }

  lemma NextOps(n: nat)
    ensures WindowOps(CFG, Trace(n + 1))
            == WindowOps(CFG, Trace(n)) + SlideOps(CFG, Queued(CFG, Trace(n)), Access(16 * Page(n), 1))
  {
    hide Page, SlideOps, Queued;
    assert Trace(n + 1)[..|Trace(n + 1)| - 1] == Trace(n);
  }

  lemma PageIsLast(i: nat)
    requires i >= 16
    ensures Page(i) == Page(16)
  {
  }

  lemma OnePageOps(page: Ull)
    ensures PutOps(page, 1) == [Put(page)] && DelOps(page, 1) == [Del(page)]
  {
    WrapStep(page);
  }

  /** Two operations restructure one bucket twice: the delete that merges it, and the put after that. */
  lemma RestructuredTwice()
    ensures var t := Insert(AsWritten, 0, TrieAfter(27), Touch(Page(27)));
            var ops := [Del(Page(10)), Put(Page(16))];
            Restructurings(AsWritten, t, ops, [0, 0]) == Hits(ops, [0, 0]) == 2
  {
    hide Page, Find, Insert, Delete, Trace, RunWindow, Placed, Sized, Holds, Shortened, Stores, Expanded;
    var t := Insert(AsWritten, 0, TrieAfter(27), Touch(Page(27)));
    var t' := Delete(0, t, Page(10));
    var t'' := Insert(AsWritten, 0, t', Touch(Page(16)));
    BeforeFirstMerge(27);
    TouchAgain(TrieAfter(27), 10);
    PageIsLast(27);
    FirstMerge(t);
    SplitAgain(t');
    ShortenedIsFlat(t');
    var ops := [Del(Page(10)), Put(Page(16))];
    PageIndices(10);
    PageIndices(16);
    assert ops[1..] == [Put(Page(16))] && ops[1..][1..] == [];
    TwoSteps(t, ops);
  }

  lemma ShortenedIsFlat(t: Table)
    requires Shortened(t)
    ensures !Expanded(t, [0, 0])
  {
    assert [0, 0][1..] == [0];
  }

  lemma TwoSteps(t: Table, ops: seq<TrieOp>)
    requires |ops| == 2
    ensures var t' := Step(AsWritten, t, ops[0]);
            var t'' := Step(AsWritten, t', ops[1]);
            Restructurings(AsWritten, t, ops, [0, 0])
            == (if Expanded(t, [0, 0]) != Expanded(t', [0, 0]) then 1 else 0)
               + (if Expanded(t', [0, 0]) != Expanded(t'', [0, 0]) then 1 else 0)
    ensures Hits(ops, [0, 0])
            == (if OnPath(ops[0].key, [0, 0]) then 1 else 0) + (if OnPath(ops[1].key, [0, 0]) then 1 else 0)
  {
    hide Expanded, Step, OnPath;
    assert ops[1..] == [ops[1]] && ops[1..][1..] == [];
    assert Restructurings(AsWritten, Step(AsWritten, Step(AsWritten, t, ops[0]), ops[1]), [], [0, 0]) == 0;
    assert Hits([], [0, 0]) == 0;
  }
}
