/** How often a bucket can turn from list to table and back. In the repaired text the distance between SPLIT_SIZE
    and MERGE_SIZE pays for every restructuring. As written it does not: ListLengths.MergedIsSplitNext says that the
    next put after a merge expands the bucket again, and Miscount.RestructuredTwice is such a case. */
module Restructuring {
  import opened Words
  import opened AssociationList
  import opened Trie
  import opened TrieDelete
  import opened TrieShape
  import opened TrieRuns

  /** The bucket that `path` leads to from this table exists and has a table. */
  ghost predicate Expanded(t: Table, path: seq<nat>)
    decreases t
  {
    path != [] && t.At(path[0]).Deep? && (|path| == 1 || Expanded(t.At(path[0]).table, path[1..]))
  }

  /** The keys of the table at `at` that lie under the bucket which `path` leads to from there. */
  ghost function Under(at: seq<nat>, t: Table, path: seq<nat>): set<Ull> {
    set k: Ull | k in Keys(|at|, t) && OnPath(k, at + path)
  }

  ghost predicate ExpandedIn(b: Bucket, path: seq<nat>) {
    b.Deep? && (path == [] || Expanded(b.table, path))
  }

  ghost function UnderIn(at: seq<nat>, b: Bucket, path: seq<nat>): set<Ull> {
    set k: Ull | FindIn(|at|, b, k).Some? && OnPath(k, at + path)
  }

  lemma UnderStep(at: seq<nat>, t: Table, path: seq<nat>)
    requires Placed(at, t) && path != [] && path[0] < TABLE_SIZE
    ensures Under(at, t, path) == UnderIn(at + [path[0]], t.buckets[path[0]], path[1..])
    ensures Expanded(t, path) <==> ExpandedIn(t.buckets[path[0]], path[1..])
  {
    var i := path[0];
    var below := at + [i];
    PlacedAt(at, t, i);
    assert at + path == below + path[1..] && |below| == |at| + 1;
    forall k: Ull | OnPath(k, at + path)
      ensures Find(|at|, t, k) == FindIn(|below|, t.buckets[i], k)
    {
      assert (at + path)[|at|] == i;
    }
  }

  lemma UnderDeep(at: seq<nat>, l: SList, n: Table, path: seq<nat>)
    ensures UnderIn(at, Deep(l, n), path) == Under(at, n, path)
  {
  }

  // ------------------------------------------------------------------
  // What a shape says about one bucket

  /** An expanded bucket has at least as many keys under it as the shape's threshold. */
  lemma {:induction false} ExpandedIsLarge(v: Variant, least: nat, at: seq<nat>, t: Table, path: seq<nat>)
    requires Placed(at, t) && Sized(v, least, |at|, t) && Expanded(t, path)
    ensures |Under(at, t, path)| >= least
    decreases t, 1
  {
    var i := path[0];
    PlacedAt(at, t, i);
    assert |at + [i]| == |at| + 1;
    UnderStep(at, t, path);
    ExpandedInIsLarge(v, least, at + [i], t.buckets[i], path[1..]);
  }

  lemma {:induction false} ExpandedInIsLarge(v: Variant, least: nat, at: seq<nat>, b: Bucket, path: seq<nat>)
    requires at != [] && PlacedIn(at, b) && SizedIn(v, least, |at|, b) && ExpandedIn(b, path)
    ensures |UnderIn(at, b, path)| >= least
    decreases b, 0
  {
    var n := b.table;
    if path == [] {
      NestedCount(at, n);
      forall k | k in Keys(|at|, n) ensures k in UnderIn(at, b, path) {
        FoundOnPath(at, n, k);
        assert at + path == at;
      }
      SubsetSize(Keys(|at|, n), UnderIn(at, b, path));
    } else {
      ExpandedIsLarge(v, least, at, n, path);
      UnderDeep(at, b.list, n, path);
    }
  }

  /** A bucket that is not expanded, or is part of a larger list, has at most SPLIT_SIZE keys under it. */
  lemma {:induction false} UnexpandedIsSmall(v: Variant, at: seq<nat>, t: Table, path: seq<nat>)
    requires Placed(at, t) && Sized(v, MERGE_SIZE, |at|, t) && path != [] && !Expanded(t, path)
    ensures |Under(at, t, path)| <= SPLIT_SIZE
    decreases t, 1
  {
    hide Shr, OnPath, Find, Wrap, Under, UnderIn, Placed, Sized;
    var i := path[0];
    if i >= TABLE_SIZE {
      NoSuchBucket(at, t, path);
    } else {
      PlacedAt(at, t, i);
      SizedAt(v, MERGE_SIZE, |at|, t, i);
      UnderStep(at, t, path);
      assert |at + [i]| == |at| + 1;
      UnexpandedInIsSmall(v, at + [i], t.buckets[i], path[1..]);
    }
  }

  lemma NoSuchBucket(at: seq<nat>, t: Table, path: seq<nat>)
    requires path != [] && path[0] >= TABLE_SIZE
    ensures Under(at, t, path) == {}
  {
    hide Find, Shr;
    assert (at + path)[|at|] == path[0];
  }

  lemma {:induction false} UnexpandedInIsSmall(v: Variant, at: seq<nat>, b: Bucket, path: seq<nat>)
    requires PlacedIn(at, b) && SizedIn(v, MERGE_SIZE, |at|, b) && !ExpandedIn(b, path)
    ensures |UnderIn(at, b, path)| <= SPLIT_SIZE
    decreases b, 0
  {
    hide Shr, OnPath, Find, Wrap;
    match b
    case Flat(l) =>
      ListKeysSize(l.items);
      SubsetSize(UnderIn(at, b, path), ListKeys(l.items));
    case Deep(l, n) =>
      UnexpandedIsSmall(v, at, n, path);
      UnderDeep(at, l, n, path);
  }

  // ------------------------------------------------------------------
  // What one operation does to one bucket

  /** Repaired: put never merges, and expands a bucket only when sixteen keys are under it. */
  lemma {:induction false} InsertExpands(at: seq<nat>, t: Table, e: Entry, path: seq<nat>)
    requires Placed(at, t) && Sized(Repaired, MERGE_SIZE, |at|, t) && OnPath(e.key, at) && e.Touch?
    ensures var t' := Insert(Repaired, |at|, t, e);
            && (Expanded(t, path) ==> Expanded(t', path))
            && (Expanded(t', path) && !Expanded(t, path) ==> |Under(at, t', path)| > SPLIT_SIZE)
    decreases t, 1
  {
    hide Placed, PlacedIn, Find, Insert, Sized, SizedIn, Under, UnderIn, ExpandedIn, InsertIn;
    var i, t' := Index(e.key, |at|), Insert(Repaired, |at|, t, e);
    var below := at + [i];
    OnPathStep(e.key, at, i);
    PlacedChild(at, t, e.key);
    InsertRefines(Repaired, at, t, e);
    OneBucketChanges(Repaired, |at|, t, e);
    if path != [] && path[0] == i {
      assert |below| == |at| + 1;
      UnderStep(at, t, path);
      PlacedChild(at, t', e.key);
      UnderStep(at, t', path);
      SizedAt(Repaired, MERGE_SIZE, |at|, t, i);
      InsertInExpands(below, t.buckets[i], e, path[1..]);
    }
  }

  lemma {:induction false} InsertInExpands(at: seq<nat>, b: Bucket, e: Entry, path: seq<nat>)
    requires 1 <= |at| <= LAST_LEVEL + 1
    requires PlacedIn(at, b) && SizedIn(Repaired, MERGE_SIZE, |at|, b) && OnPath(e.key, at) && e.Touch?
    ensures var b' := InsertIn(Repaired, |at| - 1, b, e);
            && (ExpandedIn(b, path) ==> ExpandedIn(b', path))
            && (ExpandedIn(b', path) && !ExpandedIn(b, path) ==> |UnderIn(at, b', path)| > SPLIT_SIZE)
    decreases b, 0
  {
    hide Placed, Find, Insert, Sized, Under, UnderIn, Shr, OnPath, Settle;
    match b
    case Deep(l, n) =>
      InsertExpands(at, n, e, path);
      UnderDeep(at, l, Insert(Repaired, |at|, n, e), path);
    case Flat(l) =>
      EnterRefines(at, l, e);
      SettleRefines(Repaired, at, Enter(l, e));
      SettleSized(Repaired, SPLIT_SIZE + 1, at, Enter(l, e));
      var b' := Settle(Repaired, |at| - 1, Enter(l, e));
      if ExpandedIn(b', path) {
        ExpandedInIsLarge(Repaired, SPLIT_SIZE + 1, at, b', path);
      }
  }

  /** Repaired: delete never splits, and undoes a bucket's table only when fewer than six keys are left under it. */
  lemma {:induction false} DeleteCollapses(at: seq<nat>, t: Table, key: Ull, path: seq<nat>)
    requires Placed(at, t) && Sized(Repaired, MERGE_SIZE, |at|, t) && OnPath(key, at)
    ensures var t' := Delete(|at|, t, key);
            && (Expanded(t', path) ==> Expanded(t, path))
            && (Expanded(t, path) && !Expanded(t', path) ==> |Under(at, t', path)| < MERGE_SIZE)
    decreases t, 1
  {
    hide Placed, PlacedIn, Find, Delete, Sized, SizedIn, Under, UnderIn, ExpandedIn, DeleteIn;
    var i, t' := Index(key, |at|), Delete(|at|, t, key);
    var below := at + [i];
    OnPathStep(key, at, i);
    PlacedChild(at, t, key);
    DeleteRefines(at, t, key);
    OneBucketChanges(Repaired, |at|, t, Touch(key));
    if path != [] && path[0] == i {
      assert |below| == |at| + 1;
      UnderStep(at, t, path);
      PlacedChild(at, t', key);
      UnderStep(at, t', path);
      SizedAt(Repaired, MERGE_SIZE, |at|, t, i);
      DeleteInCollapses(below, t.buckets[i], key, path[1..]);
    }
  }

  lemma {:induction false} DeleteInCollapses(at: seq<nat>, b: Bucket, key: Ull, path: seq<nat>)
    requires at != [] && PlacedIn(at, b) && SizedIn(Repaired, MERGE_SIZE, |at|, b) && OnPath(key, at)
    ensures var b' := DeleteIn(|at| - 1, b, key);
            && (ExpandedIn(b', path) ==> ExpandedIn(b, path))
            && (ExpandedIn(b, path) && !ExpandedIn(b', path) ==> |UnderIn(at, b', path)| < MERGE_SIZE)
    decreases b, 0
  {
    hide Placed, Find, Delete, Sized, Under, UnderIn, Shr, OnPath;
    match b
    case Deep(l, n) =>
      DeleteCollapses(at, n, key, path);
      DeletedBelow(at, n, key);
      var n' := Delete(|at|, n, key);
      if n'.count < MERGE_SIZE {
        MergedUnder(at, l, n', path);
      } else {
        UnderDeep(at, l, n', path);
      }
    case Flat(_) =>
  }

  lemma DeletedBelow(at: seq<nat>, t: Table, key: Ull)
    requires Placed(at, t) && Sized(Repaired, MERGE_SIZE, |at|, t) && OnPath(key, at)
    ensures Placed(at, Delete(|at|, t, key)) && Sized(Repaired, MERGE_SIZE, |at|, Delete(|at|, t, key))
  {
    DeleteRefines(at, t, key);
    DeleteSized(Repaired, at, t, key);
  }

  lemma MergedUnder(at: seq<nat>, l: SList, n: Table, path: seq<nat>)
    requires at != [] && Placed(at, n) && Sized(Repaired, MERGE_SIZE, |at|, n) && n.count < MERGE_SIZE && l.items == []
    ensures |UnderIn(at, Merge(l, n), path)| < MERGE_SIZE
  {
    MergeSized(Repaired, at, l, n);
    MergeExact(at, l, n);
    NestedCount(at, n);
    SubsetSize(UnderIn(at, Merge(l, n), path), Keys(|at|, n));
  }

  /** Repaired: an operation changes the number of keys under a bucket by one at most, and only if it hits it. */
  lemma UnderChanges(t: Table, op: TrieOp, path: seq<nat>)
    requires Placed([], t) && Sized(Repaired, MERGE_SIZE, 0, t)
    ensures var s, s' := |Under([], t, path)|, |Under([], Step(Repaired, t, op), path)|;
            && s' - s <= 1 && s - s' <= 1
            && (!OnPath(op.key, path) ==> s' == s)
            && (op.Put? ==> s' >= s) && (op.Del? ==> s' <= s)
  {
    hide Placed, Find, Insert, Delete, Sized, Under;
    var u := Under([], t, path);
    if op.Put? {
      UnderInsert(t, op.key, path);
      assert |u + {op.key}| == |u| + if op.key in u then 0 else 1;
    } else {
      UnderDelete(t, op.key, path);
      assert |u - {op.key}| == |u| - if op.key in u then 1 else 0;
    }
  }

  lemma UnderInsert(t: Table, key: Ull, path: seq<nat>)
    requires Placed([], t)
    ensures Under([], Insert(Repaired, 0, t, Touch(key)), path)
            == if OnPath(key, path) then Under([], t, path) + {key} else Under([], t, path)
  {
    hide Placed, Find, Insert;
    assert [] + path == path && OnPath(key, []);
    InsertRefines(Repaired, [], t, Touch(key));
  }

  lemma UnderDelete(t: Table, key: Ull, path: seq<nat>)
    requires Placed([], t) && Sized(Repaired, MERGE_SIZE, 0, t)
    ensures var u, u' := Under([], t, path), Under([], Delete(0, t, key), path);
            (u' == u || u' == u - {key}) && (key in u ==> OnPath(key, path))
  {
    hide Placed, Find, Delete, Sized;
    var t' := Delete(0, t, key);
    assert [] + path == path && OnPath(key, []);
    DeleteSized(Repaired, [], t, key);
    DeleteRefines([], t, key);
    hide OnPath;
    if Find(0, t', key).None? {
      assert Under([], t', path) == Under([], t, path) - {key};
    } else {
      assert Under([], t', path) == Under([], t, path);
    }
  }

  // ------------------------------------------------------------------
  // Runs

  /** How many operations of a run starting at t turn the bucket at this path from list to table or back. */
  ghost function Restructurings(v: Variant, t: Table, ops: seq<TrieOp>, path: seq<nat>): nat
    decreases |ops|
  {
    if ops == [] then 0
    else
      var t' := Step(v, t, ops[0]);
      (if Expanded(t, path) != Expanded(t', path) then 1 else 0) + Restructurings(v, t', ops[1..], path)
  }

  ghost function Hits(ops: seq<TrieOp>, path: seq<nat>): nat {
    if ops == [] then 0
    else (if OnPath(ops[0].key, path) then 1 else 0) + Hits(ops[1..], path)
  }

  /** How far the bucket is from its next restructuring. */
  ghost function Distance(t: Table, path: seq<nat>): int {
    var s := |Under([], t, path)|;
    if Expanded(t, path) then s - (MERGE_SIZE - 1) else SPLIT_SIZE + 1 - s
  }

  /** Repaired: each hit closes the distance by one at most; a restructuring happens at distance one
      and leaves the bucket eleven hits away from the next. */
  lemma DistanceStep(t: Table, op: TrieOp, path: seq<nat>)
    requires Placed([], t) && Sized(Repaired, MERGE_SIZE, 0, t) && path != []
    ensures var t' := Step(Repaired, t, op);
            && Distance(t, path) >= 1
            && (!OnPath(op.key, path) ==>
                  Distance(t', path) == Distance(t, path) && Expanded(t', path) == Expanded(t, path))
            && (if Expanded(t', path) != Expanded(t, path)
                then Distance(t, path) == 1 && Distance(t', path) == 11
                else Distance(t', path) >= Distance(t, path) - 1)
  {
    hide Placed, Find, Insert, Delete, Sized, Under, Expanded;
    StepPlaced(Repaired, t, op);
    StepShape(t, op);
    assert OnPath(op.key, []);
    UnderChanges(t, op, path);
    if op.Put? {
      InsertExpands([], t, Touch(op.key), path);
    } else {
      DeleteCollapses([], t, op.key, path);
    }
    if Expanded(t, path) {
      ExpandedIsLarge(Repaired, MERGE_SIZE, [], t, path);
    } else {
      UnexpandedIsSmall(Repaired, [], t, path);
    }
  }

  /** Repaired: from any trie of the full shape, every restructuring of one bucket after the first
      is paid for by eleven operations on keys under that bucket. */
  lemma {:induction false} RestructuringsBounded(t: Table, ops: seq<TrieOp>, path: seq<nat>)
    requires Placed([], t) && Sized(Repaired, MERGE_SIZE, 0, t) && path != []
    ensures Restructurings(Repaired, t, ops, path) > 0 ==>
              11 * (Restructurings(Repaired, t, ops, path) - 1) + Distance(t, path) <= Hits(ops, path)
    ensures Distance(t, path) >= 1
    decreases |ops|
  {
    hide Placed, Sized, Step, Distance, Expanded;
    if ops == [] {
      DistanceStep(t, Put(0), path);
    } else {
      DistanceStep(t, ops[0], path);
      StepPlaced(Repaired, t, ops[0]);
      StepShape(t, ops[0]);
      RestructuringsBounded(Step(Repaired, t, ops[0]), ops[1..], path);
    }
  }

  /** Repaired: wherever in a run the window of operations lies: at most one restructuring of a bucket,
      and one more for every eleven operations that hit it. */
  lemma RestructuringsInRun(before: seq<TrieOp>, ops: seq<TrieOp>, path: seq<nat>)
    requires path != []
    ensures 11 * Restructurings(Repaired, Run(Repaired, before), ops, path) <= Hits(ops, path) + 10
  {
    RunShape(before);
    RestructuringsBounded(Run(Repaired, before), ops, path);
  }
}
