/** Whole runs of put and delete on one trie, as written and repaired. */
module TrieRuns {
  import opened Words
  import opened AssociationList
  import opened Trie
  import opened TrieDelete
  import opened TrieShape

  datatype TrieOp = Put(key: Ull) | Del(key: Ull)

  function Step(v: Variant, t: Table, op: TrieOp): Table {
    match op
    case Put(key) => Insert(v, 0, t, Touch(key))
    case Del(key) => Delete(0, t, key)
  }

  function Run(v: Variant, ops: seq<TrieOp>): Table {
    if ops == [] then NewTable() else Step(v, Run(v, ops[..|ops| - 1]), ops[|ops| - 1])
  }

  /** The simple definition: how the operations on one key add up, whatever happens to others. */
  function Tally(ops: seq<TrieOp>, key: Ull): Option<Ull> {
    if ops == [] then None
    else
      var before := Tally(ops[..|ops| - 1], key);
      match ops[|ops| - 1]
      case Put(k) => if k == key then Bumped(before) else before
      case Del(k) => if k == key then Dropped(before) else before
  }

  /** As written and repaired alike: keys stay on their paths, lists have distinct keys, a bucket with a table
      has an empty list, and no table lies below level 15. */
  lemma {:induction false} RunPlaced(v: Variant, ops: seq<TrieOp>)
    ensures Placed([], Run(v, ops))
  {
    if ops == [] {
      NewTablePlaced([]);
    } else {
      RunPlaced(v, ops[..|ops| - 1]);
      StepPlaced(v, Run(v, ops[..|ops| - 1]), ops[|ops| - 1]);
    }
  }

  lemma StepPlaced(v: Variant, t: Table, op: TrieOp)
    requires Placed([], t)
    ensures Placed([], Step(v, t, op))
  {
    hide Placed, Find, Insert, Delete;
    assert OnPath(op.key, []);
    if op.Put? {
      InsertRefines(v, [], t, Touch(op.key));
    } else {
      DeleteRefines([], t, op.key);
    }
  }

  /** The trie stores what the operations so far add up to. */
  ghost predicate Agrees(v: Variant, ops: seq<TrieOp>) {
    forall k: Ull :: Find(0, Run(v, ops), k) == Tally(ops, k)
  }

  ghost predicate AlwaysAgrees(v: Variant, ops: seq<TrieOp>) {
    Agrees(v, ops) && (ops != [] ==> AlwaysAgrees(v, ops[..|ops| - 1]))
  }

  /** No merge of the run meets a nested table with keys, which can be seen before each delete. */
  ghost predicate LosslessRun(v: Variant, ops: seq<TrieOp>) {
    ops != [] ==>
      var before := ops[..|ops| - 1];
      && LosslessRun(v, before)
      && (ops[|ops| - 1].Del? ==> Lossless(0, Run(v, before), ops[|ops| - 1].key))
  }

  /** For either text: the trie agrees with the simple definition all along the run
      if and only if the run is lossless. */
  lemma {:induction false} AgreesExactlyWhenLossless(v: Variant, ops: seq<TrieOp>)
    ensures AlwaysAgrees(v, ops) <==> LosslessRun(v, ops)
  {
    if ops == [] {
      NewTablePlaced([]);
    } else {
      var before, op := ops[..|ops| - 1], ops[|ops| - 1];
      AgreesExactlyWhenLossless(v, before);
      if LosslessRun(v, before) {
        AgreesStep(v, ops);
      }
    }
  }

  lemma AgreesStep(v: Variant, ops: seq<TrieOp>)
    requires ops != [] && Agrees(v, ops[..|ops| - 1])
    ensures Agrees(v, ops)
            <==> (ops[|ops| - 1].Del? ==> Lossless(0, Run(v, ops[..|ops| - 1]), ops[|ops| - 1].key))
  {
    hide Placed, Find, Insert, Delete;
    var before, op := ops[..|ops| - 1], ops[|ops| - 1];
    var t := Run(v, before);
    RunPlaced(v, before);
    assert OnPath(op.key, []);
    if op.Put? {
      InsertRefines(v, [], t, Touch(op.key));
    } else {
      DeleteRefines([], t, op.key);
      assert Agrees(v, ops) <==> Exact(0, t, Delete(0, t, op.key), op.key) by {
        assert forall k: Ull :: Tally(ops, k) == After(op.key, k, Tally(before, k));
      }
    }
  }

  // ------------------------------------------------------------------
  // The repaired text

  /** Every reachable trie has the full shape, and no run ever loses a key. */
  lemma {:induction false} RunShape(ops: seq<TrieOp>)
    ensures Placed([], Run(Repaired, ops)) && Sized(Repaired, MERGE_SIZE, 0, Run(Repaired, ops))
    ensures LosslessRun(Repaired, ops)
  {
    hide Placed, Find, Insert, Delete, Sized;
    RunPlaced(Repaired, ops);
    if ops == [] {
      NewTableSized(Repaired, MERGE_SIZE, []);
    } else {
      var before, op := ops[..|ops| - 1], ops[|ops| - 1];
      RunShape(before);
      StepShape(Run(Repaired, before), op);
    }
  }

  lemma StepShape(t: Table, op: TrieOp)
    requires Placed([], t) && Sized(Repaired, MERGE_SIZE, 0, t)
    ensures Sized(Repaired, MERGE_SIZE, 0, Step(Repaired, t, op))
    ensures op.Del? ==> Lossless(0, t, op.key)
  {
    hide Placed, Find, Insert, Delete, Sized;
    assert OnPath(op.key, []);
    if op.Put? {
      InsertSized(Repaired, MERGE_SIZE, [], t, Touch(op.key));
    } else {
      DeleteSized(Repaired, [], t, op.key);
    }
  }

  /** No delete of the run merges a bucket. */
  predicate NoMergeRun(ops: seq<TrieOp>) {
    ops != [] ==>
      var before, op := ops[..|ops| - 1], ops[|ops| - 1];
      NoMergeRun(before) && (op.Del? ==> NoMerge(0, Run(AsWritten, before), op.key))
  }

  ghost predicate AlwaysShaped(ops: seq<TrieOp>) {
    Sized(AsWritten, MERGE_SIZE, 0, Run(AsWritten, ops)) && (ops != [] ==> AlwaysShaped(ops[..|ops| - 1]))
  }

  /** As written, the trie has the full shape all along a run if and only if the run merges nothing. */
  lemma {:induction false} ShapedExactlyUntilMerge(ops: seq<TrieOp>)
    ensures AlwaysShaped(ops) <==> NoMergeRun(ops)
  {
    hide Placed, Find, Insert, Delete, Sized, NoMerge;
    if ops == [] {
      NewTableSized(AsWritten, MERGE_SIZE, []);
    } else {
      var before, op := ops[..|ops| - 1], ops[|ops| - 1];
      ShapedExactlyUntilMerge(before);
      if AlwaysShaped(before) {
        RunPlaced(AsWritten, before);
        assert OnPath(op.key, []);
        if op.Put? {
          InsertSized(AsWritten, MERGE_SIZE, [], Run(AsWritten, before), Touch(op.key));
        } else {
          ShapeEndsWithMerge([], Run(AsWritten, before), op.key);
        }
      }
    }
  }

  /** The keys that the operations leave with a value. */
  ghost function Tallied(ops: seq<TrieOp>): set<Ull> {
    set k: Ull | Tally(ops, k).Some?
  }

  // ------------------------------------------------------------------
  // What count is, for either text: the stored keys and the keys that merges destroyed

  /** The keys that the operation should leave stored and destroys. */
  ghost function LostBy(v: Variant, t: Table, op: TrieOp): set<Ull> {
    set k: Ull | op.Del? && After(op.key, k, Find(0, t, k)).Some? && Find(0, Step(v, t, op), k).None?
  }

  /** How often in the run a key was destroyed. */
  ghost function Lost(v: Variant, ops: seq<TrieOp>): nat {
    if ops == [] then 0
    else
      var before := ops[..|ops| - 1];
      Lost(v, before) + |LostBy(v, Run(v, before), ops[|ops| - 1])|
  }

  /** The keys that were destroyed at some time in the run. */
  ghost function LostKeys(v: Variant, ops: seq<TrieOp>): set<Ull> {
    if ops == [] then {}
    else
      var before := ops[..|ops| - 1];
      LostKeys(v, before) + LostBy(v, Run(v, before), ops[|ops| - 1])
  }

  /** One operation: the keys it should leave are those it leaves and those it destroys. */
  lemma StepKeys(v: Variant, t: Table, op: TrieOp)
    requires Placed([], t)
    ensures var t' := Step(v, t, op);
            && Keys(0, t') !! LostBy(v, t, op)
            && (op.Put? ==> Keys(0, t') == Keys(0, t) + {op.key} && LostBy(v, t, op) == {})
            && (op.Del? ==> Keys(0, t') + LostBy(v, t, op)
                            == if DropsOut(t, op.key) then Keys(0, t) - {op.key} else Keys(0, t))
            && t'.count == (if op.Put? && op.key !in Keys(0, t) then Inc(t.count)
                            else if op.Del? && DropsOut(t, op.key) then Dec(t.count) else t.count)
  {
    hide Placed, Find, Insert, Delete, Dropped, Bumped;
    assert OnPath(op.key, []);
    if op.Put? {
      InsertRefines(v, [], t, Touch(op.key));
      InsertedKeys(t, Step(v, t, op), op.key);
    } else {
      DeleteRefines([], t, op.key);
      DeletedKeys(v, t, op.key);
    }
  }

  /** The key's last occurrence would go. */
  ghost predicate DropsOut(t: Table, key: Ull) {
    Find(0, t, key).Some? && Dropped(Find(0, t, key)).None?
  }

  lemma InsertedKeys(t: Table, t': Table, key: Ull)
    requires Inserted([], t, t', Touch(key))
    ensures Keys(0, t') == Keys(0, t) + {key}
  {
    hide Find, Placed;
  }

  lemma DeletedKeys(v: Variant, t: Table, key: Ull)
    requires Deleted([], t, Delete(0, t, key), key)
    ensures Keys(0, Delete(0, t, key)) + LostBy(v, t, Del(key))
            == if DropsOut(t, key) then Keys(0, t) - {key} else Keys(0, t)
  {
    hide Find, Placed, Delete;
    var t' := Delete(0, t, key);
    forall k: Ull
      ensures k in Keys(0, t') + LostBy(v, t, Del(key)) <==> After(key, k, Find(0, t, k)).Some?
    {
    }
    assert Dropped(None).None?;
  }

  /** One operation destroys nothing exactly when each of its merges is lossless. */
  lemma LosesNothing(v: Variant, t: Table, op: TrieOp)
    requires Placed([], t)
    ensures LostBy(v, t, op) == {} <==> (op.Del? ==> Lossless(0, t, op.key))
  {
    hide Placed, Find, Insert, Delete;
    assert OnPath(op.key, []);
    if op.Del? {
      DeleteRefines([], t, op.key);
      if LostBy(v, t, op) == {} {
        forall k: Ull ensures Find(0, Delete(0, t, op.key), k) == After(op.key, k, Find(0, t, k)) {
          assert k !in LostBy(v, t, op);
        }
      }
    }
  }

  lemma {:induction false} LostNothing(v: Variant, ops: seq<TrieOp>)
    ensures Lost(v, ops) == 0 <==> LosslessRun(v, ops)
    ensures Lost(v, ops) == 0 <==> LostKeys(v, ops) == {}
    ensures |LostKeys(v, ops)| <= Lost(v, ops)
  {
    hide LostBy, Lossless, Run;
    if ops != [] {
      var before, op := ops[..|ops| - 1], ops[|ops| - 1];
      LostNothing(v, before);
      RunPlaced(v, before);
      LosesNothing(v, Run(v, before), op);
      UnionSize(LostKeys(v, before), LostBy(v, Run(v, before), op));
    }
  }

  lemma UnionSize(a: set<Ull>, b: set<Ull>)
    ensures |a + b| <= |a| + |b|
    ensures a !! b ==> |a + b| == |a| + |b|
  {
    assert |a + b| == |a| + |b| - |a * b|;
  }

  /** After any run of either text, the root's count is the number of stored keys plus that of the destroyed
      ones, and both together are no more than the operations. */
  lemma {:induction false} CountIsStoredAndLost(v: Variant, ops: seq<TrieOp>)
    ensures Run(v, ops).count == Wrap(|Keys(0, Run(v, ops))| + Lost(v, ops))
    ensures |Keys(0, Run(v, ops))| + Lost(v, ops) <= |ops|
  {
    hide Keys, LostBy, Wrap, Inc, Dec, Placed, Insert, Delete, NewTable;
    if ops == [] {
      NoKeysYet();
      WrapStep(0);
    } else {
      var before, op := ops[..|ops| - 1], ops[|ops| - 1];
      CountIsStoredAndLost(v, before);
      RunPlaced(v, before);
      StepCount(v, Run(v, before), op, Lost(v, before));
    }
  }

  lemma NoKeysYet()
    ensures Keys(0, NewTable()) == {} && NewTable().count == 0
  {
    NewTablePlaced([]);
    NewTableBuckets();
  }

  lemma StepCount(v: Variant, t: Table, op: TrieOp, lost: nat)
    requires Placed([], t) && t.count == Wrap(|Keys(0, t)| + lost)
    ensures var t' := Step(v, t, op);
            && t'.count == Wrap(|Keys(0, t')| + lost + |LostBy(v, t, op)|)
            && |Keys(0, t')| + |LostBy(v, t, op)| <= |Keys(0, t)| + 1
  {
    hide Placed, Find, Insert, Delete, Wrap, Keys, LostBy, Inc, Dec;
    var t' := Step(v, t, op);
    var keys, left, lostNow := Keys(0, t), Keys(0, t'), LostBy(v, t, op);
    StepKeys(v, t, op);
    UnionSize(left, lostNow);
    WrapNext(|keys| + lost, |keys| + lost + 1);
    WrapNext(|keys| + lost - 1, |keys| + lost);
    if op.Put? {
      assert |left| == |keys| + if op.key in keys then 0 else 1 by {
        assert op.key in keys ==> keys + {op.key} == keys;
      }
    } else {
      DropsOutIsStored(t, op.key);
      assert |left| + |lostNow| == |keys| - if DropsOut(t, op.key) then 1 else 0;
    }
  }

  lemma DropsOutIsStored(t: Table, key: Ull)
    ensures DropsOut(t, key) ==> key in Keys(0, t)
  {
  }

  /** The root's count is the number of stored keys if and only if the run is lossless. */
  lemma CountExactWhenLossless(v: Variant, ops: seq<TrieOp>)
    requires |ops| < WORD
    ensures Run(v, ops).count == |Keys(0, Run(v, ops))| <==> LosslessRun(v, ops)
  {
    hide Run, Keys, Lost, LostKeys, LosslessRun, Wrap, Inc, Dec;
    CountIsStoredAndLost(v, ops);
    LostNothing(v, ops);
    WrapStep(|Keys(0, Run(v, ops))| + Lost(v, ops));
  }

  /** As long as nothing was lost, the incremental count of the root is the number of distinct keys. */
  lemma RunCount(v: Variant, ops: seq<TrieOp>)
    requires LosslessRun(v, ops)
    ensures Keys(0, Run(v, ops)) == Tallied(ops) && Run(v, ops).count == Wrap(|Tallied(ops)|)
  {
    hide Find, Tally, Run, Lost, LosslessRun, Wrap;
    AgreesExactlyWhenLossless(v, ops);
    CountIsStoredAndLost(v, ops);
    LostNothing(v, ops);
  }

  /** What is stored is at most what is due: a destroyed key starts again from nothing. */
  ghost predicate AtMost(o: Option<Ull>, p: Option<Ull>) {
    o.Some? ==> p.Some? && 1 <= o.value <= p.value
  }

  /** For either text: no stored value is too large, and one that is too small is that of a key destroyed before. */
  lemma {:induction false} StoredAtMost(v: Variant, ops: seq<TrieOp>, key: Ull)
    requires |ops| < WORD
    ensures AtMost(Find(0, Run(v, ops), key), Tally(ops, key))
    ensures key !in LostKeys(v, ops) ==> Find(0, Run(v, ops), key) == Tally(ops, key)
  {
    hide Find, Insert, Delete, Placed;
    if ops == [] {
      NewTablePlaced([]);
    } else {
      var before, op := ops[..|ops| - 1], ops[|ops| - 1];
      StoredAtMost(v, before, key);
      StoredValuesPositive(before, key);
      RunPlaced(v, before);
      StepValue(v, Run(v, before), op, key);
    }
  }

  lemma StepValue(v: Variant, t: Table, op: TrieOp, key: Ull)
    requires Placed([], t)
    ensures var o, o' := Find(0, t, key), Find(0, Step(v, t, op), key);
            && (op.Put? ==> o' == if op.key == key then Bumped(o) else o)
            && (op.Del? && (o'.Some? || key !in LostBy(v, t, op)) ==> o' == After(op.key, key, o))
  {
    hide Find, Insert, Delete, Placed, Bumped, Dropped;
    assert OnPath(op.key, []);
    if op.Put? {
      InsertRefines(v, [], t, Touch(op.key));
    } else {
      DeleteRefines([], t, op.key);
    }
  }

  /** The keys that should be stored and are not. */
  ghost function Missing(v: Variant, ops: seq<TrieOp>): set<Ull> {
    Tallied(ops) - Keys(0, Run(v, ops))
  }

  /** How wrong count is, for either text: it exceeds the number of keys due by the losses that no missing key
      stands for. So it is never too small, and right exactly when each loss of the run has a missing key. */
  lemma CountExcess(v: Variant, ops: seq<TrieOp>)
    requires |ops| < WORD
    ensures |Missing(v, ops)| <= Lost(v, ops)
    ensures Run(v, ops).count == |Tallied(ops)| + (Lost(v, ops) - |Missing(v, ops)|)
    ensures Run(v, ops).count == |Tallied(ops)| <==> Lost(v, ops) == |Missing(v, ops)|
  {
    hide Find, Tally, Run, Lost, LostKeys, LosslessRun, Wrap, Inc, Dec;
    var keys, due := Keys(0, Run(v, ops)), Tallied(ops);
    forall k: Ull ensures (k in keys ==> k in due) && (k in Missing(v, ops) ==> k in LostKeys(v, ops)) {
      StoredAtMost(v, ops, k);
    }
    CountIsStoredAndLost(v, ops);
    LostNothing(v, ops);
    WrapStep(|keys| + Lost(v, ops));
    SubsetSize(Missing(v, ops), LostKeys(v, ops));
    assert due == keys + Missing(v, ops);
    UnionSize(keys, Missing(v, ops));
  }

  // ------------------------------------------------------------------
  // What a run adds up to

  /** Whatever the run, repaired or lossless: each key's value is what its own operations add up to,
      and the root's count is the number of keys with a value. */
  lemma RunRefinesTally(v: Variant, ops: seq<TrieOp>)
    requires v.Repaired? || LosslessRun(v, ops)
    ensures forall key: Ull :: Find(0, Run(v, ops), key) == Tally(ops, key)
    ensures Run(v, ops).count == Wrap(|Tallied(ops)|)
  {
    hide Find, Run, Tally, LosslessRun, Wrap;
    RunShape(ops);
    RunCount(v, ops);
    AgreesExactlyWhenLossless(v, ops);
  }

  /** Stored values count references: never zero, never more than there were operations. */
  lemma {:induction false} StoredValuesPositive(ops: seq<TrieOp>, key: Ull)
    requires |ops| < WORD
    ensures Tally(ops, key).Some? ==> 1 <= Tally(ops, key).value <= |ops|
  {
    if ops != [] {
      StoredValuesPositive(ops[..|ops| - 1], key);
    }
  }

  // ------------------------------------------------------------------
  // Space

  /** How many tables hang below the buckets of a table, from bucket j on. */
  function NestedTables(t: Table, j: nat := 0): nat
    decreases t, |t.buckets| - j
  {
    if j >= |t.buckets| then 0
    else (if t.buckets[j].Deep? then 1 + NestedTables(t.buckets[j].table) else 0) + NestedTables(t, j + 1)
  }

  ghost function KeysFrom(level: nat, t: Table, j: nat): set<Ull> {
    set k: Ull | k in Keys(level, t) && Index(k, level) >= j
  }

  /** Every nested table has six keys of its own, and a key lies in at most fifteen nested tables. */
  lemma {:induction false} SpaceBound(path: seq<nat>, t: Table, j: nat)
    requires Placed(path, t) && Sized(Repaired, MERGE_SIZE, |path|, t) && j <= TABLE_SIZE
    ensures MERGE_SIZE * NestedTables(t, j) <= (LAST_LEVEL - |path|) * |KeysFrom(|path|, t, j)|
    decreases t, TABLE_SIZE - j
  {
    hide Find, Wrap;
    if j < TABLE_SIZE {
      var rest, all := KeysFrom(|path|, t, j + 1), KeysFrom(|path|, t, j);
      SpaceBound(path, t, j + 1);
      PlacedAt(path, t, j);
      if t.buckets[j].Deep? {
        var n := t.buckets[j].table;
        assert |path + [j]| == |path| + 1;
        SpaceBound(path + [j], n, 0);
        assert KeysFrom(|path| + 1, n, 0) == Keys(|path| + 1, n);
        NestedCount(path + [j], n);
        DisjointKeys(path, t, j);
        AddSpace(LAST_LEVEL - |path|, NestedTables(n), |Keys(|path| + 1, n)|,
                 NestedTables(t, j + 1), |rest|, |all|);
      } else {
        SubsetSize(rest, all);
        TimesMonotonic(LAST_LEVEL - |path|, |rest|, |all|);
      }
    }
  }

  lemma PlacedAt(path: seq<nat>, t: Table, j: nat)
    requires Placed(path, t) && j < TABLE_SIZE
    ensures |t.buckets| == TABLE_SIZE && PlacedIn(path + [j], t.buckets[j])
    ensures t.buckets[j].Deep? ==> |path| < LAST_LEVEL
  {
  }

  lemma DisjointKeys(path: seq<nat>, t: Table, j: nat)
    requires Placed(path, t) && j < TABLE_SIZE && t.buckets[j].Deep?
    ensures |Keys(|path| + 1, t.buckets[j].table)| + |KeysFrom(|path|, t, j + 1)| <= |KeysFrom(|path|, t, j)|
  {
    PlacedAt(path, t, j);
    OwnKeys(path, t, j, t.buckets[j].table);
    var own, rest := Keys(|path| + 1, t.buckets[j].table), KeysFrom(|path|, t, j + 1);
    assert own !! rest;
    SubsetSize(own + rest, KeysFrom(|path|, t, j));
  }

  lemma OwnKeys(path: seq<nat>, t: Table, j: nat, n: Table)
    requires Placed(path, t) && j < |t.buckets| == TABLE_SIZE && t.buckets[j].Deep? && n == t.buckets[j].table
    ensures forall k :: k in Keys(|path| + 1, n) ==> k in Keys(|path|, t) && Index(k, |path|) == j
  {
    NestedKeys(path, t, j);
    PlacedAt(path, t, j);
    assert |path + [j]| == |path| + 1;
    forall k | k in Keys(|path| + 1, n) ensures Index(k, |path|) == j {
      FoundOnPath(path + [j], n, k);
      OnPathStep(k, path, j);
    }
  }

  lemma AddSpace(depth: nat, x: nat, a: nat, y: nat, b: nat, c: nat)
    requires depth > 0 && MERGE_SIZE * x <= (depth - 1) * a && MERGE_SIZE <= a
    requires MERGE_SIZE * y <= depth * b && a + b <= c
    ensures MERGE_SIZE * (1 + x + y) <= depth * c
  {
    TimesMonotonic(depth, a + b, c);
    assert depth * (a + b) == (depth - 1) * a + a + depth * b;
  }

  /** In every reachable trie the tables are bounded by the keys. */
  lemma RunSpaceBound(ops: seq<TrieOp>)
    ensures MERGE_SIZE * NestedTables(Run(Repaired, ops))
            <= LAST_LEVEL * |Tallied(ops)|
  {
    hide Run, Tallied, Wrap, Placed, Sized, Find, NestedTables;
    RunShape(ops);
    SpaceBound([], Run(Repaired, ops), 0);
    RunCount(Repaired, ops);
    assert KeysFrom(0, Run(Repaired, ops), 0) == Keys(0, Run(Repaired, ops));
  }
}
