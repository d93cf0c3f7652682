/** Whether a delete finds the key that it should remove. For the text as written it may not: a merge may have
    destroyed the key before. */
module Evictions {
  import opened Words
  import opened AssociationList
  import opened Trie
  import opened TrieDelete
  import opened TrieRuns
  import opened Window

  // ------------------------------------------------------------------
  // Runs of put and delete

  /** Every delete of the run whose key is due finds it stored. */
  ghost predicate AllFound(v: Variant, ops: seq<TrieOp>) {
    ops != [] ==>
      var before, op := ops[..|ops| - 1], ops[|ops| - 1];
      && AllFound(v, before)
      && (op.Del? && Tally(before, op.key).Some? ==> Find(0, Run(v, before), op.key).Some?)
  }

  /** A value, where an absent key counts as zero. */
  function Worth(o: Option<Ull>): nat {
    if o.Some? then o.value else 0
  }

  lemma StepWorth(op: TrieOp, key: Ull, o: Option<Ull>, p: Option<Ull>, o': Option<Ull>)
    requires AtMost(o, p) && (p.Some? ==> 1 <= p.value < WORD - 1)
    requires op.Put? ==> o' == if op.key == key then Bumped(o) else o
    requires op.Del? ==> o' == None || o' == After(op.key, key, o)
    requires Worth(o) < Worth(p) || (op.Del? && After(op.key, key, o).Some? && o' == None)
    requires op.Del? && op.key == key && p.Some? ==> o.Some?
    ensures Worth(o') < Worth(if op.Put? then (if op.key == key then Bumped(p) else p) else After(op.key, key, p))
  {
  }

  /** As long as deletes find what is due, a key that was destroyed keeps too small a value. */
  lemma {:induction false} LostStaysShort(v: Variant, ops: seq<TrieOp>, key: Ull)
    requires |ops| < WORD && AllFound(v, ops) && key in LostKeys(v, ops)
    ensures Worth(Find(0, Run(v, ops), key)) < Worth(Tally(ops, key))
  {
    hide Find, Step, Worth, AtMost, Bumped, Dropped, LostBy;
    var before, op := ops[..|ops| - 1], ops[|ops| - 1];
    var t := Run(v, before);
    if key in LostKeys(v, before) {
      LostStaysShort(v, before, key);
    }
    RunPlaced(v, before);
    StoredAtMost(v, before, key);
    StoredValuesPositive(before, key);
    StepValue(v, t, op, key);
    LostByStep(v, t, op, key);
    StepWorth(op, key, Find(0, t, key), Tally(before, key), Find(0, Step(v, t, op), key));
  }

  lemma LostByStep(v: Variant, t: Table, op: TrieOp, key: Ull)
    ensures key in LostBy(v, t, op)
            <==> op.Del? && After(op.key, key, Find(0, t, key)).Some? && Find(0, Step(v, t, op), key) == None
  {
  }

  /** A run that agrees all along finds every key that is due. */
  lemma {:induction false} LosslessFinds(v: Variant, ops: seq<TrieOp>)
    requires LosslessRun(v, ops)
    ensures AllFound(v, ops)
  {
    hide Find, Lossless;
    if ops != [] {
      LosslessFinds(v, ops[..|ops| - 1]);
      AgreesExactlyWhenLossless(v, ops[..|ops| - 1]);
    }
  }

  /** For either text: every delete finds its key and the values are right in the end, if and only if
      the run is lossless. */
  lemma AllFoundExactWhenLossless(v: Variant, ops: seq<TrieOp>)
    requires |ops| < WORD
    ensures AllFound(v, ops) && Agrees(v, ops) <==> LosslessRun(v, ops)
  {
    hide Find, AllFound, LosslessRun, LostKeys, Worth;
    LostNothing(v, ops);
    if LosslessRun(v, ops) {
      LosslessFinds(v, ops);
      AgreesExactlyWhenLossless(v, ops);
    } else if AllFound(v, ops) && Agrees(v, ops) {
      var key :| key in LostKeys(v, ops);
      LostStaysShort(v, ops, key);
      assert false;
    }
  }

  /** A run that removes all it put finds every key if and only if it is lossless. */
  lemma EmptiedExactWhenLossless(v: Variant, ops: seq<TrieOp>)
    requires |ops| < WORD && Tallied(ops) == {}
    ensures AllFound(v, ops) <==> LosslessRun(v, ops)
  {
    hide Find, AllFound, LosslessRun, Tally;
    AllFoundExactWhenLossless(v, ops);
    forall k: Ull ensures Find(0, Run(v, ops), k) == Tally(ops, k) {
      StoredAtMost(v, ops, k);
      assert k !in Tallied(ops);
    }
  }

  // ------------------------------------------------------------------
  // The deletes of a window

  /** Every delete of the run hits a stored key with a value of at least one. */
  ghost predicate DeletesFind(v: Variant, ops: seq<TrieOp>) {
    ops != [] ==>
      var before, op := ops[..|ops| - 1], ops[|ops| - 1];
      && DeletesFind(v, before)
      && (op.Del? ==> Worth(Find(0, Run(v, before), op.key)) >= 1)
  }

  /** Every delete of the run removes an occurrence that was put. */
  ghost predicate AllDue(ops: seq<TrieOp>) {
    ops != [] ==>
      var before, op := ops[..|ops| - 1], ops[|ops| - 1];
      AllDue(before) && (op.Del? ==> Tally(before, op.key).Some?)
  }

  lemma {:induction false} DueAreFound(v: Variant, ops: seq<TrieOp>)
    requires AllDue(ops) && |ops| < WORD
    ensures DeletesFind(v, ops) <==> AllFound(v, ops)
  {
    hide Find, Tally;
    if ops != [] {
      var before, op := ops[..|ops| - 1], ops[|ops| - 1];
      DueAreFound(v, before);
      StoredAtMost(v, before, op.key);
    }
  }

  lemma DueSnoc(ops: seq<TrieOp>, op: TrieOp)
    requires AllDue(ops) && (op.Del? ==> Tally(ops, op.key).Some?)
    ensures AllDue(ops + [op])
  {
    assert (ops + [op])[..|ops|] == ops;
  }

  /** What an insert is about to evict when it has already deleted i pages of the oldest reference. */
  function EvictionOps(cfg: Config, trace: seq<Access>, access: Access, i: nat): seq<TrieOp>
    requires i <= Oldest(cfg, trace, access).pageCount
  {
    var ref, oldest := ToRef(cfg.exponent, access), Oldest(cfg, trace, access);
    WindowOps(cfg, trace) + PutOps(ref.address, ref.pageCount) + DelOps(oldest.address, i)
  }

  function Oldest(cfg: Config, trace: seq<Access>, access: Access): MemRef {
    (Queued(cfg, trace) + [ToRef(cfg.exponent, access)])[0]
  }

  /** The next page of the oldest reference is due. */
  lemma EvictedIsDue(cfg: Config, trace: seq<Access>, access: Access, i: nat)
    requires TraceOk(cfg.exponent, trace + [access]) && cfg.exponent < 64 && NoQueueOverflow(cfg, trace + [access])
    requires i < Oldest(cfg, trace, access).pageCount
    ensures Worth(Tally(EvictionOps(cfg, trace, access, i), Wrap(Oldest(cfg, trace, access).address + i))) >= 1
  {
    hide Tally, Wrap, ToRef, WindowOps, Bumped, Dropped, PutOps, DelOps;
    var queue, ref, ops := Queued(cfg, trace), ToRef(cfg.exponent, access), WindowOps(cfg, trace);
    var all := queue + [ref];
    TraceFront(cfg.exponent, trace, access);
    RefExactWhenCountable(cfg.exponent, access);
    TallyIsCover(cfg, trace, 0);
    var page: Ull := all[0].address + i;
    WrapStep(page);
    TallyIsCover(cfg, trace, page);
    TallyPutOps(ops, ref.address, ref.pageCount, page);
    TallyDelOps(ops + PutOps(ref.address, ref.pageCount), all[0].address, i, page);
    assert all[..|all| - 1] == queue;
    assert Tally(ops + PutOps(ref.address, ref.pageCount), page) == BumpedBy(None, Cover(all, page));
    CoverFirst(all, page);
    CoverBound(all, page);
    BumpedByValue(Cover(all, page));
  }

  lemma TraceFront(e: nat, trace: seq<Access>, access: Access)
    requires TraceOk(e, trace + [access])
    ensures TraceOk(e, trace) && InRange(access) && Countable(e, access)
  {
    assert (trace + [access])[|trace|] == access;
    assert forall j :: 0 <= j < |trace| ==> (trace + [access])[j] == trace[j];
  }

  /** Every delete that an insert issues hits a stored key with a value of at least one: always when repaired,
      and as written when the run up to that delete is lossless. */
  lemma EvictionFinds(v: Variant, cfg: Config, trace: seq<Access>, access: Access, i: nat)
    requires TraceOk(cfg.exponent, trace + [access]) && cfg.exponent < 64 && NoQueueOverflow(cfg, trace + [access])
    requires i < Oldest(cfg, trace, access).pageCount
    requires v.Repaired? || LosslessRun(v, EvictionOps(cfg, trace, access, i))
    ensures var s := RunWindow(v, cfg, trace);
            var ref := ToRef(cfg.exponent, access);
            var oldest := (s.queue + [ref])[0];
            var trie := DeletePages(PutPages(v, s.trie, ref.address, ref.pageCount), oldest.address, i);
            var stored := Find(0, trie, Wrap(oldest.address + i));
            s.queue == Queued(cfg, trace) && stored.Some? && stored.value >= 1
  {
    hide Find, Run, Tally, Wrap, ToRef, WindowOps, PutPages, DeletePages, RunWindow, LosslessRun, PutOps, DelOps;
    var ref, oldest := ToRef(cfg.exponent, access), Oldest(cfg, trace, access);
    var ops := WindowOps(cfg, trace);
    var put := PutOps(ref.address, ref.pageCount);
    WindowIsTrieRun(v, cfg, trace);
    PutPagesRun(v, ops, ref.address, ref.pageCount);
    DeletePagesRun(v, ops + put, oldest.address, i);
    RunRefinesTally(v, EvictionOps(cfg, trace, access, i));
    EvictedIsDue(cfg, trace, access, i);
  }

  lemma {:induction false} PutsAreDue(ops: seq<TrieOp>, page: Ull, n: nat)
    requires AllDue(ops)
    ensures AllDue(ops + PutOps(page, n))
  {
    if n == 0 {
      assert ops + PutOps(page, n) == ops;
    } else {
      PutsAreDue(ops, page, n - 1);
      var put := Put(Wrap(page + n - 1));
      DueSnoc(ops + PutOps(page, n - 1), put);
      assert ops + PutOps(page, n) == ops + PutOps(page, n - 1) + [put];
    }
  }

  lemma {:induction false} EvictionsAreDue(cfg: Config, trace: seq<Access>, access: Access, i: nat)
    requires TraceOk(cfg.exponent, trace + [access]) && cfg.exponent < 64 && NoQueueOverflow(cfg, trace + [access])
    requires i <= Oldest(cfg, trace, access).pageCount && AllDue(WindowOps(cfg, trace))
    ensures AllDue(EvictionOps(cfg, trace, access, i))
  {
    hide ToRef, WindowOps, Queued, PutOps, AllDue, Tally, Wrap;
    var ref, oldest := ToRef(cfg.exponent, access), Oldest(cfg, trace, access);
    var puts := WindowOps(cfg, trace) + PutOps(ref.address, ref.pageCount);
    if i == 0 {
      PutsAreDue(WindowOps(cfg, trace), ref.address, ref.pageCount);
      assert EvictionOps(cfg, trace, access, 0) == puts;
    } else {
      EvictionsAreDue(cfg, trace, access, i - 1);
      EvictedIsDue(cfg, trace, access, i - 1);
      var del := Del(Wrap(oldest.address + i - 1));
      DueSnoc(EvictionOps(cfg, trace, access, i - 1), del);
      assert EvictionOps(cfg, trace, access, i) == EvictionOps(cfg, trace, access, i - 1) + [del];
    }
  }

  /** A window only ever deletes what it put. */
  lemma {:induction false} WindowDeletesAreDue(cfg: Config, trace: seq<Access>)
    requires TraceOk(cfg.exponent, trace) && cfg.exponent < 64 && NoQueueOverflow(cfg, trace)
    ensures AllDue(WindowOps(cfg, trace))
  {
    hide ToRef, AllDue, PutOps, DelOps;
    if trace == [] {
      NoneDue();
    } else {
      var before, access := trace[..|trace| - 1], trace[|trace| - 1];
      assert before + [access] == trace;
      WindowDeletesAreDue(cfg, before);
      var ref, oldest := ToRef(cfg.exponent, access), Oldest(cfg, before, access);
      if |Queued(cfg, before)| + 1 > cfg.window {
        EvictionsAreDue(cfg, before, access, oldest.pageCount);
        assert WindowOps(cfg, trace) == EvictionOps(cfg, before, access, oldest.pageCount);
      } else {
        PutsAreDue(WindowOps(cfg, before), ref.address, ref.pageCount);
        assert PutOps(ref.address, ref.pageCount) + [] == PutOps(ref.address, ref.pageCount);
      }
    }
  }

  lemma NoneDue()
    ensures AllDue([])
  {
  }

  /** For either text, on every window and trace: every eviction finds its pages and every page's value is right
      in the end, if and only if the run is lossless. When the last accesses touch nothing, as with a window of
      zero, finding the pages alone is the same as being lossless. */
  lemma EvictionsFindWhenLossless(v: Variant, cfg: Config, trace: seq<Access>)
    requires TraceOk(cfg.exponent, trace) && cfg.exponent < 64 && NoQueueOverflow(cfg, trace)
    ensures var ops := WindowOps(cfg, trace);
            |ops| < WORD ==>
              && (DeletesFind(v, ops) && CountsCovers(RunWindow(v, cfg, trace)) <==> LosslessRun(v, ops))
              && (PagesTouched(cfg.exponent, Last(trace, cfg.window)) == {} ==>
                    (DeletesFind(v, ops) <==> LosslessRun(v, ops)))
  {
    hide Find, Tally, Run, LosslessRun, WindowOps, RunWindow, PagesTouched, CountsCovers, Agrees, AllFound, DeletesFind,
         AllDue, Queued;
    var ops := WindowOps(cfg, trace);
    if |ops| < WORD {
      WindowDeletesAreDue(cfg, trace);
      DueAreFound(v, ops);
      AllFoundExactWhenLossless(v, ops);
      WindowIsTrieRun(v, cfg, trace);
      CoversAreTallies(v, cfg, trace);
      TalliedAreTouched(cfg, trace);
      if PagesTouched(cfg.exponent, Last(trace, cfg.window)) == {} {
        EmptiedExactWhenLossless(v, ops);
      }
    }
  }
}
