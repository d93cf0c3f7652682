/** windowset.c on the heap: the module's variables as one object, and the loop that feeds it a trace. */
module WindowSets {
  import opened Words
  import opened AssociationList
  import opened Trie
  import opened TrieDelete
  import opened TrieRuns
  import opened Memory
  import opened Queues
  import opened Hashtables
  import opened Window

  class WindowSet {
    const v: Variant
    const pageExponent: nat
    const windowSize: Ull
    const queue: Queue
    const hashtable: Hashtable

    ghost predicate Valid()
      reads this, queue, queue.nodes, hashtable, hashtable.Repr
    {
      && queue.Valid() && queue.size == |queue.contents|
      && hashtable.Valid() && hashtable in hashtable.Repr && queue.Repr() !! hashtable.Repr
      && this !in queue.Repr() && this !in hashtable.Repr
      && hashtable.level == 0 && Placed([], hashtable.model) && pageExponent < 64
    }

    ghost function Model(): State
      reads queue, hashtable
    {
      State(queue.contents, hashtable.model)
    }

    ghost function Settings(): Config {
      Config(pageExponent, windowSize)
    }

    ghost function Repr(): set<object>
      reads queue, hashtable
    {
      queue.Repr() + hashtable.Repr
    }

    ghost predicate Owned(heap: Heap)
      reads heap, queue, hashtable
    {
      heap !in Repr() && Repr() <= heap.live
    }

    /** initialize_window_set; the page size must be positive */
    constructor (v: Variant, pageSize: Ull, windowSize: Ull, ghost heap: Heap)
      requires pageSize > 0
      modifies heap
      ensures Valid() && Model() == EMPTY && this.v == v && this.windowSize == windowSize
      ensures Pow2(pageExponent) <= pageSize < Pow2(pageExponent + 1)
      ensures fresh(Repr()) && heap.live == old(heap.live) + Repr()
    {
      this.v := v;
      this.windowSize := windowSize;
      var exponent := GetPowerOfTwo(pageSize);
      pageExponent := exponent;
      queue := new Queue(heap);
      hashtable := new Hashtable(0, heap);
      NewTablePlaced([]);
    }

    /** get_window_set_size */
    method GetSize() returns (size: Ull)
      requires Valid()
      ensures size == Model().trie.count
    {
      size := hashtable.count;
    }

    /** windowset_put */
    method PutPages(ref: MemRef, ghost heap: Heap)
      requires Valid() && Owned(heap)
      modifies hashtable.Repr, heap
      ensures Valid() && Owned(heap)
      ensures hashtable.model == Window.PutPages(v, old(hashtable.model), ref.address, ref.pageCount)
      ensures fresh(hashtable.Repr - old(hashtable.Repr))
      ensures Conserved(old(heap.live), old(hashtable.Repr), heap.live, hashtable.Repr)
    {
      hide Trie.Insert, Find, Placed, Conserved, Valid, Hashtable.Valid, Queue.Valid;
      ConservedSame(heap.live, hashtable.Repr);
      var i := 0;
      while i < ref.pageCount
        invariant i <= ref.pageCount && Valid() && Owned(heap)
        invariant hashtable.model == Window.PutPages(v, old(hashtable.model), ref.address, i)
        invariant fresh(hashtable.Repr - old(hashtable.Repr))
        invariant Conserved(old(heap.live), old(hashtable.Repr), heap.live, hashtable.Repr)
      {
        ghost var live, owned := heap.live, hashtable.Repr;
        PutPage(Wrap(ref.address + i), heap);
        ConservedSteps(old(heap.live), old(hashtable.Repr), live, owned, heap.live, hashtable.Repr);
        i := i + 1;
      }
    }

    method PutPage(page: Ull, ghost heap: Heap)
      requires Valid() && Owned(heap)
      modifies hashtable.Repr, heap
      ensures Valid() && Owned(heap)
      ensures hashtable.model == Trie.Insert(v, 0, old(hashtable.model), Touch(page))
      ensures fresh(hashtable.Repr - old(hashtable.Repr))
      ensures Conserved(old(heap.live), old(hashtable.Repr), heap.live, hashtable.Repr)
    {
      hide Trie.Insert, Find, Placed, Conserved, Queue.Valid, Blocks;
      InsertRefines(v, [], hashtable.model, Touch(page));
      hashtable.Put(page, v, [], heap);
      ConservedPart(old(heap.live), old(hashtable.Repr), heap.live, hashtable.Repr, old(hashtable.Repr + queue.Repr()));
    }

    /** windowset_delete */
    method DeletePages(ref: MemRef, ghost heap: Heap)
      requires Valid() && Owned(heap)
      modifies hashtable.Repr, heap
      ensures Valid() && Owned(heap)
      ensures hashtable.model == Window.DeletePages(old(hashtable.model), ref.address, ref.pageCount)
      ensures fresh(hashtable.Repr - old(hashtable.Repr))
      ensures Conserved(old(heap.live), old(hashtable.Repr), heap.live, hashtable.Repr)
    {
      hide Trie.Delete, Find, Placed, Conserved, Valid, Hashtable.Valid, Queue.Valid;
      ConservedSame(heap.live, hashtable.Repr);
      var i := 0;
      while i < ref.pageCount
        invariant i <= ref.pageCount && Valid() && Owned(heap)
        invariant hashtable.model == Window.DeletePages(old(hashtable.model), ref.address, i)
        invariant fresh(hashtable.Repr - old(hashtable.Repr))
        invariant Conserved(old(heap.live), old(hashtable.Repr), heap.live, hashtable.Repr)
      {
        ghost var live, owned := heap.live, hashtable.Repr;
        DeletePage(Wrap(ref.address + i), heap);
        ConservedSteps(old(heap.live), old(hashtable.Repr), live, owned, heap.live, hashtable.Repr);
        i := i + 1;
      }
    }

    method DeletePage(page: Ull, ghost heap: Heap)
      requires Valid() && Owned(heap)
      modifies hashtable.Repr, heap
      ensures Valid() && Owned(heap)
      ensures hashtable.model == Trie.Delete(0, old(hashtable.model), page)
      ensures fresh(hashtable.Repr - old(hashtable.Repr))
      ensures Conserved(old(heap.live), old(hashtable.Repr), heap.live, hashtable.Repr)
    {
      hide Trie.Delete, Find, Placed, Conserved, Queue.Valid, Blocks;
      DeleteRefines([], hashtable.model, page);
      hashtable.Delete(page, v, [], heap);
      ConservedPart(old(heap.live), old(hashtable.Repr), heap.live, hashtable.Repr, old(hashtable.Repr + queue.Repr()));
    }

    method EnqueueRef(ref: MemRef, ghost heap: Heap)
      requires Valid() && Owned(heap) && |queue.contents| + 1 < WORD
      modifies queue.Repr(), heap
      ensures Valid() && Owned(heap) && Model() == State(old(queue.contents) + [ref], old(hashtable.model))
      ensures fresh(Repr() - old(Repr())) && Conserved(old(heap.live), old(Repr()), heap.live, Repr())
    {
      hide Placed, Conserved, Queue.Valid, Hashtable.Valid, Blocks;
      queue.Enqueue(ref, heap);
      ConservedPart(old(heap.live), old(queue.Repr()), heap.live, queue.Repr(), old(Repr()));
      assert (old(Repr()) - old(queue.Repr())) + queue.Repr() == Repr();
    }

    method DequeueRef(ghost heap: Heap) returns (oldest: MemRef)
      requires Valid() && Owned(heap) && queue.contents != []
      modifies queue.Repr(), heap
      ensures Valid() && Owned(heap) && oldest == old(queue.contents)[0]
      ensures Model() == State(old(queue.contents)[1..], old(hashtable.model))
      ensures fresh(Repr() - old(Repr())) && Conserved(old(heap.live), old(Repr()), heap.live, Repr())
    {
      hide Placed, Conserved, Queue.Valid, Hashtable.Valid, Blocks;
      oldest := queue.Dequeue(heap);
      ConservedPart(old(heap.live), old(queue.Repr()), heap.live, queue.Repr(), old(Repr()));
      assert (old(Repr()) - old(queue.Repr())) + queue.Repr() == Repr();
    }

    /** windowset_put as part of a longer step that started with these blocks */
    method PutRef(ref: MemRef, ghost heap: Heap, ghost live: set<object>, ghost owned: set<object>)
      requires Valid() && Owned(heap) && Conserved(live, owned, heap.live, Repr())
      modifies hashtable.Repr, heap
      ensures Valid() && Owned(heap) && queue.size == |queue.contents|
      ensures Model()
              == State(old(queue.contents), Window.PutPages(v, old(hashtable.model), ref.address, ref.pageCount))
      ensures fresh(Repr() - old(Repr())) && Conserved(live, owned, heap.live, Repr())
              && queue.Repr() == old(queue.Repr())
    {
      hide Placed, Conserved, Queue.Valid, Hashtable.Valid, Blocks, Window.PutPages;
      PutPages(ref, heap);
      ConservedPart(old(heap.live), old(hashtable.Repr), heap.live, hashtable.Repr, old(Repr()));
      assert (old(Repr()) - old(hashtable.Repr)) + hashtable.Repr == Repr();
      ConservedSteps(live, owned, old(heap.live), old(Repr()), heap.live, Repr());
    }

    /** windowset_delete of what dequeue returns */
    method EvictOldest(ghost heap: Heap, ghost live: set<object>, ghost owned: set<object>)
      requires Valid() && Owned(heap) && Conserved(live, owned, heap.live, Repr()) && queue.contents != []
      modifies Repr(), heap
      ensures Valid() && Owned(heap)
      ensures var oldest := old(queue.contents)[0];
              Model() == State(old(queue.contents)[1..],
                               Window.DeletePages(old(hashtable.model), oldest.address, oldest.pageCount))
      ensures fresh(Repr() - old(Repr())) && Conserved(live, owned, heap.live, Repr())
    {
      hide Placed, Conserved, Queue.Valid, Hashtable.Valid, Blocks, Window.DeletePages;
      var oldest := DequeueRef(heap);
      ConservedSteps(live, owned, old(heap.live), old(Repr()), heap.live, Repr());
      ghost var before, all, part := heap.live, Repr(), hashtable.Repr;
      DeletePages(oldest, heap);
      ConservedPart(before, part, heap.live, hashtable.Repr, all);
      assert (all - part) + hashtable.Repr == Repr();
      ConservedSteps(live, owned, before, all, heap.live, Repr());
    }

    /** The page interval of window_set_insert. */
    method MakeRef(address: Ull, size: Ull) returns (ref: MemRef)
      ensures ref == ToRef(pageExponent, Access(address, size))
    {
      hide Shr, Wrap;
      var lower: int := Shr(address, pageExponent);
      var upper: int := Shr(Wrap(address + size - 1), pageExponent);
      ref := MemRef(lower, Wrap(upper - lower + 1));
    }

    /** window_set_insert */
    method Insert(address: Ull, size: Ull, ghost heap: Heap)
      requires Valid() && Owned(heap) && |queue.contents| + 1 < WORD
      modifies Repr(), heap
      ensures Valid() && Owned(heap) && Model() == Slide(v, Settings(), old(Model()), Access(address, size))
      ensures fresh(Repr() - old(Repr())) && Conserved(old(heap.live), old(Repr()), heap.live, Repr())
    {
      hide Valid, Conserved, Queue.Valid, Hashtable.Valid, Blocks, ToRef, Window.PutPages, Window.DeletePages;
      var ref := MakeRef(address, size);
      EnqueueRef(ref, heap);
      PutRef(ref, heap, old(heap.live), old(Repr()));
      if queue.size > windowSize {
        EvictOldest(heap, old(heap.live), old(Repr()));
      }
    }

    /** destroy_window_set */
    method Destroy(ghost heap: Heap)
      requires Valid() && Owned(heap)
      modifies queue.Repr(), heap
      ensures heap.live == old(heap.live) - old(Repr())
    {
      hide Placed, Queue.Valid, Hashtable.Valid, Blocks;
      queue.Destroy(heap);
      hashtable.Destroy(heap);
    }
  }

  /** What the size reported after these accesses is worth: never too small, and right when the text is repaired
      or the run so far is lossless. */
  ghost predicate Reliable(v: Variant, cfg: Config, trace: seq<Access>, size: Ull) {
    var touched := |PagesTouched(cfg.exponent, Last(trace, cfg.window))|;
    && (v.Repaired? || LosslessRun(v, WindowOps(cfg, trace)) ==> size == Wrap(touched))
    && (|WindowOps(cfg, trace)| < WORD ==> size >= touched)
  }

  lemma SizeIsReliable(v: Variant, cfg: Config, trace: seq<Access>)
    requires TraceOk(cfg.exponent, trace) && cfg.exponent < 64 && NoQueueOverflow(cfg, trace)
    ensures Reliable(v, cfg, trace, RunWindow(v, cfg, trace).trie.count)
  {
    hide RunWindow, LosslessRun, WindowOps, PagesTouched, Wrap;
    if v.Repaired? || LosslessRun(v, WindowOps(cfg, trace)) {
      WindowSizeIsDistinctPages(v, cfg, trace);
    }
    if |WindowOps(cfg, trace)| < WORD {
      WindowSizeExcess(v, cfg, trace);
    }
  }

  /** The loop of valws379.c over the accesses of a trace: the size reported after each of them.
      Everything allocated on the way is freed in the end, once. */
  method Replay(v: Variant, pageSize: Ull, windowSize: Ull, trace: seq<Access>, ghost heap: Heap)
    returns (sizes: seq<Ull>, ghost e: nat)
    requires pageSize > 0 && (windowSize + 1 < WORD || |trace| < WORD)
    modifies heap
    ensures Pow2(e) <= pageSize < Pow2(e + 1) && e < 64 && |sizes| == |trace|
    ensures forall i :: 0 <= i < |trace| ==> sizes[i] == RunWindow(v, Config(e, windowSize), trace[..i + 1]).trie.count
    ensures TraceOk(e, trace) ==>
              forall i :: 0 <= i < |trace| ==> Reliable(v, Config(e, windowSize), trace[..i + 1], sizes[i])
    ensures heap.live == old(heap.live)
  {
    hide Reliable;
    var w := new WindowSet(v, pageSize, windowSize, heap);
    e := w.pageExponent;
    ghost var cfg := Config(e, windowSize);
    ghost var live, owned := heap.live, w.Repr();
    sizes := Feed(w, trace, heap);
    assert heap.live - w.Repr() == live - owned == old(heap.live);
    w.Destroy(heap);
    if TraceOk(e, trace) {
      forall i | 0 <= i < |trace| ensures Reliable(v, cfg, trace[..i + 1], sizes[i]) {
        SizeIsReliable(v, cfg, trace[..i + 1]);
      }
    }
  }

  method Feed(w: WindowSet, trace: seq<Access>, ghost heap: Heap) returns (sizes: seq<Ull>)
    requires w.Valid() && w.Owned(heap) && w.Model() == EMPTY && NoQueueOverflow(w.Settings(), trace)
    modifies w.Repr(), heap
    ensures w.Valid() && w.Owned(heap) && fresh(w.Repr() - old(w.Repr()))
    ensures |sizes| == |trace|
    ensures forall i :: 0 <= i < |trace| ==> sizes[i] == RunWindow(w.v, w.Settings(), trace[..i + 1]).trie.count
    ensures Conserved(old(heap.live), old(w.Repr()), heap.live, w.Repr())
  {
    hide RunWindow, WindowSet.Valid, Slide, Conserved;
    sizes := [];
    ConservedSame(heap.live, w.Repr());
    RunWindowStart(w.v, w.Settings(), trace[..0]);
    for i := 0 to |trace|
      invariant w.Valid() && w.Owned(heap) && fresh(w.Repr() - old(w.Repr()))
      invariant w.Model() == RunWindow(w.v, w.Settings(), trace[..i])
      invariant |sizes| == i
      invariant forall j :: 0 <= j < i ==> sizes[j] == RunWindow(w.v, w.Settings(), trace[..j + 1]).trie.count
      invariant Conserved(old(heap.live), old(w.Repr()), heap.live, w.Repr())
    {
      ghost var live, owned := heap.live, w.Repr();
      RunWindowNext(w.v, w.Settings(), trace, i);
      QueueFits(w.v, w.Settings(), trace, i);
      w.Insert(trace[i].address, trace[i].size, heap);
      ConservedSteps(old(heap.live), old(w.Repr()), live, owned, heap.live, w.Repr());
      var size := w.GetSize();
      sizes := sizes + [size];
    }
  }

  lemma RunWindowStart(v: Variant, cfg: Config, trace: seq<Access>)
    requires trace == []
    ensures RunWindow(v, cfg, trace) == EMPTY
  {
  }

  lemma RunWindowNext(v: Variant, cfg: Config, trace: seq<Access>, i: nat)
    requires i < |trace|
    ensures RunWindow(v, cfg, trace[..i + 1]) == Slide(v, cfg, RunWindow(v, cfg, trace[..i]), trace[i])
  {
    assert trace[..i + 1][..i] == trace[..i];
  }

  lemma QueueFits(v: Variant, cfg: Config, trace: seq<Access>, i: nat)
    requires i < |trace| && NoQueueOverflow(cfg, trace)
    ensures |RunWindow(v, cfg, trace[..i]).queue| + 1 < WORD
  {
    WindowIsTrieRun(v, cfg, trace[..i]);
    QueuedAreLast(cfg, trace[..i]);
  }
}
