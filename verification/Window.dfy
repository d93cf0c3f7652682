/** The sliding window of windowset.c: a queue of references and a trie that counts their pages. */
module Window {
  import opened Words
  import opened AssociationList
  import opened Trie
  import opened TrieShape
  import opened TrieRuns

  /** One memory access of the trace: bytes [address, address + size). */
  datatype Access = Access(address: Ull, size: Ull)

  /** A reference as queued: page_count pages from page `address` on. */
  datatype MemRef = MemRef(address: Ull, pageCount: Ull)

  datatype Config = Config(exponent: nat, window: Ull)

  /** The queue is listed from the oldest reference. */
  datatype State = State(queue: seq<MemRef>, trie: Table)

  const EMPTY: State := State([], NewTable())

  function ToRef(e: nat, access: Access): MemRef {
    var lower := Shr(access.address, e);
    var upper := Shr(Wrap(access.address + access.size - 1), e);
    MemRef(lower, Wrap(upper - lower + 1))
  }

  /** windowset_put over the first n pages of a reference */
  function PutPages(v: Variant, t: Table, page: Ull, n: nat): Table {
    if n == 0 then t else Insert(v, 0, PutPages(v, t, page, n - 1), Touch(Wrap(page + n - 1)))
  }

  /** windowset_delete */
  function DeletePages(t: Table, page: Ull, n: nat): Table {
    if n == 0 then t else Delete(0, DeletePages(t, page, n - 1), Wrap(page + n - 1))
  }

  /** window_set_insert */
  function Slide(v: Variant, cfg: Config, s: State, access: Access): State {
    var ref := ToRef(cfg.exponent, access);
    var queue := s.queue + [ref];
    var trie := PutPages(v, s.trie, ref.address, ref.pageCount);
    if |queue| > cfg.window then
      State(queue[1..], DeletePages(trie, queue[0].address, queue[0].pageCount))
    else
      State(queue, trie)
  }

  function RunWindow(v: Variant, cfg: Config, trace: seq<Access>): State {
    if trace == [] then EMPTY
    else Slide(v, cfg, RunWindow(v, cfg, trace[..|trace| - 1]), trace[|trace| - 1])
  }

  // ------------------------------------------------------------------
  // The simple definition

  function PageOf(byte: nat, e: nat): int {
    byte / Pow2(e)
  }

  /** The access touches some byte of the page. */
  ghost predicate Touches(e: nat, access: Access, page: Ull) {
    exists byte: nat :: access.address <= byte < access.address + access.size && PageOf(byte, e) == page
  }

  /** The last `window` accesses of the trace, or all of a shorter one. */
  function Last(trace: seq<Access>, window: nat): seq<Access> {
    if |trace| <= window then trace else trace[|trace| - window..]
  }

  ghost predicate Touched(e: nat, trace: seq<Access>, page: Ull) {
    exists j :: 0 <= j < |trace| && Touches(e, trace[j], page)
  }

  ghost function PagesTouched(e: nat, trace: seq<Access>): set<Ull> {
    set p: Ull | Touched(e, trace, p)
  }

  // ------------------------------------------------------------------
  // From bytes to pages

  ghost predicate Covers(ref: MemRef, page: Ull) {
    ref.address <= page < ref.address + ref.pageCount
  }

  /** The access does not run past the address space. */
  predicate InRange(access: Access) {
    access.address + access.size <= WORD
  }

  /** When the queued interval is right: always for an access of at least one byte. An access of
      no bytes queues no page only if it starts on a page boundary, and at address 0 only if pages
      are single bytes. */
  predicate Countable(e: nat, access: Access) {
    access.size >= 1 || (access.address % Pow2(e) == 0 && (access.address > 0 || e == 0))
  }

  lemma PageBounds(byte: Ull, e: nat, page: nat)
    ensures PageOf(byte, e) == page <==> Pow2(e) * page <= byte < Pow2(e) * (page + 1)
    ensures PageOf(byte, e) == Shr(byte, e)
  {
    ShrIsDivision(byte, e);
    ShrBounds(byte, e);
    if Pow2(e) * page <= byte < Pow2(e) * (page + 1) {
      QuotientUnique(byte, Pow2(e), page);
    }
  }

  /** The first byte of a page that starts after the first of two bytes and not after the second lies between them. */
  lemma PageBetween(first: Ull, last: Ull, e: nat, page: nat)
    requires Shr(first, e) < page <= Shr(last, e)
    ensures first <= Pow2(e) * page <= last && PageOf(Pow2(e) * page, e) == page
  {
    hide Pow2, PageOf, Shr;
    var size := Pow2(e);
    ShrBounds(first, e);
    ShrBounds(last, e);
    TimesMonotonic(size, Shr(first, e) + 1, page);
    TimesMonotonic(size, page, Shr(last, e));
    assert size * (page + 1) == size * page + size;
    PageBounds(size * page, e, page);
  }

  lemma TouchesInterval(e: nat, access: Access, page: Ull)
    requires InRange(access) && access.size >= 1
    ensures Touches(e, access, page)
            <==> Shr(access.address, e) <= page <= Shr(access.address + access.size - 1, e)
  {
    hide Pow2, PageOf, Shr;
    var first, last := access.address, access.address + access.size - 1;
    if Touches(e, access, page) {
      var byte: nat :| first <= byte <= last && PageOf(byte, e) == page;
      PageBounds(byte, e, page);
      ShrDifference(first, byte, e);
      ShrDifference(byte, last, e);
    }
    if Shr(first, e) <= page <= Shr(last, e) {
      if page == Shr(first, e) {
        PageBounds(first, e, page);
      } else {
        PageBetween(first, last, e, page);
      }
    }
  }

  lemma RefOfAccess(e: nat, access: Access)
    requires InRange(access) && access.size >= 1
    ensures var ref, last := ToRef(e, access), Shr(access.address + access.size - 1, e);
            ref.address == Shr(access.address, e) && ref.address + ref.pageCount == last + 1
  {
    hide Shr, Wrap;
    var first, last := access.address, access.address + access.size - 1;
    WrapStep(last);
    ShrDifference(first, last, e);
    WrapStep(Shr(last, e) - Shr(first, e) + 1);
  }

  /** An access of no bytes touches no page; its reference covers none just on a page boundary. */
  lemma EmptyAccess(e: nat, access: Access)
    requires InRange(access) && access.size == 0 && e < 64
    ensures ToRef(e, access).pageCount == 0 <==> Countable(e, access)
    ensures forall p: Ull :: !Touches(e, access, p)
  {
    hide Shr, Wrap, Pow2;
    var first := access.address;
    WrapStep(first);
    if first == 0 {
      ShrIsDivision(0, e);
      LastPage(e);
    } else {
      WrapStep(first - 1);
      ShrDifference(first - 1, first, e);
      PreviousPage(first, e);
      WrapStep(Shr(first - 1, e) - Shr(first, e) + 1);
    }
  }

  lemma PreviousPage(x: Ull, e: nat)
    requires x > 0
    ensures Shr(x - 1, e) == Shr(x, e) - 1 <==> x % Pow2(e) == 0
  {
    hide Shr, Pow2;
    var m, q := Pow2(e), Shr(x, e);
    ShrIsDivision(x, e);
    ShrBounds(x, e);
    assert x == m * q + x % m;
    if x == m * q {
      assert q > 0 && m * (q - 1) == m * q - m;
      PageBounds(x - 1, e, q - 1);
    } else {
      PageBounds(x - 1, e, q);
    }
  }

  lemma LastPage(e: nat)
    ensures Wrap(Shr(WORD - 1, e) + 1) == 0 <==> e == 0
    ensures Wrap(-1) == WORD - 1
  {
    WrapStep(WORD - 1);
    WrapStep(0);
    if e > 0 {
      ShrHalves(WORD - 1, e);
      WrapStep(Shr(WORD - 1, e) + 1);
    }
  }

  /** The queued interval is exactly the pages touched if and only if the access is countable. */
  lemma RefExactWhenCountable(e: nat, access: Access)
    requires InRange(access) && e < 64
    ensures (forall p: Ull :: Covers(ToRef(e, access), p) <==> Touches(e, access, p)) <==> Countable(e, access)
    ensures Countable(e, access) ==> ToRef(e, access).address + ToRef(e, access).pageCount <= WORD
  {
    hide Shr, Pow2, ToRef;
    var ref := ToRef(e, access);
    if access.size >= 1 {
      RefOfAccess(e, access);
      forall p: Ull ensures Covers(ref, p) <==> Touches(e, access, p) {
        TouchesInterval(e, access, p);
      }
    } else {
      EmptyAccess(e, access);
      assert Covers(ref, ref.address) <==> ref.pageCount > 0;
    }
  }

  /** What is queued for any access whatever, also for one that runs past the address space: from the page of its
      first byte to that of its last, both computed modulo 2^64. */
  lemma RefOfAnyAccess(e: nat, access: Access)
    ensures var ref, last := ToRef(e, access), (access.address + access.size - 1) % WORD;
            && ref.address == PageOf(access.address, e)
            && ref.pageCount == (PageOf(last, e) - PageOf(access.address, e) + 1) % WORD
  {
    hide Shr, Pow2, Wrap;
    var last := Wrap(access.address + access.size - 1);
    WrapIsModulo(access.address + access.size - 1);
    PageBounds(access.address, e, 0);
    PageBounds(last, e, 0);
    WrapIsModulo(Shr(last, e) - Shr(access.address, e) + 1);
  }

  /** For an access in range nothing wraps, countable or not, unless it is the empty one at address 0. */
  lemma RefInterval(e: nat, access: Access)
    requires InRange(access) && access.address + access.size >= 1
    ensures var ref := ToRef(e, access);
            && ref.address == PageOf(access.address, e)
            && ref.address + ref.pageCount == PageOf(access.address + access.size - 1, e) + 1
  {
    hide Shr, Pow2, Wrap;
    var first, last := access.address, access.address + access.size - 1;
    PageBounds(first, e, 0);
    PageBounds(last, e, 0);
    if access.size >= 1 {
      RefOfAccess(e, access);
    } else {
      WrapStep(last);
      ShrDifference(last, first, e);
      WrapStep(Shr(last, e) - Shr(first, e) + 1);
    }
  }

  /** An access of no bytes inside a page queues exactly this page, which it does not touch. */
  lemma EmptyAccessCovers(e: nat, access: Access)
    requires InRange(access) && access.size == 0 && access.address % Pow2(e) != 0 && e < 64
    ensures forall p: Ull :: Covers(ToRef(e, access), p) <==> p == PageOf(access.address, e)
    ensures !Countable(e, access) && forall p: Ull :: !Touches(e, access, p)
  {
    hide Shr, Pow2, Wrap, ToRef, Touches;
    assert access.address > 0 by {
      ZeroIsBoundary(e);
    }
    RefInterval(e, access);
    EmptyAccess(e, access);
    PreviousPage(access.address, e);
    PageBounds(access.address, e, 0);
    PageBounds(access.address - 1, e, 0);
    ShrDifference(access.address - 1, access.address, e);
    SamePage(e, access.address);
  }

  lemma ZeroIsBoundary(e: nat)
    ensures 0 % Pow2(e) == 0
  {
    hide Pow2;
  }

  lemma SamePage(e: nat, x: Ull)
    requires x % Pow2(e) != 0 && x > 0
    ensures PageOf(x - 1, e) == PageOf(x, e)
  {
    hide Pow2;
    var m := Pow2(e);
    assert x == m * (x / m) + x % m;
    assert m * (x / m + 1) == m * (x / m) + m;
    QuotientUnique(x - 1, m, x / m);
  }

  /** The empty access at address 0 queues all pages there are. */
  lemma EmptyAccessAtZero(e: nat)
    requires e < 64
    ensures ToRef(e, Access(0, 0)) == MemRef(0, Pow2(64 - e) % WORD)
  {
    hide Pow2, Shr, Wrap;
    RefOfAnyAccess(e, Access(0, 0));
    var m, n := Pow2(e), Pow2(64 - e);
    Pow2Sum(e, 64 - e);
    Pow2Word();
    assert WORD == m * n && m * (n - 1) == WORD - m;
    QuotientUnique(WORD - 1, m, n - 1);
    QuotientUnique(0, m, 0);
  }

  // ------------------------------------------------------------------
  // A window run is a run of put and delete on the trie

  function PutOps(page: Ull, n: nat): seq<TrieOp> {
    if n == 0 then [] else PutOps(page, n - 1) + [Put(Wrap(page + n - 1))]
  }

  function DelOps(page: Ull, n: nat): seq<TrieOp> {
    if n == 0 then [] else DelOps(page, n - 1) + [Del(Wrap(page + n - 1))]
  }

  /** The pages of a reference are put, and deleted, in ascending order. */
  lemma {:induction false} PageOrder(page: Ull, n: nat)
    ensures |PutOps(page, n)| == |DelOps(page, n)| == n
    ensures forall i :: 0 <= i < n ==>
              PutOps(page, n)[i] == Put((page + i) % WORD) && DelOps(page, n)[i] == Del((page + i) % WORD)
  {
    hide Wrap;
    if n > 0 {
      PageOrder(page, n - 1);
      WrapIsModulo(page + n - 1);
    }
  }

  /** The references that an insert leaves queued. */
  function Queued(cfg: Config, trace: seq<Access>): seq<MemRef> {
    if trace == [] then []
    else
      var queue := Queued(cfg, trace[..|trace| - 1]) + [ToRef(cfg.exponent, trace[|trace| - 1])];
      if |queue| > cfg.window then queue[1..] else queue
  }

  /** The trie operations that one insert issues, and those of the whole trace. */
  function SlideOps(cfg: Config, queue: seq<MemRef>, access: Access): seq<TrieOp> {
    var ref := ToRef(cfg.exponent, access);
    var oldest := (queue + [ref])[0];
    PutOps(ref.address, ref.pageCount)
    + if |queue| + 1 > cfg.window then DelOps(oldest.address, oldest.pageCount) else []
  }

  function WindowOps(cfg: Config, trace: seq<Access>): seq<TrieOp> {
    if trace == [] then []
    else
      var before := trace[..|trace| - 1];
      WindowOps(cfg, before) + SlideOps(cfg, Queued(cfg, before), trace[|trace| - 1])
  }

  lemma RunSnoc(v: Variant, ops: seq<TrieOp>, op: TrieOp)
    ensures Run(v, ops + [op]) == Step(v, Run(v, ops), op)
  {
    assert (ops + [op])[..|ops|] == ops;
  }

  lemma {:induction false} PutPagesRun(v: Variant, ops: seq<TrieOp>, page: Ull, n: nat)
    ensures PutPages(v, Run(v, ops), page, n) == Run(v, ops + PutOps(page, n))
  {
    hide Insert, Delete, Wrap, Run;
    if n == 0 {
      assert ops + PutOps(page, n) == ops;
    } else {
      PutPagesRun(v, ops, page, n - 1);
      RunSnoc(v, ops + PutOps(page, n - 1), Put(Wrap(page + n - 1)));
      assert ops + PutOps(page, n) == ops + PutOps(page, n - 1) + [Put(Wrap(page + n - 1))];
    }
  }

  lemma {:induction false} DeletePagesRun(v: Variant, ops: seq<TrieOp>, page: Ull, n: nat)
    ensures DeletePages(Run(v, ops), page, n) == Run(v, ops + DelOps(page, n))
  {
    hide Insert, Delete, Wrap, Run;
    if n == 0 {
      assert ops + DelOps(page, n) == ops;
    } else {
      DeletePagesRun(v, ops, page, n - 1);
      RunSnoc(v, ops + DelOps(page, n - 1), Del(Wrap(page + n - 1)));
      assert ops + DelOps(page, n) == ops + DelOps(page, n - 1) + [Del(Wrap(page + n - 1))];
    }
  }

  /** The trie of a window run is the trie of its operations, for either text. */
  lemma {:induction false} WindowIsTrieRun(v: Variant, cfg: Config, trace: seq<Access>)
    ensures RunWindow(v, cfg, trace) == State(Queued(cfg, trace), Run(v, WindowOps(cfg, trace)))
  {
    hide Run, ToRef, Insert, Delete, PutPages, DeletePages;
    if trace == [] {
      EmptyRun(v);
    } else {
      var before, access := trace[..|trace| - 1], trace[|trace| - 1];
      WindowIsTrieRun(v, cfg, before);
      SlideIsTrieRun(v, cfg, Queued(cfg, before), WindowOps(cfg, before), access);
    }
  }

  lemma EmptyRun(v: Variant)
    ensures Run(v, []) == NewTable()
  {
  }

  lemma SlideIsTrieRun(v: Variant, cfg: Config, queue: seq<MemRef>, ops: seq<TrieOp>, access: Access)
    ensures Slide(v, cfg, State(queue, Run(v, ops)), access).trie == Run(v, ops + SlideOps(cfg, queue, access))
  {
    hide Run, ToRef, Insert, Delete, PutPages, DeletePages;
    var ref := ToRef(cfg.exponent, access);
    var put := PutOps(ref.address, ref.pageCount);
    var oldest := (queue + [ref])[0];
    PutPagesRun(v, ops, ref.address, ref.pageCount);
    DeletePagesRun(v, ops + put, oldest.address, oldest.pageCount);
    var del := DelOps(oldest.address, oldest.pageCount);
    assert (ops + put) + del == ops + (put + del) && ops + put == ops + (put + []);
  }

  // ------------------------------------------------------------------
  // What the operations add up to

  function BumpedBy(o: Option<Ull>, n: nat): Option<Ull> {
    if n == 0 then o else Bumped(BumpedBy(o, n - 1))
  }

  /** How many references of the queue cover a page. */
  ghost function Cover(queue: seq<MemRef>, page: Ull): nat {
    if queue == [] then 0
    else Cover(queue[..|queue| - 1], page) + if Covers(queue[|queue| - 1], page) then 1 else 0
  }

  lemma {:induction false} CoverFirst(queue: seq<MemRef>, page: Ull)
    requires queue != []
    ensures Cover(queue, page) == Cover(queue[1..], page) + if Covers(queue[0], page) then 1 else 0
  {
    if |queue| == 1 {
      assert queue[..0] == [] && queue[1..] == [];
    } else {
      CoverFirst(queue[..|queue| - 1], page);
      assert queue[1..][..|queue| - 2] == queue[..|queue| - 1][1..];
    }
  }

  lemma {:induction false} CoverBound(queue: seq<MemRef>, page: Ull)
    ensures Cover(queue, page) <= |queue|
    ensures Cover(queue, page) > 0 <==> exists j :: 0 <= j < |queue| && Covers(queue[j], page)
  {
    if queue != [] {
      var rest := queue[..|queue| - 1];
      CoverBound(rest, page);
      if j :| 0 <= j < |queue| && Covers(queue[j], page) {
        assert j < |rest| ==> rest[j] == queue[j];
      }
      if Covers(queue[|queue| - 1], page) {
      } else if j :| 0 <= j < |rest| && Covers(rest[j], page) {
        assert queue[j] == rest[j];
      }
    }
  }

  lemma {:induction false} TallyPutOps(ops: seq<TrieOp>, page: Ull, n: nat, p: Ull)
    requires page + n <= WORD
    ensures Tally(ops + PutOps(page, n), p) == if page <= p < page + n then Bumped(Tally(ops, p)) else Tally(ops, p)
  {
    if n == 0 {
      assert ops + PutOps(page, n) == ops;
    } else {
      TallyPutOps(ops, page, n - 1, p);
      var all := ops + PutOps(page, n);
      assert all[..|all| - 1] == ops + PutOps(page, n - 1);
      WrapStep(page + n - 1);
    }
  }

  lemma {:induction false} TallyDelOps(ops: seq<TrieOp>, page: Ull, n: nat, p: Ull)
    requires page + n <= WORD
    ensures Tally(ops + DelOps(page, n), p) == if page <= p < page + n then Dropped(Tally(ops, p)) else Tally(ops, p)
  {
    if n == 0 {
      assert ops + DelOps(page, n) == ops;
    } else {
      TallyDelOps(ops, page, n - 1, p);
      var all := ops + DelOps(page, n);
      assert all[..|all| - 1] == ops + DelOps(page, n - 1);
      WrapStep(page + n - 1);
    }
  }

  lemma {:induction false} BumpedByValue(n: nat)
    requires n < WORD
    ensures BumpedBy(None, n) == if n == 0 then None else Some(n)
  {
    if n > 0 {
      BumpedByValue(n - 1);
    }
  }

  /** Every reference stays inside the page numbers. */
  ghost predicate RefsInRange(queue: seq<MemRef>) {
    forall j :: 0 <= j < |queue| ==> queue[j].address + queue[j].pageCount <= WORD
  }

  ghost predicate TraceOk(e: nat, trace: seq<Access>) {
    forall j :: 0 <= j < |trace| ==> InRange(trace[j]) && Countable(e, trace[j])
  }

  /** The queue's own 64-bit size cannot overflow. */
  predicate NoQueueOverflow(cfg: Config, trace: seq<Access>) {
    cfg.window + 1 < WORD || |trace| < WORD
  }

  /** The queue holds the references of the last accesses. */
  lemma {:induction false} QueuedAreLast(cfg: Config, trace: seq<Access>)
    ensures Queued(cfg, trace) == seq(|Last(trace, cfg.window)|, i requires 0 <= i < |Last(trace, cfg.window)| =>
                                        ToRef(cfg.exponent, Last(trace, cfg.window)[i]))
  {
    hide ToRef;
    if trace != [] {
      QueuedAreLast(cfg, trace[..|trace| - 1]);
    }
  }

  // ------------------------------------------------------------------
  // The window theorem

  /** The tally of a page is the number of queued references that cover it. */
  lemma {:induction false} TallyIsCover(cfg: Config, trace: seq<Access>, page: Ull)
    requires TraceOk(cfg.exponent, trace) && cfg.exponent < 64 && NoQueueOverflow(cfg, trace)
    ensures RefsInRange(Queued(cfg, trace)) && |Queued(cfg, trace)| <= cfg.window && |Queued(cfg, trace)| <= |trace|
    ensures Tally(WindowOps(cfg, trace), page) == BumpedBy(None, Cover(Queued(cfg, trace), page))
  {
    hide ToRef, Tally, Wrap, Bumped, Dropped, Cover, BumpedBy, InRange, Countable;
    if trace == [] {
      NoTally(page);
    } else {
      var before, access := trace[..|trace| - 1], trace[|trace| - 1];
      TallyIsCover(cfg, before, page);
      RefExactWhenCountable(cfg.exponent, access);
      SlideTally(cfg, Queued(cfg, before), WindowOps(cfg, before), access, page);
    }
  }

  lemma NoTally(page: Ull)
    ensures Tally([], page) == BumpedBy(None, Cover([], page))
  {
  }

  lemma SlideTally(cfg: Config, queue: seq<MemRef>, ops: seq<TrieOp>, access: Access, page: Ull)
    requires RefsInRange(queue) && |queue| + 1 < WORD
    requires ToRef(cfg.exponent, access).address + ToRef(cfg.exponent, access).pageCount <= WORD
    requires Tally(ops, page) == BumpedBy(None, Cover(queue, page))
    ensures var all := queue + [ToRef(cfg.exponent, access)];
            var queue' := if |all| > cfg.window then all[1..] else all;
            Tally(ops + SlideOps(cfg, queue, access), page) == BumpedBy(None, Cover(queue', page))
  {
    hide ToRef, Tally, Wrap;
    var ref := ToRef(cfg.exponent, access);
    var all := queue + [ref];
    var put := PutOps(ref.address, ref.pageCount);
    var del := DelOps(all[0].address, all[0].pageCount);
    assert all[..|all| - 1] == queue;
    TallyPutOps(ops, ref.address, ref.pageCount, page);
    assert Tally(ops + put, page) == BumpedBy(None, Cover(all, page));
    if |all| > cfg.window {
      assert all[0].address + all[0].pageCount <= WORD;
      TallyDelOps(ops + put, all[0].address, all[0].pageCount, page);
      CoverFirst(all, page);
      CoverBound(all, page);
      DropUndoesBump(Cover(all, page));
      assert (ops + put) + del == ops + (put + del);
    } else {
      assert ops + put == ops + (put + []);
    }
  }

  lemma DropUndoesBump(n: nat)
    requires n < WORD
    ensures n > 0 ==> Dropped(BumpedBy(None, n)) == BumpedBy(None, n - 1)
  {
    BumpedByValue(n);
    if n > 0 {
      BumpedByValue(n - 1);
    }
  }

  /** The pages with a tally are those that the last accesses touch. */
  lemma TalliedAreTouched(cfg: Config, trace: seq<Access>)
    requires TraceOk(cfg.exponent, trace) && cfg.exponent < 64 && NoQueueOverflow(cfg, trace)
    ensures Tallied(WindowOps(cfg, trace)) == PagesTouched(cfg.exponent, Last(trace, cfg.window))
  {
    hide ToRef, Tally, WindowOps, Touches, Covers;
    var queue, last := Queued(cfg, trace), Last(trace, cfg.window);
    QueuedAreLast(cfg, trace);
    forall p: Ull
      ensures Tally(WindowOps(cfg, trace), p).Some? <==> Touched(cfg.exponent, last, p)
    {
      TallyIsCover(cfg, trace, p);
      CoverBound(queue, p);
      BumpedByValue(Cover(queue, p));
      forall j | 0 <= j < |last| ensures Covers(queue[j], p) <==> Touches(cfg.exponent, last[j], p) {
        assert last[j] in trace;
        RefExactWhenCountable(cfg.exponent, last[j]);
      }
    }
  }

  /** There are at most 2^64 pages, and fewer once a page has more than one byte. */
  lemma FewPages(e: nat, trace: seq<Access>)
    requires forall j :: 0 <= j < |trace| ==> InRange(trace[j])
    ensures |PagesTouched(e, trace)| <= if e > 0 then WORD - 1 else WORD
  {
    hide PageOf, Shr, Pow2;
    var bound := if e > 0 then WORD - 1 else WORD;
    forall p | p in PagesTouched(e, trace) ensures p in Below(bound) {
      if e > 0 {
        var j :| 0 <= j < |trace| && Touches(e, trace[j], p);
        var byte: nat :| byte < WORD && PageOf(byte, e) == p;
        PageBounds(byte, e, p);
        ShrHalves(byte, e);
      }
    }
    SubsetSize(PagesTouched(e, trace), Below(bound));
  }

  lemma ShrHalves(x: Ull, e: nat)
    requires e > 0
    ensures Shr(x, e) <= x / 2
  {
    ShrSum(x, 1, e - 1);
    assert Shr(x, 1) == x / 2;
  }

  /** The trie has the pages that queued references cover, with the number of references that cover them. */
  ghost predicate CountsCovers(s: State) {
    forall p: Ull :: Find(0, s.trie, p) == if Cover(s.queue, p) == 0 then None else Some(Cover(s.queue, p))
  }

  lemma TallyOfCover(cfg: Config, trace: seq<Access>, p: Ull)
    requires TraceOk(cfg.exponent, trace) && cfg.exponent < 64 && NoQueueOverflow(cfg, trace)
    ensures var n := Cover(Queued(cfg, trace), p);
            Tally(WindowOps(cfg, trace), p) == if n == 0 then None else Some(n)
  {
    hide Tally, WindowOps, Cover, Queued;
    TallyIsCover(cfg, trace, p);
    CoverBound(Queued(cfg, trace), p);
    BumpedByValue(Cover(Queued(cfg, trace), p));
  }

  /** For either text, on every window and trace: the reported size exceeds the number of distinct pages that the
      last accesses touch by the losses that no missing page stands for. So it is never too small, and right
      if and only if each key destroyed so far stands for a page that is touched and not stored. */
  lemma WindowSizeExcess(v: Variant, cfg: Config, trace: seq<Access>)
    requires TraceOk(cfg.exponent, trace) && cfg.exponent < 64 && NoQueueOverflow(cfg, trace)
    ensures var t, ops := RunWindow(v, cfg, trace).trie, WindowOps(cfg, trace);
            var touched := PagesTouched(cfg.exponent, Last(trace, cfg.window));
            var missing := touched - Keys(0, t);
            |ops| < WORD ==>
              && |touched| <= t.count == |touched| + (Lost(v, ops) - |missing|)
              && (t.count == |touched| <==> Lost(v, ops) == |missing|)
  {
    hide Run, Keys, Lost, WindowOps, RunWindow, Tallied, PagesTouched;
    WindowIsTrieRun(v, cfg, trace);
    TalliedAreTouched(cfg, trace);
    if |WindowOps(cfg, trace)| < WORD {
      CountExcess(v, WindowOps(cfg, trace));
    }
  }

  /** For either text, the size and every page's value are right together if and only if the run is lossless. */
  lemma WindowExactWhenLossless(v: Variant, cfg: Config, trace: seq<Access>)
    requires TraceOk(cfg.exponent, trace) && cfg.exponent < 64 && NoQueueOverflow(cfg, trace)
    ensures var s := RunWindow(v, cfg, trace);
            |WindowOps(cfg, trace)| < WORD ==>
              ((s.trie.count == |PagesTouched(cfg.exponent, Last(trace, cfg.window))| && CountsCovers(s))
               <==> LosslessRun(v, WindowOps(cfg, trace)))
  {
    hide Find, Run, Tally, LosslessRun, WindowOps, RunWindow, PagesTouched, CountsCovers, Queued, Wrap;
    var ops := WindowOps(cfg, trace);
    WindowIsTrieRun(v, cfg, trace);
    TalliedAreTouched(cfg, trace);
    CoversAreTallies(v, cfg, trace);
    if |ops| < WORD {
      CountExactWhenLossless(v, ops);
    }
    if LosslessRun(v, ops) {
      AgreesExactlyWhenLossless(v, ops);
      RunCount(v, ops);
    }
  }

  lemma CoversAreTallies(v: Variant, cfg: Config, trace: seq<Access>)
    requires TraceOk(cfg.exponent, trace) && cfg.exponent < 64 && NoQueueOverflow(cfg, trace)
    ensures CountsCovers(State(Queued(cfg, trace), Run(v, WindowOps(cfg, trace)))) <==> Agrees(v, WindowOps(cfg, trace))
    ensures Agrees(v, WindowOps(cfg, trace)) ==>
              Keys(0, Run(v, WindowOps(cfg, trace))) == Tallied(WindowOps(cfg, trace))
  {
    hide Find, Run, Tally, WindowOps, Cover, Queued;
    forall p: Ull
      ensures var n := Cover(Queued(cfg, trace), p);
              Tally(WindowOps(cfg, trace), p) == if n == 0 then None else Some(n)
    {
      TallyOfCover(cfg, trace, p);
    }
  }

  /** For every window and trace, the repaired text reports the number of distinct pages that the
      last accesses touch; so does the text as written as long as no merge of its run loses keys. */
  lemma WindowSizeIsDistinctPages(v: Variant, cfg: Config, trace: seq<Access>)
    requires TraceOk(cfg.exponent, trace) && cfg.exponent < 64 && NoQueueOverflow(cfg, trace)
    requires v.Repaired? || LosslessRun(v, WindowOps(cfg, trace))
    ensures var s := RunWindow(v, cfg, trace);
            && s.trie.count == Wrap(|PagesTouched(cfg.exponent, Last(trace, cfg.window))|)
            && (cfg.exponent > 0 ==> s.trie.count == |PagesTouched(cfg.exponent, Last(trace, cfg.window))|)
            && |s.queue| == (if |trace| < cfg.window then |trace| else cfg.window)
            && CountsCovers(s)
  {
    hide Find, Run, Tally, Wrap, LosslessRun, WindowOps, RunWindow, CountsCovers, PagesTouched;
    var ops := WindowOps(cfg, trace);
    WindowIsTrieRun(v, cfg, trace);
    RunShape(ops);
    RunCount(v, ops);
    AgreesExactlyWhenLossless(v, ops);
    CoversAreTallies(v, cfg, trace);
    TalliedAreTouched(cfg, trace);
    QueuedAreLast(cfg, trace);
    FewPages(cfg.exponent, Last(trace, cfg.window));
    WrapStep(|PagesTouched(cfg.exponent, Last(trace, cfg.window))|);
  }
}
