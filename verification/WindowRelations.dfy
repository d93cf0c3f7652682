/** What relates two runs of the window over the same trace: wider windows, larger pages. */
module WindowRelations {
  import opened Words
  import opened AssociationList
  import opened TrieShape
  import opened TrieRuns
  import opened Window

  // ------------------------------------------------------------------
  // Two runs over the same trace

  /** The size is not too large: the text is repaired, or the run lossless. */
  ghost predicate NotTooLarge(v: Variant, cfg: Config, trace: seq<Access>) {
    v.Repaired? || LosslessRun(v, WindowOps(cfg, trace))
  }

  /** The size is not too small: the text is repaired, or nothing can have wrapped. */
  predicate NotTooSmall(v: Variant, cfg: Config, trace: seq<Access>) {
    v.Repaired? || |WindowOps(cfg, trace)| < WORD
  }

  lemma SizeBounds(v: Variant, cfg: Config, trace: seq<Access>)
    requires TraceOk(cfg.exponent, trace) && cfg.exponent < 64 && NoQueueOverflow(cfg, trace)
    requires |PagesTouched(cfg.exponent, Last(trace, cfg.window))| < WORD
    ensures var size := RunWindow(v, cfg, trace).trie.count;
            var touched := |PagesTouched(cfg.exponent, Last(trace, cfg.window))|;
            && (NotTooLarge(v, cfg, trace) ==> size == touched)
            && (NotTooSmall(v, cfg, trace) ==> size >= touched)
  {
    hide RunWindow, WindowOps, PagesTouched, LosslessRun, Wrap;
    WrapStep(|PagesTouched(cfg.exponent, Last(trace, cfg.window))|);
    WindowSizeExcess(v, cfg, trace);
    if NotTooLarge(v, cfg, trace) {
      WindowSizeIsDistinctPages(v, cfg, trace);
    }
  }

  /** A wider window never reports a smaller size: always when repaired, and as written when the run with the
      narrow window is lossless, whatever the wide one loses. */
  lemma WiderWindow(v: Variant, e: nat, narrow: Ull, wide: Ull, trace: seq<Access>)
    requires narrow <= wide && e < 64 && TraceOk(e, trace)
    requires NoQueueOverflow(Config(e, wide), trace) && |PagesTouched(e, Last(trace, wide))| < WORD
    requires NotTooLarge(v, Config(e, narrow), trace) && NotTooSmall(v, Config(e, wide), trace)
    ensures RunWindow(v, Config(e, narrow), trace).trie.count <= RunWindow(v, Config(e, wide), trace).trie.count
  {
    hide RunWindow, Touches, NotTooLarge, NotTooSmall;
    var few, many := Last(trace, narrow), Last(trace, wide);
    forall p | p in PagesTouched(e, few) ensures p in PagesTouched(e, many) {
      var j :| 0 <= j < |few| && Touches(e, few[j], p);
      assert few[j] == many[j + |many| - |few|];
    }
    SubsetSize(PagesTouched(e, few), PagesTouched(e, many));
    SizeBounds(v, Config(e, narrow), trace);
    SizeBounds(v, Config(e, wide), trace);
  }

  ghost function Halves(pages: set<Ull>): set<Ull> {
    set p | p in pages :: p / 2
  }

  lemma HalvesStep(pages: set<Ull>, rest: set<Ull>, q: Ull)
    requires rest == set x | x in pages && x / 2 != q
    requires exists p :: p in pages && p / 2 == q
    ensures Halves(pages) == Halves(rest) + {q} && q !in Halves(rest)
  {
    forall h | h in Halves(pages) ensures h in Halves(rest) + {q} {
      var p :| p in pages && p / 2 == h;
      assert h != q ==> p in rest;
    }
  }

  /** Merging pages in pairs at most halves their number. */
  lemma {:induction false} HalvesSize(pages: set<Ull>)
    ensures |Halves(pages)| <= |pages| <= 2 * |Halves(pages)|
    decreases |pages|
  {
    if pages != {} {
      var p :| p in pages;
      var q := p / 2;
      var pair := set x | x in pages && x / 2 == q;
      var rest := pages - pair;
      assert pair <= {2 * q, 2 * q + 1} && p in pair;
      SubsetSize(pair, {2 * q, 2 * q + 1});
      SubsetSize({p}, pair);
      HalvesSize(rest);
      assert pages == rest + pair;
      HalvesStep(pages, rest, q);
    }
  }

  /** Twice the page size: the same bytes, pages merged in pairs. */
  lemma LargerPages(e: nat, trace: seq<Access>)
    requires forall j :: 0 <= j < |trace| ==> InRange(trace[j])
    ensures PagesTouched(e + 1, trace) == Halves(PagesTouched(e, trace))
  {
    hide PageOf, Shr;
    forall p | p in PagesTouched(e + 1, trace) ensures p in Halves(PagesTouched(e, trace)) {
      var j :| 0 <= j < |trace| && Touches(e + 1, trace[j], p);
      var byte: nat :| trace[j].address <= byte < trace[j].address + trace[j].size && PageOf(byte, e + 1) == p;
      PageOfHalf(byte, e);
      var half: Ull := PageOf(byte, e);
      assert Touches(e, trace[j], half);
      assert half in PagesTouched(e, trace);
    }
    forall p | p in PagesTouched(e, trace) ensures p / 2 in PagesTouched(e + 1, trace) {
      var j :| 0 <= j < |trace| && Touches(e, trace[j], p);
      var byte: nat :| trace[j].address <= byte < trace[j].address + trace[j].size && PageOf(byte, e) == p;
      PageOfHalf(byte, e);
      assert Touches(e + 1, trace[j], p / 2);
    }
  }

  lemma PageOfHalf(byte: Ull, e: nat)
    ensures 0 <= PageOf(byte, e) < WORD && PageOf(byte, e + 1) == PageOf(byte, e) / 2
  {
    PageBounds(byte, e, 0);
    PageBounds(byte, e + 1, 0);
  }

  /** What can be counted in pages can be counted in pages half as large. */
  lemma CountableInHalves(e: nat, access: Access)
    requires Countable(e + 1, access)
    ensures Countable(e, access)
  {
    hide Pow2;
    if access.size == 0 {
      var m, q := Pow2(e), access.address / Pow2(e + 1);
      assert Pow2(e + 1) == 2 * m by { DoublePow2(e); }
      assert access.address == Pow2(e + 1) * q;
      assert access.address == m * (2 * q);
      QuotientUnique(access.address, m, 2 * q);
    }
  }

  lemma DoublePow2(e: nat)
    ensures Pow2(e + 1) == 2 * Pow2(e)
  {
  }

  /** Doubling the page size never raises the reported size, and never cuts it to less than half: always when
      repaired, and as written when the run that should report less is lossless. The exponents are those that
      get_power_of_two finds for the two page sizes. */
  lemma DoubledPages(v: Variant, pageSize: nat, e: nat, f: nat, window: Ull, trace: seq<Access>)
    requires Pow2(e) <= pageSize < Pow2(e + 1) && Pow2(f) <= 2 * pageSize < Pow2(f + 1) && f < 64
    requires TraceOk(f, trace) && NoQueueOverflow(Config(e, window), trace)
    requires |PagesTouched(e, Last(trace, window))| < WORD
    ensures var fine, coarse := Config(e, window), Config(f, window);
            var small, large := RunWindow(v, fine, trace).trie.count, RunWindow(v, coarse, trace).trie.count;
            && (NotTooLarge(v, coarse, trace) && NotTooSmall(v, fine, trace) ==> large <= small)
            && (NotTooLarge(v, fine, trace) && NotTooSmall(v, coarse, trace) ==> small <= 2 * large)
  {
    hide RunWindow, PagesTouched, Pow2, Countable, NotTooLarge, NotTooSmall;
    DoublePow2(e);
    DoublePow2(e + 1);
    LogUnique(2 * pageSize, e + 1, f);
    forall j | 0 <= j < |trace| ensures Countable(e, trace[j]) { CountableInHalves(e, trace[j]); }
    LargerPages(e, Last(trace, window));
    HalvesSize(PagesTouched(e, Last(trace, window)));
    SizeBounds(v, Config(e, window), trace);
    SizeBounds(v, Config(f, window), trace);
  }
}
