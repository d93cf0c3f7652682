/** get_mem_layout of memlayout.c: a scan of the 32-bit address space that writes the regions of
    equal accessibility. What a page allows is a function of its address here. */
module MemLayout {
  import opened Words

  const SPACE: nat := 0x1_0000_0000
  const REGION_END: nat := 0xffff_ffff

  /** `unsigned int` */
  type Uint = x: int | 0 <= x < 0x1_0000_0000

  datatype Mode = RW | RO | NO

  datatype Region = Region(from: Uint, to: Uint, mode: Mode)

  // ------------------------------------------------------------------
  // Which addresses are probed

  /** From here on, one address a page until the end of the space. */
  function Probes(pageSize: Uint, from: nat): seq<Uint>
    requires pageSize > 0
    decreases if from < REGION_END then REGION_END - from else 0
  {
    if from >= REGION_END then [] else [from] + Probes(pageSize, from + pageSize)
  }

  lemma {:induction false} ProbeAt(pageSize: Uint, from: nat)
    requires pageSize > 0
    ensures forall i :: 0 <= i < |Probes(pageSize, from)| ==> Probes(pageSize, from)[i] == from + i * pageSize
    ensures from + |Probes(pageSize, from)| * pageSize >= REGION_END
    ensures |Probes(pageSize, from)| > 0 ==> from + (|Probes(pageSize, from)| - 1) * pageSize < REGION_END
    decreases if from < REGION_END then REGION_END - from else 0
  {
    if from < REGION_END {
      ProbeAt(pageSize, from + pageSize);
      var rest := Probes(pageSize, from + pageSize);
      var n: nat := |rest|;
      assert (n + 1) * pageSize == n * pageSize + pageSize;
      forall i | 0 <= i < n + 1 ensures Probes(pageSize, from)[i] == from + i * pageSize {
        if i > 0 {
          assert rest[i - 1] == from + pageSize + (i - 1) * pageSize;
          assert (i - 1) * pageSize == i * pageSize - pageSize;
        }
      }
      if n > 0 {
        assert (n - 1) * pageSize == n * pageSize - pageSize;
      }
    }
  }

  lemma ProbesStep(pageSize: Uint, probed: seq<Uint>, from: nat)
    requires pageSize > 0
    ensures from < REGION_END ==>
              probed + Probes(pageSize, from) == (probed + [from]) + Probes(pageSize, from + pageSize)
    ensures from >= REGION_END ==> probed + Probes(pageSize, from) == probed
  {
  }

  /** For a page size that is a power of two, each of the 2^32 / PAGE_SIZE pages is probed exactly once, in order. */
  lemma EveryPageOnce(pageSize: Uint, k: nat)
    requires 1 <= k <= 31 && pageSize == Pow2(k)
    ensures |Probes(pageSize, 0)| == Pow2(32 - k) && |Probes(pageSize, 0)| * pageSize == SPACE
    ensures forall i :: 0 <= i < |Probes(pageSize, 0)| ==> Probes(pageSize, 0)[i] == i * pageSize
  {
    assert Pow2(1) == 2;
    hide Pow2, Probes;
    var pages, n: nat := Pow2(32 - k), |Probes(pageSize, 0)|;
    ProbeAt(pageSize, 0);
    Pow2Sum(32 - k, k);
    Pow2Word();
    Pow2Monotonic(1, k);
    CountIs(pageSize, n, pages);
  }

  /** The number of steps of this size that reach the last address. */
  lemma CountIs(pageSize: nat, n: nat, pages: nat)
    requires pageSize >= 2 && pages * pageSize == SPACE
    requires n * pageSize >= REGION_END && (n > 0 ==> (n - 1) * pageSize < REGION_END)
    ensures n == pages
  {
    assert pages > 0 && n > 0;
    assert (pages - 1) * pageSize == SPACE - pageSize;
    assert n * pageSize == (n - 1) * pageSize + pageSize;
    QuotientUnique(REGION_END - 1, pageSize, pages - 1);
    QuotientUnique(REGION_END - 1, pageSize, n - 1);
  }

  // ------------------------------------------------------------------
  // What the regions should be

  /** Regions closed so far, and the one still open. */
  datatype Scan = Scan(closed: seq<Region>, from: Uint, mode: Mode)

  function Scanned(mode: Uint -> Mode, probed: seq<Uint>): Scan {
    if probed == [] then Scan([], 0, NO)
    else
      var s, at := Scanned(mode, probed[..|probed| - 1]), probed[|probed| - 1];
      if mode(at) != s.mode then Scan(s.closed + [Region(s.from, at, s.mode)], at, mode(at)) else s
  }

  /** All regions, the last of them up to 0xffffffff. */
  function Layout(mode: Uint -> Mode, probed: seq<Uint>): seq<Region> {
    var s := Scanned(mode, probed);
    s.closed + [Region(s.from, REGION_END, s.mode)]
  }

  /** Mode changes from one probe to the next, with MEM_NO before the first. */
  function Changes(mode: Uint -> Mode, probed: seq<Uint>): nat {
    if probed == [] then 0
    else
      var n := |probed| - 1;
      var before := if n == 0 then NO else mode(probed[n - 1]);
      Changes(mode, probed[..n]) + if mode(probed[n]) != before then 1 else 0
  }

  ghost predicate Ascending(probed: seq<Uint>) {
    forall i, j :: 0 <= i < j < |probed| ==> probed[i] < probed[j]
  }

  /** Consecutive regions from 0 up to `end`: neighbours touch, differ in mode, and only the first may be empty. */
  ghost predicate Consecutive(regions: seq<Region>, end: nat) {
    && regions != [] && regions[0].from == 0 && regions[0].mode == NO
    && regions[|regions| - 1].to == end
    && (forall k :: 0 <= k < |regions| - 1 ==>
          regions[k].to == regions[k + 1].from && regions[k].mode != regions[k + 1].mode)
    && (forall k :: 0 < k < |regions| ==> regions[k].from < regions[k].to)
  }

  /** Every probed page that starts in a region has the region's mode. */
  ghost predicate Agreeing(mode: Uint -> Mode, probed: seq<Uint>, regions: seq<Region>) {
    forall i, k :: 0 <= i < |probed| && 0 <= k < |regions| && regions[k].from <= probed[i] < regions[k].to ==>
      mode(probed[i]) == regions[k].mode
  }

  /** The open region closed at an address behind all probes. */
  function ClosedAt(s: Scan, end: Uint): seq<Region> {
    s.closed + [Region(s.from, end, s.mode)]
  }

  lemma {:induction false} ScannedIsRunLength(mode: Uint -> Mode, probed: seq<Uint>, end: Uint)
    requires Ascending(probed) && (probed != [] ==> probed[|probed| - 1] < end)
    ensures var s := Scanned(mode, probed);
            && Consecutive(ClosedAt(s, end), end) && Agreeing(mode, probed, ClosedAt(s, end))
            && |s.closed| == Changes(mode, probed)
            && s.mode == (if probed == [] then NO else mode(probed[|probed| - 1]))
            && (s.closed != [] ==> s.from < end)
  {
    hide Consecutive, Agreeing, Scanned, Changes;
    if probed == [] {
      NothingScanned(mode, end);
    } else {
      var n := |probed| - 1;
      var before, at := probed[..n], probed[n];
      ScannedIsRunLength(mode, before, at);
      assert before + [at] == probed;
      ScanStep(mode, before, at);
      if mode(at) == Scanned(mode, before).mode {
        Prolonged(mode, before, Scanned(mode, before), at, end);
      } else {
        Started(mode, before, Scanned(mode, before), at, end);
      }
    }
  }

  /** The page has the open region's mode: the region just gets longer. */
  lemma Prolonged(mode: Uint -> Mode, before: seq<Uint>, s: Scan, at: Uint, end: Uint)
    requires at < end && forall i :: 0 <= i < |before| ==> before[i] < at
    requires Consecutive(ClosedAt(s, at), at) && Agreeing(mode, before, ClosedAt(s, at)) && mode(at) == s.mode
    requires s.closed != [] ==> s.from < at
    ensures Consecutive(ClosedAt(s, end), end) && Agreeing(mode, before + [at], ClosedAt(s, end))
  {
    var old', new' := ClosedAt(s, at), ClosedAt(s, end);
    var last := |s.closed|;
    assert new'[last].from == old'[last].from && new'[last].mode == old'[last].mode;
    forall k | 0 <= k < last
      ensures new'[k].to == new'[k + 1].from && new'[k].mode != new'[k + 1].mode
              && (0 < k ==> new'[k].from < new'[k].to)
    {
      assert new'[k] == old'[k] && old'[k].to == old'[k + 1].from && old'[k].mode != old'[k + 1].mode;
      assert k + 1 < last ==> new'[k + 1] == old'[k + 1];
    }
    forall i, k | 0 <= i < |before + [at]| && 0 <= k < |new'| && new'[k].from <= (before + [at])[i] < new'[k].to
      ensures mode((before + [at])[i]) == new'[k].mode
    {
      if k < |s.closed| {
        Behind(old', at, k);
        assert new'[k] == old'[k];
      } else {
        assert new'[k].from == old'[k].from && new'[k].mode == old'[k].mode && old'[k].to == at;
      }
    }
  }

  /** The page has another mode: the open region ends and the next one starts. */
  lemma Started(mode: Uint -> Mode, before: seq<Uint>, s: Scan, at: Uint, end: Uint)
    requires at < end && forall i :: 0 <= i < |before| ==> before[i] < at
    requires Consecutive(ClosedAt(s, at), at) && Agreeing(mode, before, ClosedAt(s, at)) && mode(at) != s.mode
    ensures var s' := Scan(ClosedAt(s, at), at, mode(at));
            Consecutive(ClosedAt(s', end), end) && Agreeing(mode, before + [at], ClosedAt(s', end))
  {
    var old' := ClosedAt(s, at);
    var new' := old' + [Region(at, end, mode(at))];
    forall i, k | 0 <= i < |before + [at]| && 0 <= k < |new'| && new'[k].from <= (before + [at])[i] < new'[k].to
      ensures mode((before + [at])[i]) == new'[k].mode
    {
      if k < |old'| {
        Behind(old', at, k);
        assert new'[k] == old'[k];
      }
    }
  }

  lemma NothingScanned(mode: Uint -> Mode, end: Uint)
    ensures var s := Scanned(mode, []);
            && Consecutive(ClosedAt(s, end), end) && Agreeing(mode, [], ClosedAt(s, end))
            && s == Scan([], 0, NO) && Changes(mode, []) == 0
  {
  }

  lemma ScanStep(mode: Uint -> Mode, before: seq<Uint>, at: Uint)
    ensures var s := Scanned(mode, before);
            Scanned(mode, before + [at]) == if mode(at) != s.mode then Scan(ClosedAt(s, at), at, mode(at)) else s
    ensures var last := if before == [] then NO else mode(before[|before| - 1]);
            Changes(mode, before + [at]) == Changes(mode, before) + if mode(at) != last then 1 else 0
  {
    assert (before + [at])[..|before|] == before;
  }

  /** Consecutive regions up to an address end before it. */
  lemma {:induction false} Behind(regions: seq<Region>, end: nat, k: nat)
    requires Consecutive(regions, end) && k < |regions|
    ensures regions[k].to <= end
    decreases |regions| - k
  {
    if k + 1 < |regions| {
      Behind(regions, end, k + 1);
      assert regions[k + 1].from < regions[k + 1].to;
    }
  }

  lemma {:induction false} RegionsStartOnPages(mode: Uint -> Mode, pageSize: Uint, probed: seq<Uint>)
    requires pageSize > 0 && forall i :: 0 <= i < |probed| ==> probed[i] % pageSize == 0
    ensures var s := Scanned(mode, probed);
            s.from % pageSize == 0 && forall k :: 0 <= k < |s.closed| ==> s.closed[k].from % pageSize == 0
  {
    if probed != [] {
      RegionsStartOnPages(mode, pageSize, probed[..|probed| - 1]);
    }
  }

  /** For every page size, the regions abut from 0 to 0xffffffff, neighbours differ in mode, and there is one more
      than there are mode changes. */
  lemma LayoutIsRunLength(mode: Uint -> Mode, pageSize: Uint)
    requires pageSize > 0
    ensures var probed := Probes(pageSize, 0);
            && Consecutive(Layout(mode, probed), REGION_END) && Agreeing(mode, probed, Layout(mode, probed))
            && |Layout(mode, probed)| == Changes(mode, probed) + 1
  {
    hide Consecutive, Agreeing, Scanned, Changes, Probes;
    var probed := Probes(pageSize, 0);
    ProbeAt(pageSize, 0);
    forall i, j | 0 <= i < j < |probed| ensures probed[i] < probed[j] {
      TimesMonotonic(pageSize, i + 1, j);
      assert pageSize * (i + 1) == i * pageSize + pageSize;
    }
    ScannedIsRunLength(mode, probed, REGION_END);
  }

  /** The first address of an address's page. */
  function PageStart(pageSize: Uint, a: Uint): Uint
    requires pageSize > 0
  {
    a - a % pageSize
  }

  /** For page sizes 2 to 2^31, every address in a region lies on a page with the region's mode. */
  lemma LayoutDecidesEveryAddress(mode: Uint -> Mode, e: nat, pageSize: Uint, a: Uint, region: Region)
    requires 1 <= e <= 31 && pageSize > 0 && pageSize == Pow2(e)
    requires region in Layout(mode, Probes(pageSize, 0)) && region.from <= a < region.to
    ensures mode(PageStart(pageSize, a)) == region.mode
  {
    hide Consecutive, Scanned, Changes, Probes, Pow2;
    var probed := Probes(pageSize, 0);
    var i: nat, pages := a / pageSize, |probed|;
    EveryPageOnce(pageSize, e);
    assert a == i * pageSize + a % pageSize;
    if i >= pages {
      TimesMonotonic(pageSize, pages, i);
      assert false;
    }
    LayoutIsRunLength(mode, pageSize);
    forall j | 0 <= j < pages ensures probed[j] % pageSize == 0 { MultipleOf(pageSize, j); }
    RegionsStartOnPages(mode, pageSize, probed);
    PageStartsBehind(pageSize, region.from, a);
    assert probed[i] == PageStart(pageSize, a);
  }

  lemma MultipleOf(m: nat, j: nat)
    requires m > 0
    ensures (j * m) % m == 0
  {
    QuotientUnique(j * m, m, j);
    assert j * m == m * ((j * m) / m) + (j * m) % m;
  }

  /** A page boundary up to an address is up to the start of the address's page. */
  lemma PageStartsBehind(m: nat, from: nat, a: nat)
    requires m > 0 && from % m == 0 && from <= a
    ensures from <= a - a % m
  {
    var p, q := from / m, a / m;
    assert from == m * p && a == m * q + a % m;
    assert m * (q + 1) == m * q + m;
    if q < p {
      TimesMonotonic(m, q + 1, p);
      assert false;
    }
    TimesMonotonic(m, p, q);
  }

  // ------------------------------------------------------------------
  // The scan itself

  /** What an `int` result makes of an `unsigned int`. */
  function ToInt(x: Uint): (r: int)
    ensures -0x8000_0000 <= r < 0x8000_0000 && (r - x) % SPACE == 0
  {
    if x < 0x8000_0000 then x else x - SPACE
  }

  /** What `get_mem_layout` returns for so many regions: the index stops at the capacity, whatever is found. */
  function Reported(regions: nat, size: Uint): int
    requires regions > 0
  {
    ToInt((if regions - 1 < size then regions else size + 1) % SPACE)
  }

  /** The result is the number of regions exactly when the list has room for all but the last of them, and an
      `int` can hold it, which from a page size of 4 on it always can. */
  lemma ReportedIsTheCount(mode: Uint -> Mode, e: nat, pageSize: Uint, size: Uint)
    requires 1 <= e <= 31 && pageSize > 0 && pageSize == Pow2(e)
    ensures var probed := Probes(pageSize, 0);
            var c := Changes(mode, probed);
            && (Reported(|Layout(mode, probed)|, size) == c + 1 <==> c <= size && c + 1 < 0x8000_0000)
            && (e >= 2 ==> c + 1 < 0x8000_0000)
  {
    assert Pow2(2) == 4;
    hide Pow2, Probes, Scanned, Changes, Consecutive, Agreeing, Layout, Reported;
    var probed := Probes(pageSize, 0);
    EveryPageOnce(pageSize, e);
    LayoutIsRunLength(mode, pageSize);
    Capped(Changes(mode, probed), size);
    FewChanges(mode, probed);
    if e >= 2 {
      Pow2Monotonic(2, e);
      TimesMonotonic(|probed|, 4, pageSize);
    }
  }

  /** One more than the smaller of the changes and the capacity, as an `int`. */
  lemma Returned(c: nat, size: Uint)
    ensures var m, count := if c < size then c else size, Reported(c + 1, size);
            && -0x8000_0000 <= count < 0x8000_0000 && (count - (m + 1)) % SPACE == 0
            && (m + 1 < 0x8000_0000 ==> count == m + 1)
  {
  }

  lemma Capped(c: nat, size: Uint)
    ensures Reported(c + 1, size) == c + 1 <==> c <= size && c + 1 < 0x8000_0000
  {
  }

  lemma {:induction false} FewChanges(mode: Uint -> Mode, probed: seq<Uint>)
    ensures Changes(mode, probed) <= |probed|
  {
    if probed != [] { FewChanges(mode, probed[..|probed| - 1]); }
  }

  /** A list with so many of these regions at its start. */
  function Filled(was: seq<Region>, regions: seq<Region>, size: nat): (r: seq<Region>)
    requires size <= |was|
    ensures |r| == |was|
  {
    var written := if |regions| < size then |regions| else size;
    regions[..written] + was[written..]
  }

  lemma FilledAt(was: seq<Region>, regions: seq<Region>, size: nat)
    requires size <= |was|
    ensures forall k :: 0 <= k < |was| ==>
              Filled(was, regions, size)[k] == if k < size && k < |regions| then regions[k] else was[k]
  {
  }

  lemma FilledNothing(was: seq<Region>, size: nat)
    requires size <= |was|
    ensures Filled(was, [], size) == was
  {
  }

  lemma FilledNext(was: seq<Region>, regions: seq<Region>, size: nat, r: Region)
    requires size <= |was|
    ensures Filled(was, regions + [r], size)
            == if |regions| < size then Filled(was, regions, size)[|regions| := r] else Filled(was, regions, size)
  {
    if |regions| >= size {
      assert (regions + [r])[..size] == regions[..size];
    }
  }

  /** When every page allows everything, there are two regions, an empty one without access and the rest. A list
      without room then makes the result one. */
  lemma ReportedTooFew()
    ensures var layout := Layout((a: Uint) => RW, Probes(4096, 0));
            layout == [Region(0, 0, NO), Region(0, REGION_END, RW)] && Reported(|layout|, 0) == 1
  {
    hide Scanned;
    assert Probes(4096, 0) != [];
    OneMode((a: Uint) => RW, Probes(4096, 0));
    assert Probes(4096, 0)[0] == 0;
  }

  lemma {:induction false} OneMode(mode: Uint -> Mode, probed: seq<Uint>)
    requires probed != [] && forall a: Uint :: mode(a) == RW
    ensures Scanned(mode, probed) == Scan([Region(0, probed[0], NO)], probed[0], RW)
  {
    var n := |probed| - 1;
    if n == 0 {
      assert probed[..0] == [];
    } else {
      OneMode(mode, probed[..n]);
    }
  }

  /** `get_mem_layout`: the counter wraps around 2^32, and a second address on the first page ends the scan. */
  method GetMemLayout(regions: array<Region>, size: Uint, pageSize: Uint, mode: Uint -> Mode)
      returns (count: int, ghost probed: seq<Uint>)
    requires pageSize > 0 && size <= regions.Length
    modifies regions
    ensures probed == Probes(pageSize, 0)
    ensures var m := if Changes(mode, probed) < size then Changes(mode, probed) else size;
            && -0x8000_0000 <= count < 0x8000_0000 && (count - (m + 1)) % SPACE == 0
            && (m + 1 < 0x8000_0000 ==> count == m + 1)
    ensures var layout := Layout(mode, probed);
            forall k :: 0 <= k < regions.Length ==>
              regions[..][k] == if k < size && k < |layout| then layout[k] else old(regions[k])
    ensures count == Reported(|Layout(mode, probed)|, size)
  {
    hide Consecutive, Agreeing, Changes, Scanned, Probes, Filled;
    NothingScanned(mode, REGION_END);
    var currIndex: Uint, regionFrom: Uint, currRegionMode, isFirstLoop := 0, 0, NO, true;
    var currAdd: Uint := 0;
    ghost var addr: nat := 0; // currAdd had it not wrapped
    ghost var s := Scan([], 0, NO);
    FilledNothing(regions[..], size);
    probed := [];
    while currAdd < REGION_END
      invariant currAdd == if addr < SPACE then addr else addr - SPACE
      invariant addr < SPACE + pageSize && isFirstLoop == (addr == 0) && (addr != 0 ==> pageSize <= addr)
      invariant probed + Probes(pageSize, addr) == Probes(pageSize, 0)
      invariant s == Scanned(mode, probed) && regionFrom == s.from && currRegionMode == s.mode
      invariant currIndex == if |s.closed| < size then |s.closed| else size
      invariant regions[..] == Filled(old(regions[..]), s.closed, size)
      decreases SPACE + pageSize - addr
    {
      if currAdd < pageSize {
        if isFirstLoop {
          isFirstLoop := false;
        } else {
          break;
        }
      }
      var checkVal := mode(currAdd);
      ScanStep(mode, probed, currAdd);
      ProbesStep(pageSize, probed, addr);
      probed := probed + [currAdd];
      FilledNext(old(regions[..]), s.closed, size, Region(regionFrom, currAdd, currRegionMode));
      s := Scanned(mode, probed);
      if checkVal != currRegionMode {
        if currIndex < size {
          regions[currIndex] := Region(regionFrom, currAdd, currRegionMode);
          currIndex := currIndex + 1;
        }
        regionFrom, currRegionMode := currAdd, checkVal;
      }
      addr := addr + pageSize;
      currAdd := (currAdd + pageSize) % SPACE;
    }
    ProbesStep(pageSize, probed, addr);
    FilledNext(old(regions[..]), s.closed, size, Region(regionFrom, REGION_END, currRegionMode));
    if currIndex < size {
      regions[currIndex] := Region(regionFrom, REGION_END, currRegionMode);
    }
    count := ToInt((currIndex + 1) % SPACE);
    LayoutIsRunLength(mode, pageSize);
    Returned(Changes(mode, probed), size);
    FilledAt(old(regions[..]), Layout(mode, probed), size);
  }
}
