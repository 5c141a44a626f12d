/** The stages together: a boot memory map is normalised, the frame table is carved out of
    it, one allocator is put over the rest, and an arbitrary run of requests is served. */
module PhysicalMemory {
  import opened Options
  import opened PageMath
  import opened FrameTable
  import opened FrameAllocator
  import BootMap

  // ----- Runs of requests -----

  datatype Op = Alloc(n: nat) | Free(base: nat, n: nat)

  /** `Halted` is a failed assertion.  After `Lost` the allocator's books are no longer right: the end of a
      run wrapped around, or a free left the table. */
  datatype Answer = Granted(page: nat) | Refused | Freed | Halted | Lost

  function RunOf(p: nat, n: nat): (s: set<nat>)
    ensures forall k: nat :: k in s <==> InRange(k, p, n)
  {
    set k: nat | p <= k < p + n && InRange(k, p, n)
  }

  /** Pages in use after one operation. */
  function Advance(live: set<nat>, op: Op, r: Answer): set<nat> {
    match op
    case Alloc(n) => if r.Granted? then live + RunOf(r.page, n) else live
    case Free(base, n) => if r.Freed? then live - RunOf(base, n) else live
  }

  function Live(ops: seq<Op>, results: seq<Answer>): set<nat>
    requires |ops| == |results|
  {
    if ops == [] then {}
    else
      var n := |ops| - 1;
      Advance(Live(ops[..n], results[..n]), ops[n], results[n])
  }

  /** Where the frame table was put: the first `bytes` bytes at `base`. */
  datatype Storage = Storage(base: nat, bytes: nat)

  /** Page k may be given out: it lies wholly in a usable region of the boot map, touches no
      bootloader region, holds no part of the frame table and is not in use. */
  ghost predicate Available(o: seq<Entry>, table: Storage, live: set<nat>, k: nat) {
    PageOfMap(o, k) && !Overlaps(table.base, table.bytes, k * PG_SZ, PG_SZ) && k !in live
  }

  ghost predicate RunAvailable(o: seq<Entry>, table: Storage, live: set<nat>, p: nat, n: nat) {
    forall k :: p <= k < p + n ==> Available(o, table, live, k)
  }

  /** The end of some run of n pages has an address that wraps around. */
  predicate MayWrap(table: Storage, pages: nat, n: nat) {
    HHDM_START + table.base + (pages - 1 + n) * DESCRIPTOR_SZ >= WORD
  }

  ghost predicate NoneAvailable(o: seq<Entry>, table: Storage, live: set<nat>, n: nat) {
    forall p: nat :: !RunAvailable(o, table, live, p, n)
  }

  /** A granted allocation is available throughout, and a refused one is impossible.  A free succeeds
      iff all its pages are in use, and else fails an assertion unless it leaves memory. */
  ghost predicate Answers(o: seq<Entry>, table: Storage, pages: nat, live: set<nat>, op: Op, r: Answer) {
    match op
    case Alloc(n) =>
      && (r.Granted? ==> n > 0 ==> RunAvailable(o, table, live, r.page, n))
      && (r.Refused? ==> n > 0 && NoneAvailable(o, table, live, n))
      && (r.Lost? ==> MayWrap(table, pages, n) && n <= pages)
      && !r.Freed? && !r.Halted?
    case Free(base, n) =>
      && (r.Freed? <==> base + n <= pages && RunOf(base, n) <= live)
      && (r.Lost? ==> base + n > pages)
      && !r.Granted? && !r.Refused?
  }

  /** No allocation is lost if the address space has room for the table and as much again behind it. */
  lemma NeverLost(o: seq<Entry>, table: Storage, pages: nat, live: set<nat>, n: nat, r: Answer)
    requires HHDM_START + table.base + 2 * pages * DESCRIPTOR_SZ <= WORD && Answers(o, table, pages, live, Alloc(n), r)
    ensures r.Granted? || (r.Refused? && NoneAvailable(o, table, live, n))
  {
  }

  /** The descriptors say of every page whether it is in use and whether it is available. */
  ghost predicate Tracks(t: seq<Frame>, o: seq<Entry>, table: Storage, live: set<nat>) {
    && (forall k: nat {:trigger Available(o, table, live, k)} :: Available(o, table, live, k) <==> k < |t| && t[k].Usable())
    && (forall k: nat {:trigger k in live} :: k in live <==> k < |t| && t[k].taken)
    && (forall k: nat :: k < |t| && !t[k].unusable ==> PageOfMap(o, k) && !Overlaps(table.base, table.bytes, k * PG_SZ, PG_SZ))
    && (forall k: nat :: k < |t| && t[k].taken ==> !t[k].unusable)
  }

  lemma TracksMeansFits(t: seq<Frame>, o: seq<Entry>, table: Storage, live: set<nat>, n: nat, p: nat)
    requires Tracks(t, o, table, live) && n > 0
    ensures Fits(t, 0, |t|, n, p) <==> RunAvailable(o, table, live, p, n)
  {
    if RunAvailable(o, table, live, p, n) {
      assert Available(o, table, live, p + n - 1);
      forall k | p <= k < p + n ensures k < |t| && t[k].Usable() { assert Available(o, table, live, k); }
    }
  }

  lemma AllocTracks(t: seq<Frame>, o: seq<Entry>, table: Storage, live: set<nat>, n: nat, p: nat)
    requires Tracks(t, o, table, live) && Fits(t, 0, |t|, n, p)
    ensures Tracks(Mark(t, p, n, true), o, table, live + RunOf(p, n))
  {
    var t', live' := Mark(t, p, n, true), live + RunOf(p, n);
    forall k: nat ensures Available(o, table, live', k) <==> k < |t'| && t'[k].Usable() {
      assert Available(o, table, live, k) <==> k < |t| && t[k].Usable();
    }
  }

  /** Any run of pages in use may be freed, whatever grants they came from. */
  lemma FreeTracks(t: seq<Frame>, o: seq<Entry>, table: Storage, live: set<nat>, base: nat, n: nat)
    requires Tracks(t, o, table, live) && RunOf(base, n) <= live && base + n <= |t|
    ensures Tracks(Mark(t, base, n, false), o, table, live - RunOf(base, n))
  {
    var t', live' := Mark(t, base, n, false), live - RunOf(base, n);
    forall k: nat | base <= k < base + n ensures t[k].taken { assert k in RunOf(base, n) && k in live; }
    forall k: nat ensures Available(o, table, live', k) <==> k < |t'| && t'[k].Usable() {
      assert Available(o, table, live, k) <==> k < |t| && t[k].Usable();
      assert k in live <==> k < |t| && t[k].taken;
    }
  }

  lemma InUseIsTaken(t: seq<Frame>, o: seq<Entry>, table: Storage, live: set<nat>, base: nat, n: nat)
    requires Tracks(t, o, table, live)
    ensures n > 0 ==> (RunOf(base, n) <= live <==> base + n <= |t| && forall k :: base <= k < base + n ==> t[k].taken)
    ensures base + n <= |t| ==> (RunOf(base, n) <= live <==> forall k :: base <= k < base + n ==> t[k].taken)
  {
    if RunOf(base, n) <= live {
      forall k | base <= k < base + n ensures k < |t| && t[k].taken { assert k in RunOf(base, n) && k in live; }
      if n > 0 { assert base + n - 1 in RunOf(base, n); }
    }
  }

  // ----- Booting -----

  const MAX_ENTRIES: nat := 32

  /** None of the assertions of the set-up fails: the copy of the map has room for its entries, some region
      holds the frame table in directly mapped memory, and memory to be reclaimed is directly mapped. */
  ghost predicate Boots(o: seq<Entry>, regions: seq<Entry>) {
    && |o| <= MAX_ENTRIES && regions != []
    && (exists k: nat :: Placeable(regions, TableBytes32(MemLimit(regions)), k))
    && (forall e: Entry :: e in o && e.kind == RECLAIMABLE ==> e.base < HHDM_LEN)
  }

  /** `Short`: fewer bytes were set aside for the frame table than its descriptors take. */
  datatype Booted = Panicked | Short(table: Storage) | Running(pfa: SimplePFA, table: Storage)

  /** The storage is what was set aside at the first region that holds it. */
  ghost predicate SetAside(r: seq<Entry>, table: Storage)
    requires r != []
  {
    table.bytes == TableBytes32(MemLimit(r)) && exists k: nat :: Placeable(r, table.bytes, k) && r[k].base == table.base
  }

  /** The outcome of the set-up for the regions of a map. */
  ghost predicate Outcome(b: Booted, o: seq<Entry>, r: seq<Entry>) {
    && (b.Panicked? <==> !Boots(o, r))
    && (!b.Panicked? ==> SetAside(r, b.table) && (b.Short? <==> b.table.bytes < TableBytes(r)) && (b.Short? <==> MemLimit(r) > MEM_MAX))
  }

  lemma SamePlaceable(r: seq<Entry>, r': seq<Entry>, n: nat, k: nat)
    requires |r| == |r'| && forall x :: 0 <= x < |r| ==> SameRange(r[x], r'[x])
    ensures Placeable(r, n, k) <==> Placeable(r', n, k)
  {
    assert forall x :: 0 <= x < |r| ==> SameRange(r[x], r'[x]) && r[x].len == r'[x].len;
  }

  lemma OnePlace(r: seq<Entry>, n: nat, x: nat, y: nat)
    requires Placeable(r, n, x) && Placeable(r, n, y)
    ensures x == y
  {
  }

  lemma SamePlace(r: seq<Entry>, r': seq<Entry>, table: Storage, table': Storage)
    requires r != [] && |r| == |r'| && (forall x :: 0 <= x < |r| ==> SameRange(r[x], r'[x]))
    requires SetAside(r, table) && SetAside(r', table')
    ensures table == table'
  {
    var n := table.bytes;
    var x: nat :| Placeable(r, n, x) && r[x].base == table.base;
    var y: nat :| Placeable(r', n, y) && r'[y].base == table'.base;
    SamePlaceable(r, r', n, y);
    OnePlace(r, n, x, y);
  }

  lemma SameBoots(o: seq<Entry>, r: seq<Entry>, r': seq<Entry>)
    requires |r| == |r'| && forall x :: 0 <= x < |r| ==> SameRange(r[x], r'[x])
    ensures Boots(o, r) <==> Boots(o, r')
  {
    if r != [] {
      forall k: nat ensures Placeable(r, TableBytes32(MemLimit(r)), k) <==> Placeable(r', TableBytes32(MemLimit(r')), k) {
        SamePlaceable(r, r', TableBytes32(MemLimit(r)), k);
      }
    }
  }

  /** The map determines the outcome, the place of the table and the memory limit. */
  lemma OutcomeIsDetermined(b: Booted, b': Booted, o: seq<Entry>, r: seq<Entry>, r': seq<Entry>)
    requires NormalForm(r, o) && NormalForm(r', o) && Outcome(b, o, r) && Outcome(b', o, r')
    ensures b.Panicked? == b'.Panicked? && b.Short? == b'.Short?
    ensures !b.Panicked? ==> b.table == b'.table && MemLimit(r) == MemLimit(r')
  {
    NormalFormIsUnique(r, r', o);
    SameBoots(o, r, r');
    if !b.Panicked? { SamePlace(r, r', b.table, b'.table); }
  }

  ghost predicate TablePlaced(r: seq<Entry>, table: Storage)
    requires r != []
  {
    SetAside(r, table) && table.bytes == TableBytes(r)
  }

  /** The descriptors of a table of the right size end below the end of the address space. */
  lemma TableIsAddressable(r: seq<Entry>, base: nat)
    requires r != [] && base + TableBytes(r) <= HHDM_LEN
    ensures HHDM_START + base + MemLimit(r) / PG_SZ * DESCRIPTOR_SZ < WORD
  {
    RoundingIsTight(MemLimit(r) / PG_SZ * DESCRIPTOR_SZ, 0);
  }

  lemma PageBelowLimit(r: seq<Entry>, k: nat)
    requires Regions(r) && HasPage(r, k)
    ensures r != [] && k < MemLimit(r) / PG_SZ
  {
    var x :| 0 <= x < |r| && r[x].Holds(k * PG_SZ, PG_SZ);
    assert x < |r| - 1 ==> Before(r[x], r[|r| - 1]);
  }

  lemma FreshTableTracks(t: seq<Frame>, o: seq<Entry>, table: Storage, r: seq<Entry>)
    requires Regions(r) && r != [] && |t| == MemLimit(r) / PG_SZ
    requires forall k: nat :: HasPage(r, k) <==> PageOfMap(o, k) && !Overlaps(table.base, table.bytes, k * PG_SZ, PG_SZ)
    requires forall k :: 0 <= k < |t| ==> !t[k].taken && (t[k].unusable <==> !HasPage(r, k))
    ensures Tracks(t, o, table, {})
  {
    forall k: nat ensures Available(o, table, {}, k) <==> k < |t| && t[k].Usable() {
      if HasPage(r, k) { PageBelowLimit(r, k); }
    }
  }

  lemma LimitAligned(r: seq<Entry>)
    requires Regions(r) && r != []
    ensures Aligned(MemLimit(r))
  {
    assert Aligned(r[|r| - 1].base) && Aligned(r[|r| - 1].len);
    AlignedSum(r[|r| - 1].base, r[|r| - 1].len);
  }

  /** The allocator over [0, mem_limit) of the given regions. */
  method MakeAllocator(usable: seq<Entry>, addr: nat) returns (pfa: SimplePFA)
    requires Regions(usable) && usable != [] && MemLimit(usable) > 0
    requires addr + MemLimit(usable) / PG_SZ * DESCRIPTOR_SZ < WORD
    ensures fresh(pfa) && fresh(pfa.table) && pfa.Valid() && pfa.addr == addr
    ensures pfa.lo == 0 && pfa.hi == pfa.table.Length == MemLimit(usable) / PG_SZ
    ensures forall k :: 0 <= k < pfa.hi ==> !pfa.table[k].taken && (pfa.table[k].unusable <==> !HasPage(usable, k))
  {
    var pft := new PageFrameTable(usable, addr);
    LimitAligned(usable);
    pfa := new SimplePFA(pft, 0, usable[|usable| - 1].base + usable[|usable| - 1].len);
  }

  /** The loop that clears reclaimable memory asserts that it is directly mapped. */
  method ClearReclaimable(mm: array<Entry>) returns (ok: bool)
    ensures ok <==> forall e: Entry :: e in mm[..] && e.kind == RECLAIMABLE ==> e.base < HHDM_LEN
  {
    for i := 0 to mm.Length
      invariant forall k :: 0 <= k < i && mm[k].kind == RECLAIMABLE ==> mm[k].base < HHDM_LEN
    {
      if mm[i].kind == RECLAIMABLE && mm[i].base >= HHDM_LEN {
        assert mm[i] in mm[..];
        return false;
      }
    }
    return true;
  }

  /** Take the storage of the frame table out of the regions. */
  method PlaceTable(mm: array<Entry>, count: nat) returns (placed: PftResult)
    requires 0 < count <= mm.Length && Regions(mm[..count]) && forall k :: 0 <= k < count ==> mm[k].kind == USABLE
    modifies mm
    ensures placed.Placed? <==> exists k: nat :: Placeable(old(mm[..count]), TableBytes32(MemLimit(old(mm[..count]))), k)
    ensures placed.Placed? ==> SetAside(old(mm[..count]), Storage(placed.base, TableBytes32(MemLimit(old(mm[..count])))))
    ensures SameReclaimable(mm[..], old(mm[..]))
    ensures placed.Placed? && MemLimit(old(mm[..count])) <= MEM_MAX ==>
              var r := old(mm[..count]);
              var table := Storage(placed.base, TableBytes(r));
              && Regions(mm[..count]) && MemLimit(mm[..count]) == MemLimit(r) && TablePlaced(r, table)
              && TotalBytes(mm[..count]) == TotalBytes(r) - table.bytes
              && forall k: nat :: HasPage(mm[..count], k) <==> HasPage(r, k) && !Overlaps(table.base, table.bytes, k * PG_SZ, PG_SZ)
  {
    ghost var s, r := mm[..], mm[..count];
    placed := AllocPft(mm, count);
    if placed.Placed? {
      ghost var n := TableBytes32(MemLimit(r));
      ghost var k: nat :| Placeable(r, n, k) && mm[..count] == Carve(r, k, n) && placed.base == r[k].base;
      CarvedSameReclaimable(s, mm[..], count, k, n);
      if MemLimit(r) <= MEM_MAX {
        LimitAligned(r);
        TableSizeIsRightIff(r);
        TableBytes32Aligned(MemLimit(r));
        CarveKeepsRegions(r, k, n);
        CarveBytes(r, k, n);
      }
    }
  }

  lemma CarvedSameReclaimable(s: seq<Entry>, t: seq<Entry>, count: nat, k: nat, n: nat)
    requires count <= |s| == |t| && k < count && n <= s[k].len && t[..count] == Carve(s[..count], k, n) && t[count..] == s[count..]
    requires s[k].kind == USABLE
    ensures SameReclaimable(t, s)
  {
    forall x | 0 <= x < |s| && x != k ensures t[x] == s[x] {
      if x < count { assert t[x] == t[..count][x]; } else { assert t[x] == t[count..][x - count] && s[x] == s[count..][x - count]; }
    }
    assert t[k] == t[..count][k];
  }

  /** Normalise the map, carve out the frame table and set up the one allocator over
      [0, mem_limit), as the kernel entry point does. */
  method Boot(mm: array<Entry>) returns (b: Booted, ghost regions: seq<Entry>)
    requires WellFormed(mm[..])
    modifies mm
    ensures NormalForm(regions, old(mm[..])) && Outcome(b, old(mm[..]), regions)
    ensures b.Running? ==> fresh(b.pfa) && fresh(b.pfa.table)
    ensures b.Running? ==> Agrees(b.pfa, old(mm[..]), b.table, MemLimit(regions) / PG_SZ, {})
  {
    ghost var o := mm[..];
    var fits := mm.Length <= MAX_ENTRIES;
    var count := NormalizeMm(mm);
    regions := mm[..count];
    if !fits || count == 0 {
      return Panicked, regions;
    }
    b := SetUp(mm, count, o);
  }

  /** What the set-up does once the map is normalised. */
  method SetUp(mm: array<Entry>, count: nat, ghost o: seq<Entry>) returns (b: Booted)
    requires 0 < count <= mm.Length && NormalForm(mm[..count], o) && SameReclaimable(mm[..], o)
    requires |o| <= MAX_ENTRIES && forall k :: 0 <= k < count ==> mm[k].kind == USABLE
    modifies mm
    ensures Outcome(b, o, old(mm[..count]))
    ensures b.Running? ==> fresh(b.pfa) && fresh(b.pfa.table)
    ensures b.Running? ==> Agrees(b.pfa, o, b.table, MemLimit(old(mm[..count])) / PG_SZ, {})
  {
    ghost var regions := mm[..count];
    var limit := mm[count - 1].base + mm[count - 1].len;
    LimitAligned(regions);
    TableSizeIsRightIff(regions);
    assert regions[count - 1].len > 0;
    var placed := PlaceTable(mm, count);
    if placed.Panic? {
      return Panicked;
    }
    var ok := ClearReclaimable(mm);
    if !ok {
      return Panicked;
    }
    var table := Storage(placed.base, TableBytes32(limit));
    if table.bytes < Ceil(limit / PG_SZ * DESCRIPTOR_SZ) {
      return Short(table);
    }
    var pfa := Launch(mm[..count], table, regions, o);
    b := Running(pfa, table);
  }

  method Launch(usable: seq<Entry>, table: Storage, ghost regions: seq<Entry>, ghost o: seq<Entry>) returns (pfa: SimplePFA)
    requires NormalForm(regions, o) && regions != [] && usable != [] && TablePlaced(regions, table)
    requires Regions(usable) && 0 < MemLimit(usable) == MemLimit(regions)
    requires forall k: nat :: HasPage(usable, k) <==> HasPage(regions, k) && !Overlaps(table.base, table.bytes, k * PG_SZ, PG_SZ)
    ensures fresh(pfa) && fresh(pfa.table) && Agrees(pfa, o, table, MemLimit(regions) / PG_SZ, {})
  {
    NormalFormPages(regions, o);
    TableIsAddressable(regions, table.base);
    pfa := MakeAllocator(usable, HHDM_START + table.base);
    FreshTableTracks(pfa.table[..], o, table, usable);
  }

  // ----- Serving -----

  /** The allocator's descriptors agree with the pages in use. */
  ghost predicate Agrees(pfa: SimplePFA, o: seq<Entry>, table: Storage, pages: nat, live: set<nat>)
    reads pfa, pfa.table
  {
    && pfa.Valid() && pfa.lo == 0 && pfa.hi == pfa.table.Length == pages && pfa.addr == HHDM_START + table.base
    && Tracks(pfa.table[..], o, table, live)
  }

  method ServeAlloc(pfa: SimplePFA, n: nat, ghost o: seq<Entry>, ghost table: Storage, ghost live: set<nat>) returns (r: Answer)
    requires Agrees(pfa, o, table, pfa.hi, live)
    modifies pfa, pfa.table
    ensures Answers(o, table, pfa.hi, live, Alloc(n), r)
    ensures !r.Lost? ==> Agrees(pfa, o, table, pfa.hi, Advance(live, Alloc(n), r))
  {
    ghost var t := pfa.table[..];
    var got := pfa.Alloc(n);
    if n > 0 {
      forall p: nat ensures Fits(t, 0, |t|, n, p) <==> RunAvailable(o, table, live, p, n) {
        TracksMeansFits(t, o, table, live, n, p);
      }
    }
    if got.None? {
      return Refused;
    }
    if pfa.WrapsAt(got.value, n) {
      return Lost;
    }
    AllocTracks(t, o, table, live, n, got.value);
    return Granted(got.value);
  }

  method ServeFree(pfa: SimplePFA, base: nat, n: nat, ghost o: seq<Entry>, ghost table: Storage, ghost live: set<nat>) returns (r: Answer)
    requires Agrees(pfa, o, table, pfa.hi, live)
    modifies pfa, pfa.table
    ensures Answers(o, table, pfa.hi, live, Free(base, n), r)
    ensures r.Freed? ==> Agrees(pfa, o, table, pfa.hi, Advance(live, Free(base, n), r))
  {
    ghost var t := pfa.table[..];
    InUseIsTaken(t, o, table, live, base, n);
    if base + n <= pfa.hi {
      FitsPasses(0, pfa.hi, base, n);
      if n > 0 { ReachedIs(pfa.addr, base, n); }
    }
    var done := pfa.Free(base, n);
    if done == Rejected {
      return Halted;
    }
    if done == PastTable || base + n > pfa.hi {
      return Lost;
    }
    FreeTracks(t, o, table, live, base, n);
    return Freed;
  }

  method ServeOp(pfa: SimplePFA, op: Op, ghost o: seq<Entry>, ghost table: Storage, ghost live: set<nat>) returns (r: Answer)
    requires Agrees(pfa, o, table, pfa.hi, live)
    modifies pfa, pfa.table
    ensures Answers(o, table, pfa.hi, live, op, r)
    ensures !r.Halted? && !r.Lost? ==> Agrees(pfa, o, table, pfa.hi, Advance(live, op, r))
  {
    match op {
      case Alloc(n) => r := ServeAlloc(pfa, n, o, table, live);
      case Free(base, n) => r := ServeFree(pfa, base, n, o, table, live);
    }
  }

  /** The i-th request got the right answer for what was in use at that moment. */
  ghost predicate AnsweredAt(o: seq<Entry>, table: Storage, pages: nat, ops: seq<Op>, results: seq<Answer>, i: nat)
    requires i < |results| <= |ops|
  {
    Answers(o, table, pages, Live(ops[..i], results[..i]), ops[i], results[i])
  }

  ghost predicate AllAnswered(o: seq<Entry>, table: Storage, pages: nat, ops: seq<Op>, results: seq<Answer>)
    requires |results| <= |ops|
  {
    forall i {:trigger AnsweredAt(o, table, pages, ops, results, i)} :: 0 <= i < |results| ==> AnsweredAt(o, table, pages, ops, results, i)
  }

  /** Every request is answered, up to the one at which the machine stops or the books go wrong. */
  ghost predicate RunsToEnd(ops: seq<Op>, results: seq<Answer>) {
    && |results| <= |ops|
    && (|results| < |ops| ==> results != [] && (results[|results| - 1].Halted? || results[|results| - 1].Lost?))
  }

  lemma LiveOneMore(ops: seq<Op>, results: seq<Answer>, r: Answer)
    requires |results| < |ops|
    ensures Live(ops[..|results| + 1], results + [r]) == Advance(Live(ops[..|results|], results), ops[|results|], r)
  {
    var n := |results|;
    assert ops[..n + 1][..n] == ops[..n] && (results + [r])[..n] == results;
  }

  lemma StillAnswered(o: seq<Entry>, table: Storage, pages: nat, ops: seq<Op>, results: seq<Answer>, r: Answer, i: nat)
    requires i < |results| < |ops| && AnsweredAt(o, table, pages, ops, results, i)
    ensures AnsweredAt(o, table, pages, ops, results + [r], i)
  {
    assert (results + [r])[..i] == results[..i];
    assert (results + [r])[i] == results[i];
  }

  lemma OneMoreAnswered(o: seq<Entry>, table: Storage, pages: nat, ops: seq<Op>, results: seq<Answer>, r: Answer)
    requires |results| < |ops| && AllAnswered(o, table, pages, ops, results)
    requires Answers(o, table, pages, Live(ops[..|results|], results), ops[|results|], r)
    ensures AllAnswered(o, table, pages, ops, results + [r])
  {
    var n := |results|;
    assert (results + [r])[..n] == results;
    assert AnsweredAt(o, table, pages, ops, results + [r], n);
    forall i | 0 <= i < n ensures AnsweredAt(o, table, pages, ops, results + [r], i) {
      StillAnswered(o, table, pages, ops, results, r, i);
    }
  }

  /** A run of requests. */
  method Run(pfa: SimplePFA, ops: seq<Op>, ghost o: seq<Entry>, ghost table: Storage) returns (results: seq<Answer>)
    requires Agrees(pfa, o, table, pfa.hi, {})
    modifies pfa, pfa.table
    ensures RunsToEnd(ops, results) && AllAnswered(o, table, pfa.hi, ops, results)
  {
    results := [];
    ghost var live: set<nat> := {};
    while |results| < |ops|
      invariant |results| <= |ops| && AllAnswered(o, table, pfa.hi, ops, results)
      invariant live == Live(ops[..|results|], results) && Agrees(pfa, o, table, pfa.hi, live)
      decreases |ops| - |results|
    {
      var r := ServeOp(pfa, ops[|results|], o, table, live);
      LiveOneMore(ops, results, r);
      OneMoreAnswered(o, table, pfa.hi, ops, results, r);
      live := Advance(live, ops[|results|], r);
      results := results + [r];
      if r.Halted? || r.Lost? {
        return;
      }
    }
  }

  /** Boot and serve a run of requests.  Every allocation that is granted is a run of pages
      available at that moment, and none is refused while such a run exists. */
  method Serve(mm: array<Entry>, ops: seq<Op>) returns (b: Booted, results: seq<Answer>, ghost regions: seq<Entry>)
    requires WellFormed(mm[..])
    modifies mm
    ensures NormalForm(regions, old(mm[..])) && Outcome(b, old(mm[..]), regions)
    ensures b.Running? ==> RunsToEnd(ops, results)
                           && AllAnswered(old(mm[..]), b.table, MemLimit(regions) / PG_SZ, ops, results)
  {
    ghost var o := mm[..];
    b, regions := Boot(mm);
    results := [];
    if b.Running? {
      results := Run(b.pfa, ops, o, b.table);
    }
  }

  // ----- From the firmware's map -----

  /** The page lies in usable memory of the firmware map and meets none of its bootloader regions and none
      of the regions that the bootloader reserved for good. */
  ghost predicate ClearOfReservations(firmware: seq<Entry>, bases: seq<nat>, reqs: seq<BootMap.Request>, k: nat)
    requires |bases| <= |reqs|
  {
    && Held(firmware, k * PG_SZ, PG_SZ) && ClearOfBoot(firmware, |firmware|, k * PG_SZ, PG_SZ)
    && forall b :: 0 <= b < |bases| && reqs[b].kind == BOOTLOADER ==>
         !Overlaps(bases[b], reqs[b].len, k * PG_SZ, PG_SZ)
  }

  lemma PageAvoidsReservations(firmware: seq<Entry>, cur: seq<Entry>, bases: seq<nat>, reqs: seq<BootMap.Request>, k: nat)
    requires BootMap.Served(firmware, cur, bases, reqs) && PageOfMap(cur, k)
    requires forall b :: 0 <= b < |reqs| ==> BootMap.ValidRequest(reqs[b])
    ensures ClearOfReservations(firmware, bases, reqs, k)
  {
    forall x | |firmware| <= x < |cur| ensures cur[x].kind != USABLE {
      assert cur[|firmware| + (x - |firmware|)].kind == reqs[x - |firmware|].kind;
    }
    BootMap.HeldByFirmware(firmware, cur, k * PG_SZ, PG_SZ);
    forall x | 0 <= x < |firmware| && firmware[x].kind == BOOTLOADER
      ensures !Overlaps(firmware[x].base, firmware[x].len, k * PG_SZ, PG_SZ)
    {
      assert cur[x] == firmware[x];
    }
    forall b | 0 <= b < |bases| && reqs[b].kind == BOOTLOADER
      ensures !Overlaps(bases[b], reqs[b].len, k * PG_SZ, PG_SZ)
    {
      assert cur[|firmware| + b].kind == BOOTLOADER;
    }
  }

  /** Page k is part of what the i-th request was given. */
  predicate GrantedPage(ops: seq<Op>, results: seq<Answer>, i: nat, k: nat)
    requires |results| <= |ops|
  {
    i < |results| && ops[i].Alloc? && results[i].Granted? && InRange(k, results[i].page, ops[i].n)
  }

  lemma GrantsAreClear(firmware: seq<Entry>, cur: seq<Entry>, bases: seq<nat>, reqs: seq<BootMap.Request>,
                       table: Storage, pages: nat, ops: seq<Op>, results: seq<Answer>, i: nat, k: nat)
    requires BootMap.Served(firmware, cur, bases, reqs) && |results| <= |ops| && AllAnswered(cur, table, pages, ops, results)
    requires forall b :: 0 <= b < |reqs| ==> BootMap.ValidRequest(reqs[b])
    requires GrantedPage(ops, results, i, k)
    ensures ClearOfReservations(firmware, bases, reqs, k)
    ensures !Overlaps(table.base, table.bytes, k * PG_SZ, PG_SZ) && k !in Live(ops[..i], results[..i])
  {
    var live := Live(ops[..i], results[..i]);
    assert AnsweredAt(cur, table, pages, ops, results, i);
    assert Available(cur, table, live, k);
    PageAvoidsReservations(firmware, cur, bases, reqs, k);
  }

  /** From the firmware map to a served run: first the bootloader's reservations, then the
      kernel's own set-up on a copy of the map, then the requests. */
  method FromFirmware(mm: array<Entry>, reqs: seq<BootMap.Request>, ops: seq<Op>)
    returns (bases: seq<nat>, b: Booted, results: seq<Answer>, ghost regions: seq<Entry>)
    requires WellFormed(BootMap.MapOf(mm[..])) && BootMap.Terminated(mm[..])
    requires forall x :: 0 <= x < |reqs| ==> BootMap.ValidRequest(reqs[x])
    modifies mm
    ensures BootMap.Served(BootMap.MapOf(old(mm[..])), BootMap.MapOf(mm[..]), bases, reqs)
    ensures |bases| < |reqs| ==> !BootMap.Satisfiable(BootMap.MapOf(mm[..]), mm.Length, reqs[|bases|])
    ensures NormalForm(regions, BootMap.MapOf(mm[..])) && Outcome(b, BootMap.MapOf(mm[..]), regions)
    ensures b.Running? ==> RunsToEnd(ops, results)
                           && AllAnswered(BootMap.MapOf(mm[..]), b.table, MemLimit(regions) / PG_SZ, ops, results)
    ensures b.Running? ==> forall i: nat, k: nat :: GrantedPage(ops, results, i, k) ==>
              && ClearOfReservations(BootMap.MapOf(old(mm[..])), bases, reqs, k)
              && !Overlaps(b.table.base, b.table.bytes, k * PG_SZ, PG_SZ) && k !in Live(ops[..i], results[..i])
  {
    ghost var firmware := BootMap.MapOf(mm[..]);
    bases := BootMap.ReserveAll(mm, reqs);
    var cur := BootMap.MapOf(mm[..]);
    var copy := new Entry[|cur|](i requires 0 <= i < |cur| => cur[i]);
    assert copy[..] == cur;
    b, results, regions := Serve(copy, ops);
    if b.Running? {
      forall i: nat, k: nat | GrantedPage(ops, results, i, k)
        ensures ClearOfReservations(firmware, bases, reqs, k)
        ensures !Overlaps(b.table.base, b.table.bytes, k * PG_SZ, PG_SZ) && k !in Live(ops[..i], results[..i])
      {
        GrantsAreClear(firmware, cur, bases, reqs, b.table, MemLimit(regions) / PG_SZ, ops, results, i, k);
      }
    }
  }
}
