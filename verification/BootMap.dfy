/** The bootloader's use of the E820 map: first-fit reservation of physical memory and the
    in-place append of the reserved region (src/boot/page_table.c). */
module BootMap {
  import opened Options
  import opened PageMath
  import opened FrameTable

  const HUGE_PG_SZ: nat := 0x40_0000
  const GIB: nat := 0x4000_0000

  predicate Present(e: Entry) { e.base != 0 || e.len != 0 || e.kind != 0 || e.attrs != 0 }

  /** The map proper: the entries before the first all-zero one. */
  function MapOf(s: seq<Entry>): (r: seq<Entry>)
    ensures r <= s && (forall k :: 0 <= k < |r| ==> Present(r[k]))
    ensures |r| < |s| ==> !Present(s[|r|])
  {
    if s == [] || !Present(s[0]) then [] else [s[0]] + MapOf(s[1..])
  }

  lemma {:induction false} MapOfIsUnique(s: seq<Entry>, n: nat)
    requires n <= |s| && (forall k :: 0 <= k < n ==> Present(s[k])) && (n < |s| ==> !Present(s[n]))
    ensures MapOf(s) == s[..n]
  {
    if n == 0 {
    } else {
      MapOfIsUnique(s[1..], n - 1);
    }
  }

  /** A reservation may lie at [base, base+len): inside one usable entry and not even touching
      the boundary of any other kind of entry. */
  predicate Reservable(s: seq<Entry>, base: nat, len: nat) {
    Held(s, base, len) && TouchesNone(s, base, len)
  }

  predicate TouchesNone(s: seq<Entry>, base: nat, len: nat) {
    forall k :: 0 <= k < |s| && s[k].kind != USABLE ==> !Touches(s[k], base, len)
  }

  predicate Touches(e: Entry, base: nat, len: nat) { base + len >= e.base && base <= e.End() }

  /** The test as it is made, with the end of the region computed in 32 bits. */
  predicate Reservable32(s: seq<Entry>, base: nat, len: nat) { AnySeems(s, |s|, base, len) && NoneBlocks(s, |s|, base, len) }

  predicate AnySeems(s: seq<Entry>, n: nat, base: nat, len: nat)
    requires n <= |s|
  {
    exists k :: 0 <= k < n && Seems(s[k], base, len)
  }

  predicate NoneBlocks(s: seq<Entry>, n: nat, base: nat, len: nat)
    requires n <= |s|
  {
    forall k :: 0 <= k < n ==> !Blocks(s[k], base, len)
  }

  lemma OneMoreEntry(s: seq<Entry>, n: nat, base: nat, len: nat)
    requires n < |s|
    ensures AnySeems(s, n + 1, base, len) <==> AnySeems(s, n, base, len) || Seems(s[n], base, len)
    ensures NoneBlocks(s, n + 1, base, len) <==> NoneBlocks(s, n, base, len) && !Blocks(s[n], base, len)
    ensures Blocks(s[n], base, len) ==> !NoneBlocks(s, |s|, base, len)
  {
  }

  /** The entry is usable and seems to contain the region. */
  predicate Seems(e: Entry, base: nat, len: nat) { e.kind == USABLE && e.base <= base && (base + len) % WORD <= e.End() }

  /** The entry is of another kind and seems to touch the region. */
  predicate Blocks(e: Entry, base: nat, len: nat) { e.kind != USABLE && (base + len) % WORD >= e.base && base <= e.End() }

  /** It is right if the end does not wrap. */
  lemma TestIsRight(s: seq<Entry>, base: nat, len: nat)
    requires base + len < WORD
    ensures Reservable32(s, base, len) <==> Reservable(s, base, len)
  {
    if Reservable32(s, base, len) {
      var k :| 0 <= k < |s| && Seems(s[k], base, len);
      forall x | 0 <= x < |s| && s[x].kind != USABLE ensures !Touches(s[x], base, len) { assert !Blocks(s[x], base, len); }
    }
    if Reservable(s, base, len) {
      var k :| 0 <= k < |s| && s[k].kind == USABLE && s[k].Holds(base, len);
      assert Seems(s[k], base, len);
    }
  }

  /** One GiB of usable memory seems to contain a region of nearly four. */
  lemma LongRegionSeemsToFit()
    ensures var s := [Entry(0x10_0000, GIB, USABLE, 0)];
            Reservable32(s, 0x10_0000, WORD - PG_SZ) && !Reservable(s, 0x10_0000, WORD - PG_SZ)
  {
    var s := [Entry(0x10_0000, GIB, USABLE, 0)];
    assert Seems(s[0], 0x10_0000, WORD - PG_SZ);
  }

  function Step(huge: bool): nat { if huge then HUGE_PG_SZ else PG_SZ }

  /** A base that a request may get: in the first GiB, not zero, and a multiple of the page size, or of 4 MiB if huge
      pages are asked for. */
  predicate Candidate(base: nat, huge: bool) {
    0 < base < GIB && base % PG_SZ == 0 && (huge ==> base % 0x40_0000 == 0)
  }

  /** The inner loop of `e820_alloc`: the region seems to lie in a usable entry and to touch no other kind. */
  method MayLieAt(mm: array<Entry>, base: nat, len: nat) returns (ok: bool)
    requires |MapOf(mm[..])| < mm.Length
    ensures ok <==> Reservable32(MapOf(mm[..]), base, len)
  {
    ghost var s := MapOf(mm[..]);
    var usable := false;
    var end := (base + len) % WORD;
    var k := 0;
    while Present(mm[k])
      invariant k <= |s|
      invariant usable <==> AnySeems(s, k, base, len)
      invariant NoneBlocks(s, k, base, len)
      decreases |s| - k
    {
      assert mm[k] == s[k];
      OneMoreEntry(s, k, base, len);
      if mm[k].kind == USABLE {
        if base >= mm[k].base && end <= mm[k].base + mm[k].len {
          usable := true;
        }
      } else if end >= mm[k].base && base <= mm[k].base + mm[k].len {
        return false;
      }
      k := k + 1;
    }
    return usable;
  }

  /** `e820_alloc`: the lowest candidate address at which the region seems to fit, and fits if its end
      cannot wrap. */
  method E820Alloc(mm: array<Entry>, len: nat, huge: bool) returns (r: Option<nat>)
    requires |MapOf(mm[..])| < mm.Length
    ensures r.Some? ==> r.value % PG_SZ == 0 && (huge ==> r.value % 0x40_0000 == 0)
    ensures r.Some? ==> Candidate(r.value, huge) && Reservable32(MapOf(mm[..]), r.value, len)
    ensures forall b: nat :: Candidate(b, huge) && (r.None? || b < r.value) ==> !Reservable32(MapOf(mm[..]), b, len)
    ensures len <= 3 * GIB ==> forall b: nat :: Candidate(b, huge) ==> (Reservable32(MapOf(mm[..]), b, len) <==> Reservable(MapOf(mm[..]), b, len))
  {
    if len <= 3 * GIB {
      forall b: nat | Candidate(b, huge) ensures Reservable32(MapOf(mm[..]), b, len) <==> Reservable(MapOf(mm[..]), b, len) {
        TestIsRight(MapOf(mm[..]), b, len);
      }
    }
    var incr := Step(huge);
    var base := incr;
    while base < GIB
      invariant base % incr == 0 && base > 0
      invariant forall b: nat :: Candidate(b, huge) && b < base ==> !Reservable32(MapOf(mm[..]), b, len)
    {
      var ok := MayLieAt(mm, base, len);
      if ok {
        return Some(base);
      }
      NextCandidate(base, huge);
      base := base + incr;
    }
    return None;
  }

  lemma NextCandidate(base: nat, huge: bool)
    requires base % Step(huge) == 0
    ensures (base + Step(huge)) % Step(huge) == 0
    ensures forall b: nat :: Candidate(b, huge) && b < base + Step(huge) ==> b <= base
  {
  }

  /** `e820_augment_bootloader`: append, keeping the terminator. */
  method Augment(mm: array<Entry>, base: nat, len: nat, kind: nat) returns (ok: bool)
    requires |MapOf(mm[..])| < mm.Length && kind != 0
    modifies mm
    ensures ok <==> |old(MapOf(mm[..]))| + 1 < mm.Length
    ensures ok ==> forall k :: |old(MapOf(mm[..]))| < k < mm.Length ==> mm[k] == old(mm[k])
    ensures ok ==> mm[..|old(MapOf(mm[..]))| + 1] == old(MapOf(mm[..])) + [Entry(base, len, kind, 0)]
    ensures !ok ==> mm[..] == old(mm[..])
  {
    ghost var s := MapOf(mm[..]);
    var n := 0;
    while Present(mm[n])
      invariant n <= |s|
      decreases |s| - n
    {
      assert n < |s|;
      n := n + 1;
    }
    assert n == |s|;
    if n + 1 >= mm.Length {
      return false;
    }
    mm[n] := mm[n].(base := base, len := len, kind := kind);
    assert mm[..n + 1] == s + [Entry(base, len, kind, 0)];
    return true;
  }

  /** A reserved region keeps the map well-formed, so `normalize_mm` accepts the result. */
  lemma ReservedKeepsWellFormed(s: seq<Entry>, e: Entry)
    requires WellFormed(s) && Reservable(s, e.base, e.len) && e.len > 0
    requires e.kind == BOOTLOADER || e.kind == RECLAIMABLE
    ensures WellFormed(s + [e])
  {
    var u :| 0 <= u < |s| && s[u].kind == USABLE && s[u].Holds(e.base, e.len);
    forall x | 0 <= x < |s| ensures Compatible(s[x], e) {
      if s[x].kind == USABLE && x != u {
        assert Compatible(s[if x < u then x else u], s[if x < u then u else x]);
      }
    }
  }

  // ----- Whole boots -----

  datatype Request = Request(len: nat, huge: bool, kind: nat)

  predicate ValidRequest(q: Request) {
    0 < q.len <= 3 * GIB && (q.kind == BOOTLOADER || q.kind == RECLAIMABLE)
  }

  /** The map is terminated by an untouched zero tail. */
  predicate Terminated(s: seq<Entry>) {
    |MapOf(s)| < |s| && forall k :: |MapOf(s)| <= k < |s| ==> !Present(s[k])
  }

  /** Base is the lowest place for the request in the map. */
  ghost predicate Lowest(s: seq<Entry>, base: nat, q: Request) {
    && Candidate(base, q.huge) && Reservable(s, base, q.len)
    && forall b: nat :: Candidate(b, q.huge) && b < base ==> !Reservable(s, b, q.len)
  }

  /** There is a place for the request, and a free entry in a map of `slots` entries to record it. */
  ghost predicate Satisfiable(s: seq<Entry>, slots: nat, q: Request) {
    |s| + 1 < slots && exists b: nat :: Candidate(b, q.huge) && Reservable(s, b, q.len)
  }

  /** The map `cur` is the firmware map s followed by one region per served request, each at the lowest
      place that the map had for it. */
  ghost predicate Served(s: seq<Entry>, cur: seq<Entry>, bases: seq<nat>, reqs: seq<Request>) {
    && |bases| <= |reqs| && s <= cur && |cur| == |s| + |bases| && WellFormed(cur)
    && forall k :: 0 <= k < |bases| ==>
         && Lowest(cur[..|s| + k], bases[k], reqs[k])
         && bases[k] % PG_SZ == 0 && (reqs[k].huge ==> bases[k] % 0x40_0000 == 0)
         && Held(s, bases[k], reqs[k].len)
         && cur[|s| + k] == Entry(bases[k], reqs[k].len, reqs[k].kind, 0)
  }

  /** One request: `e820_alloc` followed by `e820_augment_bootloader`. */
  method Reserve(mm: array<Entry>, q: Request) returns (r: Option<nat>)
    requires Terminated(mm[..]) && ValidRequest(q)
    modifies mm
    ensures Terminated(mm[..])
    ensures r.Some? <==> Satisfiable(MapOf(old(mm[..])), mm.Length, q)
    ensures r.None? ==> mm[..] == old(mm[..])
    ensures r.Some? ==> r.value % PG_SZ == 0 && (q.huge ==> r.value % 0x40_0000 == 0) && Lowest(MapOf(old(mm[..])), r.value, q)
    ensures r.Some? ==> MapOf(mm[..]) == MapOf(old(mm[..])) + [Entry(r.value, q.len, q.kind, 0)]
  {
    r := E820Alloc(mm, q.len, q.huge);
    if r.Some? {
      var ok := Augment(mm, r.value, q.len, q.kind);
      if ok {
        Appended(old(mm[..]), mm[..], Entry(r.value, q.len, q.kind, 0));
      } else {
        r := None;
      }
    }
  }

  /** Serve the boot-time requests one after the other until one fails. */
  method ReserveAll(mm: array<Entry>, reqs: seq<Request>) returns (bases: seq<nat>)
    requires WellFormed(MapOf(mm[..])) && Terminated(mm[..])
    requires forall k :: 0 <= k < |reqs| ==> ValidRequest(reqs[k])
    modifies mm
    ensures Terminated(mm[..])
    ensures Served(MapOf(old(mm[..])), MapOf(mm[..]), bases, reqs)
    ensures |bases| < |reqs| ==> !Satisfiable(MapOf(mm[..]), mm.Length, reqs[|bases|])
    ensures forall x, y :: 0 <= x < y < |bases| ==> !Overlaps(bases[x], reqs[x].len, bases[y], reqs[y].len)
  {
    ghost var s := MapOf(mm[..]);
    bases := [];
    while |bases| < |reqs|
      invariant Terminated(mm[..]) && Served(s, MapOf(mm[..]), bases, reqs)
      decreases |reqs| - |bases|
    {
      ghost var cur := MapOf(mm[..]);
      var r := Reserve(mm, reqs[|bases|]);
      if r.None? {
        ReservationsDisjoint(s, MapOf(mm[..]), bases, reqs);
        return;
      }
      ServeOne(s, cur, bases, reqs, r.value);
      bases := bases + [r.value];
    }
    ReservationsDisjoint(s, MapOf(mm[..]), bases, reqs);
  }

  lemma ServeOne(s: seq<Entry>, cur: seq<Entry>, bases: seq<nat>, reqs: seq<Request>, base: nat)
    requires Served(s, cur, bases, reqs) && |bases| < |reqs|
    requires forall k :: 0 <= k < |reqs| ==> ValidRequest(reqs[k])
    requires Lowest(cur, base, reqs[|bases|])
    ensures var q := reqs[|bases|];
            Served(s, cur + [Entry(base, q.len, q.kind, 0)], bases + [base], reqs)
  {
    var q := reqs[|bases|];
    ReservedKeepsWellFormed(cur, Entry(base, q.len, q.kind, 0));
    forall k | |s| <= k < |cur| ensures cur[k].kind != USABLE {
      assert cur[|s| + (k - |s|)].kind == reqs[k - |s|].kind;
    }
    HeldByFirmware(s, cur, base, q.len);
    var cur', bases' := cur + [Entry(base, q.len, q.kind, 0)], bases + [base];
    forall k | 0 <= k < |bases'| ensures Lowest(cur'[..|s| + k], bases'[k], reqs[k]) {
      assert cur'[..|s| + k] == cur[..|s| + k];
      assert k == |bases| ==> cur[..|s| + k] == cur;
    }
  }

  lemma Appended(s: seq<Entry>, t: seq<Entry>, e: Entry)
    requires Terminated(s) && |t| == |s| && |MapOf(s)| + 1 < |s| && Present(e)
    requires t[..|MapOf(s)| + 1] == MapOf(s) + [e]
    requires forall k :: |MapOf(s)| < k < |s| ==> t[k] == s[k]
    ensures MapOf(t) == MapOf(s) + [e] && Terminated(t)
  {
    var n := |MapOf(s)| + 1;
    forall k | 0 <= k < n ensures Present(t[k]) {
      assert t[k] == t[..n][k];
    }
    MapOfIsUnique(t, n);
  }

  lemma HeldByFirmware(s: seq<Entry>, cur: seq<Entry>, base: nat, len: nat)
    requires s <= cur && Held(cur, base, len)
    requires forall k :: |s| <= k < |cur| ==> cur[k].kind != USABLE
    ensures Held(s, base, len)
  {
    var k :| 0 <= k < |cur| && cur[k].kind == USABLE && cur[k].Holds(base, len);
    assert s[k] == cur[k];
  }

  lemma ReservationsDisjoint(s: seq<Entry>, cur: seq<Entry>, bases: seq<nat>, reqs: seq<Request>)
    requires Served(s, cur, bases, reqs)
    requires forall k :: 0 <= k < |reqs| ==> ValidRequest(reqs[k])
    ensures forall x, y :: 0 <= x < y < |bases| ==> !Overlaps(bases[x], reqs[x].len, bases[y], reqs[y].len)
  {
    forall x, y | 0 <= x < y < |bases| ensures !Overlaps(bases[x], reqs[x].len, bases[y], reqs[y].len) {
      assert Compatible(cur[|s| + x], cur[|s| + y]);
    }
  }
}
