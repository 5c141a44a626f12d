/** Page frame allocators over the frame table: registration, the hole-marking constructor
    and the round-robin search of `SimplePFA` (src/kernel/mm/page_frame_allocator.cc). */
module FrameAllocator {
  import opened Options
  import opened PageMath
  import opened FrameTable

  datatype Frame = Frame(taken: bool, unusable: bool) {
    predicate Usable() { !taken && !unusable }
  }

  // ----- Next fit, as a relation on tables -----

  predicate Fits(t: seq<Frame>, lo: nat, hi: nat, n: nat, p: nat) {
    lo <= p && p + n <= hi <= |t| && forall k :: p <= k < p + n ==> t[k].Usable()
  }

  /** Number of steps the needle takes to walk round [lo, hi) from `from` to p. */
  function Walk(lo: nat, hi: nat, from: nat, p: nat): (d: nat)
    requires lo <= from < hi && lo <= p < hi
  {
    if from <= p then p - from else p - from + (hi - lo)
  }

  /** p starts the cyclically first run of n usable frames at or after the needle. */
  ghost predicate IsNextFit(t: seq<Frame>, lo: nat, hi: nat, needle: nat, n: nat, p: nat)
    requires lo <= needle < hi && n > 0
  {
    && Fits(t, lo, hi, n, p)
    && forall q: nat :: Fits(t, lo, hi, n, q) ==> Walk(lo, hi, needle, p) <= Walk(lo, hi, needle, q)
  }

  lemma NextFitIsUnique(t: seq<Frame>, lo: nat, hi: nat, needle: nat, n: nat, p: nat, q: nat)
    requires lo <= needle < hi && n > 0
    requires IsNextFit(t, lo, hi, needle, n, p) && IsNextFit(t, lo, hi, needle, n, q)
    ensures p == q
  {
  }

  /** None of the first `steps` positions from `from` on starts a run of n usable frames. */
  ghost predicate RuledOut(t: seq<Frame>, lo: nat, hi: nat, from: nat, n: nat, steps: nat)
    requires lo <= from < hi
  {
    forall q: nat :: lo <= q < hi && Walk(lo, hi, from, q) < steps ==> !Fits(t, lo, hi, n, q)
  }

  lemma RuleOutMore(t: seq<Frame>, lo: nat, hi: nat, from: nat, n: nat, steps: nat, pos: nat, more: nat)
    requires lo <= from < hi && lo <= pos && pos + more <= hi && lo <= pos < hi
    requires Walk(lo, hi, from, pos) == steps && RuledOut(t, lo, hi, from, n, steps)
    requires forall q: nat :: pos <= q < pos + more ==> !Fits(t, lo, hi, n, q)
    ensures RuledOut(t, lo, hi, from, n, steps + more)
    ensures steps + more < hi - lo ==>
              Walk(lo, hi, from, if pos + more < hi then pos + more else lo) == steps + more
  {
  }

  lemma FirstFound(t: seq<Frame>, lo: nat, hi: nat, from: nat, n: nat, p: nat)
    requires lo <= from < hi && n > 0 && Fits(t, lo, hi, n, p)
    requires RuledOut(t, lo, hi, from, n, Walk(lo, hi, from, p))
    ensures IsNextFit(t, lo, hi, from, n, p)
  {
  }

  lemma AllRuledOut(t: seq<Frame>, lo: nat, hi: nat, from: nat, n: nat, steps: nat)
    requires lo <= from < hi && n > 0 && steps >= hi - lo && RuledOut(t, lo, hi, from, n, steps)
    ensures forall p: nat :: !Fits(t, lo, hi, n, p)
  {
  }

  function Mark(t: seq<Frame>, p: nat, n: nat, taken: bool): (r: seq<Frame>)
    requires p + n <= |t|
    ensures |r| == |t|
    ensures forall k :: 0 <= k < |t| ==> r[k] == if p <= k < p + n then t[k].(taken := taken) else t[k]
  {
    seq(|t|, k requires 0 <= k < |t| => if p <= k < p + n then t[k].(taken := taken) else t[k])
  }

  // ----- Counting frames -----

  function CountAllocated(t: seq<Frame>, lo: nat, hi: nat): nat
    requires lo <= hi <= |t|
  {
    if lo == hi then 0 else CountAllocated(t, lo, hi - 1) + if t[hi - 1].taken then 1 else 0
  }

  function CountUsable(t: seq<Frame>, lo: nat, hi: nat): nat
    requires lo <= hi <= |t|
  {
    if lo == hi then 0 else CountUsable(t, lo, hi - 1) + if t[hi - 1].unusable then 0 else 1
  }

  lemma {:induction false} CountSame(t: seq<Frame>, t': seq<Frame>, lo: nat, hi: nat)
    requires lo <= hi <= |t| && |t| == |t'|
    requires forall k :: lo <= k < hi ==> t[k] == t'[k]
    ensures CountAllocated(t, lo, hi) == CountAllocated(t', lo, hi)
  {
    if lo == hi {
    } else {
      CountSame(t, t', lo, hi - 1);
    }
  }

  /** Marking a run of frames that all have the opposite mark moves the count by its length. */
  lemma {:induction false} CountMark(t: seq<Frame>, lo: nat, hi: nat, p: nat, n: nat, mark: bool)
    requires lo <= p && p + n <= hi <= |t|
    requires forall k :: p <= k < p + n ==> t[k].taken == !mark
    ensures var c := CountAllocated(t, lo, hi);
            CountAllocated(Mark(t, p, n, mark), lo, hi) == if mark then c + n else c - n
  {
    if p + n < hi {
      CountMark(t, lo, hi - 1, p, n, mark);
    } else if n > 0 {
      CountMark(t, lo, hi - 1, p, n - 1, mark);
      CountSame(Mark(t, p, n - 1, mark), Mark(t, p, n, mark), lo, hi - 1);
    } else {
      CountSame(t, Mark(t, p, n, mark), lo, hi);
    }
  }

  lemma {:induction false} SameHoles(t: seq<Frame>, t': seq<Frame>, lo: nat, hi: nat)
    requires lo <= hi <= |t| && |t| == |t'|
    requires forall k :: lo <= k < hi ==> t[k].unusable == t'[k].unusable
    ensures CountUsable(t, lo, hi) == CountUsable(t', lo, hi)
  {
    if lo == hi {
    } else {
      SameHoles(t, t', lo, hi - 1);
    }
  }

  function CountFree(t: seq<Frame>, lo: nat, hi: nat): nat
    requires lo <= hi <= |t|
  {
    if lo == hi then 0 else CountFree(t, lo, hi - 1) + if t[hi - 1].Usable() then 1 else 0
  }

  lemma {:induction false} FreeBounded(t: seq<Frame>, lo: nat, hi: nat)
    requires lo <= hi <= |t|
    ensures CountFree(t, lo, hi) <= hi - lo
  {
    if lo == hi {
    } else {
      FreeBounded(t, lo, hi - 1);
    }
  }

  /** Allocated and free frames make up the usable ones. */
  lemma {:induction false} AllocatedPlusFree(t: seq<Frame>, lo: nat, hi: nat)
    requires lo <= hi <= |t|
    requires forall k :: lo <= k < hi && t[k].taken ==> !t[k].unusable
    ensures CountAllocated(t, lo, hi) + CountFree(t, lo, hi) == CountUsable(t, lo, hi)
  {
    if lo == hi {
    } else {
      AllocatedPlusFree(t, lo, hi - 1);
    }
  }

  lemma {:induction false} NothingAllocated(t: seq<Frame>, lo: nat, hi: nat)
    requires lo <= hi <= |t| && forall k :: lo <= k < hi ==> !t[k].taken
    ensures CountAllocated(t, lo, hi) == 0
  {
    if lo == hi {
    } else {
      NothingAllocated(t, lo, hi - 1);
    }
  }

  // ----- The frame table and its allocators -----

  ghost function Cleared(t: seq<Frame>, lo: nat, hi: nat): (r: seq<Frame>)
    ensures |r| == |t| && forall k :: 0 <= k < |t| ==> r[k] == if lo <= k < hi then Frame(false, false) else t[k]
  {
    seq(|t|, k requires 0 <= k < |t| => if lo <= k < hi then Frame(false, false) else t[k])
  }

  class PageFrameTable {
    const regions: seq<Entry>
    const frames: array<Frame>
    const addr: nat  // where the first descriptor is in memory
    var allocators: seq<(nat, nat)>

    ghost predicate Valid()
      reads this
    {
      && Regions(regions) && regions != []
      && frames.Length == MemLimit(regions) / PG_SZ
      && addr + frames.Length * DESCRIPTOR_SZ < WORD
      && forall x, y :: 0 <= x < y < |allocators| ==>
           !RangesOverlap(allocators[x], allocators[y])
    }

    constructor (usable: seq<Entry>, addr: nat)
      requires Regions(usable) && usable != [] && addr + MemLimit(usable) / PG_SZ * DESCRIPTOR_SZ < WORD
      ensures Valid() && fresh(frames) && regions == usable && allocators == [] && this.addr == addr
    {
      regions, this.addr := usable, addr;
      frames := new Frame[MemLimit(usable) / PG_SZ](_ => Frame(false, false));
      allocators := [];
    }

    static predicate RangesOverlap(a: (nat, nat), b: (nat, nat)) {
      a.0 < b.1 && b.0 < a.1
    }

    /** `register_allocator`: claim [start, end) unless another allocator covers part of it,
        and clear the descriptors of the claimed range only. */
    method RegisterAllocator(start: nat, end: nat) returns (ok: bool)
      requires Valid() && Aligned(start) && Aligned(end) && start < end <= MemLimit(regions)
      modifies this`allocators, frames
      ensures Valid()
      ensures ok <==> forall x :: 0 <= x < |old(allocators)| ==> !RangesOverlap(old(allocators)[x], (start, end))
      ensures allocators == if ok then old(allocators) + [(start, end)] else old(allocators)
      ensures frames[..] == if ok then Cleared(old(frames[..]), start / PG_SZ, end / PG_SZ) else old(frames[..])
    {
      for x := 0 to |allocators|
        invariant forall y :: 0 <= y < x ==> !RangesOverlap(allocators[y], (start, end))
        invariant allocators == old(allocators)
        invariant forall k :: 0 <= k < frames.Length ==> frames[k] == old(frames[k])
      {
        if RangesOverlap((start, end), allocators[x]) {
          return false;
        }
      }
      allocators := allocators + [(start, end)];
      for k := start / PG_SZ to end / PG_SZ
        modifies frames
        invariant forall x :: 0 <= x < frames.Length ==>
          frames[x] == if start / PG_SZ <= x < k then Frame(false, false) else old(frames[x])
      {
        frames[k] := Frame(false, false);
      }
      return true;
    }
  }

  /** Page p lies in a region that begins at or after `start`. */
  predicate HasPageFrom(r: seq<Entry>, start: nat, p: nat) {
    exists x :: 0 <= x < |r| && r[x].base >= start && r[x].Holds(p * PG_SZ, PG_SZ)
  }

  /** No region other than the last one contains `start` strictly inside. */
  predicate StartsCleanly(r: seq<Entry>, start: nat) {
    forall x :: 0 <= x < |r| - 1 ==> !(r[x].base < start < r[x].End())
  }

  predicate HasPageUpTo(r: seq<Entry>, start: nat, n: nat, p: nat)
    requires n <= |r|
  {
    exists x :: 0 <= x < n && r[x].base >= start && r[x].Holds(p * PG_SZ, PG_SZ)
  }

  lemma PagesOfRegion(e: Entry, k: nat)
    requires Aligned(e.base) && Aligned(e.len)
    ensures e.Holds(k * PG_SZ, PG_SZ) <==> e.base / PG_SZ <= k < e.base / PG_SZ + e.len / PG_SZ
  {
    assert e.base == e.base / PG_SZ * PG_SZ && e.len == e.len / PG_SZ * PG_SZ;
  }

  /** Where the loop over the regions has come to before region `i`. */
  function MarkedTo(r: seq<Entry>, start: nat, i: nat): nat
    requires i <= |r|
  {
    if i > 0 && r[i - 1].base >= start then r[i - 1].End() else start
  }

  lemma RegionsAbove(r: seq<Entry>, start: nat, i: nat, hi: nat, k: nat)
    requires Regions(r) && i < |r| && r[i].base >= hi * PG_SZ && k < hi
    ensures HasPageFrom(r, start, k) <==> HasPageUpTo(r, start, i, k)
  {
    if HasPageFrom(r, start, k) {
      var x :| 0 <= x < |r| && r[x].base >= start && r[x].Holds(k * PG_SZ, PG_SZ);
      assert i < x ==> Before(r[i], r[x]);
      assert x < i;
    }
  }

  lemma OneMoreRegion(r: seq<Entry>, start: nat, i: nat, from: nat, k: nat)
    requires Regions(r) && i < |r| && r[i].base >= start && from * PG_SZ == MarkedTo(r, start, i)
    ensures HasPageUpTo(r, start, i + 1, k) <==> HasPageUpTo(r, start, i, k) || r[i].base / PG_SZ <= k < r[i].base / PG_SZ + r[i].len / PG_SZ
    ensures HasPageUpTo(r, start, i, k) ==> k < from
  {
    PagesOfRegion(r[i], k);
    if HasPageUpTo(r, start, i, k) {
      var x :| 0 <= x < i && r[x].base >= start && r[x].Holds(k * PG_SZ, PG_SZ);
      if x < i - 1 { assert Before(r[x], r[i - 1]); }
    }
  }

  /** What the hole-marking loop leaves behind. */
  ghost predicate HolesMarked(r: seq<Entry>, start: nat, t: seq<Frame>, lo: nat, hi: nat)
    requires r != [] && hi <= |t|
  {
    forall k :: lo <= k < hi ==>
      !t[k].taken && (t[k].unusable <==> r[|r| - 1].base >= start && !HasPageFrom(r, start, k))
  }

  lemma StraddledPage(e: Entry, page: nat)
    requires Aligned(e.base) && Aligned(e.len) && e.base < page * PG_SZ < e.End()
    ensures e.Holds(page * PG_SZ, PG_SZ)
  {
    assert e.End() == (e.base / PG_SZ + e.len / PG_SZ) * PG_SZ;
  }

  /** If `start` lies behind the first page of the last region, all of the range is in that region. */
  lemma LastRegionHasAll(r: seq<Entry>, start: nat, k: nat)
    requires Regions(r) && r != [] && r[|r| - 1].base < start <= k * PG_SZ && (k + 1) * PG_SZ <= MemLimit(r)
    ensures HasPage(r, k)
  {
    assert r[|r| - 1].Holds(k * PG_SZ, PG_SZ);
  }

  lemma LastRegionStartsCleanly(r: seq<Entry>, start: nat)
    requires Regions(r) && r != [] && r[|r| - 1].base < start
    ensures StartsCleanly(r, start)
  {
    forall x | 0 <= x < |r| - 1 ensures !(r[x].base < start < r[x].End()) {
      assert Before(r[x], r[|r| - 1]);
    }
  }

  /** A page behind `start` is in a region that begins there or later, if no region straddles `start`. */
  lemma CleanPage(r: seq<Entry>, start: nat, k: nat)
    requires Regions(r) && r != [] && r[|r| - 1].base >= start && StartsCleanly(r, start) && start <= k * PG_SZ
    ensures HasPage(r, k) <==> HasPageFrom(r, start, k)
  {
    if HasPage(r, k) {
      var x :| 0 <= x < |r| && r[x].Holds(k * PG_SZ, PG_SZ);
      assert r[x].base >= start;
    }
  }

  lemma StraddledPageIsLost(r: seq<Entry>, lo: nat)
    requires Regions(r) && r != [] && r[|r| - 1].base >= lo * PG_SZ && !StartsCleanly(r, lo * PG_SZ)
    ensures HasPage(r, lo) && !HasPageFrom(r, lo * PG_SZ, lo)
  {
    var x :| 0 <= x < |r| - 1 && r[x].base < lo * PG_SZ < r[x].End();
    StraddledPage(r[x], lo);
    forall y | 0 <= y < |r| && r[y].base >= lo * PG_SZ ensures !r[y].Holds(lo * PG_SZ, PG_SZ) {
      if y < x { assert Before(r[y], r[x]); } else if x < y { assert Before(r[x], r[y]); }
    }
  }

  ghost predicate SameOutside(t: seq<Frame>, t': seq<Frame>, lo: nat, hi: nat) {
    |t'| == |t| && forall k :: 0 <= k < |t| && !(lo <= k < hi) ==> t'[k] == t[k]
  }

  ghost function WithHoles(t: seq<Frame>, from: nat, to: nat): (r: seq<Frame>)
    ensures |r| == |t| && forall k :: 0 <= k < |t| ==> r[k] == if from <= k < to then t[k].(unusable := true) else t[k]
  {
    seq(|t|, k requires 0 <= k < |t| => if from <= k < to then t[k].(unusable := true) else t[k])
  }

  /** The loop over the regions has marked the holes up to `page` with respect to the first i. */
  ghost predicate Marking(t: seq<Frame>, r: seq<Entry>, start: nat, lo: nat, hi: nat, i: nat, page: nat)
    requires hi <= |t| && i <= |r|
  {
    && lo <= page && page * PG_SZ == MarkedTo(r, start, i)
    && (forall k :: lo <= k < hi ==> !t[k].taken)
    && (forall k :: lo <= k < hi && k < page ==> (t[k].unusable <==> !HasPageUpTo(r, start, i, k)))
    && (forall k :: page <= k < hi ==> !t[k].unusable)
  }

  lemma GapStaysInside(t: seq<Frame>, lo: nat, hi: nat, from: nat, page: nat)
    requires lo <= from <= page && (from < page ==> page <= hi)
    ensures SameOutside(t, WithHoles(t, from, page), lo, hi)
  {
  }

  lemma RegionSkipped(t: seq<Frame>, r: seq<Entry>, start: nat, lo: nat, hi: nat, i: nat, page: nat)
    requires Regions(r) && i < |r| && hi <= |t| && start == lo * PG_SZ && r[i].base < start
    requires Marking(t, r, start, lo, hi, i, page)
    ensures Marking(t, r, start, lo, hi, i + 1, page)
  {
    assert i > 0 ==> Before(r[i - 1], r[i]);
    assert page == lo;
  }

  lemma FrontOfRegion(r: seq<Entry>, start: nat, i: nat, from: nat)
    requires Regions(r) && i < |r| && r[i].base >= start && from * PG_SZ == MarkedTo(r, start, i)
    ensures from * PG_SZ <= r[i].base && Aligned(r[i].base)
  {
    assert i > 0 ==> Before(r[i - 1], r[i]);
  }

  lemma RegionDone(t: seq<Frame>, r: seq<Entry>, start: nat, lo: nat, hi: nat, i: nat, from: nat, page: nat)
    requires Regions(r) && i < |r| && hi <= |t| && r[i].base >= start
    requires Marking(t, r, start, lo, hi, i, from) && from <= page < hi && page * PG_SZ == r[i].base
    ensures Marking(WithHoles(t, from, page), r, start, lo, hi, i + 1, page + r[i].len / PG_SZ)
  {
    var t', next := WithHoles(t, from, page), page + r[i].len / PG_SZ;
    assert r[i].len == r[i].len / PG_SZ * PG_SZ;
    forall k | lo <= k < hi && k < next ensures t'[k].unusable <==> !HasPageUpTo(r, start, i + 1, k) {
      OneMoreRegion(r, start, i, from, k);
    }
  }

  lemma RangeDone(t: seq<Frame>, r: seq<Entry>, start: nat, lo: nat, hi: nat, i: nat, from: nat, page: nat)
    requires Regions(r) && i < |r| && hi <= |t| && lo <= hi && r[i].base >= start
    requires Marking(t, r, start, lo, hi, i, from) && from <= page && hi <= page && page * PG_SZ <= r[i].base
    ensures HolesMarked(r, start, WithHoles(t, from, page), lo, hi)
  {
    var t' := WithHoles(t, from, page);
    assert i < |r| - 1 ==> Before(r[i], r[|r| - 1]);
    forall k | lo <= k < hi ensures t'[k].unusable <==> !HasPageFrom(r, start, k) {
      RegionsAbove(r, start, i, hi, k);
      OneMoreRegion(r, start, i, from, k);
    }
  }

  lemma AllRegionsDone(t: seq<Frame>, r: seq<Entry>, start: nat, lo: nat, hi: nat, page: nat)
    requires Regions(r) && r != [] && lo <= hi <= |t| && start == lo * PG_SZ && hi * PG_SZ <= MemLimit(r)
    requires Marking(t, r, start, lo, hi, |r|, page)
    ensures HolesMarked(r, start, t, lo, hi)
  {
    forall k ensures HasPageUpTo(r, start, |r|, k) <==> HasPageFrom(r, start, k) { }
  }

  /** Descriptors with the holes that the marking loop leaves. */
  ghost function HoleFrames(r: seq<Entry>, start: nat, n: nat): seq<Frame>
    requires r != []
  {
    seq(n, k requires 0 <= k < n => Frame(false, r[|r| - 1].base >= start && !HasPageFrom(r, start, k)))
  }

  /** No frame outside the usable regions is left usable, and every usable one is found
      exactly when no region but the last straddles `start`. */
  lemma HolesMarkedExactly(r: seq<Entry>, start: nat, t: seq<Frame>, lo: nat, hi: nat)
    requires Regions(r) && r != [] && start == lo * PG_SZ && lo < hi <= |t| && hi * PG_SZ <= MemLimit(r)
    requires HolesMarked(r, start, t, lo, hi)
    ensures forall k :: lo <= k < hi && !t[k].unusable ==> HasPage(r, k)
    ensures (forall k :: lo <= k < hi ==> (t[k].unusable <==> !HasPage(r, k))) <==> StartsCleanly(r, start)
  {
    if r[|r| - 1].base < start {
      LastRegionStartsCleanly(r, start);
      forall k | lo <= k < hi ensures HasPage(r, k) { LastRegionHasAll(r, start, k); }
    } else if StartsCleanly(r, start) {
      forall k | lo <= k < hi ensures HasPage(r, k) <==> HasPageFrom(r, start, k) { CleanPage(r, start, k); }
    } else {
      StraddledPageIsLost(r, lo);
    }
  }

  // ----- The page total kept by the base class -----

  function Claimed(e: Entry, start: nat, end: nat): nat {
    var from := if e.base > start then e.base else start;
    var to := if e.End() < end then e.End() else end;
    if to > from then to - from else 0
  }

  function ClaimedBytes(r: seq<Entry>, start: nat, end: nat): nat {
    if r == [] then 0 else ClaimedBytes(r[..|r| - 1], start, end) + Claimed(r[|r| - 1], start, end)
  }

  function CountPages(r: seq<Entry>, lo: nat, hi: nat): nat
    requires lo <= hi
  {
    if lo == hi then 0 else CountPages(r, lo, hi - 1) + if HasPage(r, hi - 1) then 1 else 0
  }

  lemma {:induction false} CountPagesOfOne(e: Entry, lo: nat, hi: nat)
    requires lo <= hi && Aligned(e.base) && Aligned(e.len)
    ensures CountPages([e], lo, hi) * PG_SZ == Claimed(e, lo * PG_SZ, hi * PG_SZ)
  {
    if lo == hi {
    } else {
      CountPagesOfOne(e, lo, hi - 1);
      assert HasPage([e], hi - 1) <==> e.Holds((hi - 1) * PG_SZ, PG_SZ) by {
        assert e == [e][0];
      }
    }
  }

  lemma HasPageAppend(r: seq<Entry>, e: Entry, p: nat)
    requires Regions(r + [e])
    ensures HasPage(r + [e], p) <==> HasPage(r, p) || HasPage([e], p)
    ensures !(HasPage(r, p) && HasPage([e], p))
  {
    var s := r + [e];
    if HasPage(s, p) {
      var x :| 0 <= x < |s| && s[x].Holds(p * PG_SZ, PG_SZ);
      if x < |r| { assert r[x].Holds(p * PG_SZ, PG_SZ); } else { assert [e][0].Holds(p * PG_SZ, PG_SZ); }
    }
    if HasPage(r, p) {
      var x :| 0 <= x < |r| && r[x].Holds(p * PG_SZ, PG_SZ);
      assert s[x].Holds(p * PG_SZ, PG_SZ) && Before(s[x], s[|r|]);
    }
    if HasPage([e], p) { assert s[|r|].Holds(p * PG_SZ, PG_SZ); }
  }

  lemma {:induction false} CountPagesAppend(r: seq<Entry>, e: Entry, lo: nat, hi: nat)
    requires lo <= hi && Regions(r + [e])
    ensures CountPages(r + [e], lo, hi) == CountPages(r, lo, hi) + CountPages([e], lo, hi)
  {
    if lo == hi {
    } else {
      CountPagesAppend(r, e, lo, hi - 1);
      HasPageAppend(r, e, hi - 1);
    }
  }

  lemma {:induction false} PagesAreClaimedBytes(r: seq<Entry>, lo: nat, hi: nat)
    requires lo <= hi && Regions(r)
    ensures CountPages(r, lo, hi) * PG_SZ == ClaimedBytes(r, lo * PG_SZ, hi * PG_SZ)
  {
    if r == [] {
      NoPages(lo, hi);
    } else {
      var n := |r| - 1;
      assert r == r[..n] + [r[n]];
      PagesAreClaimedBytes(r[..n], lo, hi);
      CountPagesOfOne(r[n], lo, hi);
      CountPagesAppend(r[..n], r[n], lo, hi);
    }
  }

  lemma {:induction false} NoPages(lo: nat, hi: nat)
    requires lo <= hi
    ensures CountPages([], lo, hi) == 0
  {
    if lo == hi {
    } else {
      NoPages(lo, hi - 1);
    }
  }

  lemma {:induction false} UsableAreRegionPages(r: seq<Entry>, t: seq<Frame>, lo: nat, hi: nat)
    requires lo <= hi <= |t|
    requires forall k :: lo <= k < hi ==> (t[k].unusable <==> !HasPage(r, k))
    ensures CountUsable(t, lo, hi) == CountPages(r, lo, hi)
  {
    if lo == hi {
    } else {
      UsableAreRegionPages(r, t, lo, hi - 1);
    }
  }

  lemma AddModWord(x: nat, d: nat)
    ensures (x % WORD + d) % WORD == (x + d) % WORD
  {
    var q := x / WORD;
    assert x + d == (x % WORD + d) + q * WORD;
  }

  /** The base-class constructor's sum: bytes are added up in 32 bits and then shifted. */
  method TotalPages(r: seq<Entry>, start: nat, end: nat) returns (total: nat)
    ensures total == ClaimedBytes(r, start, end) % WORD / PG_SZ
  {
    total := 0;
    for i := 0 to |r|
      invariant total == ClaimedBytes(r[..i], start, end) % WORD
    {
      assert r[..i + 1][..i] == r[..i];
      var from := if r[i].base > start then r[i].base else start;
      var to := if r[i].base + r[i].len < end then r[i].base + r[i].len else end;
      if to > from {
        AddModWord(ClaimedBytes(r[..i], start, end), to - from);
        total := (total + (to - from)) % WORD;
      }
    }
    assert r[..|r|] == r;
    total := total / PG_SZ;
  }

  /** The recorded total is the number of usable frames iff fewer than 4 GiB are usable. */
  lemma TotalIsExactBelow4GiB(r: seq<Entry>, t: seq<Frame>, lo: nat, hi: nat)
    requires Regions(r) && lo <= hi <= |t|
    requires forall k :: lo <= k < hi ==> (t[k].unusable <==> !HasPage(r, k))
    ensures var bytes := ClaimedBytes(r, lo * PG_SZ, hi * PG_SZ);
            bytes % WORD / PG_SZ == CountUsable(t, lo, hi) <==> bytes < WORD
  {
    PagesAreClaimedBytes(r, lo, hi);
    UsableAreRegionPages(r, t, lo, hi);
    WrappedPages(CountUsable(t, lo, hi));
  }

  lemma WrappedPages(n: nat)
    ensures n * PG_SZ % WORD / PG_SZ == n <==> n * PG_SZ < WORD
  {
    assert n * PG_SZ % WORD < WORD;
  }

  /** What the frames of a range are once its holes have been marked. */
  lemma FreshFrames(r: seq<Entry>, start: nat, t: seq<Frame>, lo: nat, hi: nat)
    requires Regions(r) && r != [] && start == lo * PG_SZ && lo < hi <= |t| && hi * PG_SZ <= MemLimit(r)
    requires HolesMarked(r, start, t, lo, hi)
    ensures CountAllocated(t, lo, hi) == 0
    ensures CountUsable(t, lo, hi) == CountUsable(HoleFrames(r, start, |t|), lo, hi)
    ensures forall k :: lo <= k < hi && !t[k].unusable ==> HasPage(r, k)
    ensures (forall k :: lo <= k < hi ==> (t[k].unusable <==> !HasPage(r, k))) <==> StartsCleanly(r, start)
    ensures StartsCleanly(r, start) ==>
              (ClaimedBytes(r, start, hi * PG_SZ) % WORD / PG_SZ == CountUsable(t, lo, hi) <==> ClaimedBytes(r, start, hi * PG_SZ) < WORD)
  {
    HolesMarkedExactly(r, start, t, lo, hi);
    NothingAllocated(t, lo, hi);
    SameHoles(HoleFrames(r, start, |t|), t, lo, hi);
    if StartsCleanly(r, start) { TotalIsExactBelow4GiB(r, t, lo, hi); }
  }

  // ----- Pointers to descriptors -----

  const DESCRIPTORS: nat := 0x400_0000  // descriptors that 32-bit addresses tell apart

  /** The address of descriptor x of a table at `addr`, computed in 32 bits. */
  function AddressOf(addr: nat, x: nat): nat { (addr + x * DESCRIPTOR_SZ) % WORD }

  /** The number of descriptors that a loop from descriptor p up to the address of p + n visits. */
  function Reached(addr: nat, p: nat, n: nat): (f: nat)
    ensures f <= n
  {
    var wraps := (addr + (p + n) * DESCRIPTOR_SZ) / WORD;
    if n > wraps * DESCRIPTORS then n - wraps * DESCRIPTORS else 0
  }

  /** The loop condition, a comparison of addresses, holds exactly below the end of what is reached. */
  lemma ReachedIsLoop(addr: nat, p: nat, n: nat, it: nat)
    requires p <= it
    ensures addr + it * DESCRIPTOR_SZ < AddressOf(addr, p + n) <==> it < p + Reached(addr, p, n)
  {
    var wraps := (addr + (p + n) * DESCRIPTOR_SZ) / WORD;
    assert AddressOf(addr, p + n) == addr + (p + n) * DESCRIPTOR_SZ - wraps * WORD;
  }

  /** The whole run is reached iff the address of its end does not wrap, and nothing of a run of the
      table is reached if it does. */
  lemma ReachedIs(addr: nat, p: nat, n: nat)
    requires 0 < n
    ensures Reached(addr, p, n) == n <==> addr + (p + n) * DESCRIPTOR_SZ < WORD
    ensures addr + (p + n) * DESCRIPTOR_SZ >= WORD && n <= DESCRIPTORS ==> Reached(addr, p, n) == 0
  {
    var wraps := (addr + (p + n) * DESCRIPTOR_SZ) / WORD;
    assert wraps >= 1 ==> wraps * DESCRIPTORS >= DESCRIPTORS;
  }

  /** With 32 GiB of memory and the table at 1 MiB, a test of a run of all frames at the last frame
      looks at none of them. */
  lemma UntestedRun()
    ensures var addr, frames := 0xC010_0000, 0x80_0000;
            addr + frames * DESCRIPTOR_SZ < WORD && Reached(addr, frames - 1, frames) == 0
  {
  }

  // ----- Freeing -----

  /** The bound that `free` asserts, which adds a number of pages to an address, in 64 bits. */
  predicate PassesBound(lo: nat, hi: nat, base: nat, n: nat) {
    lo <= base && (base * PG_SZ + n) % LONG <= hi * PG_SZ
  }

  /** `free` of n frames from `base` on succeeds: the bound and the assertion on each frame hold. */
  ghost predicate Freeable(t: seq<Frame>, addr: nat, lo: nat, hi: nat, base: nat, n: nat) {
    && PassesBound(lo, hi, base, n) && base + Reached(addr, base, n) <= |t|
    && forall k :: base <= k < base + Reached(addr, base, n) ==> t[k].taken
  }

  /** Clearing a run of taken frames that may leave the range takes those inside off the count. */
  lemma CountCleared(t: seq<Frame>, lo: nat, hi: nat, base: nat, f: nat)
    requires lo <= base && hi <= |t| && lo <= hi && base + f <= |t|
    requires forall k :: base <= k < base + f ==> t[k].taken
    ensures CountAllocated(Mark(t, base, f, false), lo, hi)
         == CountAllocated(t, lo, hi) - if base + f <= hi then f else if base <= hi then hi - base else 0
  {
    if base <= hi {
      var inside := if base + f <= hi then f else hi - base;
      CountMark(t, lo, hi, base, inside, false);
      CountSame(Mark(t, base, f, false), Mark(t, base, inside, false), lo, hi);
    } else {
      CountSame(Mark(t, base, f, false), t, lo, hi);
    }
  }

  lemma SubtractionIsRight(c: nat, n: nat, f: nat)
    requires f <= n && f <= c < WORD
    ensures (c - n) % WORD == c - f <==> (n - f) % WORD == 0
  {
    var q := (n - f) / WORD;
    assert c - n == (c - f) - (n - f);
  }

  /** A `free` that succeeds keeps the count right and the descriptors of others untouched iff what it
      reaches stays in the range and what it counts is what it reaches. */
  lemma FreeIsSoundIff(t: seq<Frame>, addr: nat, lo: nat, hi: nat, base: nat, n: nat)
    requires lo <= hi <= |t| < WORD && Freeable(t, addr, lo, hi, base, n)
    ensures var f := Reached(addr, base, n);
            var t' := Mark(t, base, f, false);
            && (CountAllocated(t, lo, hi) - n) % WORD == CountAllocated(t', lo, hi)
            && SameOutside(t, t', lo, hi)
            <==> (f == 0 || base + f <= hi) && (n - f) % WORD == 0
  {
    var f := Reached(addr, base, n);
    CountCleared(t, lo, hi, base, f);
    CountBounded(t, lo, hi);
    if f == 0 || base + f <= hi {
      SubtractionIsRight(CountAllocated(t, lo, hi), n, f);
    } else {
      assert Mark(t, base, f, false)[base + f - 1] != t[base + f - 1];
    }
  }

  lemma {:induction false} CountBounded(t: seq<Frame>, lo: nat, hi: nat)
    requires lo <= hi <= |t|
    ensures CountAllocated(t, lo, hi) <= hi - lo
  {
    if lo == hi {
    } else {
      CountBounded(t, lo, hi - 1);
    }
  }

  /** With four frames of one allocator and a taken frame of another behind them, freeing five frames
      passes every assertion. */
  lemma FreeReachesOthers()
    ensures var t := seq(8, _ => Frame(true, false)); Freeable(t, 0xC010_0000, 0, 4, 0, 5) && Reached(0xC010_0000, 0, 5) == 5
  {
  }

  // ----- The allocator -----

  datatype FreeResult = Done | Rejected | PastTable

  class SimplePFA {
    const table: array<Frame>
    const addr: nat  // where the first descriptor is in memory
    const lo: nat    // frame number of `start`
    const hi: nat    // frame number of `end`
    const total: nat
    ghost const usable: nat  // frames of the range that are not holes
    var needle: nat
    var alloced: nat

    ghost predicate Shape()
      reads this
    {
      lo <= needle < hi <= table.Length && addr + table.Length * DESCRIPTOR_SZ < WORD
    }

    ghost predicate Valid()
      reads this, table
    {
      && Shape()
      && alloced == CountAllocated(table[..], lo, hi)
      && usable == CountUsable(table[..], lo, hi)
      && forall k :: lo <= k < hi && table[k].taken ==> !table[k].unusable
    }

    /** The address of the end of a run of n frames at p wraps around. */
    predicate WrapsAt(p: nat, n: nat) { addr + (p + n) * DESCRIPTOR_SZ >= WORD }

    /** It does so for some position of the run. */
    predicate MayWrap(n: nat) { addr + (hi - 1 + n) * DESCRIPTOR_SZ >= WORD }

    lemma MayWrapIff(n: nat)
      requires lo < hi
      ensures MayWrap(n) <==> exists p: nat :: lo <= p < hi && WrapsAt(p, n)
    {
      assert MayWrap(n) ==> WrapsAt(hi - 1, n);
    }

    constructor (pft: PageFrameTable, start: nat, end: nat)
      requires pft.Valid() && Aligned(start) && Aligned(end) && start < end <= MemLimit(pft.regions)
      requires forall x :: 0 <= x < |pft.allocators| ==> !PageFrameTable.RangesOverlap(pft.allocators[x], (start, end))
      modifies pft`allocators, pft.frames
      ensures pft.Valid() && Valid() && table == pft.frames && addr == pft.addr && lo == start / PG_SZ && hi == end / PG_SZ
      ensures pft.allocators == old(pft.allocators) + [(start, end)]
      ensures SameOutside(old(pft.frames[..]), table[..], lo, hi)
      ensures forall k :: lo <= k < hi ==> !table[k].taken && (!table[k].unusable ==> HasPage(pft.regions, k))
      ensures (forall k :: lo <= k < hi ==> (table[k].unusable <==> !HasPage(pft.regions, k)))
              <==> StartsCleanly(pft.regions, start)
      ensures StartsCleanly(pft.regions, start) ==> (total == usable <==> ClaimedBytes(pft.regions, start, end) < WORD)
      ensures total < WORD
    {
      var pages := TotalPages(pft.regions, start, end);
      total := pages;
      table, addr, lo, hi := pft.frames, pft.addr, start / PG_SZ, end / PG_SZ;
      needle, alloced := start / PG_SZ, 0;
      usable := CountUsable(HoleFrames(pft.regions, start, pft.frames.Length), start / PG_SZ, end / PG_SZ);
      new;
      Claim(pft, start, end);
      FreshFrames(pft.regions, start, table[..], lo, hi);
    }

    /** Register the range and mark its holes. */
    method Claim(pft: PageFrameTable, start: nat, end: nat)
      requires pft.Valid() && start == lo * PG_SZ && end == hi * PG_SZ && start < end <= MemLimit(pft.regions) && table == pft.frames
      requires forall x :: 0 <= x < |pft.allocators| ==> !PageFrameTable.RangesOverlap(pft.allocators[x], (start, end))
      modifies pft`allocators, pft.frames
      ensures pft.Valid() && pft.allocators == old(pft.allocators) + [(start, end)]
      ensures HolesMarked(pft.regions, start, table[..], lo, hi) && SameOutside(old(table[..]), table[..], lo, hi)
    {
      var ok := pft.RegisterAllocator(start, end);
      assert ok;
      MarkHoles(pft.regions, start, end);
    }

    /** `get_free_pages`, in 32 bits, is the number of free frames in every state iff the recorded total
        is right. */
    method GetFreePages() returns (n: nat)
      requires Valid() && total < WORD
      ensures n == CountFree(table[..], lo, hi) <==> total == usable
    {
      AllocatedPlusFree(table[..], lo, hi);
      CountBounded(table[..], lo, hi);
      FreeBounded(table[..], lo, hi);
      n := (total - alloced) % WORD;
    }

    /** The inner loop of the constructor: the pages in front of a region are holes. */
    method MarkGap(from: nat, base: nat) returns (page: nat)
      requires lo < hi <= table.Length && Aligned(base) && from * PG_SZ <= base
      modifies table
      ensures from <= page && page * PG_SZ <= base && (page < hi ==> page * PG_SZ == base) && (from < page ==> page <= hi)
      ensures table[..] == WithHoles(old(table[..]), from, page)
    {
      page := from;
      while page * PG_SZ < base && page < hi
        invariant from <= page && page * PG_SZ <= base && (from < page ==> page <= hi)
        invariant forall k :: 0 <= k < table.Length ==>
          table[k] == if from <= k < page then old(table[k]).(unusable := true) else old(table[k])
      {
        table[page] := table[page].(unusable := true);
        page := page + 1;
      }
    }

    /** The constructor's loop over the usable regions, counting in pages. */
    method MarkHoles(r: seq<Entry>, start: nat, end: nat)
      requires Regions(r) && r != [] && start == lo * PG_SZ && end == hi * PG_SZ <= MemLimit(r)
      requires lo < hi <= table.Length
      requires forall k :: lo <= k < hi ==> table[k] == Frame(false, false)
      modifies table
      ensures HolesMarked(r, start, table[..], lo, hi)
      ensures SameOutside(old(table[..]), table[..], lo, hi)
    {
      var page: nat := lo;
      var i := 0;
      while i < |r|
        invariant i <= |r| && Marking(table[..], r, start, lo, hi, i, page)
        invariant SameOutside(old(table[..]), table[..], lo, hi)
      {
        ghost var t := table[..];
        if r[i].base < start {
          RegionSkipped(t, r, start, lo, hi, i, page);
          i := i + 1;
          continue;
        }
        ghost var from := page;
        FrontOfRegion(r, start, i, from);
        page := MarkGap(page, r[i].base);
        GapStaysInside(t, lo, hi, from, page);
        if page >= hi {
          RangeDone(t, r, start, lo, hi, i, from, page);
          return;
        }
        RegionDone(t, r, start, lo, hi, i, from, page);
        page := page + r[i].len / PG_SZ;
        i := i + 1;
      }
      AllRegionsDone(table[..], r, start, lo, hi, page);
    }

    /** The first frame of the run at p that is not usable, or the end of what the loop reaches. */
    method ScanRun(p: nat, n: nat) returns (it: nat)
      requires p + Reached(addr, p, n) <= table.Length
      ensures p <= it <= p + Reached(addr, p, n)
      ensures forall k :: p <= k < it ==> table[k].Usable()
      ensures it < p + Reached(addr, p, n) ==> !table[it].Usable()
    {
      it := p;
      ReachedIsLoop(addr, p, n, it);
      while addr + it * DESCRIPTOR_SZ < AddressOf(addr, p + n)
        invariant p <= it <= p + Reached(addr, p, n)
        invariant addr + it * DESCRIPTOR_SZ < AddressOf(addr, p + n) <==> it < p + Reached(addr, p, n)
        invariant forall k :: p <= k < it ==> table[k].Usable()
        decreases p + Reached(addr, p, n) - it
      {
        if !table[it].Usable() {
          return;
        }
        it := it + 1;
        ReachedIsLoop(addr, p, n, it);
      }
    }

    /** How far the loop of a test at the needle goes, and when the test for the end of the range fires. */
    lemma TestReaches(n: nat)
      requires Shape() && n <= hi - lo
      ensures Reached(addr, needle, n) == if WrapsAt(needle, n) then 0 else n
      ensures AddressOf(addr, needle + n) > addr + hi * DESCRIPTOR_SZ <==> !WrapsAt(needle, n) && needle + n > hi
    {
      ReachedIsLoop(addr, needle, n, hi);
      if n > 0 { ReachedIs(addr, needle, n); }
    }

    /** The lambda `try_alloc`: test the run at the needle, or say how far to skip. A run whose end
        wraps around is not tested at all. */
    method TryAlloc(n: nat, steps: nat) returns (ok: bool, steps': nat)
      requires Shape() && n <= hi - lo
      modifies this`needle
      ensures Shape()
      ensures ok <==> WrapsAt(old(needle), n) || Fits(table[..], lo, hi, n, old(needle))
      ensures ok ==> needle == old(needle) && steps' == steps
      ensures !ok ==> steps' >= steps
      ensures !ok ==> forall q: nat :: old(needle) <= q < old(needle) + (steps' - steps) ==> !Fits(table[..], lo, hi, n, q)
      ensures !ok ==>
                || (old(needle) + (steps' - steps) == needle && !table[needle].Usable())
                || (old(needle) + (steps' - steps) == hi && needle == lo)
    {
      TestReaches(n);
      if AddressOf(addr, needle + n) > addr + hi * DESCRIPTOR_SZ {
        steps' := steps + (hi - needle);
        needle := lo;
        return false, steps';
      }
      var it := ScanRun(needle, n);
      if addr + it * DESCRIPTOR_SZ < AddressOf(addr, needle + n) {
        ReachedIsLoop(addr, needle, n, it);
        steps' := steps + (it - needle);
        needle := it;
        return false, steps';
      }
      ReachedIsLoop(addr, needle, n, it);
      return true, steps;
    }

    /** Search state: the needle is `steps` positions past `from`, or the search is over. */
    ghost predicate Searching(from: nat, n: nat, steps: nat)
      requires lo <= from < hi <= table.Length
      reads this, table
    {
      && Shape()
      && RuledOut(table[..], lo, hi, from, n, steps)
      && (steps < hi - lo ==> Walk(lo, hi, from, needle) == steps)
    }

    /** A test that fails rules out the positions it skips. */
    method TryFrom(n: nat, steps: nat, ghost from: nat) returns (ok: bool, steps': nat)
      requires lo <= from < hi <= table.Length && n <= hi - lo && Searching(from, n, steps)
      modifies this`needle
      ensures Searching(from, n, steps') && steps <= steps'
      ensures ok <==> WrapsAt(old(needle), n) || Fits(table[..], lo, hi, n, old(needle))
      ensures ok ==> needle == old(needle) && steps' == steps
      ensures !ok && steps' == steps ==> !table[needle].Usable()
    {
      ghost var pos := needle;
      ok, steps' := TryAlloc(n, steps);
      if !ok && steps < hi - lo {
        RuleOutMore(table[..], lo, hi, from, n, steps, pos, steps' - steps);
      }
    }

    /** The inner loop of `alloc`: step over frames that are not usable. */
    method SkipUnusable(n: nat, steps: nat, ghost from: nat) returns (steps': nat)
      requires lo <= from < hi <= table.Length && n > 0
      requires steps < hi - lo && Searching(from, n, steps)
      modifies this`needle
      ensures Searching(from, n, steps') && steps <= steps'
      ensures steps' < hi - lo ==> table[needle].Usable()
      ensures steps' >= hi - lo ==> !table[needle].Usable()
      ensures !old(table[needle].Usable()) ==> steps < steps'
    {
      steps' := steps;
      while !table[needle].Usable()
        invariant steps <= steps' < hi - lo && Searching(from, n, steps')
        invariant steps == steps' ==> needle == old(needle)
        decreases hi - lo - steps'
      {
        RuleOutMore(table[..], lo, hi, from, n, steps', needle, 1);
        steps' := steps' + 1;
        if steps' >= hi - lo {
          break;
        }
        needle := needle + 1;
        if needle >= hi {
          needle := lo;
        }
      }
    }

    /** The two nested loops of `alloc`: move the needle to the next fit or to a run whose end wraps
        around, or rule all out. */
    method Search(n: nat) returns (found: bool)
      requires Shape() && n <= hi - lo
      modifies this`needle
      ensures Shape()
      ensures n == 0 ==> found && needle == old(needle)
      ensures found && n > 0 ==> WrapsAt(needle, n) || IsNextFit(table[..], lo, hi, old(needle), n, needle)
      ensures !found ==> forall p: nat :: !Fits(table[..], lo, hi, n, p)
    {
      var len := hi - lo;
      ghost var from := needle;
      var ok, steps := TryFrom(n, 0, from);
      while !ok && steps < len
        invariant 0 <= steps && Searching(from, n, steps)
        invariant n == 0 ==> ok && steps == 0 && needle == from
        invariant ok ==> WrapsAt(needle, n) || Fits(table[..], lo, hi, n, needle)
        invariant !ok && steps == 0 ==> !table[needle].Usable()
        decreases !ok, len - steps
      {
        // Step to where the next test is made.
        steps := SkipUnusable(n, steps, from);
        ok, steps := TryFrom(n, steps, from);
      }
      found := steps < len;
      if n > 0 && found && !WrapsAt(needle, n) { FirstFound(table[..], lo, hi, from, n, needle); }
      if !found { AllRuledOut(table[..], lo, hi, from, n, steps); }
    }

    /** Set the mark of the frames from p on that the loop reaches. */
    method SetTaken(p: nat, n: nat)
      requires p + Reached(addr, p, n) <= table.Length
      modifies table
      ensures table[..] == Mark(old(table[..]), p, Reached(addr, p, n), true)
    {
      var it := p;
      ReachedIsLoop(addr, p, n, it);
      while addr + it * DESCRIPTOR_SZ < AddressOf(addr, p + n)
        invariant p <= it <= p + Reached(addr, p, n)
        invariant addr + it * DESCRIPTOR_SZ < AddressOf(addr, p + n) <==> it < p + Reached(addr, p, n)
        invariant forall k :: 0 <= k < table.Length ==>
          table[k] == if p <= k < it then old(table[k]).(taken := true) else old(table[k])
        decreases p + Reached(addr, p, n) - it
      {
        table[it] := table[it].(taken := true);
        it := it + 1;
        ReachedIsLoop(addr, p, n, it);
      }
    }

    /** `alloc`.  A run whose end wraps around is granted without a test and without a mark. */
    method Alloc(n: nat) returns (r: Option<nat>)
      requires Valid()
      modifies this`needle, this`alloced, table
      ensures Shape()
      ensures Valid() <==> !(r.Some? && WrapsAt(r.value, n))
      ensures n == 0 ==> r == Some(old(needle)) && table[..] == old(table[..])
      ensures r.None? ==> n > 0 && table[..] == old(table[..]) && forall p: nat :: !Fits(old(table[..]), lo, hi, n, p)
      ensures r.Some? ==> lo <= r.value < hi && n <= hi - lo && needle == r.value
      ensures r.Some? && n > 0 && !WrapsAt(r.value, n) ==> IsNextFit(old(table[..]), lo, hi, old(needle), n, r.value)
      ensures r.Some? ==> table[..] == if WrapsAt(r.value, n) then old(table[..]) else Mark(old(table[..]), r.value, n, true)
      ensures alloced == old(alloced) + if r.Some? then n else 0
    {
      if n > hi - lo {
        return None;
      }
      var found := Search(n);
      if !found {
        return None;
      }
      ghost var t := table[..];
      TestReaches(n);
      SetTaken(needle, n);
      alloced := alloced + n;
      if WrapsAt(needle, n) {
        assert n > 0;
        assert table[..] == t;
      } else {
        CountMark(t, lo, hi, needle, n, true);
        SameHoles(t, table[..], lo, hi);
      }
      return Some(needle);
    }

    /** `free`, with its assertions.  `Rejected` is a failed assertion, `PastTable` a run of taken frames
        that leaves the table itself. */
    method Free(base: nat, n: nat) returns (r: FreeResult)
      requires Valid()
      modifies this`alloced, table
      ensures r == Done <==> Freeable(old(table[..]), addr, lo, hi, base, n)
      ensures !PassesBound(lo, hi, base, n) ==> r == Rejected && table[..] == old(table[..])
      ensures r == PastTable ==> base + n > table.Length
      ensures r == Done ==> table[..] == Mark(old(table[..]), base, Reached(addr, base, n), false)
      ensures r == Done ==> alloced == (old(alloced) - n) % WORD
      ensures r == Done ==> (Valid() && SameOutside(old(table[..]), table[..], lo, hi)
                             <==> (Reached(addr, base, n) == 0 || base + Reached(addr, base, n) <= hi) && (n - Reached(addr, base, n)) % WORD == 0)
    {
      ghost var t := table[..];
      if !PassesBound(lo, hi, base, n) {
        return Rejected;
      }
      if base > table.Length {
        return PastTable;
      }
      r := ClearRun(base, n);
      if r == Done {
        alloced := (alloced - n) % WORD;
        FreeIsSoundIff(t, addr, lo, hi, base, n);
        SameHoles(t, table[..], lo, hi);
      }
    }

    /** The loop of `free`, which asserts of each frame that it is taken. */
    method ClearRun(base: nat, n: nat) returns (r: FreeResult)
      requires base <= table.Length
      modifies table
      ensures r == Done <==> base + Reached(addr, base, n) <= table.Length
                             && forall k :: base <= k < base + Reached(addr, base, n) ==> old(table[..])[k].taken
      ensures r == PastTable ==> base + n > table.Length
      ensures r == Done ==> table[..] == Mark(old(table[..]), base, Reached(addr, base, n), false)
    {
      var it := base;
      ReachedIsLoop(addr, base, n, it);
      while addr + it * DESCRIPTOR_SZ < AddressOf(addr, base + n)
        invariant base <= it <= base + Reached(addr, base, n)
        invariant it <= table.Length
        invariant addr + it * DESCRIPTOR_SZ < AddressOf(addr, base + n) <==> it < base + Reached(addr, base, n)
        invariant forall k :: base <= k < it ==> old(table[..])[k].taken
        invariant forall k :: 0 <= k < table.Length ==>
          table[k] == if base <= k < it then old(table[k]).(taken := false) else old(table[k])
        decreases base + Reached(addr, base, n) - it
      {
        if it >= table.Length {
          return PastTable;
        }
        if !table[it].taken {
          assert !old(table[..])[it].taken;
          return Rejected;
        }
        table[it] := table[it].(taken := false);
        it := it + 1;
        ReachedIsLoop(addr, base, n, it);
      }
      r := Done;
    }

    /** An allocation that follows the release of another of no smaller size repeats its base, and there is no
        other change, unless the end of a run can wrap. */
    method AllocFreeAlloc(n: nat, m: nat) returns (first: Option<nat>, second: Option<nat>)
      requires Valid() && 0 < m <= n
      modifies this`needle, this`alloced, table
      ensures !MayWrap(n) ==> Valid() && second == first
      ensures first.None? ==> table[..] == old(table[..]) && forall p: nat :: !Fits(old(table[..]), lo, hi, n, p)
      ensures first.Some? && !MayWrap(n) ==>
                && IsNextFit(old(table[..]), lo, hi, old(needle), n, first.value)
                && table[..] == Mark(old(table[..]), first.value, m, true)
                && needle == first.value && alloced == old(alloced) + m
    {
      ghost var t := table[..];
      first := Alloc(n);
      second := None;
      if first.Some? && !WrapsAt(first.value, n) {
        FitsPasses(lo, hi, first.value, n);
        ReachedIs(addr, first.value, n);
        MarkUndone(t, first.value, n);
        var freed := Free(first.value, n);
        assert freed == Done && table[..] == t;
        assert Fits(table[..], lo, hi, m, first.value);
        second := Alloc(m);
      }
    }

    /** The count stays within the total, as is asserted in debug builds, if the total is right. */
    lemma CountWithinTotal()
      requires Valid() && total == usable
      ensures alloced <= total
    {
      AllocatedPlusFree(table[..], lo, hi);
    }
  }

  lemma MarkUndone(t: seq<Frame>, p: nat, n: nat)
    requires p + n <= |t| && forall k :: p <= k < p + n ==> t[k].Usable()
    ensures Mark(Mark(t, p, n, true), p, n, false) == t
  {
  }

  lemma FitsPasses(lo: nat, hi: nat, base: nat, n: nat)
    requires lo <= base && base + n <= hi
    ensures PassesBound(lo, hi, base, n)
  {
    assert n * PG_SZ >= n && base * PG_SZ + n * PG_SZ <= hi * PG_SZ;
  }
}
