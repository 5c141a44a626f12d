/** The E820 memory map and the part of the page frame table that is built from it:
    `normalize_mm` and `alloc_pft` (src/kernel/mm/page_frame_table.cc). */
module FrameTable {
  import opened PageMath

  const USABLE: nat := 1
  const BOOTLOADER: nat := 6
  const RECLAIMABLE: nat := 7

  datatype Entry = Entry(base: nat, len: nat, kind: nat, attrs: nat) {
    function End(): nat { base + len }
    predicate Hits(e: Entry) { Overlaps(base, len, e.base, e.len) }
    predicate Holds(lo: nat, len': nat) { Subsumes(base, len, lo, len') }
  }

  // ----- Well-formed maps -----

  /** What the firmware and the bootloader promise about two entries of one map
      (src/kernel/mm/page_frame_table.h:59-67): nothing overlaps, except that a bootloader
      region may lie inside a usable one and a reclaimable region may cross usable ones. */
  predicate Compatible(x: Entry, y: Entry) {
    x.Hits(y) ==>
      || (x.kind == USABLE && y.kind == BOOTLOADER && x.Holds(y.base, y.len))
      || (x.kind == BOOTLOADER && y.kind == USABLE && y.Holds(x.base, x.len))
      || (x.kind == USABLE && y.kind == RECLAIMABLE)
      || (x.kind == RECLAIMABLE && y.kind == USABLE)
  }

  predicate WellFormed(s: seq<Entry>) {
    forall x, y :: 0 <= x < y < |s| ==> Compatible(s[x], s[y])
  }

  /** What is left of `Compatible` once the bootloader regions have been cut out: the
      condition that the second ASSERT loop tests on neighbours. */
  predicate Separate(x: Entry, y: Entry) {
    x.Hits(y) ==>
      || (x.kind == USABLE && y.kind == RECLAIMABLE)
      || (x.kind == RECLAIMABLE && y.kind == USABLE)
  }

  predicate AllSeparate(s: seq<Entry>) {
    forall x, y :: 0 <= x < y < |s| ==> Separate(s[x], s[y])
  }

  /** The same reclaimable entries, in any order. */
  ghost predicate SameReclaimable(s: seq<Entry>, t: seq<Entry>) {
    forall e: Entry :: e.kind == RECLAIMABLE ==> (e in s <==> e in t)
  }

  /** [lo, lo+len) lies wholly inside one usable entry. */
  predicate Held(s: seq<Entry>, lo: nat, len: nat) {
    exists k :: 0 <= k < |s| && s[k].kind == USABLE && s[k].Holds(lo, len)
  }

  /** [lo, lo+len) touches no bootloader entry among the first n. */
  predicate ClearOfBoot(s: seq<Entry>, n: nat, lo: nat, len: nat)
    requires n <= |s|
  {
    forall k :: 0 <= k < n && s[k].kind == BOOTLOADER ==> !Overlaps(s[k].base, s[k].len, lo, len)
  }

  // ----- Splitting usable regions around bootloader regions -----

  function SplitLow(u: Entry, b: Entry): (r: Entry)
    requires u.Holds(b.base, b.len)
  {
    u.(len := b.base - u.base)
  }

  function SplitHigh(u: Entry, b: Entry): (r: Entry)
    requires u.Holds(b.base, b.len)
  {
    b.(base := b.End(), len := u.End() - b.End(), kind := USABLE)
  }

  function Split(s: seq<Entry>, i: nat, j: nat): (r: seq<Entry>)
    requires i < |s| && j < |s| && s[j].Holds(s[i].base, s[i].len)
  {
    s[j := SplitLow(s[j], s[i])][i := SplitHigh(s[j], s[i])]
  }

  /** Entries that were bootloader regions and survived the loop touch nothing. */
  predicate Settled(s: seq<Entry>, n: nat)
    requires n <= |s|
  {
    forall k, y :: 0 <= k < n && 0 <= y < |s| && y != k && s[k].kind == BOOTLOADER ==> !s[k].Hits(s[y])
  }

  predicate Splittable(s: seq<Entry>, i: nat, j: nat) {
    && i < |s| && j < |s| && i != j
    && s[i].kind == BOOTLOADER && s[j].kind == USABLE
    && s[i].Hits(s[j]) && s[j].Holds(s[i].base, s[i].len)
  }

  lemma SplitKeepsWellFormed(s: seq<Entry>, i: nat, j: nat)
    requires WellFormed(s) && Splittable(s, i, j) && Settled(s, i)
    ensures WellFormed(Split(s, i, j)) && Settled(Split(s, i, j), i + 1)
  {
  }

  /** A range survives the split iff it was held before and avoids the bootloader region. */
  lemma SplitCutsExactly(s: seq<Entry>, i: nat, j: nat, lo: nat, len: nat)
    requires WellFormed(s) && Splittable(s, i, j) && len > 0
    ensures Held(Split(s, i, j), lo, len) <==> Held(s, lo, len) && !Overlaps(s[i].base, s[i].len, lo, len)
  {
    var t := Split(s, i, j);
    assert t[i] == SplitHigh(s[j], s[i]) && t[j] == SplitLow(s[j], s[i]);
    if Held(s, lo, len) && !Overlaps(s[i].base, s[i].len, lo, len) {
      var k :| 0 <= k < |s| && s[k].kind == USABLE && s[k].Holds(lo, len);
      var k' := if k != j then k else if lo + len <= s[i].base then j else i;
      assert t[k'].kind == USABLE && t[k'].Holds(lo, len);
    }
    if Held(t, lo, len) {
      var k :| 0 <= k < |t| && t[k].kind == USABLE && t[k].Holds(lo, len);
      var k' := if k == i then j else k;
      assert s[k'].kind == USABLE && s[k'].Holds(lo, len);
    }
  }

  lemma UntouchedBootIsClear(s: seq<Entry>, i: nat, lo: nat, len: nat)
    requires i < |s| && s[i].kind == BOOTLOADER && len > 0
    requires forall y :: 0 <= y < |s| && y != i ==> !s[i].Hits(s[y])
    requires Held(s, lo, len)
    ensures !Overlaps(s[i].base, s[i].len, lo, len)
  {
    var k :| 0 <= k < |s| && s[k].kind == USABLE && s[k].Holds(lo, len);
    assert !s[i].Hits(s[k]);
  }

  /** State of the splitting loop after the first i entries of the original map o. */
  ghost predicate SplitSoFar(s: seq<Entry>, o: seq<Entry>, i: nat) {
    && |s| == |o| && i <= |s|
    && WellFormed(s) && Settled(s, i)
    && (forall k :: i <= k < |s| && o[k].kind == BOOTLOADER ==> s[k] == o[k])
    && (forall k :: i <= k < |s| && o[k].kind != BOOTLOADER ==> s[k].kind == o[k].kind)
    && (forall k :: 0 <= k < |s| && (s[k].kind == RECLAIMABLE || o[k].kind == RECLAIMABLE) ==> s[k] == o[k])
    && (forall lo: nat, len: nat :: len > 0 ==>
          (Held(s, lo, len) <==> Held(o, lo, len) && ClearOfBoot(o, i, lo, len)))
  }

  lemma SplitStep(s: seq<Entry>, o: seq<Entry>, i: nat, j: nat)
    requires SplitSoFar(s, o, i) && Splittable(s, i, j)
    requires o[i].kind == BOOTLOADER
    ensures SplitSoFar(Split(s, i, j), o, i + 1)
  {
    SplitKeepsWellFormed(s, i, j);
    forall lo: nat, len: nat | len > 0
      ensures Held(Split(s, i, j), lo, len) <==> Held(o, lo, len) && ClearOfBoot(o, i + 1, lo, len)
    {
      SplitCutsExactly(s, i, j, lo, len);
    }
  }

  lemma NoSplitStep(s: seq<Entry>, o: seq<Entry>, i: nat)
    requires SplitSoFar(s, o, i) && i < |s|
    requires o[i].kind == BOOTLOADER ==> forall y :: 0 <= y < |s| && y != i ==> !s[i].Hits(s[y])
    ensures SplitSoFar(s, o, i + 1)
  {
    forall lo: nat, len: nat | len > 0
      ensures Held(s, lo, len) <==> Held(o, lo, len) && ClearOfBoot(o, i + 1, lo, len)
    {
      if o[i].kind == BOOTLOADER && Held(s, lo, len) {
        UntouchedBootIsClear(s, i, lo, len);
      }
    }
  }

  /** The inner loop: the first other entry that the i-th one overlaps, if any. */
  method FirstHit(mm: array<Entry>, i: nat) returns (j: nat)
    requires i < mm.Length
    ensures j <= mm.Length
    ensures forall y :: 0 <= y < j && y != i ==> !mm[i].Hits(mm[y])
    ensures j < mm.Length ==> i != j && mm[i].Hits(mm[j])
  {
    j := 0;
    while j < mm.Length && (i == j || !mm[i].Hits(mm[j]))
      invariant j <= mm.Length
      invariant forall y :: 0 <= y < j && y != i ==> !mm[i].Hits(mm[y])
    {
      j := j + 1;
    }
  }

  /** Cut the i-th entry, a bootloader region, out of the j-th, which must be usable and contain it; the
      bootloader entry becomes the upper half. */
  method SplitInPlace(mm: array<Entry>, i: nat, j: nat)
    requires i < mm.Length && j < mm.Length && Splittable(mm[..], i, j)
    modifies mm
    ensures mm[..] == Split(old(mm[..]), i, j)
  {
    ghost var s := mm[..];
    var b, u := mm[i], mm[j];
    assert u.kind == USABLE && u.Holds(b.base, b.len);
    var len1 := b.base - u.base;
    var base2 := b.base + b.len;
    var len2 := u.base + u.len - base2;
    assert len1 + len2 + b.len == u.len;
    mm[j] := u.(base := u.base, len := len1);
    mm[i] := b.(base := base2, len := len2, kind := USABLE);
    assert mm[..] == Split(s, i, j);
  }

  /** Two entries of a well-formed map overlap only as a bootloader entry inside a usable one, if the
      first is a bootloader entry. */
  lemma HitIsSplittable(s: seq<Entry>, i: nat, j: nat)
    requires WellFormed(s) && i < |s| && j < |s| && i != j && s[i].kind == BOOTLOADER && s[i].Hits(s[j])
    ensures Splittable(s, i, j)
  {
    assert Compatible(s[if i < j then i else j], s[if i < j then j else i]);
  }

  /** The first loop of `normalize_mm`.  No ASSERT fires on a well-formed map. */
  method SplitAroundBootloader(mm: array<Entry>)
    requires WellFormed(mm[..])
    modifies mm
    ensures SplitSoFar(mm[..], old(mm[..]), mm.Length)
  {
    ghost var o := mm[..];
    var i := 0;
    while i < mm.Length
      invariant i <= mm.Length
      invariant SplitSoFar(mm[..], o, i)
    {
      ghost var s := mm[..];
      var j := mm.Length;
      if mm[i].kind == BOOTLOADER {
        j := FirstHit(mm, i);
      }
      if j < mm.Length {
        HitIsSplittable(s, i, j);
        SplitStep(s, o, i, j);
        SplitInPlace(mm, i, j);
      } else {
        NoSplitStep(s, o, i);
      }
      i := i + 1;
    }
  }

  lemma SplitAllSeparate(s: seq<Entry>)
    requires WellFormed(s) && Settled(s, |s|)
    ensures AllSeparate(s)
  {
  }

  // ----- Sorting -----

  predicate SortedByBase(s: seq<Entry>) {
    forall x, y :: 0 <= x < y < |s| ==> s[x].base <= s[y].base
  }

  method Swap(mm: array<Entry>, i: nat, j: nat)
    requires i < mm.Length && j < mm.Length
    modifies mm
    ensures mm[..] == old(mm[..])[i := old(mm[..])[j]][j := old(mm[..])[i]]
    ensures multiset(mm[..]) == multiset(old(mm[..]))
  {
    mm[i], mm[j] := mm[j], mm[i];
  }

  /** s[..n + 1] is sorted, except that the entry at k may belong further to the front. */
  ghost predicate SortedBut(s: seq<Entry>, n: nat, k: nat)
    requires k <= n < |s|
  {
    forall x, y :: 0 <= x < y <= n && y != k ==> s[x].base <= s[y].base
  }

  lemma SinkStep(s: seq<Entry>, n: nat, k: nat)
    requires 0 < k <= n < |s| && SortedBut(s, n, k) && s[k - 1].base > s[k].base
    ensures SortedBut(s[k - 1 := s[k]][k := s[k - 1]], n, k - 1)
  {
    var t := s[k - 1 := s[k]][k := s[k - 1]];
    forall x, y | 0 <= x < y <= n && y != k - 1 ensures t[x].base <= t[y].base {
      var x' := if x == k - 1 then k else if x == k then k - 1 else x;
      var y' := if y == k then k - 1 else y;
      assert t[x] == s[x'] && t[y] == s[y'];
    }
  }

  /** Let the entry at `n` sink to its place in the sorted front of the array. */
  method Sink(mm: array<Entry>, n: nat)
    requires n < mm.Length && SortedByBase(mm[..n])
    modifies mm
    ensures SortedByBase(mm[..n + 1])
    ensures multiset(mm[..]) == multiset(old(mm[..]))
  {
    var k := n;
    assert forall x :: 0 <= x < n ==> mm[..][x] == mm[..n][x];
    while k > 0 && mm[k - 1].base > mm[k].base
      invariant 0 <= k <= n && SortedBut(mm[..], n, k)
      invariant multiset(mm[..]) == multiset(old(mm[..]))
    {
      SinkStep(mm[..], n, k);
      Swap(mm, k - 1, k);
      k := k - 1;
    }
    SunkIsSorted(mm[..], n, k);
    assert mm[..n + 1] == mm[..][..n + 1];
  }

  lemma SunkIsSorted(s: seq<Entry>, n: nat, k: nat)
    requires k <= n < |s| && SortedBut(s, n, k) && (k > 0 ==> s[k - 1].base <= s[k].base)
    ensures SortedByBase(s[..n + 1])
  {
    forall x | 0 <= x < k ensures s[x].base <= s[k].base {
      assert x < k - 1 ==> s[x].base <= s[k - 1].base;
    }
  }

  /** Stand-in for std::sort: some ascending rearrangement of the array. */
  method SortByBase(mm: array<Entry>)
    modifies mm
    ensures SortedByBase(mm[..])
    ensures multiset(mm[..]) == multiset(old(mm[..]))
  {
    var n := 0;
    while n < mm.Length
      invariant n <= mm.Length
      invariant SortedByBase(mm[..n])
      invariant multiset(mm[..]) == multiset(old(mm[..]))
    {
      Sink(mm, n);
      n := n + 1;
    }
    assert mm[..mm.Length] == mm[..];
  }

  lemma {:induction false} TwoOccurrences(s: seq<Entry>, v: Entry) returns (x: nat, y: nat)
    requires multiset(s)[v] >= 2
    ensures x < y < |s| && s[x] == v && s[y] == v
  {
    var n := |s| - 1;
    assert s == s[..n] + [s[n]];
    if s[n] != v {
      x, y := TwoOccurrences(s[..n], v);
    } else {
      assert multiset(s[..n])[v] >= 1;
      assert v in multiset(s[..n]);
      x :| 0 <= x < n && s[..n][x] == v;
      y := n;
    }
  }

  lemma {:induction false} OccurrencesOfPair(s: seq<Entry>, x: nat, y: nat)
    requires x < y < |s|
    ensures s[x] == s[y] ==> multiset(s)[s[x]] >= 2
  {
    assert s == s[..x] + [s[x]] + s[x + 1..y] + [s[y]] + s[y + 1..];
  }

  lemma RearrangedSeparate(s: seq<Entry>, t: seq<Entry>)
    requires multiset(s) == multiset(t) && AllSeparate(s)
    ensures AllSeparate(t)
  {
    forall x, y | 0 <= x < y < |t| ensures Separate(t[x], t[y]) {
      if t[x] == t[y] {
        OccurrencesOfPair(t, x, y);
        var x', y' := TwoOccurrences(s, t[x]);
        assert Separate(s[x'], s[y']);
      } else {
        assert t[x] in multiset(s) && t[y] in multiset(s);
        var x' :| 0 <= x' < |s| && s[x'] == t[x];
        var y' :| 0 <= y' < |s| && s[y'] == t[y];
        assert Separate(s[if x' < y' then x' else y'], s[if x' < y' then y' else x']);
      }
    }
  }

  lemma RearrangedHeld(s: seq<Entry>, t: seq<Entry>, lo: nat, len: nat)
    requires multiset(s) == multiset(t) && Held(s, lo, len)
    ensures Held(t, lo, len)
  {
    var k :| 0 <= k < |s| && s[k].kind == USABLE && s[k].Holds(lo, len);
    assert s[k] in multiset(t);
    var k' :| 0 <= k' < |t| && t[k'] == s[k];
  }

  // ----- Compaction by swapping -----

  function Filter(s: seq<Entry>, keep: Entry -> bool): (r: seq<Entry>)
    ensures forall x :: 0 <= x < |r| ==> keep(r[x]) && r[x] in s
    ensures forall e :: e in s && keep(e) ==> e in r
    ensures |r| <= |s|
  {
    if s == [] then []
    else
      var n := |s| - 1;
      assert forall e :: e in s ==> e in s[..n] || e == s[n];
      if keep(s[n]) then Filter(s[..n], keep) + [s[n]] else Filter(s[..n], keep)
  }

  predicate AllPairs(s: seq<Entry>, rel: (Entry, Entry) -> bool) {
    forall x, y :: 0 <= x < y < |s| ==> rel(s[x], s[y])
  }

  predicate KeptPairs(s: seq<Entry>, keep: Entry -> bool, rel: (Entry, Entry) -> bool) {
    forall x, y :: 0 <= x < y < |s| && keep(s[x]) && keep(s[y]) ==> rel(s[x], s[y])
  }

  /** An order that holds between all pairs of kept entries holds on the filtered list. */
  lemma {:induction false} FilterKeepsOrder(s: seq<Entry>, keep: Entry -> bool, rel: (Entry, Entry) -> bool)
    requires KeptPairs(s, keep, rel)
    ensures AllPairs(Filter(s, keep), rel)
  {
    if s == [] {
    } else {
      var n := |s| - 1;
      FilterKeepsOrder(s[..n], keep, rel);
      if keep(s[n]) {
        LastIsRelated(s, Filter(s[..n], keep), keep, rel);
        OnePairMore(Filter(s[..n], keep), s[n], rel);
      }
    }
  }

  lemma LastIsRelated(s: seq<Entry>, r: seq<Entry>, keep: Entry -> bool, rel: (Entry, Entry) -> bool)
    requires s != [] && keep(s[|s| - 1]) && KeptPairs(s, keep, rel)
    requires forall x :: 0 <= x < |r| ==> keep(r[x]) && r[x] in s[..|s| - 1]
    ensures forall x :: 0 <= x < |r| ==> rel(r[x], s[|s| - 1])
  {
    forall x | 0 <= x < |r| ensures rel(r[x], s[|s| - 1]) {
      var y :| 0 <= y < |s| - 1 && s[..|s| - 1][y] == r[x];
      assert s[y] == r[x];
    }
  }

  lemma OnePairMore(r: seq<Entry>, e: Entry, rel: (Entry, Entry) -> bool)
    requires AllPairs(r, rel) && forall x :: 0 <= x < |r| ==> rel(r[x], e)
    ensures AllPairs(r + [e], rel)
  {
  }

  lemma FilterOneMore(o: seq<Entry>, i: nat, keep: Entry -> bool)
    requires i < |o|
    ensures Filter(o[..i + 1], keep) == Filter(o[..i], keep) + if keep(o[i]) then [o[i]] else []
  {
    assert o[..i + 1][..i] == o[..i];
  }

  lemma SwapToFront(s: seq<Entry>, i: nat, count: nat)
    requires count <= i < |s|
    ensures var s' := s[i := s[count]][count := s[i]];
            s'[..count + 1] == s[..count] + [s[i]] && s'[i + 1..] == s[i + 1..]
  {
  }

  lemma NextOf(s: seq<Entry>, o: seq<Entry>, i: nat)
    requires |s| == |o| && i < |s| && s[i..] == o[i..]
    ensures s[i] == o[i] && s[i + 1..] == o[i + 1..]
  {
    assert s[i] == s[i..][0] && o[i] == o[i..][0];
    assert s[i + 1..] == s[i..][1..] && o[i + 1..] == o[i..][1..];
  }

  /** Move the entries that satisfy `keep` to the front of mm[..size], in order, by swaps. */
  method MoveToFront(mm: array<Entry>, size: nat, keep: Entry -> bool) returns (count: nat)
    requires size <= mm.Length
    modifies mm
    ensures count <= size
    ensures mm[..count] == Filter(old(mm[..size]), keep)
    ensures mm[size..] == old(mm[size..])
    ensures multiset(mm[..]) == multiset(old(mm[..]))
  {
    count := 0;
    var i := 0;
    ghost var o := mm[..];
    while i < size
      invariant count <= i <= size
      invariant mm[..count] == Filter(o[..i], keep)
      invariant mm[i..] == o[i..]
      invariant multiset(mm[..]) == multiset(o)
    {
      ghost var s := mm[..];
      NextOf(s, o, i);
      FilterOneMore(o, i, keep);
      SwapToFront(s, i, count);
      if keep(mm[i]) {
        Swap(mm, i, count);
        count := count + 1;
      }
      assert mm[..count] == mm[..][..count] && mm[i + 1..] == mm[..][i + 1..];
      i := i + 1;
    }
  }

  // ----- Page alignment -----

  function Align(e: Entry): (r: Entry) {
    var end := Floor(e.End());
    var base := Ceil(e.base);
    e.(base := base, len := if end > base then end - base else 0)
  }

  /** Alignment keeps exactly the runs of pages that lie wholly inside the region. */
  lemma AlignKeepsRuns(e: Entry, lo: nat, len: nat)
    requires Aligned(lo) && Aligned(len) && len > 0
    ensures Align(e).Holds(lo, len) <==> e.Holds(lo, len)
  {
    AlignedSum(lo, len);
    RoundingIsTight(e.base, lo);
    RoundingIsTight(e.End(), lo + len);
  }

  lemma AlignedInside(e: Entry)
    ensures Aligned(Align(e).base) && Aligned(Align(e).len)
    ensures Align(e).len > 0 ==> e.base <= Align(e).base && Align(e).End() <= e.End()
  {
    RoundingIsTight(e.base, 0);
    RoundingIsTight(e.End(), 0);
    AlignedDifference(Floor(e.End()), Ceil(e.base));
  }

  lemma AlignedDifference(a: nat, b: nat)
    requires Aligned(a) && Aligned(b)
    ensures a > b ==> Aligned(a - b)
  {
    assert a - b == (a / PG_SZ - b / PG_SZ) * PG_SZ;
  }

  function AlignAll(s: seq<Entry>): (r: seq<Entry>) {
    seq(|s|, k requires 0 <= k < |s| => Align(s[k]))
  }

  method AlignInPlace(mm: array<Entry>, size: nat)
    requires size <= mm.Length
    modifies mm
    ensures mm[..size] == AlignAll(old(mm[..size]))
    ensures mm[size..] == old(mm[size..])
  {
    var i := 0;
    while i < size
      invariant i <= size
      invariant forall k :: 0 <= k < i ==> mm[k] == Align(old(mm[k]))
      invariant forall k :: i <= k < mm.Length ==> mm[k] == old(mm[k])
    {
      var region := mm[i];
      var end := Floor(region.base + region.len);
      var base := Ceil(region.base);
      mm[i] := region.(base := base, len := if end > base then end - base else 0);
      i := i + 1;
    }
  }

  // ----- The whole normalisation -----

  predicate IsUsable(e: Entry) { e.kind == USABLE }
  predicate IsNonEmpty(e: Entry) { e.len > 0 }
  predicate InOrder(x: Entry, y: Entry) { x.base <= y.base && !x.Hits(y) }
  predicate Before(x: Entry, y: Entry) { x.End() <= y.base }

  /** Usable regions as the allocators see them: page-aligned, ascending and disjoint. */
  predicate Regions(r: seq<Entry>) {
    && (forall k :: 0 <= k < |r| ==> Aligned(r[k].base) && Aligned(r[k].len))
    && (forall x, y :: 0 <= x < y < |r| ==> Before(r[x], r[y]))
  }

  /** [lo, lo+len) lies wholly inside one of the regions. */
  predicate HasRun(r: seq<Entry>, lo: nat, len: nat) {
    exists k :: 0 <= k < |r| && r[k].Holds(lo, len)
  }

  /** Page number `page` belongs to one of the regions. */
  predicate HasPage(r: seq<Entry>, page: nat) { HasRun(r, page * PG_SZ, PG_SZ) }

  /** [lo, lo+len) may be handed out according to a boot memory map: it lies wholly inside one usable
      region and touches no bootloader region. */
  predicate RunOfMap(mm: seq<Entry>, lo: nat, len: nat) {
    Held(mm, lo, len) && ClearOfBoot(mm, |mm|, lo, len)
  }

  /** The pages the kernel may hand out according to a boot memory map. */
  predicate PageOfMap(mm: seq<Entry>, page: nat) { RunOfMap(mm, page * PG_SZ, PG_SZ) }

  /** The regions are not empty, and what lies in one of them is exactly what the map allows: not only
      their pages are those of the map, but also which pages form one region. */
  ghost predicate NormalForm(r: seq<Entry>, o: seq<Entry>) {
    && Regions(r) && NonEmpty(r)
    && forall lo: nat, len: nat {:trigger HasRun(r, lo, len)} ::
         Aligned(lo) && Aligned(len) && len > 0 ==> (HasRun(r, lo, len) <==> RunOfMap(o, lo, len))
  }

  lemma NormalFormPages(r: seq<Entry>, o: seq<Entry>)
    requires NormalForm(r, o)
    ensures forall page: nat :: HasPage(r, page) <==> PageOfMap(o, page)
  {
    forall page: nat ensures HasPage(r, page) <==> PageOfMap(o, page) {
      assert HasRun(r, page * PG_SZ, PG_SZ) <==> RunOfMap(o, page * PG_SZ, PG_SZ);
    }
  }

  predicate SameRange(x: Entry, y: Entry) { x.base == y.base && x.len == y.len }

  ghost predicate HasRange(r: seq<Entry>, e: Entry) { exists x :: 0 <= x < |r| && SameRange(e, r[x]) }

  /** Every region of r is a region of r'. */
  ghost predicate RangesOf(r: seq<Entry>, r': seq<Entry>) {
    forall k {:trigger HasRange(r', r[k])} :: 0 <= k < |r| ==> HasRange(r', r[k])
  }

  ghost predicate NonEmpty(r: seq<Entry>) { forall k :: 0 <= k < |r| ==> r[k].len > 0 }

  lemma RegionHolding(r: seq<Entry>, o: seq<Entry>, e: Entry) returns (x: nat)
    requires NormalForm(r, o) && Aligned(e.base) && Aligned(e.len) && e.len > 0 && RunOfMap(o, e.base, e.len)
    ensures x < |r| && r[x].Holds(e.base, e.len)
  {
    assert HasRun(r, e.base, e.len);
    x :| 0 <= x < |r| && r[x].Holds(e.base, e.len);
  }

  lemma OwnRun(r: seq<Entry>, o: seq<Entry>, k: nat)
    requires NormalForm(r, o) && k < |r|
    ensures RunOfMap(o, r[k].base, r[k].len)
  {
    assert r[k].Holds(r[k].base, r[k].len);
    assert HasRun(r, r[k].base, r[k].len);
  }

  lemma FormsShareRanges(r: seq<Entry>, r': seq<Entry>, o: seq<Entry>)
    requires NormalForm(r, o) && NormalForm(r', o)
    ensures RangesOf(r, r')
  {
    forall k | 0 <= k < |r| ensures HasRange(r', r[k]) {
      OwnRun(r, o, k);
      var x := RegionHolding(r', o, r[k]);
      OwnRun(r', o, x);
      var y := RegionHolding(r, o, r'[x]);
      assert y < k ==> Before(r[y], r[k]);
      assert k < y ==> Before(r[k], r[y]);
      assert SameRange(r[k], r'[x]);
    }
  }

  lemma RangeAt(r: seq<Entry>, r': seq<Entry>, k: nat) returns (x: nat)
    requires RangesOf(r, r') && k < |r|
    ensures x < |r'| && SameRange(r[k], r'[x])
  {
    assert HasRange(r', r[k]);
    x :| 0 <= x < |r'| && SameRange(r[k], r'[x]);
  }

  /** Ascending lists with the same ranges are the same. */
  lemma {:induction false} SameRangesInOrder(r: seq<Entry>, r': seq<Entry>)
    requires Regions(r) && Regions(r') && RangesOf(r, r') && RangesOf(r', r) && NonEmpty(r) && NonEmpty(r')
    ensures |r| == |r'| && forall k :: 0 <= k < |r| ==> SameRange(r[k], r'[k])
    decreases |r|
  {
    if r == [] {
      if r' != [] { var _ := RangeAt(r', r, 0); }
    } else {
      var n, m := |r| - 1, |r'| - 1;
      LastIsLast(r, r');
      FrontRanges(r, r');
      FrontRanges(r', r);
      SameRangesInOrder(r[..n], r'[..m]);
      assert forall k :: 0 <= k < n ==> SameRange(r[..n][k], r'[..m][k]);
    }
  }

  lemma LastIsLast(r: seq<Entry>, r': seq<Entry>)
    requires Regions(r) && Regions(r') && RangesOf(r, r') && RangesOf(r', r) && NonEmpty(r) && NonEmpty(r') && r != []
    ensures r' != [] && SameRange(r[|r| - 1], r'[|r'| - 1])
  {
    var n, m := |r| - 1, |r'| - 1;
    var x := RangeAt(r, r', n);
    var y := RangeAt(r', r, m);
    assert x < m ==> Before(r'[x], r'[m]);
    assert y < n ==> Before(r[y], r[n]);
  }

  lemma FrontRanges(r: seq<Entry>, r': seq<Entry>)
    requires Regions(r) && RangesOf(r, r') && NonEmpty(r) && r != [] && r' != [] && SameRange(r[|r| - 1], r'[|r'| - 1])
    ensures RangesOf(r[..|r| - 1], r'[..|r'| - 1])
  {
    var f, g := r[..|r| - 1], r'[..|r'| - 1];
    forall k | 0 <= k < |f| ensures HasRange(g, f[k]) {
      var x := RangeAt(r, r', k);
      assert Before(r[k], r[|r| - 1]);
      assert SameRange(f[k], g[x]);
    }
  }

  /** The map determines the regions. */
  lemma NormalFormIsUnique(r: seq<Entry>, r': seq<Entry>, o: seq<Entry>)
    requires NormalForm(r, o) && NormalForm(r', o)
    ensures |r| == |r'| && forall k :: 0 <= k < |r| ==> SameRange(r[k], r'[k])
  {
    FormsShareRanges(r, r', o);
    FormsShareRanges(r', r, o);
    SameRangesInOrder(r, r');
  }

  function Normalized(sorted: seq<Entry>): (r: seq<Entry>) {
    Filter(AlignAll(Filter(sorted, IsUsable)), IsNonEmpty)
  }

  lemma NormalizedIsOrdered(s: seq<Entry>)
    requires SortedByBase(s) && AllSeparate(s)
    ensures Regions(Normalized(s))
    ensures forall k :: 0 <= k < |Normalized(s)| ==> Normalized(s)[k].len > 0
  {
    FilterKeepsOrder(s, IsUsable, InOrder);
    var u := Filter(s, IsUsable);
    var a := AlignAll(u);
    forall x, y | 0 <= x < y < |a| && IsNonEmpty(a[x]) && IsNonEmpty(a[y])
      ensures Before(a[x], a[y])
    {
      AlignedInside(u[x]);
      AlignedInside(u[y]);
      assert AllPairs(u, InOrder);
      assert InOrder(u[x], u[y]);
    }
    FilterKeepsOrder(a, IsNonEmpty, Before);
    var r := Normalized(s);
    forall k | 0 <= k < |r| ensures Aligned(r[k].base) && Aligned(r[k].len) {
      var x :| 0 <= x < |a| && a[x] == r[k];
      AlignedInside(u[x]);
    }
  }

  lemma NormalizedUsable(s: seq<Entry>)
    ensures forall k :: 0 <= k < |Normalized(s)| ==> Normalized(s)[k].kind == USABLE
  {
    var u := Filter(s, IsUsable);
    var a := AlignAll(u);
    forall k | 0 <= k < |Normalized(s)| ensures Normalized(s)[k].kind == USABLE {
      var x :| 0 <= x < |a| && a[x] == Normalized(s)[k];
      assert a[x].kind == u[x].kind;
    }
  }

  lemma NormalizedRuns(s: seq<Entry>, lo: nat, len: nat)
    requires Aligned(lo) && Aligned(len) && len > 0
    ensures HasRun(Normalized(s), lo, len) <==> Held(s, lo, len)
  {
    var u := Filter(s, IsUsable);
    var a := AlignAll(u);
    var r := Normalized(s);
    if HasRun(r, lo, len) {
      var k :| 0 <= k < |r| && r[k].Holds(lo, len);
      var x :| 0 <= x < |a| && a[x] == r[k];
      AlignKeepsRuns(u[x], lo, len);
      assert u[x] in s;
    }
    if Held(s, lo, len) {
      var k :| 0 <= k < |s| && s[k].kind == USABLE && s[k].Holds(lo, len);
      assert s[k] in u;
      var x :| 0 <= x < |u| && u[x] == s[k];
      AlignKeepsRuns(u[x], lo, len);
      assert a[x] in a;
    }
  }

  /** `sorted` is a split and sorted form of the map o from which the usable regions can be read off. */
  ghost predicate SortedForm(sorted: seq<Entry>, o: seq<Entry>) {
    && |sorted| == |o|
    && SameReclaimable(sorted, o)
    && AllSeparate(sorted)
    && NormalForm(Normalized(sorted), o)
  }

  lemma SplitSameReclaimable(split: seq<Entry>, o: seq<Entry>)
    requires SplitSoFar(split, o, |o|)
    ensures SameReclaimable(split, o)
  {
    forall e: Entry | e.kind == RECLAIMABLE ensures e in split <==> e in o {
      if e in split {
        var k :| 0 <= k < |split| && split[k] == e;
        assert o[k] == e;
      }
      if e in o {
        var k :| 0 <= k < |o| && o[k] == e;
        assert split[k] == e;
      }
    }
  }

  lemma RearrangedSameReclaimable(s: seq<Entry>, t: seq<Entry>)
    requires multiset(s) == multiset(t)
    ensures SameReclaimable(s, t)
  {
    forall e: Entry ensures e in s <==> e in t {
      assert e in s <==> e in multiset(s);
      assert e in t <==> e in multiset(t);
    }
  }

  lemma SplitThenSorted(o: seq<Entry>, split: seq<Entry>, sorted: seq<Entry>)
    requires SplitSoFar(split, o, |o|) && |sorted| == |o|
    requires multiset(split) == multiset(sorted) && SortedByBase(sorted)
    ensures SortedForm(sorted, o)
  {
    SplitAllSeparate(split);
    RearrangedSeparate(split, sorted);
    SplitSameReclaimable(split, o);
    RearrangedSameReclaimable(split, sorted);
    NormalizedIsOrdered(sorted);
    forall lo: nat, len: nat | Aligned(lo) && Aligned(len) && len > 0
      ensures HasRun(Normalized(sorted), lo, len) <==> RunOfMap(o, lo, len)
    {
      NormalizedRuns(sorted, lo, len);
      if Held(split, lo, len) { RearrangedHeld(split, sorted, lo, len); }
      if Held(sorted, lo, len) { RearrangedHeld(sorted, split, lo, len); }
    }
  }

  /** Each neighbouring pair passes the check. */
  ghost predicate NeighboursPass(s: seq<Entry>) {
    forall i :: 1 <= i < |s| ==> Separate(s[i - 1], s[i])
  }

  lemma {:induction false} EndsBefore(s: seq<Entry>, x: nat, y: nat)
    requires SortedByBase(s) && NeighboursPass(s) && x < y < |s|
    requires forall k :: 0 <= k < |s| ==> s[k].len > 0 && s[k].kind != RECLAIMABLE
    ensures Before(s[x], s[y])
    decreases y - x
  {
    assert Separate(s[y - 1], s[y]) && s[y - 1].base <= s[y].base;
    if x + 1 == y {
    } else {
      EndsBefore(s, x, y - 1);
    }
  }

  /** In a sorted map of non-empty entries, none of them reclaimable, the check over neighbours finds
      every clash. */
  lemma NeighboursSuffice(s: seq<Entry>)
    requires SortedByBase(s)
    requires forall k :: 0 <= k < |s| ==> s[k].len > 0 && s[k].kind != RECLAIMABLE
    ensures NeighboursPass(s) <==> AllSeparate(s)
  {
    if NeighboursPass(s) {
      forall x, y | 0 <= x < y < |s| ensures Separate(s[x], s[y]) { EndsBefore(s, x, y); }
    }
  }

  /** A reclaimable entry between two usable ones that overlap hides them from the check. */
  lemma ReclaimableHidesClash()
    ensures var s := [Entry(0, 100, USABLE, 0), Entry(10, 10, RECLAIMABLE, 0), Entry(50, 10, USABLE, 0)];
            SortedByBase(s) && NeighboursPass(s) && !Separate(s[0], s[2])
  {
  }

  /** So does an empty entry. */
  lemma EmptyEntryHidesClash()
    ensures var s := [Entry(0, 100, USABLE, 0), Entry(0, 0, USABLE, 0), Entry(50, 10, USABLE, 0)];
            SortedByBase(s) && NeighboursPass(s) && !Separate(s[0], s[2])
  {
  }

  /** The loop that asserts that no neighbouring regions overlap, as a test. */
  method NeighboursSeparate(mm: array<Entry>) returns (ok: bool)
    ensures ok <==> forall i :: 1 <= i < mm.Length ==> Separate(mm[i - 1], mm[i])
  {
    var i := 1;
    while i < mm.Length
      invariant 1 <= i
      invariant forall k :: 1 <= k < i && k < mm.Length ==> Separate(mm[k - 1], mm[k])
    {
      if !(|| !mm[i - 1].Hits(mm[i])
           || (mm[i - 1].kind == RECLAIMABLE && mm[i].kind == USABLE)
           || (mm[i - 1].kind == USABLE && mm[i].kind == RECLAIMABLE)) {
        return false;
      }
      i := i + 1;
    }
    return true;
  }

  method SplitAndSort(mm: array<Entry>)
    requires WellFormed(mm[..])
    modifies mm
    ensures SortedForm(mm[..], old(mm[..]))
  {
    ghost var o := mm[..];
    SplitAroundBootloader(mm);
    ghost var split := mm[..];
    SortByBase(mm);
    SplitThenSorted(o, split, mm[..]);
    var ok := NeighboursSeparate(mm);
    assert ok;
  }

  /** Keep the usable regions, page-align them and drop the empty ones, all in place. */
  method Compact(mm: array<Entry>) returns (count: nat)
    modifies mm
    ensures count <= mm.Length
    ensures mm[..count] == Normalized(old(mm[..]))
    ensures SameReclaimable(mm[..], old(mm[..]))
  {
    ghost var sorted := mm[..];
    assert sorted == sorted[..mm.Length];
    var usable := MoveToFront(mm, mm.Length, IsUsable);
    ghost var front := mm[..];
    AlignInPlace(mm, usable);
    ghost var aligned := mm[..];
    AlignedSameReclaimable(front, aligned, usable);
    count := MoveToFront(mm, usable, IsNonEmpty);
    RearrangedSameReclaimable(sorted, front);
    RearrangedSameReclaimable(aligned, mm[..]);
  }

  lemma AlignedSameReclaimable(s: seq<Entry>, t: seq<Entry>, n: nat)
    requires |s| == |t| && n <= |s| && t[..n] == AlignAll(s[..n]) && t[n..] == s[n..]
    requires forall k :: 0 <= k < n ==> s[..n][k].kind == USABLE
    ensures SameReclaimable(s, t)
  {
    forall k | 0 <= k < |s| ensures if k < n then s[k].kind == USABLE == t[k].kind else s[k] == t[k] {
      if k < n {
        assert s[k] == s[..n][k] && t[k] == t[..n][k];
      } else {
        assert s[k] == s[n..][k - n] && t[k] == t[n..][k - n];
      }
    }
  }

  /** `normalize_mm`.  The result is mm[..count]. */
  method NormalizeMm(mm: array<Entry>) returns (count: nat)
    requires WellFormed(mm[..])
    modifies mm
    ensures count <= mm.Length
    ensures NormalForm(mm[..count], old(mm[..]))
    ensures forall k :: 0 <= k < count ==> mm[k].kind == USABLE
    ensures SameReclaimable(mm[..], old(mm[..]))
  {
    SplitAndSort(mm);
    ghost var sorted := mm[..];
    count := Compact(mm);
    NormalizedUsable(sorted);
    assert forall k :: 0 <= k < count ==> mm[k] == mm[..count][k];
  }

  // ----- Carving the frame table out of the first region that fits it -----

  const HHDM_START: nat := 0xC000_0000
  const HHDM_LEN: nat := 0x4000_0000 - 0x0240_0000
  const DESCRIPTOR_SZ: nat := 64

  function MemLimit(r: seq<Entry>): (limit: nat)
    requires r != []
  {
    r[|r| - 1].End()
  }

  /** The size of the frame table in whole pages. */
  function TableBytes(r: seq<Entry>): (n: nat)
    requires r != []
  {
    Ceil(MemLimit(r) / PG_SZ * DESCRIPTOR_SZ)
  }

  /** The size as it is computed from the memory limit, in 32 bits. */
  function TableBytes32(limit: nat): nat {
    Ceil(limit / PG_SZ % WORD * DESCRIPTOR_SZ % WORD) % WORD
  }

  lemma TableBytes32Aligned(limit: nat)
    ensures Aligned(TableBytes32(limit))
  {
    var bytes := limit / PG_SZ % WORD * DESCRIPTOR_SZ % WORD;
    RoundingIsTight(bytes, 0);
    AlignedMod(Ceil(bytes));
  }

  const MEM_MAX: nat := 0x40_0000_0000 - 64 * PG_SZ  // 256 GiB less 64 pages

  /** A size rounded up in 32 bits is right iff it fits below the last page. */
  lemma RoundsRightIff(bytes: nat)
    ensures Ceil(bytes) < WORD <==> bytes <= WORD - PG_SZ
  {
    RoundingIsTight(bytes, WORD - PG_SZ);
    assert Ceil(bytes) < WORD <==> Ceil(bytes) <= WORD - PG_SZ;
  }

  lemma TableBytesOf(pages: nat)
    ensures Ceil(pages % WORD * DESCRIPTOR_SZ % WORD) % WORD == Ceil(pages * DESCRIPTOR_SZ) <==> pages * PG_SZ <= MEM_MAX
  {
    RoundsRightIff(pages * DESCRIPTOR_SZ);
    assert pages * DESCRIPTOR_SZ <= WORD - PG_SZ <==> pages * PG_SZ <= MEM_MAX;
    if pages * PG_SZ <= MEM_MAX {
      assert pages % WORD == pages;
    }
  }

  /** The computed size is that of the table iff memory ends below 256 GiB less 64 pages, and else smaller. */
  lemma TableSizeIsRightIff(r: seq<Entry>)
    requires r != [] && Aligned(MemLimit(r))
    ensures TableBytes32(MemLimit(r)) == TableBytes(r) <==> MemLimit(r) <= MEM_MAX
    ensures TableBytes32(MemLimit(r)) < TableBytes(r) <==> MemLimit(r) > MEM_MAX
  {
    assert MemLimit(r) == MemLimit(r) / PG_SZ * PG_SZ;
    TableBytesOf(MemLimit(r) / PG_SZ);
    RoundsRightIff(MemLimit(r) / PG_SZ * DESCRIPTOR_SZ);
  }

  predicate IsFirstFit(r: seq<Entry>, n: nat, k: nat) {
    k < |r| && r[k].len >= n && forall x :: 0 <= x < k ==> r[x].len < n
  }

  function Carve(r: seq<Entry>, k: nat, n: nat): (r': seq<Entry>)
    requires k < |r| && n <= r[k].len
  {
    r[k := r[k].(base := r[k].base + n, len := r[k].len - n)]
  }

  function TotalBytes(r: seq<Entry>): nat {
    if r == [] then 0 else r[|r| - 1].len + TotalBytes(r[..|r| - 1])
  }

  lemma {:induction false} CarveBytes(r: seq<Entry>, k: nat, n: nat)
    requires k < |r| && n <= r[k].len
    ensures TotalBytes(Carve(r, k, n)) == TotalBytes(r) - n
  {
    var m := |r| - 1;
    var c := Carve(r, k, n);
    if k == m {
      assert c[..m] == r[..m];
    } else {
      CarveBytes(r[..m], k, n);
      assert c[..m] == Carve(r[..m], k, n);
    }
  }

  lemma CarvedPageWasThere(r: seq<Entry>, k: nat, n: nat, page: nat)
    requires Regions(r) && k < |r| && n <= r[k].len && HasPage(Carve(r, k, n), page)
    ensures HasPage(r, page) && !Overlaps(r[k].base, n, page * PG_SZ, PG_SZ)
  {
    var c := Carve(r, k, n);
    var x :| 0 <= x < |c| && c[x].Holds(page * PG_SZ, PG_SZ);
    assert r[x].Holds(page * PG_SZ, PG_SZ);
    assert x < k ==> Before(r[x], r[k]);
    assert k < x ==> Before(r[k], r[x]);
  }

  lemma PageOutsideCutStays(r: seq<Entry>, k: nat, n: nat, page: nat)
    requires k < |r| && n <= r[k].len && HasPage(r, page) && !Overlaps(r[k].base, n, page * PG_SZ, PG_SZ)
    ensures HasPage(Carve(r, k, n), page)
  {
    var x :| 0 <= x < |r| && r[x].Holds(page * PG_SZ, PG_SZ);
    assert Carve(r, k, n)[x].Holds(page * PG_SZ, PG_SZ);
  }

  lemma CarvedInOrder(r: seq<Entry>, k: nat, n: nat)
    requires Regions(r) && k < |r| && n <= r[k].len && Aligned(n)
    ensures Regions(Carve(r, k, n)) && MemLimit(Carve(r, k, n)) == MemLimit(r)
  {
    AlignedSum(r[k].base, n);
    if r[k].len > n { AlignedDifference(r[k].len, n); }
    var c := Carve(r, k, n);
    forall x, y | 0 <= x < y < |c| ensures Before(c[x], c[y]) { assert Before(r[x], r[y]); }
  }

  /** Carving keeps order, alignment and the memory limit, and takes away exactly the pages
      of the first n bytes of region k. */
  lemma CarveKeepsRegions(r: seq<Entry>, k: nat, n: nat)
    requires Regions(r) && k < |r| && n <= r[k].len && Aligned(n)
    ensures Regions(Carve(r, k, n)) && MemLimit(Carve(r, k, n)) == MemLimit(r)
    ensures forall page: nat :: HasPage(Carve(r, k, n), page) <==>
              HasPage(r, page) && !Overlaps(r[k].base, n, page * PG_SZ, PG_SZ)
  {
    CarvedInOrder(r, k, n);
    forall page: nat
      ensures HasPage(Carve(r, k, n), page) <==> HasPage(r, page) && !Overlaps(r[k].base, n, page * PG_SZ, PG_SZ)
    {
      if HasPage(Carve(r, k, n), page) { CarvedPageWasThere(r, k, n, page); }
      if HasPage(r, page) && !Overlaps(r[k].base, n, page * PG_SZ, PG_SZ) { PageOutsideCutStays(r, k, n, page); }
    }
  }

  /** A page that is left to be handed out lies within a whole table at the place chosen for it. */
  ghost predicate TableMeetsPage(r: seq<Entry>, k: nat, n: nat)
    requires k < |r| && n <= r[k].len
  {
    exists page: nat :: HasPage(Carve(r, k, n), page) && Overlaps(r[k].base, TableBytes(r), page * PG_SZ, PG_SZ)
  }

  /** If too few bytes are set aside, this is so iff the region has more of them, or the next region begins
      before the end of the table. */
  lemma ShortTableMeetsPageIff(r: seq<Entry>, k: nat, n: nat)
    requires Regions(r) && NonEmpty(r) && k < |r| && n <= r[k].len && Aligned(n) && n < TableBytes(r)
    ensures TableMeetsPage(r, k, n) <==> r[k].len > n || (k + 1 < |r| && r[k + 1].base < r[k].base + TableBytes(r))
  {
    var c := Carve(r, k, n);
    CarvedInOrder(r, k, n);
    if r[k].len > n {
      FirstPageOf(c, k);
    } else if k + 1 < |r| && r[k + 1].base < r[k].base + TableBytes(r) {
      FirstPageOf(c, k + 1);
    } else {
      forall page: nat | HasPage(c, page) ensures !Overlaps(r[k].base, TableBytes(r), page * PG_SZ, PG_SZ) {
        var x :| 0 <= x < |c| && c[x].Holds(page * PG_SZ, PG_SZ);
        assert x < k ==> Before(r[x], r[k]);
        assert k + 1 < x ==> Before(r[k + 1], r[x]);
      }
    }
  }

  lemma FirstPageOf(r: seq<Entry>, k: nat)
    requires Regions(r) && k < |r| && r[k].len > 0
    ensures HasPage(r, r[k].base / PG_SZ) && r[k].base / PG_SZ * PG_SZ == r[k].base
  {
    assert r[k].Holds(r[k].base / PG_SZ * PG_SZ, PG_SZ);
  }

  /** With usable memory from 1 MiB to 256 GiB the size comes out as zero: nothing is set aside, and the
      descriptors lie over the first page that is left to be handed out. */
  lemma TableOverHandedOutMemory()
    ensures var r := [Entry(0x10_0000, 0x40_0000_0000 - 0x10_0000, USABLE, 0)];
            && WellFormed(r) && Regions(r) && NonEmpty(r) && TableBytes32(MemLimit(r)) == 0 && IsFirstFit(r, 0, 0)
            && TableMeetsPage(r, 0, 0)
  {
    var r := [Entry(0x10_0000, 0x40_0000_0000 - 0x10_0000, USABLE, 0)];
    assert MemLimit(r) == 0x40_0000_0000;
    ShortTableMeetsPageIff(r, 0, 0);
  }

  /** With two pages, one of them beyond 256 GiB, the table gets one page instead of a million, and meets none that is
      handed out. */
  lemma ShortTableMeetsNoPage()
    ensures var r := [Entry(0x10_0000, PG_SZ, USABLE, 0), Entry(0x40_0003_F000, PG_SZ, USABLE, 0)];
            && WellFormed(r) && Regions(r) && NonEmpty(r) && TableBytes32(MemLimit(r)) == PG_SZ < TableBytes(r)
            && IsFirstFit(r, PG_SZ, 0) && !TableMeetsPage(r, 0, PG_SZ)
  {
    var r := [Entry(0x10_0000, PG_SZ, USABLE, 0), Entry(0x40_0003_F000, PG_SZ, USABLE, 0)];
    assert MemLimit(r) == 0x40_0004_0000;
    assert TableBytes(r) == 0x1_0000_1000;
    ShortTableMeetsPageIff(r, 0, PG_SZ);
  }

  datatype PftResult = Placed(base: nat, pages: nat) | Panic

  /** The first region that holds n bytes lies in directly mapped memory, as the assertions demand. */
  ghost predicate Placeable(r: seq<Entry>, n: nat, k: nat) {
    IsFirstFit(r, n, k) && r[k].base < HHDM_LEN && r[k].base + n <= HHDM_LEN
  }

  /** `alloc_pft` on the usable regions mm[..count].  `Panic` stands for a failed ASSERT: no
      region is large enough, or the first one that is does not lie in the directly mapped
      part of physical memory. */
  method AllocPft(mm: array<Entry>, count: nat) returns (r: PftResult)
    requires 0 < count <= mm.Length && Regions(mm[..count])
    modifies mm
    ensures mm[count..] == old(mm[count..])
    ensures r.Panic? ==> mm[..] == old(mm[..])
    ensures r.Panic? <==> forall k: nat :: !Placeable(old(mm[..count]), TableBytes32(MemLimit(old(mm[..count]))), k)
    ensures r.Placed? ==>
              var o := old(mm[..count]);
              var n := TableBytes32(MemLimit(o));
              && r.pages == MemLimit(o) / PG_SZ % WORD
              && exists k: nat :: Placeable(o, n, k) && mm[..count] == Carve(o, k, n) && r.base == o[k].base
  {
    ghost var o := mm[..count];
    var limit := mm[count - 1].base + mm[count - 1].len;
    assert Aligned(o[count - 1].base) && Aligned(o[count - 1].len);
    AlignedSum(mm[count - 1].base, mm[count - 1].len);
    var pages := limit / PG_SZ % WORD;
    var padded := Ceil(pages * DESCRIPTOR_SZ % WORD) % WORD;
    assert padded == TableBytes32(MemLimit(o));
    var i := 0;
    while i < count
      invariant i <= count
      invariant mm[..] == old(mm[..])
      invariant forall x :: 0 <= x < i ==> o[x].len < padded
    {
      if mm[i].len >= padded {
        assert IsFirstFit(o, padded, i);
        assert forall k: nat :: IsFirstFit(o, padded, k) ==> k == i;
        var base := mm[i].base;
        if base >= HHDM_LEN || base + padded > HHDM_LEN {
          return Panic;
        }
        assert Placeable(o, padded, i);
        mm[i] := mm[i].(base := base + padded, len := mm[i].len - padded);
        assert mm[..count] == Carve(o, i, padded);
        return Placed(base, pages);
      }
      i := i + 1;
    }
    return Panic;
  }

  lemma AlignedSum(a: nat, b: nat)
    requires Aligned(a) && Aligned(b)
    ensures Aligned(a + b)
  {
  }
}
