/** The sequential kernel heap on top of the frame allocator (src/kernel/mm/kmalloc.cc). */
module Kmalloc {
  import opened PageMath
  import opened FrameTable
  import opened FrameAllocator
  import opened Sequences

  datatype Block = Block(addr: nat, size: nat)

  /** The block lies in the direct map of physical memory. */
  predicate InDirectMap(b: Block) {
    HHDM_START <= b.addr && b.addr + b.size <= HHDM_START + HHDM_LEN
  }

  /** The whole block lies in directly mapped frames of the table that are allocated. */
  ghost predicate InOwnedFrames(t: seq<Frame>, b: Block) {
    forall a: nat {:trigger OwnedByte(t, a)} :: InRange(a, b.addr, b.size) ==> OwnedByte(t, a)
  }

  predicate OwnedByte(t: seq<Frame>, a: nat) {
    HHDM_START <= a < HHDM_START + HHDM_LEN && (a - HHDM_START) / PG_SZ < |t| && t[(a - HHDM_START) / PG_SZ].taken
  }

  predicate Disjoint(b: Block, c: Block) {
    b.addr + b.size <= c.addr || c.addr + c.size <= b.addr
  }

  /** The test for fresh frames, computed in 32 bits. */
  predicate NeedsFrames(arena: nat, sz: nat) {
    arena == 0 || (arena % PG_SZ + sz) % WORD > PG_SZ
  }

  /** The test says whether the block fits in the rest of the page iff the sum does not wrap. */
  lemma FrameTestIsExactUnlessItWraps(arena: nat, sz: nat)
    requires sz < WORD
    ensures (NeedsFrames(arena, sz) <==> arena == 0 || arena % PG_SZ + sz > PG_SZ)
            <==> (arena == 0 || arena % PG_SZ + sz < WORD)
  {
  }

  // ----- Ownership -----

  lemma ByteInRun(p: nat, n: nat, a: nat)
    requires HHDM_START + p * PG_SZ <= a < HHDM_START + (p + n) * PG_SZ
    ensures p <= (a - HHDM_START) / PG_SZ < p + n
  {
  }

  lemma FreshBlock(t: seq<Frame>, p: nat, n: nat, c: Block)
    requires p + n <= |t| && c.size > 0 && forall k :: p <= k < p + n ==> t[k].Usable()
    requires HHDM_START + p * PG_SZ <= c.addr && c.addr + c.size <= HHDM_START + (p + n) * PG_SZ && InDirectMap(c)
    ensures InOwnedFrames(Mark(t, p, n, true), c)
    ensures forall b: Block :: b.size > 0 && InOwnedFrames(t, b) ==> Disjoint(b, c)
  {
    forall a: nat | InRange(a, c.addr, c.size) ensures OwnedByte(Mark(t, p, n, true), a) && !OwnedByte(t, a) {
      ByteInRun(p, n, a);
    }
    forall b: Block | b.size > 0 && InOwnedFrames(t, b) ensures Disjoint(b, c) {
      OverlapsIffCommonAddress(b.addr, b.size, c.addr, c.size);
    }
  }

  /** Owned blocks stay owned as long as their frames stay taken. */
  lemma OwnedStaysOwned(t: seq<Frame>, t': seq<Frame>, b: Block)
    requires InOwnedFrames(t, b) && |t| <= |t'|
    requires forall a: nat {:trigger OwnedByte(t, a)} :: InRange(a, b.addr, b.size) && OwnedByte(t, a) ==> OwnedByte(t', a)
    ensures InOwnedFrames(t', b)
  {
    forall a: nat | InRange(a, b.addr, b.size) ensures OwnedByte(t', a) { assert OwnedByte(t, a); }
  }

  /** Parts of a window are owned and stay clear of whatever the window is clear of. */
  lemma Shrink(t: seq<Frame>, w: Block, c: Block)
    requires InOwnedFrames(t, w) && w.addr <= c.addr && c.addr + c.size <= w.addr + w.size
    ensures InOwnedFrames(t, c)
    ensures forall b: Block :: Disjoint(b, w) ==> Disjoint(b, c)
  {
    forall a: nat | InRange(a, c.addr, c.size) ensures OwnedByte(t, a) {
      assert InRange(a, w.addr, w.size);
    }
  }

  // ----- The heap as a value -----

  /** w lies in owned frames and meets no block handed out. */
  ghost predicate Window(t: seq<Frame>, blocks: seq<Block>, w: Block) {
    && InOwnedFrames(t, w)
    && forall k :: 0 <= k < |blocks| ==> Disjoint(blocks[k], w)
  }

  /** All blocks handed out lie in owned frames, and are pairwise disjoint. */
  ghost predicate BlocksOk(t: seq<Frame>, blocks: seq<Block>) {
    && (forall k :: 0 <= k < |blocks| ==> blocks[k].size > 0 && InOwnedFrames(t, blocks[k]))
    && (forall x, y :: 0 <= x < y < |blocks| ==> Disjoint(blocks[x], blocks[y]))
  }

  /** What is left of the page that the arena points into is free. */
  ghost predicate ArenaOk(t: seq<Frame>, blocks: seq<Block>, arena: nat) {
    arena != 0 ==> !Aligned(arena) && Window(t, blocks, Block(arena, Ceil(arena) - arena))
  }

  /** The heap is undisturbed by others that take or free frames, as long as they leave the frames of
      its blocks and of its arena alone. */
  lemma OthersLeaveHeapAlone(t: seq<Frame>, t': seq<Frame>, blocks: seq<Block>, arena: nat)
    requires BlocksOk(t, blocks) && ArenaOk(t, blocks, arena) && |t| == |t'|
    requires forall k, a: nat {:trigger InRange(a, blocks[k].addr, blocks[k].size)} ::
               0 <= k < |blocks| && InRange(a, blocks[k].addr, blocks[k].size) ==> OwnedByte(t', a)
    requires forall a: nat {:trigger OwnedByte(t', a)} :: arena <= a < Ceil(arena) && arena != 0 ==> OwnedByte(t', a)
    ensures BlocksOk(t', blocks) && ArenaOk(t', blocks, arena)
  {
    forall k | 0 <= k < |blocks| ensures InOwnedFrames(t', blocks[k]) {
      forall a: nat | InRange(a, blocks[k].addr, blocks[k].size) ensures OwnedByte(t', a) { }
    }
    if arena != 0 {
      forall a: nat | InRange(a, arena, Ceil(arena) - arena) ensures OwnedByte(t', a) { }
    }
  }

  /** A block at the front of a window is a good block, and the rest stays a window. */
  lemma BlockFromWindow(t: seq<Frame>, blocks: seq<Block>, addr: nat, room: nat, sz: nat)
    requires BlocksOk(t, blocks) && Window(t, blocks, Block(addr, room)) && 0 < sz <= room && Aligned(addr + room)
    ensures BlocksOk(t, blocks + [Block(addr, sz)])
    ensures ArenaOk(t, blocks + [Block(addr, sz)], if Aligned(addr + sz) then 0 else addr + sz)
  {
    Shrink(t, Block(addr, room), Block(addr, sz));
    if !Aligned(addr + sz) {
      var arena := addr + sz;
      RoundingIsTight(arena, addr + room);
      Shrink(t, Block(addr, room), Block(arena, Ceil(arena) - arena));
    }
  }

  /** Fresh frames below the end of the direct map make a window. */
  lemma FreshWindow(t: seq<Frame>, blocks: seq<Block>, p: nat, n: nat)
    requires BlocksOk(t, blocks) && n > 0 && p + n <= |t| && (forall k :: p <= k < p + n ==> t[k].Usable())
    requires (p + n) * PG_SZ <= HHDM_LEN
    ensures Window(Mark(t, p, n, true), blocks, Block(HHDM_START + p * PG_SZ, n * PG_SZ))
  {
    FreshBlock(t, p, n, Block(HHDM_START + p * PG_SZ, n * PG_SZ));
  }

  lemma BlocksSurviveMark(t: seq<Frame>, blocks: seq<Block>, p: nat, n: nat)
    requires BlocksOk(t, blocks) && p + n <= |t|
    ensures BlocksOk(Mark(t, p, n, true), blocks)
  {
    forall k | 0 <= k < |blocks| ensures InOwnedFrames(Mark(t, p, n, true), blocks[k]) {
      OwnedStaysOwned(t, Mark(t, p, n, true), blocks[k]);
    }
  }

  /** A block of n pages at frame p lies in the direct map iff the frames do. */
  lemma BlockInDirectMapIff(p: nat, sz: nat)
    requires sz > 0
    ensures InDirectMap(Block(HHDM_START + p * PG_SZ, sz)) <==> (p + Ceil(sz) / PG_SZ) * PG_SZ <= HHDM_LEN
  {
    assert Ceil(sz) / PG_SZ * PG_SZ == Ceil(sz) && Aligned(HHDM_LEN);
    if p * PG_SZ <= HHDM_LEN {
      RoundingIsTight(sz, HHDM_LEN - p * PG_SZ);
    }
  }

  /** Two pages at the last frame of the direct map pass the assertion on their address and leave it. */
  lemma BlockLeavesDirectMap()
    ensures var p := HHDM_LEN / PG_SZ - 1;
            p * PG_SZ < HHDM_LEN && !InDirectMap(Block(HHDM_START + p * PG_SZ, 2 * PG_SZ))
  {
  }

  /** A size at which the frame test wraps is larger than the direct map. */
  lemma WrappedSizeIsTooLarge(arena: nat, sz: nat)
    requires arena >= HHDM_START && arena % PG_SZ + sz >= WORD
    ensures !InDirectMap(Block(arena, sz))
  {
  }

  /** The frames that a block of sz bytes takes. */
  function Pages(sz: nat): (n: nat)
    ensures n * PG_SZ == Ceil(sz) && sz <= Ceil(sz)
  {
    Ceil(sz) / PG_SZ
  }

  /** The arena after a block that ends at `end`, computed in 32 bits. */
  function ArenaAfter(end: nat): nat { if Aligned(end % WORD) then 0 else end % WORD }

  /** A block outside the direct map has a byte in no frame at all. */
  lemma OwnedIsMapped(t: seq<Frame>, b: Block)
    requires InOwnedFrames(t, b) && b.size > 0
    ensures InDirectMap(b)
  {
    assert OwnedByte(t, b.addr);
    assert OwnedByte(t, b.addr + b.size - 1);
  }

  /** A block put at the front of some room keeps the heap in order iff it lies in the direct map. */
  lemma BlockIsGoodIff(t: seq<Frame>, blocks: seq<Block>, start: nat, room: nat, sz: nat)
    requires BlocksOk(t, blocks) && sz > 0
    requires InDirectMap(Block(start, sz)) ==> Window(t, blocks, Block(start, room)) && sz <= room && Aligned(start + room)
    ensures BlocksOk(t, blocks + [Block(start, sz)]) && ArenaOk(t, blocks + [Block(start, sz)], ArenaAfter(start + sz))
            <==> InDirectMap(Block(start, sz))
  {
    if InDirectMap(Block(start, sz)) {
      BlockFromWindow(t, blocks, start, room, sz);
      assert (start + sz) % WORD == start + sz;
    } else if BlocksOk(t, blocks + [Block(start, sz)]) {
      assert (blocks + [Block(start, sz)])[|blocks|] == Block(start, sz);
      OwnedIsMapped(t, Block(start, sz));
    }
  }

  /** What is left of the arena's page has room for the block if no frames are needed, unless the test
      wraps, and then the block is larger than the direct map. */
  lemma RestOfPageHolds(arena: nat, sz: nat)
    requires arena >= HHDM_START && !Aligned(arena) && !NeedsFrames(arena, sz) && sz < WORD
    ensures Aligned(arena + (Ceil(arena) - arena))
    ensures InDirectMap(Block(arena, sz)) ==> sz <= Ceil(arena) - arena
  {
    RoundingIsTight(arena, 0);
    if arena % PG_SZ + sz >= WORD { WrappedSizeIsTooLarge(arena, sz); }
  }

  lemma AlignedBase(p: nat, n: nat)
    ensures Aligned(HHDM_START + p * PG_SZ) && Aligned(HHDM_START + p * PG_SZ + n * PG_SZ)
  {
    assert HHDM_START + p * PG_SZ == (0xC_0000 + p) * PG_SZ;
    assert HHDM_START + p * PG_SZ + n * PG_SZ == (0xC_0000 + p + n) * PG_SZ;
  }

  // ----- The heap -----

  /** The address of a block, no memory, or a failed assertion that the frames are directly mapped. */
  datatype Obtained = At(addr: nat) | NoMemory | NotMapped

  ghost function BlockOf(sz: nat, r: Obtained): seq<Block> { if r.At? && sz > 0 then [Block(r.addr, sz)] else [] }

  /** The same for a block at the front of the frames that it takes. */
  lemma FrameBlockIsGoodIff(t: seq<Frame>, blocks: seq<Block>, p: nat, sz: nat)
    requires BlocksOk(t, blocks)
    requires sz > 0 && (p + Pages(sz)) * PG_SZ <= HHDM_LEN ==> Window(t, blocks, Block(HHDM_START + p * PG_SZ, Pages(sz) * PG_SZ))
    ensures var addr := HHDM_START + p * PG_SZ;
            var after := blocks + BlockOf(sz, At(addr));
            BlocksOk(t, after) && ArenaOk(t, after, ArenaAfter(addr + sz)) <==> sz == 0 || InDirectMap(Block(addr, sz))
  {
    var addr := HHDM_START + p * PG_SZ;
    AlignedBase(p, Pages(sz));
    if sz > 0 {
      BlockInDirectMapIff(p, sz);
      BlockIsGoodIff(t, blocks, addr, Ceil(sz), sz);
    } else {
      assert blocks + BlockOf(sz, At(addr)) == blocks;
      AlignedMod(addr);
    }
  }

  /** The same for a block out of the rest of the arena's page. */
  lemma PageBlockIsGoodIff(t: seq<Frame>, blocks: seq<Block>, arena: nat, sz: nat)
    requires BlocksOk(t, blocks) && ArenaOk(t, blocks, arena) && !NeedsFrames(arena, sz) && sz < WORD
    ensures var after := blocks + BlockOf(sz, At(arena));
            BlocksOk(t, after) && ArenaOk(t, after, ArenaAfter(arena + sz)) <==> sz == 0 || InDirectMap(Block(arena, sz))
  {
    var room := Ceil(arena) - arena;
    RoundingIsTight(arena, 0);
    OwnedIsMapped(t, Block(arena, room));
    RestOfPageHolds(arena, sz);
    if sz > 0 {
      BlockIsGoodIff(t, blocks, arena, room, sz);
    } else {
      assert blocks + BlockOf(sz, At(arena)) == blocks && arena % WORD == arena;
    }
  }

  /** What a request changes: the descriptors, the arena pointer and the blocks handed out. */
  datatype State = State(table: seq<Frame>, arena: nat, blocks: seq<Block>)

  /** Frames at p, in [lo, hi), were taken for a block of sz bytes. */
  ghost predicate TakesFrames(s: State, lo: nat, hi: nat, sz: nat, p: nat, r: Obtained, s': State) {
    && lo <= p < hi && p + Pages(sz) <= |s.table| && (sz > 0 ==> Fits(s.table, lo, hi, Pages(sz), p))
    && s'.table == Mark(s.table, p, Pages(sz), true)
    && if p * PG_SZ >= HHDM_LEN then r.NotMapped? && s'.arena == s.arena
       else r == At(HHDM_START + p * PG_SZ) && s'.arena == ArenaAfter(r.addr + sz)
  }

  /** One request: from the rest of the page if it fits there, or else from fresh frames, unless no run of
      frames fits. */
  ghost predicate Steps(s: State, lo: nat, hi: nat, sz: nat, r: Obtained, s': State) {
    && s'.blocks == s.blocks + BlockOf(sz, r)
    && if !NeedsFrames(s.arena, sz) then r == At(s.arena) && s'.table == s.table && s'.arena == ArenaAfter(s.arena + sz)
       else if r.NoMemory? then s'.table == s.table && s'.arena == 0 && forall q: nat :: !Fits(s.table, lo, hi, Pages(sz), q)
       else exists p: nat :: TakesFrames(s, lo, hi, sz, p, r, s')
  }

  class Heap {
    const pfa: SimplePFA
    var arena: nat               // 0 stands for nullptr
    ghost var blocks: seq<Block> // every non-empty block handed out so far

    ghost predicate Valid()
      reads this, pfa, pfa.table
    {
      && pfa.Valid()
      && BlocksOk(pfa.table[..], blocks)
      && ArenaOk(pfa.table[..], blocks, arena)
    }

    ghost function S(): State
      reads this, pfa, pfa.table
    {
      State(pfa.table[..], arena, blocks)
    }

    constructor (pfa: SimplePFA)
      requires pfa.Valid()
      ensures Valid() && this.pfa == pfa && arena == 0 && blocks == []
    {
      this.pfa, arena, blocks := pfa, 0, [];
    }

    /** Point the arena at n fresh frames, or at nothing. */
    method Refill(n: nat) returns (r: Obtained, ghost p: nat)
      requires pfa.Valid() && BlocksOk(pfa.table[..], blocks)
      modifies this`arena, pfa`needle, pfa`alloced, pfa.table
      ensures r.NoMemory? ==> n > 0 && pfa.Valid() && arena == 0 && pfa.table[..] == old(pfa.table[..])
                              && forall q: nat :: !Fits(old(pfa.table[..]), pfa.lo, pfa.hi, n, q)
      ensures !r.NoMemory? ==> pfa.lo <= p < pfa.hi && n <= pfa.hi - pfa.lo
      ensures !r.NoMemory? ==> (r.NotMapped? <==> p * PG_SZ >= HHDM_LEN)
      ensures r.NotMapped? ==> arena == old(arena)
      ensures r.At? ==> arena == r.addr == HHDM_START + p * PG_SZ
      ensures !r.NoMemory? && !pfa.WrapsAt(p, n) ==>
                && (if n == 0 then p == old(pfa.needle) else IsNextFit(old(pfa.table[..]), pfa.lo, pfa.hi, old(pfa.needle), n, p))
                && pfa.Valid() && pfa.table[..] == Mark(old(pfa.table[..]), p, n, true)
                && BlocksOk(pfa.table[..], blocks)
      ensures r.At? && !pfa.WrapsAt(p, n) && n > 0 && (p + n) * PG_SZ <= HHDM_LEN ==>
                Window(pfa.table[..], blocks, Block(arena, n * PG_SZ))
    {
      ghost var t := pfa.table[..];
      var frame := pfa.Alloc(n);
      p := 0;
      if frame.None? {
        arena := 0;
        return NoMemory, p;
      }
      p := frame.value;
      if !pfa.WrapsAt(p, n) {
        assert n == 0 ==> pfa.table[..] == Mark(t, p, n, true);
        BlocksSurviveMark(t, blocks, p, n);
        if n > 0 && (p + n) * PG_SZ <= HHDM_LEN {
          FreshWindow(t, blocks, p, n);
        }
      }
      if frame.value * PG_SZ >= HHDM_LEN {
        return NotMapped, p;
      }
      arena := frame.value * PG_SZ + HHDM_START;
      return At(arena), p;
    }

    /** Take sz bytes at the arena pointer. */
    method Bump(sz: nat) returns (obj: nat)
      modifies this
      ensures obj == old(arena) && arena == ArenaAfter(obj + sz)
      ensures blocks == old(blocks) + BlockOf(sz, At(obj))
    {
      obj := arena;
      arena := (arena + sz) % WORD;
      if Aligned(arena) {
        arena := 0;
      }
      if sz > 0 {
        blocks := blocks + [Block(obj, sz)];
      }
    }

    /** The block comes out of what is left of the arena's page. */
    method FromPage(sz: nat) returns (obj: nat)
      requires Valid() && sz < WORD && !NeedsFrames(arena, sz)
      modifies this
      ensures obj == old(arena) && blocks == old(blocks) + BlockOf(sz, At(obj)) && arena == ArenaAfter(obj + sz)
      ensures Valid() <==> sz == 0 || InDirectMap(Block(obj, sz))
    {
      PageBlockIsGoodIff(pfa.table[..], blocks, arena, sz);
      obj := Bump(sz);
    }

    /** The request got the frames at p untested, as the end of their run wraps. */
    ghost predicate Untested(r: Obtained, sz: nat, p: nat) { !r.NoMemory? && pfa.WrapsAt(p, Pages(sz)) }

    /** `kmalloc`.  If frames are needed, p is where the allocator found them. */
    method Kmalloc(sz: nat) returns (r: Obtained, ghost p: nat)
      requires Valid() && sz < WORD
      modifies this, pfa`needle, pfa`alloced, pfa.table
      ensures !NeedsFrames(old(arena), sz) ==> Steps(old(S()), pfa.lo, pfa.hi, sz, r, S())
      ensures NeedsFrames(old(arena), sz) ==> FoundAt(r, p, sz)
      ensures NeedsFrames(old(arena), sz) && !Untested(r, sz, p) ==> Steps(old(S()), pfa.lo, pfa.hi, sz, r, S())
      ensures NeedsFrames(old(arena), sz) && !Untested(r, sz, p) && !r.NoMemory? && sz > 0 ==>
                IsNextFit(old(pfa.table[..]), pfa.lo, pfa.hi, old(pfa.needle), Pages(sz), p)
      ensures r.At? && PG_SZ <= sz <= WORD - PG_SZ ==> Aligned(r.addr)
      ensures blocks == old(blocks) + BlockOf(sz, r)
      ensures r.NoMemory? ==> Valid()
      ensures r.At? && (NeedsFrames(old(arena), sz) ==> !Untested(r, sz, p)) ==>
                (Valid() <==> sz == 0 || InDirectMap(Block(r.addr, sz)))
    {
      p := 0;
      if !NeedsFrames(arena, sz) {
        var obj := FromPage(sz);
        return At(obj), p;
      }
      r, p := FromFrames(sz);
    }

    /** Frames were found at p, in the range of the allocator; the address is theirs, unless the assertion that
        they are directly mapped fails. */
    ghost predicate FoundAt(r: Obtained, p: nat, sz: nat) {
      !r.NoMemory? ==>
        && pfa.lo <= p < pfa.hi && Pages(sz) <= pfa.hi - pfa.lo
        && (r.NotMapped? <==> p * PG_SZ >= HHDM_LEN)
        && (r.At? ==> r.addr == HHDM_START + p * PG_SZ && Aligned(r.addr))
        && (r.At? && sz > 0 ==> (InDirectMap(Block(r.addr, sz)) <==> (p + Pages(sz)) * PG_SZ <= HHDM_LEN))
    }

    /** The block comes at the front of fresh frames. */
    method FromFrames(sz: nat) returns (r: Obtained, ghost p: nat)
      requires pfa.Valid() && BlocksOk(pfa.table[..], blocks) && sz < WORD && NeedsFrames(arena, sz)
      modifies this, pfa`needle, pfa`alloced, pfa.table
      ensures FoundAt(r, p, sz)
      ensures r.NoMemory? ==> Steps(old(S()), pfa.lo, pfa.hi, sz, r, S()) && Valid()
      ensures !r.NoMemory? && !Untested(r, sz, p) ==> TakesFrames(old(S()), pfa.lo, pfa.hi, sz, p, r, S())
      ensures !Untested(r, sz, p) && !r.NoMemory? && sz > 0 ==>
                IsNextFit(old(pfa.table[..]), pfa.lo, pfa.hi, old(pfa.needle), Pages(sz), p)
      ensures blocks == old(blocks) + BlockOf(sz, r)
      ensures r.At? && !Untested(r, sz, p) ==> (Valid() <==> sz == 0 || InDirectMap(Block(r.addr, sz)))
    {
      r, p := Refill(Pages(sz));
      if !r.At? {
        return;
      }
      AlignedBase(p, Pages(sz));
      if sz > 0 { BlockInDirectMapIff(p, sz); }
      if !pfa.WrapsAt(p, Pages(sz)) { FrameBlockIsGoodIff(pfa.table[..], blocks, p, sz); }
      var obj := Bump(sz);
    }

    /** With room in the address space behind the frame table, no frames are granted untested. */
    method KmallocBelow(sz: nat) returns (r: Obtained)
      requires Valid() && sz < WORD && !pfa.MayWrap(pfa.hi - pfa.lo)
      modifies this, pfa`needle, pfa`alloced, pfa.table
      ensures Steps(old(S()), pfa.lo, pfa.hi, sz, r, S())
      ensures !r.NotMapped? ==> (Valid() <==> Serviced(sz, r))
    {
      ghost var p;
      r, p := Kmalloc(sz);
    }

    /** A run of requests, up to one at which the assertion fails or a block leaves the direct map: each is
        answered as `Steps` says, and as long as none of these happens, all blocks are disjoint and owned. */
    method KmallocRun(sizes: seq<nat>) returns (rs: seq<Obtained>, ghost ss: seq<State>)
      requires Valid() && !pfa.MayWrap(pfa.hi - pfa.lo) && forall i :: 0 <= i < |sizes| ==> sizes[i] < WORD
      modifies this, pfa`needle, pfa`alloced, pfa.table
      ensures Trace(ss, pfa.lo, pfa.hi, sizes, rs) && ss[0] == old(S()) && ss[|rs|] == S()
      ensures |rs| < |sizes| ==> !LastServiced(sizes, rs)
      ensures LastServiced(sizes, rs) ==> Valid()
    {
      rs, ss := [], [S()];
      while |rs| < |sizes|
        invariant Trace(ss, pfa.lo, pfa.hi, sizes, rs) && ss[0] == old(S()) && ss[|rs|] == S()
        invariant LastServiced(sizes, rs) && Valid()
        decreases |sizes| - |rs|
      {
        var r := KmallocBelow(sizes[|rs|]);
        TraceOneMore(ss, pfa.lo, pfa.hi, sizes, rs, r, S());
        rs, ss := rs + [r], ss + [S()];
        if !Serviced(sizes[|rs| - 1], r) {
          return;
        }
      }
    }
  }

  predicate LastServiced(sizes: seq<nat>, rs: seq<Obtained>)
    requires |rs| <= |sizes|
  {
    rs == [] || Serviced(sizes[|rs| - 1], rs[|rs| - 1])
  }

  /** The states that a run of requests goes through.  Only the last request may not have been serviced. */
  ghost predicate Trace(ss: seq<State>, lo: nat, hi: nat, sizes: seq<nat>, rs: seq<Obtained>) {
    && |rs| <= |sizes| && |ss| == |rs| + 1
    && (forall i: nat {:trigger StepAt(ss, lo, hi, sizes, rs, i)} :: i < |rs| ==> StepAt(ss, lo, hi, sizes, rs, i))
    && forall i :: 0 <= i < |rs| - 1 ==> Serviced(sizes[i], rs[i])
  }

  /** The i-th request of the run makes its step. */
  ghost predicate StepAt(ss: seq<State>, lo: nat, hi: nat, sizes: seq<nat>, rs: seq<Obtained>, i: nat)
    requires i < |rs| <= |sizes| && |ss| == |rs| + 1
  {
    Steps(ss[i], lo, hi, sizes[i], rs[i], ss[i + 1])
  }

  lemma TraceOneMore(ss: seq<State>, lo: nat, hi: nat, sizes: seq<nat>, rs: seq<Obtained>, r: Obtained, s: State)
    requires Trace(ss, lo, hi, sizes, rs) && |rs| < |sizes| && LastServiced(sizes, rs)
    requires Steps(ss[|rs|], lo, hi, sizes[|rs|], r, s)
    ensures Trace(ss + [s], lo, hi, sizes, rs + [r])
  {
    var rs', ss' := rs + [r], ss + [s];
    forall i: nat {:trigger StepAt(ss', lo, hi, sizes, rs', i)} | i < |rs'| ensures StepAt(ss', lo, hi, sizes, rs', i) {
      if i < |rs| {
        assert StepAt(ss, lo, hi, sizes, rs, i);
        assert rs'[i] == rs[i] && ss'[i] == ss[i] && ss'[i + 1] == ss[i + 1];
      }
    }
  }

  /** The request was answered without leaving the direct map. */
  predicate Serviced(sz: nat, r: Obtained) {
    r.NoMemory? || (r.At? && (sz == 0 || InDirectMap(Block(r.addr, sz))))
  }

  /** Two requests that fit into one page lie next to each other in it, and take no second run of frames. */
  lemma TwoShareAPage(s: State, t: State, u: State, lo: nat, hi: nat, a: nat, b: nat, r: Obtained, q: Obtained)
    requires Steps(s, lo, hi, a, r, t) && Steps(t, lo, hi, b, q, u) && r.At?
    requires HHDM_START <= r.addr < WORD && 0 < a && 0 < b && r.addr % PG_SZ + a + b <= PG_SZ
    ensures q == At(r.addr + a) && u.table == t.table
  {
    InOnePage(r.addr, a);
    assert t.arena == ArenaAfter(r.addr + a) == r.addr + a;
  }

  lemma InOnePage(addr: nat, a: nat)
    requires addr < WORD && 0 < a && addr % PG_SZ + a < PG_SZ
    ensures addr + a < WORD && !Aligned(addr + a) && (addr + a) % PG_SZ == addr % PG_SZ + a
  {
  }

  /** A request that fills its page up to the end leaves nothing: the next one gets fresh frames. */
  lemma FullPageLeavesNothing(s: State, t: State, lo: nat, hi: nat, a: nat, r: Obtained)
    requires Steps(s, lo, hi, a, r, t) && r.At? && r.addr + a < WORD && Aligned(r.addr + a)
    ensures t.arena == 0 && forall b: nat :: NeedsFrames(t.arena, b)
  {
  }

  /** The blocks that a run of requests was given. */
  ghost function Given(sizes: seq<nat>, rs: seq<Obtained>): seq<Block>
    requires |rs| <= |sizes|
  {
    if rs == [] then [] else Given(sizes, rs[..|rs| - 1]) + BlockOf(sizes[|rs| - 1], rs[|rs| - 1])
  }

  /** They are all those that the heap has handed out since. */
  lemma {:induction false} TraceGives(ss: seq<State>, lo: nat, hi: nat, sizes: seq<nat>, rs: seq<Obtained>, k: nat)
    requires Trace(ss, lo, hi, sizes, rs) && k <= |rs|
    ensures ss[k].blocks == ss[0].blocks + Given(sizes, rs[..k])
  {
    if k == 0 {
    } else {
      TraceGives(ss, lo, hi, sizes, rs, k - 1);
      assert StepAt(ss, lo, hi, sizes, rs, k - 1);
      assert rs[..k][..k - 1] == rs[..k - 1];
      Assoc(ss[0].blocks, Given(sizes, rs[..k - 1]), BlockOf(sizes[k - 1], rs[k - 1]));
    }
  }
}
