/** The double-ended queue over a circular array of blocks (src/kernel/nonstd/deque.h). */
module Deque {
  import opened Division
  import opened Options
  import opened PageMath

  // ----- Index arithmetic -----

  /** `get_block_elem_idx`: slot in the block array and position in the block. */
  function BlockElemIdx(idx: nat, startBlock: nat, blockCount: nat, epb: nat): (p: (nat, nat))
    requires blockCount > 0 && epb > 0
  {
    ((startBlock + idx / epb) % blockCount, idx % epb)
  }

  /** The block of an index, counting blocks off. */
  function Slot(idx: nat, epb: nat): nat
    requires epb > 0
  {
    if idx < epb then 0 else 1 + Slot(idx - epb, epb)
  }

  /** The position of an index in its block. */
  function Pos(idx: nat, epb: nat): (p: nat)
    requires epb > 0
    ensures p < epb
  {
    if idx < epb then idx else Pos(idx - epb, epb)
  }

  /** The number of cells of n blocks. */
  function Span(n: nat, epb: nat): nat { if n == 0 then 0 else Span(n - 1, epb) + epb }

  /** An index in a ring of n slots. */
  function Wrap(i: nat, n: nat): nat { if i < n then i else i - n }

  lemma SlotBack(idx: nat, epb: nat)
    requires epb > 0 && idx >= epb
    ensures Slot(idx, epb) == 1 + Slot(idx - epb, epb) && Pos(idx, epb) == Pos(idx - epb, epb)
  {
  }

  lemma {:induction false} SlotIsQuotient(idx: nat, epb: nat)
    requires epb > 0
    ensures Slot(idx, epb) == idx / epb && Pos(idx, epb) == idx % epb
    decreases idx
  {
    if idx < epb {
      DivMod(idx, epb, 0, idx);
    } else {
      SlotIsQuotient(idx - epb, epb);
      DivShift(idx - epb, epb);
    }
  }

  lemma {:induction false} SpanIsProduct(n: nat, epb: nat)
    ensures Span(n, epb) == epb * n
  {
    if n == 0 {
    } else {
      SpanIsProduct(n - 1, epb);
      assert epb * n == epb * (n - 1) + epb;
    }
  }

  lemma {:induction false} SpanAdds(m: nat, n: nat, epb: nat)
    ensures Span(m + n, epb) == Span(m, epb) + Span(n, epb)
    decreases n
  {
    if n == 0 {
    } else {
      SpanAdds(m, n - 1, epb);
    }
  }

  /** Slot and position say what the index is. */
  lemma {:induction false} Rejoin(idx: nat, epb: nat)
    requires epb > 0
    ensures idx == Span(Slot(idx, epb), epb) + Pos(idx, epb)
    decreases idx
  {
    if idx < epb {
    } else {
      Rejoin(idx - epb, epb);
    }
  }

  lemma {:induction false} SlotBound(idx: nat, epb: nat, r: nat)
    requires epb > 0
    ensures idx < Span(r, epb) <==> Slot(idx, epb) < r
    decreases r
  {
    if r == 0 {
    } else if idx < epb {
      assert Span(r, epb) >= epb;
    } else {
      SlotBound(idx - epb, epb, r - 1);
    }
  }

  /** The first index of a block. */
  lemma {:induction false} FirstOfBlock(r: nat, epb: nat)
    requires epb > 0
    ensures Slot(Span(r, epb), epb) == r && Pos(Span(r, epb), epb) == 0
  {
    if r == 0 {
    } else {
      FirstOfBlock(r - 1, epb);
    }
  }

  /** Within a block the slot does not change. */
  lemma {:induction false} SameSlot(idx: nat, epb: nat)
    requires epb > 0 && Pos(idx, epb) != 0
    ensures Slot(idx - 1, epb) == Slot(idx, epb)
    decreases idx
  {
    if idx < epb {
    } else {
      SameSlot(idx - epb, epb);
    }
  }

  lemma ResolvedIndex(idx: nat, start: nat, n: nat, epb: nat)
    requires epb > 0 && start < n && Slot(idx, epb) < n
    ensures BlockElemIdx(idx, start, n, epb) == (Wrap(start + Slot(idx, epb), n), Pos(idx, epb))
  {
    SlotIsQuotient(idx, epb);
    ModWrap(start + Slot(idx, epb), n);
  }

  // ----- The blocks in logical order -----

  type Block<T> = Option<seq<T>>

  /** The block array as seen from the leftmost block. */
  ghost function Unrolled<T>(blocks: seq<Block<T>>, start: nat): (l: seq<Block<T>>)
    requires start < |blocks|
    ensures |l| == |blocks|
  {
    blocks[start..] + blocks[..start]
  }

  lemma UnrolledAt<T>(blocks: seq<Block<T>>, start: nat, r: nat)
    requires start < |blocks| && r < |blocks|
    ensures Unrolled(blocks, start)[r] == blocks[Wrap(start + r, |blocks|)]
  {
  }

  lemma UnrolledUpdate<T>(blocks: seq<Block<T>>, start: nat, r: nat, b: Block<T>)
    requires start < |blocks| && r < |blocks|
    ensures Unrolled(blocks[Wrap(start + r, |blocks|) := b], start) == Unrolled(blocks, start)[r := b]
  {
  }

  /** Moving the start one slot back makes the last block the first one. */
  lemma UnrolledBack<T>(blocks: seq<Block<T>>, start: nat)
    requires start < |blocks|
    ensures var n, start' := |blocks|, Wrap(start + |blocks| - 1, |blocks|);
            && start' < n
            && Unrolled(blocks, start') == [Unrolled(blocks, start)[n - 1]] + Unrolled(blocks, start)[..n - 1]
  {
  }

  lemma PrependedSlot<T>(blocks: seq<Block<T>>, start: nat, b: seq<T>)
    requires start < |blocks|
    ensures var n, start' := |blocks|, Wrap(start + |blocks| - 1, |blocks|);
            && start' < n
            && Unrolled(blocks[start' := Some(b)], start') == [Some(b)] + Unrolled(blocks, start)[..n - 1]
  {
    UnrolledBack(blocks, start);
    UnrolledUpdate(blocks, Wrap(start + |blocks| - 1, |blocks|), 0, Some(b));
  }

  lemma UnrolledForward<T>(blocks: seq<Block<T>>, start: nat)
    requires start < |blocks|
    ensures var n, start' := |blocks|, Wrap(start + 1, |blocks|);
            && start' < n
            && Unrolled(blocks, start') == Unrolled(blocks, start)[1..] + [Unrolled(blocks, start)[0]]
  {
  }

  // ----- Cells -----

  /** Index idx resolves to a cell of an allocated block. */
  ghost predicate HasCell<T>(l: seq<Block<T>>, epb: nat, idx: nat)
    requires epb > 0
  {
    var r := Slot(idx, epb);
    r < |l| && l[r].Some? && Pos(idx, epb) < |l[r].value|
  }

  ghost function Cell<T>(l: seq<Block<T>>, epb: nat, idx: nat): T
    requires epb > 0 && HasCell(l, epb, idx)
  {
    l[Slot(idx, epb)].value[Pos(idx, epb)]
  }

  ghost predicate Blocks<T>(l: seq<Block<T>>, epb: nat) {
    forall r :: 0 <= r < |l| && l[r].Some? ==> |l[r].value| == epb
  }

  ghost predicate Backed<T>(l: seq<Block<T>>, epb: nat, n: nat)
    requires epb > 0
  {
    Blocks(l, epb) && forall idx: nat :: idx < n ==> HasCell(l, epb, idx)
  }

  ghost function Cells<T>(l: seq<Block<T>>, epb: nat, from: nat, size: nat): (s: seq<T>)
    requires epb > 0 && Backed(l, epb, from + size)
    ensures |s| == size && forall i :: 0 <= i < size ==> s[i] == Cell(l, epb, from + i)
  {
    seq(size, i requires 0 <= i < size => Cell(l, epb, from + i))
  }

  /** When the last cell is used up, every block is allocated. */
  lemma FullMeansAllBlocks<T>(l: seq<Block<T>>, epb: nat, n: nat)
    requires epb > 0 && Backed(l, epb, n) && l != [] && n > Span(|l| - 1, epb)
    ensures forall r :: 0 <= r < |l| ==> l[r].Some?
  {
    forall r | 0 <= r < |l| ensures l[r].Some? {
      SpanAdds(r, |l| - 1 - r, epb);
      FirstOfBlock(r, epb);
      assert HasCell(l, epb, Span(r, epb));
    }
  }

  /** Cells do not change when blocks are added behind them. */
  lemma AppendKeepsCells<T>(l: seq<Block<T>>, more: seq<Block<T>>, epb: nat, from: nat, size: nat)
    requires epb > 0 && Backed(l, epb, from + size) && forall r :: 0 <= r < |more| ==> more[r].None?
    ensures Backed(l + more, epb, from + size) && Cells(l + more, epb, from, size) == Cells(l, epb, from, size)
  {
    forall idx: nat | idx < from + size ensures HasCell(l + more, epb, idx) && Cell(l + more, epb, idx) == Cell(l, epb, idx) {
      assert HasCell(l, epb, idx);
    }
  }

  /** A block put in front shifts every cell by one block. */
  lemma PrependShiftsCell<T>(l: seq<Block<T>>, b: seq<T>, epb: nat, idx: nat)
    requires epb > 0 && l != [] && |b| == epb && HasCell(l, epb, idx) && idx < Span(|l| - 1, epb)
    ensures var l' := [Some(b)] + l[..|l| - 1];
            HasCell(l', epb, epb + idx) && Cell(l', epb, epb + idx) == Cell(l, epb, idx)
  {
    SlotBound(idx, epb, |l| - 1);
    assert Slot(epb + idx, epb) == 1 + Slot(idx, epb) && Pos(epb + idx, epb) == Pos(idx, epb);
  }

  lemma PrependShiftsCells<T>(l: seq<Block<T>>, b: seq<T>, epb: nat, size: nat)
    requires epb > 0 && Backed(l, epb, size) && l != [] && |b| == epb && size <= Span(|l| - 1, epb)
    ensures var l' := [Some(b)] + l[..|l| - 1];
            Backed(l', epb, epb + size) && Cells(l', epb, epb, size) == Cells(l, epb, 0, size)
  {
    var l' := [Some(b)] + l[..|l| - 1];
    forall idx: nat | idx < epb + size ensures HasCell(l', epb, idx) {
      if idx >= epb { PrependShiftsCell(l, b, epb, idx - epb); }
    }
    forall i: nat | i < size ensures Cell(l', epb, epb + i) == Cell(l, epb, i) {
      PrependShiftsCell(l, b, epb, i);
    }
  }

  /** Dropping the first block shifts every cell the other way. */
  lemma DropShiftsCells<T>(l: seq<Block<T>>, epb: nat, from: nat, size: nat)
    requires epb > 0 && Backed(l, epb, from + size) && l != [] && from >= epb
    ensures var l' := l[1..] + [None];
            Backed(l', epb, from - epb + size) && Cells(l', epb, from - epb, size) == Cells(l, epb, from, size)
  {
    var l' := l[1..] + [None];
    forall idx: nat | idx < from - epb + size ensures HasCell(l', epb, idx) && Cell(l', epb, idx) == Cell(l, epb, idx + epb) {
      assert HasCell(l, epb, idx + epb);
      assert Slot(idx + epb, epb) == 1 + Slot(idx, epb) && Pos(idx + epb, epb) == Pos(idx, epb);
    }
  }

  ghost function WriteAt<T>(l: seq<Block<T>>, epb: nat, at: nat, x: T): seq<Block<T>>
    requires epb > 0 && HasCell(l, epb, at)
  {
    l[Slot(at, epb) := Some(l[Slot(at, epb)].value[Pos(at, epb) := x])]
  }

  lemma WriteKeepsCell<T>(l: seq<Block<T>>, epb: nat, at: nat, x: T, idx: nat)
    requires epb > 0 && HasCell(l, epb, at) && HasCell(l, epb, idx) && idx != at
    ensures HasCell(WriteAt(l, epb, at, x), epb, idx) && Cell(WriteAt(l, epb, at, x), epb, idx) == Cell(l, epb, idx)
  {
    Rejoin(idx, epb);
    Rejoin(at, epb);
  }

  lemma WriteChangesOneCell<T>(l: seq<Block<T>>, epb: nat, n: nat, at: nat, x: T)
    requires epb > 0 && Backed(l, epb, n) && HasCell(l, epb, at)
    ensures Backed(WriteAt(l, epb, at, x), epb, n) && HasCell(WriteAt(l, epb, at, x), epb, at)
    ensures Cell(WriteAt(l, epb, at, x), epb, at) == x
    ensures forall idx: nat :: idx < n && idx != at ==> Cell(WriteAt(l, epb, at, x), epb, idx) == Cell(l, epb, idx)
  {
    forall idx: nat | idx < n && idx != at
      ensures HasCell(WriteAt(l, epb, at, x), epb, idx) && Cell(WriteAt(l, epb, at, x), epb, idx) == Cell(l, epb, idx)
    {
      WriteKeepsCell(l, epb, at, x, idx);
    }
  }

  /** The contents after a store behind the last element, or in front of the first. */
  lemma StoredBehind<T>(l: seq<Block<T>>, epb: nat, from: nat, size: nat, x: T)
    requires epb > 0 && Backed(l, epb, from + size + 1)
    ensures var l' := WriteAt(l, epb, from + size, x);
            Backed(l', epb, from + size + 1) && Cells(l', epb, from, size + 1) == Cells(l, epb, from, size) + [x]
  {
    assert HasCell(l, epb, from + size);
    WriteChangesOneCell(l, epb, from + size + 1, from + size, x);
  }

  lemma StoredInFront<T>(l: seq<Block<T>>, epb: nat, from: nat, size: nat, x: T)
    requires epb > 0 && Backed(l, epb, from + 1 + size)
    ensures var l' := WriteAt(l, epb, from, x);
            Backed(l', epb, from + 1 + size) && Cells(l', epb, from, size + 1) == [x] + Cells(l, epb, from + 1, size)
  {
    assert HasCell(l, epb, from);
    WriteChangesOneCell(l, epb, from + 1 + size, from, x);
  }

  lemma FreeKeepsCell<T>(l: seq<Block<T>>, epb: nat, idx: nat, r: nat)
    requires epb > 0 && HasCell(l, epb, idx) && r < |l| && idx < Span(r, epb)
    ensures HasCell(l[r := None], epb, idx) && Cell(l[r := None], epb, idx) == Cell(l, epb, idx)
  {
    SlotBound(idx, epb, r);
  }

  /** Freeing a block that holds no index below n changes no cell. */
  lemma FreeKeepsCells<T>(l: seq<Block<T>>, epb: nat, from: nat, size: nat, r: nat)
    requires epb > 0 && Backed(l, epb, from + size) && r < |l| && from + size <= Span(r, epb)
    ensures Backed(l[r := None], epb, from + size)
    ensures Cells(l[r := None], epb, from, size) == Cells(l, epb, from, size)
  {
    var l' := l[r := None];
    forall idx: nat | idx < from + size ensures HasCell(l', epb, idx) && Cell(l', epb, idx) == Cell(l, epb, idx) {
      FreeKeepsCell(l, epb, idx, r);
    }
  }

  lemma AllocateKeepsCell<T>(l: seq<Block<T>>, epb: nat, n: nat, b: seq<T>, idx: nat)
    requires epb > 0 && Slot(n, epb) < |l| && Pos(n, epb) == 0 && idx < n && HasCell(l, epb, idx)
    ensures var l' := l[Slot(n, epb) := Some(b)]; HasCell(l', epb, idx) && Cell(l', epb, idx) == Cell(l, epb, idx)
  {
    Rejoin(n, epb);
    SlotBound(idx, epb, Slot(n, epb));
  }

  /** Allocating the block at the end makes the next cell available. */
  lemma AllocateAtEnd<T>(l: seq<Block<T>>, epb: nat, from: nat, size: nat, b: seq<T>)
    requires epb > 0 && Backed(l, epb, from + size) && Slot(from + size, epb) < |l| && |b| == epb
    requires Pos(from + size, epb) == 0
    ensures var l' := l[Slot(from + size, epb) := Some(b)];
            Backed(l', epb, from + size + 1) && Cells(l', epb, from, size) == Cells(l, epb, from, size)
  {
    var n := from + size;
    var l' := l[Slot(n, epb) := Some(b)];
    forall idx: nat | idx < n ensures HasCell(l', epb, idx) && Cell(l', epb, idx) == Cell(l, epb, idx) {
      AllocateKeepsCell(l, epb, n, b, idx);
    }
    assert HasCell(l', epb, n);
  }

  /** Inside an allocated block the next cell is available already. */
  lemma NextCellInBlock<T>(l: seq<Block<T>>, epb: nat, n: nat)
    requires epb > 0 && Backed(l, epb, n) && Slot(n, epb) < |l|
    requires Pos(n, epb) == 0 ==> l[Slot(n, epb)].Some?
    ensures Backed(l, epb, n + 1)
  {
    if Pos(n, epb) != 0 {
      SameSlot(n, epb);
      assert HasCell(l, epb, n - 1);
    }
    assert HasCell(l, epb, n);
  }

  // ----- Which blocks are there -----

  /** The blocks that are there come first. */
  ghost predicate Packed<T>(l: seq<Block<T>>) {
    forall r, x :: 0 <= x < r < |l| && l[r].Some? ==> l[x].Some?
  }

  /** Exactly the first k blocks are there. */
  ghost predicate Exactly<T>(l: seq<Block<T>>, k: nat) {
    k <= |l| && forall r :: 0 <= r < |l| ==> (l[r].Some? <==> r < k)
  }

  /** The number of blocks that hold elements, if the first element is in the first block. */
  ghost function Needed(from: nat, size: nat, epb: nat): nat
    requires epb > 0
  {
    if size == 0 then 0 else Slot(from + size - 1, epb) + 1
  }

  lemma AllocatedIsPacked<T>(l: seq<Block<T>>, epb: nat, n: nat, b: seq<T>)
    requires epb > 0 && Backed(l, epb, n) && Slot(n, epb) < |l| && Pos(n, epb) == 0 && Packed(l)
    ensures Packed(l[Slot(n, epb) := Some(b)])
  {
    Rejoin(n, epb);
    BlocksBelow(l, epb, n, Slot(n, epb));
  }

  /** The blocks below an index that is a multiple of the block size are there if all indices below it have cells. */
  lemma BlocksBelow<T>(l: seq<Block<T>>, epb: nat, n: nat, k: nat)
    requires epb > 0 && Backed(l, epb, n) && Span(k, epb) <= n
    ensures k <= |l| && forall x :: 0 <= x < k ==> l[x].Some?
  {
    forall x: nat | x < k ensures x < |l| && l[x].Some? { BlockBelow(l, epb, n, k, x); }
    if k > 0 { BlockBelow(l, epb, n, k, k - 1); }
  }

  lemma BlockBelow<T>(l: seq<Block<T>>, epb: nat, n: nat, k: nat, x: nat)
    requires epb > 0 && Backed(l, epb, n) && Span(k, epb) <= n && x < k
    ensures x < |l| && l[x].Some?
  {
    SpanAdds(x, k - x, epb);
    assert Span(k - x, epb) >= epb;
    FirstOfBlock(x, epb);
    assert HasCell(l, epb, Span(x, epb));
  }

  /** The blocks up to that of the last index in use are there. */
  lemma UsedBlocks<T>(l: seq<Block<T>>, epb: nat, n: nat)
    requires epb > 0 && Backed(l, epb, n) && n > 0
    ensures Slot(n - 1, epb) < |l| && forall x :: 0 <= x <= Slot(n - 1, epb) ==> l[x].Some?
  {
    Rejoin(n - 1, epb);
    BlocksBelow(l, epb, n, Slot(n - 1, epb));
    assert HasCell(l, epb, n - 1);
  }

  /** The blocks from a to b are gone. */
  ghost function Emptied<T>(l: seq<Block<T>>, a: nat, b: nat): (e: seq<Block<T>>)
    ensures |e| == |l| && forall k :: 0 <= k < |l| ==> e[k] == if a <= k < b then None else l[k]
  {
    seq(|l|, k requires 0 <= k < |l| => if a <= k < b then None else l[k])
  }

  /** The first t blocks are gone, and the others have moved up. */
  ghost function Shifted<T>(l: seq<Block<T>>, t: nat): (e: seq<Block<T>>)
    requires t <= |l|
    ensures |e| == |l| && forall k :: 0 <= k < |l| ==> e[k] == if k + t < |l| then l[k + t] else None
  {
    seq(|l|, k requires 0 <= k < |l| => if k + t < |l| then l[k + t] else None)
  }

  lemma ShiftedOnce<T>(l: seq<Block<T>>, t: nat)
    requires t < |l|
    ensures Shifted(l, t)[1..] + [None] == Shifted(l, t + 1)
  {
  }

  lemma EmptiedOnce<T>(l: seq<Block<T>>, a: nat, b: nat)
    requires a <= b < |l|
    ensures Emptied(l, a, b)[b := None] == Emptied(l, a, b + 1)
  {
  }

  lemma NothingBehind<T>(l: seq<Block<T>>, a: nat, b: nat)
    requires Packed(l) && a <= b <= |l| && (b < |l| ==> l[b].None?)
    ensures Emptied(l, a, b) == Emptied(l, a, |l|)
  {
  }

  /** Where the first loop of `shrink_to_fit` begins to free in a queue at index 0 without elements: the last index
      wraps around. */
  ghost function WrappedStart(epb: nat, n: nat): nat
    requires epb > 0 && n > 0
  {
    ((WORD - 1) / epb + 1) % n
  }

  /** A queue of 16 blocks of 128 elements that has been emptied from the back: the loop begins at the first block, and so
      frees nothing. */
  lemma EmptyQueueFreesNothing()
    ensures WrappedStart(128, 16) == 0
  {
  }

  const MIN_BLOCK_COUNT: nat := 16

  class Deque<T(0)> {
    const epb: nat        // elements per block
    var blocks: seq<Block<T>>
    var startBlock: nat
    var startIdx: nat
    var size: nat

    ghost predicate Valid()
      reads this
    {
      && epb > 0 && startBlock < |blocks|
      && Backed(Unrolled(blocks, startBlock), epb, startIdx + size)
      && startIdx + size <= Span(|blocks|, epb)
    }

    /** The blocks in logical order. */
    ghost function L(): seq<Block<T>>
      reads this
      requires startBlock < |blocks|
    {
      Unrolled(blocks, startBlock)
    }

    ghost function Contents(): (s: seq<T>)
      reads this
      requires Valid()
      ensures |s| == size
    {
      Cells(Unrolled(blocks, startBlock), epb, startIdx, size)
    }

    constructor (epb: nat)
      requires epb > 0
      ensures Valid() && this.epb == epb && Contents() == [] && Packed(L())
    {
      this.epb, startBlock, startIdx, size := epb, 0, 0, 0;
      blocks := seq(MIN_BLOCK_COUNT, _ => None);
    }

    /** `operator[]`. */
    method At(pos: nat) returns (x: T)
      requires Valid() && pos < size
      ensures x == Contents()[pos]
    {
      assert HasCell(Unrolled(blocks, startBlock), epb, startIdx + pos);
      UnrolledAt(blocks, startBlock, Slot(startIdx + pos, epb));
      ResolvedIndex(startIdx + pos, startBlock, |blocks|, epb);
      var p := BlockElemIdx(startIdx + pos, startBlock, |blocks|, epb);
      x := blocks[p.0].value[p.1];
    }

    /** Double the block array, unwrapping the ring. */
    method ReallocBlocks()
      requires Valid() && startIdx + size > Span(|blocks| - 1, epb)
      modifies this`blocks, this`startBlock
      ensures Valid() && Contents() == old(Contents())
      ensures |blocks| == 2 * old(|blocks|) && startBlock == 0 && Packed(L())
    {
      ghost var l := Unrolled(blocks, startBlock);
      FullMeansAllBlocks(l, epb, startIdx + size);
      var n := |blocks|;
      var moved := Unwrap(blocks, startBlock);
      var more: seq<Block<T>> := seq(n, _ => None);
      AppendKeepsCells(l, more, epb, startIdx, size);
      SpanAdds(n, n, epb);
      blocks := moved + more;
      startBlock := 0;
      assert Unrolled(blocks, 0) == l + more;
    }

    method NewBlock() returns (b: seq<T>)
      ensures |b| == epb
    {
      var raw := new T[epb];
      b := raw[..];
    }

    /** `allocate_block(false)`, first half: make sure there is a slot for the next index. */
    method RoomAtEnd()
      requires Valid()
      modifies this`blocks, this`startBlock
      ensures Valid() && Contents() == old(Contents())
      ensures startIdx + size < Span(|blocks|, epb)
      ensures Packed(old(L())) ==> Packed(L())
    {
      SpanIsProduct(|blocks|, epb);
      if startIdx + size >= epb * |blocks| {
        SpanAdds(|blocks|, |blocks|, epb);
        ReallocBlocks();
      }
    }

    /** `allocate_block(false)`: a block for the index one past the last element. */
    method AllocateEnd()
      requires Valid() && Pos(startIdx + size, epb) == 0
      modifies this`blocks, this`startBlock
      ensures Valid() && Contents() == old(Contents())
      ensures Backed(Unrolled(blocks, startBlock), epb, startIdx + size + 1)
      ensures startIdx + size + 1 <= Span(|blocks|, epb)
      ensures Packed(old(L())) ==> Packed(L())
    {
      RoomAtEnd();
      var end := startIdx + size;
      SlotBound(end, epb, |blocks|);
      ResolvedIndex(end, startBlock, |blocks|, epb);
      UnrolledAt(blocks, startBlock, Slot(end, epb));
      var p := BlockElemIdx(end, startBlock, |blocks|, epb);
      ghost var l := Unrolled(blocks, startBlock);
      if p.1 == 0 && blocks[p.0].None? {
        var b := NewBlock();
        UnrolledUpdate(blocks, startBlock, Slot(end, epb), Some(b));
        AllocateAtEnd(l, epb, startIdx, size, b);
        if Packed(l) { AllocatedIsPacked(l, epb, end, b); }
        blocks := blocks[p.0 := Some(b)];
      } else {
        NextCellInBlock(l, epb, end);
      }
    }

    /** `allocate_block(true)`, first half: make sure the slot in front is not in use. */
    method RoomAtStart()
      requires Valid() && startIdx == 0
      modifies this`blocks, this`startBlock
      ensures Valid() && Contents() == old(Contents())
      ensures size <= Span(|blocks| - 1, epb)
      ensures Packed(old(L())) ==> Packed(L())
    {
      SpanIsProduct(|blocks| - 1, epb);
      if size > epb * (|blocks| - 1) {
        SpanAdds(|blocks|, |blocks| - 1, epb);
        ReallocBlocks();
      }
    }

    /** `allocate_block(true)` followed by the reset of `start_idx`: a block in front of the first
        element.  A block left over in that slot is overwritten. */
    method AllocateStart()
      requires Valid() && startIdx == 0
      modifies this`blocks, this`startBlock, this`startIdx
      ensures Valid() && Contents() == old(Contents()) && startIdx == epb
      ensures Packed(old(L())) ==> Packed(L())
    {
      RoomAtStart();
      var n := |blocks|;
      ghost var l := Unrolled(blocks, startBlock);
      var b := NewBlock();
      PrependShiftsCells(l, b, epb, size);
      PrependedSlot(blocks, startBlock, b);
      ModWrap(startBlock + n - 1, n);
      startBlock := (startBlock + n - 1) % n;
      blocks := blocks[startBlock := Some(b)];
      startIdx := epb;
    }

    /** Construct x in the cell at idx, whose block must be there. */
    method Store(idx: nat, x: T)
      requires epb > 0 && startBlock < |blocks| && HasCell(Unrolled(blocks, startBlock), epb, idx)
      modifies this`blocks
      ensures |blocks| == old(|blocks|)
      ensures Unrolled(blocks, startBlock) == WriteAt(old(Unrolled(blocks, startBlock)), epb, idx, x)
      ensures Packed(old(L())) ==> Packed(L())
    {
      UnrolledAt(blocks, startBlock, Slot(idx, epb));
      ResolvedIndex(idx, startBlock, |blocks|, epb);
      var p := BlockElemIdx(idx, startBlock, |blocks|, epb);
      var b := blocks[p.0].value[p.1 := x];
      UnrolledUpdate(blocks, startBlock, Slot(idx, epb), Some(b));
      blocks := blocks[p.0 := Some(b)];
    }

    /** `emplace` at the end, first half: the next cell is there. */
    method CellAtEnd()
      requires Valid()
      modifies this`blocks, this`startBlock
      ensures Valid() && Contents() == old(Contents())
      ensures Backed(Unrolled(blocks, startBlock), epb, startIdx + size + 1)
      ensures startIdx + size + 1 <= Span(|blocks|, epb)
      ensures Packed(old(L())) ==> Packed(L())
    {
      SlotIsQuotient(startIdx + size, epb);
      if (startIdx + size) % epb == 0 {
        AllocateEnd();
      } else {
        LastBlockGoesOn(startIdx + size, epb, |blocks|);
        NextCellInBlock(Unrolled(blocks, startBlock), epb, startIdx + size);
      }
    }

    /** `emplace` at the end, which is also where an empty queue is filled from. */
    method EmplaceBack(x: T)
      requires Valid()
      modifies this
      ensures Valid() && Contents() == old(Contents()) + [x]
      ensures Packed(old(L())) ==> Packed(L())
    {
      CellAtEnd();
      StoredBehind(Unrolled(blocks, startBlock), epb, startIdx, size, x);
      assert HasCell(Unrolled(blocks, startBlock), epb, startIdx + size);
      Store(startIdx + size, x);
      size := size + 1;
    }

    /** `emplace` before the first element of a queue that is not empty. */
    method EmplaceFront(x: T)
      requires Valid() && size > 0
      modifies this
      ensures Valid() && Contents() == [x] + old(Contents())
      ensures Packed(old(L())) ==> Packed(L())
    {
      if startIdx == 0 {
        AllocateStart();
      }
      startIdx := startIdx - 1;
      StoredInFront(Unrolled(blocks, startBlock), epb, startIdx, size, x);
      assert HasCell(Unrolled(blocks, startBlock), epb, startIdx);
      Store(startIdx, x);
      size := size + 1;
    }

    /** `push_front`: on an empty queue begin() is end(), and the first branch is taken. */
    method PushFront(x: T)
      requires Valid()
      modifies this
      ensures Valid() && Contents() == [x] + old(Contents())
      ensures Packed(old(L())) ==> Packed(L())
    {
      if size == 0 {
        EmplaceBack(x);
      } else {
        EmplaceFront(x);
      }
    }

    /** `erase` of the first or the last element.  Erasing elsewhere is not supported. */
    method Erase(pos: nat)
      requires Valid() && size > 0 && (pos == 0 || pos == size - 1)
      modifies this`startIdx, this`size
      ensures Valid() && Contents() == old(Contents())[..pos] + old(Contents())[pos + 1..]
      ensures startIdx == if pos == 0 then old(startIdx) + 1 else old(startIdx)
    {
      ghost var before := Contents();
      if pos == 0 {
        startIdx := startIdx + 1;
      }
      size := size - 1;
      assert Contents() == before[..pos] + before[pos + 1..];
    }

    /** `clear`: erase the first element until none is left. */
    method Clear()
      requires Valid()
      modifies this`startIdx, this`size
      ensures Valid() && Contents() == []
      ensures startIdx + size == old(startIdx + size)
    {
      while size > 0
        invariant Valid() && startIdx + size == old(startIdx + size)
      {
        Erase(0);
      }
    }

    /** Free a slot, which is the r-th from the start and holds no element. */
    method FreeSlot(slot: nat, ghost r: nat)
      requires Valid() && r < |blocks| && slot == Wrap(startBlock + r, |blocks|)
      requires startIdx + size <= Span(r, epb)
      modifies this`blocks
      ensures Valid() && Contents() == old(Contents())
      ensures blocks == old(blocks)[slot := None]
    {
      UnrolledUpdate(blocks, startBlock, r, None);
      FreeKeepsCells(Unrolled(blocks, startBlock), epb, startIdx, size, r);
      blocks := blocks[slot := None];
    }

    /** First loop of `shrink_to_fit`: free the blocks behind the last element.  The index of the
        last element is computed in 32 bits, so an empty queue at index 0 starts elsewhere. */
    method FreeBehind() returns (ghost from: nat)
      requires Valid() && epb * |blocks| < WORD
      modifies this`blocks
      ensures Valid() && Contents() == old(Contents()) && |blocks| == old(|blocks|)
      ensures from == if startIdx + size > 0 then Slot(startIdx + size - 1, epb) + 1 else WrappedStart(epb, |blocks|)
      ensures Packed(old(L())) ==> L() == if from == 0 then old(L()) else Emptied(old(L()), from, |blocks|)
    {
      var n := |blocks|;
      SpanIsProduct(n, epb);
      var last := (startIdx + size + WORD - 1) % WORD;
      var i := (startBlock + (last / epb + 1)) % n;
      from := FirstFreeSlot(startIdx + size, epb, n, startBlock, last);
      FreeOn(i, from);
    }

    /** The loop itself, from a slot at and behind which there is no element. */
    method FreeOn(slot: nat, ghost from: nat)
      requires Valid() && from <= |blocks| && slot == Wrap(startBlock + from, |blocks|) < |blocks| && startIdx + size <= Span(from, epb)
      modifies this`blocks
      ensures Valid() && Contents() == old(Contents()) && |blocks| == old(|blocks|)
      ensures Packed(old(L())) ==> L() == if from == 0 then old(L()) else Emptied(old(L()), from, |blocks|)
    {
      ghost var l, r := L(), from;
      var i := slot;
      NothingEmptied(l, from);
      while i != startBlock && blocks[i].Some?
        invariant Valid() && Contents() == old(Contents()) && |blocks| == |l|
        invariant from <= r <= |l| && startIdx + size <= Span(r, epb) && i == Wrap(startBlock + r, |l|) < |l|
        invariant L() == Emptied(l, from, r) && (from == 0 ==> r == 0)
        decreases |l| - r
      {
        FreeNext(i, r, l, from);
        ModWrap(i + 1, |blocks|);
        i := (i + 1) % |blocks|;
        r := r + 1;
      }
      if Packed(l) && from > 0 { StoppedBehind(blocks, startBlock, l, from, r); }
    }

    /** One turn of the first loop. */
    method FreeNext(i: nat, ghost r: nat, ghost l: seq<Block<T>>, ghost from: nat)
      requires Valid() && r < |blocks| == |l| && i == Wrap(startBlock + r, |blocks|) && startIdx + size <= Span(r, epb)
      requires from <= r && L() == Emptied(l, from, r)
      modifies this`blocks
      ensures Valid() && Contents() == old(Contents()) && |blocks| == old(|blocks|)
      ensures L() == Emptied(l, from, r + 1)
    {
      UnrolledUpdate(blocks, startBlock, r, None);
      EmptiedOnce(l, from, r);
      FreeSlot(i, r);
    }

    /** One turn of the second loop of `shrink_to_fit`: free the block in front. */
    method FreeFront()
      requires Valid() && startIdx >= epb
      modifies this`blocks, this`startBlock, this`startIdx
      ensures Valid() && Contents() == old(Contents()) && startIdx == old(startIdx) - epb
      ensures L() == old(L())[1..] + [None]
    {
      var n := |blocks|;
      ghost var l := Unrolled(blocks, startBlock);
      DropShiftsCells(l, epb, startIdx, size);
      UnrolledUpdate(blocks, startBlock, 0, None);
      UnrolledForward(blocks[startBlock := None], startBlock);
      assert l[0 := None][1..] + [None] == l[1..] + [None];
      ModWrap(startBlock + 1, n);
      blocks := blocks[startBlock := None];
      startIdx := startIdx - epb;
      startBlock := (startBlock + 1) % n;
    }

    /** That turn after t others. */
    method FreeNextInFront(ghost l: seq<Block<T>>, ghost t: nat)
      requires Valid() && startIdx >= epb && t < |l| == |blocks| && L() == Shifted(l, t)
      modifies this`blocks, this`startBlock, this`startIdx
      ensures Valid() && Contents() == old(Contents()) && |blocks| == |l| && startIdx == old(startIdx) - epb
      ensures L() == Shifted(l, t + 1)
    {
      ShiftedOnce(l, t);
      FreeFront();
    }

    /** Second loop of `shrink_to_fit`: free the blocks in front of the first element. */
    method FreeInFront() returns (ghost t: nat)
      requires Valid()
      modifies this`blocks, this`startBlock, this`startIdx
      ensures Valid() && Contents() == old(Contents()) && |blocks| == old(|blocks|)
      ensures t == Slot(old(startIdx), epb) <= |blocks| && startIdx == Pos(old(startIdx), epb) && L() == Shifted(old(L()), t)
    {
      ghost var l := L();
      t := 0;
      assert Shifted(l, 0) == l;
      FrontFits(startIdx, size, epb, |blocks|);
      while startIdx >= epb
        invariant Valid() && Contents() == old(Contents()) && |blocks| == old(|blocks|)
        invariant t + Slot(startIdx, epb) == Slot(old(startIdx), epb) <= |blocks| && Pos(startIdx, epb) == Pos(old(startIdx), epb)
        invariant L() == Shifted(l, t)
        decreases startIdx
      {
        SlotBack(startIdx, epb);
        FreeNextInFront(l, t);
        t := t + 1;
      }
    }

    /** The end of `shrink_to_fit`: an empty queue gives back its first block too. */
    method FreeEmpty()
      requires Valid() && startIdx < epb
      modifies this`blocks, this`startIdx
      ensures Valid() && Contents() == old(Contents()) && |blocks| == old(|blocks|)
      ensures startIdx == if size == 0 then 0 else old(startIdx)
      ensures size == 0 ==> blocks[startBlock].None?
      ensures L() == WithoutFirst(old(L()), size)
    {
      ghost var front := L();
      assert startIdx > 0 ==> HasCell(front, epb, 0);
      UnrolledAt(blocks, startBlock, 0);
      if size == 0 && blocks[startBlock].Some? {
        UnrolledUpdate(blocks, startBlock, 0, None);
        startIdx := 0;
        blocks := blocks[startBlock := None];
      }
    }

    /** `shrink_to_fit`.  Exactly the blocks that hold elements are left, unless the queue is empty at index 0, more than one
        block is there, and the wrapped index does not lead to the second one. */
    method ShrinkToFit()
      requires Valid() && epb * |blocks| < WORD
      modifies this
      ensures Valid() && Contents() == old(Contents()) && |blocks| == old(|blocks|)
      ensures startIdx < epb
      ensures size == 0 ==> startIdx == 0 && blocks[startBlock].None?
      ensures Packed(old(L())) ==>
                (Exactly(L(), Needed(startIdx, size, epb)) <==>
                   old(startIdx + size) > 0 || (|blocks| > 1 ==> old(L())[1].None?) || WrappedStart(epb, |blocks|) == 1)
    {
      ghost var l, start := L(), startIdx;
      ghost var from := FreeBehind();
      ghost var behind := L();
      ghost var t := FreeInFront();
      ghost var front := L();
      if Packed(l) { ShrunkIff(l, behind, front, epb, start, size, from); }
      FreeEmpty();
    }
  }

  lemma NothingEmptied<T>(l: seq<Block<T>>, a: nat)
    ensures Emptied(l, a, a) == l
  {
  }

  /** The first loop stops at the start or at a block that is not there, and so behind the last one. */
  lemma StoppedBehind<T>(blocks: seq<Block<T>>, start: nat, l: seq<Block<T>>, from: nat, r: nat)
    requires start < |blocks| == |l| && Packed(l) && 0 < from <= r <= |l| && Unrolled(blocks, start) == Emptied(l, from, r)
    requires var i := Wrap(start + r, |blocks|); i < |blocks| && (i == start || blocks[i].None?)
    ensures Unrolled(blocks, start) == Emptied(l, from, |l|)
  {
    if r < |l| { UnrolledAt(blocks, start, r); }
    NothingBehind(l, from, r);
  }

  /** The blocks at the end, with the first one of an empty queue freed. */
  ghost function WithoutFirst<T>(l: seq<Block<T>>, size: nat): seq<Block<T>>
    requires l != []
  {
    if size == 0 then l[0 := None] else l
  }

  lemma ShrunkIff<T>(l: seq<Block<T>>, behind: seq<Block<T>>, front: seq<Block<T>>, epb: nat, start: nat, size: nat, from: nat)
    requires epb > 0 && l != [] && Packed(l) && Backed(l, epb, start + size) && Slot(start, epb) <= |l|
    requires from == if start + size > 0 then Slot(start + size - 1, epb) + 1 else WrappedStart(epb, |l|)
    requires behind == if from == 0 then l else Emptied(l, from, |l|)
    requires front == Shifted(behind, Slot(start, epb))
    ensures Exactly(WithoutFirst(front, size), Needed(if size == 0 then 0 else Pos(start, epb), size, epb)) <==>
              start + size > 0 || (|l| > 1 ==> l[1].None?) || WrappedStart(epb, |l|) == 1
  {
    if start + size > 0 {
      LeftBlocks(l, epb, start, size);
    } else {
      assert front == behind;
      WrappedStartBound(epb, |l|);
      EmptyLeftBlocks(l, behind, from);
    }
  }

  lemma WrappedStartBound(epb: nat, n: nat)
    requires epb > 0 && n > 0
    ensures WrappedStart(epb, n) < n
  {
  }

  lemma FrontFits(from: nat, size: nat, epb: nat, n: nat)
    requires epb > 0 && from + size <= Span(n, epb)
    ensures Slot(from, epb) <= n
  {
    SlotBound(from, epb, n + 1);
  }

  /** The blocks that are left if there is an index in use: those of elements, and for an empty queue perhaps one. */
  lemma LeftBlocks<T>(l: seq<Block<T>>, epb: nat, from: nat, size: nat)
    requires epb > 0 && Backed(l, epb, from + size) && from + size > 0 && Slot(from, epb) <= |l|
    ensures var q, t, p := Slot(from + size - 1, epb) + 1, Slot(from, epb), Pos(from, epb);
            && q <= |l| && Exactly(Shifted(Emptied(l, q, |l|), t), if q > t then q - t else 0)
            && (size > 0 ==> q - t == Needed(p, size, epb)) && (size == 0 ==> q <= t + 1)
  {
    UsedBlocks(l, epb, from + size);
    Rejoin(from, epb);
    if size > 0 {
      SlotMoves(Slot(from, epb), Pos(from, epb) + size - 1, epb);
    } else {
      SlotMonotone(from - 1, from, epb);
    }
  }

  lemma {:induction false} SlotMoves(t: nat, x: nat, epb: nat)
    requires epb > 0
    ensures Slot(Span(t, epb) + x, epb) == t + Slot(x, epb)
  {
    if t == 0 {
    } else {
      SlotMoves(t - 1, x, epb);
      assert Span(t, epb) + x - epb == Span(t - 1, epb) + x;
    }
  }

  lemma {:induction false} SlotMonotone(x: nat, y: nat, epb: nat)
    requires epb > 0 && x <= y
    ensures Slot(x, epb) <= Slot(y, epb)
    decreases x
  {
    if x < epb {
    } else {
      SlotMonotone(x - epb, y - epb, epb);
    }
  }

  /** What the first loop leaves of an empty queue at index 0. */
  lemma EmptyLeftBlocks<T>(l: seq<Block<T>>, behind: seq<Block<T>>, from: nat)
    requires Packed(l) && l != [] && from < |l| && behind == if from == 0 then l else Emptied(l, from, |l|)
    ensures Exactly(behind[0 := None], 0) <==> (|l| > 1 ==> l[1].None?) || from == 1
  {
    if |l| > 1 && l[1].Some? && from != 1 {
      assert behind[0 := None][1].Some?;
    }
  }

  /** An index inside a block that is in use is below the capacity. */
  lemma LastBlockGoesOn(end: nat, epb: nat, n: nat)
    requires epb > 0 && Pos(end, epb) != 0 && end <= Span(n, epb)
    ensures end < Span(n, epb) && Slot(end, epb) < n
  {
    if end == Span(n, epb) { FirstOfBlock(n, epb); }
    SlotBound(end, epb, n);
  }

  lemma SlotsAreEnough(used: nat, epb: nat, n: nat)
    requires epb > 0 && 0 < used <= Span(n, epb)
    ensures var q := Slot(used - 1, epb) + 1; q <= n && used <= Span(q, epb)
  {
    SlotBound(used - 1, epb, n);
    SlotBound(used - 1, epb, Slot(used - 1, epb) + 1);
  }

  /** The slot where the first loop starts, as a distance r from the start: no element lies at or
      behind it. */
  lemma FirstFreeSlot(used: nat, epb: nat, n: nat, start: nat, last: nat) returns (r: nat)
    requires epb > 0 && start < n && used <= Span(n, epb) < WORD && last == (used + WORD - 1) % WORD
    ensures r <= n && used <= Span(r, epb) && (start + (last / epb + 1)) % n == Wrap(start + r, n) < n
    ensures r == if used > 0 then Slot(used - 1, epb) + 1 else WrappedStart(epb, n)
  {
    SlotIsQuotient(last, epb);
    var q := Slot(last, epb) + 1;
    if used > 0 {
      assert last == used - 1;
      r := q;
      SlotsAreEnough(used, epb, n);
      ModWrap(start + r, n);
    } else {
      r := q % n;
      RingIndex(start, q, n);
    }
  }

  lemma RingIndex(start: nat, q: nat, n: nat)
    requires start < n
    ensures q % n < n && (start + q) % n == Wrap(start + q % n, n)
  {
    var s := start + q % n;
    DivMod(start + q, n, q / n + (if s < n then 0 else 1), Wrap(s, n));
  }

  /** The copy loop of `realloc_blocks_array`; every block it copies must be there. */
  method Unwrap<T>(blocks: seq<Block<T>>, start: nat) returns (moved: seq<Block<T>>)
    requires start < |blocks| && forall r :: 0 <= r < |blocks| ==> Unrolled(blocks, start)[r].Some?
    ensures moved == Unrolled(blocks, start)
  {
    ghost var l := Unrolled(blocks, start);
    var n := |blocks|;
    moved := [];
    var from := start;
    while |moved| < n
      invariant |moved| <= n && moved == l[..|moved|]
      invariant from == Wrap(start + |moved|, n) < n
      decreases n - |moved|
    {
      UnrolledAt(blocks, start, |moved|);
      ModWrap(from + 1, n);
      assert l[|moved|].Some? && l[..|moved| + 1] == l[..|moved|] + [l[|moved|]];
      moved := moved + [blocks[from]];
      from := (from + 1) % n;
    }
  }
}
