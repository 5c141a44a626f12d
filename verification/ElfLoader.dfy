/** Mapping of the PT_LOAD segments of an executable into a process's address space
    (`map_elf_segments` in src/kernel/proc/process.cc). */
module ElfLoader {
  import opened Options
  import opened PageMath
  import opened Sequences
  import opened VirtualMemory

  /** A program header; its numbers have 32 bits. */
  datatype Segment = Segment(load: bool, offset: nat, vaddr: nat, filesz: nat, memsz: nat, prot: Access)

  predicate Words(ph: Segment) { ph.offset < WORD && ph.vaddr < WORD && ph.filesz < WORD && ph.memsz < WORD }

  /** The last page of the segment ends below the end of the address space. */
  predicate InAddressSpace(ph: Segment) { Ceil(ph.vaddr + Max(ph.filesz, ph.memsz)) < WORD }

  function FullStart(ph: Segment): nat { Ceil(ph.vaddr) }
  function FullEnd(ph: Segment): nat { Floor(ph.vaddr + ph.filesz) }
  function FileCeil(ph: Segment): nat { Ceil(ph.vaddr + ph.filesz) }
  function MemCeil(ph: Segment): nat { Ceil(ph.vaddr + ph.memsz) }

  /** The bounds as they are computed, in 32 bits. */
  function FullStart32(ph: Segment): nat { Ceil(ph.vaddr) % WORD }
  function FullEnd32(ph: Segment): nat { Floor((ph.vaddr + ph.filesz) % WORD) }
  function FileCeil32(ph: Segment): nat { Ceil((ph.vaddr + ph.filesz) % WORD) % WORD }
  function MemCeil32(ph: Segment): nat { Ceil((ph.vaddr + ph.memsz) % WORD) % WORD }

  lemma EndWraps(end: nat)
    requires end < 2 * WORD
    ensures Ceil(end) < WORD ==> end % WORD == end && Ceil(end) % WORD == Ceil(end)
    ensures Ceil(end) >= WORD ==> Ceil(end % WORD) % WORD != Ceil(end)
  {
    RoundingIsTight(end, WORD);
  }

  /** They are the intended ones iff the last page of the segment ends below the end of the address
      space. */
  lemma BoundsAreRightIff(ph: Segment)
    requires Words(ph)
    ensures FullStart32(ph) == FullStart(ph) && FullEnd32(ph) == FullEnd(ph)
            && FileCeil32(ph) == FileCeil(ph) && MemCeil32(ph) == MemCeil(ph)
            <==> InAddressSpace(ph)
  {
    EndWraps(ph.vaddr + ph.filesz);
    EndWraps(ph.vaddr + ph.memsz);
    LargerEnd(ph);
    RoundedEnds(ph.vaddr, ph.vaddr + ph.filesz);
    EndWraps(ph.vaddr);
  }

  predicate HasHead(ph: Segment) { !Aligned(ph.vaddr) }
  predicate HasFull(ph: Segment) { FullEnd(ph) > FullStart(ph) }
  predicate HasTail(ph: Segment) { FileCeil(ph) > FullEnd(ph) >= FullStart(ph) }
  predicate HasAnon(ph: Segment) { MemCeil(ph) > FileCeil(ph) }

  function Anon(addr: nat, len: nat, prot: Access): Vma { Vma(addr, len, prot, true, None, 0) }

  function Head(ph: Segment): Vma { Anon(Floor(ph.vaddr), PG_SZ, ph.prot) }
  function Full(ph: Segment, d: int): Vma
    requires HasFull(ph)
  {
    Vma(FullStart(ph), FullEnd(ph) - FullStart(ph), ph.prot, false, Some(d), ph.offset + (FullStart(ph) - ph.vaddr))
  }

  function Tail(ph: Segment): Vma { Anon(FullEnd(ph), PG_SZ, ph.prot) }
  function Rest(ph: Segment): Vma
    requires HasAnon(ph)
  {
    Anon(FileCeil(ph), MemCeil(ph) - FileCeil(ph), ph.prot)
  }

  /** The mappings made for a segment, in address order: possibly a partial first page, full file
      pages, a partial last page and anonymous pages. */
  function Pieces(ph: Segment, d: int): seq<Vma> {
    HeadPart(ph) + FullPart(ph, d) + TailPart(ph) + RestPart(ph)
  }

  function HeadPart(ph: Segment): seq<Vma> { if HasHead(ph) then [Head(ph)] else [] }
  function FullPart(ph: Segment, d: int): seq<Vma> { if HasFull(ph) then [Full(ph, d)] else [] }
  function TailPart(ph: Segment): seq<Vma> { if HasTail(ph) then [Tail(ph)] else [] }
  function RestPart(ph: Segment): seq<Vma> { if HasAnon(ph) then [Rest(ph)] else [] }

  /** The place in the file of what is mapped at `at`, computed in 32 bits. */
  function FileOffset32(ph: Segment, at: nat): nat { (ph.offset + at + WORD - ph.vaddr % WORD) % WORD }

  /** It is the intended one iff the sum does not wrap. */
  lemma FileOffsetIsRightIff(ph: Segment, at: nat)
    requires ph.vaddr <= at < WORD && ph.offset < WORD
    ensures FileOffset32(ph, at) == ph.offset + (at - ph.vaddr) <==> ph.offset + (at - ph.vaddr) < WORD
  {
  }

  /** The mappings that are asked for, with all bounds and offsets computed in 32 bits. */
  function Pieces32(ph: Segment, d: int): seq<Vma> {
    HeadPart(ph) + FullPart32(ph, d) + TailPart32(ph) + RestPart32(ph)
  }

  function FullPart32(ph: Segment, d: int): seq<Vma> {
    if FullEnd32(ph) <= FullStart32(ph) then []
    else [Vma(FullStart32(ph), FullEnd32(ph) - FullStart32(ph), ph.prot, false, Some(d), FileOffset32(ph, FullStart32(ph)))]
  }

  predicate HasTail32(ph: Segment) { FileCeil32(ph) > FullEnd32(ph) >= FullStart32(ph) }

  function TailPart32(ph: Segment): seq<Vma> { if HasTail32(ph) then [Anon(FullEnd32(ph), PG_SZ, ph.prot)] else [] }

  function RestPart32(ph: Segment): seq<Vma> {
    if MemCeil32(ph) <= FileCeil32(ph) then [] else [Anon(FileCeil32(ph), MemCeil32(ph) - FileCeil32(ph), ph.prot)]
  }

  /** The segment lies below the end of the address space, and its bytes below 4 GiB in the file. */
  predicate Plain(ph: Segment) { InAddressSpace(ph) && ph.offset + ph.filesz < WORD }

  /** Then what is asked for are the intended pieces. */
  lemma PlainPieces(ph: Segment, d: int)
    requires Words(ph) && Plain(ph)
    ensures FullPart32(ph, d) == FullPart(ph, d) && TailPart32(ph) == TailPart(ph) && RestPart32(ph) == RestPart(ph)
    ensures Pieces32(ph, d) == Pieces(ph, d)
  {
    BoundsAreRightIff(ph);
    if HasFull(ph) { FileOffsetIsRightIff(ph, FullStart(ph)); }
  }

  /** For a segment of one page at the end of the address space nothing is mapped. */
  lemma LastPageIsNotMapped(prot: Access, d: int)
    ensures var ph := Segment(true, 0, 0xFFFF_F000, PG_SZ, PG_SZ, prot);
            Pieces32(ph, d) == [] && |Pieces(ph, d)| == 1
  {
    var ph := Segment(true, 0, 0xFFFF_F000, PG_SZ, PG_SZ, prot);
    assert (ph.vaddr + ph.filesz) % WORD == 0;
  }

  /** For a segment at the end of a file of 4 GiB the start of the file is mapped. */
  lemma StartOfFileIsMapped(prot: Access, d: int)
    ensures var ph := Segment(true, 0xFFFF_F800, 0x1800, 0x2000, 0x2000, prot);
            InAddressSpace(ph) && FullPart32(ph, d) == [Vma(0x2000, PG_SZ, prot, false, Some(d), 0)]
  {
  }

  /** The mappings follow each other without a gap from `from` to `to`. */
  predicate Tiles(vs: seq<Vma>, from: nat, to: nat) {
    if vs == [] then from == to else vs[0].addr == from && Tiles(vs[1..], vs[0].End(), to)
  }

  lemma {:induction false} TilesAppend(vs: seq<Vma>, ws: seq<Vma>, from: nat, mid: nat, to: nat)
    requires Tiles(vs, from, mid) && Tiles(ws, mid, to)
    ensures Tiles(vs + ws, from, to)
  {
    if vs == [] {
      assert vs + ws == ws;
    } else {
      TilesAppend(vs[1..], ws, vs[0].End(), mid, to);
      assert (vs + ws)[1..] == vs[1..] + ws;
    }
  }

  function Max(a: nat, b: nat): nat { if a < b then b else a }

  /** Where the full file pages end, or would begin if there are none. */
  function FullLimit(ph: Segment): nat { if HasFull(ph) then FullEnd(ph) else FullStart(ph) }

  lemma RoundedEnds(a: nat, e: nat)
    requires a <= e
    ensures Ceil(e) == Floor(e) || Ceil(e) == Floor(e) + PG_SZ
    ensures Ceil(a) <= Ceil(e)
    ensures Ceil(a) <= Floor(e) || Ceil(a) == Ceil(e)
    ensures Ceil(e) == Floor(e) ==> Ceil(a) <= Floor(e)
  {
    RoundingIsTight(e, Ceil(a));
    RoundingIsTight(a, Ceil(e));
  }

  lemma HeadTiles(ph: Segment)
    ensures Tiles(HeadPart(ph), Floor(ph.vaddr), FullStart(ph))
  {
  }

  lemma TailTiles(ph: Segment)
    ensures Tiles(TailPart(ph), FullLimit(ph), FileCeil(ph))
  {
    RoundedEnds(ph.vaddr, ph.vaddr + ph.filesz);
  }

  lemma RestTiles(ph: Segment)
    ensures Tiles(RestPart(ph), FileCeil(ph), Ceil(ph.vaddr + Max(ph.filesz, ph.memsz)))
  {
    LargerEnd(ph);
  }

  lemma LargerEnd(ph: Segment)
    ensures Ceil(ph.vaddr + Max(ph.filesz, ph.memsz)) == Max(FileCeil(ph), MemCeil(ph))
  {
    if ph.filesz <= ph.memsz {
      RoundedEnds(ph.vaddr + ph.filesz, ph.vaddr + ph.memsz);
    } else {
      RoundedEnds(ph.vaddr + ph.memsz, ph.vaddr + ph.filesz);
    }
  }

  /** The pieces cover exactly the pages of the segment in the file or in memory, whichever is
      larger. */
  lemma PiecesTile(ph: Segment, d: int)
    ensures Tiles(Pieces(ph, d), Floor(ph.vaddr), Ceil(ph.vaddr + Max(ph.filesz, ph.memsz)))
  {
    var a, b, c, e := HeadPart(ph), FullPart(ph, d), TailPart(ph), RestPart(ph);
    HeadTiles(ph);
    TailTiles(ph);
    RestTiles(ph);
    TilesAppend(a, b, Floor(ph.vaddr), FullStart(ph), FullLimit(ph));
    TilesAppend(a + b, c, Floor(ph.vaddr), FullLimit(ph), FileCeil(ph));
    TilesAppend(a + b + c, e, Floor(ph.vaddr), FileCeil(ph), Ceil(ph.vaddr + Max(ph.filesz, ph.memsz)));
  }

  /** Every piece has the protection of the segment; the full file pages come from its file, and the others from none. */
  lemma PiecesProtected(ph: Segment, d: int, v: Vma)
    ensures v in Pieces(ph, d) ==> v.prot == ph.prot && (v.file == Some(d) || v.file.None?)
    ensures v in Pieces32(ph, d) ==> v.prot == ph.prot && (v.file == Some(d) || v.file.None?)
    ensures v in Pieces(ph, d) && v.file.Some? ==> HasFull(ph) && FullStart(ph) <= v.addr && v.End() <= FullEnd(ph)
  {
    var h, f, t, r := HeadPart(ph), FullPart(ph, d), TailPart(ph), RestPart(ph);
    assert v in Pieces(ph, d) ==> v in h || v in f || v in t || v in r;
    assert v in Pieces32(ph, d) ==> v in h || v in FullPart32(ph, d) || v in TailPart32(ph) || v in RestPart32(ph);
  }

  /** The pieces are exactly the pages of the segment in memory iff its file part does not reach
      into a page beyond them. */
  lemma TilesMemoryImage(ph: Segment, d: int)
    ensures Tiles(Pieces(ph, d), Floor(ph.vaddr), MemCeil(ph)) <==> FileCeil(ph) <= MemCeil(ph)
  {
    PiecesTile(ph, d);
    LargerEnd(ph);
    TilesOnce(Pieces(ph, d), Floor(ph.vaddr), Ceil(ph.vaddr + Max(ph.filesz, ph.memsz)), MemCeil(ph));
  }

  lemma {:induction false} TilesOnce(vs: seq<Vma>, from: nat, to: nat, to': nat)
    requires Tiles(vs, from, to)
    ensures Tiles(vs, from, to') <==> to == to'
  {
    if vs == [] {
    } else {
      TilesOnce(vs[1..], vs[0].End(), to, to');
    }
  }

  /** Full pages are mapped at the right place in the file. */
  lemma FullPagesOffset(ph: Segment, d: int, a: nat)
    requires HasFull(ph) && FullStart(ph) <= a < FullEnd(ph)
    ensures Full(ph, d).offset + (a - Full(ph, d).addr) == ph.offset + (a - ph.vaddr)
  {
  }

  // ----- Contents -----

  /** A byte in a full page is mapped from its place in the file. */
  ghost predicate MappedFromFile(vmas: seq<Vma>, ph: Segment, d: int, a: nat)
    requires ph.vaddr <= a
  {
    && HasFull(ph) && FullStart(ph) <= a < FullEnd(ph)
    && var v := Full(ph, d);
       v in vmas && InRange(a, v.addr, v.len) && v.file == Some(d) && v.offset + (a - v.addr) == ph.offset + (a - ph.vaddr)
  }

  /** A byte of the file part of the segment is mapped from the file or has been copied from it. */
  ghost predicate ByteLoaded(vmas: seq<Vma>, mem: map<nat, nat>, file: seq<nat>, ph: Segment, d: int, a: nat)
    requires ph.vaddr <= a && ph.offset + (a - ph.vaddr) < |file|
  {
    MappedFromFile(vmas, ph, d, a) || (a in mem && mem[a] == file[ph.offset + (a - ph.vaddr)])
  }

  ghost predicate ZeroAt(mem: map<nat, nat>, a: nat) { a in mem && mem[a] == 0 }

  /** The segment is in place: its pieces are mapped, its file bytes are there, and the rest of the
      partial pages is zero. */
  ghost predicate Loaded(vmas: seq<Vma>, mem: map<nat, nat>, file: seq<nat>, ph: Segment, d: int) {
    && (forall v :: v in Pieces(ph, d) ==> v in vmas)
    && ph.offset + ph.filesz <= |file|
    && (forall a {:trigger ByteLoaded(vmas, mem, file, ph, d, a)} ::
          ph.vaddr <= a < ph.vaddr + ph.filesz ==> ByteLoaded(vmas, mem, file, ph, d, a))
    && (forall a {:trigger ZeroAt(mem, a)} :: Floor(ph.vaddr) <= a < ph.vaddr ==> ZeroAt(mem, a))
    && (forall a {:trigger ZeroAt(mem, a)} :: ph.vaddr + ph.filesz <= a < FileCeil(ph) ==> ZeroAt(mem, a))
  }

  lemma PartialPagesArePieces(ph: Segment, d: int)
    ensures HasHead(ph) ==> Head(ph) in Pieces(ph, d)
    ensures HasTail(ph) ==> Tail(ph) in Pieces(ph, d)
  {
    var ps := Pieces(ph, d);
    if HasHead(ph) { assert ps[0] == Head(ph); }
    if HasTail(ph) { assert ps[|HeadPart(ph) + FullPart(ph, d)|] == Tail(ph); }
  }

  /** A byte below the end of the file part's last page is in the first page, a full page or the
      last page. */
  lemma WhichPartialPage(ph: Segment, a: nat)
    requires ph.vaddr <= a < FileCeil(ph) && !(HasFull(ph) && FullStart(ph) <= a < FullEnd(ph))
    ensures (HasHead(ph) && a < FullStart(ph)) || (HasTail(ph) && FullEnd(ph) <= a)
  {
    RoundedEnds(ph.vaddr, ph.vaddr + ph.filesz);
  }

  lemma InPage(a: nat, v: nat)
    requires !Aligned(v) && Floor(v) <= a < Ceil(v)
    ensures InRange(a, Floor(v), PG_SZ)
  {
  }

  /** Every address whose contents `Loaded` speaks about lies in one of the two partial pages. */
  lemma WrittenInPieces(ph: Segment, d: int, a: nat)
    requires Floor(ph.vaddr) <= a < FileCeil(ph) && !(HasFull(ph) && FullStart(ph) <= a < FullEnd(ph))
    ensures (HasHead(ph) && Head(ph) in Pieces(ph, d) && InRange(a, Floor(ph.vaddr), PG_SZ))
         || (HasTail(ph) && Tail(ph) in Pieces(ph, d) && InRange(a, FullEnd(ph), PG_SZ))
  {
    PartialPagesArePieces(ph, d);
    RoundedEnds(ph.vaddr, ph.vaddr + ph.filesz);
    if ph.vaddr <= a { WhichPartialPage(ph, a); }
    if HasHead(ph) && a < FullStart(ph) { InPage(a, ph.vaddr); }
  }

  ghost predicate SameOutsidePage(mem: map<nat, nat>, mem': map<nat, nat>, page: nat) {
    forall a :: a in mem && !InRange(a, page, PG_SZ) ==> a in mem' && mem'[a] == mem[a]
  }

  /** Writing to a page that no mapping covered disturbs no segment that is in place. */
  lemma LoadedStays(vmas: seq<Vma>, mem: map<nat, nat>, vmas': seq<Vma>, mem': map<nat, nat>,
                    page: nat, file: seq<nat>, ph: Segment, d: int)
    requires Loaded(vmas, mem, file, ph, d) && SameOutsidePage(mem, mem', page)
    requires forall v :: v in vmas ==> v in vmas' && !Overlaps(page, PG_SZ, v.addr, v.len)
    ensures Loaded(vmas', mem', file, ph, d)
  {
    forall a: nat | Floor(ph.vaddr) <= a < FileCeil(ph) && !(HasFull(ph) && FullStart(ph) <= a < FullEnd(ph))
      ensures !InRange(a, page, PG_SZ)
    {
      WrittenInPieces(ph, d, a);
    }
    forall a: nat | ph.vaddr <= a < ph.vaddr + ph.filesz ensures ByteLoaded(vmas', mem', file, ph, d, a) {
      assert ByteLoaded(vmas, mem, file, ph, d, a);
    }
    forall a: nat | Floor(ph.vaddr) <= a < ph.vaddr || ph.vaddr + ph.filesz <= a < FileCeil(ph) ensures ZeroAt(mem', a) {
      assert ZeroAt(mem, a);
      assert Floor(ph.vaddr) <= a < FileCeil(ph);
    }
  }

  /** More mappings disturb no segment that is in place. */
  lemma LoadedGrows(vmas: seq<Vma>, vmas': seq<Vma>, mem: map<nat, nat>, file: seq<nat>, ph: Segment, d: int)
    requires Loaded(vmas, mem, file, ph, d) && forall v :: v in vmas ==> v in vmas'
    ensures Loaded(vmas', mem, file, ph, d)
  {
    forall a: nat | ph.vaddr <= a < ph.vaddr + ph.filesz ensures ByteLoaded(vmas', mem, file, ph, d, a) {
      assert ByteLoaded(vmas, mem, file, ph, d, a);
    }
  }

  // ----- The loader -----

  /** The buffer after a page has been read into it from the file, which may end before that. */
  function ReadInto(file: seq<nat>, off: nat, buf: seq<nat>): (r: seq<nat>)
    requires |buf| == PG_SZ
    ensures |r| == PG_SZ
    ensures forall i :: 0 <= i < PG_SZ && off + i < |file| ==> r[i] == file[off + i]
  {
    if off >= |file| then buf
    else
      var n := if |file| - off < PG_SZ then |file| - off else PG_SZ;
      file[off..off + n] + buf[n..]
  }

  /** memset or memcpy to user memory. */
  method WriteBytes(p: Process, at: nat, bytes: seq<nat>)
    modifies p`mem
    ensures forall a :: a in p.mem <==> a in old(p.mem) || InRange(a, at, |bytes|)
    ensures forall a :: a in p.mem ==> p.mem[a] == if InRange(a, at, |bytes|) then bytes[a - at] else old(p.mem)[a]
  {
    p.mem := p.mem + map a: nat | at <= a < at + |bytes| && InRange(a, at, |bytes|) :: bytes[a - at];
  }

  function Zeros(n: nat): (z: seq<nat>)
    ensures |z| == n && forall i :: 0 <= i < n ==> z[i] == 0
  {
    seq(n, _ => 0)
  }

  /** A private page at `page`: zeros, then buf[from..to], then zeros. */
  ghost predicate PageHolds(mem: map<nat, nat>, page: nat, buf: seq<nat>, from: nat, to: nat)
    requires from <= to <= PG_SZ == |buf|
  {
    forall a: nat {:trigger a in mem} :: InRange(a, page, PG_SZ) ==>
      a in mem && mem[a] == if from <= a - page < to then buf[a - page] else 0
  }

  method FillPage(p: Process, page: nat, buf: seq<nat>, from: nat, to: nat)
    requires from <= to <= PG_SZ == |buf|
    modifies p`mem
    ensures PageHolds(p.mem, page, buf, from, to) && SameOutsidePage(old(p.mem), p.mem, page)
  {
    WriteBytes(p, page, Zeros(from));
    WriteBytes(p, page + from, buf[from..to]);
    WriteBytes(p, page + to, Zeros(PG_SZ - to));
  }

  /** Every segment in place before is still in place. */
  ghost predicate KeepsLoaded(vmas: seq<Vma>, mem: map<nat, nat>, vmas': seq<Vma>, mem': map<nat, nat>, file: seq<nat>, d: int) {
    forall ph: Segment :: Loaded(vmas, mem, file, ph, d) ==> Loaded(vmas', mem', file, ph, d)
  }

  /** What the four stages of a segment establish one after the other. */
  ghost predicate HeadDone(mem: map<nat, nat>, file: seq<nat>, ph: Segment)
    requires ph.offset + ph.filesz <= |file|
  {
    && (forall a: nat {:trigger ZeroAt(mem, a)} :: HasHead(ph) && Floor(ph.vaddr) <= a < ph.vaddr ==> ZeroAt(mem, a))
    && (forall a: nat {:trigger a in mem} :: HasHead(ph) && ph.vaddr <= a < FullStart(ph) ==>
          a in mem && mem[a] == if a < ph.vaddr + ph.filesz then file[ph.offset + (a - ph.vaddr)] else 0)
  }

  ghost predicate TailDone(mem: map<nat, nat>, file: seq<nat>, ph: Segment)
    requires ph.offset + ph.filesz <= |file|
  {
    forall a: nat {:trigger a in mem} :: HasTail(ph) && FullEnd(ph) <= a < FileCeil(ph) ==>
      a in mem && mem[a] == if a < ph.vaddr + ph.filesz then file[ph.offset + (a - ph.vaddr)] else 0
  }

  lemma AssembleLoaded(vmas: seq<Vma>, mem: map<nat, nat>, file: seq<nat>, ph: Segment, d: int)
    requires ph.offset + ph.filesz <= |file| && HeadDone(mem, file, ph) && TailDone(mem, file, ph)
    requires forall v :: v in Pieces(ph, d) ==> v in vmas
    ensures Loaded(vmas, mem, file, ph, d)
  {
    forall a: nat | ph.vaddr <= a < ph.vaddr + ph.filesz ensures ByteLoaded(vmas, mem, file, ph, d, a) {
      if HasFull(ph) && FullStart(ph) <= a < FullEnd(ph) {
        FullPagesOffset(ph, d, a);
        assert Full(ph, d) in Pieces(ph, d);
      } else {
        WhichPartialPage(ph, a);
        assert a in mem;
      }
    }
    forall a: nat | ph.vaddr + ph.filesz <= a < FileCeil(ph) ensures ZeroAt(mem, a) {
      WhichPartialPage(ph, a);
      assert a in mem;
    }
  }

  lemma HeadStays(mem: map<nat, nat>, mem': map<nat, nat>, file: seq<nat>, ph: Segment)
    requires ph.offset + ph.filesz <= |file| && HeadDone(mem, file, ph) && HasTail(ph)
    requires SameOutsidePage(mem, mem', FullEnd(ph))
    ensures HeadDone(mem', file, ph)
  {
    forall a: nat | HasHead(ph) && Floor(ph.vaddr) <= a < ph.vaddr ensures ZeroAt(mem', a) {
      assert ZeroAt(mem, a);
      assert !InRange(a, FullEnd(ph), PG_SZ);
    }
    forall a: nat | HasHead(ph) && ph.vaddr <= a < FullStart(ph)
      ensures a in mem' && mem'[a] == if a < ph.vaddr + ph.filesz then file[ph.offset + (a - ph.vaddr)] else 0
    {
      assert a in mem && !InRange(a, FullEnd(ph), PG_SZ);
      assert mem[a] == if a < ph.vaddr + ph.filesz then file[ph.offset + (a - ph.vaddr)] else 0;
    }
  }

  lemma HeadWritten(mem: map<nat, nat>, file: seq<nat>, buf: seq<nat>, ph: Segment)
    requires HasHead(ph) && ph.offset + ph.filesz <= |file| && ph.vaddr % PG_SZ == ph.offset % PG_SZ && |buf| == PG_SZ
    requires forall i :: 0 <= i < PG_SZ && Floor(ph.offset) + i < |file| ==> buf[i] == file[Floor(ph.offset) + i]
    requires PageHolds(mem, Floor(ph.vaddr), buf, ph.vaddr % PG_SZ, HeadEnd(ph))
    ensures HeadDone(mem, file, ph)
  {
    var page := Floor(ph.vaddr);
    forall a: nat | page <= a < ph.vaddr ensures ZeroAt(mem, a) {
      assert InRange(a, page, PG_SZ);
    }
    forall a: nat | ph.vaddr <= a < FullStart(ph)
      ensures a in mem && mem[a] == if a < ph.vaddr + ph.filesz then file[ph.offset + (a - ph.vaddr)] else 0
    {
      assert InRange(a, page, PG_SZ);
      assert Floor(ph.offset) + (a - page) == ph.offset + (a - ph.vaddr);
    }
  }

  /** Offset in the first page at which the segment's file bytes end. */
  function HeadEnd(ph: Segment): (r: nat)
    requires HasHead(ph)
    ensures ph.vaddr % PG_SZ <= r <= PG_SZ
  {
    (if ph.vaddr + ph.filesz < Ceil(ph.vaddr) then ph.vaddr + ph.filesz else Ceil(ph.vaddr)) - Floor(ph.vaddr)
  }

  lemma TailWritten(mem: map<nat, nat>, file: seq<nat>, buf: seq<nat>, ph: Segment)
    requires HasTail(ph) && ph.offset + ph.filesz <= |file| && |buf| == PG_SZ
    requires var off := ph.offset + (FullEnd(ph) - ph.vaddr);
             forall i :: 0 <= i < PG_SZ && off + i < |file| ==> buf[i] == file[off + i]
    requires PageHolds(mem, FullEnd(ph), buf, 0, ph.vaddr + ph.filesz - FullEnd(ph))
    ensures TailDone(mem, file, ph)
  {
    forall a: nat | FullEnd(ph) <= a < FileCeil(ph)
      ensures a in mem && mem[a] == if a < ph.vaddr + ph.filesz then file[ph.offset + (a - ph.vaddr)] else 0
    {
      assert InRange(a, FullEnd(ph), PG_SZ);
      assert ph.offset + (FullEnd(ph) - ph.vaddr) + (a - FullEnd(ph)) == ph.offset + (a - ph.vaddr);
    }
  }

  ghost predicate Whole(ph: Segment, file: seq<nat>) { ph.offset + ph.filesz <= |file| }

  ghost predicate Grew(vmas: seq<Vma>, vmas': seq<Vma>, added: seq<Vma>) {
    forall v :: v in vmas' <==> v in vmas || v in added
  }

  /** Some mapping to be made overlaps one that exists. */
  ghost predicate Blocked(vmas: seq<Vma>, vs: seq<Vma>) {
    exists v, w :: v in vs && w in vmas && Overlaps(v.addr, v.len, w.addr, w.len)
  }

  lemma BlockedByOne(vmas: seq<Vma>, v: Vma)
    ensures Blocked(vmas, [v]) <==> Clashes(vmas, v.addr, v.len)
  {
    if Clashes(vmas, v.addr, v.len) {
      var x :| 0 <= x < |vmas| && Overlaps(v.addr, v.len, vmas[x].addr, vmas[x].len);
      assert v in [v] && vmas[x] in vmas;
    }
  }

  lemma BlockedUnion(vmas: seq<Vma>, vs: seq<Vma>, ws: seq<Vma>)
    ensures Blocked(vmas, vs + ws) <==> Blocked(vmas, vs) || Blocked(vmas, ws)
  {
    assert forall v :: v in vs + ws <==> v in vs || v in ws;
  }

  // ----- Mapping one piece after the other -----

  /** The result and the list after `mmap` of one mapping after the other, up to one that fails. */
  ghost function MmapAll(vmas: seq<Vma>, vs: seq<Vma>): (r: (Result, seq<Vma>))
    ensures r.0 == Ok || r.0 == MappingExists || r.0 == InvalidArgs
    decreases |vs|
  {
    if vs == [] then (Ok, vmas)
    else
      var v := vs[0];
      var slot := Scan(vmas, v.addr, v.len, 0);
      if slot.Clash? then (MappingExists, vmas)
      else if !ValidArgs(v.addr, v.len, v.anon, v.file, v.offset) then (InvalidArgs, vmas)
      else MmapAll(InsertAt(vmas, slot.i, v), vs[1..])
  }

  lemma {:induction false} MmapAllAppend(vmas: seq<Vma>, a: seq<Vma>, b: seq<Vma>)
    ensures var (r, w) := MmapAll(vmas, a); MmapAll(vmas, a + b) == if r == Ok then MmapAll(w, b) else (r, w)
    decreases |a|
  {
    if a == [] {
      assert a + b == b;
    } else {
      var slot := Scan(vmas, a[0].addr, a[0].len, 0);
      assert (a + b)[0] == a[0] && (a + b)[1..] == a[1..] + b;
      if slot.Free? { MmapAllAppend(InsertAt(vmas, slot.i, a[0]), a[1..], b); }
    }
  }

  /** The mappings are valid, end below the end of the address space and are in ascending order. */
  ghost predicate Askable(vs: seq<Vma>) {
    && (forall i :: 0 <= i < |vs| ==> ValidArgs(vs[i].addr, vs[i].len, vs[i].anon, vs[i].file, vs[i].offset) && vs[i].End() < WORD)
    && (forall i, j :: 0 <= i < j < |vs| ==> vs[i].End() <= vs[j].addr)
  }

  lemma FirstOfAll(vmas: seq<Vma>, v: Vma)
    requires Sound(vmas) && ValidArgs(v.addr, v.len, v.anon, v.file, v.offset) && v.End() < WORD
    ensures var slot := Scan(vmas, v.addr, v.len, 0);
            && (slot.Clash? <==> Blocked(vmas, [v]))
            && (slot.Free? ==> Sound(InsertAt(vmas, slot.i, v)) && Grew(vmas, InsertAt(vmas, slot.i, v), [v]))
  {
    ScanIsExact(vmas, v.addr, v.len, 0);
    ClashesAreSeen(vmas, v.addr, v.len);
    BlockedByOne(vmas, v);
    if Scan(vmas, v.addr, v.len, 0).Free? { InsertKeepsOrderIff(vmas, v); }
  }

  /** On a sound list all can be mapped iff none overlaps a mapping, and then exactly they are added. */
  lemma {:induction false} MmapAllExact(vmas: seq<Vma>, vs: seq<Vma>)
    requires Sound(vmas) && Askable(vs)
    ensures var (r, w) := MmapAll(vmas, vs);
            && (r == Ok || r == MappingExists) && (r == Ok <==> !Blocked(vmas, vs))
            && Sound(w) && (forall v :: v in vmas ==> v in w) && (r == Ok ==> Grew(vmas, w, vs))
    decreases |vs|
  {
    if vs == [] {
    } else {
      var v, rest := vs[0], vs[1..];
      FirstOfAll(vmas, v);
      assert vs == [v] + rest;
      BlockedUnion(vmas, [v], rest);
      var slot := Scan(vmas, v.addr, v.len, 0);
      if slot.Free? {
        var w := InsertAt(vmas, slot.i, v);
        MmapAllExact(w, rest);
        LaterBlocked(vmas, w, v, rest);
      }
    }
  }

  lemma LaterBlocked(vmas: seq<Vma>, w: seq<Vma>, v: Vma, rest: seq<Vma>)
    requires Grew(vmas, w, [v]) && Askable([v] + rest)
    ensures Blocked(w, rest) <==> Blocked(vmas, rest)
  {
    forall x | x in rest ensures !Overlaps(x.addr, x.len, v.addr, v.len) {
      var k :| 0 <= k < |rest| && rest[k] == x;
      assert ([v] + rest)[0].End() <= ([v] + rest)[k + 1].addr;
    }
  }

  lemma {:induction false} TilesAscend(vs: seq<Vma>, from: nat, to: nat)
    requires Tiles(vs, from, to)
    ensures from <= to && forall i :: 0 <= i < |vs| ==> from <= vs[i].addr && vs[i].End() <= to
    ensures forall i, j :: 0 <= i < j < |vs| ==> vs[i].End() <= vs[j].addr
  {
    if vs == [] {
    } else {
      TilesAscend(vs[1..], vs[0].End(), to);
      assert forall i :: 1 <= i < |vs| ==> vs[i] == vs[1..][i - 1];
    }
  }

  ghost predicate AllValid(vs: seq<Vma>) {
    forall i :: 0 <= i < |vs| ==> ValidArgs(vs[i].addr, vs[i].len, vs[i].anon, vs[i].file, vs[i].offset)
  }

  lemma AllValidAppend(vs: seq<Vma>, ws: seq<Vma>)
    requires AllValid(vs) && AllValid(ws)
    ensures AllValid(vs + ws)
  {
  }

  /** An offset that agrees with the address, moved along to a page of the segment, is aligned. */
  lemma OffsetAligned(offset: nat, vaddr: nat, at: nat)
    requires vaddr % PG_SZ == offset % PG_SZ && Aligned(at) && vaddr <= offset + at
    ensures Aligned(offset + at - vaddr)
  {
    assert offset + at - vaddr == (offset / PG_SZ - vaddr / PG_SZ + at / PG_SZ) * PG_SZ;
  }

  lemma FullPartValid(ph: Segment, d: int)
    requires ph.vaddr % PG_SZ == ph.offset % PG_SZ
    ensures AllValid(FullPart(ph, d))
  {
    RoundingIsTight(ph.vaddr, 0);
    OffsetAligned(ph.offset, ph.vaddr, FullStart(ph));
  }

  lemma OtherPartsValid(ph: Segment)
    ensures AllValid(HeadPart(ph)) && AllValid(TailPart(ph)) && AllValid(RestPart(ph))
  {
    RoundingIsTight(ph.vaddr, 0);
    RoundingIsTight(ph.vaddr + ph.filesz, 0);
  }

  lemma PiecesValid(ph: Segment, d: int)
    requires ph.vaddr % PG_SZ == ph.offset % PG_SZ
    ensures AllValid(Pieces(ph, d))
  {
    OtherPartsValid(ph);
    FullPartValid(ph, d);
    AllValidAppend(HeadPart(ph), FullPart(ph, d));
    AllValidAppend(HeadPart(ph) + FullPart(ph, d), TailPart(ph));
    AllValidAppend(HeadPart(ph) + FullPart(ph, d) + TailPart(ph), RestPart(ph));
  }

  lemma TilesAskable(vs: seq<Vma>, from: nat, to: nat)
    requires Tiles(vs, from, to) && to < WORD && AllValid(vs)
    ensures Askable(vs)
  {
    TilesAscend(vs, from, to);
  }

  lemma PiecesAskable(ph: Segment, d: int)
    requires Plain(ph) && ph.vaddr % PG_SZ == ph.offset % PG_SZ
    ensures Askable(Pieces(ph, d))
  {
    PiecesTile(ph, d);
    PiecesValid(ph, d);
    TilesAskable(Pieces(ph, d), Floor(ph.vaddr), Ceil(ph.vaddr + Max(ph.filesz, ph.memsz)));
  }

  // ----- One segment -----

  /** `Faulted`: the copy into the first page runs past its buffer. */
  datatype Outcome = Finished(res: Result) | Faulted

  /** The number of bytes to be copied into the first page, computed in 32 bits. */
  function CopyBytes32(ph: Segment): nat {
    var end := (ph.vaddr + ph.filesz) % WORD;
    ((if end < Ceil(ph.vaddr) then end else Ceil(ph.vaddr)) + WORD - ph.vaddr % WORD) % WORD
  }

  /** They are more than the page has room for. */
  predicate CopyFaults(ph: Segment) { HasHead(ph) && ph.vaddr % PG_SZ + CopyBytes32(ph) > PG_SZ }

  /** This is so iff the sum of address and size wraps, unless the segment ends with the address space and begins in its
      last page; else they are the bytes of the segment in that page. */
  lemma CopyFaultsIff(ph: Segment)
    requires Words(ph) && HasHead(ph)
    ensures CopyFaults(ph) <==> ph.vaddr + ph.filesz > WORD || (ph.vaddr + ph.filesz == WORD && Ceil(ph.vaddr) < WORD)
    ensures !CopyFaults(ph) ==> ph.vaddr % PG_SZ + CopyBytes32(ph) == HeadEnd(ph)
  {
    RoundingIsTight(ph.vaddr, WORD);
    if ph.vaddr + ph.filesz >= WORD {
      CopyIsLarge(ph);
    } else {
      CopyIsExact(ph);
    }
  }

  lemma CopyIsExact(ph: Segment)
    requires Words(ph) && HasHead(ph) && ph.vaddr + ph.filesz < WORD
    ensures !CopyFaults(ph) && ph.vaddr % PG_SZ + CopyBytes32(ph) == HeadEnd(ph)
  {
    RoundingIsTight(ph.vaddr, WORD);
    assert (ph.vaddr + ph.filesz) % WORD == ph.vaddr + ph.filesz;
  }

  lemma CopyIsLarge(ph: Segment)
    requires Words(ph) && HasHead(ph) && ph.vaddr + ph.filesz >= WORD
    ensures CopyBytes32(ph) == ph.filesz && ph.vaddr % PG_SZ + (WORD - ph.vaddr) == WORD - Floor(ph.vaddr)
  {
    assert (ph.vaddr + ph.filesz) % WORD == ph.vaddr + ph.filesz - WORD;
  }

  /** The outcome of loading a segment, and the mappings then. */
  ghost function Attempt(vmas: seq<Vma>, ph: Segment, d: int): (Outcome, seq<Vma>) {
    if ph.vaddr % PG_SZ != ph.offset % PG_SZ then (Finished(NonExecutable), vmas)
    else if CopyFaults(ph) then
      var (r, w) := MmapAll(vmas, HeadPart(ph));
      (if r == Ok then Faulted else Finished(r), w)
    else
      var (r, w) := MmapAll(vmas, Pieces32(ph, d));
      (Finished(r), w)
  }

  /** A segment can be mapped. */
  ghost predicate CanMap(vmas: seq<Vma>, ph: Segment, d: int) {
    ph.vaddr % PG_SZ == ph.offset % PG_SZ && !Blocked(vmas, Pieces(ph, d))
  }

  /** On a sound list a plain segment is loaded iff address and offset agree and no piece overlaps a mapping, and
      then exactly its pieces are added. */
  lemma AttemptIsExact(vmas: seq<Vma>, ph: Segment, d: int)
    requires Sound(vmas) && Words(ph) && Plain(ph)
    ensures var (out, w) := Attempt(vmas, ph, d);
            && (out == Finished(Ok) <==> CanMap(vmas, ph, d)) && !out.Faulted?
            && Sound(w) && (forall v :: v in vmas ==> v in w) && (out == Finished(Ok) ==> Grew(vmas, w, Pieces(ph, d)))
  {
    RoundingIsTight(ph.vaddr + Max(ph.filesz, ph.memsz), 0);
    if HasHead(ph) { CopyFaultsIff(ph); }
    if ph.vaddr % PG_SZ == ph.offset % PG_SZ {
      PlainPieces(ph, d);
      PiecesAskable(ph, d);
      MmapAllExact(vmas, Pieces(ph, d));
    }
  }

  /** The page was free, so a segment in place is not disturbed when it is filled. */
  lemma FillKeepsLoaded(vmas: seq<Vma>, mem: map<nat, nat>, vmas': seq<Vma>, mem': map<nat, nat>, page: nat, prot: Access, file: seq<nat>, d: int)
    requires Sound(vmas) && Aligned(page) && page + PG_SZ < WORD
    requires (Ok, vmas') == MmapAll(vmas, [Anon(page, PG_SZ, prot)]) && SameOutsidePage(mem, mem', page)
    ensures Sound(vmas') && KeepsLoaded(vmas, mem, vmas', mem', file, d)
  {
    var v := Anon(page, PG_SZ, prot);
    FirstOfAll(vmas, v);
    OneMapped(vmas, v);
    forall w | w in vmas ensures !Overlaps(page, PG_SZ, w.addr, w.len) { assert v in [v]; }
    forall ph: Segment | Loaded(vmas, mem, file, ph, d) ensures Loaded(vmas', mem', file, ph, d) {
      LoadedStays(vmas, mem, vmas', mem', page, file, ph, d);
    }
  }

  /** More mappings disturb no segment either. */
  lemma RunKeepsLoaded(vmas: seq<Vma>, vmas': seq<Vma>, mem: map<nat, nat>, v: Vma, file: seq<nat>, d: int)
    requires Sound(vmas) && ValidArgs(v.addr, v.len, v.anon, v.file, v.offset) && v.End() < WORD
    requires (Ok, vmas') == MmapAll(vmas, [v])
    ensures Sound(vmas') && KeepsLoaded(vmas, mem, vmas', mem, file, d)
  {
    FirstOfAll(vmas, v);
    OneMapped(vmas, v);
    forall ph: Segment | Loaded(vmas, mem, file, ph, d) ensures Loaded(vmas', mem, file, ph, d) {
      LoadedGrows(vmas, vmas', mem, file, ph, d);
    }
  }

  lemma OneMapped(vmas: seq<Vma>, v: Vma)
    requires Scan(vmas, v.addr, v.len, 0).Free? && ValidArgs(v.addr, v.len, v.anon, v.file, v.offset)
    ensures MmapAll(vmas, [v]) == (Ok, InsertAt(vmas, Scan(vmas, v.addr, v.len, 0).i, v))
  {
    assert [v][1..] == [];
  }

  /** Map an anonymous page and fill it. */
  method MapPartialPage(p: Process, page: nat, prot: Access, buf: seq<nat>, from: nat, to: nat, ghost file: seq<nat>, ghost d: int)
    returns (res: Result)
    requires Aligned(page) && from <= to <= PG_SZ == |buf|
    modifies p`vmas, p`rc, p`mem
    ensures (res, p.vmas) == MmapAll(old(p.vmas), [Anon(page, PG_SZ, prot)]) && p.rc == old(p.rc)
    ensures res == Ok ==> PageHolds(p.mem, page, buf, from, to) && SameOutsidePage(old(p.mem), p.mem, page)
    ensures res != Ok ==> p.vmas == old(p.vmas) && p.mem == old(p.mem)
    ensures old(Sound(p.vmas)) && page + PG_SZ < WORD ==> Sound(p.vmas) && KeepsLoaded(old(p.vmas), old(p.mem), p.vmas, p.mem, file, d)
  {
    ghost var v := Anon(page, PG_SZ, prot);
    if Scan(p.vmas, page, PG_SZ, 0).Free? { OneMapped(p.vmas, v); }
    res := p.Mmap(page, PG_SZ, prot, true, NoFd, 0);
    NoFileMoved(p.rc, old(p.rc), if res == Ok then 1 else if res == InvalidArgs then -1 else 0);
    if res == Ok {
      FillPage(p, page, buf, from, to);
      if old(Sound(p.vmas)) && page + PG_SZ < WORD {
        FillKeepsLoaded(old(p.vmas), old(p.mem), p.vmas, p.mem, page, prot, file, d);
      }
    }
  }

  /** Map a run of pages without filling it. */
  method MapRun(p: Process, v: Vma, fd: FdArg, ghost file: seq<nat>, ghost d: int) returns (res: Result)
    requires v.file == FileOf(fd) && !fd.BadFd? && (fd.OpenFd? ==> fd.dentry in p.rc)
    requires ValidArgs(v.addr, v.len, v.anon, v.file, v.offset)
    modifies p`vmas, p`rc
    ensures (res, p.vmas) == MmapAll(old(p.vmas), [v]) && p.rc.Keys == old(p.rc.Keys)
    ensures old(Sound(p.vmas)) && v.End() < WORD ==> Sound(p.vmas) && KeepsLoaded(old(p.vmas), old(p.mem), p.vmas, p.mem, file, d)
  {
    if Scan(p.vmas, v.addr, v.len, 0).Free? { OneMapped(p.vmas, v); }
    res := p.Mmap(v.addr, v.len, v.prot, v.anon, fd, v.offset);
    if res == Ok && old(Sound(p.vmas)) && v.End() < WORD {
      RunKeepsLoaded(old(p.vmas), p.vmas, p.mem, v, file, d);
    }
  }

  method MapHead(p: Process, ph: Segment, ghost d: int, file: seq<nat>, scratch: seq<nat>) returns (res: Result, buf: seq<nat>)
    requires Words(ph) && !CopyFaults(ph) && |scratch| == PG_SZ && ph.vaddr % PG_SZ == ph.offset % PG_SZ
    modifies p`vmas, p`rc, p`mem
    ensures |buf| == PG_SZ && (res, p.vmas) == MmapAll(old(p.vmas), HeadPart(ph)) && p.rc == old(p.rc)
    ensures res == Ok && Whole(ph, file) ==> HeadDone(p.mem, file, ph)
    ensures old(Sound(p.vmas)) && InAddressSpace(ph) ==> Sound(p.vmas) && KeepsLoaded(old(p.vmas), old(p.mem), p.vmas, p.mem, file, d)
  {
    buf := scratch;
    res := Ok;
    if !Aligned(ph.vaddr) {
      buf := ReadInto(file, Floor(ph.offset), buf);
      HeadPageFits(ph);
      CopyFaultsIff(ph);
      res := MapPartialPage(p, Floor(ph.vaddr), ph.prot, buf, ph.vaddr % PG_SZ, ph.vaddr % PG_SZ + CopyBytes32(ph), file, d);
      if res == Ok && Whole(ph, file) { HeadWritten(p.mem, file, buf, ph); }
    }
  }

  lemma HeadPageFits(ph: Segment)
    requires HasHead(ph)
    ensures Aligned(Floor(ph.vaddr)) && (InAddressSpace(ph) ==> Floor(ph.vaddr) + PG_SZ < WORD)
  {
    RoundedEnds(ph.vaddr, ph.vaddr + Max(ph.filesz, ph.memsz));
  }

  method MapFull(p: Process, ph: Segment, d: int, ghost file: seq<nat>) returns (res: Result)
    requires Words(ph) && d in p.rc && ph.vaddr % PG_SZ == ph.offset % PG_SZ
    modifies p`vmas, p`rc
    ensures (res, p.vmas) == MmapAll(old(p.vmas), FullPart32(ph, d)) && p.rc.Keys == old(p.rc.Keys)
    ensures old(Sound(p.vmas)) && Plain(ph) ==> Sound(p.vmas) && KeepsLoaded(old(p.vmas), old(p.mem), p.vmas, p.mem, file, d)
  {
    res := Ok;
    if FullEnd32(ph) > FullStart32(ph) {
      FullIsValid(ph, d);
      var start, len := FullStart32(ph), FullEnd32(ph) - FullStart32(ph);
      res := MapRun(p, Vma(start, len, ph.prot, false, Some(d), FileOffset32(ph, start)), OpenFd(d), file, d);
    }
  }

  lemma FullIsValid(ph: Segment, d: int)
    requires Words(ph) && ph.vaddr % PG_SZ == ph.offset % PG_SZ && FullEnd32(ph) > FullStart32(ph)
    ensures var v := FullPart32(ph, d)[0]; ValidArgs(v.addr, v.len, v.anon, v.file, v.offset) && v.End() < WORD
  {
    RoundingIsTight(ph.vaddr, 0);
    AlignedMod(Ceil(ph.vaddr));
    assert ph.vaddr % WORD == ph.vaddr;
    Offset32Aligned(ph, FullStart32(ph));
  }

  lemma Offset32Aligned(ph: Segment, at: nat)
    requires ph.vaddr < WORD && ph.vaddr % PG_SZ == ph.offset % PG_SZ && Aligned(at)
    ensures Aligned(FileOffset32(ph, at))
  {
    AlignedTop(at);
    OffsetAligned(ph.offset, ph.vaddr, at + WORD);
    AlignedMod(ph.offset + (at + WORD) - ph.vaddr);
  }

  lemma AlignedTop(at: nat)
    requires Aligned(at)
    ensures Aligned(at + WORD)
  {
  }

  method MapTail(p: Process, ph: Segment, ghost d: int, file: seq<nat>, scratch: seq<nat>) returns (res: Result, buf: seq<nat>)
    requires Words(ph) && |scratch| == PG_SZ && ph.vaddr % PG_SZ == ph.offset % PG_SZ
    modifies p`vmas, p`rc, p`mem
    ensures |buf| == PG_SZ && (res, p.vmas) == MmapAll(old(p.vmas), TailPart32(ph)) && p.rc == old(p.rc)
    ensures res == Ok && Whole(ph, file) && Plain(ph) ==> TailDone(p.mem, file, ph)
    ensures res == Ok && Whole(ph, file) && Plain(ph) && HeadDone(old(p.mem), file, ph) ==> HeadDone(p.mem, file, ph)
    ensures old(Sound(p.vmas)) && Plain(ph) ==> Sound(p.vmas) && KeepsLoaded(old(p.vmas), old(p.mem), p.vmas, p.mem, file, d)
  {
    buf := scratch;
    res := Ok;
    if Plain(ph) { PlainTail(ph); }
    if FileCeil32(ph) > FullEnd32(ph) && FullEnd32(ph) >= FullStart32(ph) {
      TailPageFits(ph);
      var page, end := FullEnd32(ph), (ph.vaddr + ph.filesz) % WORD;
      buf := ReadInto(file, FileOffset32(ph, page), buf);
      res := MapPartialPage(p, page, ph.prot, buf, 0, end - page, file, d);
      if res == Ok && Whole(ph, file) && Plain(ph) {
        TailWritten(p.mem, file, buf, ph);
        if HeadDone(old(p.mem), file, ph) { HeadStays(old(p.mem), p.mem, file, ph); }
      }
    }
  }

  /** The last page is aligned, as is the offset that it is read from, which the code asserts. */
  lemma TailPageFits(ph: Segment)
    requires Words(ph) && ph.vaddr % PG_SZ == ph.offset % PG_SZ
    ensures Aligned(FullEnd32(ph)) && Aligned(FileOffset32(ph, FullEnd32(ph)))
    ensures FullEnd32(ph) <= (ph.vaddr + ph.filesz) % WORD < FullEnd32(ph) + PG_SZ
  {
    RoundingIsTight((ph.vaddr + ph.filesz) % WORD, 0);
    Offset32Aligned(ph, FullEnd32(ph));
  }

  lemma PlainTail(ph: Segment)
    requires Words(ph) && Plain(ph)
    ensures FullEnd32(ph) == FullEnd(ph) && (HasTail32(ph) <==> HasTail(ph)) && (ph.vaddr + ph.filesz) % WORD == ph.vaddr + ph.filesz
    ensures HasTail(ph) ==> FullEnd(ph) + PG_SZ < WORD && FileOffset32(ph, FullEnd(ph)) == ph.offset + (FullEnd(ph) - ph.vaddr)
  {
    BoundsAreRightIff(ph);
    TailInSpace(ph);
    if HasTail(ph) { TailOffset(ph); }
  }

  lemma TailInSpace(ph: Segment)
    requires InAddressSpace(ph)
    ensures ph.vaddr + ph.filesz <= FileCeil(ph) < WORD && (HasTail(ph) ==> FullEnd(ph) + PG_SZ == FileCeil(ph))
  {
    LargerEnd(ph);
    RoundedEnds(ph.vaddr, ph.vaddr + ph.filesz);
  }

  lemma TailOffset(ph: Segment)
    requires Words(ph) && ph.offset + ph.filesz < WORD && HasTail(ph) && FullEnd(ph) < WORD
    ensures FileOffset32(ph, FullEnd(ph)) == ph.offset + (FullEnd(ph) - ph.vaddr)
  {
    RoundingIsTight(ph.vaddr, 0);
    FileOffsetIsRightIff(ph, FullEnd(ph));
  }

  method MapRest(p: Process, ph: Segment, ghost d: int, ghost file: seq<nat>) returns (res: Result)
    requires Words(ph)
    modifies p`vmas, p`rc
    ensures (res, p.vmas) == MmapAll(old(p.vmas), RestPart32(ph)) && p.rc.Keys == old(p.rc.Keys)
    ensures old(Sound(p.vmas)) && Plain(ph) ==> Sound(p.vmas) && KeepsLoaded(old(p.vmas), old(p.mem), p.vmas, p.mem, file, d)
  {
    res := Ok;
    if MemCeil32(ph) > FileCeil32(ph) {
      RestIsValid(ph);
      res := MapRun(p, Anon(FileCeil32(ph), MemCeil32(ph) - FileCeil32(ph), ph.prot), NoFd, file, d);
    }
  }

  lemma RestIsValid(ph: Segment)
    requires Words(ph)
    ensures Aligned(FileCeil32(ph))
  {
    RoundingIsTight((ph.vaddr + ph.filesz) % WORD, 0);
    AlignedMod(Ceil((ph.vaddr + ph.filesz) % WORD));
  }

  /** The four stages. */
  method MapPieces(p: Process, ph: Segment, d: int, file: seq<nat>, scratch: seq<nat>) returns (res: Result, buf: seq<nat>)
    requires Words(ph) && !CopyFaults(ph) && d in p.rc && |scratch| == PG_SZ && ph.vaddr % PG_SZ == ph.offset % PG_SZ
    modifies p`vmas, p`rc, p`mem
    ensures |buf| == PG_SZ && (res, p.vmas) == MmapAll(old(p.vmas), Pieces32(ph, d)) && p.rc.Keys == old(p.rc.Keys)
    ensures old(Sound(p.vmas)) && Plain(ph) ==> Sound(p.vmas) && KeepsLoaded(old(p.vmas), old(p.mem), p.vmas, p.mem, file, d)
    ensures res == Ok && Whole(ph, file) && Plain(ph) ==> HeadDone(p.mem, file, ph) && TailDone(p.mem, file, ph)
  {
    ghost var h, f, t, r := HeadPart(ph), FullPart32(ph, d), TailPart32(ph), RestPart32(ph);
    MmapAllAppend(p.vmas, h, f);
    MmapAllAppend(p.vmas, h + f, t);
    MmapAllAppend(p.vmas, h + f + t, r);
    res, buf := MapHead(p, ph, d, file, scratch);
    if res != Ok { return; }
    res := MapFull(p, ph, d, file);
    if res != Ok { return; }
    res, buf := MapTail(p, ph, d, file, buf);
    if res != Ok { return; }
    res := MapRest(p, ph, d, file);
  }

  /** The mappings of one segment, whatever its numbers are.  A plain one is in place if it can be mapped. */
  method LoadSegment(p: Process, ph: Segment, d: int, file: seq<nat>, scratch: seq<nat>) returns (out: Outcome, buf: seq<nat>)
    requires Words(ph) && d in p.rc && |scratch| == PG_SZ
    modifies p`vmas, p`rc, p`mem
    ensures |buf| == PG_SZ && (out, p.vmas) == Attempt(old(p.vmas), ph, d) && p.rc.Keys == old(p.rc.Keys)
    ensures old(Sound(p.vmas)) && Plain(ph) ==>
              && (out == Finished(Ok) <==> CanMap(old(p.vmas), ph, d)) && !out.Faulted?
              && Sound(p.vmas) && KeepsLoaded(old(p.vmas), old(p.mem), p.vmas, p.mem, file, d)
              && (out == Finished(Ok) ==> Grew(old(p.vmas), p.vmas, Pieces(ph, d)))
              && (out == Finished(Ok) && Whole(ph, file) ==> Loaded(p.vmas, p.mem, file, ph, d))
  {
    if old(Sound(p.vmas)) && Plain(ph) { AttemptIsExact(p.vmas, ph, d); }
    if ph.vaddr % PG_SZ != ph.offset % PG_SZ {
      return Finished(NonExecutable), scratch;
    }
    if CopyFaults(ph) {
      out, buf := FaultingHead(p, ph, file, scratch);
      return;
    }
    var res;
    res, buf := MapPieces(p, ph, d, file, scratch);
    out := Finished(res);
    if old(Sound(p.vmas)) && Plain(ph) && res == Ok && Whole(ph, file) {
      AssembleLoaded(p.vmas, p.mem, file, ph, d);
    }
  }

  /** The first page is mapped and read; then the copy faults. */
  method FaultingHead(p: Process, ph: Segment, file: seq<nat>, scratch: seq<nat>) returns (out: Outcome, buf: seq<nat>)
    requires CopyFaults(ph) && |scratch| == PG_SZ
    modifies p`vmas, p`rc
    ensures |buf| == PG_SZ && p.rc.Keys == old(p.rc.Keys)
    ensures var (r, w) := MmapAll(old(p.vmas), HeadPart(ph)); p.vmas == w && out == if r == Ok then Faulted else Finished(r)
  {
    buf := ReadInto(file, Floor(ph.offset), scratch);
    HeadPageFits(ph);
    var res := MapRun(p, Anon(Floor(ph.vaddr), PG_SZ, ph.prot), NoFd, file, 0);
    out := if res == Ok then Faulted else Finished(res);
  }

  // ----- All segments -----

  /** The outcome of loading all segments, and the mappings then. */
  ghost function LoadAll(vmas: seq<Vma>, phs: seq<Segment>, d: int): (Outcome, seq<Vma>)
    decreases |phs|
  {
    if phs == [] then (Finished(Ok), vmas)
    else AndThen(LoadAll(vmas, phs[..|phs| - 1], d), phs[|phs| - 1], d)
  }

  /** One more segment, if it is to be loaded and those before it are. */
  ghost function AndThen(r: (Outcome, seq<Vma>), ph: Segment, d: int): (Outcome, seq<Vma>) {
    if r.0 == Finished(Ok) && ph.load then Attempt(r.1, ph, d) else r
  }

  lemma {:induction false} StopsThere(vmas: seq<Vma>, phs: seq<Segment>, d: int, i: nat)
    requires i <= |phs| && LoadAll(vmas, phs[..i], d).0 != Finished(Ok)
    ensures LoadAll(vmas, phs, d) == LoadAll(vmas, phs[..i], d)
    decreases |phs|
  {
    if i == |phs| {
      assert phs[..i] == phs;
    } else {
      var n := |phs| - 1;
      assert phs[..n][..i] == phs[..i];
      StopsThere(vmas, phs[..n], d, i);
    }
  }

  lemma NextHeader(vmas: seq<Vma>, phs: seq<Segment>, d: int, i: nat)
    requires i < |phs|
    ensures phs[..i + 1] == phs[..i] + [phs[i]] && LoadAll(vmas, phs[..i + 1], d) == AndThen(LoadAll(vmas, phs[..i], d), phs[i], d)
  {
    assert phs[..i + 1][..i] == phs[..i];
  }

  /** The mappings that exist once the segments of `phs` are mapped. */
  ghost function AfterMapping(vmas: seq<Vma>, phs: seq<Segment>, d: int): seq<Vma> {
    if phs == [] then vmas
    else
      var before := AfterMapping(vmas, phs[..|phs| - 1], d);
      var ph := phs[|phs| - 1];
      if ph.load then before + Pieces(ph, d) else before
  }

  /** Segment `i` can be mapped after those in front of it. */
  ghost predicate Mappable(vmas: seq<Vma>, phs: seq<Segment>, d: int, i: nat)
    requires i < |phs|
  {
    phs[i].load ==> CanMap(AfterMapping(vmas, phs[..i], d), phs[i], d)
  }

  ghost predicate AllMappable(vmas: seq<Vma>, phs: seq<Segment>, d: int) {
    forall i :: 0 <= i < |phs| ==> Mappable(vmas, phs, d, i)
  }

  ghost predicate AllPlain(phs: seq<Segment>) {
    forall i :: 0 <= i < |phs| ==> Words(phs[i]) && (phs[i].load ==> Plain(phs[i]))
  }

  lemma SameBlocked(vmas: seq<Vma>, vmas': seq<Vma>, vs: seq<Vma>)
    requires Grew(vmas, vmas', [])
    ensures Blocked(vmas', vs) <==> Blocked(vmas, vs)
  {
  }

  lemma AllMappableSplits(vmas: seq<Vma>, phs: seq<Segment>, d: int)
    requires phs != []
    ensures AllMappable(vmas, phs, d) <==> AllMappable(vmas, phs[..|phs| - 1], d) && Mappable(vmas, phs, d, |phs| - 1)
  {
    var n := |phs| - 1;
    forall i | 0 <= i < n ensures Mappable(vmas, phs, d, i) <==> Mappable(vmas, phs[..n], d, i) {
      assert phs[..n][..i] == phs[..i];
    }
  }

  /** On a sound list plain segments are all loaded iff each can be mapped after those in front of it, and then
      exactly their pieces are added. */
  lemma {:induction false} LoadAllIsExact(vmas: seq<Vma>, phs: seq<Segment>, d: int)
    requires Sound(vmas) && AllPlain(phs)
    ensures var (out, w) := LoadAll(vmas, phs, d);
            && (out == Finished(Ok) <==> AllMappable(vmas, phs, d)) && !out.Faulted?
            && Sound(w) && (out == Finished(Ok) ==> Grew(AfterMapping(vmas, phs, d), w, []))
  {
    if phs == [] {
    } else {
      var n := |phs| - 1;
      LoadAllIsExact(vmas, phs[..n], d);
      AllMappableSplits(vmas, phs, d);
      var (out, w) := LoadAll(vmas, phs[..n], d);
      if out == Finished(Ok) && phs[n].load {
        AttemptIsExact(w, phs[n], d);
        SameBlocked(AfterMapping(vmas, phs[..n], d), w, Pieces(phs[n], d));
      }
    }
  }

  /** The segments of `phs` that are loaded are in place. */
  ghost predicate InPlace(p: Process, phs: seq<Segment>, file: seq<nat>, d: int)
    reads p
  {
    forall i :: 0 <= i < |phs| && phs[i].load && Whole(phs[i], file) ==> Loaded(p.vmas, p.mem, file, phs[i], d)
  }

  /** One turn of the loop over the program headers, which skips those that are not loaded. */
  method LoadHeader(p: Process, ph: Segment, d: int, file: seq<nat>, scratch: seq<nat>, ghost phs: seq<Segment>)
    returns (out: Outcome, buf: seq<nat>)
    requires Words(ph) && d in p.rc && |scratch| == PG_SZ
    modifies p`vmas, p`rc, p`mem
    ensures |buf| == PG_SZ && p.rc.Keys == old(p.rc.Keys)
    ensures (out, p.vmas) == AndThen((Finished(Ok), old(p.vmas)), ph, d)
    ensures old(Sound(p.vmas)) && (ph.load ==> Plain(ph)) ==> Sound(p.vmas) && KeepsLoaded(old(p.vmas), old(p.mem), p.vmas, p.mem, file, d)
    ensures old(Sound(p.vmas)) && (ph.load ==> Plain(ph)) && out == Finished(Ok) && old(InPlace(p, phs, file, d)) ==>
              InPlace(p, phs + [ph], file, d)
  {
    out, buf := Finished(Ok), scratch;
    if ph.load {
      out, buf := LoadSegment(p, ph, d, file, buf);
    }
  }

  /** The loop over the program headers, which stops at the first segment that cannot be mapped. */
  method LoadLoop(p: Process, phs: seq<Segment>, d: int, file: seq<nat>, scratch: seq<nat>) returns (out: Outcome)
    requires (forall i :: 0 <= i < |phs| ==> Words(phs[i])) && d in p.rc && |scratch| == PG_SZ
    modifies p`vmas, p`rc, p`mem
    ensures (out, p.vmas) == LoadAll(old(p.vmas), phs, d)
    ensures old(Sound(p.vmas)) && AllPlain(phs) ==>
              && Sound(p.vmas) && KeepsLoaded(old(p.vmas), old(p.mem), p.vmas, p.mem, file, d)
              && (out == Finished(Ok) ==> InPlace(p, phs, file, d))
  {
    ghost var plain := Sound(p.vmas) && AllPlain(phs);
    var buf := scratch;
    var i := 0;
    out := Finished(Ok);
    while i < |phs|
      invariant 0 <= i <= |phs| && |buf| == PG_SZ && p.rc.Keys == old(p.rc.Keys)
      invariant LoadAll(old(p.vmas), phs[..i], d) == (Finished(Ok), p.vmas)
      invariant plain ==> Sound(p.vmas) && KeepsLoaded(old(p.vmas), old(p.mem), p.vmas, p.mem, file, d) && InPlace(p, phs[..i], file, d)
    {
      ghost var vmas, mem := p.vmas, p.mem;
      out, buf := LoadHeader(p, phs[i], d, file, buf, phs[..i]);
      NextHeader(old(p.vmas), phs, d, i);
      if plain { StillLoaded(old(p.vmas), old(p.mem), vmas, mem, p.vmas, p.mem, file, d); }
      i := i + 1;
      if out != Finished(Ok) {
        StopsThere(old(p.vmas), phs, d, i);
        return;
      }
    }
    assert phs[..i] == phs;
    out := Finished(Ok);
  }

  lemma StillLoaded(vmas0: seq<Vma>, mem0: map<nat, nat>, vmas1: seq<Vma>, mem1: map<nat, nat>, vmas2: seq<Vma>, mem2: map<nat, nat>,
                    file: seq<nat>, d: int)
    requires KeepsLoaded(vmas0, mem0, vmas1, mem1, file, d) && KeepsLoaded(vmas1, mem1, vmas2, mem2, file, d)
    ensures KeepsLoaded(vmas0, mem0, vmas2, mem2, file, d)
  {
  }

  /** The segments are tried one after the other; if all are plain and each can be mapped, then every segment is in
      place at the end. */
  method LoadSegments(p: Process, phs: seq<Segment>, d: int, file: seq<nat>, scratch: seq<nat>) returns (out: Outcome)
    requires (forall i :: 0 <= i < |phs| ==> Words(phs[i])) && d in p.rc && |scratch| == PG_SZ
    modifies p`vmas, p`rc, p`mem
    ensures (out, p.vmas) == LoadAll(old(p.vmas), phs, d)
    ensures old(Sound(p.vmas)) && AllPlain(phs) ==>
              && (out == Finished(Ok) <==> AllMappable(old(p.vmas), phs, d)) && !out.Faulted?
              && Sound(p.vmas) && KeepsLoaded(old(p.vmas), old(p.mem), p.vmas, p.mem, file, d)
              && (out == Finished(Ok) ==> Grew(AfterMapping(old(p.vmas), phs, d), p.vmas, []) && InPlace(p, phs, file, d))
  {
    if Sound(p.vmas) && AllPlain(phs) { LoadAllIsExact(p.vmas, phs, d); }
    out := LoadLoop(p, phs, d, file, scratch);
  }
}
