/** The list of virtual memory areas of a process (src/kernel/proc/process.cc). */
module VirtualMemory {
  import opened Options
  import opened PageMath
  import opened Sequences

  datatype Result = Ok | BadFD | MappingExists | InvalidArgs | NonExecutable

  datatype Access = Access(executable: bool, writable: bool, readable: bool)

  /** A mapping, file-backed if it names a file. */
  datatype Vma = Vma(addr: nat, len: nat, prot: Access, anon: bool, file: Option<int>, offset: nat) {
    function End(): nat { addr + len }
  }

  // ----- The list -----

  ghost predicate GoodVma(v: Vma) {
    v.len > 0 && Aligned(v.addr) && Aligned(v.offset) && (v.file.None? <==> v.anon)
  }

  ghost predicate SortedDisjoint(vmas: seq<Vma>) {
    && (forall i :: 0 <= i < |vmas| ==> GoodVma(vmas[i]))
    && (forall i, j :: 0 <= i < j < |vmas| ==> vmas[i].End() <= vmas[j].addr)
  }

  /** Sorted, disjoint, and no end of a mapping wraps. */
  ghost predicate Sound(vmas: seq<Vma>) {
    SortedDisjoint(vmas) && forall i :: 0 <= i < |vmas| ==> vmas[i].End() < WORD
  }

  /** The overlap test as it is computed, in 32 bits. */
  predicate Overlaps32(base1: nat, len1: nat, base2: nat, len2: nat) {
    base1 < (base2 + len2) % WORD && base2 < (base1 + len1) % WORD
  }

  /** The test finds every overlap with a mapping iff the end of the request does not wrap. */
  lemma OverlapTestIsSoundUnlessItWraps(addr: nat, len: nat, prot: Access)
    requires addr < WORD && Aligned(addr) && 0 < len < WORD
    ensures (forall v: Vma :: Sound([v]) && Overlaps(addr, len, v.addr, v.len) ==> Overlaps32(addr, len, v.addr, v.len))
            <==> addr + len < WORD
  {
    if addr + len >= WORD {
      var v := Vma(addr, 1, prot, true, None, 0);
      assert Sound([v]) && Overlaps(addr, len, v.addr, v.len);
      assert (addr + len) % WORD == addr + len - WORD;
      assert !Overlaps32(addr, len, v.addr, v.len);
    } else {
      forall v: Vma | Sound([v]) && Overlaps(addr, len, v.addr, v.len) ensures Overlaps32(addr, len, v.addr, v.len) {
        assert [v][0].End() < WORD;
      }
    }
  }

  /** The loop may stop at the first mapping that starts above the request: in a sorted list no
      later one can overlap. */
  lemma EarlyBreakIsSound(vmas: seq<Vma>, i: nat, v: Vma)
    requires SortedDisjoint(vmas) && i <= |vmas| && GoodVma(v)
    requires forall x :: 0 <= x < i ==> !Overlaps(v.addr, v.len, vmas[x].addr, vmas[x].len) && vmas[x].addr <= v.addr
    requires i < |vmas| ==> !Overlaps(v.addr, v.len, vmas[i].addr, vmas[i].len) && vmas[i].addr > v.addr
    ensures SortedDisjoint(InsertAt(vmas, i, v))
    ensures forall x :: 0 <= x < |vmas| ==> !Overlaps(v.addr, v.len, vmas[x].addr, vmas[x].len)
  {
    assert forall x :: 0 <= x < i ==> vmas[x].End() <= v.addr;
    assert forall x :: i <= x < |vmas| ==> v.End() <= vmas[x].addr;
  }

  datatype FdArg = NoFd | BadFd | OpenFd(dentry: int)

  /** The checks of the VMA constructor. */
  predicate ValidArgs(addr: nat, len: nat, anon: bool, file: Option<int>, offset: nat) {
    (file.None? <==> anon) && Aligned(addr) && Aligned(offset) && len > 0
  }

  function FileOf(fd: FdArg): Option<int> { if fd.OpenFd? then Some(fd.dentry) else None }

  /** The number of mappings of a file. */
  ghost function MappingsOf(vmas: seq<Vma>, d: int): nat {
    if vmas == [] then 0
    else MappingsOf(vmas[..|vmas| - 1], d) + if vmas[|vmas| - 1].file == Some(d) then 1 else 0
  }

  lemma {:induction false} MappingsAppend(a: seq<Vma>, b: seq<Vma>, d: int)
    ensures MappingsOf(a + b, d) == MappingsOf(a, d) + MappingsOf(b, d)
  {
    if b == [] {
      assert a + b == a;
    } else {
      var n := |b| - 1;
      MappingsAppend(a, b[..n], d);
      assert (a + b)[..|a + b| - 1] == a + b[..n];
    }
  }

  lemma MappingsInsert(vmas: seq<Vma>, i: nat, v: Vma, d: int)
    requires i <= |vmas|
    ensures MappingsOf(InsertAt(vmas, i, v), d) == MappingsOf(vmas, d) + if v.file == Some(d) then 1 else 0
  {
    assert vmas == vmas[..i] + vmas[i..];
    MappingsAppend(vmas[..i], vmas[i..], d);
    MappingsAppend(vmas[..i], [v], d);
    MappingsAppend(vmas[..i] + [v], vmas[i..], d);
    assert InsertAt(vmas, i, v) == vmas[..i] + [v] + vmas[i..];
    assert [v][..0] == [];
    assert MappingsOf([], d) == 0;
  }

  /** The list of mappings has `v` in addition. */
  ghost predicate OneMore(vmas: seq<Vma>, was: seq<Vma>, v: Vma) {
    && v in vmas && (forall w :: w in was ==> w in vmas) && (forall w :: w in vmas ==> w in was || w == v)
    && forall d :: MappingsOf(vmas, d) == MappingsOf(was, d) + if v.file == Some(d) then 1 else 0
  }

  lemma InsertIsOneMore(vmas: seq<Vma>, i: nat, v: Vma)
    requires i <= |vmas|
    ensures OneMore(InsertAt(vmas, i, v), vmas, v)
  {
    forall d ensures MappingsOf(InsertAt(vmas, i, v), d) == MappingsOf(vmas, d) + if v.file == Some(d) then 1 else 0 {
      MappingsInsert(vmas, i, v, d);
    }
  }

  /** The reference count of the file, if there is one, has moved by k, and no other. */
  ghost predicate Moved(rc: map<int, int>, was: map<int, int>, file: Option<int>, k: int) {
    rc.Keys == was.Keys && forall d :: d in was ==> rc[d] == was[d] + if file == Some(d) then k else 0
  }

  lemma NoFileMoved(rc: map<int, int>, was: map<int, int>, k: int)
    requires Moved(rc, was, None, k)
    ensures rc == was
  {
    assert forall d :: d in rc ==> d in was && rc[d] == was[d];
  }

  ghost predicate Clashes(vmas: seq<Vma>, addr: nat, len: nat) {
    exists x :: 0 <= x < |vmas| && Overlaps(addr, len, vmas[x].addr, vmas[x].len)
  }

  /** The request overlaps a mapping as the loop of `mmap` sees it. */
  ghost predicate Clashes32(vmas: seq<Vma>, addr: nat, len: nat) {
    exists x :: 0 <= x < |vmas| && Overlaps32(addr, len, vmas[x].addr, vmas[x].len)
  }

  /** What it sees is what there is, unless the end of the request wraps. */
  lemma ClashesAreSeen(vmas: seq<Vma>, addr: nat, len: nat)
    requires Sound(vmas) && addr + len < WORD
    ensures Clashes32(vmas, addr, len) <==> Clashes(vmas, addr, len)
  {
    forall x | 0 <= x < |vmas|
      ensures Overlaps32(addr, len, vmas[x].addr, vmas[x].len) <==> Overlaps(addr, len, vmas[x].addr, vmas[x].len)
    {
      assert GoodVma(vmas[x]);
    }
  }

  /** Once a mapping starts above the request and is not seen to overlap it, no later one is. */
  lemma LaterNotSeen(vmas: seq<Vma>, addr: nat, len: nat, i: nat, x: nat)
    requires Sound(vmas) && i <= x < |vmas| && vmas[i].addr > addr
    requires !Overlaps32(addr, len, vmas[i].addr, vmas[i].len)
    ensures !Overlaps32(addr, len, vmas[x].addr, vmas[x].len)
  {
    assert GoodVma(vmas[i]) && GoodVma(vmas[x]);
    assert i < x ==> vmas[i].End() <= vmas[x].addr;
  }

  datatype Slot = Clash | Free(i: nat)

  /** What the loop of `mmap` finds from the i-th mapping on, in any list. */
  function Scan(vmas: seq<Vma>, addr: nat, len: nat, i: nat): (r: Slot)
    requires i <= |vmas|
    ensures r.Free? ==> i <= r.i <= |vmas|
    decreases |vmas| - i
  {
    if i == |vmas| then Free(i)
    else if Overlaps32(addr, len, vmas[i].addr, vmas[i].len) then Clash
    else if vmas[i].addr > addr then Free(i)
    else Scan(vmas, addr, len, i + 1)
  }

  /** In a sound list that is whether the request is seen to overlap, or else its place in the order. */
  lemma {:induction false} ScanIsExact(vmas: seq<Vma>, addr: nat, len: nat, i: nat)
    requires Sound(vmas) && i <= |vmas|
    requires forall x :: 0 <= x < i ==> vmas[x].addr <= addr && !Overlaps32(addr, len, vmas[x].addr, vmas[x].len)
    ensures var r := Scan(vmas, addr, len, i);
            && (r.Clash? <==> Clashes32(vmas, addr, len))
            && (r.Free? ==> (forall x :: 0 <= x < r.i ==> vmas[x].addr <= addr) && (r.i < |vmas| ==> vmas[r.i].addr > addr))
    decreases |vmas| - i
  {
    if i == |vmas| {
    } else if Overlaps32(addr, len, vmas[i].addr, vmas[i].len) {
    } else if vmas[i].addr > addr {
      forall x | i <= x < |vmas| ensures !Overlaps32(addr, len, vmas[x].addr, vmas[x].len) {
        LaterNotSeen(vmas, addr, len, i, x);
      }
    } else {
      ScanIsExact(vmas, addr, len, i + 1);
    }
  }

  /** The loop of `mmap`. */
  method FindSlot(vmas: seq<Vma>, addr: nat, len: nat) returns (r: Slot)
    ensures r == Scan(vmas, addr, len, 0)
    ensures Sound(vmas) ==> (r.Clash? <==> Clashes32(vmas, addr, len))
  {
    if Sound(vmas) { ScanIsExact(vmas, addr, len, 0); }
    var i := 0;
    while i < |vmas|
      invariant i <= |vmas| && Scan(vmas, addr, len, 0) == Scan(vmas, addr, len, i)
    {
      if Overlaps32(addr, len, vmas[i].addr, vmas[i].len) {
        return Clash;
      }
      if vmas[i].addr > addr {
        return Free(i);
      }
      i := i + 1;
    }
    return Free(i);
  }

  /** A mapping put where the loop stops keeps the list sorted and disjoint iff its end does not wrap, or all
      other mappings end below it. */
  lemma InsertKeepsOrderIff(vmas: seq<Vma>, v: Vma)
    requires Sound(vmas) && GoodVma(v) && Scan(vmas, v.addr, v.len, 0).Free?
    ensures SortedDisjoint(InsertAt(vmas, Scan(vmas, v.addr, v.len, 0).i, v))
            <==> v.End() < WORD || forall x :: 0 <= x < |vmas| ==> vmas[x].End() <= v.addr
    ensures Sound(InsertAt(vmas, Scan(vmas, v.addr, v.len, 0).i, v)) <==> v.End() < WORD
  {
    ScanIsExact(vmas, v.addr, v.len, 0);
    var i := Scan(vmas, v.addr, v.len, 0).i;
    var r := InsertAt(vmas, i, v);
    if v.End() < WORD {
      ClashesAreSeen(vmas, v.addr, v.len);
      EarlyBreakIsSound(vmas, i, v);
    } else {
      assert r[i].End() >= WORD;
      if x :| 0 <= x < |vmas| && vmas[x].End() > v.addr {
        assert if x < i then r[x] == vmas[x] && r[x].End() > r[i].addr
               else r[x + 1] == vmas[x] && r[i].End() > r[x + 1].addr;
      }
    }
  }

  // ----- Ends that wrap -----

  /** The addresses of a mapping in an address space of 32 bits. */
  predicate Covers(v: Vma, a: nat) { InRange(a, v.addr, v.len) || InRange(a + WORD, v.addr, v.len) }

  /** A mapping whose end wraps has low addresses too, and so it shares an address with another iff that one
      reaches above its start or begins below its wrapped end. */
  lemma WrappedSharesIff(v: Vma, w: Vma)
    requires v.addr < WORD <= v.End() && w.len > 0 && w.End() < WORD
    ensures (exists a: nat :: a < WORD && Covers(v, a) && Covers(w, a)) <==> w.End() > v.addr || w.addr < v.End() - WORD
  {
    if w.End() > v.addr {
      var a := if w.addr < v.addr then v.addr else w.addr;
      assert Covers(v, a) && Covers(w, a);
    } else if w.addr < v.End() - WORD {
      assert Covers(v, w.addr) && Covers(w, w.addr);
    }
  }

  /** The mapping in which the page-fault handler finds an address. */
  predicate Backs(v: Vma, a: nat) { v.addr <= a < (v.addr + v.len) % WORD }

  /** It finds the addresses of a mapping in it, unless its end wraps: then it finds none. */
  lemma BacksItsAddressesIff(v: Vma)
    requires v.addr < WORD && 0 < v.len < WORD
    ensures (forall a: nat :: a < WORD ==> (Backs(v, a) <==> Covers(v, a))) <==> v.End() < WORD
    ensures v.End() >= WORD ==> forall a: nat :: !Backs(v, a)
  {
    if v.End() >= WORD {
      assert (v.addr + v.len) % WORD == v.addr + v.len - WORD;
      assert Covers(v, v.addr) && !Backs(v, v.addr);
    }
  }

  /** A request from 0x7000_0000 to beyond the end of the address space is accepted over a mapping at
      0x8000_0000. */
  lemma AcceptedOverMapping(prot: Access)
    ensures var w, v := Vma(0x8000_0000, PG_SZ, prot, true, None, 0), Vma(0x7000_0000, 0x9800_0000, prot, true, None, 0);
            && Sound([w]) && ValidArgs(v.addr, v.len, v.anon, v.file, v.offset)
            && Scan([w], v.addr, v.len, 0) == Free(0) && Overlaps(v.addr, v.len, w.addr, w.len)
            && !SortedDisjoint(InsertAt([w], 0, v))
  {
    var w, v := Vma(0x8000_0000, PG_SZ, prot, true, None, 0), Vma(0x7000_0000, 0x9800_0000, prot, true, None, 0);
    assert (v.addr + v.len) % WORD == 0x0800_0000;
    assert [w][0].addr > v.addr && [w][0].End() > v.addr;
    InsertKeepsOrderIff([w], v);
  }

  class Process {
    var vmas: seq<Vma>
    var rc: map<int, int>      // reference counts of the dentries
    var mem: map<nat, nat>     // bytes of the address space that the kernel has written

    /** The mapping comes into being: its constructor takes a reference, and it is put at its place. */
    method Establish(i: nat, v: Vma)
      requires i <= |vmas| && (v.file.Some? ==> v.file.value in rc)
      modifies this`vmas, this`rc
      ensures vmas == InsertAt(old(vmas), i, v) && Moved(rc, old(rc), v.file, 1)
    {
      if v.file.Some? {
        rc := rc[v.file.value := rc[v.file.value] + 1];
      }
      vmas := InsertAt(vmas, i, v);
    }

    /** The constructor rejects the mapping.  It has taken no reference then, but the destructor, which runs
        when the rejected mapping is erased again, always drops one. */
    method Reject(file: Option<int>)
      requires file.Some? ==> file.value in rc
      modifies this`rc
      ensures Moved(rc, old(rc), file, -1)
    {
      if file.Some? {
        rc := rc[file.value := rc[file.value] - 1];
      }
    }

    /** `mmap`, on any list of mappings. */
    method Mmap(addr: nat, len: nat, prot: Access, anon: bool, fd: FdArg, offset: nat) returns (res: Result)
      requires fd.OpenFd? ==> fd.dentry in rc
      modifies this`vmas, this`rc
      ensures res == BadFD <==> fd.BadFd?
      ensures res == MappingExists <==> !fd.BadFd? && Scan(old(vmas), addr, len, 0).Clash?
      ensures res == InvalidArgs <==>
                !fd.BadFd? && Scan(old(vmas), addr, len, 0).Free? && !ValidArgs(addr, len, anon, FileOf(fd), offset)
      ensures res != NonExecutable
      ensures res == Ok ==>
                var v := Vma(addr, len, prot, anon, FileOf(fd), offset);
                vmas == InsertAt(old(vmas), Scan(old(vmas), addr, len, 0).i, v) && OneMore(vmas, old(vmas), v)
      ensures res != Ok ==> vmas == old(vmas)
      ensures Moved(rc, old(rc), FileOf(fd), if res == Ok then 1 else if res == InvalidArgs then -1 else 0)
    {
      if fd.BadFd? {
        return BadFD;
      }
      var file := FileOf(fd);
      var slot := FindSlot(vmas, addr, len);
      if slot.Clash? {
        return MappingExists;
      }
      if !ValidArgs(addr, len, anon, file, offset) {
        Reject(file);
        return InvalidArgs;
      }
      var v := Vma(addr, len, prot, anon, file, offset);
      InsertIsOneMore(vmas, slot.i, v);
      Establish(slot.i, v);
      return Ok;
    }

    /** On a sound list it fails iff the request is seen to overlap or has invalid arguments.  The list stays
        sound iff no request with a wrapping end is accepted, and sorted and disjoint iff no such request is
        accepted below the end of another mapping. */
    method MmapSound(addr: nat, len: nat, prot: Access, anon: bool, fd: FdArg, offset: nat) returns (res: Result)
      requires Sound(vmas) && (fd.OpenFd? ==> fd.dentry in rc)
      modifies this`vmas, this`rc
      ensures res == BadFD <==> fd.BadFd?
      ensures res == MappingExists <==> !fd.BadFd? && Clashes32(old(vmas), addr, len)
      ensures res == InvalidArgs <==> !fd.BadFd? && !Clashes32(old(vmas), addr, len) && !ValidArgs(addr, len, anon, FileOf(fd), offset)
      ensures res != NonExecutable
      ensures res == Ok ==> OneMore(vmas, old(vmas), Vma(addr, len, prot, anon, FileOf(fd), offset))
      ensures res != Ok ==> vmas == old(vmas)
      ensures Sound(vmas) <==> !(res == Ok && addr + len >= WORD)
      ensures SortedDisjoint(vmas) <==>
                !(res == Ok && addr + len >= WORD && exists x :: 0 <= x < |old(vmas)| && old(vmas)[x].End() > addr)
    {
      ScanIsExact(vmas, addr, len, 0);
      ghost var was, v := vmas, Vma(addr, len, prot, anon, FileOf(fd), offset);
      res := Mmap(addr, len, prot, anon, fd, offset);
      if res == Ok { InsertKeepsOrderIff(was, v); }
    }

    /** A mapping request keeps references and mappings in step unless it is file-backed and
        rejected by the constructor, in which case a reference is lost. */
    method MmapCounted(addr: nat, len: nat, prot: Access, anon: bool, fd: FdArg, offset: nat, ghost d: int) returns (res: Result)
      requires d in rc && (fd.OpenFd? ==> fd.dentry in rc)
      modifies this`vmas, this`rc
      ensures rc.Keys == old(rc.Keys)
      ensures rc[d] - MappingsOf(vmas, d) == old(rc[d] - MappingsOf(vmas, d)) <==>
              !(fd == OpenFd(d) && Scan(old(vmas), addr, len, 0).Free? && !ValidArgs(addr, len, anon, Some(d), offset))
    {
      res := Mmap(addr, len, prot, anon, fd, offset);
    }
  }
}
