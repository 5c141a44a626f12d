/** Reading a file of a FAT32 volume page by page (`Inode::read` in src/kernel/fs/vfs.cc, the FAT walk
    in src/kernel/fs/drivers/fat32.cc). The disk does not change. */
module FileRead {
  import opened Division
  import opened Options
  import opened PageMath

  type Byte = x: nat | x < 256

  /** The parameters of a volume: first sector of its FAT and of its data, size of a cluster in
      sectors of 512 bytes and in bytes. */
  datatype Volume = Volume(fatLba: nat, dataLba: nat, perCluster: nat, bytes: nat)

  /** The number of the cluster of a file in which offset `i` falls. */
  function Index(i: nat, bytes: nat): nat
    requires bytes > 0
  {
    i / bytes
  }

  // ----- The FAT -----

  function Masked(cluster: nat): nat { cluster % 0x1000_0000 }

  predicate IsLast(cluster: nat) { Masked(cluster) >= 0x0FFF_FFF7 }

  function FatSector(v: Volume, cluster: nat): nat { v.fatLba + Masked(cluster) / 128 }

  /** Where the entry of a cluster belongs: entries are four bytes. */
  function EntryPosition(v: Volume, cluster: nat): nat { v.fatLba * 512 + 4 * Masked(cluster) }

  /** The page and the position in it at which the entry is read, computed in 32 bits. */
  function EntryPage32(v: Volume, cluster: nat): nat { Floor(FatSector(v, cluster) % WORD * 512 % WORD) }
  function EntryOffset32(v: Volume, cluster: nat): nat { FatSector(v, cluster) % WORD % 8 * 512 + 4 * (cluster % 128) }

  lemma SectorInPage(sector: nat)
    ensures Floor(sector * 512) + sector % 8 * 512 == sector * 512
  {
  }

  /** Sector numbers count in 32 bits up to 0x80_0000. */
  lemma BytesWrap(sector: nat)
    ensures sector * 512 % WORD == sector % 0x80_0000 * 512
  {
    DivMod(sector * 512, WORD, sector / 0x80_0000, sector % 0x80_0000 * 512);
  }

  lemma SectorWraps(sector: nat)
    ensures sector % WORD % 0x80_0000 == sector % 0x80_0000
    ensures sector % WORD % 8 == sector % 0x80_0000 % 8
  {
    var q, r := sector / 0x80_0000, sector % 0x80_0000;
    var t := q - sector / WORD * 512;
    assert sector % WORD == t * 0x80_0000 + r == (t * 0x10_0000 + r / 8) * 8 + r % 8;
    DivMod(sector % WORD, 0x80_0000, t, r);
    DivMod(sector % WORD, 8, t * 0x10_0000 + r / 8, r % 8);
  }

  lemma EntryIsAt(v: Volume, cluster: nat)
    ensures EntryPage32(v, cluster) + EntryOffset32(v, cluster) == FatSector(v, cluster) * 512 % WORD + 4 * (cluster % 128)
  {
    var sector := FatSector(v, cluster);
    SectorWraps(sector);
    BytesWrap(sector);
    BytesWrap(sector % WORD);
    SectorInPage(sector % 0x80_0000);
  }

  lemma MaskedSplits(cluster: nat)
    ensures Masked(cluster) == Masked(cluster) / 128 * 128 + cluster % 128
  {
    var q, m := cluster / 0x1000_0000, Masked(cluster);
    assert cluster == (q * 0x20_0000 + m / 128) * 128 + m % 128;
    DivMod(cluster, 128, q * 0x20_0000 + m / 128, m % 128);
  }

  /** The entry that is read is the cluster's own iff its sector lies in the first 4 GiB of the disk. */
  lemma EntryReadIsRight(v: Volume, cluster: nat)
    ensures EntryPage32(v, cluster) + EntryOffset32(v, cluster) == EntryPosition(v, cluster) <==> FatSector(v, cluster) * 512 < WORD
  {
    EntryIsAt(v, cluster);
    MaskedSplits(cluster);
  }

  /** A number as k bytes, the least significant one first. */
  function Encode(n: nat, k: nat): (bytes: seq<Byte>)
    ensures |bytes| == k
  {
    if k == 0 then [] else [n % 256] + Encode(n / 256, k - 1)
  }

  /** The number that bytes stand for, the least significant one first. */
  function Decode(bytes: seq<Byte>): nat {
    if bytes == [] then 0 else bytes[0] + 256 * Decode(bytes[1..])
  }

  function Pow256(k: nat): nat { if k == 0 then 1 else 256 * Pow256(k - 1) }

  lemma {:induction false} DecodeEncode(n: nat, k: nat)
    requires n < Pow256(k)
    ensures Decode(Encode(n, k)) == n
    decreases k
  {
    if k == 0 {
    } else {
      DecodeEncode(n / 256, k - 1);
      assert Encode(n, k)[1..] == Encode(n / 256, k - 1);
    }
  }

  lemma {:induction false} EncodeDecode(bytes: seq<Byte>)
    ensures Decode(bytes) < Pow256(|bytes|) && Encode(Decode(bytes), |bytes|) == bytes
  {
    if bytes == [] {
    } else {
      EncodeDecode(bytes[1..]);
      assert bytes == [bytes[0]] + bytes[1..];
    }
  }

  /** The cluster 3 and an end marker, as they stand in a FAT. */
  lemma EncodedEntries()
    ensures Encode(3, 4) == [3, 0, 0, 0] && Encode(0x0FFF_FFFF, 4) == [0xFF, 0xFF, 0xFF, 0x0F]
  {
    assert Encode(0, 0) == [];
    assert Encode(0, 1) == [0] && Encode(0, 2) == [0, 0] && Encode(0, 3) == [0, 0, 0];
    assert Encode(0xF, 1) == [0xF] && Encode(0xFFF, 2) == [0xFF, 0xF] && Encode(0xF_FFFF, 3) == [0xFF, 0xFF, 0xF];
  }

  function Le32(bytes: seq<Byte>, at: nat): nat
    requires at + 4 <= |bytes|
  {
    (bytes[at] as int) + 0x100 * (bytes[at + 1] as int) + 0x1_0000 * (bytes[at + 2] as int) + 0x100_0000 * (bytes[at + 3] as int)
  }

  lemma Le32Decodes(bytes: seq<Byte>, at: nat)
    requires at + 4 <= |bytes|
    ensures Le32(bytes, at) == Decode(bytes[at..at + 4])
  {
    var b := bytes[at..at + 4];
    DecodeStep(b, 0);
    DecodeStep(b, 1);
    DecodeStep(b, 2);
    DecodeStep(b, 3);
    assert b[0..] == b && b[4..] == [];
    assert b[0] == bytes[at] && b[1] == bytes[at + 1] && b[2] == bytes[at + 2] && b[3] == bytes[at + 3];
  }

  lemma DecodeStep(b: seq<Byte>, k: nat)
    requires k < |b|
    ensures Decode(b[k..]) == (b[k] as int) + 256 * Decode(b[k + 1..])
  {
    assert b[k..][1..] == b[k + 1..];
  }

  /** What an entry says: a number whose lower 28 bits are below 0x0FFF_FFF7 leads to that cluster, and any other
      ends the file, whatever its upper four bits are. */
  function Leads(n: nat): Option<nat> { if n % 0x1000_0000 < 0x0FFF_FFF7 then Some(n % 0x1000_0000) else None }

  /** Four bytes stand at a place of the disk. */
  predicate StandsAt(disk: seq<Byte>, at: nat, bytes: seq<Byte>) { at + |bytes| <= |disk| && disk[at..at + |bytes|] == bytes }

  /** An entry of every number is read as what it says. */
  lemma EncodedEntryLeads(disk: seq<Byte>, at: nat, n: nat)
    requires n < WORD && StandsAt(disk, at, Encode(n, 4))
    ensures NextAt(disk, at) == Leads(n)
  {
    FourBytes();
    DecodeEncode(n, 4);
    Le32Decodes(disk, at);
  }

  lemma FourBytes()
    ensures Pow256(4) == WORD
  {
    assert Pow256(2) == 0x1_0000 && Pow256(3) == 0x100_0000;
  }

  /** The cluster after this one, unless it is the last, as the entry at `at` says. */
  function NextAt(disk: seq<Byte>, at: nat): Option<nat> {
    if at + 4 <= |disk| && !IsLast(Le32(disk, at)) then Some(Masked(Le32(disk, at))) else None
  }

  /** As it is read. */
  function Next(disk: seq<Byte>, v: Volume, cluster: nat): Option<nat> {
    NextAt(disk, EntryPage32(v, cluster) + EntryOffset32(v, cluster))
  }

  /** The page that is read is on the disk. */
  predicate HasEntry(disk: seq<Byte>, v: Volume, cluster: nat) { EntryPage32(v, cluster) + PG_SZ <= |disk| }

  lemma EntryInPage(v: Volume, cluster: nat)
    ensures EntryOffset32(v, cluster) + 4 <= PG_SZ
  {
  }

  lemma LastIgnoresHighBits(cluster: nat)
    ensures IsLast(Masked(cluster)) == IsLast(cluster)
  {
  }

  /** Read a FAT entry out of a page of the disk. */
  method ReadEntry(disk: seq<Byte>, base: nat, off: nat) returns (entry: nat)
    requires base + PG_SZ <= |disk| && off + 4 <= PG_SZ
    ensures entry == Masked(Le32(disk, base + off))
  {
    var page := disk[base..base + PG_SZ];
    entry := Masked(Le32(page, off));
  }

  /** `advance_cluster`, whose assertion fails at the end of a file. */
  method AdvanceCluster(disk: seq<Byte>, v: Volume, cluster: nat) returns (r: Option<nat>)
    requires HasEntry(disk, v, cluster)
    ensures r == Next(disk, v, cluster)
    ensures forall n: nat :: n < WORD && StandsAt(disk, EntryPage32(v, cluster) + EntryOffset32(v, cluster), Encode(n, 4)) ==> r == Leads(n)
  {
    forall n: nat | n < WORD && StandsAt(disk, EntryPage32(v, cluster) + EntryOffset32(v, cluster), Encode(n, 4))
      ensures Next(disk, v, cluster) == Leads(n)
    {
      EncodedEntryLeads(disk, EntryPage32(v, cluster) + EntryOffset32(v, cluster), n);
    }
    EntryInPage(v, cluster);
    LastIgnoresHighBits(Le32(disk, EntryPage32(v, cluster) + EntryOffset32(v, cluster)));
    var next := ReadEntry(disk, EntryPage32(v, cluster), EntryOffset32(v, cluster));
    if IsLast(next) {
      return None;
    }
    return Some(next);
  }

  /** The volume has `n` cluster numbers of 28 bits, all with an entry that leads to another one or ends a
      file, and its cluster size fits a byte. */
  ghost predicate Sound(disk: seq<Byte>, v: Volume, n: nat) {
    && v.bytes == v.perCluster * 512 > 0 && v.perCluster < 256 && n <= 0x1000_0000
    && (forall c: nat {:trigger HasEntry(disk, v, c)} :: c < n ==> HasEntry(disk, v, c))
    && (forall c: nat {:trigger Next(disk, v, c)} :: c < n && Next(disk, v, c).Some? ==> Next(disk, v, c).value < n)
  }

  /** The k-th cluster of the file that starts at `start`, as it is read. */
  ghost function Chain(disk: seq<Byte>, v: Volume, start: nat, k: nat): Option<nat> {
    if k == 0 then Some(start)
    else
      var c := Chain(disk, v, start, k - 1);
      if c.Some? then Next(disk, v, c.value) else None
  }

  /** The chain of clusters comes to an end. */
  ghost predicate Ends(disk: seq<Byte>, v: Volume, n: nat, start: nat) {
    exists e: nat :: e <= n && Chain(disk, v, start, e).None?
  }

  // ----- From file offsets to disk offsets -----

  /** The 64-bit offset after `k` turns of the loop, which subtracts a cluster each time. */
  ghost function OffsetAfter(off: nat, bytes: nat, k: nat): nat { (off - k * bytes) % LONG }

  ghost predicate StopsAfter(off: nat, bytes: nat, k: nat) {
    OffsetAfter(off, bytes, k) == 0 && forall j: nat :: j < k ==> OffsetAfter(off, bytes, j) != 0
  }

  lemma OffsetBeforeWrap(off: nat, bytes: nat, k: nat)
    requires 0 < bytes && off < LONG && k <= off / bytes
    ensures OffsetAfter(off, bytes, k) == off - k * bytes == (off / bytes - k) * bytes + off % bytes
  {
    assert off == off / bytes * bytes + off % bytes;
    assert k * bytes <= off / bytes * bytes;
  }

  /** The loop stops at the cluster that holds the offset iff the offset starts a cluster; otherwise
      the subtraction wraps around. */
  lemma StopsRightIff(off: nat, bytes: nat)
    requires 0 < bytes && off < LONG
    ensures StopsAfter(off, bytes, off / bytes) <==> off % bytes == 0
  {
    OffsetBeforeWrap(off, bytes, off / bytes);
    forall j: nat | j < off / bytes ensures OffsetAfter(off, bytes, j) != 0 {
      OffsetBeforeWrap(off, bytes, j);
      assert (off / bytes - j) * bytes > 0;
    }
  }

  /** One turn of the loop. */
  lemma OffsetStep(off: nat, bytes: nat, k: nat)
    requires bytes < LONG
    ensures (OffsetAfter(off, bytes, k) + LONG - bytes) % LONG == OffsetAfter(off, bytes, k + 1)
  {
    assert (k + 1) * bytes == k * bytes + bytes;
    SubtractMod(off - k * bytes, bytes);
  }

  lemma SubtractMod(a: int, b: nat)
    requires b < LONG
    ensures (a % LONG + LONG - b) % LONG == (a - b) % LONG
  {
    var q := a / LONG;
    assert a % LONG + LONG - b == (a - b) + (1 - q) * LONG;
    ModShift(a - b, 1 - q);
  }

  lemma ModShift(a: int, q: int)
    ensures (a + q * LONG) % LONG == a % LONG
  {
    var r := a % LONG;
    assert a + q * LONG == (a / LONG + q) * LONG + r;
  }

  /** Inside a cluster the loop does not stop before it has gone through more clusters than there are. */
  lemma DoesNotStop(off: nat, bytes: nat, k: nat)
    requires 0 < bytes < 0x2_0000 && k <= 0x1000_0000 && off < LONG && off % bytes != 0
    ensures OffsetAfter(off, bytes, k) != 0
  {
    assert k * bytes <= 0x1000_0000 * 0x2_0000;
    if OffsetAfter(off, bytes, k) == 0 {
      assert off == k * bytes;
      DivMod(off, bytes, k, 0);
    }
  }

  /** The turns of the loop never exceed this. */
  ghost function LastTurn(disk: seq<Byte>, v: Volume, n: nat, start: nat, off: nat): nat
    requires v.bytes > 0 && (off % v.bytes == 0 || Ends(disk, v, n, start))
  {
    if off % v.bytes == 0 then Index(off, v.bytes)
    else var e: nat :| e <= n && Chain(disk, v, start, e).None?; e
  }

  lemma GoesOn(disk: seq<Byte>, v: Volume, n: nat, start: nat, off: nat, k: nat)
    requires Sound(disk, v, n) && off < LONG && (off % v.bytes == 0 || Ends(disk, v, n, start))
    requires k <= LastTurn(disk, v, n, start, off) && Chain(disk, v, start, k).Some?
    ensures if off % v.bytes == 0 then OffsetAfter(off, v.bytes, k) == 0 <==> k == Index(off, v.bytes)
            else OffsetAfter(off, v.bytes, k) != 0 && k < LastTurn(disk, v, n, start, off)
  {
    if off % v.bytes == 0 {
      StopsRightIff(off, v.bytes);
    } else {
      DoesNotStop(off, v.bytes, k);
    }
  }

  /** The loop of `get_dev_offset`: the cluster of the offset if the offset starts one, and else the failed
      assertion at the end of the chain. */
  method WalkChain(disk: seq<Byte>, v: Volume, ghost n: nat, start: nat, off: nat) returns (r: Option<nat>)
    requires Sound(disk, v, n) && start < n && off < LONG && (off % v.bytes == 0 || Ends(disk, v, n, start))
    ensures off % v.bytes == 0 ==> r == Chain(disk, v, start, Index(off, v.bytes))
    ensures off % v.bytes != 0 ==> r.None?
  {
    var left, cluster := off, start;
    ghost var k, last := 0, LastTurn(disk, v, n, start, off);
    while left > 0
      invariant k <= last && left == OffsetAfter(off, v.bytes, k)
      invariant Chain(disk, v, start, k) == Some(cluster) && cluster < n
      decreases last - k
    {
      GoesOn(disk, v, n, start, off, k);
      OffsetStep(off, v.bytes, k);
      left := (left + LONG - v.bytes) % LONG;
      assert HasEntry(disk, v, cluster);
      var next := AdvanceCluster(disk, v, cluster);
      k := k + 1;
      if next.None? {
        ChainEnds(disk, v, start, k, last);
        return None;
      }
      cluster := next.value;
    }
    GoesOn(disk, v, n, start, off, k);
    return Some(cluster);
  }

  function DataPosition(v: Volume, cluster: nat): int { (v.dataLba + (cluster - 2) * v.perCluster) * 512 }

  /** As computed, in 32 bits. */
  function DataPosition32(v: Volume, cluster: nat): nat { (v.dataLba + (cluster - 2) * v.perCluster) % WORD * 512 % WORD }

  /** The position is right iff the cluster lies in the first 4 GiB of the disk. */
  lemma DataPositionIsRight(v: Volume, cluster: nat)
    ensures DataPosition32(v, cluster) == DataPosition(v, cluster) <==> 0 <= DataPosition(v, cluster) < WORD
  {
    var sector := v.dataLba + (cluster - 2) * v.perCluster;
    if sector >= 0 {
      BytesWrap(sector);
      BytesWrap(sector % WORD);
      SectorWraps(sector);
    }
  }

  datatype DevOffset = At(pos: nat) | NoOffset | Fault

  ghost function SpecDevOffset(disk: seq<Byte>, v: Volume, start: nat, size: nat, isDir: bool, off: nat): DevOffset
    requires v.bytes > 0
  {
    if !Aligned(off) then NoOffset
    else if !Aligned(v.bytes) then Fault
    else if isDir || off >= size then NoOffset
    else if off % v.bytes != 0 then Fault
    else OffsetOf(v, Chain(disk, v, start, Index(off, v.bytes)))
  }

  function OffsetOf(v: Volume, cluster: Option<nat>): DevOffset {
    if cluster.Some? then At(DataPosition32(v, cluster.value)) else Fault
  }

  /** `get_dev_offset`.  `Fault` is a failed assertion. */
  method GetDevOffset(disk: seq<Byte>, v: Volume, ghost n: nat, start: nat, size: nat, isDir: bool, off: nat) returns (r: DevOffset)
    requires Sound(disk, v, n) && start < n && off < LONG
    requires off < size ==> off % v.bytes == 0 || Ends(disk, v, n, start)
    ensures r == SpecDevOffset(disk, v, start, size, isDir, off)
  {
    if !Aligned(off) {
      return NoOffset;
    }
    if !Aligned(v.bytes) {
      return Fault;
    }
    if isDir || off >= size {
      return NoOffset;
    }
    var cluster := WalkChain(disk, v, n, start, off);
    return OffsetOf(v, cluster);
  }

  lemma {:induction false} ChainEnds(disk: seq<Byte>, v: Volume, start: nat, k: nat, q: nat)
    requires k <= q && Chain(disk, v, start, k).None?
    ensures Chain(disk, v, start, q).None?
  {
    if k == q {
    } else {
      ChainEnds(disk, v, start, k, q - 1);
    }
  }

  // ----- Reading -----

  /** The k-th cluster exists, and the place at which it is read is on the disk. */
  ghost predicate ClusterThere(disk: seq<Byte>, v: Volume, start: nat, k: nat) {
    var c := Chain(disk, v, start, k);
    c.Some? && DataPosition32(v, c.value) + v.bytes <= |disk|
  }

  /** A file whose chain is as long as its size asks for and ends. */
  ghost predicate GoodFile(disk: seq<Byte>, v: Volume, n: nat, start: nat, size: nat) {
    && Sound(disk, v, n) && start < n && Aligned(v.bytes) && Ends(disk, v, n, start)
    && (forall i: nat {:trigger ClusterThere(disk, v, start, Index(i, v.bytes))} ::
          i < size ==> ClusterThere(disk, v, start, Index(i, v.bytes)))
  }

  /** The file is the concatenation of its clusters, where they are read. */
  ghost function FileByte(disk: seq<Byte>, v: Volume, start: nat, i: nat): Byte
    requires v.bytes > 0 && ClusterThere(disk, v, start, Index(i, v.bytes))
  {
    disk[DataPosition32(v, Chain(disk, v, start, Index(i, v.bytes)).value) + i % v.bytes]
  }

  ghost predicate IsFile(disk: seq<Byte>, v: Volume, n: nat, start: nat, file: seq<Byte>) {
    && GoodFile(disk, v, n, start, |file|)
    && forall i: nat {:trigger file[i]} :: i < |file| ==>
         ClusterThere(disk, v, start, Index(i, v.bytes)) && file[i] == FileByte(disk, v, start, i)
  }

  /** A file has contents, and only one. */
  lemma FileExists(disk: seq<Byte>, v: Volume, n: nat, start: nat, size: nat) returns (file: seq<Byte>)
    requires GoodFile(disk, v, n, start, size)
    ensures |file| == size && IsFile(disk, v, n, start, file)
    ensures forall f: seq<Byte> :: |f| == size && IsFile(disk, v, n, start, f) ==> f == file
  {
    file := seq(size, i requires 0 <= i < size && v.bytes > 0 && ClusterThere(disk, v, start, Index(i, v.bytes)) =>
                        FileByte(disk, v, start, i));
  }

  /** The k-th cluster of the file according to its FAT. */
  ghost function TrueChain(disk: seq<Byte>, v: Volume, start: nat, k: nat): Option<nat> {
    if k == 0 then Some(start)
    else
      var c := TrueChain(disk, v, start, k - 1);
      if c.Some? then TrueNext(disk, EntryPosition(v, c.value)) else None
  }

  /** What the four bytes of the entry say. */
  ghost function TrueNext(disk: seq<Byte>, at: nat): Option<nat> {
    if at + 4 <= |disk| then Leads(Decode(disk[at..at + 4])) else None
  }

  lemma TrueNextIsRead(disk: seq<Byte>, at: nat)
    ensures TrueNext(disk, at) == NextAt(disk, at)
  {
    if at + 4 <= |disk| { Le32Decodes(disk, at); }
  }

  /** Entries and clusters follow each other without a gap: entries of four bytes from the start of the FAT, and
      clusters from number 2 on from the start of the data. */
  lemma LayoutIsDense(v: Volume, c: nat)
    requires v.bytes == v.perCluster * 512
    ensures EntryPosition(v, 0) == v.fatLba * 512
    ensures c + 1 < 0x1000_0000 ==> EntryPosition(v, c + 1) == EntryPosition(v, c) + 4
    ensures DataPosition(v, 2) == v.dataLba * 512 && DataPosition(v, c + 1) == DataPosition(v, c) + v.bytes
  {
    assert (c + 1 - 2) * v.perCluster == (c - 2) * v.perCluster + v.perCluster;
  }

  /** The cluster and its FAT entry are in the first 4 GiB of the disk. */
  predicate Near(v: Volume, cluster: nat) { FatSector(v, cluster) * 512 < WORD && 0 <= DataPosition(v, cluster) < WORD }

  ghost predicate AllNear(disk: seq<Byte>, v: Volume, start: nat) {
    forall k: nat {:trigger Chain(disk, v, start, k)} :: Chain(disk, v, start, k).Some? ==> Near(v, Chain(disk, v, start, k).value)
  }

  lemma {:induction false} ChainsAgree(disk: seq<Byte>, v: Volume, start: nat, k: nat)
    requires AllNear(disk, v, start)
    ensures TrueChain(disk, v, start, k) == Chain(disk, v, start, k)
  {
    if k == 0 {
    } else {
      ChainsAgree(disk, v, start, k - 1);
      var c := Chain(disk, v, start, k - 1);
      if c.Some? {
        EntryReadIsRight(v, c.value);
        TrueNextIsRead(disk, EntryPosition(v, c.value));
      }
    }
  }

  /** A file all of whose clusters are near is read where it is: its i-th byte is that of the cluster that the FAT
      gives for it. */
  lemma NearFileIsRead(disk: seq<Byte>, v: Volume, n: nat, start: nat, file: seq<Byte>, i: nat)
    requires IsFile(disk, v, n, start, file) && i < |file| && AllNear(disk, v, start)
    ensures var c := TrueChain(disk, v, start, Index(i, v.bytes));
            && c.Some? && 0 <= DataPosition(v, c.value) + i % v.bytes < |disk|
            && file[i] == disk[DataPosition(v, c.value) + i % v.bytes]
  {
    ChainsAgree(disk, v, start, Index(i, v.bytes));
    assert ClusterThere(disk, v, start, Index(i, v.bytes)) && file[i] == FileByte(disk, v, start, i);
    var c := Chain(disk, v, start, Index(i, v.bytes)).value;
    DataPositionIsRight(v, c);
    assert i % v.bytes < v.bytes;
  }

  ghost predicate WalksRight(off: nat, bytes: nat)
    requires bytes > 0
  {
    StopsAfter(off, bytes, Index(off, bytes))
  }

  lemma PageWalksRight(off: nat)
    requires Aligned(off) && off < LONG
    ensures WalksRight(off, PG_SZ)
  {
    StopsRightIff(off, PG_SZ);
  }

  lemma SecondPageWalksWrong(bytes: nat)
    requires PG_SZ < bytes < LONG
    ensures !WalksRight(PG_SZ, bytes)
  {
    DivMod(PG_SZ, bytes, 0, PG_SZ);
    StopsRightIff(PG_SZ, bytes);
  }

  /** The walk reaches the right cluster for every page of every file iff clusters are pages. */
  lemma EveryPageIffClustersArePages(bytes: nat)
    requires PG_SZ <= bytes < LONG
    ensures (forall off: nat {:trigger WalksRight(off, bytes)} :: Aligned(off) && off < LONG ==> WalksRight(off, bytes)) <==> bytes == PG_SZ
  {
    if bytes == PG_SZ {
      forall off: nat | Aligned(off) && off < LONG ensures WalksRight(off, bytes) { PageWalksRight(off); }
    } else {
      SecondPageWalksWrong(bytes);
      assert Aligned(PG_SZ);
    }
  }

  /** The offset is a multiple of the cluster size, said by counting down. */
  predicate Starts(p: nat, bytes: nat) { p == 0 || (0 < bytes <= p && Starts(p - bytes, bytes)) }

  lemma {:induction false} StartsIff(p: nat, bytes: nat)
    requires bytes > 0
    ensures Starts(p, bytes) <==> p % bytes == 0
    decreases p
  {
    if p >= bytes {
      StartsIff(p - bytes, bytes);
      DivShift(p - bytes, bytes);
    } else {
      DivMod(p, bytes, 0, p);
    }
  }

  /** Every page that a read touches starts a cluster. */
  ghost predicate AllStart(bytes: nat, from: nat, len: nat) {
    forall p: nat {:trigger Starts(p, bytes)} :: len > 0 && Aligned(p) && Floor(from) <= p < from + len ==> Starts(p, bytes)
  }

  /** A page of the file, as it is found on the disk. */
  lemma PageIsFile(disk: seq<Byte>, v: Volume, n: nat, start: nat, file: seq<Byte>, p: nat, i: nat)
    requires IsFile(disk, v, n, start, file) && p % v.bytes == 0 && i < PG_SZ && p + i < |file|
    ensures ClusterThere(disk, v, start, Index(p, v.bytes)) && DataPosition32(v, Chain(disk, v, start, Index(p, v.bytes)).value) + i < |disk|
    ensures file[p + i] == disk[DataPosition32(v, Chain(disk, v, start, Index(p, v.bytes)).value) + i]
  {
    PageInCluster(v.bytes);
    DivMod(p + i, v.bytes, Index(p, v.bytes), i);
    assert ClusterThere(disk, v, start, Index(p + i, v.bytes));
    assert file[p + i] == FileByte(disk, v, start, p + i);
  }

  /** The page of a file at p, as far as the file goes. */
  ghost predicate IsPage(page: seq<Byte>, file: seq<Byte>, p: nat) {
    |page| == PG_SZ && forall i: nat {:trigger page[i]} :: i < PG_SZ && p + i < |file| ==> page[i] == file[p + i]
  }

  /** The i-th byte after `pos` on the disk is the i-th after `p` in the file. */
  ghost predicate SameByte(disk: seq<Byte>, pos: nat, file: seq<Byte>, p: nat, i: nat) {
    p + i < |file| ==> pos + i < |disk| && file[p + i] == disk[pos + i]
  }

  lemma PageOfBytes(disk: seq<Byte>, pos: nat, file: seq<Byte>, p: nat)
    requires pos + PG_SZ <= |disk| && forall i: nat :: i < PG_SZ ==> SameByte(disk, pos, file, p, i)
    ensures IsPage(disk[pos..pos + PG_SZ], file, p)
  {
    var page := disk[pos..pos + PG_SZ];
    forall i: nat {:trigger page[i]} | i < PG_SZ && p + i < |file| ensures page[i] == file[p + i] {
      assert SameByte(disk, pos, file, p, i);
    }
  }

  /** Where the lookup finds the page of the file that starts a cluster. */
  lemma PageOnDisk(disk: seq<Byte>, v: Volume, n: nat, start: nat, file: seq<Byte>, p: nat)
    requires IsFile(disk, v, n, start, file) && p % v.bytes == 0 && p < |file|
    ensures var off := OffsetOf(v, Chain(disk, v, start, Index(p, v.bytes)));
            off.At? && off.pos + PG_SZ <= |disk| && IsPage(disk[off.pos..off.pos + PG_SZ], file, p)
  {
    PageIsFile(disk, v, n, start, file, p, 0);
    var pos := DataPosition32(v, Chain(disk, v, start, Index(p, v.bytes)).value);
    PageInCluster(v.bytes);
    forall i: nat | i < PG_SZ ensures SameByte(disk, pos, file, p, i) {
      if p + i < |file| { PageIsFile(disk, v, n, start, file, p, i); }
    }
    PageOfBytes(disk, pos, file, p);
  }

  lemma PageInCluster(bytes: nat)
    requires Aligned(bytes) && bytes > 0
    ensures bytes >= PG_SZ
  {
  }

  /** Lease the page of the file at `p`; none if the lookup of its place fails an assertion. */
  method FilePage(disk: seq<Byte>, v: Volume, ghost n: nat, start: nat, size: nat, ghost file: seq<Byte>, p: nat)
    returns (page: Option<seq<Byte>>)
    requires IsFile(disk, v, n, start, file) && |file| == size && Aligned(p) && p < size < WORD
    ensures page.None? <==> !Starts(p, v.bytes)
    ensures page.Some? ==> IsPage(page.value, file, p)
  {
    StartsIff(p, v.bytes);
    var off := GetDevOffset(disk, v, n, start, size, false, p);
    if p % v.bytes != 0 {
      return None;
    }
    PageOnDisk(disk, v, n, start, file, p);
    return Some(disk[off.pos..off.pos + PG_SZ]);
  }

  /** memcpy into the caller's buffer. */
  method Copy(buf: array<Byte>, at: nat, bytes: seq<Byte>)
    requires at + |bytes| <= buf.Length
    modifies buf
    ensures buf[..] == old(buf[..at]) + bytes + old(buf[at + |bytes|..])
  {
    for i := 0 to |bytes|
      invariant buf[..] == old(buf[..at]) + bytes[..i] + old(buf[at + i..])
    {
      buf[at + i] := bytes[i];
    }
  }

  datatype ReadResult = Ok | IsDirectory | Failed

  function Min(a: nat, b: nat): nat { if a < b then a else b }

  /** How much can be read. */
  function Amount(size: nat, offset: nat, count: nat): nat {
    if offset >= size then 0 else Min(count, size - offset)
  }

  /** The buffer after the first `done` bytes of a read from `offset`. */
  ghost predicate ReadSoFar(buf: seq<Byte>, was: seq<Byte>, file: seq<Byte>, offset: nat, done: nat) {
    done <= |was| && offset + done <= |file| && buf == file[offset..offset + done] + was[done..]
  }

  lemma ReadMore(buf: seq<Byte>, was: seq<Byte>, file: seq<Byte>, offset: nat, done: nat, page: seq<Byte>, p: nat, k: nat)
    requires ReadSoFar(buf, was, file, offset, done) && IsPage(page, file, p)
    requires p <= offset + done && offset + done + k <= p + PG_SZ && offset + done + k <= |file| && done + k <= |was|
    ensures var x := offset + done - p;
            ReadSoFar(buf[..done] + page[x..x + k] + buf[done + k..], was, file, offset, done + k)
  {
    var x := offset + done - p;
    assert page[x..x + k] == file[offset + done..offset + done + k] by {
      forall i {:trigger page[x + i]} | 0 <= i < k ensures page[x + i] == file[p + (x + i)] {
      }
    }
    assert buf[..done] == file[offset..offset + done];
    assert buf[done + k..] == was[done + k..];
    assert file[offset..offset + done] + file[offset + done..offset + done + k] == file[offset..offset + done + k];
  }

  /** Append `k` bytes of the page at `p` to what has been read. */
  method ReadPart(disk: seq<Byte>, v: Volume, ghost n: nat, start: nat, size: nat, ghost file: seq<Byte>,
                  p: nat, offset: nat, done: nat, k: nat, buf: array<Byte>, ghost was: seq<Byte>)
    returns (ok: bool)
    requires IsFile(disk, v, n, start, file) && |file| == size < WORD && Aligned(p)
    requires ReadSoFar(buf[..], was, file, offset, done) && |was| == buf.Length
    requires k > 0 && p <= offset + done && offset + done + k <= p + PG_SZ && offset + done + k <= size && done + k <= buf.Length
    modifies buf
    ensures ok <==> Starts(p, v.bytes)
    ensures ok ==> ReadSoFar(buf[..], was, file, offset, done + k)
  {
    var page := FilePage(disk, v, n, start, size, file, p);
    if page.None? {
      return false;
    }
    var x := offset + done - p;
    ReadMore(buf[..], was, file, offset, done, page.value, p, k);
    Copy(buf, done, page.value[x..x + k]);
    return true;
  }

  /** The page in which the next byte of a read is. */
  ghost predicate PageOf(p: nat, offset: nat, done: nat) {
    Aligned(p) && p <= offset + done < p + PG_SZ && if done == 0 then p == Floor(offset) else p == offset + done
  }

  lemma FirstPage(offset: nat)
    ensures PageOf(Floor(offset), offset, 0)
  {
  }

  lemma NextPage(p: nat, offset: nat, done: nat)
    requires PageOf(p, offset, done)
    ensures PageOf(p + PG_SZ, offset, p + PG_SZ - offset)
  {
  }

  lemma SameFilePage(p: nat, q: nat)
    requires Aligned(p) && Aligned(q) && p <= q < p + PG_SZ
    ensures p == q
  {
  }

  lemma OnePageMore(bytes: nat, offset: nat, done: nat, p: nat, k: nat)
    requires PageOf(p, offset, done) && k > 0 && offset + done + k <= p + PG_SZ
    requires AllStart(bytes, offset, done)
    ensures AllStart(bytes, offset, done + k) <==> Starts(p, bytes)
  {
    if Starts(p, bytes) {
      forall q: nat {:trigger Starts(q, bytes)} | Aligned(q) && Floor(offset) <= q < offset + done + k ensures Starts(q, bytes) {
        if q >= offset + done || done == 0 { SameFilePage(p, q); }
      }
    }
  }

  lemma FewerStart(bytes: nat, from: nat, len: nat, more: nat)
    requires len <= more && !AllStart(bytes, from, len)
    ensures !AllStart(bytes, from, more)
  {
  }

  /** With clusters larger than a page, exactly the reads within the first page of a cluster succeed. */
  lemma ReadableIff(bytes: nat, offset: nat, len: nat)
    requires bytes > PG_SZ && len > 0
    ensures AllStart(bytes, offset, len) <==> Starts(Floor(offset), bytes) && offset + len <= Floor(offset) + PG_SZ
  {
    var p := Floor(offset);
    FirstPage(offset);
    NextPage(p, offset, 0);
    if Starts(p, bytes) {
      StartsIff(p, bytes);
      DivMod(p + PG_SZ, bytes, Index(p, bytes), PG_SZ);
      StartsIff(p + PG_SZ, bytes);
      forall q: nat {:trigger Starts(q, bytes)} | Aligned(q) && p <= q < p + PG_SZ ensures Starts(q, bytes) { SameFilePage(p, q); }
    }
  }

  lemma AllPagesReadable(offset: nat, len: nat)
    ensures AllStart(PG_SZ, offset, len)
  {
    forall p: nat {:trigger Starts(p, PG_SZ)} | Aligned(p) ensures Starts(p, PG_SZ) { StartsIff(p, PG_SZ); }
  }

  /** The partial first page, if there is one, and then the loop over aligned pages. */
  method ReadPages(disk: seq<Byte>, v: Volume, ghost n: nat, start: nat, size: nat, ghost file: seq<Byte>,
                   offset: nat, total: nat, buf: array<Byte>)
    returns (ok: bool)
    requires IsFile(disk, v, n, start, file) && |file| == size < WORD && 0 < total <= buf.Length && offset + total <= size
    modifies buf
    ensures ok <==> AllStart(v.bytes, offset, total)
    ensures ok ==> ReadSoFar(buf[..], old(buf[..]), file, offset, total)
  {
    var p: nat, done: nat := Floor(offset), 0;
    FirstPage(offset);
    ghost var was := buf[..];
    assert ReadSoFar(buf[..], was, file, offset, 0);
    while done < total
      invariant done <= total && ReadSoFar(buf[..], was, file, offset, done)
      invariant done < total ==> PageOf(p, offset, done)
      invariant AllStart(v.bytes, offset, done)
    {
      var k := Min(p + PG_SZ - offset - done, total - done);
      OnePageMore(v.bytes, offset, done, p, k);
      NextPage(p, offset, done);
      ok := ReadPart(disk, v, n, start, size, file, p, offset, done, k, buf, was);
      if !ok {
        FewerStart(v.bytes, offset, done + k, total);
        return;
      }
      p, done := p + PG_SZ, done + k;
    }
    ok := true;
  }

  /** `Inode::read`: the bytes of the file from `offset` on, up to its end.  It fails an assertion iff a page
      that it touches does not start a cluster. */
  method Read(disk: seq<Byte>, v: Volume, ghost n: nat, start: nat, size: nat, ghost file: seq<Byte>,
              isDir: bool, offset: nat, count: nat, buf: array<Byte>)
    returns (r: int, res: ReadResult)
    requires count <= buf.Length && |file| == size < WORD
    requires !isDir ==> IsFile(disk, v, n, start, file)
    modifies buf
    ensures res == IsDirectory <==> isDir
    ensures isDir ==> r == -1 && buf[..] == old(buf[..])
    ensures res == Failed <==> !isDir && !AllStart(v.bytes, offset, Amount(size, offset, count))
    ensures res == Ok ==> r == Amount(size, offset, count)
    ensures res == Ok ==> 0 <= r <= count && (r == count || offset + r >= size) && (r > 0 ==> offset + r <= size)
    ensures res == Ok && r > 0 ==> buf[..] == file[offset..offset + r] + old(buf[..])[r..]
    ensures res == Ok && r == 0 ==> buf[..] == old(buf[..])
  {
    if isDir {
      return -1, IsDirectory;
    }
    if offset >= size || count == 0 {
      return 0, Ok;
    }
    var total := Min(count, size - offset);
    var ok := ReadPages(disk, v, n, start, size, file, offset, total, buf);
    if !ok {
      return 0, Failed;
    }
    return total, Ok;
  }
}
