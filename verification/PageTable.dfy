/** Two-level page tables of 32-bit paging (src/kernel/arch/x86/page_table.cc; Intel SDM
    Vol. 3A, section 4.3).  Page directories and page tables live in physical frames; an address
    space is named by the frame of its directory, as in CR3. */
module PageTable {
  import opened Options
  import opened PageMath

  const ENTRIES: nat := 1024
  const PAGES: nat := 0x10_0000            // virtual pages, and frames that fit the addr field
  const KERNEL_ENTRY: nat := 768           // directory entry of hhdm_start, 3 GiB

  /** Directory entry.  With `ps` set it maps a 4 MB page, whose address is in the upper ten bits
      of the field, and only then `g` has a meaning. */
  datatype Pde = Pde(p: bool, ps: bool, rw: bool, us: bool, g: bool, addr: nat)

  /** Table entry.  The flags that `map` always clears are not represented. */
  datatype Pte = Pte(p: bool, rw: bool, us: bool, pcd: bool, g: bool, addr: nat)

  const ZERO_PTE := Pte(false, false, false, false, false, 0)
  const ZERO_PDE := Pde(false, false, false, false, false, 0)

  /** What a virtual page means: a frame, the access rights, and how it is cached. */
  datatype Mapping = Mapping(frame: nat, rw: bool, us: bool, uncacheable: bool, global: bool)

  datatype Mem = Mem(dirs: map<nat, seq<Pde>>, tables: map<nat, seq<Pte>>)

  // ----- The walk -----

  /** Entry i of directory d points to a page table. */
  ghost predicate HasTable(m: Mem, d: nat, i: nat) {
    d in m.dirs && i < |m.dirs[d]| && m.dirs[d][i].p && !m.dirs[d][i].ps
  }

  /** Directories are full-size and own their tables: no table is shared between two entries. */
  ghost predicate Valid(m: Mem) {
    && (forall d :: d in m.dirs ==> |m.dirs[d]| == ENTRIES)
    && (forall f :: f in m.tables ==> |m.tables[f]| == ENTRIES)
    && (forall d, i: nat :: HasTable(m, d, i) ==> m.dirs[d][i].addr in m.tables)
    && (forall d, i: nat, e, j: nat :: HasTable(m, d, i) && HasTable(m, e, j) && m.dirs[d][i].addr == m.dirs[e][j].addr ==>
          d == e && i == j)
  }

  /** The translation of virtual page v in address space d.  Both levels must grant a right (Intel SDM Vol. 3A,
      section 4.6). */
  ghost function Translate(m: Mem, d: nat, v: nat): Option<Mapping>
    requires Valid(m) && d in m.dirs && v < PAGES
  {
    var pde := m.dirs[d][v / ENTRIES];
    if !pde.p then None
    else if pde.ps then Some(Mapping(pde.addr / ENTRIES * ENTRIES + v % ENTRIES, pde.rw, pde.us, false, pde.g))
    else
      assert HasTable(m, d, v / ENTRIES);
      var pte := m.tables[pde.addr][v % ENTRIES];
      if pte.p then Some(Mapping(pte.addr, pde.rw && pte.rw, pde.us && pte.us, pte.pcd, pte.g)) else None
  }

  const USER_PAGES: nat := KERNEL_ENTRY * ENTRIES

  /** No entry of the user half of directory d takes away a right that its table grants. */
  ghost predicate Permissive(m: Mem, d: nat) {
    forall i: nat :: HasTable(m, d, i) && i < KERNEL_ENTRY ==> m.dirs[d][i].rw && m.dirs[d][i].us
  }

  /** Directories that were permissive in m still are. */
  ghost predicate KeepsPermissive(m: Mem, n: Mem) {
    forall d :: d in m.dirs && Permissive(m, d) ==> Permissive(n, d)
  }

  lemma SameEntry(v: nat, w: nat)
    ensures v / ENTRIES == w / ENTRIES && v % ENTRIES == w % ENTRIES ==> v == w
  {
  }

  // ----- Steps on memory -----

  /** A new, zeroed page table in frame f for entry i of directory d. */
  ghost function AddTable(m: Mem, d: nat, i: nat, f: nat): Mem
    requires d in m.dirs && i < |m.dirs[d]|
  {
    Mem(m.dirs[d := m.dirs[d][i := Pde(true, false, true, true, false, f)]],
        m.tables[f := seq(ENTRIES, _ => ZERO_PTE)])
  }

  lemma AddTableChangesNothing(m: Mem, d: nat, i: nat, f: nat)
    requires Valid(m) && d in m.dirs && i < ENTRIES && !m.dirs[d][i].p && f !in m.tables
    ensures var n := AddTable(m, d, i, f);
            && Valid(n) && HasTable(n, d, i) && n.dirs[d][i].rw && n.dirs[d][i].us && KeepsPermissive(m, n)
            && forall e, v :: e in m.dirs && 0 <= v < PAGES ==> Translate(n, e, v) == Translate(m, e, v)
  {
    var n := AddTable(m, d, i, f);
    forall e, j: nat | HasTable(n, e, j) && !(e == d && j == i) ensures HasTable(m, e, j) && n.dirs[e][j] == m.dirs[e][j] {}
    assert Valid(n);
    forall e, v | e in m.dirs && 0 <= v < PAGES ensures Translate(n, e, v) == Translate(m, e, v) {
      if n.dirs[e][v / ENTRIES].p && !n.dirs[e][v / ENTRIES].ps {
        assert HasTable(n, e, v / ENTRIES);
      }
    }
  }

  /** Entry j of the table that entry i of directory d points to becomes `pte`. */
  ghost function SetPte(m: Mem, d: nat, i: nat, j: nat, pte: Pte): Mem
    requires Valid(m) && HasTable(m, d, i) && j < ENTRIES
  {
    var f := m.dirs[d][i].addr;
    m.(tables := m.tables[f := m.tables[f][j := pte]])
  }

  lemma SetPteChangesOne(m: Mem, d: nat, v: nat, pte: Pte)
    requires Valid(m) && v < PAGES && HasTable(m, d, v / ENTRIES)
    ensures var n := SetPte(m, d, v / ENTRIES, v % ENTRIES, pte);
            && Valid(n) && KeepsPermissive(m, n)
            && Translate(n, d, v) == (
                 var pde := m.dirs[d][v / ENTRIES];
                 if pte.p then Some(Mapping(pte.addr, pde.rw && pte.rw, pde.us && pte.us, pte.pcd, pte.g)) else None)
            && forall e, w :: e in m.dirs && 0 <= w < PAGES && !(e == d && w == v) ==> Translate(n, e, w) == Translate(m, e, w)
  {
    var n := SetPte(m, d, v / ENTRIES, v % ENTRIES, pte);
    assert forall e, i: nat :: HasTable(n, e, i) <==> HasTable(m, e, i);
    forall e, w | e in m.dirs && 0 <= w < PAGES && !(e == d && w == v) ensures Translate(n, e, w) == Translate(m, e, w) {
      if HasTable(m, e, w / ENTRIES) {
        SameEntry(v, w);
      }
    }
  }

  /** A page has the rights that it is mapped with iff the entry of its table grants them. */
  lemma RightsAreKeptIff(m: Mem, d: nat, v: nat, pte: Pte)
    requires Valid(m) && v < PAGES && HasTable(m, d, v / ENTRIES) && pte.p
    ensures var r := Translate(SetPte(m, d, v / ENTRIES, v % ENTRIES, pte), d, v);
            var pde := m.dirs[d][v / ENTRIES];
            r.Some? && (r.value.rw == pte.rw && r.value.us == pte.us <==> (pte.rw ==> pde.rw) && (pte.us ==> pde.us))
  {
    SetPteChangesOne(m, d, v, pte);
  }

  /** In the bootloader's directory, whose first entry is for the supervisor only, a page that is mapped below 4 MiB
      for the user is not accessible to the user. */
  lemma LowPageStaysPrivate(m: Mem, d: nat, v: nat, pte: Pte)
    requires Valid(m) && v < ENTRIES && HasTable(m, d, 0) && !m.dirs[d][0].us && pte.p && pte.us
    ensures var r := Translate(SetPte(m, d, 0, v, pte), d, v); r.Some? && !r.value.us
  {
    SetPteChangesOne(m, d, v, pte);
  }

  // ----- Cloning -----

  /** Directory `pd` is a copy of the kernel half of directory d, up to entry n, whose tables are
      the frames given by `at` and hold copies of the original tables. */
  ghost predicate CopiedUpTo(m: Mem, d: nat, pd: seq<Pde>, at: map<nat, nat>, tables: map<nat, seq<Pte>>, n: nat)
    requires Valid(m) && d in m.dirs && n <= ENTRIES
  {
    EntriesCopied(m, d, pd, at, n) && TablesCopied(m, d, at, tables)
  }

  /** The new directory: entries with their tables at their new places, 4 MB pages, and else zeros. */
  ghost predicate EntriesCopied(m: Mem, d: nat, pd: seq<Pde>, at: map<nat, nat>, n: nat)
    requires Valid(m) && d in m.dirs && n <= ENTRIES
  {
    && |pd| == ENTRIES
    && (forall i: nat :: i in at ==> KERNEL_ENTRY <= i < n && HasTable(m, d, i) && pd[i] == m.dirs[d][i].(addr := at[i]))
    && (forall i: nat :: KERNEL_ENTRY <= i < n && HasTable(m, d, i) ==> i in at)
    && (forall i: nat :: KERNEL_ENTRY <= i < n && m.dirs[d][i].p && m.dirs[d][i].ps ==> pd[i] == m.dirs[d][i])
    && (forall i: nat :: i < ENTRIES && (i < KERNEL_ENTRY || i >= n || !m.dirs[d][i].p) ==> pd[i] == ZERO_PDE)
  }

  /** The tables: those of before, and one more for every copied entry, with the same contents. */
  ghost predicate TablesCopied(m: Mem, d: nat, at: map<nat, nat>, tables: map<nat, seq<Pte>>)
    requires Valid(m) && d in m.dirs
  {
    && (forall i: nat :: i in at ==>
          HasTable(m, d, i) && at[i] !in m.tables && at[i] in tables && tables[at[i]] == m.tables[m.dirs[d][i].addr])
    && (forall i: nat, j: nat :: i in at && j in at && at[i] == at[j] ==> i == j)
    && (forall f :: f in tables <==> f in m.tables || f in at.Values)
    && (forall f :: f in m.tables ==> tables[f] == m.tables[f])
  }

  /** After a clone every old address space is unchanged, kernel pages translate alike in both
      spaces, and the new space has no user pages. */
  lemma CloneAgrees(m: Mem, d: nat, new_d: nat, pd: seq<Pde>, at: map<nat, nat>, tables: map<nat, seq<Pte>>)
    requires Valid(m) && d in m.dirs && new_d !in m.dirs && CopiedUpTo(m, d, pd, at, tables, ENTRIES)
    ensures var n := Mem(m.dirs[new_d := pd], tables);
            && Valid(n) && KeepsPermissive(m, n) && Permissive(n, new_d)
            && (forall e, v :: e in m.dirs && 0 <= v < PAGES ==> Translate(n, e, v) == Translate(m, e, v))
            && (forall v :: USER_PAGES <= v < PAGES ==> Translate(n, new_d, v) == Translate(m, d, v))
            && (forall v :: 0 <= v < USER_PAGES ==> Translate(n, new_d, v) == None)
  {
    var n := Mem(m.dirs[new_d := pd], tables);
    CloneValid(m, d, new_d, pd, at, tables);
    forall e, v | e in m.dirs && 0 <= v < PAGES ensures Translate(n, e, v) == Translate(m, e, v) {
      assert HasTable(n, e, v / ENTRIES) <==> HasTable(m, e, v / ENTRIES);
    }
    forall v | USER_PAGES <= v < PAGES ensures Translate(n, new_d, v) == Translate(m, d, v) {
      assert HasTable(m, d, v / ENTRIES) ==> v / ENTRIES in at;
    }
  }

  lemma CloneValid(m: Mem, d: nat, new_d: nat, pd: seq<Pde>, at: map<nat, nat>, tables: map<nat, seq<Pte>>)
    requires Valid(m) && d in m.dirs && new_d !in m.dirs && CopiedUpTo(m, d, pd, at, tables, ENTRIES)
    ensures var n := Mem(m.dirs[new_d := pd], tables); Valid(n) && KeepsPermissive(m, n) && Permissive(n, new_d)
  {
    var n := Mem(m.dirs[new_d := pd], tables);
    forall e, i: nat | HasTable(n, e, i)
      ensures if e == new_d then i in at && HasTable(m, d, i) && n.dirs[e][i] == m.dirs[d][i].(addr := at[i])
              else HasTable(m, e, i) && n.dirs[e][i] == m.dirs[e][i]
    {
    }
    forall f | f in tables ensures |tables[f]| == ENTRIES {
      if f !in m.tables {
        var i :| i in at && at[i] == f;
      }
    }
  }

  class Memory {
    var dirs: map<nat, seq<Pde>>
    var tables: map<nat, seq<Pte>>

    ghost function M(): Mem
      reads this
    {
      Mem(dirs, tables)
    }

    /** Every translation other than that of page v in space d is as it was in m. */
    ghost predicate OthersAsIn(m: Mem, d: nat, v: nat)
      reads this
      requires Valid(m) && Valid(M()) && dirs.Keys == m.dirs.Keys
    {
      forall e, w :: e in dirs && 0 <= w < PAGES && !(e == d && w == v) ==> Translate(M(), e, w) == Translate(m, e, w)
    }

    /** `map`.  `page` is the frame of the page that operator new returns, if it is asked. */
    method Map(cr3: nat, phys: nat, v: nat, us: bool, rw: bool, uncacheable: bool, page: Option<nat>) returns (ok: bool)
      requires Valid(M()) && cr3 in dirs && v < PAGES && !(dirs[cr3][v / ENTRIES].p && dirs[cr3][v / ENTRIES].ps)
      requires page.Some? ==> page.value !in tables
      modifies this
      ensures Valid(M()) && dirs.Keys == old(dirs.Keys)
      ensures OthersAsIn(old(M()), cr3, v)
      ensures ok <==> Translate(old(M()), cr3, v) == None && (old(dirs[cr3][v / ENTRIES]).p || page.Some?)
      ensures !ok ==> Translate(M(), cr3, v) == Translate(old(M()), cr3, v)
      ensures ok ==>
                var pde := old(dirs[cr3][v / ENTRIES]);
                Translate(M(), cr3, v)
                == Some(Mapping(phys / PG_SZ % PAGES, rw && (pde.p ==> pde.rw), us && (pde.p ==> pde.us), uncacheable, true))
      ensures KeepsPermissive(old(M()), M())
    {
      var i := v / ENTRIES;
      if !dirs[cr3][i].p {
        if page.None? {
          return false;
        }
        AddTableChangesNothing(M(), cr3, i, page.value);
        dirs := dirs[cr3 := dirs[cr3][i := Pde(true, false, true, true, false, page.value)]];
        tables := tables[page.value := seq(ENTRIES, _ => ZERO_PTE)];
      }
      assert HasTable(M(), cr3, i);
      var f, j := dirs[cr3][i].addr, v % ENTRIES;
      if tables[f][j].p {
        return false;
      }
      var pte := Pte(true, rw, us, uncacheable, true, phys / PG_SZ % PAGES);
      SetPteChangesOne(M(), cr3, v, pte);
      tables := tables[f := tables[f][j := pte]];
      return true;
    }

    /** In a cloned directory, whose user half is filled by `map` alone, a user page gets exactly the rights asked
        for. */
    method MapUser(cr3: nat, phys: nat, v: nat, us: bool, rw: bool, uncacheable: bool, page: Option<nat>) returns (ok: bool)
      requires Valid(M()) && cr3 in dirs && Permissive(M(), cr3) && v < USER_PAGES
      requires !(dirs[cr3][v / ENTRIES].p && dirs[cr3][v / ENTRIES].ps)
      requires page.Some? ==> page.value !in tables
      modifies this
      ensures Valid(M()) && dirs.Keys == old(dirs.Keys) && KeepsPermissive(old(M()), M()) && OthersAsIn(old(M()), cr3, v)
      ensures Translate(M(), cr3, v)
           == if ok then Some(Mapping(phys / PG_SZ % PAGES, rw, us, uncacheable, true)) else Translate(old(M()), cr3, v)
    {
      assert dirs[cr3][v / ENTRIES].p ==> HasTable(M(), cr3, v / ENTRIES);
      ok := Map(cr3, phys, v, us, rw, uncacheable, page);
    }

    /** `unmap`, which does not accept a page inside a 4 MB mapping. */
    method Unmap(cr3: nat, v: nat) returns (ok: bool)
      requires Valid(M()) && cr3 in dirs && v < PAGES && !(dirs[cr3][v / ENTRIES].p && dirs[cr3][v / ENTRIES].ps)
      modifies this
      ensures Valid(M()) && dirs == old(dirs)
      ensures OthersAsIn(old(M()), cr3, v)
      ensures ok <==> Translate(old(M()), cr3, v).Some?
      ensures Translate(M(), cr3, v) == None
      ensures KeepsPermissive(old(M()), M())
    {
      var i, j := v / ENTRIES, v % ENTRIES;
      if !dirs[cr3][i].p {
        return false;
      }
      assert HasTable(M(), cr3, i);
      var f := dirs[cr3][i].addr;
      if !tables[f][j].p {
        return false;
      }
      var pte := tables[f][j].(p := false);
      SetPteChangesOne(M(), cr3, v, pte);
      tables := tables[f := tables[f][j := pte]];
      return true;
    }

    /** `clone_kernel_page_directory`.  The new directory goes to frame new_d and its page tables to
        the frames that operator new returns, in order. */
    method Clone(cr3: nat, new_d: nat, frames: seq<nat>)
      requires Valid(M()) && cr3 in dirs && new_d !in dirs
      requires |frames| >= ENTRIES - KERNEL_ENTRY
      requires forall k :: 0 <= k < |frames| ==> frames[k] !in tables
      requires forall k, l :: 0 <= k < l < |frames| ==> frames[k] != frames[l]
      modifies this
      ensures Valid(M()) && dirs.Keys == old(dirs.Keys) + {new_d} && KeepsPermissive(old(M()), M()) && Permissive(M(), new_d)
      ensures forall e, v :: e in old(dirs) && 0 <= v < PAGES ==> Translate(M(), e, v) == Translate(old(M()), e, v)
      ensures forall v :: USER_PAGES <= v < PAGES ==> Translate(M(), new_d, v) == Translate(old(M()), cr3, v)
      ensures forall v :: 0 <= v < USER_PAGES ==> Translate(M(), new_d, v) == None
    {
      ghost var m := M();
      var pd := seq(ENTRIES, _ => ZERO_PDE);
      var copied := tables;
      ghost var at: map<nat, nat> := map[];
      var used := 0;
      var i := KERNEL_ENTRY;
      while i < ENTRIES
        invariant KERNEL_ENTRY <= i <= ENTRIES && 0 <= used <= i - KERNEL_ENTRY
        invariant M() == m && CopiedUpTo(m, cr3, pd, at, copied, i)
        invariant forall k :: used <= k < |frames| ==> frames[k] !in copied
      {
        ghost var before := (pd, at, copied);
        if dirs[cr3][i].p {
          if dirs[cr3][i].ps {
            pd := pd[i := dirs[cr3][i]];
          } else {
            assert HasTable(m, cr3, i);
            var f := frames[used];
            copied := copied[f := tables[dirs[cr3][i].addr]];
            pd := pd[i := dirs[cr3][i].(addr := f)];
            at := at[i := f];
            used := used + 1;
          }
        }
        CopyOne(m, cr3, before.0, before.1, before.2, i, pd, at, copied);
        i := i + 1;
      }
      CloneAgrees(m, cr3, new_d, pd, at, copied);
      tables := copied;
      dirs := dirs[new_d := pd];
    }
  }

  /** One turn of the copying loop. */
  lemma CopyOne(m: Mem, d: nat, pd: seq<Pde>, at: map<nat, nat>, tables: map<nat, seq<Pte>>, i: nat,
                pd': seq<Pde>, at': map<nat, nat>, tables': map<nat, seq<Pte>>)
    requires Valid(m) && d in m.dirs && KERNEL_ENTRY <= i < ENTRIES && CopiedUpTo(m, d, pd, at, tables, i)
    requires var pde := m.dirs[d][i];
             if !pde.p then pd' == pd && at' == at && tables' == tables
             else if pde.ps then pd' == pd[i := pde] && at' == at && tables' == tables
             else
               && pde.addr in m.tables && i in at' && at' == at[i := at'[i]] && at'[i] !in tables
               && pd' == pd[i := pde.(addr := at'[i])]
               && tables' == tables[at'[i] := m.tables[pde.addr]]
    ensures CopiedUpTo(m, d, pd', at', tables', i + 1)
  {
    if m.dirs[d][i].p && !m.dirs[d][i].ps {
      CopyEntry(m, d, pd, at, i, at'[i]);
      CopyTable(m, d, at, tables, i, at'[i]);
    }
  }

  lemma CopyEntry(m: Mem, d: nat, pd: seq<Pde>, at: map<nat, nat>, i: nat, f: nat)
    requires Valid(m) && d in m.dirs && KERNEL_ENTRY <= i < ENTRIES && EntriesCopied(m, d, pd, at, i) && HasTable(m, d, i)
    ensures EntriesCopied(m, d, pd[i := m.dirs[d][i].(addr := f)], at[i := f], i + 1)
  {
    assert i !in at;
  }

  lemma CopyTable(m: Mem, d: nat, at: map<nat, nat>, tables: map<nat, seq<Pte>>, i: nat, f: nat)
    requires Valid(m) && d in m.dirs && TablesCopied(m, d, at, tables) && HasTable(m, d, i) && i !in at && f !in tables
    ensures TablesCopied(m, d, at[i := f], tables[f := m.tables[m.dirs[d][i].addr]])
  {
    ValuesGrow(at, i, f);
  }

  lemma ValuesGrow(at: map<nat, nat>, i: nat, f: nat)
    requires i !in at
    ensures at[i := f].Values == at.Values + {f}
  {
    var at' := at[i := f];
    assert at'[i] == f;
    forall g | g in at.Values ensures g in at'.Values {
      var x :| x in at && at[x] == g;
      assert at'[x] == g;
    }
  }
}
