/** The dentry cache: reference counts of dentries and path lookup through the cache
    (src/kernel/fs/vfs.cc, src/kernel/fs/vfs.h, src/kernel/util/pathutil.cc). */
module Dcache {
  import opened Options

  // ----- Paths -----

  /** The first slash of a path, or its length. */
  function FindSlash(path: string): (i: nat)
    ensures i <= |path| && '/' !in path[..i] && (i < |path| ==> path[i] == '/')
  {
    if path == "" || path[0] == '/' then 0 else 1 + FindSlash(path[1..])
  }

  /** `left_partition_path`: the first component and the rest. */
  function LeftPartition(path: string): (r: (string, string))
    ensures '/' !in r.0
    ensures path == r.0 + "/" + r.1 || (path == r.0 && r.1 == "")
  {
    var i := FindSlash(path);
    if i < |path| then (path[..i], path[i + 1..]) else (path, "")
  }

  /** Reference definition: what stands between the slashes of a path. */
  function Split(path: string): (r: seq<string>)
    ensures r != []
  {
    if path == "" then [""]
    else
      var rest := Split(path[1..]);
      if path[0] == '/' then [""] + rest else [[path[0]] + rest[0]] + rest[1..]
  }

  /** Names put together with a slash between any two. */
  function Join(names: seq<string>): string
    requires names != []
  {
    if |names| == 1 then names[0] else names[0] + "/" + Join(names[1..])
  }

  lemma JoinLonger(c: char, names: seq<string>)
    requires names != []
    ensures Join([[c] + names[0]] + names[1..]) == [c] + Join(names)
  {
    var longer := [[c] + names[0]] + names[1..];
    assert longer[1..] == names[1..];
  }

  /** The names are without slashes and make up the path. */
  lemma {:induction false} SplitJoins(path: string)
    ensures Join(Split(path)) == path
    ensures forall k :: 0 <= k < |Split(path)| ==> '/' !in Split(path)[k]
  {
    if path == "" {
    } else {
      var rest := Split(path[1..]);
      SplitJoins(path[1..]);
      assert path == [path[0]] + path[1..];
      if path[0] == '/' {
        assert ([""] + rest)[1..] == rest;
      } else {
        JoinLonger(path[0], rest);
      }
    }
  }

  lemma {:induction false} SplitFirst(path: string)
    ensures var (first, rest) := LeftPartition(path);
            Split(path) == if '/' in path then [first] + Split(rest) else [first]
  {
    if path != "" && path[0] != '/' {
      SplitFirst(path[1..]);
      assert path == [path[0]] + path[1..];
      var i := FindSlash(path[1..]);
      if i < |path[1..]| {
        assert path[..i + 1] == [path[0]] + path[1..][..i];
        assert path[i + 2..] == path[1..][i + 1..];
        assert '/' in path[1..] && '/' in path;
      } else {
        assert '/' !in path[1..];
      }
    }
  }

  // ----- Resolution without a cache -----

  /** A filesystem that does not change: `lookup` of a directory, and which inodes are directories. */
  datatype Fs = Fs(lookup: (int, string) -> Option<int>, isDir: int -> bool)

  /** Resolution ends at an inode, given with the inodes on the way from the root, finds nothing, or
      looks for a name in something that is not a directory, which panics. */
  datatype Outcome = Reached(trail: seq<int>) | NotFound | Panic

  function ResolveName(fs: Fs, trail: seq<int>, name: string): (o: Outcome)
    requires trail != []
    ensures o.Reached? ==> o.trail != []
  {
    var here := trail[|trail| - 1];
    if name == "" || name == "." then Reached(trail)
    else if name == ".." then Reached(if |trail| > 1 then trail[..|trail| - 1] else trail)
    else if !fs.isDir(here) then Panic
    else match fs.lookup(here, name)
         case None => NotFound
         case Some(inode) => Reached(trail + [inode])
  }

  /** Component-by-component resolution. */
  function Resolve(fs: Fs, trail: seq<int>, names: seq<string>): Outcome
    requires trail != []
    decreases names
  {
    if names == [] then Reached(trail)
    else
      var o := ResolveName(fs, trail, names[0]);
      if o.Reached? then Resolve(fs, o.trail, names[1..]) else o
  }

  lemma ResolvePath(fs: Fs, trail: seq<int>, path: string)
    requires trail != []
    ensures path == "" ==> Resolve(fs, trail, Split(path)) == Reached(trail)
    ensures path != "" ==>
              var (first, rest) := LeftPartition(path);
              var o := ResolveName(fs, trail, first);
              Resolve(fs, trail, Split(path)) == if o.Reached? then Resolve(fs, o.trail, Split(rest)) else o
  {
    if path != "" {
      SplitFirst(path);
      var (first, rest) := LeftPartition(path);
      if '/' in path {
        assert ([first] + Split(rest))[1..] == Split(rest);
      } else {
        assert [first][1..] == [];
        assert rest == "";
      }
    }
  }

  // ----- What names mean -----

  lemma {:induction false} ResolveAppend(fs: Fs, trail: seq<int>, a: seq<string>, b: seq<string>)
    requires trail != []
    ensures var o := Resolve(fs, trail, a);
            (o.Reached? ==> o.trail != []) && Resolve(fs, trail, a + b) == if o.Reached? then Resolve(fs, o.trail, b) else o
    decreases |a|
  {
    if a == [] {
      assert a + b == b;
    } else {
      assert (a + b)[0] == a[0] && (a + b)[1..] == a[1..] + b;
      var o := ResolveName(fs, trail, a[0]);
      if o.Reached? { ResolveAppend(fs, o.trail, a[1..], b); }
    }
  }

  lemma ResolveOne(fs: Fs, trail: seq<int>, name: string, b: seq<string>)
    requires trail != []
    ensures var o := ResolveName(fs, trail, name);
            Resolve(fs, trail, [name] + b) == if o.Reached? then Resolve(fs, o.trail, b) else o
  {
    assert ([name] + b)[0] == name && ([name] + b)[1..] == b;
  }

  /** An empty component, as between two slashes, and a dot stand for nothing, wherever they are. */
  lemma DotIsNothing(fs: Fs, trail: seq<int>, a: seq<string>, b: seq<string>)
    requires trail != []
    ensures Resolve(fs, trail, a + (["."] + b)) == Resolve(fs, trail, a + b)
    ensures Resolve(fs, trail, a + ([""] + b)) == Resolve(fs, trail, a + b)
  {
    var o := Resolve(fs, trail, a);
    ResolveAppend(fs, trail, a, b);
    ResolveAppend(fs, trail, a, ["."] + b);
    ResolveAppend(fs, trail, a, [""] + b);
    if o.Reached? {
      ResolveOne(fs, o.trail, ".", b);
      ResolveOne(fs, o.trail, "", b);
    }
  }

  /** Two dots take back the last name that was found, and do nothing at the root. */
  lemma DotDotTakesBack(fs: Fs, trail: seq<int>, name: string, b: seq<string>)
    requires trail != [] && name !in ["", ".", ".."]
    ensures ResolveName(fs, trail, name).Reached? ==> Resolve(fs, trail, [name] + ([".."] + b)) == Resolve(fs, trail, b)
    ensures |trail| == 1 ==> Resolve(fs, trail, [".."] + b) == Resolve(fs, trail, b)
  {
    var o := ResolveName(fs, trail, name);
    ResolveOne(fs, trail, name, [".."] + b);
    ResolveOne(fs, trail, "..", b);
    if o.Reached? {
      ResolveOne(fs, o.trail, "..", b);
      assert o.trail[..|o.trail| - 1] == trail;
    }
  }

  /** Any other name is found iff the filesystem has it in the directory reached so far. */
  lemma NameIsLookedUp(fs: Fs, trail: seq<int>, name: string, inode: int)
    requires trail != [] && name !in ["", ".", ".."]
    ensures ResolveName(fs, trail, name) == Reached(trail + [inode])
            <==> fs.isDir(trail[|trail| - 1]) && fs.lookup(trail[|trail| - 1], name) == Some(inode)
  {
    assert (trail + [inode])[|trail|] == inode;
    var o := ResolveName(fs, trail, name);
    if o == Reached(trail + [inode]) {
      assert o.trail[|trail|] == inode;
    }
  }

  // ----- The cache -----

  /** Dentries are named by the order of their creation. */
  datatype Dentry = Dentry(inode: int, parent: Option<nat>, name: string, rc: nat, children: set<nat>)

  /** `holders` are the open files and file mappings, which each hold a reference. */
  datatype State = State(dentries: map<nat, Dentry>, table: map<(nat, string), nat>, root: nat, next: nat, holders: multiset<nat>)

  ghost predicate ParentOk(s: State, d: nat)
    requires d in s.dentries
  {
    && d < s.next
    && (d == s.root <==> s.dentries[d].parent.None?)
    && (d != s.root ==>
          var p := s.dentries[d].parent.value;
          p in s.dentries && p < d && d in s.dentries[p].children)
  }

  ghost predicate ChildOk(s: State, p: nat, c: nat) {
    c in s.dentries && s.dentries[c].parent == Some(p)
  }

  /** The dentry is what the filesystem gives for its name, and the table finds it. */
  ghost predicate KeyOk(fs: Fs, s: State, d: nat)
    requires d in s.dentries
  {
    s.dentries[d].parent.Some? ==>
      var p := s.dentries[d].parent.value;
      && (p, s.dentries[d].name) in s.table
      && s.table[(p, s.dentries[d].name)] == d
      && p in s.dentries
      && fs.isDir(s.dentries[p].inode)
      && fs.lookup(s.dentries[p].inode, s.dentries[d].name) == Some(s.dentries[d].inode)
  }

  ghost predicate TableOk(s: State, k: (nat, string))
    requires k in s.table
  {
    var d := s.table[k];
    d in s.dentries && s.dentries[d].parent == Some(k.0) && s.dentries[d].name == k.1
  }

  /** The count is children plus open files plus mappings, plus one for the root. */
  ghost predicate CountOk(s: State, d: nat)
    requires d in s.dentries
  {
    s.dentries[d].rc == |s.dentries[d].children| + s.holders[d] + if d == s.root then 1 else 0
  }

  ghost predicate Inv(fs: Fs, s: State) {
    && s.root in s.dentries
    && (forall d {:trigger ParentOk(s, d)} :: d in s.dentries ==> ParentOk(s, d))
    && (forall d {:trigger KeyOk(fs, s, d)} :: d in s.dentries ==> KeyOk(fs, s, d))
    && (forall d {:trigger CountOk(s, d)} :: d in s.dentries ==> CountOk(s, d))
    && (forall p, c {:trigger ChildOk(s, p, c)} :: p in s.dentries && c in s.dentries[p].children ==> ChildOk(s, p, c))
    && (forall k {:trigger TableOk(s, k)} :: k in s.table ==> TableOk(s, k))
    && (forall d: nat {:trigger s.holders[d]} :: s.holders[d] > 0 ==> d in s.dentries)
  }

  function InitState(rootInode: int): State {
    State(map[0 := Dentry(rootInode, None, "<root>", 1, {})], map[], 0, 1, multiset{})
  }

  lemma InitInv(fs: Fs, rootInode: int)
    ensures Inv(fs, InitState(rootInode))
  {
  }

  /** The inodes on the way from the root. */
  ghost function Trail(s: State, d: nat): (r: seq<int>)
    ensures d in s.dentries ==> |r| > 0 && r[|r| - 1] == s.dentries[d].inode
    decreases d
  {
    if d !in s.dentries then []
    else
      var e := s.dentries[d];
      (if e.parent.Some? && e.parent.value < d then Trail(s, e.parent.value) else []) + [e.inode]
  }

  // ----- Taking references -----

  function Hold(s: State, d: nat): State
    requires d in s.dentries
  {
    s.(dentries := s.dentries[d := s.dentries[d].(rc := s.dentries[d].rc + 1)], holders := s.holders + multiset{d})
  }

  lemma HoldInv(fs: Fs, s: State, d: nat)
    requires Inv(fs, s) && d in s.dentries
    ensures Inv(fs, Hold(s, d))
  {
    var s' := Hold(s, d);
    forall x | x in s'.dentries ensures ParentOk(s', x) && KeyOk(fs, s', x) && CountOk(s', x) {
      assert ParentOk(s, x) && KeyOk(fs, s, x) && CountOk(s, x);
    }
    forall p, c | p in s'.dentries && c in s'.dentries[p].children ensures ChildOk(s', p, c) {
      assert ChildOk(s, p, c);
    }
    forall k | k in s'.table ensures TableOk(s', k) { assert TableOk(s, k); }
  }

  /** A new dentry starts with no reference, and takes one on its parent. */
  function AddDentry(s: State, p: nat, inode: int, name: string): State
    requires p in s.dentries
  {
    var e := s.dentries[p];
    s.(dentries := s.dentries[p := e.(rc := e.rc + 1, children := e.children + {s.next})]
                             [s.next := Dentry(inode, Some(p), name, 0, {})],
       table := s.table[(p, name) := s.next],
       next := s.next + 1)
  }

  /** The filesystem has this name, and the cache does not. */
  ghost predicate CanAdd(fs: Fs, s: State, p: nat, inode: int, name: string) {
    && Inv(fs, s) && p in s.dentries && (p, name) !in s.table
    && fs.isDir(s.dentries[p].inode) && fs.lookup(s.dentries[p].inode, name) == Some(inode)
  }

  lemma NextIsNew(fs: Fs, s: State, p: nat)
    requires Inv(fs, s) && p in s.dentries
    ensures s.next !in s.dentries && p < s.next && s.next !in s.dentries[p].children && s.holders[s.next] == 0
  {
    forall x | x in s.dentries ensures x < s.next { assert ParentOk(s, x); }
    assert forall c :: c in s.dentries[p].children ==> ChildOk(s, p, c);
  }

  lemma AddDentryOne(fs: Fs, s: State, p: nat, inode: int, name: string, x: nat)
    requires CanAdd(fs, s, p, inode, name) && (x == s.next || x in s.dentries)
    ensures var s' := AddDentry(s, p, inode, name); ParentOk(s', x) && KeyOk(fs, s', x) && CountOk(s', x)
  {
    NextIsNew(fs, s, p);
    assert ParentOk(s, p);
    if x != s.next { assert ParentOk(s, x) && KeyOk(fs, s, x) && CountOk(s, x); }
  }

  lemma AddDentryChild(fs: Fs, s: State, p: nat, inode: int, name: string, q: nat, c: nat)
    requires CanAdd(fs, s, p, inode, name)
    requires var s' := AddDentry(s, p, inode, name); q in s'.dentries && c in s'.dentries[q].children
    ensures ChildOk(AddDentry(s, p, inode, name), q, c)
  {
    NextIsNew(fs, s, p);
    if q in s.dentries {
      NextIsNew(fs, s, q);
      if c in s.dentries[q].children { assert ChildOk(s, q, c); }
    }
  }

  lemma AddDentryInv(fs: Fs, s: State, p: nat, inode: int, name: string)
    requires CanAdd(fs, s, p, inode, name)
    ensures Inv(fs, AddDentry(s, p, inode, name))
  {
    var s' := AddDentry(s, p, inode, name);
    NextIsNew(fs, s, p);
    forall x | x in s'.dentries ensures ParentOk(s', x) && KeyOk(fs, s', x) && CountOk(s', x) {
      AddDentryOne(fs, s, p, inode, name, x);
    }
    forall q, c | q in s'.dentries && c in s'.dentries[q].children ensures ChildOk(s', q, c) {
      AddDentryChild(fs, s, p, inode, name, q, c);
    }
    forall k | k in s'.table ensures TableOk(s', k) {
      if k != (p, name) { assert TableOk(s, k); }
    }
  }

  lemma AddDentryTrail(fs: Fs, s: State, p: nat, inode: int, name: string)
    requires CanAdd(fs, s, p, inode, name)
    ensures Trail(AddDentry(s, p, inode, name), s.next) == Trail(s, p) + [inode]
  {
    NextIsNew(fs, s, p);
    TrailFrame(s, AddDentry(s, p, inode, name), p);
  }

  lemma {:induction false} TrailFrame(s: State, s': State, d: nat)
    requires d in s.dentries
    requires forall x :: x in s.dentries && x <= d ==> ParentOk(s, x)
    requires forall x :: x in s.dentries && x <= d ==>
               x in s'.dentries && s'.dentries[x].inode == s.dentries[x].inode && s'.dentries[x].parent == s.dentries[x].parent
    ensures Trail(s', d) == Trail(s, d)
    decreases d
  {
    assert ParentOk(s, d);
    if s.dentries[d].parent.None? {
    } else {
      TrailFrame(s, s', s.dentries[d].parent.value);
    }
  }

  // ----- Dropping references -----

  /** The dentries that go away when `d` loses a reference: those on the way up, starting at `d`,
      whose only reference it was. */
  ghost function Dead(s: State, d: nat): set<nat>
    decreases d
  {
    if d !in s.dentries || s.dentries[d].rc != 1 then {}
    else {d} + match s.dentries[d].parent
               case Some(p) => if p < d then Dead(s, p) else {}
               case None => {}
  }

  /** The first one that stays. */
  ghost function StopAt(s: State, d: nat): nat
    decreases d
  {
    if d !in s.dentries || s.dentries[d].rc != 1 then d
    else match s.dentries[d].parent
         case Some(p) => if p < d then StopAt(s, p) else d
         case None => d
  }

  /** The last one that goes. */
  ghost function LastDead(s: State, d: nat): nat
    decreases d
  {
    if d !in s.dentries || s.dentries[d].rc != 1 then d
    else match s.dentries[d].parent
         case Some(p) => if p < d && StopAt(s, p) != p then LastDead(s, p) else d
         case None => d
  }

  ghost function DeadKeys(s: State, d: nat): set<(nat, string)>
    decreases d
  {
    if d !in s.dentries || s.dentries[d].rc != 1 then {}
    else match s.dentries[d].parent
         case Some(p) => {(p, s.dentries[d].name)} + if p < d then DeadKeys(s, p) else {}
         case None => {}
  }

  ghost function Survivor(s: State, d: nat, x: nat): Dentry
    requires x in s.dentries
  {
    var e := s.dentries[x];
    if x == StopAt(s, d) then
      e.(rc := if e.rc > 0 then e.rc - 1 else 0, children := if x == d then e.children else e.children - {LastDead(s, d)})
    else e
  }

  ghost function Dropped(s: State, d: nat): State {
    s.(dentries := map x | x in s.dentries && x !in Dead(s, d) :: Survivor(s, d, x),
       table := s.table - DeadKeys(s, d))
  }

  /** What the assertions along the way ask for: counts that are not zero, no children left when a
      dentry is destroyed, and a table entry to erase. `gone` are the children already erased. */
  ghost predicate Droppable(s: State, d: nat, gone: set<nat>)
    decreases d
  {
    && d in s.dentries
    && s.dentries[d].rc > 0
    && (s.dentries[d].rc == 1 ==>
          && s.dentries[d].children <= gone
          && s.dentries[d].parent.Some?
          && var p := s.dentries[d].parent.value;
             && p < d
             && (p, s.dentries[d].name) in s.table
             && s.table[(p, s.dentries[d].name)] == d
             && Droppable(s, p, {d}))
  }

  /** The cascade depends only on the dentries up to `d`, and not on holders. */
  ghost predicate AgreeUpTo(s: State, s': State, d: nat) {
    forall x: nat {:trigger x in s.dentries} :: x <= d ==>
      (x in s.dentries <==> x in s'.dentries) && (x in s.dentries ==> s.dentries[x] == s'.dentries[x])
  }

  ghost predicate SameCascade(s: State, s': State, d: nat) {
    && Dead(s', d) == Dead(s, d) && StopAt(s', d) == StopAt(s, d)
    && LastDead(s', d) == LastDead(s, d) && DeadKeys(s', d) == DeadKeys(s, d)
  }

  lemma {:induction false} CascadeFrame(s: State, s': State, d: nat, gone: set<nat>)
    requires AgreeUpTo(s, s', d) && s'.table == s.table
    ensures SameCascade(s, s', d)
    ensures Droppable(s, d, gone) ==> Droppable(s', d, gone)
    ensures forall x :: x in Dead(s, d) ==> x <= d
    ensures Droppable(s, d, gone) ==> forall k :: k in DeadKeys(s, d) ==> k.0 < d
    ensures StopAt(s, d) <= d
    decreases d
  {
    if d in s.dentries && s.dentries[d].rc == 1 && s.dentries[d].parent.Some? && s.dentries[d].parent.value < d {
      CascadeFrame(s, s', s.dentries[d].parent.value, {d});
    }
  }

  /** `d` is being destroyed: its count is zero and its parent `p` no longer lists it. */
  ghost predicate Unlinked(s: State, s1: State, d: nat, p: nat) {
    && d in s.dentries && p in s.dentries && p < d && s1.table == s.table
    && s1.dentries == s.dentries[d := s.dentries[d].(rc := 0)]
                                [p := s.dentries[p].(children := s.dentries[p].children - {d})]
    && s1 == s.(dentries := s1.dentries)
  }

  lemma ParentCascade(s: State, s1: State, d: nat, p: nat)
    requires Unlinked(s, s1, d, p) && Droppable(s, p, {d})
    ensures Droppable(s1, p, {}) && SameCascade(s, s1, p)
  {
    if s.dentries[p].rc == 1 {
      assert s1.dentries[p].children == {};
      CascadeFrame(s, s1, s.dentries[p].parent.value, {p});
    }
  }

  lemma DroppedOne(s: State, d: nat)
    requires d in s.dentries && s.dentries[d].rc > 1
    ensures Dropped(s, d) == s.(dentries := s.dentries[d := s.dentries[d].(rc := s.dentries[d].rc - 1)])
  {
    assert Dropped(s, d).table == s.table;
    assert Dropped(s, d).dentries == s.dentries[d := s.dentries[d].(rc := s.dentries[d].rc - 1)];
  }

  lemma DroppedParent(s: State, s1: State, d: nat, p: nat)
    requires Unlinked(s, s1, d, p) && Droppable(s, d, {}) && s.dentries[d].rc == 1 && s.dentries[d].parent == Some(p)
    ensures var t := Dropped(s1, p);
            Dropped(s, d) == t.(table := t.table - {(p, s.dentries[d].name)}, dentries := t.dentries - {d})
  {
    var t := Dropped(s1, p);
    ParentCascade(s, s1, d, p);
    CascadeFrame(s, s, p, {d});
    assert Dropped(s, d).table == t.table - {(p, s.dentries[d].name)};
    assert Dropped(s, d).dentries.Keys == (t.dentries - {d}).Keys;
    forall x | x in Dropped(s, d).dentries ensures Survivor(s, d, x) == Survivor(s1, p, x) {
      SurvivorParent(s, s1, d, p, x);
    }
    assert Dropped(s, d).dentries == t.dentries - {d};
  }

  lemma SurvivorParent(s: State, s1: State, d: nat, p: nat, x: nat)
    requires Unlinked(s, s1, d, p) && SameCascade(s, s1, p) && s.dentries[d].rc == 1 && s.dentries[d].parent == Some(p)
    requires x in s.dentries && x != d && x !in Dead(s, p) && StopAt(s, p) <= p
    ensures Survivor(s, d, x) == Survivor(s1, p, x)
  {
    assert StopAt(s, d) == StopAt(s, p);
  }

  /** `d` has a reference: a holder, or the child in `gone`. */
  ghost predicate Referenced(s: State, d: nat, gone: set<nat>) {
    d in s.dentries && gone <= s.dentries[d].children && if gone == {} then s.holders[d] > 0 else |gone| == 1
  }

  lemma OnlyReference(fs: Fs, s: State, d: nat, gone: set<nat>)
    requires Inv(fs, s) && Referenced(s, d, gone)
    ensures s.dentries[d].rc > 0
    ensures s.dentries[d].rc == 1 ==> s.dentries[d].children == gone && d != s.root && s.holders[d] == 1 - |gone|
  {
    assert CountOk(s, d);
    var more := s.dentries[d].children - gone;
    assert s.dentries[d].children == gone + more;
    assert |s.dentries[d].children| == |gone| + |more|;
  }

  /** What is known of a dentry that goes away: its parent goes too or is where the cascade stops, and
      nothing but a child that goes holds it. */
  ghost predicate Unreferenced(s: State, d: nat, gone: set<nat>, x: nat) {
    && x in s.dentries && x != s.root
    && s.dentries[x].parent.Some?
    && (s.dentries[x].parent.value in Dead(s, d) || (s.dentries[x].parent.value == StopAt(s, d) && x == LastDead(s, d)))
    && s.dentries[x].children <= Dead(s, d) + gone
    && s.holders[x] == (if x == d && gone == {} then 1 else 0)
  }

  lemma {:induction false} DeadAreUnreferenced(fs: Fs, s: State, d: nat, gone: set<nat>)
    requires Inv(fs, s) && Referenced(s, d, gone)
    ensures Droppable(s, d, gone)
    ensures forall x {:trigger Unreferenced(s, d, gone, x)} :: x in Dead(s, d) ==> Unreferenced(s, d, gone, x)
    decreases d
  {
    OnlyReference(fs, s, d, gone);
    if s.dentries[d].rc != 1 {
    } else {
      assert ParentOk(s, d) && KeyOk(fs, s, d);
      var p := s.dentries[d].parent.value;
      DeadAreUnreferenced(fs, s, p, {d});
      forall x | x in Dead(s, d) ensures Unreferenced(s, d, gone, x) {
        if x != d { assert Unreferenced(s, p, {d}, x); }
        CascadeFrame(s, s, p, {d});
      }
    }
  }

  lemma {:induction false} StopStays(fs: Fs, s: State, d: nat, gone: set<nat>)
    requires Inv(fs, s) && Referenced(s, d, gone)
    ensures var t := StopAt(s, d);
            && t in s.dentries && t !in Dead(s, d) && s.dentries[t].rc > 1
            && (t == d <==> Dead(s, d) == {})
            && (t != d ==> d in Dead(s, d) && LastDead(s, d) in Dead(s, d) && LastDead(s, d) in s.dentries[t].children)
    decreases d
  {
    OnlyReference(fs, s, d, gone);
    if s.dentries[d].rc != 1 {
    } else {
      assert ParentOk(s, d);
      var p := s.dentries[d].parent.value;
      StopStays(fs, s, p, {d});
      CascadeFrame(s, s, p, {d});
    }
  }

  /** Closing a file or removing a mapping. */
  ghost function Release(s: State, d: nat): State { Dropped(s.(holders := s.holders - multiset{d}), d) }

  lemma ReleaseIs(s: State, d: nat)
    ensures SameCascade(s, s.(holders := s.holders - multiset{d}), d)
    ensures Release(s, d) == Dropped(s, d).(holders := s.holders - multiset{d})
  {
    var s0 := s.(holders := s.holders - multiset{d});
    CascadeFrame(s, s0, d, {});
    forall x | x in s.dentries ensures Survivor(s0, d, x) == Survivor(s, d, x) { }
    assert Dropped(s0, d).dentries == Dropped(s, d).dentries;
  }

  lemma {:induction false} DeadKeysAre(fs: Fs, s: State, d: nat, gone: set<nat>, k: (nat, string))
    requires Inv(fs, s) && Referenced(s, d, gone) && k in s.table
    ensures k in DeadKeys(s, d) <==> s.table[k] in Dead(s, d)
    decreases d
  {
    OnlyReference(fs, s, d, gone);
    if s.dentries[d].rc != 1 {
    } else {
      assert ParentOk(s, d) && KeyOk(fs, s, d) && TableOk(s, k);
      var p := s.dentries[d].parent.value;
      DeadKeysAre(fs, s, p, {d}, k);
    }
  }

  /** The root, every dentry that still has a holder, and every dentry with a child that stays, stay. */
  lemma ReferencedStay(fs: Fs, s: State, d: nat, x: nat)
    requires Inv(fs, s) && s.holders[d] > 0
    requires x == s.root || (s.holders - multiset{d})[x] > 0 || (x in s.dentries && !(s.dentries[x].children <= Dead(s, d)))
    ensures x !in Dead(s, d)
  {
    DeadAreUnreferenced(fs, s, d, {});
    forall y | y in Dead(s, d) ensures y != x { assert Unreferenced(s, d, {}, y); }
  }

  lemma SurvivorsParent(fs: Fs, s: State, d: nat, x: nat)
    requires Inv(fs, s) && s.holders[d] > 0 && x in Release(s, d).dentries
    ensures ParentOk(Release(s, d), x) && KeyOk(fs, Release(s, d), x)
  {
    ReleaseIs(s, d);
    DeadAreUnreferenced(fs, s, d, {});
    assert ParentOk(s, x) && KeyOk(fs, s, x);
    if x != s.root {
      var p := s.dentries[x].parent.value;
      ReferencedStay(fs, s, d, p);
      DeadKeysAre(fs, s, d, {}, (p, s.dentries[x].name));
    }
    StopStays(fs, s, d, {});
  }

  lemma SurvivorsCount(fs: Fs, s: State, d: nat, x: nat)
    requires Inv(fs, s) && s.holders[d] > 0 && x in Release(s, d).dentries
    ensures CountOk(Release(s, d), x)
  {
    ReleaseIs(s, d);
    assert CountOk(s, x);
    StopStays(fs, s, d, {});
  }

  lemma SurvivorsChild(fs: Fs, s: State, d: nat, p: nat, c: nat)
    requires Inv(fs, s) && s.holders[d] > 0 && p in Release(s, d).dentries && c in Release(s, d).dentries[p].children
    ensures ChildOk(Release(s, d), p, c)
  {
    ReleaseIs(s, d);
    assert ChildOk(s, p, c);
    DeadAreUnreferenced(fs, s, d, {});
    StopStays(fs, s, d, {});
    forall y | y in Dead(s, d) && p !in Dead(s, d) && y in s.dentries[p].children ensures p == StopAt(s, d) && y == LastDead(s, d) {
      assert Unreferenced(s, d, {}, y) && ChildOk(s, p, y);
    }
  }

  lemma SurvivorsTable(fs: Fs, s: State, d: nat, k: (nat, string))
    requires Inv(fs, s) && s.holders[d] > 0 && k in Release(s, d).table
    ensures TableOk(Release(s, d), k)
  {
    ReleaseIs(s, d);
    assert TableOk(s, k);
    DeadKeysAre(fs, s, d, {}, k);
  }

  /** Releasing a reference keeps the invariant; in particular no dentry that is still referenced
      is destroyed. */
  lemma ReleaseInv(fs: Fs, s: State, d: nat)
    requires Inv(fs, s) && s.holders[d] > 0
    ensures Inv(fs, Release(s, d))
  {
    var s' := Release(s, d);
    ReleaseIs(s, d);
    ReferencedStay(fs, s, d, s.root);
    forall x | x in s'.dentries ensures ParentOk(s', x) && KeyOk(fs, s', x) && CountOk(s', x) {
      SurvivorsParent(fs, s, d, x);
      SurvivorsCount(fs, s, d, x);
    }
    forall p, c | p in s'.dentries && c in s'.dentries[p].children ensures ChildOk(s', p, c) {
      SurvivorsChild(fs, s, d, p, c);
    }
    forall k | k in s'.table ensures TableOk(s', k) {
      SurvivorsTable(fs, s, d, k);
    }
    forall x: nat | s'.holders[x] > 0 ensures x in s'.dentries {
      assert s.holders[x] > 0;
      ReferencedStay(fs, s, d, x);
    }
  }

  /** `x` is `d` or lies above it. */
  ghost predicate Above(s: State, x: nat, d: nat)
    decreases d
  {
    d in s.dentries
    && (x == d || (s.dentries[d].parent.Some? && s.dentries[d].parent.value < d && Above(s, x, s.dentries[d].parent.value)))
  }

  lemma {:induction false} AboveIsCounted(fs: Fs, s: State, x: nat, d: nat)
    requires Inv(fs, s) && Above(s, x, d) && s.dentries[d].rc > 0
    ensures x in s.dentries && s.dentries[x].rc > 0
    decreases d
  {
    if x == d {
    } else {
      var p := s.dentries[d].parent.value;
      assert ParentOk(s, d) && CountOk(s, p);
      AboveIsCounted(fs, s, x, p);
    }
  }

  /** The cascade goes far enough: whatever it leaves on the way up is still referenced. */
  lemma CascadeLeavesNoneUncounted(fs: Fs, s: State, d: nat, x: nat)
    requires Inv(fs, s) && s.holders[d] > 0 && Above(s, x, d) && x in Release(s, d).dentries
    ensures Release(s, d).dentries[x].rc > 0
  {
    ReleaseIs(s, d);
    StopStays(fs, s, d, {});
    OnlyReference(fs, s, d, {});
    AboveIsCounted(fs, s, x, d);
  }

  lemma {:induction false} DeadAreAbove(s: State, d: nat, x: nat)
    requires x in Dead(s, d)
    ensures Above(s, x, d)
    decreases d
  {
    if x == d {
    } else {
      DeadAreAbove(s, s.dentries[d].parent.value, x);
    }
  }

  /** One holder of d less.  What goes lies on the way up from d, is not the root and has neither a holder nor a child
      that stays; what stays on that way is still counted; and all that stay have their name, place and inode. */
  ghost predicate Closed(s: State, d: nat, t: State) {
    && t.holders == s.holders - multiset{d} && t.root == s.root && t.next == s.next
    && (forall x :: x in t.dentries ==> x in s.dentries && SamePlace(s.dentries[x], t.dentries[x]))
    && (forall x :: x in t.dentries && Above(s, x, d) ==> t.dentries[x].rc > 0)
    && (forall x {:trigger x in s.dentries} :: x in s.dentries && x !in t.dentries ==>
          Above(s, x, d) && x != s.root && t.holders[x] == 0 && forall c :: c in s.dentries[x].children ==> c !in t.dentries)
  }

  predicate SamePlace(e: Dentry, f: Dentry) { f.inode == e.inode && f.parent == e.parent && f.name == e.name }

  lemma ReleaseCloses(fs: Fs, s: State, d: nat)
    requires Inv(fs, s) && s.holders[d] > 0
    ensures Closed(s, d, Release(s, d))
  {
    var t := Release(s, d);
    ReleaseIs(s, d);
    DeadAreUnreferenced(fs, s, d, {});
    forall x | x in t.dentries && Above(s, x, d) ensures t.dentries[x].rc > 0 { CascadeLeavesNoneUncounted(fs, s, d, x); }
    forall x | x in s.dentries && x !in t.dentries
      ensures Above(s, x, d) && x != s.root && t.holders[x] == 0 && forall c :: c in s.dentries[x].children ==> c !in t.dentries
    {
      assert x in Dead(s, d) && Unreferenced(s, d, {}, x);
      DeadAreAbove(s, d, x);
    }
  }

  // ----- Path lookup -----

  datatype Found = At(dentry: nat) | Missing | Crash

  /** The dentry found stands for the outcome of the resolution. */
  ghost predicate Matches(s: State, r: Found, o: Outcome) {
    match r
    case At(d) => d in s.dentries && o == Reached(Trail(s, d))
    case Missing => o == NotFound
    case Crash => o == Panic
  }

  /** Dentries were at most added, without references. */
  ghost predicate Extends(s: State, s': State) {
    && s'.holders == s.holders && s'.root == s.root
    && (forall d :: d in s.dentries ==>
          d in s'.dentries && s'.dentries[d].inode == s.dentries[d].inode && s'.dentries[d].parent == s.dentries[d].parent)
  }

  lemma CachedIsResolved(fs: Fs, s: State, it: nat, name: string)
    requires Inv(fs, s) && it in s.dentries && (it, name) in s.table && name != "" && name != "." && name != ".."
    ensures s.table[(it, name)] in s.dentries
    ensures ResolveName(fs, Trail(s, it), name) == Reached(Trail(s, s.table[(it, name)]))
  {
    assert TableOk(s, (it, name));
    var d := s.table[(it, name)];
    assert ParentOk(s, d) && KeyOk(fs, s, d);
  }

  lemma AddedIsResolved(fs: Fs, s: State, it: nat, inode: int, name: string)
    requires CanAdd(fs, s, it, inode, name) && name !in ["", ".", ".."]
    ensures var s' := AddDentry(s, it, inode, name);
            Inv(fs, s') && Extends(s, s') && Matches(s', At(s.next), ResolveName(fs, Trail(s, it), name))
  {
    AddDentryInv(fs, s, it, inode, name);
    AddDentryTrail(fs, s, it, inode, name);
    NextIsNew(fs, s, it);
    AddedExtends(s, it, inode, name);
  }

  lemma AddedExtends(s: State, it: nat, inode: int, name: string)
    requires it in s.dentries && s.next !in s.dentries
    ensures Extends(s, AddDentry(s, it, inode, name))
  {
  }

  lemma ParentIsResolved(fs: Fs, s: State, it: nat)
    requires Inv(fs, s) && it in s.dentries
    ensures var e := s.dentries[it];
            && (e.parent.Some? ==> e.parent.value in s.dentries)
            && ResolveName(fs, Trail(s, it), "..") == Reached(Trail(s, if e.parent.Some? then e.parent.value else it))
  {
    assert ParentOk(s, it);
  }

  class Vfs {
    var s: State

    /** The root filesystem's root dentry, which starts with a reference that is never dropped. */
    constructor (fs: Fs, rootInode: int)
      ensures Inv(fs, s) && s.holders == multiset{} && Trail(s, s.root) == [rootInode]
    {
      s := InitState(rootInode);
      InitInv(fs, rootInode);
    }

    /** `Dentry::dec_rc`. */
    method DecRc(d: nat)
      requires Droppable(s, d, {})
      modifies this
      ensures s == Dropped(old(s), d)
      decreases d, 1
    {
      ghost var before := s;
      if s.dentries[d].rc > 1 { DroppedOne(s, d); }
      s := s.(dentries := s.dentries[d := s.dentries[d].(rc := s.dentries[d].rc - 1)]);
      if s.dentries[d].rc == 0 {
        Destroy(d, before);
      }
    }

    /** `Dentry::~Dentry`. */
    method Destroy(d: nat, ghost before: State)
      requires Droppable(before, d, {}) && before.dentries[d].rc == 1
      requires s == before.(dentries := before.dentries[d := before.dentries[d].(rc := 0)])
      modifies this
      ensures s == Dropped(before, d)
      decreases d, 0
    {
      assert s.dentries[d].children == {};
      var p := s.dentries[d].parent.value;
      var key := (p, s.dentries[d].name);
      var e := s.dentries[p];
      s := s.(dentries := s.dentries[p := e.(children := e.children - {d})]);
      ParentCascade(before, s, d, p);
      DroppedParent(before, s, d, p);
      CascadeFrame(s, s, p, {});
      DecRc(p);
      assert key in s.table && s.table[key] == d;
      s := s.(table := s.table - {key}, dentries := s.dentries - {d});
    }

    method LookupName(fs: Fs, it: nat, name: string) returns (r: Found)
      requires Inv(fs, s) && it in s.dentries
      modifies this
      ensures Inv(fs, s) && Extends(old(s), s)
      ensures Matches(s, r, ResolveName(fs, Trail(old(s), it), name))
    {
      if name == "" || name == "." {
        return At(it);
      }
      if name == ".." {
        ParentIsResolved(fs, s, it);
        return At(if s.dentries[it].parent.Some? then s.dentries[it].parent.value else it);
      }
      if (it, name) in s.table {
        CachedIsResolved(fs, s, it, name);
        return At(s.table[(it, name)]);
      }
      var here := s.dentries[it].inode;
      if !fs.isDir(here) {
        return Crash;
      }
      var inode := fs.lookup(here, name);
      if inode.None? {
        return Missing;
      }
      AddedIsResolved(fs, s, it, inode.value, name);
      var d := s.next;
      s := AddDentry(s, it, inode.value, name);
      return At(d);
    }

    /** `pathname_lookup` ends where resolution without a cache ends, whatever is cached. */
    method PathnameLookup(fs: Fs, path: string) returns (r: Found)
      requires Inv(fs, s)
      modifies this
      ensures Inv(fs, s) && Extends(old(s), s)
      ensures Matches(s, r, Resolve(fs, [old(s).dentries[old(s).root].inode], Split(path)))
    {
      var it, rest := s.root, path;
      assert ParentOk(s, s.root) && Trail(s, s.root) == [s.dentries[s.root].inode];
      ghost var goal := Resolve(fs, [s.dentries[s.root].inode], Split(path));
      while rest != ""
        invariant Inv(fs, s) && Extends(old(s), s) && it in s.dentries
        invariant goal == Resolve(fs, Trail(s, it), Split(rest))
        decreases |rest|
      {
        ResolvePath(fs, Trail(s, it), rest);
        var (name, rest') := LeftPartition(rest);
        r := LookupName(fs, it, name);
        if !r.At? {
          return;
        }
        it, rest := r.dentry, rest';
      }
      ResolvePath(fs, Trail(s, it), rest);
      r := At(it);
    }

    /** `open`: the new file holds a reference. */
    method Open(fs: Fs, path: string) returns (r: Found)
      requires Inv(fs, s)
      modifies this
      ensures Inv(fs, s)
      ensures Matches(s, r, Resolve(fs, [old(s).dentries[old(s).root].inode], Split(path)))
      ensures s.holders == old(s).holders + if r.At? then multiset{r.dentry} else multiset{}
      ensures forall x :: x in old(s).dentries ==>
                x in s.dentries && s.dentries[x].inode == old(s).dentries[x].inode && s.dentries[x].parent == old(s).dentries[x].parent
    {
      r := PathnameLookup(fs, path);
      if r.At? {
        HoldInv(fs, s, r.dentry);
        HoldTrail(fs, s, r.dentry);
        s := Hold(s, r.dentry);
      }
    }

    /** `close`: the reference is dropped, and with it every dentry that is no longer referenced. */
    method Close(fs: Fs, d: nat)
      requires Inv(fs, s) && s.holders[d] > 0
      modifies this
      ensures Inv(fs, s) && s == Release(old(s), d) && Closed(old(s), d, s)
    {
      ReleaseInv(fs, s, d);
      ReleaseCloses(fs, s, d);
      DeadAreUnreferenced(fs, s, d, {});
      CascadeFrame(s, s.(holders := s.holders - multiset{d}), d, {});
      s := s.(holders := s.holders - multiset{d});
      DecRc(d);
    }
  }

  lemma HoldTrail(fs: Fs, s: State, d: nat)
    requires Inv(fs, s) && d in s.dentries
    ensures Trail(Hold(s, d), d) == Trail(s, d)
  {
    TrailFrame(s, Hold(s, d), d);
  }
}
