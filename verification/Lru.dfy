/** The LRU cache with leases (src/kernel/util/lru.h).  Entries are identified by their keys: the
    lookup table is a map, the ring of evictable entries is the sequence of their keys, most
    recently released first, and a Lease object is what it points to, a key or nothing. */
module Lru {
  import opened Options
  import opened Sequences

  datatype Node<V> = Node(val: V, refcount: nat)

  // ----- States and steps -----

  /** A cache together with a record of what has happened to it. */
  datatype State<K, V> = State(
    lookup: map<K, Node<V>>,
    lru: seq<K>,
    leases: multiset<K>,          // the Lease objects alive that are not empty
    manual: multiset<K>,          // holds taken with inc_leases()
    given: map<K, V>,             // what populate last returned for each key
    populated: nat,               // number of populate calls
    evicted: seq<(K, V)>,         // arguments of the on_evict calls, in order
    releasedAt: map<K, nat>,      // when each entry last lost its last hold
    clock: nat)                   // number of such releases so far

  /** `++refcount`, taking the entry off the ring at its first hold. */
  ghost function Hold<K, V>(s: State<K, V>, k: K): State<K, V>
    requires k in s.lookup
  {
    var n := s.lookup[k].(refcount := s.lookup[k].refcount + 1);
    s.(lookup := s.lookup[k := n], lru := if n.refcount == 1 then Without(s.lru, k) else s.lru)
  }

  /** `--refcount`, putting the entry on the ring when its last hold goes. */
  ghost function Unhold<K, V>(s: State<K, V>, k: K): State<K, V>
    requires k in s.lookup && s.lookup[k].refcount > 0
  {
    var n := s.lookup[k].(refcount := s.lookup[k].refcount - 1);
    var t := s.(lookup := s.lookup[k := n]);
    if n.refcount > 0 then t
    else t.(lru := [k] + s.lru, releasedAt := s.releasedAt[k := s.clock], clock := s.clock + 1)
  }

  /** `get`.  `fetched` is what populate answers if it is called. */
  ghost function Get<K, V>(s: State<K, V>, key: K, insertIfMissing: bool, fetched: V): State<K, V> {
    if key in s.lookup then
      Hold(s, key).(leases := s.leases + multiset{key})
    else if insertIfMissing then
      var t := s.(lookup := s.lookup[key := Node(fetched, 0)], given := s.given[key := fetched], populated := s.populated + 1);
      Hold(t, key).(leases := s.leases + multiset{key})
    else s
  }

  /** The destructor of a lease on k. */
  ghost function Release<K, V>(s: State<K, V>, k: K): State<K, V>
    requires Held(s, k)
  {
    Unhold(s, k).(leases := s.leases - multiset{k})
  }

  /** `inc_leases` and `dec_leases` without a lease object. */
  ghost function IncLeases<K, V>(s: State<K, V>, k: K): State<K, V>
    requires k in s.lookup
  {
    Hold(s, k).(manual := s.manual + multiset{k})
  }

  ghost function DecLeases<K, V>(s: State<K, V>, k: K): State<K, V>
    requires Held(s, k)
  {
    Unhold(s, k).(manual := s.manual - multiset{k})
  }

  ghost predicate Held<K, V>(s: State<K, V>, k: K) {
    k in s.lookup && s.lookup[k].refcount > 0
  }

  /** `evict_one(Node &)`. */
  ghost function EvictNode<K, V>(s: State<K, V>, k: K): State<K, V>
    requires k in s.lookup
  {
    s.(lookup := s.lookup - {k}, lru := Without(s.lru, k), evicted := s.evicted + [(k, s.lookup[k].val)])
  }

  // ----- Refcounts are live leases -----

  /** Every refcount is the number of live leases plus explicit holds, and all of these are on
      resident entries. */
  ghost predicate Counted<K, V>(s: State<K, V>) {
    && (forall k :: k in s.lookup ==> s.lookup[k].refcount == s.leases[k] + s.manual[k])
    && (forall k :: k in s.leases ==> k in s.lookup)
    && (forall k :: k in s.manual ==> k in s.lookup)
  }

  // ----- The ring holds exactly the evictable entries -----

  /** Every key of the ring was released after the keys behind it. */
  ghost predicate InOrder<K>(lru: seq<K>, releasedAt: map<K, nat>) {
    && (forall i :: 0 <= i < |lru| ==> lru[i] in releasedAt)
    && (forall i, j :: 0 <= i < j < |lru| ==> releasedAt[lru[i]] > releasedAt[lru[j]])
  }

  /** The ring holds exactly the resident entries without holds, in order of release. */
  ghost predicate RingOk<K(!new), V>(lookup: map<K, Node<V>>, lru: seq<K>, releasedAt: map<K, nat>, clock: nat) {
    && Distinct(lru)
    && (forall k :: k in lru <==> k in lookup && lookup[k].refcount == 0)
    && InOrder(lru, releasedAt)
    && (forall k :: k in lru ==> k in releasedAt && releasedAt[k] < clock)
  }

  lemma CutKeepsOrder<K>(lru: seq<K>, releasedAt: map<K, nat>, i: nat)
    requires i < |lru| && InOrder(lru, releasedAt)
    ensures InOrder(lru[..i] + lru[i + 1..], releasedAt)
  {
    var w := lru[..i] + lru[i + 1..];
    assert forall x :: 0 <= x < |w| ==> w[x] == lru[if x < i then x else x + 1];
  }

  /** Unlinking a key takes exactly it out of the ring and keeps the order of the rest. */
  lemma UnlinkKeepsOrder<K(!new)>(lru: seq<K>, releasedAt: map<K, nat>, k: K)
    requires Distinct(lru) && InOrder(lru, releasedAt)
    ensures var w := Without(lru, k);
            Distinct(w) && InOrder(w, releasedAt) && forall x :: x in w <==> x in lru && x != k
  {
    if k in lru {
      var i :| 0 <= i < |lru| && lru[i] == k;
      WithoutAt(lru, i);
      CutKeepsOrder(lru, releasedAt, i);
    }
  }

  lemma HoldKeepsRing<K(!new), V>(lookup: map<K, Node<V>>, lru: seq<K>, releasedAt: map<K, nat>, clock: nat, k: K, n: Node<V>)
    requires RingOk(lookup, lru, releasedAt, clock) && n.refcount > 0
    ensures RingOk(lookup[k := n], Without(lru, k), releasedAt, clock)
  {
    UnlinkKeepsOrder(lru, releasedAt, k);
  }

  lemma ReleaseKeepsRing<K(!new), V>(lookup: map<K, Node<V>>, lru: seq<K>, releasedAt: map<K, nat>, clock: nat, k: K, n: Node<V>)
    requires RingOk(lookup, lru, releasedAt, clock) && k !in lru && n.refcount == 0
    ensures RingOk(lookup[k := n], [k] + lru, releasedAt[k := clock], clock + 1)
  {
  }

  lemma EvictKeepsRing<K(!new), V>(lookup: map<K, Node<V>>, lru: seq<K>, releasedAt: map<K, nat>, clock: nat, k: K)
    requires RingOk(lookup, lru, releasedAt, clock) && k in lru
    ensures RingOk(lookup - {k}, Without(lru, k), releasedAt, clock)
  {
    UnlinkKeepsOrder(lru, releasedAt, k);
  }

  // ----- The invariant of every reachable state -----

  ghost predicate Values<K, V>(s: State<K, V>) {
    && (forall k :: k in s.lookup ==> k in s.given && s.lookup[k].val == s.given[k])
    && s.populated == |s.lookup| + |s.evicted|
  }

  ghost predicate Inv<K(!new), V>(s: State<K, V>) {
    && Counted(s)
    && RingOk(s.lookup, s.lru, s.releasedAt, s.clock)
    && Values(s)
  }

  lemma UpdateSize<K, V>(m: map<K, V>, k: K, v: V)
    ensures |m[k := v]| == |m| + if k in m then 0 else 1
    ensures k in m ==> |m - {k}| == |m| - 1
  {
    assert m[k := v].Keys == m.Keys + {k};
    assert |m[k := v]| == |m[k := v].Keys| && |m| == |m.Keys|;
    assert (m - {k}).Keys == m.Keys - {k} && |m - {k}| == |(m - {k}).Keys|;
  }

  lemma GetCounted<K, V>(s: State<K, V>, key: K, insertIfMissing: bool, fetched: V)
    requires Counted(s)
    ensures Counted(Get(s, key, insertIfMissing, fetched))
  {
  }

  lemma GetRing<K(!new), V>(s: State<K, V>, key: K, insertIfMissing: bool, fetched: V)
    requires RingOk(s.lookup, s.lru, s.releasedAt, s.clock)
    ensures var t := Get(s, key, insertIfMissing, fetched); RingOk(t.lookup, t.lru, t.releasedAt, t.clock)
  {
    if key in s.lookup || insertIfMissing {
      var t := Get(s, key, insertIfMissing, fetched);
      var n := t.lookup[key];
      HoldKeepsRing(s.lookup, s.lru, s.releasedAt, s.clock, key, n);
      assert t.lookup == s.lookup[key := n];
      assert t.lru == Without(s.lru, key);
    }
  }

  lemma GetValues<K, V>(s: State<K, V>, key: K, insertIfMissing: bool, fetched: V)
    requires Values(s)
    ensures Values(Get(s, key, insertIfMissing, fetched))
  {
    var t := Get(s, key, insertIfMissing, fetched);
    if key in t.lookup {
      UpdateSize(s.lookup, key, t.lookup[key]);
      assert t.lookup == s.lookup[key := t.lookup[key]];
    }
  }

  /** A lease is returned exactly for entries that are resident afterwards, a hit changes no value
      and calls no populate, and a miss stores what populate gave. */
  lemma GetInv<K(!new), V>(s: State<K, V>, key: K, insertIfMissing: bool, fetched: V)
    requires Inv(s)
    ensures var t := Get(s, key, insertIfMissing, fetched);
            && Inv(t)
            && (key in t.lookup <==> key in s.lookup || insertIfMissing)
            && t.leases == (if key in t.lookup then s.leases + multiset{key} else s.leases)
            && (key in s.lookup ==> t.given == s.given && t.populated == s.populated && t.lookup[key].val == s.given[key])
            && (key !in s.lookup && insertIfMissing ==> t.lookup[key].val == fetched && t.populated == s.populated + 1)
  {
    GetCounted(s, key, insertIfMissing, fetched);
    GetRing(s, key, insertIfMissing, fetched);
    GetValues(s, key, insertIfMissing, fetched);
  }

  lemma UnholdRing<K(!new), V>(s: State<K, V>, k: K)
    requires RingOk(s.lookup, s.lru, s.releasedAt, s.clock) && Held(s, k)
    ensures var t := Unhold(s, k); RingOk(t.lookup, t.lru, t.releasedAt, t.clock)
  {
    var n := s.lookup[k].(refcount := s.lookup[k].refcount - 1);
    if n.refcount > 0 {
      HoldKeepsRing(s.lookup, s.lru, s.releasedAt, s.clock, k, n);
    } else {
      ReleaseKeepsRing(s.lookup, s.lru, s.releasedAt, s.clock, k, n);
    }
  }

  lemma UnholdValues<K, V>(s: State<K, V>, k: K)
    requires Values(s) && Held(s, k)
    ensures Values(Unhold(s, k))
  {
    UpdateSize(s.lookup, k, Unhold(s, k).lookup[k]);
  }

  lemma ReleaseCounted<K, V>(s: State<K, V>, k: K)
    requires Counted(s) && k in s.leases
    ensures Held(s, k) && Counted(Release(s, k))
  {
  }

  lemma DecCounted<K, V>(s: State<K, V>, k: K)
    requires Counted(s) && k in s.manual
    ensures Held(s, k) && Counted(DecLeases(s, k))
  {
  }

  lemma ReleaseInv<K(!new), V>(s: State<K, V>, k: K)
    requires Inv(s)
    ensures k in s.leases ==> Held(s, k) && Inv(Release(s, k))
    ensures k in s.manual ==> Held(s, k) && Inv(DecLeases(s, k))
  {
    if k in s.leases { ReleaseCounted(s, k); }
    if k in s.manual { DecCounted(s, k); }
    if Held(s, k) {
      UnholdRing(s, k);
      UnholdValues(s, k);
    }
  }

  lemma IncCounted<K, V>(s: State<K, V>, k: K)
    requires Counted(s) && k in s.lookup
    ensures Counted(IncLeases(s, k))
  {
  }

  lemma IncInv<K(!new), V>(s: State<K, V>, k: K, fetched: V)
    requires Inv(s) && k in s.lookup
    ensures Inv(IncLeases(s, k))
  {
    IncCounted(s, k);
    GetRing(s, k, true, fetched);
    GetValues(s, k, true, fetched);
  }

  // ----- Eviction -----

  lemma EvictCounted<K, V>(s: State<K, V>, k: K)
    requires Counted(s) && k in s.lookup && s.lookup[k].refcount == 0
    ensures Counted(EvictNode(s, k))
  {
  }

  lemma EvictValues<K, V>(s: State<K, V>, k: K)
    requires Values(s) && k in s.lookup
    ensures Values(EvictNode(s, k))
  {
    UpdateSize(s.lookup, k, s.lookup[k]);
  }

  lemma EvictNodeInv<K(!new), V>(s: State<K, V>, k: K)
    requires Inv(s) && k in s.lru
    ensures k in s.lookup && s.lookup[k].refcount == 0 && Inv(EvictNode(s, k))
  {
    EvictCounted(s, k);
    EvictKeepsRing(s.lookup, s.lru, s.releasedAt, s.clock, k);
    EvictValues(s, k);
  }

  ghost predicate RingInTable<K, V>(s: State<K, V>) {
    Distinct(s.lru) && forall i :: 0 <= i < |s.lru| ==> s.lru[i] in s.lookup
  }

  ghost function Tail<K>(lru: seq<K>, n: nat): set<K>
    requires n <= |lru|
  {
    set i | |lru| - n <= i < |lru| :: lru[i]
  }

  ghost function Evictions<K, V>(lookup: map<K, Node<V>>, lru: seq<K>, n: nat): seq<(K, V)>
    requires n <= |lru| && forall i :: 0 <= i < |lru| ==> lru[i] in lookup
  {
    seq(n, i requires 0 <= i < n => (lru[|lru| - 1 - i], lookup[lru[|lru| - 1 - i]].val))
  }

  lemma EvictionsStep<K, V>(lookup: map<K, Node<V>>, lru: seq<K>, n: nat)
    requires n < |lru| && forall i :: 0 <= i < |lru| ==> lru[i] in lookup
    ensures var k := lru[|lru| - 1 - n]; Evictions(lookup, lru, n + 1) == Evictions(lookup, lru, n) + [(k, lookup[k].val)]
  {
  }

  /** The state once the last n entries of the ring have been evicted, last one first. */
  ghost function EvictTail<K, V>(s: State<K, V>, n: nat): State<K, V>
    requires RingInTable(s) && n <= |s.lru|
  {
    var m := |s.lru|;
    s.(lookup := s.lookup - Tail(s.lru, n),
       lru := s.lru[..m - n],
       evicted := s.evicted + Evictions(s.lookup, s.lru, n))
  }

  /** How many entries `evict(keep)` removes: min(max(size - keep, 0), evictable). */
  ghost function EvictCount<K, V>(s: State<K, V>, keep: nat): nat {
    var excess := if |s.lookup| > keep then |s.lookup| - keep else 0;
    if excess < |s.lru| then excess else |s.lru|
  }

  lemma TailStep<K>(lru: seq<K>, n: nat)
    requires Distinct(lru) && n < |lru|
    ensures Tail(lru, n + 1) == Tail(lru, n) + {lru[|lru| - 1 - n]} && lru[|lru| - 1 - n] !in Tail(lru, n)
  {
  }

  lemma EvictTailTable<K, V>(lookup: map<K, V>, lru: seq<K>, n: nat)
    requires Distinct(lru) && n < |lru| && lru[|lru| - 1 - n] in lookup
    ensures var k := lru[|lru| - 1 - n];
            && k !in Tail(lru, n)
            && lookup - Tail(lru, n + 1) == lookup - Tail(lru, n) - {k}
            && |lookup - Tail(lru, n + 1)| == |lookup - Tail(lru, n)| - 1
  {
    TailStep(lru, n);
    var k := lru[|lru| - 1 - n];
    var t := lookup - Tail(lru, n);
    UpdateSize(t, k, lookup[k]);
    assert lookup - Tail(lru, n + 1) == t - {k};
  }

  lemma TailRing<K>(lru: seq<K>, n: nat)
    requires Distinct(lru) && n < |lru|
    ensures var m := |lru|; Without(lru[..m - n], lru[m - 1 - n]) == lru[..m - n - 1]
  {
    var m := |lru|;
    var t := lru[..m - n];
    assert Distinct(t);
    WithoutAt(t, m - 1 - n);
    assert t[..m - 1 - n] == lru[..m - n - 1];
  }

  /** Evicting the node at the back of the ring is one more step of `EvictTail`. */
  lemma EvictTailStep<K, V>(s: State<K, V>, n: nat)
    requires RingInTable(s) && n < |s.lru|
    ensures var t, k := EvictTail(s, n), s.lru[|s.lru| - 1 - n];
            && t.lru == s.lru[..|s.lru| - n] && k in t.lookup
            && EvictNode(t, k) == EvictTail(s, n + 1)
  {
    EvictFields(s.lookup, s.lru, n);
    Assoc(s.evicted, Evictions(s.lookup, s.lru, n), [(s.lru[|s.lru| - 1 - n], s.lookup[s.lru[|s.lru| - 1 - n]].val)]);
  }

  lemma EvictFields<K, V>(lookup: map<K, Node<V>>, lru: seq<K>, n: nat)
    requires Distinct(lru) && n < |lru| && forall i :: 0 <= i < |lru| ==> lru[i] in lookup
    ensures var left, k := lookup - Tail(lru, n), lru[|lru| - 1 - n];
            && k in left && left - {k} == lookup - Tail(lru, n + 1)
            && Without(lru[..|lru| - n], k) == lru[..|lru| - n - 1]
            && Evictions(lookup, lru, n + 1) == Evictions(lookup, lru, n) + [(k, left[k].val)]
  {
    EvictTailTable(lookup, lru, n);
    TailRing(lru, n);
    EvictionsStep(lookup, lru, n);
  }

  lemma {:induction false} EvictTailSize<K, V>(lookup: map<K, V>, lru: seq<K>, n: nat)
    requires Distinct(lru) && n <= |lru| && forall i :: 0 <= i < |lru| ==> lru[i] in lookup
    ensures |lookup - Tail(lru, n)| == |lookup| - n
  {
    if n == 0 {
      assert lookup - Tail(lru, 0) == lookup;
    } else {
      var p := n - 1;
      EvictTailSize(lookup, lru, p);
      assert lru[|lru| - 1 - p] in lookup;
      EvictTailTable(lookup, lru, p);
    }
  }

  /** Eviction stops at the size to keep, or when nothing is left to evict, and no earlier or later. */
  lemma EvictReaches<K, V>(s: State<K, V>, keep: nat)
    requires RingInTable(s)
    ensures var t := EvictTail(s, EvictCount(s, keep));
            && (|t.lookup| <= keep || t.lru == [])
            && (|t.lookup| < keep ==> t.lookup == s.lookup)
  {
    EvictTailSize(s.lookup, s.lru, EvictCount(s, keep));
    if EvictCount(s, keep) == 0 { NothingEvicted(s); }
  }

  lemma RingIsInTable<K(!new), V>(s: State<K, V>)
    requires RingOk(s.lookup, s.lru, s.releasedAt, s.clock)
    ensures RingInTable(s) && forall i :: 0 <= i < |s.lru| ==> s.lookup[s.lru[i]].refcount == 0
  {
    assert forall i :: 0 <= i < |s.lru| ==> s.lru[i] in s.lru;
  }

  lemma {:induction false} EvictTailInv<K(!new), V>(s: State<K, V>, n: nat)
    requires Inv(s) && RingInTable(s) && n <= |s.lru|
    ensures Inv(EvictTail(s, n))
  {
    if n == 0 {
      NothingEvicted(s);
    } else {
      EvictTailInv(s, n - 1);
      EvictOneMore(s, n - 1);
    }
  }

  lemma NothingEvicted<K, V>(s: State<K, V>)
    requires RingInTable(s)
    ensures EvictTail(s, 0) == s
  {
    assert s.lookup - Tail(s.lru, 0) == s.lookup;
  }

  lemma EvictOneMore<K(!new), V>(s: State<K, V>, n: nat)
    requires RingInTable(s) && n < |s.lru| && Inv(EvictTail(s, n))
    ensures Inv(EvictTail(s, n + 1))
  {
    EvictTailStep(s, n);
    BackOfRing(s, n);
    EvictNodeInv(EvictTail(s, n), s.lru[|s.lru| - 1 - n]);
  }

  lemma BackOfRing<K, V>(s: State<K, V>, n: nat)
    requires RingInTable(s) && n < |s.lru|
    ensures s.lru[|s.lru| - 1 - n] in EvictTail(s, n).lru
  {
    assert EvictTail(s, n).lru[|s.lru| - 1 - n] == s.lru[|s.lru| - 1 - n];
  }

  /** What is evicted was released before every evictable entry that stays. */
  lemma EvictsOldestReleases<K(!new), V>(s: State<K, V>, n: nat, i: nat, j: nat)
    requires RingOk(s.lookup, s.lru, s.releasedAt, s.clock) && RingInTable(s) && i < n <= |s.lru| && j < |s.lru| - n
    ensures var gone, kept := EvictTail(s, n).evicted[|s.evicted| + i].0, EvictTail(s, n).lru[j];
            gone in s.lru && kept in s.lru && s.releasedAt[gone] < s.releasedAt[kept]
  {
    var m := |s.lru|;
    assert s.lru[m - 1 - i] in s.lru && s.lru[j] in s.lru;
    assert s.releasedAt[s.lru[j]] > s.releasedAt[s.lru[m - 1 - i]];
  }

  /** Of two evicted entries, the one that was released first goes first. */
  lemma EvictsInOrderOfRelease<K(!new), V>(s: State<K, V>, n: nat, i: nat, j: nat)
    requires RingOk(s.lookup, s.lru, s.releasedAt, s.clock) && RingInTable(s) && i < j < n <= |s.lru|
    ensures var first, second := EvictTail(s, n).evicted[|s.evicted| + i].0, EvictTail(s, n).evicted[|s.evicted| + j].0;
            first in s.lru && second in s.lru && s.releasedAt[first] < s.releasedAt[second]
  {
    var m := |s.lru|;
    assert s.lru[m - 1 - i] in s.lru && s.lru[m - 1 - j] in s.lru;
    assert s.releasedAt[s.lru[m - 1 - j]] > s.releasedAt[s.lru[m - 1 - i]];
  }

  /** No entry with a live lease or hold is evicted. */
  lemma EvictSparesHeld<K(!new), V>(s: State<K, V>, n: nat, k: K)
    requires Inv(s) && Held(s, k) && n <= |s.lru| && RingInTable(s)
    ensures k in EvictTail(s, n).lookup && EvictTail(s, n).lookup[k] == s.lookup[k]
  {
    assert k !in s.lru;
  }

  // ----- What the steps do -----

  /** Every entry but that of k is as it was, and so is the order of the others on the ring. */
  ghost predicate OthersSame<K(!new), V>(s: State<K, V>, k: K, t: State<K, V>) {
    && (forall x :: x != k ==> (x in s.lookup <==> x in t.lookup))
    && (forall x :: x != k && x in s.lookup && x in t.lookup ==> t.lookup[x] == s.lookup[x])
    && Without(t.lru, k) == Without(s.lru, k)
  }

  lemma NotOnRing<K(!new)>(lru: seq<K>, k: K)
    requires Distinct(lru)
    ensures k !in Without(lru, k) && Without(Without(lru, k), k) == Without(lru, k)
  {
    if k in lru {
      var i :| 0 <= i < |lru| && lru[i] == k;
      WithoutAt(lru, i);
    }
  }

  /** The entry is there with one more hold and off the ring; nothing was evicted. */
  ghost predicate Taken<K(!new), V>(s: State<K, V>, k: K, t: State<K, V>) {
    && k in t.lookup && t.lookup[k].refcount == (if k in s.lookup then s.lookup[k].refcount else 0) + 1 && k !in t.lru
    && OthersSame(s, k, t) && t.evicted == s.evicted
  }

  /** A lookup that returns a lease takes the entry; one that does not changes nothing. */
  lemma GetTakes<K(!new), V>(s: State<K, V>, key: K, insertIfMissing: bool, fetched: V)
    requires Inv(s)
    ensures var t := Get(s, key, insertIfMissing, fetched);
            if key in s.lookup || insertIfMissing then Taken(s, key, t) && t.manual == s.manual else t == s
  {
    NotOnRing(s.lru, key);
  }

  lemma IncTakes<K(!new), V>(s: State<K, V>, k: K)
    requires Inv(s) && k in s.lookup
    ensures var t := IncLeases(s, k);
            Taken(s, k, t) && t.lookup[k].val == s.lookup[k].val && t.manual == s.manual + multiset{k} && t.leases == s.leases
  {
    NotOnRing(s.lru, k);
  }

  /** The entry stays with one hold less, at the front of the ring if that was the last; nothing was evicted. */
  ghost predicate GivenBack<K(!new), V>(s: State<K, V>, k: K, t: State<K, V>) {
    && k in s.lookup && k in t.lookup && t.lookup[k].val == s.lookup[k].val && t.lookup[k].refcount == s.lookup[k].refcount - 1
    && (if t.lookup[k].refcount == 0 then t.lru != [] && t.lru[0] == k && t.lru[1..] == s.lru else t.lru == s.lru)
    && OthersSame(s, k, t) && t.evicted == s.evicted
  }

  lemma UnholdGivesBack<K(!new), V>(s: State<K, V>, k: K)
    requires Inv(s) && Held(s, k)
    ensures GivenBack(s, k, Unhold(s, k)) && Unhold(s, k).leases == s.leases && Unhold(s, k).manual == s.manual
  {
    assert k !in s.lru;
    PutFirst(s.lru, k);
  }

  lemma PutFirst<K>(lru: seq<K>, k: K)
    requires k !in lru
    ensures ([k] + lru)[1..] == lru && Without([k] + lru, k) == lru == Without(lru, k)
  {
  }

  lemma ReleaseGivesBack<K(!new), V>(s: State<K, V>, k: K)
    requires Inv(s) && Held(s, k)
    ensures GivenBack(s, k, Release(s, k)) && Release(s, k).leases == s.leases - multiset{k} && Release(s, k).manual == s.manual
    ensures GivenBack(s, k, DecLeases(s, k)) && DecLeases(s, k).manual == s.manual - multiset{k} && DecLeases(s, k).leases == s.leases
  {
    UnholdGivesBack(s, k);
  }

  /** The entry is there no more, and exactly it was given to `on_evict`, with its value. */
  ghost predicate Evicted<K(!new), V>(s: State<K, V>, k: K, t: State<K, V>) {
    && k in s.lookup && k !in t.lookup && k !in t.lru && t.evicted == s.evicted + [(k, s.lookup[k].val)]
    && OthersSame(s, k, t)
  }

  /** `evict_one` of a lease: if it is the only hold then the entry goes, with the lease, and else nothing changes. */
  lemma EvictLeaseEvicts<K(!new), V>(s: State<K, V>, k: K)
    requires Inv(s) && k in s.leases && Held(s, k)
    ensures var t := EvictLease(s, k);
            if s.lookup[k].refcount == 1 then
              Evicted(s, k, t) && s.lookup[k].val == s.given[k] && k !in t.leases && k !in t.manual && t.leases == s.leases - multiset{k}
            else t == s
  {
    if s.lookup[k].refcount == 1 {
      assert k !in s.lru && Without([k] + s.lru, k) == s.lru;
    }
  }

  /** Of what `evict` finds, exactly the evicted entries go, each with its value, and the others stay as they are,
      those on the ring in their order. */
  lemma EvictTailEvicts<K(!new), V>(s: State<K, V>, n: nat)
    requires Inv(s) && RingInTable(s) && n <= |s.lru|
    ensures var t := EvictTail(s, n);
            && |t.evicted| == |s.evicted| + n && s.evicted <= t.evicted && t.lru <= s.lru && t.leases == s.leases && t.manual == s.manual
            && (forall i :: |s.evicted| <= i < |t.evicted| ==>
                  t.evicted[i].0 in s.lookup && t.evicted[i].0 !in t.lookup && t.evicted[i].1 == s.given[t.evicted[i].0])
            && (forall k :: k in s.lookup && k !in t.lookup ==> exists i :: |s.evicted| <= i < |t.evicted| && t.evicted[i].0 == k)
            && (forall k :: k in t.lookup ==> k in s.lookup && t.lookup[k] == s.lookup[k])
  {
    var t, m := EvictTail(s, n), |s.lru|;
    forall i | |s.evicted| <= i < |t.evicted| ensures t.evicted[i].0 == s.lru[m - 1 - (i - |s.evicted|)] { }
    forall k | k in s.lookup && k !in t.lookup ensures exists i :: |s.evicted| <= i < |t.evicted| && t.evicted[i].0 == k {
      var j :| m - n <= j < m && s.lru[j] == k;
      assert t.evicted[|s.evicted| + (m - 1 - j)].0 == k;
    }
  }

  // ----- Runs -----

  datatype Op<K, V> =
    | OpGet(key: K, insertIfMissing: bool, fetched: V)
    | OpRelease(key: K)
    | OpInc(key: K)
    | OpDec(key: K)
    | OpEvictLease(key: K)
    | OpEvict(keep: nat)

  /** `evict_one(Lease &&)`: succeeds iff the lease is the only hold; the lease is consumed. */
  ghost function EvictLease<K, V>(s: State<K, V>, k: K): State<K, V>
    requires Held(s, k)
  {
    if s.lookup[k].refcount != 1 then s else EvictNode(Release(s, k), k)
  }

  /** One client operation.  Operations on a lease need that lease, and `dec_leases` by hand needs
      an `inc_leases` by hand; anything else is not a client operation and changes nothing. */
  ghost function Step<K(!new), V>(s: State<K, V>, op: Op<K, V>): State<K, V> {
    match op
    case OpGet(k, insert, v) => Get(s, k, insert, v)
    case OpRelease(k) => if k in s.leases && Held(s, k) then Release(s, k) else s
    case OpInc(k) => if k in s.leases && Held(s, k) then IncLeases(s, k) else s
    case OpDec(k) => if k in s.manual && Held(s, k) then DecLeases(s, k) else s
    case OpEvictLease(k) => if k in s.leases && Held(s, k) then EvictLease(s, k) else s
    case OpEvict(keep) => if RingInTable(s) then EvictTail(s, EvictCount(s, keep)) else s
  }

  ghost function Run<K(!new), V>(s: State<K, V>, ops: seq<Op<K, V>>): State<K, V> {
    if ops == [] then s else Step(Run(s, ops[..|ops| - 1]), ops[|ops| - 1])
  }

  ghost function Empty<K, V>(): State<K, V> {
    State(map[], [], multiset{}, multiset{}, map[], 0, [], map[], 0)
  }

  lemma EvictLeaseInv<K(!new), V>(s: State<K, V>, k: K)
    requires Inv(s) && k in s.leases && Held(s, k)
    ensures Inv(EvictLease(s, k))
  {
    if s.lookup[k].refcount == 1 {
      ReleaseInv(s, k);
      assert Release(s, k).lru[0] == k;
      EvictNodeInv(Release(s, k), k);
    }
  }

  lemma StepGetInv<K(!new), V>(s: State<K, V>, op: Op<K, V>)
    requires Inv(s) && op.OpGet?
    ensures Inv(Step(s, op))
  {
    GetInv(s, op.key, op.insertIfMissing, op.fetched);
  }

  lemma StepReleaseInv<K(!new), V>(s: State<K, V>, op: Op<K, V>)
    requires Inv(s) && op.OpRelease?
    ensures Inv(Step(s, op))
  {
    if op.key in s.leases && Held(s, op.key) { ReleaseInv(s, op.key); }
  }

  lemma StepIncInv<K(!new), V>(s: State<K, V>, op: Op<K, V>)
    requires Inv(s) && op.OpInc?
    ensures Inv(Step(s, op))
  {
    if op.key in s.leases && Held(s, op.key) { IncInv(s, op.key, s.lookup[op.key].val); }
  }

  lemma StepDecInv<K(!new), V>(s: State<K, V>, op: Op<K, V>)
    requires Inv(s) && op.OpDec?
    ensures Inv(Step(s, op))
  {
    if op.key in s.manual && Held(s, op.key) { ReleaseInv(s, op.key); }
  }

  lemma StepEvictLeaseInv<K(!new), V>(s: State<K, V>, op: Op<K, V>)
    requires Inv(s) && op.OpEvictLease?
    ensures Inv(Step(s, op))
  {
    if op.key in s.leases && Held(s, op.key) { EvictLeaseInv(s, op.key); }
  }

  lemma StepEvictInv<K(!new), V>(s: State<K, V>, op: Op<K, V>)
    requires Inv(s) && op.OpEvict?
    ensures Inv(Step(s, op))
  {
    RingIsInTable(s);
    EvictTailInv(s, EvictCount(s, op.keep));
  }

  lemma StepInv<K(!new), V>(s: State<K, V>, op: Op<K, V>)
    requires Inv(s)
    ensures Inv(Step(s, op))
  {
    match op
    case OpGet(_, _, _) => StepGetInv(s, op);
    case OpRelease(_) => StepReleaseInv(s, op);
    case OpInc(_) => StepIncInv(s, op);
    case OpDec(_) => StepDecInv(s, op);
    case OpEvictLease(_) => StepEvictLeaseInv(s, op);
    case OpEvict(_) => StepEvictInv(s, op);
  }

  /** In every reachable state refcounts are live leases, the ring holds exactly the entries
      without holds in order of release, values are what populate gave, and populate calls minus
      evictions is the size. */
  lemma {:induction false} RunInv<K(!new), V>(ops: seq<Op<K, V>>)
    ensures Inv(Run(Empty(), ops))
  {
    if ops == [] {
    } else {
      RunInv(ops[..|ops| - 1]);
      StepInv(Run(Empty(), ops[..|ops| - 1]), ops[|ops| - 1]);
    }
  }

  /** The table and the ring after `n` turns of the loop in `evict`. */
  ghost predicate Evicting<K, V>(table: map<K, Node<V>>, ring: seq<K>, lookup: map<K, Node<V>>, lru: seq<K>, n: nat) {
    n <= |ring| && lookup == table - Tail(ring, n) && lru == ring[..|ring| - n] && |lookup| == |table| - n
  }

  /** One turn. */
  lemma EvictTurn<K, V>(table: map<K, Node<V>>, ring: seq<K>, lookup: map<K, Node<V>>, lru: seq<K>, n: nat)
    requires Distinct(ring) && forall i :: 0 <= i < |ring| ==> ring[i] in table && table[ring[i]].refcount == 0
    requires Evicting(table, ring, lookup, lru, n) && lru != []
    ensures var k := lru[|lru| - 1];
            k in lookup && lookup[k].refcount == 0 && Evicting(table, ring, lookup - {k}, Without(lru, k), n + 1)
  {
    assert lru[|lru| - 1] == ring[|ring| - 1 - n];
    EvictTailTable(table, ring, n);
    TailRing(ring, n);
  }

  // ----- The cache -----

  class LRUCache<K(==,!new), V> {
    var lookup: map<K, Node<V>>
    var lru: seq<K>
    ghost var s: State<K, V>

    /** The recorded state is this cache's.  That it satisfies `Inv` is `RunInv`. */
    ghost predicate Recorded()
      reads this
    {
      s.lookup == lookup && s.lru == lru
    }

    constructor ()
      ensures Recorded() && s == Empty()
    {
      lookup, lru, s := map[], [], Empty();
    }

    /** `Lease::inc_leases`. */
    method Inc(k: K)
      requires k in lookup
      modifies this`lookup, this`lru
      ensures lookup == old(lookup)[k := old(lookup)[k].(refcount := old(lookup)[k].refcount + 1)]
      ensures lru == if old(lookup)[k].refcount == 0 then Without(old(lru), k) else old(lru)
    {
      lookup := lookup[k := lookup[k].(refcount := lookup[k].refcount + 1)];
      if lookup[k].refcount == 1 {
        lru := Without(lru, k);
      }
    }

    /** `Lease::dec_leases`. */
    method Dec(k: K)
      requires k in lookup && lookup[k].refcount > 0
      modifies this`lookup, this`lru
      ensures lookup == old(lookup)[k := old(lookup)[k].(refcount := old(lookup)[k].refcount - 1)]
      ensures lru == if old(lookup)[k].refcount == 1 then [k] + old(lru) else old(lru)
    {
      lookup := lookup[k := lookup[k].(refcount := lookup[k].refcount - 1)];
      if lookup[k].refcount == 0 {
        lru := [k] + lru;
      }
    }

    /** `get`: the lease is the key if the entry is resident afterwards, and empty otherwise. */
    method GetLease(key: K, insertIfMissing: bool, fetched: V) returns (lease: Option<K>)
      requires Recorded()
      modifies this
      ensures Recorded() && s == Get(old(s), key, insertIfMissing, fetched)
      ensures lease == if key in lookup then Some(key) else None
    {
      s := Get(s, key, insertIfMissing, fetched);
      if key !in lookup {
        if !insertIfMissing {
          return None;
        }
        lookup := lookup[key := Node(fetched, 0)];
      }
      Inc(key);
      lease := Some(key);
    }

    /** The destructor of a lease. */
    method ReleaseLease(k: K)
      requires Recorded() && Held(s, k)
      modifies this
      ensures Recorded() && s == Release(old(s), k)
    {
      Dec(k);
      s := Release(s, k);
    }

    /** `evict_one(Node &)`. */
    method EvictOneNode(k: K)
      requires k in lookup && lookup[k].refcount == 0
      modifies this`lookup, this`lru
      ensures lookup == old(lookup) - {k} && lru == Without(old(lru), k)
    {
      lru := Without(lru, k);
      lookup := lookup - {k};
    }

    /** `evict_one(Lease &&)`. */
    method EvictOneLease(k: K) returns (done: bool)
      requires Recorded() && Held(s, k)
      modifies this
      ensures Recorded() && s == EvictLease(old(s), k)
      ensures done <==> old(s).lookup[k].refcount == 1
      ensures done && Inv(old(s)) && k in old(s).leases ==> Evicted(old(s), k, s)
      ensures !done ==> s == old(s)
    {
      if Inv(s) && k in s.leases { EvictLeaseEvicts(s, k); }
      done := lookup[k].refcount == 1;
      s := EvictLease(s, k);
      if done {
        Dec(k);
        EvictOneNode(k);
      }
    }

    /** `evict`: the loop takes the back of the ring until the size or the ring runs out. */
    method EvictAll(keep: nat) returns (evicted: nat)
      requires Recorded() && RingInTable(s) && forall i :: 0 <= i < |lru| ==> lookup[lru[i]].refcount == 0
      modifies this
      ensures Recorded() && evicted == EvictCount(old(s), keep) && s == EvictTail(old(s), evicted)
    {
      ghost var o := s;
      NothingEvicted(o);
      evicted := 0;
      while |lookup| > keep && lru != []
        invariant Evicting(o.lookup, o.lru, lookup, lru, evicted) && evicted <= EvictCount(o, keep)
        decreases |lru|
      {
        EvictTurn(o.lookup, o.lru, lookup, lru, evicted);
        EvictOneNode(lru[|lru| - 1]);
        evicted := evicted + 1;
      }
      s := EvictTail(o, evicted);
    }
  }
}
