/** The node-based hash table (src/kernel/nonstd/node_hash_map.h).  All nodes of the table are
    threaded through one list; a bucket points to the first node of its run in that list.  The
    list is modelled by its sequence of nodes. */
module HashMap {
  import opened Division
  import opened Options
  import opened Sequences

  class Node<K, V> {
    const hash: nat
    const key: K
    var val: V

    constructor (hash: nat, key: K, val: V)
      ensures this.hash == hash && this.key == key && this.val == val
    {
      this.hash, this.key, this.val := hash, key, val;
    }
  }

  // ----- Runs.  In this section c[i] is the bucket of the i-th node d[i]. -----

  ghost predicate IsHead(c: seq<nat>, i: nat)
    requires i < |c|
  {
    i == 0 || c[i - 1] != c[i]
  }

  /** Every bucket with nodes points to a node that begins a run of it, and the others point
      nowhere.  As the nodes are distinct, no bucket can then have two runs. */
  ghost predicate Threaded<T>(c: seq<nat>, d: seq<T>, bs: seq<Option<T>>) {
    && |c| == |d| && Distinct(d)
    && (forall i :: 0 <= i < |c| ==> c[i] < |bs|)
    && (forall i {:trigger IsHead(c, i)} :: 0 <= i < |c| && IsHead(c, i) ==> bs[c[i]] == Some(d[i]))
    && (forall b :: 0 <= b < |bs| && bs[b].Some? ==> b in c)
  }

  /** The run around the i-th node. */
  lemma {:induction false} RunStart<T>(c: seq<nat>, d: seq<T>, bs: seq<Option<T>>, i: nat) returns (h: nat)
    requires Threaded(c, d, bs) && i < |c|
    ensures h <= i && IsHead(c, h) && bs[c[i]] == Some(d[h])
    ensures forall x :: h <= x <= i ==> c[x] == c[i]
    decreases i
  {
    if IsHead(c, i) {
      h := i;
    } else {
      h := RunStart(c, d, bs, i - 1);
    }
  }

  lemma PointedIffHead<T>(c: seq<nat>, d: seq<T>, bs: seq<Option<T>>, i: nat)
    requires Threaded(c, d, bs) && i < |c|
    ensures bs[c[i]] == Some(d[i]) <==> IsHead(c, i)
  {
    var h := RunStart(c, d, bs, i);
  }

  /** Equal buckets are next to each other. */
  lemma Contiguous<T>(c: seq<nat>, d: seq<T>, bs: seq<Option<T>>, i: nat, j: nat, k: nat)
    requires Threaded(c, d, bs) && i <= j <= k < |c| && c[i] == c[k]
    ensures c[j] == c[k]
  {
    var h := RunStart(c, d, bs, i);
    var h' := RunStart(c, d, bs, k);
    assert d[h] == d[h'];
  }

  lemma HeadsDiffer<T>(c: seq<nat>, d: seq<T>, bs: seq<Option<T>>, i: nat, j: nat)
    requires Threaded(c, d, bs) && i < |c| && j < |c| && i != j && IsHead(c, i) && IsHead(c, j)
    ensures c[i] != c[j]
  {
    assert bs[c[i]] == Some(d[i]) && bs[c[j]] == Some(d[j]);
  }

  /** Where a bucket that is not empty begins. */
  lemma BucketStart<T>(c: seq<nat>, d: seq<T>, bs: seq<Option<T>>, b: nat) returns (h: nat)
    requires Threaded(c, d, bs) && b in c
    ensures h < |c| && c[h] == b && IsHead(c, h) && bs[b] == Some(d[h])
    ensures forall x :: 0 <= x < h ==> c[x] != b
  {
    var i :| 0 <= i < |c| && c[i] == b;
    h := RunStart(c, d, bs, i);
    forall x | 0 <= x < h && c[x] == b ensures false {
      var _ := RunStart(c, d, bs, x);
    }
  }

  ghost function RemoveAt<T>(s: seq<T>, h: nat): (r: seq<T>)
    requires h < |s|
    ensures |r| == |s| - 1
    ensures forall i :: 0 <= i < h ==> r[i] == s[i]
    ensures forall i :: h <= i < |r| ==> r[i] == s[i + 1]
    ensures forall y :: y in s && y != s[h] ==> y in r
  {
    var r := s[..h] + s[h + 1..];
    assert forall i :: 0 <= i < |s| && i != h ==> s[i] == r[if i < h then i else i - 1];
    r
  }

  lemma InsertDistinct<T>(d: seq<T>, h: nat, n: T)
    requires Distinct(d) && h <= |d| && n !in d
    ensures Distinct(InsertAt(d, h, n))
  {
  }

  lemma RemoveDistinct<T>(d: seq<T>, h: nat)
    requires Distinct(d) && h < |d|
    ensures Distinct(RemoveAt(d, h))
  {
  }

  /** Linking a node in before its bucket's run, or at the front of the list if the bucket is
      empty, and pointing the bucket to it. */
  lemma LinkedIn<T>(c: seq<nat>, d: seq<T>, bs: seq<Option<T>>, b: nat, n: T, h: nat)
    requires Threaded(c, d, bs) && b < |bs| && n !in d
    requires if b !in c then h == 0 else h < |c| && c[h] == b && IsHead(c, h)
    ensures Threaded(InsertAt(c, h, b), InsertAt(d, h, n), bs[b := Some(n)])
  {
    InsertDistinct(d, h, n);
    var c', d' := InsertAt(c, h, b), InsertAt(d, h, n);
    forall i | 0 <= i < |c'| && i != h && IsHead(c', i) ensures c'[i] != b && bs[c'[i]] == Some(d'[i]) {
      var x := if i < h then i else i - 1;
      assert IsHead(c, x);
      if b in c && x != h { HeadsDiffer(c, d, bs, x, h); }
    }
  }

  /** What the bucket of the i-th node points to once that node is gone. */
  ghost function Follower<T>(c: seq<nat>, d: seq<T>, i: nat): Option<T>
    requires i < |c| == |d|
  {
    if i + 1 < |c| && c[i + 1] == c[i] then Some(d[i + 1]) else None
  }

  /** Unlinking the i-th node, and moving its bucket's pointer on if it was the first. */
  lemma Unlinked<T>(c: seq<nat>, d: seq<T>, bs: seq<Option<T>>, i: nat)
    requires Threaded(c, d, bs) && i < |c|
    ensures Threaded(RemoveAt(c, i), RemoveAt(d, i), if IsHead(c, i) then bs[c[i] := Follower(c, d, i)] else bs)
  {
    RemoveDistinct(d, i);
    var bs' := if IsHead(c, i) then bs[c[i] := Follower(c, d, i)] else bs;
    var c', d' := RemoveAt(c, i), RemoveAt(d, i);
    forall k | 0 <= k < |c'| && IsHead(c', k) ensures bs'[c'[k]] == Some(d'[k]) {
      UnlinkedHead(c, d, bs, i, k);
    }
    assert !IsHead(c, i) ==> c'[i - 1] == c[i];
    assert i + 1 < |c| ==> c'[i] == c[i + 1];
  }

  lemma UnlinkedHead<T>(c: seq<nat>, d: seq<T>, bs: seq<Option<T>>, i: nat, k: nat)
    requires Threaded(c, d, bs) && i < |c| && k < |c| - 1 && IsHead(RemoveAt(c, i), k)
    ensures var bs' := if IsHead(c, i) then bs[c[i] := Follower(c, d, i)] else bs;
            bs'[RemoveAt(c, i)[k]] == Some(RemoveAt(d, i)[k])
  {
    var c' := RemoveAt(c, i);
    var x := if k < i then k else k + 1;
    assert c'[k] == c[x] && RemoveAt(d, i)[k] == d[x];
    if k == i && c[x] == c[i] {
      assert IsHead(c, i);
    } else {
      assert k != i && k > 0 ==> c'[k - 1] == c[x - 1];
      assert IsHead(c, x);
      if IsHead(c, i) { HeadsDiffer(c, d, bs, i, x); }
    }
  }

  // ----- Bucket counts -----

  const BUCKET_COUNTS: seq<nat> :=
    [17, 37, 79, 163, 331, 673, 1361, 2729, 5471, 10949, 21911, 43853, 87719, 175447, 350899, 701819, 1403641,
     2807303, 5614657, 11229331, 22458671, 44917381, 89834777, 179669557, 359339171, 718678369, 1437356741, 2874713497]

  const MAX_BUCKETS: nat := 2874713497

  /** `next_bucket_count`: the first entry of the table that is large enough. */
  method NextBucketCount(min: nat) returns (r: nat)
    requires min <= MAX_BUCKETS
    ensures r >= min && r > 0
    ensures exists i :: 0 <= i < |BUCKET_COUNTS| && r == BUCKET_COUNTS[i] && forall j :: 0 <= j < i ==> BUCKET_COUNTS[j] < min
  {
    var i := 0;
    while BUCKET_COUNTS[i] < min
      invariant 0 <= i < |BUCKET_COUNTS|
      invariant forall j :: 0 <= j < i ==> BUCKET_COUNTS[j] < min
      decreases |BUCKET_COUNTS| - i
    {
      assert BUCKET_COUNTS[27] == MAX_BUCKETS;
      i := i + 1;
    }
    assert BUCKET_COUNTS[0] == 17;
    return BUCKET_COUNTS[i];
  }

  // ----- The table -----

  function BucketOf(hash: nat, count: nat): (b: nat)
    requires count > 0
    ensures b < count
  {
    hash % count
  }

  lemma SameRemainder(h: nat, k: nat, count: nat)
    requires count > 0 && h <= k && h % count == k % count
    ensures exists q: nat :: k - h == q * count
  {
    DivModBack(h, count);
    DivModBack(k, count);
    var q := k / count - h / count;
    assert k - h == q * count;
    if q <= -1 { MulAtLeast(-q, count); }
  }

  /** Two hashes share a bucket iff they differ by a multiple of the number of buckets. */
  lemma SameBucketIff(h: nat, k: nat, count: nat)
    requires count > 0 && h <= k
    ensures BucketOf(h, count) == BucketOf(k, count) <==> exists q: nat :: k - h == q * count
  {
    if h % count == k % count {
      SameRemainder(h, k, count);
    }
    if q: nat :| k - h == q * count {
      DivModBack(h, count);
      DivMod(k, count, h / count + q, h % count);
    }
  }

  ghost function BucketsOf<K, V>(d: seq<Node<K, V>>, count: nat): (c: seq<nat>)
    requires count > 0
    ensures |c| == |d| && forall i :: 0 <= i < |d| ==> c[i] == BucketOf(d[i].hash, count)
  {
    seq(|d|, i requires 0 <= i < |d| => BucketOf(d[i].hash, count))
  }

  ghost predicate UniqueKeys<K, V>(d: seq<Node<K, V>>) {
    forall i, j :: 0 <= i < |d| && 0 <= j < |d| && d[i].key == d[j].key ==> d[i] == d[j]
  }

  /** List and buckets agree, and no key occurs twice. */
  ghost predicate Consistent<K, V>(hash: K -> nat, d: seq<Node<K, V>>, bs: seq<Option<Node<K, V>>>) {
    && |bs| > 0
    && (forall i :: 0 <= i < |d| ==> d[i].hash == hash(d[i].key))
    && UniqueKeys(d)
    && Threaded(BucketsOf(d, |bs|), d, bs)
  }

  lemma HeadIndex<K, V>(hash: K -> nat, d: seq<Node<K, V>>, bs: seq<Option<Node<K, V>>>, b: nat) returns (h: nat)
    requires Consistent(hash, d, bs) && b < |bs| && bs[b].Some?
    ensures h < |d| && d[h] == bs[b].value && BucketOf(d[h].hash, |bs|) == b
    ensures IsHead(BucketsOf(d, |bs|), h)
    ensures forall i :: 0 <= i < |d| && d[i] == d[h] ==> i == h
    ensures forall x :: 0 <= x < h ==> BucketOf(d[x].hash, |bs|) != b
  {
    h := BucketStart(BucketsOf(d, |bs|), d, bs, b);
  }

  /** A run that has been walked to its end without meeting the key proves it absent. */
  lemma RunExhausted<K, V>(hash: K -> nat, d: seq<Node<K, V>>, bs: seq<Option<Node<K, V>>>, key: K, h: nat, end: nat)
    requires Consistent(hash, d, bs) && h < |d| && h <= end <= |d|
    requires var b := BucketOf(hash(key), |bs|);
             BucketOf(d[h].hash, |bs|) == b && (forall x :: 0 <= x < h ==> BucketOf(d[x].hash, |bs|) != b)
             && (end < |d| ==> BucketOf(d[end].hash, |bs|) != b)
    requires forall x :: h <= x < end ==> d[x].key != key
    ensures forall n :: n in d ==> n.key != key
  {
    var c := BucketsOf(d, |bs|);
    forall x | 0 <= x < |d| ensures d[x].key != key {
      if x >= end && d[x].key == key { Contiguous(c, d, bs, h, end, x); }
    }
  }

  lemma LinkedConsistent<K, V>(hash: K -> nat, d: seq<Node<K, V>>, bs: seq<Option<Node<K, V>>>, n: Node<K, V>, h: nat)
    requires Consistent(hash, d, bs) && n.hash == hash(n.key) && forall x :: x in d ==> x.key != n.key
    requires var b := BucketOf(n.hash, |bs|);
             if bs[b].None? then h == 0
             else h < |d| && BucketOf(d[h].hash, |bs|) == b && IsHead(BucketsOf(d, |bs|), h)
    ensures Consistent(hash, d[..h] + [n] + d[h..], bs[BucketOf(n.hash, |bs|) := Some(n)])
    ensures forall x :: x in d[..h] + [n] + d[h..] <==> x in d || x == n
  {
    var b, c, d' := BucketOf(n.hash, |bs|), BucketsOf(d, |bs|), InsertAt(d, h, n);
    if b in c { var _ := BucketStart(c, d, bs, b); }
    LinkedIn(c, d, bs, b, n, h);
    InsertedBuckets(d, h, n, |bs|);
    InsertedUnique(d, h, n);
    assert d[..h] + [n] + d[h..] == d';
  }

  lemma InsertedBuckets<K, V>(d: seq<Node<K, V>>, h: nat, n: Node<K, V>, count: nat)
    requires h <= |d| && count > 0
    ensures BucketsOf(InsertAt(d, h, n), count) == InsertAt(BucketsOf(d, count), h, BucketOf(n.hash, count))
  {
  }

  lemma InsertedUnique<K, V>(d: seq<Node<K, V>>, h: nat, n: Node<K, V>)
    requires h <= |d| && UniqueKeys(d) && forall x :: x in d ==> x.key != n.key
    ensures UniqueKeys(InsertAt(d, h, n))
    ensures forall x :: x in InsertAt(d, h, n) <==> x in d || x == n
  {
  }

  /** The buckets once the i-th node is gone: if it was the first of its bucket, the bucket moves
      on to the next node of the run, or is emptied. */
  function BucketsWithout<K, V>(d: seq<Node<K, V>>, bs: seq<Option<Node<K, V>>>, i: nat): seq<Option<Node<K, V>>>
    requires |bs| > 0 && i < |d|
  {
    var b := BucketOf(d[i].hash, |bs|);
    if bs[b] != Some(d[i]) then bs
    else bs[b := if i + 1 < |d| && BucketOf(d[i + 1].hash, |bs|) == b then Some(d[i + 1]) else None]
  }

  lemma UnlinkedConsistent<K, V>(hash: K -> nat, d: seq<Node<K, V>>, bs: seq<Option<Node<K, V>>>, i: nat)
    requires Consistent(hash, d, bs) && i < |d|
    ensures Consistent(hash, RemoveAt(d, i), BucketsWithout(d, bs, i))
  {
    UnlinkedThreaded(d, bs, i);
    RemovedBuckets(d, i, |bs|);
    RemovedUnique(d, i);
  }

  lemma UnlinkedThreaded<K, V>(d: seq<Node<K, V>>, bs: seq<Option<Node<K, V>>>, i: nat)
    requires |bs| > 0 && i < |d| && Threaded(BucketsOf(d, |bs|), d, bs)
    ensures Threaded(RemoveAt(BucketsOf(d, |bs|), i), RemoveAt(d, i), BucketsWithout(d, bs, i))
  {
    var c := BucketsOf(d, |bs|);
    PointedIffHead(c, d, bs, i);
    Unlinked(c, d, bs, i);
  }

  lemma RemovedBuckets<K, V>(d: seq<Node<K, V>>, i: nat, count: nat)
    requires i < |d| && count > 0
    ensures BucketsOf(RemoveAt(d, i), count) == RemoveAt(BucketsOf(d, count), i)
  {
  }

  lemma RemovedUnique<K, V>(d: seq<Node<K, V>>, i: nat)
    requires i < |d| && UniqueKeys(d)
    ensures UniqueKeys(RemoveAt(d, i))
  {
  }

  lemma RemovedNodes<K, V>(d: seq<Node<K, V>>, i: nat)
    requires i < |d| && Distinct(d)
    ensures forall x :: x in RemoveAt(d, i) <==> x in d && x != d[i]
  {
  }

  ghost function Entries<K, V>(d: seq<Node<K, V>>): map<K, V>
    reads d
    requires UniqueKeys(d)
  {
    map n | n in d :: n.key := n.val
  }

  lemma KeyGone<K, V>(d: seq<Node<K, V>>, d': seq<Node<K, V>>, pos: Node<K, V>)
    requires UniqueKeys(d) && UniqueKeys(d') && pos in d && forall n :: n in d' <==> n in d && n != pos
    ensures Entries(d') == Entries(d) - {pos.key}
  {
    forall k | k in Entries(d') ensures k in Entries(d) && k != pos.key {
      var n :| n in d' && n.key == k;
    }
    forall k | k in Entries(d) && k != pos.key ensures k in Entries(d') {
      var n :| n in d && n.key == k;
      assert n in d';
    }
  }

  lemma KeyAdded<K, V>(d: seq<Node<K, V>>, d': seq<Node<K, V>>, n: Node<K, V>)
    requires UniqueKeys(d) && UniqueKeys(d') && (forall x :: x in d ==> x.key != n.key)
    requires forall x :: x in d' <==> x in d || x == n
    ensures Entries(d') == Entries(d)[n.key := n.val]
  {
    assert n in d';
    forall k | k in Entries(d') ensures k in Entries(d) || k == n.key {
      var x :| x in d' && x.key == k;
    }
    forall k | k in Entries(d) ensures k in Entries(d') {
      var x :| x in d && x.key == k;
      assert x in d';
    }
  }

  ghost predicate SameNodes<K, V>(d: seq<Node<K, V>>, e: seq<Node<K, V>>) {
    (forall n :: n in d ==> n in e) && (forall n :: n in e ==> n in d)
  }

  lemma NewKey<K, V>(d: seq<Node<K, V>>, i: nat, tmp: seq<Node<K, V>>)
    requires i < |d| && Distinct(d) && UniqueKeys(d) && SameNodes(tmp, d[..i])
    ensures forall x :: x in tmp ==> x.key != d[i].key
  {
  }

  lemma OneMoreNode<K, V>(d: seq<Node<K, V>>, i: nat, tmp: seq<Node<K, V>>, tmp': seq<Node<K, V>>)
    requires i < |d| && SameNodes(tmp, d[..i]) && forall x :: x in tmp' <==> x in tmp || x == d[i]
    ensures SameNodes(tmp', d[..i + 1])
  {
    assert d[..i + 1] == d[..i] + [d[i]];
  }

  lemma MinusAbsent<K, V>(m: map<K, V>, k: K)
    requires k !in m
    ensures m - {k} == m
  {
  }

  lemma RemovedEntries<K, V>(d: seq<Node<K, V>>, i: nat)
    requires i < |d| && Distinct(d) && UniqueKeys(d)
    ensures UniqueKeys(RemoveAt(d, i)) && Entries(RemoveAt(d, i)) == Entries(d) - {d[i].key} && d[i] !in RemoveAt(d, i)
  {
    RemovedNodes(d, i);
    RemovedUnique(d, i);
    KeyGone(d, RemoveAt(d, i), d[i]);
  }

  class NodeHashMap<K(==), V> {
    const hash: K -> nat
    var buckets: seq<Option<Node<K, V>>>
    var data: seq<Node<K, V>>

    ghost predicate Valid()
      reads this
    {
      Consistent(hash, data, buckets) && |data| <= |buckets|
    }

    /** The finite map that the table stands for. */
    ghost function Model(): map<K, V>
      reads this, data
      requires UniqueKeys(data)
    {
      Entries(data)
    }

    constructor (hash: K -> nat, count: nat)
      requires count <= MAX_BUCKETS
      ensures Valid() && this.hash == hash && data == [] && Model() == map[]
    {
      this.hash, data := hash, [];
      var n := NextBucketCount(count);
      buckets := seq(n, _ => None);
    }

    /** The scan that `find`, `emplace` and `try_emplace` share: walk the bucket's run. */
    method Scan(key: K, idx: nat) returns (it: Option<Node<K, V>>)
      requires Valid() && idx == BucketOf(hash(key), |buckets|) && buckets[idx].Some?
      ensures it.Some? ==> it.value in data && it.value.key == key
      ensures it.None? ==> forall n :: n in data ==> n.key != key
    {
      var h := HeadOf(idx);
      var i := h;
      while i < |data| && BucketOf(data[i].hash, |buckets|) == idx
        invariant h <= i <= |data|
        invariant forall x :: h <= x < i ==> data[x].key != key
      {
        if data[i].key == key {
          return Some(data[i]);
        }
        i := i + 1;
      }
      RunExhausted(hash, data, buckets, key, h, i);
      return None;
    }

    /** The position in the list of the node that a bucket points to. */
    method HeadOf(idx: nat) returns (h: nat)
      requires Valid() && idx < |buckets| && buckets[idx].Some?
      ensures h < |data| && data[h] == buckets[idx].value && BucketOf(data[h].hash, |buckets|) == idx
      ensures IsHead(BucketsOf(data, |buckets|), h)
      ensures forall x :: 0 <= x < h ==> BucketOf(data[x].hash, |buckets|) != idx
    {
      ghost var g := HeadIndex(hash, data, buckets, idx);
      h :| 0 <= h < |data| && data[h] == buckets[idx].value;
      assert h == g;
    }

    method Find(key: K) returns (it: Option<Node<K, V>>)
      requires Valid()
      ensures it.Some? <==> key in Model()
      ensures it.Some? ==> it.value in data && it.value.key == key && it.value.val == Model()[key]
    {
      var idx := BucketOf(hash(key), |buckets|);
      if buckets[idx].None? {
        EmptyBucket(key);
        return None;
      }
      it := Scan(key, idx);
    }

    lemma EmptyBucket(key: K)
      requires Valid() && buckets[BucketOf(hash(key), |buckets|)].None?
      ensures forall n :: n in data ==> n.key != key
    {
      var c := BucketsOf(data, |buckets|);
      forall i | 0 <= i < |data| ensures data[i].key != key {
        if data[i].key == key { var _ := BucketStart(c, data, buckets, c[i]); }
      }
    }

    /** `emplace`: insert, or overwrite the value of the node that has the key. */
    method Emplace(key: K, val: V) returns (it: Node<K, V>, inserted: bool)
      requires Valid() && |data| < MAX_BUCKETS
      modifies this, data
      ensures Valid()
      ensures inserted <==> key !in old(Model())
      ensures Model() == old(Model())[key := val]
      ensures it in data && it.key == key && it.val == val
      ensures forall n :: n in data <==> n in old(data) || n == it
      ensures inserted ==> fresh(it)
      ensures forall n :: n in old(data) && n.key != key ==> n.val == old(n.val)
    {
      var idx := BucketOf(hash(key), |buckets|);
      if buckets[idx].Some? {
        var found := Scan(key, idx);
        if found.Some? {
          Overwrite(found.value, val);
          return found.value, false;
        }
      } else {
        EmptyBucket(key);
      }
      it := AddNode(key, val);
      inserted := true;
    }

    method Overwrite(n: Node<K, V>, val: V)
      requires Valid() && n in data
      modifies n`val
      ensures n.val == val && Model() == old(Model())[n.key := val]
    {
      n.val := val;
    }

    /** `try_emplace`: insert, or leave the node that has the key as it is. */
    method TryEmplace(key: K, val: V) returns (it: Node<K, V>, inserted: bool)
      requires Valid() && |data| < MAX_BUCKETS
      modifies this
      ensures Valid()
      ensures inserted <==> key !in old(Model())
      ensures inserted ==> Model() == old(Model())[key := val]
      ensures !inserted ==> Model() == old(Model())
      ensures it in data && it.key == key
      ensures forall n :: n in data <==> n in old(data) || n == it
      ensures inserted ==> fresh(it)
    {
      var idx := BucketOf(hash(key), |buckets|);
      if buckets[idx].Some? {
        var found := Scan(key, idx);
        if found.Some? {
          return found.value, false;
        }
      } else {
        EmptyBucket(key);
      }
      it := AddNode(key, val);
      inserted := true;
    }

    /** The common tail of the two insertions: link a new node in and grow if need be. */
    method AddNode(key: K, val: V) returns (it: Node<K, V>)
      requires Valid() && |data| < MAX_BUCKETS
      requires forall n :: n in data ==> n.key != key
      modifies this
      ensures Valid() && fresh(it) && it.key == key && it.val == val
      ensures forall n :: n in data <==> n in old(data) || n == it
      ensures Model() == old(Model())[key := val]
    {
      ghost var d := data;
      it := LinkNew(key, val);
      Rehash(|data|);
      KeyAdded(d, data, it);
    }

    method LinkNew(key: K, val: V) returns (it: Node<K, V>)
      requires Valid() && forall n :: n in data ==> n.key != key
      modifies this
      ensures Consistent(hash, data, buckets) && |data| == |old(data)| + 1
      ensures fresh(it) && it.key == key && it.val == val
      ensures forall n :: n in data <==> n in old(data) || n == it
    {
      it := new Node(hash(key), key, val);
      data, buckets := LinkInto(data, buckets, it);
    }

    /** Link a node in at the head of its bucket's run. */
    method LinkInto(d: seq<Node<K, V>>, bs: seq<Option<Node<K, V>>>, n: Node<K, V>)
      returns (d': seq<Node<K, V>>, bs': seq<Option<Node<K, V>>>)
      requires Consistent(hash, d, bs) && n.hash == hash(n.key) && forall x :: x in d ==> x.key != n.key
      ensures Consistent(hash, d', bs') && |d'| == |d| + 1 && |bs'| == |bs|
      ensures forall x :: x in d' <==> x in d || x == n
    {
      var idx := BucketOf(n.hash, |bs|);
      var h := 0;
      if bs[idx].Some? {
        ghost var g := HeadIndex(hash, d, bs, idx);
        h :| 0 <= h < |d| && d[h] == bs[idx].value;
        assert h == g;
      }
      LinkedConsistent(hash, d, bs, n, h);
      d', bs' := d[..h] + [n] + d[h..], bs[idx := Some(n)];
    }

    /** The loop of `rehash`: link every node, as it is, into `n` new buckets. */
    method Relink(d: seq<Node<K, V>>, ghost bs: seq<Option<Node<K, V>>>, n: nat)
      returns (tmp: seq<Node<K, V>>, tmpBuckets: seq<Option<Node<K, V>>>)
      requires Consistent(hash, d, bs) && n > 0
      ensures Consistent(hash, tmp, tmpBuckets) && |tmp| == |d| && |tmpBuckets| == n && SameNodes(tmp, d)
    {
      tmp, tmpBuckets := [], seq(n, _ => None);
      var i := 0;
      while i < |d|
        invariant i <= |d| && |tmp| == i && |tmpBuckets| == n
        invariant Consistent(hash, tmp, tmpBuckets) && SameNodes(tmp, d[..i])
      {
        NewKey(d, i, tmp);
        ghost var was := tmp;
        tmp, tmpBuckets := LinkInto(tmp, tmpBuckets, d[i]);
        OneMoreNode(d, i, was, tmp);
        i := i + 1;
      }
      assert d[..i] == d;
    }

    /** `rehash`: relink every node, keeping its identity, into a larger set of buckets. */
    method Rehash(count: nat)
      requires Consistent(hash, data, buckets) && count <= MAX_BUCKETS
      modifies this
      ensures Consistent(hash, data, buckets) && (|data| <= count || |data| <= |old(buckets)| ==> Valid())
      ensures |data| == |old(data)| && SameNodes(data, old(data))
      ensures count <= |buckets| && |old(buckets)| <= |buckets|
      ensures count <= |old(buckets)| ==> data == old(data) && buckets == old(buckets)
    {
      if count <= |buckets| {
        return;
      }
      var n := NextBucketCount(count);
      data, buckets := Relink(data, buckets, n);
    }

    method Unlink(pos: Node<K, V>, ghost i: nat) returns (next: Option<Node<K, V>>)
      requires Valid() && i < |data| && data[i] == pos
      modifies this
      ensures Valid() && data == RemoveAt(old(data), i)
      ensures next == if i + 1 < |old(data)| then Some(old(data)[i + 1]) else None
    {
      UnlinkedConsistent(hash, data, buckets, i);
      var k :| 0 <= k < |data| && data[k] == pos;
      assert k == i;
      next := if k + 1 < |data| then Some(data[k + 1]) else None;
      buckets := BucketsWithout(data, buckets, k);
      data := data[..k] + data[k + 1..];
    }

    /** `erase(pos)` of the i-th node.  Returns the node that follows, if any. */
    method Erase(pos: Node<K, V>, ghost i: nat) returns (next: Option<Node<K, V>>)
      requires Valid() && i < |data| && data[i] == pos
      modifies this
      ensures Valid() && data == RemoveAt(old(data), i) && pos !in data
      ensures Model() == old(Model()) - {pos.key}
      ensures next == if i + 1 < |old(data)| then Some(old(data)[i + 1]) else None
    {
      ghost var d := data;
      next := Unlink(pos, i);
      RemovedEntries(d, i);
    }

    /** `erase(key)`. */
    method EraseKey(key: K) returns (next: Option<Node<K, V>>)
      requires Valid()
      modifies this
      ensures Valid() && Model() == old(Model()) - {key}
      ensures key !in old(Model()) ==> next.None? && data == old(data)
    {
      ghost var m := Model();
      var it := Find(key);
      if it.None? {
        MinusAbsent(m, key);
        return None;
      }
      ghost var i :| 0 <= i < |data| && data[i] == it.value;
      next := Erase(it.value, i);
    }

    /** Move assignment swaps the two tables. */
    method MoveAssign(other: NodeHashMap<K, V>)
      requires Valid() && other.Valid() && hash == other.hash
      modifies this, other
      ensures Valid() && other.Valid()
      ensures Model() == old(other.Model()) && other.Model() == old(Model())
    {
      var b, d := buckets, data;
      buckets, data := other.buckets, other.data;
      other.buckets, other.data := b, d;
    }
  }
}
