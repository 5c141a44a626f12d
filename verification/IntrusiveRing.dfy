/** The circular intrusive list at the level of its pointers (src/kernel/util/intrusive_list.h).
    Any number of rings may share the heap; every operation names, as ghost sequences, the
    rings it acts on and may change no node outside them. */
module IntrusiveRing {
  import opened Sequences

  class Node {
    var next: Node
    var prev: Node

    /** A node that is in no list is a ring of its own. */
    constructor ()
      ensures Ring([this])
    {
      next, prev := this, this;
    }
  }

  ghost function After(r: seq<Node>, k: nat): Node
    requires k < |r|
  {
    if k + 1 < |r| then r[k + 1] else r[0]
  }

  ghost function Before(r: seq<Node>, k: nat): Node
    requires k < |r|
  {
    if k > 0 then r[k - 1] else r[|r| - 1]
  }

  /** The nodes of r, in this order, form one ring: next and prev are mutually inverse. */
  ghost predicate Ring(r: seq<Node>)
    reads r
  {
    && r != [] && Distinct(r)
    && (forall k {:trigger r[k].next} :: 0 <= k < |r| ==> r[k].next == After(r, k))
    && (forall k {:trigger r[k].prev} :: 0 <= k < |r| ==> r[k].prev == Before(r, k))
  }

  /** The nodes of a ring from the k-th on. */
  ghost function Rotated(r: seq<Node>, k: nat): (t: seq<Node>)
    requires k <= |r|
    ensures |t| == |r| && forall x :: x in t ==> x in r
  {
    r[k..] + r[..k]
  }

  /** A ring may be entered at any of its nodes. */
  lemma RotateRing(r: seq<Node>, k: nat)
    requires Ring(r) && k <= |r|
    ensures Ring(Rotated(r, k))
  {
    var t := Rotated(r, k);
    var n := |r| - k;
    forall i | 0 <= i < |t| ensures t[i].next == After(t, i) && t[i].prev == Before(t, i) {
      var j := if i < n then i + k else i - n;
      assert t[i] == r[j];
      assert r[j].next == After(r, j) && r[j].prev == Before(r, j);
    }
  }

  ghost function CutAt(r: seq<Node>, k: nat): (w: seq<Node>)
    requires k < |r|
    ensures |w| == |r| - 1 && forall i :: 0 <= i < |w| ==> w[i] == r[if i < k then i else i + 1]
  {
    r[..k] + r[k + 1..]
  }

  lemma RotatedCut(r: seq<Node>, k: nat)
    requires k < |r| && |r| > 1 && Ring(Rotated(r, k)[1..])
    ensures Ring(CutAt(r, k))
  {
    var w, m := Rotated(r, k)[1..], |r| - k - 1;
    RotateRing(w, m);
    assert Rotated(w, m) == CutAt(r, k);
  }

  lemma NotInCut(r: seq<Node>, k: nat)
    requires Distinct(r) && k < |r|
    ensures r[k] !in CutAt(r, k)
  {
  }

  /** The pointer writes of `erase`, on the ring entered at the node. */
  method Unlink(n: Node, ghost r: seq<Node>)
    requires Ring(r) && |r| > 1 && n == r[0]
    modifies r
    ensures Ring([n]) && Ring(r[1..])
  {
    assert r[0].next == r[1] && r[0].prev == r[|r| - 1];
    n.next.prev := n.prev;
    n.prev.next := n.next;
    n.next := n;
    n.prev := n;
  }

  /** `erase`: the node leaves its ring and becomes a ring of its own.  Returns the node that
      followed it. */
  method Erase(n: Node, ghost r: seq<Node>, ghost k: nat) returns (following: Node)
    requires Ring(r) && k < |r| && n == r[k]
    modifies r
    ensures Ring([n]) && n !in CutAt(r, k)
    ensures |r| > 1 ==> Ring(CutAt(r, k))
    ensures following == After(r, k)
  {
    assert r[k].next == After(r, k);
    NotInCut(r, k);
    following := n.next;
    if following != n {
      RotateRing(r, k);
      Unlink(n, Rotated(r, k));
      RotatedCut(r, k);
    }
  }

  /** Link the singleton p in after the first node of r. */
  method LinkAfter(h: Node, p: Node, ghost r: seq<Node>)
    requires Ring(r) && h == r[0] && Ring([p]) && p !in r
    modifies r, p
    ensures Ring([h, p] + r[1..])
  {
    assert r[0].next == After(r, 0);
    p.prev := h;
    p.next := h.next;
    h.next.prev := p;
    h.next := p;
  }

  /** Link the singleton p in before the first node of r. */
  method LinkBefore(h: Node, p: Node, ghost r: seq<Node>)
    requires Ring(r) && h == r[0] && Ring([p]) && p !in r
    modifies r, p
    ensures Ring(r + [p])
  {
    assert r[0].prev == Before(r, 0);
    p.prev := h.prev;
    p.next := h;
    h.prev.next := p;
    h.prev := p;
  }

  ghost predicate Apart(r: seq<Node>, s: seq<Node>) {
    forall x, y :: 0 <= x < |r| && 0 <= y < |s| ==> r[x] != s[y]
  }

  /** h begins the ring r and p is the k-th node of the ring s, which is r itself or shares no
      node with it. */
  ghost predicate Placed(h: Node, r: seq<Node>, p: Node, s: seq<Node>, k: nat)
    reads r, s
  {
    && Ring(r) && h == r[0] && Ring(s) && k < |s| && p == s[k]
    && (s == r || Apart(r, s))
  }

  /** The ring r once the k-th node of s has been erased. */
  ghost function Remaining(r: seq<Node>, s: seq<Node>, k: nat): seq<Node>
    requires k < |s|
  {
    if s == r then CutAt(r, k) else r
  }

  /** `push_front`: p is taken out of the ring it is in and inserted after h.  Inserting a node
      after itself only takes it out of its ring. */
  method PushFront(h: Node, p: Node, ghost r: seq<Node>, ghost s: seq<Node>, ghost k: nat)
    requires Placed(h, r, p, s, k)
    modifies r, s
    ensures p != h ==> Ring([h, p] + Remaining(r, s, k)[1..])
    ensures p == h ==> Ring([h])
    ensures (p == h || s != r) && |s| > 1 ==> Ring(CutAt(s, k))
  {
    var _ := Erase(p, s, k);
    assert s != r ==> Ring(r);
    ghost var rest := CutAt(s, k);
    assert s != r ==> Apart(r, rest) && Apart([p], rest);
    if p != h {
      LinkAfter(h, p, Remaining(r, s, k));
      assert s != r && |s| > 1 ==> Ring(rest);
    } else {
      assert p in r && s == r && [h][0].next == h;
      p.prev := h;
      p.next := h.next;
      h.next.prev := p;
      h.next := p;
    }
  }

  /** `push_back`: as `push_front`, but inserted before h, which is the end of the ring. */
  method PushBack(h: Node, p: Node, ghost r: seq<Node>, ghost s: seq<Node>, ghost k: nat)
    requires Placed(h, r, p, s, k)
    modifies r, s
    ensures p != h ==> Ring(Remaining(r, s, k) + [p])
    ensures p == h ==> Ring([h])
    ensures (p == h || s != r) && |s| > 1 ==> Ring(CutAt(s, k))
  {
    var _ := Erase(p, s, k);
    assert s != r ==> Ring(r);
    ghost var rest := CutAt(s, k);
    assert s != r ==> Apart(r, rest) && Apart([p], rest);
    if p != h {
      LinkBefore(h, p, Remaining(r, s, k));
      assert s != r && |s| > 1 ==> Ring(rest);
    } else {
      assert p in r && s == r && [h][0].prev == h;
      p.prev := h.prev;
      p.next := h;
      h.prev.next := p;
      h.prev := p;
    }
  }

  /** `size`: the number of nodes other than the sentinel. */
  method Size(h: Node, ghost r: seq<Node>) returns (n: nat)
    requires Ring(r) && h == r[0]
    ensures n == |r| - 1
  {
    n := 0;
    assert r[0].next == After(r, 0);
    var ptr := h.next;
    while ptr != h
      invariant n < |r| && ptr == After(r, n)
      decreases |r| - n
    {
      n := n + 1;
      assert r[n].next == After(r, n);
      ptr := ptr.next;
    }
  }

  /** What is left of a ring once the nodes between the first and the n-th have been erased. */
  ghost function Left(r: seq<Node>, n: nat): (w: seq<Node>)
    requires 0 < n <= |r|
    ensures |w| == |r| - n + 1 && w[0] == r[0] && forall i :: 0 < i < |w| ==> w[i] == r[n + i - 1]
  {
    [r[0]] + r[n..]
  }

  ghost predicate Cleared(r: seq<Node>, n: nat)
    requires 0 < n <= |r|
    reads r
  {
    Ring(Left(r, n)) && forall x :: 0 < x < n ==> Ring([r[x]])
  }

  lemma LeftNodes(r: seq<Node>, n: nat)
    requires Distinct(r) && 0 < n < |r|
    ensures CutAt(Left(r, n), 1) == Left(r, n + 1)
    ensures forall x :: x in Left(r, n) ==> x in r
    ensures forall x :: 0 < x < n ==> r[x] !in Left(r, n)
  {
  }

  /** One turn of the loop in `clear`. */
  method ClearOne(it: Node, ghost r: seq<Node>, ghost n: nat) returns (next: Node)
    requires Distinct(r) && 0 < n < |r| && Cleared(r, n) && it == r[n]
    modifies r
    ensures Cleared(r, n + 1) && next == After(r, n)
  {
    LeftNodes(r, n);
    next := Erase(it, Left(r, n), 1);
  }

  /** `clear`: every node of the ring ends as a ring of its own. */
  method Clear(h: Node, ghost r: seq<Node>)
    requires Ring(r) && h == r[0]
    modifies r
    ensures forall k :: 0 <= k < |r| ==> Ring([r[k]])
  {
    assert r[0].next == After(r, 0) && Left(r, 1) == r;
    var it := h.next;
    ghost var n := 1;
    while it.next != it
      invariant 0 < n <= |r| && Cleared(r, n) && it == After(r, n - 1)
      decreases |r| - n
    {
      AtSentinel(r, n, it);
      it := ClearOne(it, r, n);
      n := n + 1;
    }
    AtSentinel(r, n, it);
  }

  /** A node that follows itself is the sentinel, and then it is the only one left. */
  lemma AtSentinel(r: seq<Node>, n: nat, it: Node)
    requires Distinct(r) && 0 < n <= |r| && Ring(Left(r, n)) && it == After(r, n - 1)
    ensures it.next == it <==> n == |r|
    ensures n == |r| ==> Ring([r[0]])
  {
    var w := Left(r, n);
    assert w[0].next == After(w, 0);
    if n == |r| {
      assert w == [r[0]];
    } else {
      assert w[1] == it && w[1].next == After(w, 1);
    }
  }
}
