/** The doubly linked list with its sentinel embedded in the list object
    (src/kernel/nonstd/list.h).  The pair (_back, _front) of the list is laid out like the
    (prev, next) prefix of a node, so it is modelled as a node: `_back` is `end.prev` and
    `_front` is `end.next`.  A value lives in its node for the node's whole life, so the
    contents of a list are given as its sequence of nodes. */
module List {
  import opened IntrusiveRing
  import opened Sequences

  ghost function Insert(r: seq<Node>, k: nat, m: seq<Node>): (w: seq<Node>)
    requires k <= |r|
    ensures |w| == |r| + |m|
    ensures forall i :: 0 <= i < |w| ==>
      w[i] == if i < k then r[i] else if i < k + |m| then m[i - k] else r[i - |m|]
  {
    r[..k] + m + r[k..]
  }

  /** Link the new node in before the first node of r. */
  method LinkIn(pos: Node, n: Node, ghost r: seq<Node>)
    requires Ring(r) && pos == r[0] && n !in r
    modifies r, n
    ensures Ring(r + [n])
  {
    assert r[0].prev == Before(r, 0);
    var prev := pos.prev;
    n.prev := prev;
    n.next := pos;
    pos.prev := n;
    prev.next := n;
  }

  /** The links of the rings r and s after s[..m] has been relinked before r[0]. */
  ghost predicate Relinked(r: seq<Node>, s: seq<Node>, m: nat)
    requires r != [] && 0 < m < |s|
    reads r, s
  {
    && (forall x {:trigger r[x].next} :: 0 <= x < |r| ==> r[x].next == if x + 1 < |r| then r[x + 1] else s[0])
    && (forall x {:trigger r[x].prev} :: 0 <= x < |r| ==> r[x].prev == if x > 0 then r[x - 1] else s[m - 1])
    && (forall x {:trigger s[x].next} :: 0 <= x < |s| ==>
          s[x].next == if x == m - 1 then r[0] else if x + 1 < |s| then s[x + 1] else s[m])
    && (forall x {:trigger s[x].prev} :: 0 <= x < |s| ==>
          s[x].prev == if x == 0 then r[|r| - 1] else if x == m then s[|s| - 1] else s[x - 1])
  }

  lemma RelinkedRings(r: seq<Node>, s: seq<Node>, m: nat)
    requires Distinct(r) && Distinct(s) && Apart(r, s) && r != [] && 0 < m < |s| && Relinked(r, s, m)
    ensures Ring(s[..m] + r) && Ring(s[m..])
  {
    var w := s[..m] + r;
    forall x | 0 <= x < |w| ensures w[x].next == After(w, x) && w[x].prev == Before(w, x) {
      if x < m { assert w[x] == s[x]; } else { assert w[x] == r[x - m]; }
    }
    forall x | 0 <= x < |s[m..]| ensures s[m..][x].next == After(s[m..], x) && s[m..][x].prev == Before(s[m..], x) {
      assert s[m..][x] == s[m + x];
    }
  }

  /** The links after the first two of the four swaps in `splice_impl`. */
  ghost predicate HalfRelinked(r: seq<Node>, s: seq<Node>, m: nat)
    requires r != [] && m < |s|
    reads r, s
  {
    && (forall x {:trigger r[x].next} :: 0 <= x < |r| ==> r[x].next == if x + 1 < |r| then r[x + 1] else s[m])
    && (forall x {:trigger r[x].prev} :: 0 <= x < |r| ==> r[x].prev == if x > 0 then r[x - 1] else s[|s| - 1])
    && (forall x {:trigger s[x].next} :: 0 <= x < |s| ==> s[x].next == if s[x] == Before(s, m) then r[0] else After(s, x))
    && (forall x {:trigger s[x].prev} :: 0 <= x < |s| ==> s[x].prev == if x > 0 then s[x - 1] else r[|r| - 1])
  }

  method SpliceFirst(pos: Node, first: Node, prev: Node, last_prev: Node, ghost r: seq<Node>, ghost s: seq<Node>, ghost m: nat)
    requires Ring(r) && Ring(s) && Apart(r, s) && m < |s|
    requires pos == r[0] && first == s[0] && prev == r[|r| - 1] && last_prev == Before(s, m)
    modifies r, s
    ensures HalfRelinked(r, s, m)
  {
    ghost var n, l := |r| - 1, |s| - 1;
    assert r[0].prev == r[n] && s[0].prev == s[l];
    assert r[n].next == r[0] && s[l].next == s[0] && (m > 0 ==> s[m - 1].next == s[m]);
    first.prev, pos.prev := pos.prev, first.prev;
    last_prev.next, prev.next := prev.next, last_prev.next;
  }

  method SpliceSecond(pos: Node, last: Node, prev: Node, first_prev: Node, ghost r: seq<Node>, ghost s: seq<Node>, ghost m: nat)
    requires r != [] && Distinct(r) && Distinct(s) && Apart(r, s) && m < |s| && HalfRelinked(r, s, m)
    requires pos == r[0] && last == s[m] && prev == r[|r| - 1] && first_prev == s[|s| - 1]
    modifies r, s
    ensures m == 0 ==> Ring(r) && Ring(s)
    ensures m > 0 ==> Relinked(r, s, m)
  {
    assert r[0].prev == s[|s| - 1] && r[|r| - 1].next == s[m];
    assert s[|s| - 1].next == (if m == 0 then r[0] else s[0]) && s[m].prev == if m == 0 then r[|r| - 1] else s[m - 1];
    prev.next, first_prev.next := first_prev.next, prev.next;
    pos.prev, last.prev := last.prev, pos.prev;
  }

  /** `splice_impl` on two rings, entered at `pos` and at `first`: the m nodes from `first` up to
      `last` leave the second ring and come to lie before `pos`. */
  method SpliceImpl(pos: Node, first: Node, last: Node, ghost r: seq<Node>, ghost s: seq<Node>, ghost m: nat)
    requires Ring(r) && Ring(s) && Apart(r, s)
    requires pos == r[0] && first == s[0] && m < |s| && last == s[m]
    modifies r, s
    ensures m == 0 ==> Ring(r) && Ring(s)
    ensures m > 0 ==> Relinked(r, s, m)
  {
    assert r[0].prev == Before(r, 0) && s[0].prev == Before(s, 0) && s[m].prev == Before(s, m);
    var prev, first_prev, last_prev := pos.prev, first.prev, last.prev;
    SpliceFirst(pos, first, prev, last_prev, r, s, m);
    SpliceSecond(pos, last, prev, first_prev, r, s, m);
  }

  /** The two spliced rings, entered at their sentinels again. */
  lemma SplicedTo(r: seq<Node>, k: nat, s: seq<Node>, i: nat, j: nat)
    requires k < |r| && i <= j < |s| && Ring(Rotated(s, i + 1)[..j - i] + Rotated(r, k + 1))
    ensures Ring(r[..k + 1] + s[i + 1..j + 1] + r[k + 1..])
  {
    var w, a := Rotated(s, i + 1)[..j - i] + Rotated(r, k + 1), j - i + |r| - (k + 1);
    RotateRing(w, a);
    assert Rotated(s, i + 1)[..j - i] == s[i + 1..j + 1];
    assert Rotated(w, a) == r[..k + 1] + s[i + 1..j + 1] + r[k + 1..];
  }

  lemma SplicedFrom(s: seq<Node>, i: nat, j: nat)
    requires i <= j < |s| && Ring(Rotated(s, i + 1)[j - i..])
    ensures Ring(s[..i + 1] + s[j + 1..])
  {
    var v, b := Rotated(s, i + 1)[j - i..], |s| - (j + 1);
    RotateRing(v, b);
    assert Rotated(v, b) == s[..i + 1] + s[j + 1..];
  }

  lemma StayApart(r: seq<Node>, k: nat, s: seq<Node>, i: nat)
    requires Apart(r, s) && k <= |r| && i <= |s|
    ensures Apart(Rotated(r, k), Rotated(s, i))
  {
  }

  /** `splice_impl` on the rings of two lists, entered at their sentinels. */
  method SpliceRings(pos: Node, first: Node, last: Node,
                     ghost r: seq<Node>, ghost k: nat, ghost s: seq<Node>, ghost i: nat, ghost j: nat)
    returns (ghost r': seq<Node>, ghost s': seq<Node>)
    requires Ring(r) && Ring(s) && Apart(r, s)
    requires k < |r| && pos == After(r, k)
    requires i <= j < |s| && first == After(s, i) && last == After(s, j)
    modifies r, s
    ensures Ring(r') && r' == r[..k + 1] + s[i + 1..j + 1] + r[k + 1..]
    ensures Ring(s') && s' == s[..i + 1] + s[j + 1..]
  {
    ghost var t, u := Rotated(r, k + 1), Rotated(s, i + 1);
    RotateRing(r, k + 1);
    RotateRing(s, i + 1);
    StayApart(r, k + 1, s, i + 1);
    SpliceImpl(pos, first, last, t, u, j - i);
    if i < j { RelinkedRings(t, u, j - i); } else { assert u[..0] + t == t && u[0..] == u; }
    SplicedTo(r, k, s, i, j);
    SplicedFrom(s, i, j);
    r', s' := r[..k + 1] + s[i + 1..j + 1] + r[k + 1..], s[..i + 1] + s[j + 1..];
  }

  lemma SplicedContents(r: seq<Node>, k: nat, s: seq<Node>, i: nat, j: nat, r': seq<Node>, s': seq<Node>)
    requires k < |r| && i <= j < |s|
    requires r' == r[..k + 1] + s[i + 1..j + 1] + r[k + 1..] && s' == s[..i + 1] + s[j + 1..]
    ensures r'[0] == r[0] && r'[1..] == r[1..][..k] + s[1..][i..j] + r[1..][k..]
    ensures s'[0] == s[0] && s'[1..] == s[1..][..i] + s[1..][j..]
  {
    assert r[1..][..k] == r[1..k + 1] && s[1..][i..j] == s[i + 1..j + 1] && r[1..][k..] == r[k + 1..];
  }

  lemma SplicedApart(r: seq<Node>, k: nat, s: seq<Node>, i: nat, j: nat, r': seq<Node>, s': seq<Node>)
    requires k < |r| && i <= j < |s| && Apart(r, s) && Distinct(s)
    requires r' == r[..k + 1] + s[i + 1..j + 1] + r[k + 1..] && s' == s[..i + 1] + s[j + 1..]
    ensures Apart(r', s')
  {
    forall x, y | 0 <= x < |r'| && 0 <= y < |s'| ensures r'[x] != s'[y] {
      assert s'[y] == s[if y <= i then y else y + (j - i)];
      if k < x <= k + (j - i) {
        assert r'[x] == s[i + x - k];
      } else {
        assert r'[x] == r[if x <= k then x else x - (j - i)];
      }
    }
  }

  /** The links of all nodes of r but the first, once s[0] has taken the place of r[0]. */
  ghost predicate OthersSwapped(r: seq<Node>, s: seq<Node>)
    requires r != [] && s != []
    reads r
  {
    && (forall x {:trigger r[x].next} :: 0 < x < |r| ==> r[x].next == if x + 1 < |r| then r[x + 1] else s[0])
    && (forall x {:trigger r[x].prev} :: 0 < x < |r| ==> r[x].prev == if x > 1 then r[x - 1] else s[0])
  }

  /** The links of r after the first two of the four swaps. */
  ghost predicate HalfSwapped(r: seq<Node>, s: seq<Node>)
    requires r != [] && s != []
    reads r
  {
    && OthersSwapped(r, s)
    && r[0].next == (if |r| > 1 then r[1] else s[0]) && r[0].prev == (if |r| > 1 then r[|r| - 1] else s[0])
  }

  /** The links of r after its first node and that of s have changed places. */
  ghost predicate Swapped(r: seq<Node>, s: seq<Node>)
    requires r != [] && s != []
    reads r
  {
    && OthersSwapped(r, s)
    && r[0].next == (if |s| > 1 then s[1] else r[0]) && r[0].prev == (if |s| > 1 then s[|s| - 1] else r[0])
  }

  lemma SwappedRing(r: seq<Node>, s: seq<Node>)
    requires Distinct(r) && Distinct(s) && Apart(r, s) && r != [] && s != [] && Swapped(r, s) && Swapped(s, r)
    ensures Ring([r[0]] + s[1..])
  {
    var w := [r[0]] + s[1..];
    forall x | 0 <= x < |w| ensures w[x].next == After(w, x) && w[x].prev == Before(w, x) {
      if x > 0 { assert w[x] == s[x]; }
    }
  }

  /** The pointer swaps of the move assignment: those of the neighbours of the two sentinels. */
  method SwapNeighbours(e: Node, f: Node, ghost r: seq<Node>, ghost s: seq<Node>)
    requires Ring(r) && Ring(s) && Apart(r, s) && e == r[0] && f == s[0]
    modifies r, s
    ensures HalfSwapped(r, s) && HalfSwapped(s, r)
  {
    assert r[0].next == After(r, 0) && r[0].prev == Before(r, 0) && r[|r| - 1].next == r[0];
    assert s[0].next == After(s, 0) && s[0].prev == Before(s, 0) && s[|s| - 1].next == s[0];
    var b1, b2 := e.prev, f.prev;
    e.next.prev, f.next.prev := f.next.prev, e.next.prev;
    b1.next, b2.next := b2.next, b1.next;
  }

  /** And those of the sentinels. */
  method SwapEnds(e: Node, f: Node, ghost r: seq<Node>, ghost s: seq<Node>)
    requires r != [] && s != [] && Distinct(r) && Distinct(s) && Apart(r, s) && e == r[0] && f == s[0]
    requires HalfSwapped(r, s) && HalfSwapped(s, r)
    modifies e, f
    ensures Swapped(r, s) && Swapped(s, r)
  {
    e.next, f.next := f.next, e.next;
    e.prev, f.prev := f.prev, e.prev;
  }

  /** They exchange the contents of the two rings. */
  method SwapLinks(e: Node, f: Node, ghost r: seq<Node>, ghost s: seq<Node>)
    requires Ring(r) && Ring(s) && Apart(r, s) && e == r[0] && f == s[0]
    modifies r, s
    ensures Ring([e] + s[1..]) && Ring([f] + r[1..])
  {
    SwapNeighbours(e, f, r, s);
    SwapEnds(e, f, r, s);
    SwappedRing(r, s);
    SwappedRing(s, r);
  }

  /** Link a node in before the one at position k of a ring. */
  method LinkAt(pos: Node, n: Node, ghost r: seq<Node>, ghost k: nat)
    requires Ring(r) && 0 < k <= |r| && n !in r && pos == After(r, k - 1)
    modifies r, n
    ensures Ring(Insert(r, k, [n]))
  {
    RotateRing(r, k);
    LinkIn(pos, n, Rotated(r, k));
    RotateRing(Rotated(r, k) + [n], |r| - k);
    RotatedInsert(r, k, n);
  }

  lemma RotatedInsert(r: seq<Node>, k: nat, n: Node)
    requires k <= |r|
    ensures Rotated(Rotated(r, k) + [n], |r| - k) == Insert(r, k, [n])
  {
  }

  lemma InsertedContents(r: seq<Node>, k: nat, n: Node)
    requires k + 1 <= |r|
    ensures Insert(r, k + 1, [n])[1..] == r[1..][..k] + [n] + r[1..][k..]
  {
  }

  class List {
    const end: Node
    var size: nat
    ghost var ring: seq<Node>

    ghost predicate Valid()
      reads this, ring
    {
      Ring(ring) && ring[0] == end && size == |ring| - 1
    }

    /** The nodes in list order. */
    ghost function Contents(): seq<Node>
      reads this
      requires ring != []
    {
      ring[1..]
    }

    constructor ()
      ensures Valid() && Contents() == [] && fresh(end) && fresh(ring)
    {
      end := new Node();
      size := 0;
      new;
      ring := [end];
    }

    /** `emplace`: a new node before the one at position k of the contents, or at the end. */
    method Emplace(pos: Node, ghost k: nat) returns (n: Node)
      requires Valid() && k <= |Contents()| && pos == After(ring, k)
      modifies this, ring
      ensures Valid() && fresh(n) && ring == Insert(old(ring), k + 1, [n])
      ensures Contents() == old(Contents())[..k] + [n] + old(Contents())[k..]
    {
      n := new Node();
      LinkAt(pos, n, ring, k + 1);
      InsertedContents(ring, k, n);
      ring := Insert(ring, k + 1, [n]);
      size := size + 1;
    }

    /** `erase` of the node at position k.  Returns the node after it, or `end`. */
    method EraseNode(pos: Node, ghost k: nat) returns (next: Node)
      requires Valid() && k < |Contents()| && pos == Contents()[k]
      modifies this, ring
      ensures Valid() && ring == CutAt(old(ring), k + 1)
      ensures Contents() == old(Contents())[..k] + old(Contents())[k + 1..]
      ensures next == After(old(ring), k + 1)
    {
      next := Erase(pos, ring, k + 1);
      ring := CutAt(ring, k + 1);
      size := size - 1;
    }

    /** `splice(pos, other, first, last)`: move part of another list before `pos`. */
    method Splice(pos: Node, other: List, first: Node, last: Node, n: nat, ghost k: nat, ghost i: nat, ghost j: nat)
      requires Valid() && other.Valid() && this != other && Apart(ring, other.ring)
      requires k <= |Contents()| && pos == After(ring, k)
      requires i <= j <= |other.Contents()| && first == After(other.ring, i) && last == After(other.ring, j)
      requires n == j - i
      modifies this, other, ring, other.ring
      ensures Valid() && other.Valid() && Apart(ring, other.ring)
      ensures Contents() == old(Contents())[..k] + old(other.Contents())[i..j] + old(Contents())[k..]
      ensures other.Contents() == old(other.Contents())[..i] + old(other.Contents())[j..]
    {
      ghost var r, s := ring, other.ring;
      ring, other.ring := SpliceRings(pos, first, last, r, k, s, i, j);
      SplicedContents(r, k, s, i, j, ring, other.ring);
      SplicedApart(r, k, s, i, j, ring, other.ring);
      size := size + n;
      other.size := other.size - n;
    }

    /** Move assignment swaps the two lists, whichever of them are empty. */
    method MoveAssign(other: List)
      requires Valid() && other.Valid() && (this == other || Apart(ring, other.ring))
      modifies this, other, ring, other.ring
      ensures Valid() && other.Valid()
      ensures this != other ==> Apart(ring, other.ring)
      ensures Contents() == old(other.Contents()) && other.Contents() == old(Contents())
    {
      var a := size;
      size := other.size;
      other.size := a;
      if this != other {
        SwapLinks(end, other.end, ring, other.ring);
        ring, other.ring := [end] + other.ring[1..], [other.end] + ring[1..];
      }
    }
  }
}
