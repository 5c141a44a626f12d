/** Quotients and remainders. */
module Division {
  lemma DivMod(idx: nat, epb: nat, q: nat, r: nat)
    requires epb > 0 && r < epb && idx == q * epb + r
    ensures idx / epb == q && idx % epb == r
  {
    var q', r' := idx / epb, idx % epb;
    var d := q' - q;
    assert d * epb == r - r';
    if d >= 1 { MulAtLeast(d, epb); } else if d <= -1 { MulAtLeast(-d, epb); }
  }

  lemma DivModBack(idx: nat, epb: nat)
    requires epb > 0
    ensures idx == idx / epb * epb + idx % epb
  {
  }

  lemma MulAtLeast(d: int, e: nat)
    requires d >= 1
    ensures d * e >= e
  {
    assert (d - 1) * e >= 0;
  }

  lemma DivShift(idx: nat, epb: nat)
    requires epb > 0
    ensures (idx + epb) / epb == idx / epb + 1 && (idx + epb) % epb == idx % epb
  {
    var q, r := idx / epb, idx % epb;
    assert idx + epb == (q + 1) * epb + r;
    DivMod(idx + epb, epb, q + 1, r);
  }

  lemma ModWrap(x: nat, n: nat)
    requires n > 0 && x < 2 * n
    ensures x % n == if x < n then x else x - n
  {
    if x >= n { DivMod(x, n, 1, x - n); } else { DivMod(x, n, 0, x); }
  }
}
