/** Page rounding and address-range tests shared by the memory code
    (src/kernel/util/algorithm.h).  Addresses are unbounded naturals; callers that
    depend on a machine width say so in their own contracts. */
module PageMath {
  const PG_SZ: nat := 4096
  const WORD: nat := 0x1_0000_0000                  // numbers that 32 bits can hold
  const LONG: nat := 0x1_0000_0000_0000_0000        // numbers that 64 bits can hold

  predicate Aligned(n: nat) { n % PG_SZ == 0 }

  function Floor(n: nat): nat { n - n % PG_SZ }

  function Ceil(n: nat): nat { Floor(n + PG_SZ - 1) }

  /** `Floor` is the greatest multiple of the page size below its argument and `Ceil` the
      least one above it, so no other rounding function has these properties. */
  lemma RoundingIsTight(n: nat, m: nat)
    requires Aligned(m)
    ensures Aligned(Floor(n)) && Aligned(Ceil(n))
    ensures m <= Floor(n) <==> m <= n
    ensures Ceil(n) <= m <==> n <= m
  {
    var q := m / PG_SZ;
    assert m == q * PG_SZ;
    assert Floor(n) == (n / PG_SZ) * PG_SZ;
    assert Ceil(n) == ((n + PG_SZ - 1) / PG_SZ) * PG_SZ;
  }

  lemma AlignedMod(n: nat)
    requires Aligned(n)
    ensures Aligned(n % WORD)
  {
    assert n % WORD == n - n / WORD * 0x10_0000 * PG_SZ;
  }

  predicate InRange(a: nat, base: nat, len: nat) { base <= a < base + len }

  /** Half-open overlap test on (base, length) pairs: `range_overlaps2(..., inclusive=false)`. */
  predicate Overlaps(base1: nat, len1: nat, base2: nat, len2: nat) {
    base1 < base2 + len2 && base2 < base1 + len1
  }

  predicate Subsumes(base1: nat, len1: nat, base2: nat, len2: nat) {
    base1 <= base2 && base1 + len1 >= base2 + len2
  }

  /** On non-empty ranges the overlap test is exact: it holds iff some address lies in both. */
  lemma OverlapsIffCommonAddress(base1: nat, len1: nat, base2: nat, len2: nat)
    requires len1 > 0 && len2 > 0
    ensures Overlaps(base1, len1, base2, len2) <==>
            exists a: nat :: InRange(a, base1, len1) && InRange(a, base2, len2)
  {
    var a := if base1 <= base2 then base2 else base1;
    if Overlaps(base1, len1, base2, len2) {
      assert InRange(a, base1, len1) && InRange(a, base2, len2);
    }
  }
}
