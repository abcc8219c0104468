/**
 Unsigned words as naturals below a power of two: shifting right is division, masking is
 the remainder, and joining disjoint fields is addition.
 */
module Bits {

  /** The width of a signature. */
  const WORD_BITS: nat := 64

  function Pow2(n: nat): (p: nat)
    ensures p >= 1
  {
    if n == 0 then 1 else 2 * Pow2(n - 1)
  }

  /** Bit `k` of `x`, as 0 or 1. */
  function Bit(x: nat, k: nat): nat {
    (x / Pow2(k)) % 2
  }

  /** The `r` bits of `x` from bit `s` up, right-aligned: `(x >> s) & ((1 << r) - 1)`. */
  function Field(x: nat, s: nat, r: nat): nat {
    (x / Pow2(s)) % Pow2(r)
  }

  /** The number of bit positions in `[lo, hi)` where `a` and `b` differ. */
  function Differing(a: nat, b: nat, lo: nat, hi: nat): nat
    requires lo <= hi
    decreases hi
  {
    if lo == hi then 0 else Differing(a, b, lo, hi - 1) + (if Bit(a, hi - 1) == Bit(b, hi - 1) then 0 else 1)
  }

  /** The population count of the exclusive or. */
  function HammingDistance(a: nat, b: nat): nat {
    Differing(a, b, 0, WORD_BITS)
  }

  // ---- arithmetic ---------------------------------------------------------------------

  lemma DivMod(x: nat, d: nat)
    requires d >= 1
    ensures x == d * (x / d) + x % d && 0 <= x % d < d && 0 <= x / d
  {
  }

  /** Dividing in two goes: quotients nest and the remainders make up one remainder. */
  lemma NestedRemainders(x: nat, a: nat, b: nat, q: nat, r: nat, q2: nat, r2: nat)
    requires x == a * q + r && r < a && q == b * q2 + r2 && r2 < b
    ensures x == (a * b) * q2 + (a * r2 + r) && a * r2 + r < a * b && a * b >= 1
  {
    Distribute(a, b * q2, r2);
    Associate(a, b, q2);
    MulMonotone(a, r2, b - 1);
    Distribute(a, b, -1);
    MulMonotone(a, 1, b);
  }

  lemma DivTwice(x: nat, a: nat, b: nat)
    requires a >= 1 && b >= 1
    ensures a * b >= 1 && x / (a * b) == (x / a) / b
  {
    DivMod(x, a);
    DivMod(x / a, b);
    NestedRemainders(x, a, b, x / a, x % a, (x / a) / b, (x / a) % b);
    DivUnique(x, a * b, (x / a) / b, a * ((x / a) % b) + x % a);
  }

  lemma Distribute(a: int, b: int, c: int)
    ensures a * (b + c) == a * b + a * c
  {
  }

  lemma Associate(a: int, b: int, c: int)
    ensures a * (b * c) == (a * b) * c
  {
  }

  lemma MulMonotone(a: nat, b: int, c: int)
    requires b <= c
    ensures a * b <= a * c
  {
  }

  lemma DivUnique(x: nat, d: nat, q: nat, r: nat)
    requires d >= 1 && x == d * q + r && r < d
    ensures x / d == q && x % d == r
  {
    var q', r' := x / d, x % d;
    assert x == d * q' + r';
    if q' > q {
      MulMonotone(d, q + 1, q');
      Distribute(d, q, 1);
    } else if q' < q {
      MulMonotone(d, q' + 1, q);
      Distribute(d, q', 1);
    }
  }

  lemma {:induction false} Pow2Add(a: nat, b: nat)
    ensures Pow2(a + b) == Pow2(a) * Pow2(b)
  {
    if a == 0 {
    } else {
      Pow2Add(a - 1, b);
      Associate(2, Pow2(a - 1), Pow2(b));
    }
  }

  /** `y mod (2p)` is the low bit and twice the rest. */
  lemma ModStep(y: nat, p: nat)
    requires p >= 1
    ensures y % (2 * p) == y % 2 + 2 * ((y / 2) % p)
  {
    DivMod(y / 2, p);
    NestedRemainders(y, 2, p, y / 2, y % 2, (y / 2) / p, (y / 2) % p);
    DivUnique(y, 2 * p, (y / 2) / p, 2 * ((y / 2) % p) + y % 2);
  }

  lemma FieldStep(x: nat, s: nat, r: nat)
    ensures Field(x, s, r + 1) == Bit(x, s) + 2 * Field(x, s + 1, r)
  {
    DivTwice(x, Pow2(s), 2);
    ModStep(x / Pow2(s), Pow2(r));
  }

  /** Two fields are equal exactly when their bits are. */
  lemma {:induction false} FieldEqual(a: nat, b: nat, s: nat, r: nat)
    ensures Field(a, s, r) == Field(b, s, r) <==> forall k :: s <= k < s + r ==> Bit(a, k) == Bit(b, k)
    decreases r
  {
    if r == 0 {
    } else {
      FieldStep(a, s, r - 1);
      FieldStep(b, s, r - 1);
      FieldEqual(a, b, s + 1, r - 1);
    }
  }

  lemma {:induction false} DifferingSplits(a: nat, b: nat, lo: nat, mid: nat, hi: nat)
    requires lo <= mid <= hi
    ensures Differing(a, b, lo, hi) == Differing(a, b, lo, mid) + Differing(a, b, mid, hi)
    decreases hi
  {
    if mid < hi {
      DifferingSplits(a, b, lo, mid, hi - 1);
    }
  }

  lemma {:induction false} NoneDiffer(a: nat, b: nat, lo: nat, hi: nat)
    requires lo <= hi
    ensures Differing(a, b, lo, hi) == 0 <==> forall k :: lo <= k < hi ==> Bit(a, k) == Bit(b, k)
    decreases hi
  {
    if lo < hi {
      NoneDiffer(a, b, lo, hi - 1);
    }
  }

  lemma ModJoin(x: nat, p: nat, q: nat)
    requires p >= 1 && q >= 1
    ensures p * q >= 1 && x % (p * q) == x % p + p * ((x / p) % q)
  {
    DivMod(x, p);
    DivMod(x / p, q);
    NestedRemainders(x, p, q, x / p, x % p, (x / p) / q, (x / p) % q);
    DivUnique(x, p * q, (x / p) / q, p * ((x / p) % q) + x % p);
  }

  /** Adjacent fields join: the low `m` bits and the `r` bits above them are the low `m + r` bits. */
  lemma FieldsJoin(x: nat, m: nat, r: nat)
    ensures x % Pow2(m + r) == x % Pow2(m) + Pow2(m) * Field(x, m, r)
  {
    Pow2Add(m, r);
    ModJoin(x, Pow2(m), Pow2(r));
  }

  lemma SixtyFourBits()
    ensures Pow2(WORD_BITS) == 0x1_0000_0000_0000_0000
  {
    assert Pow2(8) == 256;
    Pow2Add(8, 8);
    Pow2Add(16, 16);
    Pow2Add(32, 32);
  }
}
