/**
 How far the index's agreement with a linear scan reaches: up to the band count, and not
 one bit further.
 */
module LshTightness {
  import opened Bits
  import opened Lsh

  /** `n` bands of `r` bits, each holding the value 1. */
  function Comb(n: nat, r: nat): nat {
    if n == 0 then 0 else 1 + Pow2(r) * Comb(n - 1, r)
  }

  lemma CombShifts(n: nat, r: nat)
    requires n > 0 && r > 0
    ensures Comb(n, r) / Pow2(r) == Comb(n - 1, r) && Comb(n, r) % Pow2(r) == 1
  {
    DivUnique(Comb(n, r), Pow2(r), Comb(n - 1, r), 1);
  }

  lemma {:induction false} CombField(n: nat, r: nat, i: nat)
    requires i < n && r > 0
    ensures Field(Comb(n, r), i * r, r) == 1
  {
    CombShifts(n, r);
    if i > 0 {
      assert i * r == r + (i - 1) * r;
      Pow2Add(r, (i - 1) * r);
      DivTwice(Comb(n, r), Pow2(r), Pow2((i - 1) * r));
      CombField(n - 1, r, i - 1);
    }
  }

  lemma ZeroField(s: nat, r: nat)
    ensures Field(0, s, r) == 0
  {
    DivUnique(0, Pow2(s), 0, 0);
    DivUnique(0, Pow2(r), 0, 0);
  }

  /** A field worth 1 has one bit set. */
  lemma UnitField(x: nat, s: nat, r: nat)
    requires r > 0 && Field(x, s, r) == 1
    ensures Differing(x, 0, s, s + r) == 1
  {
    FieldStep(x, s, r - 1);
    ZeroField(s + 1, r - 1);
    FieldEqual(x, 0, s + 1, r - 1);
    NoneDiffer(x, 0, s + 1, s + r);
    DifferingSplits(x, 0, s, s + 1, s + r);
    DivUnique(0, Pow2(s), 0, 0);
    assert Differing(x, 0, s, s) == 0;
  }

  lemma OneMoreBit(x: nat, lo: nat, r: nat, count: nat)
    requires r > 0 && Field(x, lo, r) == 1 && Differing(x, 0, 0, lo) == count
    ensures Differing(x, 0, 0, lo + r) == count + 1
  {
    UnitField(x, lo, r);
    DifferingSplits(x, 0, 0, lo, lo + r);
  }

  lemma {:induction false} CombDistance(n: nat, r: nat, m: nat)
    requires m <= n && r > 0
    ensures Differing(Comb(n, r), 0, 0, m * r) == m
  {
    if m > 0 {
      var comb, lo := Comb(n, r), (m - 1) * r;
      CombDistance(n, r, m - 1);
      CombField(n, r, m - 1);
      OneMoreBit(comb, lo, r, m - 1);
      assert lo + r == m * r;
    }
  }

  lemma {:induction false} CombFits(n: nat, r: nat)
    requires r > 0
    ensures Comb(n, r) < Pow2(n * r)
  {
    if n > 0 {
      CombFits(n - 1, r);
      assert n * r == r + (n - 1) * r;
      Pow2Add(r, (n - 1) * r);
      MulMonotone(Pow2(r), Comb(n - 1, r), Pow2((n - 1) * r) - 1);
      Distribute(Pow2(r), Pow2((n - 1) * r), -1);
      assert Pow2(r) == 2 * Pow2(r - 1);
    }
  }

  /** One differing bit per band: as many as there are bands, and no key in common. */
  lemma CombEscapes(scheme: BandScheme)
    requires scheme.Valid()
    ensures var comb := Comb(scheme.bands, scheme.rows);
            comb < 0x1_0000_0000_0000_0000 && HammingDistance(comb, 0) == scheme.bands && !SharesKey(comb, 0, scheme)
  {
    var n, r := scheme.bands, scheme.rows;
    assert r > 0;
    var comb := Comb(n, r);
    CombFits(n, r);
    SixtyFourBits();
    CombDistance(n, r, n);
    forall i | 0 <= i < n ensures Keys(comb, scheme)[i] != Keys(0, scheme)[i] {
      CombField(n, r, i);
      ZeroField(i * r, r);
      assert Pow2(VALUE_BITS) == 2 * Pow2(VALUE_BITS - 1);
      KeysApart(i, 1, i, 0);
    }
  }

  /** On every history short enough for its ids, the index finds what a full scan finds. */
  ghost predicate AlwaysAgrees(scheme: BandScheme, maxHamming: nat) {
    forall signatures: seq<Word>, query: Word | |signatures| <= U32 ::
      CandidateHits(signatures, scheme, query, maxHamming) == ScanHits(signatures, query, maxHamming, |signatures|)
  }

  /** The index agrees with the linear scan on every history exactly below the band count. */
  lemma AgreesIffBelowBands(scheme: BandScheme, maxHamming: nat)
    requires scheme.Valid()
    ensures AlwaysAgrees(scheme, maxHamming) <==> maxHamming < scheme.bands
  {
    if maxHamming < scheme.bands {
      forall signatures: seq<Word>, query: Word | |signatures| <= U32
        ensures CandidateHits(signatures, scheme, query, maxHamming)
            == ScanHits(signatures, query, maxHamming, |signatures|)
      {
        CloseHitsAreCandidates(signatures, scheme, query, maxHamming);
      }
    } else {
      CombEscapes(scheme);
      var signatures: seq<Word> := [0];
      var comb: Word := Comb(scheme.bands, scheme.rows);
      UnwrappedCandidates(signatures, scheme, comb, 0);
      assert 0 in ScanHits(signatures, comb, maxHamming, |signatures|);
      assert 0 !in CandidateHits(signatures, scheme, comb, maxHamming);
    }
  }
}
