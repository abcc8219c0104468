/**
 The banded signature index of crates/apohara-context-primitives/src/lsh.rs, and when a
 query agrees with a linear scan by Hamming distance.
 */
module Lsh {
  import opened Bits
  import opened Options
  import opened Sorting

  const U32: nat := 0x1_0000_0000

  /** A 64-bit signature. */
  type Word = x: nat | x < 0x1_0000_0000_0000_0000 witness 0

  /** `bands` bands of `rows` bits each cover the 64 bits of a signature. */
  datatype BandScheme = BandScheme(bands: nat, rows: nat) {
    predicate Valid() {
      bands > 0 && bands * rows == WORD_BITS
    }
  }

  function NewScheme(bands: nat): (scheme: Option<BandScheme>)
    ensures scheme.Some? <==> bands in {1, 2, 4, 8, 16, 32, 64}
    ensures scheme.Some? ==> scheme.value.Valid() && scheme.value.bands == bands
  {
    if bands == 0 || 64 % bands != 0 then None
    else
      Divisors(bands);
      Some(BandScheme(bands, 64 / bands))
  }

  lemma Divisors(bands: nat)
    requires bands > 0 && 64 % bands == 0
    ensures bands in {1, 2, 4, 8, 16, 32, 64} && bands * (64 / bands) == 64
  {
    assert bands <= 64;
  }

  /** Band `i` holds bits `[i * rows, (i + 1) * rows)`. */
  function Band(signature: nat, scheme: BandScheme, i: nat): nat {
    Field(signature, i * scheme.rows, scheme.rows)
  }

  function LshBands(signature: nat, scheme: BandScheme): seq<nat> {
    seq(scheme.bands, (i: nat) => Band(signature, scheme, i))
  }

  const VALUE_BITS: nat := 56

  /** The band index above the low 56 bits of the band value; a 64-bit band loses its top byte. */
  function PackKey(band: nat, value: nat): nat {
    band * Pow2(VALUE_BITS) + value % Pow2(VALUE_BITS)
  }

  datatype MatchConfidence = Exact | HighConf | MidConf | LowConf | Unrelated

  function ClassifyMatch(hamming: nat): MatchConfidence {
    if hamming == 0 then Exact
    else if hamming <= 3 then HighConf
    else if hamming <= 7 then MidConf
    else if hamming <= 15 then LowConf
    else Unrelated
  }

  /** How sure a match is falls as the distance grows, a step after 0, 3, 7 and 15 differing bits. */
  lemma ConfidenceLadder(hamming: nat)
    ensures ClassifyMatch(hamming).Exact? <==> hamming < 1
    ensures ClassifyMatch(hamming).HighConf? <==> 1 <= hamming < 4
    ensures ClassifyMatch(hamming).MidConf? <==> 4 <= hamming < 8
    ensures ClassifyMatch(hamming).LowConf? <==> 8 <= hamming < 16
    ensures ClassifyMatch(hamming).Unrelated? <==> 16 <= hamming
  {
  }

  // ---- signatures and their bands ------------------------------------------------------

  ghost function Reassembled(signature: nat, scheme: BandScheme, n: nat): nat
    requires n <= scheme.bands
  {
    if n == 0 then 0
    else Reassembled(signature, scheme, n - 1) + Pow2((n - 1) * scheme.rows) * LshBands(signature, scheme)[n - 1]
  }

  lemma {:induction false} BandsReassemble(signature: nat, scheme: BandScheme, n: nat)
    requires n <= scheme.bands
    ensures Reassembled(signature, scheme, n) == signature % Pow2(n * scheme.rows)
  {
    if n > 0 {
      BandsReassemble(signature, scheme, n - 1);
      FieldsJoin(signature, (n - 1) * scheme.rows, scheme.rows);
      NextOffset(n - 1, scheme.rows);
    }
  }

  /** Or-ing the bands back at their offsets gives the signature. */
  lemma BandsRoundTrip(signature: nat, scheme: BandScheme)
    requires signature < Pow2(scheme.bands * scheme.rows)
    ensures Reassembled(signature, scheme, scheme.bands) == signature
  {
    BandsReassemble(signature, scheme, scheme.bands);
    DivUnique(signature, Pow2(scheme.bands * scheme.rows), 0, signature);
  }

  ghost function Keys(signature: nat, scheme: BandScheme): seq<nat> {
    seq(scheme.bands, (i: nat) => PackKey(i, Band(signature, scheme, i)))
  }

  lemma KeysApart(i: nat, u: nat, j: nat, v: nat)
    ensures PackKey(i, u) == PackKey(j, v) <==> i == j && u % Pow2(VALUE_BITS) == v % Pow2(VALUE_BITS)
  {
    var p := Pow2(VALUE_BITS);
    DivUnique(PackKey(i, u), p, i, u % p);
    DivUnique(PackKey(j, v), p, j, v % p);
  }

  /** A packed key is a 64-bit word: the band in the top byte, the low 56 bits of the value below it. */
  lemma KeyParts(band: nat, value: nat)
    ensures PackKey(band, value) / Pow2(VALUE_BITS) == band
    ensures PackKey(band, value) % Pow2(VALUE_BITS) == value % Pow2(VALUE_BITS)
    ensures band < 256 ==> PackKey(band, value) < Pow2(WORD_BITS)
  {
    var p := Pow2(VALUE_BITS);
    DivUnique(PackKey(band, value), p, band, value % p);
    if band < 256 {
      Pow2Add(8, VALUE_BITS);
      assert Pow2(8) == 256;
      MulMonotone(p, band + 1, 256);
      Distribute(p, band, 1);
    }
  }

  lemma KeysDistinct(signature: nat, scheme: BandScheme)
    ensures NoDuplicates(Keys(signature, scheme))
  {
    var keys := Keys(signature, scheme);
    forall i, j | 0 <= i < j < |keys| ensures keys[i] != keys[j] {
      KeysApart(i, Band(signature, scheme, i), j, Band(signature, scheme, j));
    }
  }

  ghost predicate SharesKey(a: nat, b: nat, scheme: BandScheme) {
    exists i :: 0 <= i < scheme.bands && Keys(a, scheme)[i] == Keys(b, scheme)[i]
  }

  lemma SharedKeySameBand(a: nat, b: nat, scheme: BandScheme, key: nat)
    requires key in Keys(a, scheme) && key in Keys(b, scheme)
    ensures SharesKey(a, b, scheme)
  {
    var i :| 0 <= i < scheme.bands && Keys(a, scheme)[i] == key;
    var j :| 0 <= j < scheme.bands && Keys(b, scheme)[j] == key;
    KeysApart(i, Band(a, scheme, i), j, Band(b, scheme, j));
  }

  // ---- the pigeonhole ---------------------------------------------------------------------

  lemma NextOffset(i: nat, rows: nat)
    ensures (i + 1) * rows == i * rows + rows
  {
  }

  lemma BandDiffers(a: nat, b: nat, lo: nat, rows: nat)
    requires Field(a, lo, rows) != Field(b, lo, rows)
    ensures Differing(a, b, 0, lo + rows) > Differing(a, b, 0, lo)
  {
    DifferingSplits(a, b, 0, lo, lo + rows);
    FieldEqual(a, b, lo, rows);
    NoneDiffer(a, b, lo, lo + rows);
  }

  /** A band that differs uses up one differing bit, so with fewer bits than bands one band agrees. */
  lemma {:induction false} SomeBandAgrees(a: nat, b: nat, scheme: BandScheme, n: nat) returns (i: nat)
    requires Differing(a, b, 0, n * scheme.rows) < n
    ensures i < n && Band(a, scheme, i) == Band(b, scheme, i)
  {
    i := n - 1;
    if Band(a, scheme, i) != Band(b, scheme, i) {
      NextOffset(i, scheme.rows);
      BandDiffers(a, b, i * scheme.rows, scheme.rows);
      i := SomeBandAgrees(a, b, scheme, n - 1);
    }
  }

  /** Fewer differing bits than bands leave some band, and so some key, in common. */
  lemma CloseSharesKey(a: nat, b: nat, scheme: BandScheme)
    requires scheme.Valid() && HammingDistance(a, b) < scheme.bands
    ensures SharesKey(a, b, scheme)
  {
    var i := SomeBandAgrees(a, b, scheme, scheme.bands);
    assert Keys(a, scheme)[i] == Keys(b, scheme)[i];
  }

  // ---- the index ----------------------------------------------------------------------------

  datatype LshMatch = LshMatch(id: nat, signature: nat, hamming: nat, confidence: MatchConfidence)

  function MatchOf(query: nat, id: nat, signature: nat): LshMatch {
    var hd := HammingDistance(query, signature);
    LshMatch(id, signature, hd, ClassifyMatch(hd))
  }

  predicate NoFarther(a: LshMatch, b: LshMatch) {
    a.hamming <= b.hamming
  }

  /** What a bucket should hold: the 32-bit ids of the signatures with that key, in insertion order. */
  ghost function Bucketed(signatures: seq<nat>, scheme: BandScheme, key: nat): seq<nat> {
    if signatures == [] then []
    else
      var n := |signatures| - 1;
      var rest := Bucketed(signatures[..n], scheme, key);
      if key in Keys(signatures[n], scheme) then rest + [n % U32] else rest
  }

  lemma {:induction false} BucketedMembers(signatures: seq<nat>, scheme: BandScheme, key: nat)
    ensures forall id :: id in Bucketed(signatures, scheme, key)
              <==> exists i :: 0 <= i < |signatures| && key in Keys(signatures[i], scheme) && id == i % U32
    ensures forall id :: id in Bucketed(signatures, scheme, key) ==> id < |signatures|
  {
    if signatures == [] {
    } else {
      var n := |signatures| - 1;
      BucketedMembers(signatures[..n], scheme, key);
      forall id | id in Bucketed(signatures, scheme, key)
        ensures exists i :: 0 <= i < |signatures| && key in Keys(signatures[i], scheme) && id == i % U32
      {
        if id in Bucketed(signatures[..n], scheme, key) {
          var i :| 0 <= i < n && key in Keys(signatures[..n][i], scheme) && id == i % U32;
          assert signatures[i] == signatures[..n][i];
        }
      }
      forall i | 0 <= i < |signatures| && key in Keys(signatures[i], scheme)
        ensures i % U32 in Bucketed(signatures, scheme, key)
      {
        if i < n {
          assert signatures[..n][i] == signatures[i];
        }
      }
    }
  }

  /** Some stored signature with this id shares a packed key with the query. */
  ghost predicate IsCandidate(signatures: seq<nat>, scheme: BandScheme, query: nat, id: nat) {
    exists i :: 0 <= i < |signatures| && id == i % U32 && SharesKey(query, signatures[i], scheme)
  }

  /** Each hit once, nearest first: `ids` says which ids hit. */
  ghost predicate Answers(out: seq<LshMatch>, signatures: seq<nat>, query: nat, ids: set<nat>) {
    && (forall i, j :: 0 <= i < j < |out| ==> out[i].id != out[j].id && out[i].hamming <= out[j].hamming)
    && (forall m :: m in out ==>
          && m.id < |signatures| && m.signature == signatures[m.id]
          && m.hamming == HammingDistance(query, m.signature) && m.confidence == ClassifyMatch(m.hamming))
    && (forall id :: id in ids <==> exists m :: m in out && m.id == id)
  }

  /** The hits a linear scan of the first `n` signatures finds. */
  ghost function ScanHits(signatures: seq<nat>, query: nat, maxHamming: nat, n: nat): set<nat>
    requires n <= |signatures|
  {
    set id: nat | 0 <= id < n && HammingDistance(query, signatures[id]) <= maxHamming
  }

  ghost function CandidateHits(signatures: seq<nat>, scheme: BandScheme, query: nat, maxHamming: nat): set<nat> {
    set id: nat | 0 <= id < |signatures| && HammingDistance(query, signatures[id]) <= maxHamming
                  && IsCandidate(signatures, scheme, query, id)
  }

  function BucketIn(buckets: map<nat, seq<nat>>, key: nat): seq<nat> {
    if key in buckets then buckets[key] else []
  }

  /** The buckets of the signatures before, with `id` filed under the first `n` of its keys. */
  ghost predicate Filed(buckets: map<nat, seq<nat>>, before: seq<nat>, scheme: BandScheme, keys: seq<nat>, n: nat,
      id: nat)
    requires n <= |keys|
  {
    forall key :: BucketIn(buckets, key)
               == if key in keys[..n] then Bucketed(before, scheme, key) + [id] else Bucketed(before, scheme, key)
  }

  lemma FileNext(buckets: map<nat, seq<nat>>, before: seq<nat>, scheme: BandScheme, keys: seq<nat>, n: nat, id: nat)
    requires n < |keys| && NoDuplicates(keys) && Filed(buckets, before, scheme, keys, n, id)
    ensures Filed(buckets[keys[n] := BucketIn(buckets, keys[n]) + [id]], before, scheme, keys, n + 1, id)
  {
    assert keys[..n + 1] == keys[..n] + [keys[n]];
    assert keys[n] !in keys[..n];
  }

  lemma AllFiled(buckets: map<nat, seq<nat>>, before: seq<nat>, scheme: BandScheme, signature: nat)
    requires Filed(buckets, before, scheme, Keys(signature, scheme), scheme.bands, |before| % U32)
    ensures forall key :: BucketIn(buckets, key) == Bucketed(before + [signature], scheme, key)
  {
    var keys, after := Keys(signature, scheme), before + [signature];
    assert keys[..scheme.bands] == keys && after[..|before|] == before;
  }

  class LshIndex {
    const scheme: BandScheme
    var signatures: seq<Word>
    var buckets: map<nat, seq<nat>>

    ghost predicate Valid()
      reads this
    {
      && scheme.Valid()
      && forall key :: Bucket(key) == Bucketed(signatures, scheme, key)
    }

    function Bucket(key: nat): seq<nat>
      reads this
    {
      BucketIn(buckets, key)
    }

    constructor (scheme: BandScheme)
      requires scheme.Valid()
      ensures Valid() && this.scheme == scheme && signatures == []
    {
      this.scheme := scheme;
      signatures := [];
      buckets := map[];
    }

    method Insert(signature: Word) returns (id: nat)
      requires Valid()
      modifies this
      ensures Valid() && signatures == old(signatures) + [signature] && id == |old(signatures)| % U32
    {
      id := |signatures| % U32;
      ghost var before := signatures;
      signatures := signatures + [signature];
      var bands := LshBands(signature, scheme);
      ghost var keys := Keys(signature, scheme);
      KeysDistinct(signature, scheme);
      for i := 0 to |bands|
        invariant signatures == before + [signature]
        invariant Filed(buckets, before, scheme, keys, i, id)
      {
        var key := PackKey(i, bands[i]);
        FileNext(buckets, before, scheme, keys, i, id);
        buckets := buckets[key := Bucket(key) + [id]];
      }
      AllFiled(buckets, before, scheme, signature);
    }

    method Candidates(query: Word) returns (out: set<nat>)
      requires Valid()
      ensures forall id :: id in out <==> IsCandidate(signatures, scheme, query, id)
    {
      out := {};
      var bands := LshBands(query, scheme);
      for i := 0 to |bands|
        invariant forall id :: id in out <==> FoundBy(signatures, scheme, query, i, id)
      {
        var ids := Bucket(PackKey(i, bands[i]));
        BucketedMembers(signatures, scheme, Keys(query, scheme)[i]);
        out := out + set id | id in ids;
      }
      FoundByAll(signatures, scheme, query);
    }

    /** One bucket of a query: each id not seen before is marked, and kept if it is near enough. */
    method ScanBucket(query: Word, maxHamming: nat, ids: seq<nat>, seen: array<bool>, found: seq<LshMatch>,
        ghost before: set<nat>)
      returns (out: seq<LshMatch>, ghost visited: set<nat>)
      requires seen.Length == |signatures| && Marks(seen[..], before) && forall id :: id in ids ==> id < |signatures|
      requires IsHitList(found, signatures, query, maxHamming, before)
      modifies seen
      ensures Marks(seen[..], visited) && visited == before + set id | id in ids
      ensures IsHitList(out, signatures, query, maxHamming, visited)
    {
      out, visited := found, before;
      for j := 0 to |ids|
        invariant Marks(seen[..], visited) && visited == before + set id | id in ids[..j]
        invariant IsHitList(out, signatures, query, maxHamming, visited)
      {
        var id := ids[j];
        assert id in ids && ids[..j + 1] == ids[..j] + [id];
        if !seen[id] {
          seen[id] := true;
          HitListStep(out, signatures, query, maxHamming, visited, id);
          visited := visited + {id};
          var hd := HammingDistance(query, signatures[id]);
          if hd <= maxHamming {
            out := out + [LshMatch(id, signatures[id], hd, ClassifyMatch(hd))];
          }
        }
      }
      assert ids[..|ids|] == ids;
    }

    /**
     Exactly the hits that share a packed key with the query, each once, nearest first. Below
     the band count that is every hit of the linear scan (of the signatures a 32-bit id reaches).
     */
    method Query(query: Word, maxHamming: nat) returns (out: seq<LshMatch>)
      requires Valid()
      ensures Answers(out, signatures, query, CandidateHits(signatures, scheme, query, maxHamming))
      ensures maxHamming < scheme.bands ==>
                Answers(out, signatures, query, ScanHits(signatures, query, maxHamming, Reachable(signatures)))
    {
      if signatures == [] {
        return [];
      }
      var seen := new bool[|signatures|](i => false);
      out := [];
      var bands := LshBands(query, scheme);
      ghost var visited: set<nat> := {};
      for i := 0 to |bands|
        invariant seen.Length == |signatures| && Marks(seen[..], visited)
        invariant Visited(signatures, scheme, query, i, visited)
        invariant IsHitList(out, signatures, query, maxHamming, visited)
      {
        var ids := Bucket(PackKey(i, bands[i]));
        BucketedMembers(signatures, scheme, Keys(query, scheme)[i]);
        ghost var before := visited;
        out, visited := ScanBucket(query, maxHamming, ids, seen, out, visited);
        BandVisited(signatures, scheme, query, i, before, visited);
      }
      AllVisited(out, signatures, scheme, query, maxHamming, visited);
      out := SortBy(NoFarther, out);
    }
  }

  ghost predicate Marks(seen: seq<bool>, visited: set<nat>) {
    forall id :: 0 <= id < |seen| ==> (seen[id] <==> id in visited)
  }

  /** Visited are the ids in the query's first `n` buckets. */
  ghost predicate Visited(signatures: seq<nat>, scheme: BandScheme, query: nat, n: nat, visited: set<nat>)
    requires n <= scheme.bands
  {
    forall id :: id in visited <==> FoundBy(signatures, scheme, query, n, id)
  }

  lemma BandVisited(signatures: seq<nat>, scheme: BandScheme, query: nat, n: nat, before: set<nat>, visited: set<nat>)
    requires n < scheme.bands && Visited(signatures, scheme, query, n, before)
    requires visited == before + set id | id in Bucketed(signatures, scheme, Keys(query, scheme)[n])
    ensures Visited(signatures, scheme, query, n + 1, visited)
  {
    forall id ensures FoundBy(signatures, scheme, query, n + 1, id)
                 <==> (|| FoundBy(signatures, scheme, query, n, id)
                       || id in Bucketed(signatures, scheme, Keys(query, scheme)[n]))
    {
    }
  }

  lemma AllVisited(out: seq<LshMatch>, signatures: seq<nat>, scheme: BandScheme, query: nat, maxHamming: nat,
      visited: set<nat>)
    requires scheme.Valid() && Visited(signatures, scheme, query, scheme.bands, visited)
    requires IsHitList(out, signatures, query, maxHamming, visited)
    ensures Answers(SortBy(NoFarther, out), signatures, query, CandidateHits(signatures, scheme, query, maxHamming))
    ensures maxHamming < scheme.bands ==>
              CandidateHits(signatures, scheme, query, maxHamming)
                  == ScanHits(signatures, query, maxHamming, Reachable(signatures))
  {
    FoundByAll(signatures, scheme, query);
    HitListSorted(out, signatures, scheme, query, maxHamming, visited);
    if maxHamming < scheme.bands {
      CloseHitsAreCandidates(signatures, scheme, query, maxHamming);
    }
  }

  // ---- collecting hits ------------------------------------------------------------------------

  ghost predicate IsHitList(out: seq<LshMatch>, signatures: seq<nat>, query: nat, maxHamming: nat, visited: set<nat>) {
    && (forall i, j :: 0 <= i < j < |out| ==> out[i].id != out[j].id)
    && (forall m :: m in out ==> m.id in visited && m.id < |signatures| && m == MatchOf(query, m.id, signatures[m.id])
                                 && m.hamming <= maxHamming)
    && (forall id :: id in visited && id < |signatures| && HammingDistance(query, signatures[id]) <= maxHamming ==>
          MatchOf(query, id, signatures[id]) in out)
  }

  lemma HitListStep(out: seq<LshMatch>, signatures: seq<nat>, query: nat, maxHamming: nat, visited: set<nat>, id: nat)
    requires IsHitList(out, signatures, query, maxHamming, visited) && id !in visited && id < |signatures|
    ensures IsHitList(
              if HammingDistance(query, signatures[id]) <= maxHamming then out + [MatchOf(query, id, signatures[id])]
                  else out,
              signatures, query, maxHamming, visited + {id})
  {
    forall i | 0 <= i < |out| ensures out[i].id != id {
      assert out[i] in out;
    }
  }

  /** The signatures whose index a 32-bit id can name. */
  ghost function Reachable(signatures: seq<nat>): nat {
    if |signatures| <= U32 then |signatures| else U32
  }

  lemma HitListSorted(out: seq<LshMatch>, signatures: seq<nat>, scheme: BandScheme, query: nat, maxHamming: nat,
      visited: set<nat>)
    requires IsHitList(out, signatures, query, maxHamming, visited)
    requires forall id :: id in visited <==> IsCandidate(signatures, scheme, query, id)
    ensures Answers(SortBy(NoFarther, out), signatures, query, CandidateHits(signatures, scheme, query, maxHamming))
  {
    var sorted := SortBy(NoFarther, out);
    ByDistanceOrders();
    SortSorts(NoFarther, out);
    SortPermutes(NoFarther, out);
    SameMembers(out, sorted);
    assert NoDuplicates(out);
    SortKeepsDuplicateFree(NoFarther, out);
    forall i, j | 0 <= i < j < |sorted| ensures sorted[i].id != sorted[j].id {
      assert sorted[i] in sorted && sorted[j] in sorted;
    }
    HitIds(out, signatures, scheme, query, maxHamming, visited);
  }

  lemma ByDistanceOrders()
    ensures Preorder(NoFarther)
  {
  }

  lemma HitIds(out: seq<LshMatch>, signatures: seq<nat>, scheme: BandScheme, query: nat, maxHamming: nat,
      visited: set<nat>)
    requires IsHitList(out, signatures, query, maxHamming, visited)
    requires forall id :: id in visited <==> IsCandidate(signatures, scheme, query, id)
    ensures forall id :: id in CandidateHits(signatures, scheme, query, maxHamming) <==>
              exists m :: m in out && m.id == id
  {
    forall id | id in CandidateHits(signatures, scheme, query, maxHamming) ensures exists m :: m in out && m.id == id {
      assert MatchOf(query, id, signatures[id]) in out;
    }
  }

  lemma SmallId(id: nat)
    requires id < U32
    ensures id == id % U32
  {
  }

  lemma CandidateIdFits(signatures: seq<nat>, scheme: BandScheme, query: nat, id: nat)
    requires IsCandidate(signatures, scheme, query, id)
    ensures id < U32
  {
  }

  lemma CloseIsCandidate(signatures: seq<nat>, scheme: BandScheme, query: nat, id: nat)
    requires scheme.Valid() && id < |signatures| && id < U32
    requires HammingDistance(query, signatures[id]) < scheme.bands
    ensures IsCandidate(signatures, scheme, query, id)
  {
    CloseSharesKey(query, signatures[id], scheme);
    SmallId(id);
  }

  /** Below the band count, a hit always shares a key; and an id is always below 2^32. */
  lemma CloseHitsAreCandidates(signatures: seq<nat>, scheme: BandScheme, query: nat, maxHamming: nat)
    requires scheme.Valid() && maxHamming < scheme.bands
    ensures CandidateHits(signatures, scheme, query, maxHamming)
            == ScanHits(signatures, query, maxHamming, Reachable(signatures))
  {
    var hits, scan := CandidateHits(signatures, scheme, query, maxHamming),
        ScanHits(signatures, query, maxHamming, Reachable(signatures));
    forall id | id in hits ensures id in scan {
      CandidateIdFits(signatures, scheme, query, id);
    }
    forall id | id in scan ensures id in hits {
      CloseIsCandidate(signatures, scheme, query, id);
    }
  }

  /** While ids do not wrap, the answer is the scan hits that share a packed key, at any threshold. */
  lemma UnwrappedCandidates(signatures: seq<nat>, scheme: BandScheme, query: nat, id: nat)
    requires |signatures| <= U32 && id < |signatures|
    ensures IsCandidate(signatures, scheme, query, id) <==> SharesKey(query, signatures[id], scheme)
  {
    SmallId(id);
    if SharesKey(query, signatures[id], scheme) {
      assert 0 <= id < |signatures| && id == id % U32;
    }
    if IsCandidate(signatures, scheme, query, id) {
      var i :| 0 <= i < |signatures| && id == i % U32 && SharesKey(query, signatures[i], scheme);
      SmallId(i);
    }
  }

  /** `id` is in a bucket of one of the query's first `n` keys. */
  ghost predicate FoundBy(signatures: seq<nat>, scheme: BandScheme, query: nat, n: nat, id: nat)
    requires n <= scheme.bands
  {
    exists i :: 0 <= i < n && id in Bucketed(signatures, scheme, Keys(query, scheme)[i])
  }

  lemma FoundByAll(signatures: seq<nat>, scheme: BandScheme, query: nat)
    ensures forall id :: FoundBy(signatures, scheme, query, scheme.bands, id) <==>
              IsCandidate(signatures, scheme, query, id)
  {
    forall id ensures FoundBy(signatures, scheme, query, scheme.bands, id)
        <==> IsCandidate(signatures, scheme, query, id) {
      if FoundBy(signatures, scheme, query, scheme.bands, id) {
        var b :| 0 <= b < scheme.bands && id in Bucketed(signatures, scheme, Keys(query, scheme)[b]);
        var key := Keys(query, scheme)[b];
        BucketedMembers(signatures, scheme, key);
        var i :| 0 <= i < |signatures| && key in Keys(signatures[i], scheme) && id == i % U32;
        SharedKeySameBand(query, signatures[i], scheme, key);
      }
      if IsCandidate(signatures, scheme, query, id) {
        var i :| 0 <= i < |signatures| && id == i % U32 && SharesKey(query, signatures[i], scheme);
        var b :| 0 <= b < scheme.bands && Keys(query, scheme)[b] == Keys(signatures[i], scheme)[b];
        var key := Keys(query, scheme)[b];
        assert key in Keys(signatures[i], scheme);
        BucketedMembers(signatures, scheme, key);
        assert id in Bucketed(signatures, scheme, key);
      }
    }
  }
}
