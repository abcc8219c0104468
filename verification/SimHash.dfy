/**
 The majority-vote fingerprint of crates/apohara-context-primitives/src/simhash.rs over an
 arbitrary token hash.
 */
module SimHash {
  import opened Bits
  import opened Lsh

  /** Set bits minus clear bits at position `i` over all token hashes. */
  ghost function Votes(hashes: seq<Word>, i: nat): int {
    if hashes == [] then 0
    else Votes(hashes[..|hashes| - 1], i) + (if Bit(hashes[|hashes| - 1], i) == 1 then 1 else -1)
  }

  ghost function Hashes(tokens: seq<string>, hash: string -> Word): seq<Word> {
    seq(|tokens|, i requires 0 <= i < |tokens| => hash(tokens[i]))
  }

  /** Bit `i` of the fingerprint is set exactly when more hashes set it than clear it. */
  ghost predicate IsMajority(hashes: seq<Word>, out: nat) {
    out < Pow2(WORD_BITS) && forall i :: 0 <= i < WORD_BITS ==> (Bit(out, i) == 1 <==> Votes(hashes, i) > 0)
  }

  /** A word below 2^n gains bit `n` and keeps its other bits. */
  lemma SetTopBit(x: nat, n: nat)
    requires x < Pow2(n)
    ensures x + Pow2(n) < Pow2(n + 1)
    ensures Bit(x, n) == 0 && Bit(x + Pow2(n), n) == 1
    ensures forall k :: 0 <= k < n ==> Bit(x + Pow2(n), k) == Bit(x, k)
  {
    var p := Pow2(n);
    DivUnique(x, p, 0, x);
    DivUnique(x + p, p, 1, x);
    forall k | 0 <= k < n ensures Bit(x + p, k) == Bit(x, k) {
      AddMultipleKeepsBit(x, n, k);
    }
  }

  lemma EvenMultiple(x: nat, d: nat, m: nat)
    requires d >= 1
    ensures ((x + d * (2 * m)) / d) % 2 == (x / d) % 2
  {
    var q, r := x / d, x % d;
    assert x == d * q + r;
    Distribute(d, q, 2 * m);
    DivUnique(x + d * (2 * m), d, q + 2 * m, r);
  }

  lemma AddMultipleKeepsBit(x: nat, n: nat, k: nat)
    requires k < n
    ensures Bit(x + Pow2(n), k) == Bit(x, k)
  {
    Pow2Add(k, n - k);
    assert Pow2(n - k) == 2 * Pow2(n - k - 1);
    EvenMultiple(x, Pow2(k), Pow2(n - k - 1));
  }

  /** One vote per bit of one hash. */
  method CastVotes(votes: array<int>, h: Word, ghost before: seq<Word>)
    requires votes.Length == WORD_BITS && forall i :: 0 <= i < WORD_BITS ==> votes[i] == Votes(before, i)
    modifies votes
    ensures forall i :: 0 <= i < WORD_BITS ==> votes[i] == Votes(before + [h], i)
  {
    ghost var after := before + [h];
    assert after[..|after| - 1] == before;
    for i := 0 to WORD_BITS
      invariant forall k :: 0 <= k < i ==> votes[k] == Votes(after, k)
      invariant forall k :: i <= k < WORD_BITS ==> votes[k] == Votes(before, k)
    {
      if Bit(h, i) == 1 {
        votes[i] := votes[i] + 1;
      } else {
        votes[i] := votes[i] - 1;
      }
    }
  }

  /** Set the bits that won. */
  method Tally(votes: array<int>, ghost hashes: seq<Word>) returns (out: nat)
    requires votes.Length == WORD_BITS && forall i :: 0 <= i < WORD_BITS ==> votes[i] == Votes(hashes, i)
    ensures IsMajority(hashes, out)
  {
    out := 0;
    for i := 0 to WORD_BITS
      invariant out < Pow2(i)
      invariant forall k :: 0 <= k < i ==> (Bit(out, k) == 1 <==> Votes(hashes, k) > 0)
    {
      SetTopBit(out, i);
      if votes[i] > 0 {
        out := out + Pow2(i);
      }
    }
  }

  method Fingerprint(tokens: seq<string>, hash: string -> Word) returns (out: nat)
    ensures IsMajority(Hashes(tokens, hash), out)
  {
    ghost var hashes := Hashes(tokens, hash);
    var votes := new int[WORD_BITS](i => 0);
    var any := false;
    for t := 0 to |tokens|
      invariant any <==> t > 0
      invariant forall i :: 0 <= i < WORD_BITS ==> votes[i] == Votes(hashes[..t], i)
    {
      any := true;
      CastVotes(votes, hash(tokens[t]), hashes[..t]);
      assert hashes[..t + 1] == hashes[..t] + [hash(tokens[t])];
    }
    assert hashes[..|tokens|] == hashes;
    if !any {
      NoVotes();
      return 0;
    }
    out := Tally(votes, hashes);
  }

  lemma NoVotes()
    ensures IsMajority([], 0)
  {
    forall i | 0 <= i < WORD_BITS ensures Bit(0, i) == 0 {
      DivUnique(0, Pow2(i), 0, 0);
    }
  }

  // ---- what the votes depend on ----------------------------------------------------------

  lemma {:induction false} VotesConcat(a: seq<Word>, b: seq<Word>, i: nat)
    ensures Votes(a + b, i) == Votes(a, i) + Votes(b, i)
  {
    if b == [] {
      assert a + b == a;
    } else {
      assert (a + b)[..|a + b| - 1] == a + b[..|b| - 1];
      VotesConcat(a, b[..|b| - 1], i);
    }
  }

  lemma {:induction false} VotesIgnoreOrder(a: seq<Word>, b: seq<Word>, i: nat)
    requires multiset(a) == multiset(b)
    ensures Votes(a, i) == Votes(b, i)
  {
    if a == [] {
      assert |multiset(b)| == 0;
    } else {
      var n, x := |a| - 1, a[|a| - 1];
      assert a == a[..n] + [x];
      assert x in multiset(b);
      var j :| 0 <= j < |b| && b[j] == x;
      var rest := b[..j] + b[j + 1..];
      assert b == b[..j] + [x] + b[j + 1..];
      assert multiset(rest) == multiset(b) - multiset{x};
      assert multiset(a[..n]) == multiset(a) - multiset{x};
      VotesIgnoreOrder(a[..n], rest, i);
      VotesConcat(b[..j] + [x], b[j + 1..], i);
      VotesConcat(b[..j], [x], i);
      VotesConcat(b[..j], b[j + 1..], i);
      assert Votes([x], i) == Votes([], i) + (if Bit(x, i) == 1 then 1 else -1);
    }
  }

  /** Words are equal when their 64 bits are. */
  lemma SameBitsSameWord(a: nat, b: nat)
    requires a < Pow2(WORD_BITS) && b < Pow2(WORD_BITS)
    requires forall i :: 0 <= i < WORD_BITS ==> Bit(a, i) == Bit(b, i)
    ensures a == b
  {
    FieldEqual(a, b, 0, WORD_BITS);
    DivUnique(a, Pow2(WORD_BITS), 0, a);
    DivUnique(b, Pow2(WORD_BITS), 0, b);
  }

  /** Only the bag of token hashes matters. */
  lemma FingerprintIgnoresOrder(a: seq<Word>, b: seq<Word>, x: nat, y: nat)
    requires multiset(a) == multiset(b) && IsMajority(a, x) && IsMajority(b, y)
    ensures x == y
  {
    forall i | 0 <= i < WORD_BITS ensures Bit(x, i) == Bit(y, i) {
      VotesIgnoreOrder(a, b, i);
    }
    SameBitsSameWord(x, y);
  }

  /** Repeating one token any number of times gives its own hash. */
  lemma FingerprintOfOneToken(h: Word, n: nat, hashes: seq<Word>, x: nat)
    requires n > 0 && |hashes| == n && (forall i :: 0 <= i < n ==> hashes[i] == h)
    requires IsMajority(hashes, x)
    ensures x == h
  {
    forall i | 0 <= i < WORD_BITS ensures Bit(x, i) == Bit(h, i) {
      VotesOfOneToken(h, hashes, i);
    }
    SixtyFourBits();
    SameBitsSameWord(x, h);
  }

  lemma {:induction false} VotesOfOneToken(h: Word, hashes: seq<Word>, i: nat)
    requires forall j :: 0 <= j < |hashes| ==> hashes[j] == h
    ensures Votes(hashes, i) == if Bit(h, i) == 1 then |hashes| else -|hashes|
  {
    if hashes != [] {
      VotesOfOneToken(h, hashes[..|hashes| - 1], i);
    }
  }
}
