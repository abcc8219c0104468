/**
 The identifiers of crates/apohara-dispatch/src/planner.rs: slugs of area names and the
 numbered candidates that keep colliding slugs apart.
 */
module Slugs {

  function AsciiLower(c: char): char {
    if 'A' <= c <= 'Z' then ((c as int) + 32) as char else c
  }

  const CAPITALS: string := "ABCDEFGHIJKLMNOPQRSTUVWXYZ"
  const SMALL: string := "abcdefghijklmnopqrstuvwxyz"

  /** Each capital becomes the small letter at its place in the alphabet; nothing else changes. */
  lemma LowersLetters(c: char)
    ensures |CAPITALS| == |SMALL| == 26
    ensures forall i :: 0 <= i < 26 ==> AsciiLower(CAPITALS[i]) == SMALL[i]
    ensures c !in CAPITALS ==> AsciiLower(c) == c
  {
    Capitals(c);
  }

  lemma Capitals(c: char)
    ensures c in CAPITALS <==> 'A' <= c <= 'Z'
  {
    if 'A' <= c <= 'Z' {
      assert CAPITALS[c as int - 'A' as int] == c;
    }
  }

  lemma Smalls(c: char)
    ensures c in SMALL <==> 'a' <= c <= 'z'
  {
    if 'a' <= c <= 'z' {
      assert SMALL[c as int - 'a' as int] == c;
    }
  }

  predicate Alphanumeric(c: char) {
    ('a' <= c <= 'z') || ('A' <= c <= 'Z') || ('0' <= c <= '9')
  }

  const DIGITS: string := "0123456789"

  lemma AlphanumericMeans(c: char)
    ensures Alphanumeric(c) <==> c in CAPITALS || c in SMALL || c in DIGITS
  {
    Capitals(c);
    Smalls(c);
    if '0' <= c <= '9' {
      assert DIGITS[c as int - '0' as int] == c;
    }
  }

  predicate WordChar(c: char) {
    ('a' <= c <= 'z') || ('0' <= c <= '9')
  }

  // ---- the words of a string, as the reference meaning of a slug ------------------------

  ghost predicate EndsInWord(s: string) {
    s != [] && Alphanumeric(s[|s| - 1])
  }

  /** The maximal alphanumeric runs of `s`, lower-cased, in order. */
  ghost function Words(s: string): seq<string> {
    if s == [] then []
    else
      var rest, c := s[..|s| - 1], s[|s| - 1];
      var words := Words(rest);
      if !Alphanumeric(c) then words
      else if EndsInWord(rest) && words != [] then words[..|words| - 1] + [words[|words| - 1] + [AsciiLower(c)]]
      else words + [[AsciiLower(c)]]
  }

  ghost function Join(words: seq<string>): string {
    if words == [] then ""
    else if |words| == 1 then words[0]
    else Join(words[..|words| - 1]) + "-" + words[|words| - 1]
  }

  ghost predicate IsWord(w: string) {
    w != [] && forall i :: 0 <= i < |w| ==> WordChar(w[i])
  }

  ghost predicate AreWords(words: seq<string>) {
    forall i :: 0 <= i < |words| ==> IsWord(words[i])
  }

  ghost function SlugOf(s: string): string {
    if Words(s) == [] then "area" else Join(Words(s))
  }

  lemma {:induction false} WordsAreWords(s: string)
    ensures AreWords(Words(s))
    ensures EndsInWord(s) ==> Words(s) != []
  {
    if s != [] {
      WordsAreWords(s[..|s| - 1]);
    }
  }

  lemma JoinEndsInWord(words: seq<string>)
    requires AreWords(words) && words != []
    ensures Join(words) != [] && WordChar(Join(words)[|Join(words)| - 1])
  {
    var w := words[|words| - 1];
    assert IsWord(w) && WordChar(w[|w| - 1]);
  }

  /** Growing the last word grows the join. */
  lemma JoinGrows(words: seq<string>, c: char)
    requires words != []
    ensures Join(words[..|words| - 1] + [words[|words| - 1] + [c]]) == Join(words) + [c]
  {
    var longer := words[..|words| - 1] + [words[|words| - 1] + [c]];
    assert longer[..|longer| - 1] == words[..|words| - 1];
  }

  lemma JoinAppends(words: seq<string>, w: string)
    ensures Join(words + [w]) == if words == [] then w else Join(words) + "-" + w
  {
    assert (words + [w])[..|words|] == words;
  }

  /** The slug under construction: the words so far, and a dash once something has followed them. */
  ghost predicate SlugSoFar(s: string, out: string, lastDash: bool) {
    if EndsInWord(s) then !lastDash && out == Join(Words(s))
    else lastDash && out == (if Words(s) == [] then "" else Join(Words(s)) + "-")
  }

  lemma WordsStep(s: string, c: char, out: string, lastDash: bool)
    requires SlugSoFar(s, out, lastDash)
    ensures if Alphanumeric(c) then SlugSoFar(s + [c], out + [AsciiLower(c)], false)
            else SlugSoFar(s + [c], if lastDash then out else out + "-", true)
  {
    assert (s + [c])[..|s|] == s;
    WordsAreWords(s);
    if Alphanumeric(c) {
      if EndsInWord(s) {
        JoinGrows(Words(s), AsciiLower(c));
      } else {
        JoinAppends(Words(s), [AsciiLower(c)]);
      }
    }
  }

  /** The slug of a string is its words joined by single dashes, or "area" when it has none. */
  method Slug(s: string) returns (out: string)
    ensures out == SlugOf(s)
  {
    out := "";
    var lastDash := true;
    for i := 0 to |s|
      invariant SlugSoFar(s[..i], out, lastDash)
    {
      WordsStep(s[..i], s[i], out, lastDash);
      assert s[..i + 1] == s[..i] + [s[i]];
      var c := AsciiLower(s[i]);
      if Alphanumeric(c) {
        out := out + [c];
        lastDash := false;
      } else if !lastDash {
        out := out + ['-'];
        lastDash := true;
      }
    }
    assert s[..|s|] == s;
    WordsAreWords(s);
    if Words(s) != [] {
      JoinEndsInWord(Words(s));
    }
    while out != [] && out[|out| - 1] == '-'
      invariant out == (if Words(s) == [] then "" else Join(Words(s)))
                || (Words(s) != [] && out == Join(Words(s)) + "-")
      decreases |out|
    {
      out := out[..|out| - 1];
    }
    if out == [] {
      return "area";
    }
  }

  // ---- what a slug keeps of its string ------------------------------------------------------

  /** The letters and digits of a string, lower-cased. */
  ghost function Kept(s: string): string {
    if s == [] then []
    else Kept(s[..|s| - 1]) + if Alphanumeric(s[|s| - 1]) then [AsciiLower(s[|s| - 1])] else []
  }

  ghost function Flat(words: seq<string>): string {
    if words == [] then "" else Flat(words[..|words| - 1]) + words[|words| - 1]
  }

  /** How many times a letter or digit begins the string or follows something else. */
  ghost function Runs(s: string): nat {
    if s == [] then 0
    else Runs(s[..|s| - 1]) + if Alphanumeric(s[|s| - 1]) && !EndsInWord(s[..|s| - 1]) then 1 else 0
  }

  /** The words are all the letters and digits in their order, one word for each unbroken run of them. */
  lemma {:induction false} WordsKeepAll(s: string)
    ensures Flat(Words(s)) == Kept(s) && |Words(s)| == Runs(s)
  {
    if s != [] {
      var rest, c := s[..|s| - 1], s[|s| - 1];
      WordsKeepAll(rest);
      WordsAreWords(rest);
      FlatNext(Words(rest), AsciiLower(c));
    }
  }

  lemma FlatNext(words: seq<string>, c: char)
    ensures Flat(words + [[c]]) == Flat(words) + [c]
    ensures words != [] ==> Flat(words[..|words| - 1] + [words[|words| - 1] + [c]]) == Flat(words) + [c]
  {
    FlatSnoc(words, [c]);
    if words != [] {
      var rest, last := words[..|words| - 1], words[|words| - 1];
      FlatSnoc(rest, last + [c]);
      assert Flat(rest) + (last + [c]) == (Flat(rest) + last) + [c];
    }
  }

  lemma FlatSnoc(words: seq<string>, w: string)
    ensures Flat(words + [w]) == Flat(words) + w
  {
    assert (words + [w])[..|words|] == words;
  }

  // ---- a slug is its own slug --------------------------------------------------------------

  lemma WordStarts(s: string, c: char)
    requires WordChar(c) && !EndsInWord(s)
    ensures Words(s + [c]) == Words(s) + [[c]]
  {
    assert (s + [c])[..|s|] == s && AsciiLower(c) == c;
  }

  lemma WordGrows(s: string, c: char, words: seq<string>, w: string)
    requires WordChar(c) && EndsInWord(s) && Words(s) == words + [w]
    ensures Words(s + [c]) == words + [w + [c]]
  {
    assert (s + [c])[..|s|] == s && AsciiLower(c) == c;
    assert (words + [w])[..|words|] == words;
  }

  lemma EndsWithWord(prefix: string, w: string)
    requires IsWord(w)
    ensures EndsInWord(prefix + w)
  {
    assert (prefix + w)[|prefix + w| - 1] == w[|w| - 1] && WordChar(w[|w| - 1]);
  }

  lemma {:induction false} WordsOfWord(prefix: string, w: string)
    requires IsWord(w) && !EndsInWord(prefix)
    ensures Words(prefix + w) == Words(prefix) + [w]
  {
    var rest, c := w[..|w| - 1], w[|w| - 1];
    assert WordChar(c) && w == rest + [c];
    if rest == [] {
      WordStarts(prefix, c);
    } else {
      assert IsWord(rest);
      WordsOfWord(prefix, rest);
      EndsWithWord(prefix, rest);
      WordGrows(prefix + rest, c, Words(prefix), rest);
      assert prefix + w == (prefix + rest) + [c];
    }
  }

  lemma DashEndsWord(s: string)
    ensures Words(s + "-") == Words(s) && !EndsInWord(s + "-")
  {
    assert (s + "-")[..|s|] == s;
  }

  lemma {:induction false} WordsOfJoin(words: seq<string>)
    requires AreWords(words)
    ensures Words(Join(words)) == words
  {
    if words != [] {
      var rest, w := words[..|words| - 1], words[|words| - 1];
      assert words == rest + [w] && AreWords(rest) && IsWord(w);
      WordsOfJoin(rest);
      JoinAppends(rest, w);
      if rest == [] {
        WordsOfWord("", w);
        assert "" + w == w;
      } else {
        DashEndsWord(Join(rest));
        WordsOfWord(Join(rest) + "-", w);
      }
    }
  }

  lemma SlugIdempotent(s: string)
    ensures SlugOf(SlugOf(s)) == SlugOf(s)
  {
    WordsAreWords(s);
    if Words(s) == [] {
      WordsOfWord("", "area");
      assert "" + "area" == "area";
    } else {
      WordsOfJoin(Words(s));
    }
  }

  /** A slug has the words of its string, in their order, and "area" stands for none. */
  lemma SlugKeepsWords(s: string)
    ensures Kept(s) != [] ==> Words(SlugOf(s)) == Words(s) && Flat(Words(SlugOf(s))) == Kept(s)
    ensures Kept(s) == [] ==> SlugOf(s) == "area"
  {
    WordsAreWords(s);
    WordsKeepAll(s);
    if Words(s) != [] {
      WordsOfJoin(Words(s));
      FlatNotEmpty(Words(s));
    }
  }

  lemma FlatNotEmpty(words: seq<string>)
    requires AreWords(words) && words != []
    ensures Flat(words) != []
  {
    assert IsWord(words[|words| - 1]);
  }

  /** Dashes stand alone, between words. */
  lemma SlugShape(s: string, i: nat)
    requires i < |SlugOf(s)|
    ensures WordChar(SlugOf(s)[i]) || SlugOf(s)[i] == '-'
    ensures SlugOf(s)[i] == '-' ==> 0 < i < |SlugOf(s)| - 1 && WordChar(SlugOf(s)[i - 1]) && WordChar(SlugOf(s)[i + 1])
  {
    WordsAreWords(s);
    if Words(s) != [] {
      JoinShape(Words(s), i);
    }
  }

  lemma {:induction false} JoinShape(words: seq<string>, i: nat)
    requires AreWords(words) && words != [] && i < |Join(words)|
    ensures WordChar(Join(words)[0]) && WordChar(Join(words)[|Join(words)| - 1])
    ensures WordChar(Join(words)[i]) || (Join(words)[i] == '-' && 0 < i < |Join(words)| - 1)
    ensures Join(words)[i] == '-' && 0 < i < |Join(words)| - 1 ==>
        WordChar(Join(words)[i - 1]) && WordChar(Join(words)[i + 1])
  {
    var rest, w := words[..|words| - 1], words[|words| - 1];
    assert IsWord(w);
    if rest != [] {
      JoinEndsInWord(rest);
      JoinShape(rest, if i < |Join(rest)| then i else 0);
    }
  }

  // ---- numbered candidates ------------------------------------------------------------------

  function Decimal(n: nat): string {
    if n < 10 then [(n + 48) as char] else Decimal(n / 10) + [(n % 10 + 48) as char]
  }

  /** The number a string of decimal digits stands for. */
  ghost function ValueOf(s: string): int {
    if s == [] then 0 else 10 * ValueOf(s[..|s| - 1]) + (s[|s| - 1] as int - '0' as int)
  }

  /** Digits without a leading zero, that read as the number. */
  lemma {:induction false} DecimalReads(n: nat)
    ensures ValueOf(Decimal(n)) == n && Decimal(n) != []
    ensures forall i :: 0 <= i < |Decimal(n)| ==> '0' <= Decimal(n)[i] <= '9'
    ensures n > 0 ==> Decimal(n)[0] != '0'
  {
    var d := Decimal(n);
    if n >= 10 {
      DecimalReads(n / 10);
      assert d[..|d| - 1] == Decimal(n / 10);
    } else {
      assert d[..|d| - 1] == [];
    }
  }

  lemma {:induction false} DecimalInjective(a: nat, b: nat)
    requires Decimal(a) == Decimal(b)
    ensures a == b
  {
    var da, db := Decimal(a), Decimal(b);
    assert da[|da| - 1] == db[|db| - 1];
    if a >= 10 && b >= 10 {
      assert da[..|da| - 1] == Decimal(a / 10) && db[..|db| - 1] == Decimal(b / 10);
      DecimalInjective(a / 10, b / 10);
    } else if a >= 10 {
      DecimalNonempty(a / 10);
    } else if b >= 10 {
      DecimalNonempty(b / 10);
    }
  }

  lemma DecimalNonempty(n: nat)
    ensures |Decimal(n)| >= 1
  {
  }

  /** The first candidate is the bare slug; later ones are numbered from 2. */
  function Candidate(slug: string, n: nat): string
    requires n >= 1
  {
    if n == 1 then "impl-" + slug else "impl-" + slug + "-" + Decimal(n)
  }

  lemma CandidateInjective(slug: string, a: nat, b: nat)
    requires a >= 1 && b >= 1 && Candidate(slug, a) == Candidate(slug, b)
    ensures a == b
  {
    var stem := "impl-" + slug;
    if a > 1 && b > 1 {
      assert Candidate(slug, a)[|stem| + 1..] == Decimal(a);
      assert Candidate(slug, b)[|stem| + 1..] == Decimal(b);
      DecimalInjective(a, b);
    } else {
      assert |Candidate(slug, a)| == |Candidate(slug, b)|;
    }
  }
}
