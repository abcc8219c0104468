/** Stable insertion sort over a total preorder, and the lexicographic order of identifiers. */
module Sorting {

  ghost predicate Preorder<T(!new)>(le: (T, T) -> bool) {
    && (forall x, y :: le(x, y) || le(y, x))
    && (forall x, y, z :: le(x, y) && le(y, z) ==> le(x, z))
  }

  ghost predicate SortedBy<T>(le: (T, T) -> bool, s: seq<T>) {
    forall i, j :: 0 <= i < j < |s| ==> le(s[i], s[j])
  }

  ghost predicate NoDuplicates<T>(s: seq<T>) {
    forall i, j :: 0 <= i < j < |s| ==> s[i] != s[j]
  }

  function Insert<T>(le: (T, T) -> bool, x: T, s: seq<T>): seq<T> {
    if s == [] || le(x, s[0]) then [x] + s else [s[0]] + Insert(le, x, s[1..])
  }

  function SortBy<T>(le: (T, T) -> bool, s: seq<T>): seq<T> {
    if s == [] then [] else Insert(le, s[0], SortBy(le, s[1..]))
  }

  lemma {:induction false} InsertPermutes<T>(le: (T, T) -> bool, x: T, s: seq<T>)
    ensures multiset(Insert(le, x, s)) == multiset(s) + multiset{x}
  {
    if s == [] || le(x, s[0]) {
    } else {
      InsertPermutes(le, x, s[1..]);
      assert s == [s[0]] + s[1..];
    }
  }

  lemma {:induction false} SortPermutes<T>(le: (T, T) -> bool, s: seq<T>)
    ensures multiset(SortBy(le, s)) == multiset(s)
    ensures |SortBy(le, s)| == |s|
  {
    if s == [] {
    } else {
      SortPermutes(le, s[1..]);
      InsertPermutes(le, s[0], SortBy(le, s[1..]));
      assert s == [s[0]] + s[1..];
    }
    assert |multiset(SortBy(le, s))| == |SortBy(le, s)| && |multiset(s)| == |s|;
  }

  lemma SameMembers<T>(a: seq<T>, b: seq<T>)
    requires multiset(a) == multiset(b)
    ensures forall x :: x in a <==> x in b
  {
    forall x ensures x in a <==> x in b {
      assert x in a <==> x in multiset(a);
      assert x in b <==> x in multiset(b);
    }
  }

  lemma {:induction false} InsertSorts<T(!new)>(le: (T, T) -> bool, x: T, s: seq<T>)
    requires Preorder(le) && SortedBy(le, s)
    ensures SortedBy(le, Insert(le, x, s))
  {
    if s == [] || le(x, s[0]) {
      assert forall j :: 0 <= j < |s| ==> le(x, s[j]);
    } else {
      InsertSorts(le, x, s[1..]);
      InsertPermutes(le, x, s[1..]);
      var tail := Insert(le, x, s[1..]);
      forall j | 0 <= j < |tail| ensures le(s[0], tail[j]) {
        assert tail[j] in multiset(tail);
        assert tail[j] == x || tail[j] in s[1..];
      }
    }
  }

  lemma {:induction false} SortSorts<T(!new)>(le: (T, T) -> bool, s: seq<T>)
    requires Preorder(le)
    ensures SortedBy(le, SortBy(le, s))
  {
    if s == [] {
    } else {
      SortSorts(le, s[1..]);
      InsertSorts(le, s[0], SortBy(le, s[1..]));
    }
  }

  lemma TailMultiset<T>(s: seq<T>)
    requires s != []
    ensures multiset(s[1..]) == multiset(s) - multiset{s[0]}
  {
    assert s == [s[0]] + s[1..];
  }

  /** Two sorted arrangements of a multiset start alike. */
  lemma SameHead<T(!new)>(le: (T, T) -> bool, a: seq<T>, b: seq<T>)
    requires forall x, y :: le(x, y) && le(y, x) ==> x == y
    requires SortedBy(le, a) && SortedBy(le, b) && multiset(a) == multiset(b) && a != [] && b != []
    ensures a[0] == b[0]
  {
    assert a[0] in multiset(b) && b[0] in multiset(a);
    var i :| 0 <= i < |b| && b[i] == a[0];
    var j :| 0 <= j < |a| && a[j] == b[0];
  }

  /** An antisymmetric order leaves one sorted arrangement of a multiset. */
  lemma {:induction false} SortedUnique<T(!new)>(le: (T, T) -> bool, a: seq<T>, b: seq<T>)
    requires forall x, y :: le(x, y) && le(y, x) ==> x == y
    requires SortedBy(le, a) && SortedBy(le, b) && multiset(a) == multiset(b)
    ensures a == b
    decreases |a|
  {
    assert |a| == |multiset(a)| == |multiset(b)| == |b|;
    if a == [] {
    } else {
      SameHead(le, a, b);
      TailMultiset(a);
      TailMultiset(b);
      SortedUnique(le, a[1..], b[1..]);
      assert a == [a[0]] + a[1..] && b == [b[0]] + b[1..];
    }
  }

  lemma NoDuplicatesHead<T>(x: T, t: seq<T>)
    ensures NoDuplicates([x] + t) <==> x !in t && NoDuplicates(t)
  {
    var s := [x] + t;
    assert forall j :: 0 <= j < |t| ==> s[j + 1] == t[j];
    if NoDuplicates(s) {
      forall i, j | 0 <= i < j < |t| ensures t[i] != t[j] {
        assert t[i] == s[i + 1] && t[j] == s[j + 1];
      }
      forall j | 0 <= j < |t| ensures t[j] != x {
        assert s[0] == x && t[j] == s[j + 1];
      }
    }
  }

  lemma {:induction false} DuplicateFree<T>(s: seq<T>)
    ensures NoDuplicates(s) <==> forall x :: x in s ==> multiset(s)[x] == 1
  {
    if s == [] {
    } else {
      var t := s[1..];
      DuplicateFree(t);
      assert s == [s[0]] + t;
      NoDuplicatesHead(s[0], t);
      assert forall x :: x in s ==> multiset(s)[x] == multiset(t)[x] + (if x == s[0] then 1 else 0);
      if forall x :: x in s ==> multiset(s)[x] == 1 {
        assert multiset(t)[s[0]] == 0;
        assert forall x :: x in t ==> x in s;
      }
    }
  }

  lemma SortKeepsDuplicateFree<T>(le: (T, T) -> bool, s: seq<T>)
    requires NoDuplicates(s)
    ensures NoDuplicates(SortBy(le, s))
  {
    SortPermutes(le, s);
    SameMembers(s, SortBy(le, s));
    DuplicateFree(s);
    DuplicateFree(SortBy(le, s));
  }

  // ---- identifiers ----------------------------------------------------------

  /** Identifiers compare character by character; a proper prefix comes first. */
  predicate Below(a: string, b: string) {
    a == [] || (b != [] && (a[0] < b[0] || (a[0] == b[0] && Below(a[1..], b[1..]))))
  }

  lemma {:induction false} BelowTotal(a: string, b: string)
    ensures Below(a, b) || Below(b, a)
  {
    if a != [] && b != [] && a[0] == b[0] {
      BelowTotal(a[1..], b[1..]);
    }
  }

  lemma {:induction false} BelowTransitive(a: string, b: string, c: string)
    requires Below(a, b) && Below(b, c)
    ensures Below(a, c)
  {
    if a != [] && a[0] == b[0] && b[0] == c[0] {
      BelowTransitive(a[1..], b[1..], c[1..]);
    }
  }

  lemma {:induction false} BelowAntisymmetric(a: string, b: string)
    requires Below(a, b) && Below(b, a)
    ensures a == b
  {
    if a != [] {
      BelowAntisymmetric(a[1..], b[1..]);
      assert a == [a[0]] + a[1..] && b == [b[0]] + b[1..];
    }
  }

  /** Alike before place `i`, and smaller there. */
  ghost predicate PartsBelow(a: string, b: string, i: int) {
    0 <= i < |a| && i < |b| && a[..i] == b[..i] && a[i] < b[i]
  }

  lemma {:induction false} PartedIsBelow(a: string, b: string, i: int)
    requires PartsBelow(a, b, i)
    ensures Below(a, b)
    decreases i
  {
    if i > 0 {
      assert a[..i][0] == a[0] && b[..i][0] == b[0];
      assert a[1..][..i - 1] == a[..i][1..] && b[1..][..i - 1] == b[..i][1..];
      PartedIsBelow(a[1..], b[1..], i - 1);
    }
  }

  lemma {:induction false} PrefixIsBelow(a: string, b: string)
    requires a <= b
    ensures Below(a, b)
  {
    if a != [] {
      PrefixIsBelow(a[1..], b[1..]);
    }
  }

  lemma {:induction false} BelowParts(a: string, b: string)
    requires Below(a, b)
    ensures a <= b || exists i :: PartsBelow(a, b, i)
  {
    if a != [] && a[0] == b[0] {
      BelowParts(a[1..], b[1..]);
      assert a == [a[0]] + a[1..] && b == [b[0]] + b[1..];
      if i :| PartsBelow(a[1..], b[1..], i) {
        assert a[..i + 1] == [a[0]] + a[1..][..i] && b[..i + 1] == [b[0]] + b[1..][..i];
        assert PartsBelow(a, b, i + 1);
      }
    } else if a != [] {
      assert PartsBelow(a, b, 0);
    }
  }

  /** The first character at which two identifiers part decides; while they do not part, the shorter comes first. */
  lemma BelowMeans(a: string, b: string)
    ensures Below(a, b) <==> a <= b || exists i :: PartsBelow(a, b, i)
  {
    if Below(a, b) {
      BelowParts(a, b);
    } else if a <= b {
      PrefixIsBelow(a, b);
    } else if i :| PartsBelow(a, b, i) {
      PartedIsBelow(a, b, i);
    }
  }

  lemma BelowIsOrder()
    ensures Preorder(Below)
    ensures forall x, y :: Below(x, y) && Below(y, x) ==> x == y
  {
    forall x, y ensures Below(x, y) || Below(y, x) { BelowTotal(x, y); }
    forall x, y, z | Below(x, y) && Below(y, z) ensures Below(x, z) { BelowTransitive(x, y, z); }
    forall x, y | Below(x, y) && Below(y, x) ensures x == y { BelowAntisymmetric(x, y); }
  }

  function SortIds(ids: seq<string>): seq<string> {
    SortBy(Below, ids)
  }

  /** `SortIds` is the one increasing arrangement of the identifiers it is given. */
  lemma SortIdsSpec(ids: seq<string>)
    ensures SortedBy(Below, SortIds(ids))
    ensures multiset(SortIds(ids)) == multiset(ids)
    ensures forall x :: x in SortIds(ids) <==> x in ids
    ensures NoDuplicates(ids) ==> NoDuplicates(SortIds(ids))
  {
    BelowIsOrder();
    SortSorts(Below, ids);
    SortPermutes(Below, ids);
    SameMembers(ids, SortIds(ids));
    if NoDuplicates(ids) {
      SortKeepsDuplicateFree(Below, ids);
    }
  }
}
