/**
 When two tasks may run side by side, after crates/apohara-coordinator/src/conflict_matrix.rs and
 the manifests of crates/apohara-coordinator/src/manifest.rs.
 */
module ConflictMatrix {

  datatype SymbolKind = Function | Class | Type | Module | Constant | Trait | Enum | Other
  datatype SymbolRef = SymbolRef(file: string, symbol: string, kind: SymbolKind)
  datatype Manifest = Manifest(reading: seq<SymbolRef>, writing: seq<SymbolRef>, renaming: seq<SymbolRef>)

  datatype ConflictKind =
    | NoConflict
    | WriteWrite(overlap: seq<SymbolRef>)
    | WriteRead(overlap: seq<SymbolRef>)
    | ReadWrite(overlap: seq<SymbolRef>)
    | RenameVsRead(overlap: seq<SymbolRef>)
    | RenameVsWrite(overlap: seq<SymbolRef>)
    | RenameVsRename(overlap: seq<SymbolRef>)

  /** The entries of `a` that `b` has too, in the order and as often as `a` lists them. */
  function Intersect(a: seq<SymbolRef>, b: seq<SymbolRef>): (overlap: seq<SymbolRef>)
    ensures forall x :: multiset(overlap)[x] == if x in b then multiset(a)[x] else 0
    ensures forall x :: x in overlap <==> x in a && x in b
  {
    if a == [] then []
    else
      var rest := Intersect(a[1..], b);
      assert a == [a[0]] + a[1..];
      if a[0] in b then [a[0]] + rest else rest
  }

  predicate Overlap(a: seq<SymbolRef>, b: seq<SymbolRef>) {
    Intersect(a, b) != []
  }

  lemma OverlapMeans(a: seq<SymbolRef>, b: seq<SymbolRef>)
    ensures Overlap(a, b) <==> exists x :: x in a && x in b
  {
    if Overlap(a, b) {
      assert Intersect(a, b)[0] in Intersect(a, b);
    }
  }

  /** The first overlap found, in the order the cells are tried. */
  function Check(a: Manifest, b: Manifest): ConflictKind {
    if Overlap(a.renaming, b.renaming) then RenameVsRename(Intersect(a.renaming, b.renaming))
    else if Overlap(a.renaming, b.writing) then RenameVsWrite(Intersect(a.renaming, b.writing))
    else if Overlap(a.renaming, b.reading) then RenameVsRead(Intersect(a.renaming, b.reading))
    else if Overlap(a.writing, b.renaming) then RenameVsWrite(Intersect(a.writing, b.renaming))
    else if Overlap(a.reading, b.renaming) then RenameVsRead(Intersect(a.reading, b.renaming))
    else if Overlap(a.writing, b.writing) then WriteWrite(Intersect(a.writing, b.writing))
    else if Overlap(a.writing, b.reading) then WriteRead(Intersect(a.writing, b.reading))
    else if Overlap(a.reading, b.writing) then ReadWrite(Intersect(a.reading, b.writing))
    else NoConflict
  }

  // ---- what the verdict means ------------------------------------------------------------------

  predicate Changes(m: Manifest, s: SymbolRef) {
    s in m.writing || s in m.renaming
  }

  predicate Declares(m: Manifest, s: SymbolRef) {
    s in m.reading || Changes(m, s)
  }

  /** The two share a symbol that at least one of them changes. */
  ghost predicate Clash(a: Manifest, b: Manifest, s: SymbolRef) {
    Declares(a, s) && Declares(b, s) && (Changes(a, s) || Changes(b, s))
  }

  /** Only reads may overlap, and only with reads. */
  ghost predicate OnlyReadsShared(a: Manifest, b: Manifest) {
    forall s :: !Clash(a, b, s)
  }

  lemma EveryOverlap(a: Manifest, b: Manifest)
    ensures Overlap(a.renaming, b.renaming) <==> exists s :: s in a.renaming && s in b.renaming
    ensures Overlap(a.renaming, b.writing) <==> exists s :: s in a.renaming && s in b.writing
    ensures Overlap(a.renaming, b.reading) <==> exists s :: s in a.renaming && s in b.reading
    ensures Overlap(a.writing, b.renaming) <==> exists s :: s in a.writing && s in b.renaming
    ensures Overlap(a.reading, b.renaming) <==> exists s :: s in a.reading && s in b.renaming
    ensures Overlap(a.writing, b.writing) <==> exists s :: s in a.writing && s in b.writing
    ensures Overlap(a.writing, b.reading) <==> exists s :: s in a.writing && s in b.reading
    ensures Overlap(a.reading, b.writing) <==> exists s :: s in a.reading && s in b.writing
  {
    OverlapMeans(a.renaming, b.renaming);
    OverlapMeans(a.renaming, b.writing);
    OverlapMeans(a.renaming, b.reading);
    OverlapMeans(a.writing, b.renaming);
    OverlapMeans(a.reading, b.renaming);
    OverlapMeans(a.writing, b.writing);
    OverlapMeans(a.writing, b.reading);
    OverlapMeans(a.reading, b.writing);
  }

  /** The verdict is clean, from either side, exactly when only reads are shared. */
  lemma CleanMeansOnlyReadsShared(a: Manifest, b: Manifest)
    ensures Check(a, b).NoConflict? <==> OnlyReadsShared(a, b)
    ensures Check(b, a).NoConflict? <==> OnlyReadsShared(a, b)
  {
    CleanOneWay(a, b);
    CleanOneWay(b, a);
    assert OnlyReadsShared(a, b) <==> OnlyReadsShared(b, a) by {
      assert forall s :: Clash(a, b, s) <==> Clash(b, a, s);
    }
  }

  lemma CleanOneWay(a: Manifest, b: Manifest)
    ensures Check(a, b).NoConflict? <==> OnlyReadsShared(a, b)
  {
    if Check(a, b).NoConflict? {
      EveryOverlap(a, b);
    } else {
      var s := Check(a, b).overlap[0];
      assert s in Check(a, b).overlap;
      assert Clash(a, b, s);
    }
  }

  /** What a conflict reports is never empty, and every symbol in it clashes in the way reported. */
  lemma ReportIsReal(a: Manifest, b: Manifest, s: SymbolRef)
    requires !Check(a, b).NoConflict?
    ensures Check(a, b).overlap != []
    ensures s in Check(a, b).overlap ==>
              match Check(a, b) {
                case WriteWrite(_) => s in a.writing && s in b.writing
                case WriteRead(_) => s in a.writing && s in b.reading
                case ReadWrite(_) => s in a.reading && s in b.writing
                case RenameVsRead(_) => (s in a.renaming && s in b.reading) || (s in a.reading && s in b.renaming)
                case RenameVsWrite(_) => (s in a.renaming && s in b.writing) || (s in a.writing && s in b.renaming)
                case RenameVsRename(_) => s in a.renaming && s in b.renaming
              }
  {
  }

  /**
   And it is complete: the report lists every symbol that clashes in the way of the first cell that
   clashes at all, as often as the first of the two lists has it.
   */
  lemma ReportIsComplete(a: Manifest, b: Manifest, s: SymbolRef)
    ensures match Check(a, b) {
              case NoConflict => true
              case WriteWrite(o) => multiset(o)[s] == Shared(a.writing, b.writing, s)
              case WriteRead(o) => multiset(o)[s] == Shared(a.writing, b.reading, s)
              case ReadWrite(o) => multiset(o)[s] == Shared(a.reading, b.writing, s)
              case RenameVsRead(o) =>
                multiset(o)[s] == if Overlap(a.renaming, b.reading) then Shared(a.renaming, b.reading, s)
                                  else Shared(a.reading, b.renaming, s)
              case RenameVsWrite(o) =>
                multiset(o)[s] == if Overlap(a.renaming, b.writing) then Shared(a.renaming, b.writing, s)
                                  else Shared(a.writing, b.renaming, s)
              case RenameVsRename(o) => multiset(o)[s] == Shared(a.renaming, b.renaming, s)
            }
  {
  }

  /** How often the first list has a symbol of the second. */
  ghost function Shared(x: seq<SymbolRef>, y: seq<SymbolRef>, s: SymbolRef): nat {
    if s in y then multiset(x)[s] else 0
  }

  // ---- the order of severity --------------------------------------------------------------------

  datatype Kind = KNone | KReadWrite | KWriteRead | KWriteWrite | KRenameVsRead | KRenameVsWrite | KRenameVsRename

  function KindOf(c: ConflictKind): Kind {
    match c
    case NoConflict => KNone
    case WriteWrite(_) => KWriteWrite
    case WriteRead(_) => KWriteRead
    case ReadWrite(_) => KReadWrite
    case RenameVsRead(_) => KRenameVsRead
    case RenameVsWrite(_) => KRenameVsWrite
    case RenameVsRename(_) => KRenameVsRename
  }

  /** The most severe kind present, in the order the documentation gives. */
  ghost function MostSevere(a: Manifest, b: Manifest): Kind {
    if Overlap(a.renaming, b.renaming) then KRenameVsRename
    else if Overlap(a.renaming, b.writing) || Overlap(a.writing, b.renaming) then KRenameVsWrite
    else if Overlap(a.renaming, b.reading) || Overlap(a.reading, b.renaming) then KRenameVsRead
    else if Overlap(a.writing, b.writing) then KWriteWrite
    else if Overlap(a.writing, b.reading) then KWriteRead
    else if Overlap(a.reading, b.writing) then KReadWrite
    else KNone
  }

  /** A read `a` renames away is reported ahead of a write of `a` to what `b` renames. */
  ghost predicate ReadHidesWrite(a: Manifest, b: Manifest) {
    && !Overlap(a.renaming, b.renaming) && !Overlap(a.renaming, b.writing)
    && Overlap(a.renaming, b.reading) && Overlap(a.writing, b.renaming)
  }

  /** The documented order is kept except in that one case, where the kind reported is too mild. */
  lemma SeverityOrder(a: Manifest, b: Manifest)
    ensures KindOf(Check(a, b)) == MostSevere(a, b) <==> !ReadHidesWrite(a, b)
    ensures ReadHidesWrite(a, b) ==> KindOf(Check(a, b)) == KRenameVsRead && MostSevere(a, b) == KRenameVsWrite
  {
  }

  /** Seen from the other task, a write-read conflict is a read-write one. */
  ghost function Mirror(k: Kind): Kind {
    match k
    case KWriteRead => KReadWrite
    case KReadWrite => KWriteRead
    case _ => k
  }

  /** Both tasks read what the other writes, and write nothing in common. */
  ghost predicate CrossedReads(a: Manifest, b: Manifest) {
    && !Overlap(a.renaming, b.renaming) && !Overlap(a.renaming, b.writing) && !Overlap(a.renaming, b.reading)
    && !Overlap(a.writing, b.renaming) && !Overlap(a.reading, b.renaming) && !Overlap(a.writing, b.writing)
    && Overlap(a.writing, b.reading) && Overlap(a.reading, b.writing)
  }

  lemma OverlapFromEitherSide(a: Manifest, b: Manifest)
    ensures Overlap(b.renaming, a.renaming) == Overlap(a.renaming, b.renaming)
    ensures Overlap(b.writing, a.renaming) == Overlap(a.renaming, b.writing)
    ensures Overlap(b.reading, a.renaming) == Overlap(a.renaming, b.reading)
    ensures Overlap(b.renaming, a.writing) == Overlap(a.writing, b.renaming)
    ensures Overlap(b.renaming, a.reading) == Overlap(a.reading, b.renaming)
    ensures Overlap(b.writing, a.writing) == Overlap(a.writing, b.writing)
    ensures Overlap(b.reading, a.writing) == Overlap(a.writing, b.reading)
    ensures Overlap(b.writing, a.reading) == Overlap(a.reading, b.writing)
  {
    EveryOverlap(a, b);
    EveryOverlap(b, a);
  }

  /** The two sides see mirror images of one conflict in all but three cases. */
  lemma KindFromEitherSide(a: Manifest, b: Manifest)
    ensures KindOf(Check(b, a)) == Mirror(KindOf(Check(a, b)))
       <==> !ReadHidesWrite(a, b) && !ReadHidesWrite(b, a) && !CrossedReads(a, b)
  {
    OverlapFromEitherSide(a, b);
  }

  /** Renaming what the other reads while writing what it renames: the two sides disagree. */
  lemma SidesDisagree(x: SymbolRef, y: SymbolRef)
    requires x != y
    ensures var a, b := Manifest([], [y], [x]), Manifest([x], [], [y]);
            KindOf(Check(a, b)) == KRenameVsRead && KindOf(Check(b, a)) == KRenameVsWrite
  {
    var a, b := Manifest([], [y], [x]), Manifest([x], [], [y]);
    assert x in a.renaming && x in b.reading && y in a.writing && y in b.renaming;
    EveryOverlap(a, b);
    EveryOverlap(b, a);
  }

  // ---- tasks that do not conflict commute ---------------------------------------------------------

  /** What the workspace holds for each symbol; a symbol it lacks does not exist. */
  type Store = map<SymbolRef, string>

  datatype Task = Task(manifest: Manifest, run: Store -> Store)

  ghost predicate SameAt(m: Store, n: Store, s: SymbolRef) {
    (s in m <==> s in n) && (s in m ==> m[s] == n[s])
  }

  /** The task cannot tell the two stores apart. */
  ghost predicate SameView(t: Manifest, m: Store, n: Store) {
    forall s :: Declares(t, s) ==> SameAt(m, n, s)
  }

  /** The task changes only what it declares to change, and its changes depend only on what it declares. */
  ghost predicate Honest(t: Task) {
    && (forall m, s :: !Changes(t.manifest, s) ==> SameAt(t.run(m), m, s))
    && (forall m, n, s :: SameView(t.manifest, m, n) && Changes(t.manifest, s) ==> SameAt(t.run(m), t.run(n), s))
  }

  ghost predicate AllHonest(tasks: seq<Task>) {
    forall i :: 0 <= i < |tasks| ==> Honest(tasks[i])
  }

  ghost predicate Compatible(t: Task, u: Task) {
    Check(t.manifest, u.manifest).NoConflict?
  }

  ghost predicate PairwiseCompatible(tasks: seq<Task>) {
    forall i, j :: 0 <= i < j < |tasks| ==> Compatible(tasks[i], tasks[j])
  }

  ghost function RunAll(tasks: seq<Task>, store: Store): Store {
    if tasks == [] then store else RunAll(tasks[1..], tasks[0].run(store))
  }

  lemma SameStore(m: Store, n: Store)
    requires forall s :: SameAt(m, n, s)
    ensures m == n
  {
    forall s ensures (s in m <==> s in n) && (s in m ==> m[s] == n[s]) {
      assert SameAt(m, n, s);
    }
  }

  lemma CompatibleSwap(t: Task, u: Task)
    requires Compatible(t, u)
    ensures Compatible(u, t)
  {
    CleanMeansOnlyReadsShared(t.manifest, u.manifest);
  }

  /** A compatible task does not change what the other sees. */
  lemma ViewKept(t: Task, u: Task, store: Store)
    requires Honest(u) && Compatible(t, u)
    ensures SameView(t.manifest, u.run(store), store)
  {
    CleanMeansOnlyReadsShared(t.manifest, u.manifest);
    forall s | Declares(t.manifest, s) ensures SameAt(u.run(store), store, s) {
      assert !Clash(t.manifest, u.manifest, s);
    }
  }

  lemma Commute(t: Task, u: Task, store: Store)
    requires Honest(t) && Honest(u) && Compatible(t, u)
    ensures t.run(u.run(store)) == u.run(t.run(store))
  {
    CompatibleSwap(t, u);
    ViewKept(t, u, store);
    ViewKept(u, t, store);
    CleanMeansOnlyReadsShared(t.manifest, u.manifest);
    forall s ensures SameAt(t.run(u.run(store)), u.run(t.run(store)), s) {
      assert !Clash(t.manifest, u.manifest, s);
      CommuteAt(t, u, store, s);
    }
    SameStore(t.run(u.run(store)), u.run(t.run(store)));
  }

  lemma CommuteAt(t: Task, u: Task, store: Store, s: SymbolRef)
    requires Honest(t) && Honest(u) && !Clash(t.manifest, u.manifest, s)
    requires SameView(t.manifest, u.run(store), store) && SameView(u.manifest, t.run(store), store)
    ensures SameAt(t.run(u.run(store)), u.run(t.run(store)), s)
  {
    if Changes(t.manifest, s) {
      assert SameAt(t.run(u.run(store)), t.run(store), s);
      assert SameAt(u.run(t.run(store)), t.run(store), s);
    } else {
      assert SameAt(t.run(u.run(store)), u.run(store), s);
      if Changes(u.manifest, s) {
        assert SameAt(u.run(t.run(store)), u.run(store), s);
      } else {
        assert SameAt(u.run(store), store, s);
        assert SameAt(u.run(t.run(store)), t.run(store), s);
        assert SameAt(t.run(store), store, s);
      }
    }
  }

  /** Any task may be moved to the front. */
  lemma {:induction false} BringForward(tasks: seq<Task>, k: nat, store: Store)
    requires AllHonest(tasks) && PairwiseCompatible(tasks) && k < |tasks|
    ensures RunAll(tasks, store) == RunAll(tasks[..k] + tasks[k + 1..], tasks[k].run(store))
    decreases k
  {
    if k == 0 {
      assert tasks[..0] + tasks[1..] == tasks[1..];
    } else {
      var rest := tasks[1..];
      BringForward(rest, k - 1, tasks[0].run(store));
      Commute(tasks[0], tasks[k], store);
      var others := tasks[..k] + tasks[k + 1..];
      assert others[1..] == rest[..k - 1] + rest[k..] && others[0] == tasks[0];
    }
  }

  lemma {:induction false} TwoPlaces(tasks: seq<Task>, t: Task) returns (i: nat, j: nat)
    requires multiset(tasks)[t] >= 2
    ensures i < j < |tasks| && tasks[i] == t == tasks[j]
  {
    assert tasks == [tasks[0]] + tasks[1..];
    if tasks[0] == t {
      assert t in multiset(tasks[1..]);
      i, j := 0, 0;
      j :| j < |tasks| && 0 < j && tasks[j] == t;
    } else {
      i, j := TwoPlaces(tasks[1..], t);
      i, j := i + 1, j + 1;
    }
  }

  lemma CountTwo(tasks: seq<Task>, i: nat, j: nat)
    requires i < j < |tasks| && tasks[i] == tasks[j]
    ensures multiset(tasks)[tasks[i]] >= 2
  {
    assert tasks == tasks[..j] + [tasks[j]] + tasks[j + 1..];
    assert tasks[..j][i] in multiset(tasks[..j]);
  }

  /** Compatibility of every pair does not depend on the order of the list. */
  lemma StillCompatible(tasks: seq<Task>, order: seq<Task>)
    requires multiset(tasks) == multiset(order) && PairwiseCompatible(tasks)
    ensures PairwiseCompatible(order)
  {
    forall i, j | 0 <= i < j < |order| ensures Compatible(order[i], order[j]) {
      if order[i] == order[j] {
        CountTwo(order, i, j);
        var p, q := TwoPlaces(tasks, order[i]);
      } else {
        assert order[i] in multiset(order) && order[j] in multiset(order);
        var p :| 0 <= p < |tasks| && tasks[p] == order[i];
        var q :| 0 <= q < |tasks| && tasks[q] == order[j];
        if q < p {
          CompatibleSwap(tasks[q], tasks[p]);
        }
      }
    }
  }

  lemma StillHonest(tasks: seq<Task>, order: seq<Task>)
    requires multiset(tasks) == multiset(order) && AllHonest(tasks)
    ensures AllHonest(order)
  {
    forall i | 0 <= i < |order| ensures Honest(order[i]) {
      assert order[i] in multiset(order);
      assert order[i] in tasks;
    }
  }

  /** Where the first task comes in the other order; without it the two still agree. */
  lemma SamePlace(tasks: seq<Task>, order: seq<Task>) returns (k: nat)
    requires tasks != [] && multiset(tasks) == multiset(order)
    ensures k < |order| && order[k] == tasks[0]
    ensures multiset(tasks[1..]) == multiset(order[..k] + order[k + 1..])
  {
    assert tasks[0] in multiset(order);
    k :| 0 <= k < |order| && order[k] == tasks[0];
    assert order == order[..k] + [order[k]] + order[k + 1..];
    assert tasks == [tasks[0]] + tasks[1..];
    var others := multiset(order[..k] + order[k + 1..]);
    assert multiset(order) == others + multiset{order[k]};
    assert multiset(tasks) == multiset(tasks[1..]) + multiset{tasks[0]};
    assert others == multiset(order) - multiset{tasks[0]};
  }

  /** Tasks that are pairwise free of conflict leave the same store in whatever order they run. */
  lemma {:induction false} AnyOrderSameStore(tasks: seq<Task>, order: seq<Task>, store: Store)
    requires multiset(tasks) == multiset(order)
    requires AllHonest(tasks) && PairwiseCompatible(tasks)
    ensures RunAll(tasks, store) == RunAll(order, store)
    decreases |tasks|
  {
    if tasks == [] {
      assert |multiset(order)| == |order|;
    } else {
      StillCompatible(tasks, order);
      StillHonest(tasks, order);
      var k := SamePlace(tasks, order);
      BringForward(order, k, store);
      AnyOrderSameStore(tasks[1..], order[..k] + order[k + 1..], tasks[0].run(store));
    }
  }

  /** And each of them sees what it would see if it ran first. */
  lemma {:induction false} EachSeesTheStart(tasks: seq<Task>, k: nat, store: Store)
    requires AllHonest(tasks) && PairwiseCompatible(tasks) && k < |tasks|
    ensures SameView(tasks[k].manifest, RunAll(tasks[..k], store), store)
    decreases k
  {
    if k > 0 {
      var rest := tasks[1..];
      EachSeesTheStart(rest, k - 1, tasks[0].run(store));
      FirstThenRest(tasks, k, store);
      CompatibleSwap(tasks[0], tasks[k]);
      ViewKept(tasks[k], tasks[0], store);
      SameViewTransitive(tasks[k].manifest, RunAll(tasks[..k], store), tasks[0].run(store), store);
    }
  }

  lemma FirstThenRest(tasks: seq<Task>, k: nat, store: Store)
    requires 0 < k < |tasks|
    ensures RunAll(tasks[..k], store) == RunAll(tasks[1..][..k - 1], tasks[0].run(store))
    ensures tasks[1..][k - 1] == tasks[k]
  {
    assert tasks[..k][1..] == tasks[1..][..k - 1];
  }

  lemma SameViewTransitive(t: Manifest, m: Store, n: Store, o: Store)
    requires SameView(t, m, n) && SameView(t, n, o)
    ensures SameView(t, m, o)
  {
    forall s | Declares(t, s) ensures SameAt(m, o, s) {
      assert SameAt(m, n, s) && SameAt(n, o, s);
    }
  }

  /** No conflict is reported needlessly: some tasks so declared do see each other's changes. */
  lemma ConflictMatters(a: Manifest, b: Manifest) returns (t: Task, u: Task, store: Store)
    requires !Check(a, b).NoConflict?
    ensures t.manifest == a && u.manifest == b && Honest(t) && Honest(u)
    ensures !SameView(a, u.run(store), store) || !SameView(b, t.run(store), store)
  {
    CleanMeansOnlyReadsShared(a, b);
    var s :| Clash(a, b, s);
    store := map[];
    t := if Changes(a, s) then Setter(a, s) else Idle(a);
    u := if Changes(b, s) then Setter(b, s) else Idle(b);
    assert !SameAt(store[s := ""], store, s);
  }

  ghost function Setter(m: Manifest, s: SymbolRef): (t: Task)
    requires Changes(m, s)
    ensures Honest(t) && t.manifest == m && forall store :: t.run(store) == store[s := ""]
  {
    var t := Task(m, store => store[s := ""]);
    assert Honest(t) by {
      assert forall x, y, u :: SameView(m, x, y) && Changes(m, u) ==> Declares(m, u) && SameAt(x, y, u);
      assert forall x, y, u :: SameAt(x, y, u) ==> SameAt(x[s := ""], y[s := ""], u);
    }
    t
  }

  ghost function Idle(m: Manifest): (t: Task)
    ensures Honest(t) && t.manifest == m
  {
    Task(m, store => store)
  }
}
