/** The reconciliation inventory of scripts/reconciliation-inventory.ts, over parsed statements. */
module Inventory {
  import opened Text
  import opened SpanDiff

  // ---- which key each control covers ----

  datatype Anchors = Anchors(from: string, to: string)

  datatype Control = Control(id: string)

  /** The span the diff reports for a cut, by `SpanDiff.DeletionRecovered`. */
  function Recovered(sql: string, c: Cut): string
    requires c.from <= c.to <= |sql|
  {
    Rotate(sql[c.from..c.to], Slide(sql, c))
  }

  /** The key a control contributes, when it has anchors and they cut a statement. */
  function KeyOf(sql: string, control: Control, anchors: map<string, Anchors>, key: string -> string): Option<string> {
    if control.id !in anchors then None
    else
      var cut := StatementCut(sql, anchors[control.id].from, anchors[control.id].to);
      if cut.Ok? then Some(key(Recovered(sql, cut.value))) else None
  }

  predicate Removable(sql: string, control: Control, anchors: map<string, Anchors>) {
    control.id in anchors ==> StatementCut(sql, anchors[control.id].from, anchors[control.id].to).Ok?
  }

  /** The coverage map after the first `n` controls: a later control with the same key replaces an earlier one. */
  function CoverageUpTo(sql: string, controls: seq<Control>, anchors: map<string, Anchors>, key: string -> string, n: nat)
    : map<string, string>
    requires n <= |controls|
  {
    if n == 0 then map[]
    else
      var before := CoverageUpTo(sql, controls, anchors, key, n - 1);
      match KeyOf(sql, controls[n - 1], anchors, key)
      case None => before
      case Some(k) => before[k := controls[n - 1].id]
  }

  method Recover(sql: string, cut: Cut) returns (removed: string)
    requires cut.from <= cut.to <= |sql|
    ensures removed == Recovered(sql, cut)
  {
    var prefix, suffix;
    prefix, suffix, removed := Diff(sql, CutOut(sql, cut));
    DeletionRecovered(sql, cut, prefix, suffix);
  }

  method ControlCoverage(sql: string, controls: seq<Control>, anchors: map<string, Anchors>, key: string -> string)
    returns (r: Result<map<string, string>, RemovalError>)
    ensures r.Ok? <==> forall i | 0 <= i < |controls| :: Removable(sql, controls[i], anchors)
    ensures r.Ok? ==> r.value == CoverageUpTo(sql, controls, anchors, key, |controls|)
  {
    hide StatementCut, Recovered;
    var byKey: map<string, string> := map[];
    for n := 0 to |controls|
      invariant forall i | 0 <= i < n :: Removable(sql, controls[i], anchors)
      invariant byKey == CoverageUpTo(sql, controls, anchors, key, n)
    {
      if controls[n].id in anchors {
        var a := anchors[controls[n].id];
        var cut := StatementCut(sql, a.from, a.to);
        if cut.Err? {
          assert !Removable(sql, controls[n], anchors);
          return Err(cut.error);
        }
        var removed := Recover(sql, cut.value);
        byKey := byKey[key(removed) := controls[n].id];
      }
    }
    r := Ok(byKey);
  }

  /** Control `i` is the last of the first `n` whose recovered span has key `k`. */
  ghost predicate LastWithKey(sql: string, controls: seq<Control>, anchors: map<string, Anchors>, key: string -> string,
                              n: nat, k: string, i: nat)
    requires n <= |controls|
  {
    && i < n && KeyOf(sql, controls[i], anchors, key) == Some(k)
    && forall j | i < j < n :: KeyOf(sql, controls[j], anchors, key) != Some(k)
  }

  /** A key is covered exactly when some control's recovered span has it, and it names the last such control. */
  lemma {:induction false} CoverageMeans(sql: string, controls: seq<Control>, anchors: map<string, Anchors>,
                                         key: string -> string, n: nat, k: string)
    requires n <= |controls|
    ensures var c := CoverageUpTo(sql, controls, anchors, key, n);
            && (k in c <==> exists i | 0 <= i < n :: KeyOf(sql, controls[i], anchors, key) == Some(k))
            && forall i: nat | LastWithKey(sql, controls, anchors, key, n, k, i) :: k in c && c[k] == controls[i].id
  {
    hide KeyOf, LastWithKey;
    LastStep(sql, controls, anchors, key, n, k);
    if n > 0 { CoverageMeans(sql, controls, anchors, key, n - 1, k); }
  }

  lemma LastStep(sql: string, controls: seq<Control>, anchors: map<string, Anchors>, key: string -> string, n: nat, k: string)
    requires n <= |controls|
    ensures forall i: nat | LastWithKey(sql, controls, anchors, key, n, k, i) ::
              n > 0 && if i == n - 1 then KeyOf(sql, controls[i], anchors, key) == Some(k)
              else KeyOf(sql, controls[n - 1], anchors, key) != Some(k) && LastWithKey(sql, controls, anchors, key, n - 1, k, i)
  {
    hide KeyOf;
  }

  // ---- the key guard ----

  /** Each later copy of a key is reported with the first copy. */
  method KeyCollisions(keys: seq<string>) returns (collisions: seq<(nat, nat)>)
    ensures collisions == [] <==> Distinct(keys)
    ensures forall c | c in collisions :: c.0 < c.1 < |keys| && keys[c.0] == keys[c.1] && keys[c.0] !in keys[..c.0]
  {
    var seen: map<string, nat> := map[];
    collisions := [];
    for i := 0 to |keys|
      invariant forall k :: k in seen <==> k in keys[..i]
      invariant forall k | k in seen :: seen[k] < i && keys[seen[k]] == k && k !in keys[..seen[k]]
      invariant collisions == [] <==> Distinct(keys[..i])
      invariant forall c | c in collisions :: c.0 < c.1 < i && keys[c.0] == keys[c.1] && keys[c.0] !in keys[..c.0]
    {
      assert keys[..i + 1] == keys[..i] + [keys[i]];
      if keys[i] !in seen {
        seen := seen[keys[i] := i];
      } else {
        assert !Distinct(keys[..i + 1]) by { assert keys[..i + 1][seen[keys[i]]] == keys[..i + 1][i]; }
        collisions := collisions + [(seen[keys[i]], i)];
      }
    }
    assert keys[..|keys|] == keys;
  }

  // ---- the inventory ----

  datatype Statement = Statement(ordinal: nat, verb: string, raises: bool, key: string)

  datatype Kind = NotLoadBearing | RefusalGuard

  datatype Declaration = Declaration(key: string, kind: Kind)

  datatype Classification = ByControl(id: string) | Declared(kind: Kind) | Unaccounted

  datatype Row = Row(ordinal: nat, key: string, classification: Classification)

  datatype Problem =
    | DoublyClassified(ordinal: nat)
    | GuardCannotRefuse(ordinal: nat)
    | NothingAccountsFor(ordinal: nat)
    | DeclarationMatchesNothing(key: string)

  datatype Totals = Totals(statements: nat, reconciliations: nat, covered: nat, notLoadBearing: nat, guards: nat,
                           unaccounted: nat, ddlCovered: int, controls: nat)

  predicate IsReconciliation(s: Statement) {
    s.verb in ["INSERT", "UPDATE", "DELETE"] || s.raises
  }

  /** As built from the declaration list: of two declarations of one key, the later one is kept. */
  function DeclaredByKey(ds: seq<Declaration>): map<string, Kind> {
    if ds == [] then map[] else DeclaredByKey(ds[..|ds| - 1])[ds[|ds| - 1].key := ds[|ds| - 1].kind]
  }

  lemma {:induction false} DeclaredKeys(ds: seq<Declaration>, k: string)
    ensures k in DeclaredByKey(ds) <==> exists d :: d in ds && d.key == k
  {
    if ds != [] {
      var rest, last := ds[..|ds| - 1], ds[|ds| - 1];
      assert ds == rest + [last];
      DeclaredKeys(rest, k);
      if last.key == k { assert last in ds; }
    }
  }

  datatype Book = Book(coverage: map<string, string>, declared: map<string, Kind>)

  function Classify(s: Statement, b: Book): Classification {
    if s.key in b.coverage then ByControl(b.coverage[s.key])
    else if s.key in b.declared then Declared(b.declared[s.key])
    else Unaccounted
  }

  /** A reconciliation always has a row; any other statement has one when a control covers it. */
  predicate Listed(s: Statement, b: Book) {
    IsReconciliation(s) || s.key in b.coverage
  }

  function RowOf(s: Statement, b: Book): Row {
    Row(s.ordinal, s.key, Classify(s, b))
  }

  function RowsUpTo(all: seq<Statement>, b: Book, n: nat): seq<Row>
    requires n <= |all|
  {
    if n == 0 then []
    else
      var s := all[n - 1];
      RowsUpTo(all, b, n - 1) + if Listed(s, b) then [RowOf(s, b)] else []
  }

  function ProblemsOf(s: Statement, b: Book): seq<Problem> {
    (if s.key in b.coverage && s.key in b.declared then [DoublyClassified(s.ordinal)] else [])
    + if !IsReconciliation(s) then []
      else match Classify(s, b)
        case ByControl(_) => []
        case Declared(kind) => if kind == RefusalGuard && !s.raises then [GuardCannotRefuse(s.ordinal)] else []
        case Unaccounted => [NothingAccountsFor(s.ordinal)]
  }

  function ProblemsUpTo(all: seq<Statement>, b: Book, n: nat): seq<Problem>
    requires n <= |all|
  {
    if n == 0 then [] else ProblemsUpTo(all, b, n - 1) + ProblemsOf(all[n - 1], b)
  }

  function UnmatchedUpTo(ds: seq<Declaration>, used: set<string>, n: nat): seq<Problem>
    requires n <= |ds|
  {
    if n == 0 then []
    else UnmatchedUpTo(ds, used, n - 1) + if ds[n - 1].key in used then [] else [DeclarationMatchesNothing(ds[n - 1].key)]
  }

  function UsedUpTo(all: seq<Statement>, b: Book, n: nat): set<string>
    requires n <= |all|
  {
    if n == 0 then {} else UsedUpTo(all, b, n - 1) + if all[n - 1].key in b.declared then {all[n - 1].key} else {}
  }

  function Problems(all: seq<Statement>, coverage: map<string, string>, ds: seq<Declaration>): seq<Problem> {
    var b := Book(coverage, DeclaredByKey(ds));
    ProblemsUpTo(all, b, |all|) + UnmatchedUpTo(ds, UsedUpTo(all, b, |all|), |ds|)
  }

  function Count<T>(s: seq<T>, p: T -> bool): nat {
    if s == [] then 0 else Count(s[..|s| - 1], p) + if p(s[|s| - 1]) then 1 else 0
  }

  /** A row of the reconciliation set, found through its ordinal. */
  predicate OfReconciliation(all: seq<Statement>, r: Row) {
    1 <= r.ordinal <= |all| && IsReconciliation(all[r.ordinal - 1])
  }

  /** The two classifications fall in one bucket: the id of a covering control does not matter. */
  predicate SameBucket(c: Classification, d: Classification) {
    if d.ByControl? then c.ByControl? else c == d
  }

  function RowIn(all: seq<Statement>, c: Classification): Row -> bool {
    (r: Row) => OfReconciliation(all, r) && SameBucket(r.classification, c)
  }

  function RowOfReconciliation(all: seq<Statement>): Row -> bool {
    (r: Row) => OfReconciliation(all, r)
  }

  function Totalled(all: seq<Statement>, rows: seq<Row>, controls: nat): Totals {
    Totals(
      |all|,
      Count(all, IsReconciliation),
      Count(rows, RowIn(all, ByControl(""))),
      Count(rows, RowIn(all, Declared(NotLoadBearing))),
      Count(rows, RowIn(all, Declared(RefusalGuard))),
      Count(rows, RowIn(all, Unaccounted)),
      |rows| - Count(rows, RowOfReconciliation(all)),
      controls)
  }

  method BuildInventory(all: seq<Statement>, coverage: map<string, string>, ds: seq<Declaration>, controls: nat)
    returns (rows: seq<Row>, problems: seq<Problem>, totals: Totals)
    ensures rows == RowsUpTo(all, Book(coverage, DeclaredByKey(ds)), |all|)
    ensures problems == Problems(all, coverage, ds)
    ensures totals == Totalled(all, rows, controls)
  {
    var declared := DeclaredByKey(ds);
    ghost var b := Book(coverage, declared);
    rows, problems := [], [];
    var used: set<string> := {};
    for n := 0 to |all|
      invariant rows == RowsUpTo(all, b, n)
      invariant problems == ProblemsUpTo(all, b, n)
      invariant used == UsedUpTo(all, b, n)
    {
      var s := all[n];
      ghost var before := problems;
      if s.key in coverage && s.key in declared {
        problems := problems + [DoublyClassified(s.ordinal)];
      }
      if s.key in declared {
        used := used + {s.key};
      }
      if !IsReconciliation(s) {
        if s.key in coverage {
          rows := rows + [Row(s.ordinal, s.key, ByControl(coverage[s.key]))];
        }
        continue;
      }
      if s.key in coverage {
        rows := rows + [Row(s.ordinal, s.key, ByControl(coverage[s.key]))];
      } else if s.key in declared {
        rows := rows + [Row(s.ordinal, s.key, Declared(declared[s.key]))];
        if declared[s.key] == RefusalGuard && !s.raises {
          problems := problems + [GuardCannotRefuse(s.ordinal)];
        }
      } else {
        rows := rows + [Row(s.ordinal, s.key, Unaccounted)];
        problems := problems + [NothingAccountsFor(s.ordinal)];
      }
      assert problems == before + ProblemsOf(s, b);
    }
    ghost var found := problems;
    for n := 0 to |ds|
      invariant problems == found + UnmatchedUpTo(ds, used, n)
    {
      if ds[n].key !in used {
        problems := problems + [DeclarationMatchesNothing(ds[n].key)];
      }
    }
    totals := Totalled(all, rows, controls);
  }

  // ---- conservation ----

  /** Statements are numbered from 1 in file order. */
  predicate Numbered(all: seq<Statement>) {
    forall i | 0 <= i < |all| :: all[i].ordinal == i + 1
  }

  function StatementIn(b: Book, c: Classification): Statement -> bool {
    (s: Statement) => IsReconciliation(s) && SameBucket(Classify(s, b), c)
  }

  function CoveredDdl(b: Book): Statement -> bool {
    (s: Statement) => !IsReconciliation(s) && s.key in b.coverage
  }

  /** Counting rows is counting the statements they stand for. */
  lemma {:induction false} RowsCountStatements(all: seq<Statement>, b: Book, n: nat, p: Row -> bool, q: Statement -> bool)
    requires n <= |all|
    requires forall i | 0 <= i < n :: q(all[i]) <==> Listed(all[i], b) && p(RowOf(all[i], b))
    ensures Count(RowsUpTo(all, b, n), p) == Count(all[..n], q)
  {
    hide Classify, Listed;
    if n > 0 {
      RowsCountStatements(all, b, n - 1, p, q);
      assert all[..n][..n - 1] == all[..n - 1];
      assert q(all[n - 1]) <==> Listed(all[n - 1], b) && p(RowOf(all[n - 1], b));
      var rows := RowsUpTo(all, b, n - 1);
      assert (rows + [RowOf(all[n - 1], b)])[..|rows|] == rows;
      assert rows + [] == rows;
    }
  }

  lemma {:induction false} CountAll<T>(s: seq<T>, p: T -> bool)
    requires forall x | x in s :: p(x)
    ensures Count(s, p) == |s|
  {
    if s != [] { CountAll(s[..|s| - 1], p); }
  }

  /** A count splits along any case distinction. */
  lemma {:induction false} CountSplits<T>(s: seq<T>, p: T -> bool, q: T -> bool, r: T -> bool)
    requires forall x :: p(x) <==> q(x) || r(x)
    requires forall x :: !(q(x) && r(x))
    ensures Count(s, p) == Count(s, q) + Count(s, r)
  {
    if s != [] { CountSplits(s[..|s| - 1], p, q, r); }
  }

  /**
   * No statement is lost or counted twice: each bucket holds as many rows as reconciliations of its class, the four
   * make up the reconciliations, and every other row is a statement outside that set that a control covers.
   */
  lemma InventoryConserves(all: seq<Statement>, b: Book, controls: nat)
    requires Numbered(all)
    ensures var t := Totalled(all, RowsUpTo(all, b, |all|), controls);
            && t.reconciliations == t.covered + t.notLoadBearing + t.guards + t.unaccounted
            && t.covered == Count(all, StatementIn(b, ByControl("")))
            && t.notLoadBearing == Count(all, StatementIn(b, Declared(NotLoadBearing)))
            && t.guards == Count(all, StatementIn(b, Declared(RefusalGuard)))
            && t.unaccounted == Count(all, StatementIn(b, Unaccounted))
            && t.ddlCovered == Count(all, CoveredDdl(b))
  {
    hide IsReconciliation, Listed, SameBucket, Classify;
    RowsAreStatements(all, b, ByControl(""));
    RowsAreStatements(all, b, Declared(NotLoadBearing));
    RowsAreStatements(all, b, Declared(RefusalGuard));
    RowsAreStatements(all, b, Unaccounted);
    ReconciliationRows(all, b);
    ListedRows(all, b);
    BucketsPartition(all, b);
  }

  lemma RowsAreStatements(all: seq<Statement>, b: Book, c: Classification)
    requires Numbered(all)
    ensures Count(RowsUpTo(all, b, |all|), RowIn(all, c)) == Count(all, StatementIn(b, c))
  {
    hide Classify, SameBucket, Count, RowsUpTo;
    assert all[..|all|] == all;
    RowsCountStatements(all, b, |all|, RowIn(all, c), StatementIn(b, c));
  }

  lemma ReconciliationRows(all: seq<Statement>, b: Book)
    requires Numbered(all)
    ensures Count(RowsUpTo(all, b, |all|), RowOfReconciliation(all)) == Count(all, IsReconciliation)
  {
    assert all[..|all|] == all;
    RowsCountStatements(all, b, |all|, RowOfReconciliation(all), IsReconciliation);
  }

  lemma BucketsPartition(all: seq<Statement>, b: Book)
    ensures Count(all, IsReconciliation) ==
            Count(all, StatementIn(b, ByControl(""))) + Count(all, StatementIn(b, Declared(NotLoadBearing)))
            + Count(all, StatementIn(b, Declared(RefusalGuard))) + Count(all, StatementIn(b, Unaccounted))
  {
    var control, unaccounted := StatementIn(b, ByControl("")), StatementIn(b, Unaccounted);
    var bearing, guard := StatementIn(b, Declared(NotLoadBearing)), StatementIn(b, Declared(RefusalGuard));
    var declared := (s: Statement) => bearing(s) || guard(s);
    var found := (s: Statement) => control(s) || declared(s);
    CountSplits(all, declared, bearing, guard);
    CountSplits(all, found, control, declared);
    forall x: Statement ensures IsReconciliation(x) <==> found(x) || unaccounted(x) {
      match Classify(x, b)
      case ByControl(_) =>
      case Declared(NotLoadBearing) =>
      case Declared(RefusalGuard) =>
      case Unaccounted =>
    }
    CountSplits(all, IsReconciliation, found, unaccounted);
  }

  lemma ListedRows(all: seq<Statement>, b: Book)
    ensures |RowsUpTo(all, b, |all|)| == Count(all, IsReconciliation) + Count(all, CoveredDdl(b))
  {
    var rows := RowsUpTo(all, b, |all|);
    var every, listed := (r: Row) => true, (s: Statement) => Listed(s, b);
    assert all[..|all|] == all;
    RowsCountStatements(all, b, |all|, every, listed);
    CountAll(rows, every);
    CountSplits(all, listed, IsReconciliation, CoveredDdl(b));
  }

  // ---- what a clean inventory means ----

  /** A declaration of the list says this of the key. */
  ghost predicate DeclaredAs(ds: seq<Declaration>, k: string, kind: Kind) {
    Declaration(k, kind) in ds
  }

  /** The last declaration of the key says this of it. */
  ghost predicate LastDeclaredAs(ds: seq<Declaration>, k: string, kind: Kind) {
    exists i :: 0 <= i < |ds| && ds[i] == Declaration(k, kind) && forall j | i < j < |ds| :: ds[j].key != k
  }

  lemma {:induction false} LastIsKept(ds: seq<Declaration>, k: string, kind: Kind)
    ensures k in DeclaredByKey(ds) && DeclaredByKey(ds)[k] == kind <==> LastDeclaredAs(ds, k, kind)
  {
    if ds != [] {
      var n := |ds| - 1;
      LastIsKept(ds[..n], k, kind);
      if ds[n].key != k {
        if i :| 0 <= i < n && ds[..n][i] == Declaration(k, kind) && forall j | i < j < n :: ds[..n][j].key != k {
          assert ds[i] == Declaration(k, kind) && forall j | i < j < |ds| :: ds[j].key != k by {
            assert forall j | i < j < n :: ds[j] == ds[..n][j];
          }
        }
        if i :| 0 <= i < |ds| && ds[i] == Declaration(k, kind) && forall j | i < j < |ds| :: ds[j].key != k {
          assert ds[..n][i] == ds[i] && forall j | i < j < n :: ds[..n][j] == ds[j];
        }
      } else if ds[n].kind == kind {
        assert ds[n] == Declaration(k, kind);
      }
    }
  }

  ghost predicate Declares(ds: seq<Declaration>, k: string) {
    DeclaredAs(ds, k, NotLoadBearing) || DeclaredAs(ds, k, RefusalGuard)
  }

  lemma DeclaresKey(ds: seq<Declaration>, k: string)
    ensures Declares(ds, k) <==> k in DeclaredByKey(ds)
  {
    DeclaredKeys(ds, k);
    if d :| d in ds && d.key == k {
      match d.kind
      case NotLoadBearing => assert d == Declaration(k, NotLoadBearing);
      case RefusalGuard => assert d == Declaration(k, RefusalGuard);
    }
  }

  /** What the problems test: the statement is accounted for, as its last declaration has it. */
  ghost predicate Accounted(s: Statement, coverage: map<string, string>, ds: seq<Declaration>) {
    && (IsReconciliation(s) ==> s.key in coverage || Declares(ds, s.key))
    && !(s.key in coverage && Declares(ds, s.key))
    && (IsReconciliation(s) && LastDeclaredAs(ds, s.key, RefusalGuard) ==> s.raises)
  }

  lemma {:induction false} StatementsClean(all: seq<Statement>, coverage: map<string, string>, ds: seq<Declaration>, n: nat)
    requires n <= |all|
    ensures ProblemsUpTo(all, Book(coverage, DeclaredByKey(ds)), n) == []
            <==> forall i | 0 <= i < n :: Accounted(all[i], coverage, ds)
  {
    hide LastDeclaredAs, Declares, DeclaredByKey;
    if n > 0 {
      StatementsClean(all, coverage, ds, n - 1);
      DeclaresKey(ds, all[n - 1].key);
      LastIsKept(ds, all[n - 1].key, RefusalGuard);
    }
  }

  lemma {:induction false} UsedKeys(all: seq<Statement>, b: Book, n: nat, k: string)
    requires n <= |all|
    ensures k in UsedUpTo(all, b, n) <==> k in b.declared && exists i :: 0 <= i < n && all[i].key == k
  {
    if n > 0 { UsedKeys(all, b, n - 1, k); }
  }

  lemma {:induction false} UnmatchedClean(ds: seq<Declaration>, used: set<string>, n: nat)
    requires n <= |ds|
    ensures UnmatchedUpTo(ds, used, n) == [] <==> forall i | 0 <= i < n :: ds[i].key in used
  {
    if n > 0 { UnmatchedClean(ds, used, n - 1); }
  }

  ghost predicate SomeStatementHas(all: seq<Statement>, k: string) {
    exists i :: 0 <= i < |all| && all[i].key == k
  }

  /**
   * A run reports no problem exactly when every reconciliation is covered or declared, no statement is both, each that
   * is last declared a guard raises, and every declaration matches a statement.
   */
  lemma CleanInventory(all: seq<Statement>, coverage: map<string, string>, ds: seq<Declaration>)
    ensures Problems(all, coverage, ds) == [] <==>
            && (forall i | 0 <= i < |all| :: Accounted(all[i], coverage, ds))
            && (forall i | 0 <= i < |ds| :: SomeStatementHas(all, ds[i].key))
  {
    hide Accounted;
    var b := Book(coverage, DeclaredByKey(ds));
    var used := UsedUpTo(all, b, |all|);
    StatementsClean(all, coverage, ds, |all|);
    UnmatchedClean(ds, used, |ds|);
    forall i | 0 <= i < |ds| ensures ds[i].key in used <==> SomeStatementHas(all, ds[i].key) {
      UsedKeys(all, b, |all|, ds[i].key);
      DeclaredKeys(ds, ds[i].key);
      assert ds[i] in ds;
    }
  }

  /** The statement is accounted for in one way only: by a control, or by declarations that all say the same. */
  ghost predicate AccountedOnce(s: Statement, coverage: map<string, string>, ds: seq<Declaration>) {
    Accounted(s, coverage, ds) && !(DeclaredAs(ds, s.key, NotLoadBearing) && DeclaredAs(ds, s.key, RefusalGuard))
  }

  ghost predicate Consistent(ds: seq<Declaration>) {
    forall d, e | d in ds && e in ds && d.key == e.key :: d.kind == e.kind
  }

  /** After a clean run every statement is accounted for in one way only exactly when no two declarations contradict. */
  lemma CleanIsOnce(all: seq<Statement>, coverage: map<string, string>, ds: seq<Declaration>)
    requires Problems(all, coverage, ds) == []
    ensures (forall i | 0 <= i < |all| :: AccountedOnce(all[i], coverage, ds)) <==> Consistent(ds)
  {
    hide Problems, Accounted;
    CleanInventory(all, coverage, ds);
    if d, e :| d in ds && e in ds && d.key == e.key && d.kind != e.kind {
      var n :| 0 <= n < |ds| && ds[n] == d;
      var i :| 0 <= i < |all| && all[i].key == d.key;
      assert d == Declaration(d.key, d.kind) && e == Declaration(d.key, e.kind);
      assert !AccountedOnce(all[i], coverage, ds);
    }
  }

  /** Every declaration of a refusal guard is of statements that raise. */
  ghost predicate GuardsRaise(all: seq<Statement>, ds: seq<Declaration>) {
    forall i | 0 <= i < |all| && DeclaredAs(ds, all[i].key, RefusalGuard) :: all[i].raises
  }

  /** The check reaches the declaration: its statement is a reconciliation, and no later declaration overrules it. */
  ghost predicate GuardChecked(s: Statement, ds: seq<Declaration>) {
    IsReconciliation(s) && LastDeclaredAs(ds, s.key, RefusalGuard)
  }

  /**
   * A clean inventory does not by itself mean that every declared refusal guard raises: the check sits on a path that
   * only reconciliations reach, and sees only the last declaration of a key. It does exactly when each statement
   * declared a guard is so checked, or raises although a later declaration overrules that one.
   */
  lemma CleanGuardsRaise(all: seq<Statement>, coverage: map<string, string>, ds: seq<Declaration>)
    requires Problems(all, coverage, ds) == []
    ensures GuardsRaise(all, ds) <==>
            forall i | 0 <= i < |all| && DeclaredAs(ds, all[i].key, RefusalGuard) ::
              IsReconciliation(all[i]) && (LastDeclaredAs(ds, all[i].key, RefusalGuard) || all[i].raises)
    ensures (forall i | 0 <= i < |all| && DeclaredAs(ds, all[i].key, RefusalGuard) :: GuardChecked(all[i], ds))
            ==> GuardsRaise(all, ds)
  {
    hide Problems, LastDeclaredAs, Declares, SomeStatementHas;
    CleanInventory(all, coverage, ds);
    assert forall i | 0 <= i < |all| :: Accounted(all[i], coverage, ds);
  }

  /** A `DO` block that has stopped raising, still declared a guard, is reported by nothing. */
  lemma SilentGuard(key: string)
    ensures Problems([Statement(1, "DO", false, key)], map[], [Declaration(key, RefusalGuard)]) == []
    ensures !GuardsRaise([Statement(1, "DO", false, key)], [Declaration(key, RefusalGuard)])
  {
    var all, ds := [Statement(1, "DO", false, key)], [Declaration(key, RefusalGuard)];
    assert ds[0] == Declaration(key, RefusalGuard);
    CleanInventory(all, map[], ds);
    assert all[0].key == key;
    assert SomeStatementHas(all, key);
  }

  /** Nor is an `UPDATE` declared a guard, when a later declaration says something else of it. */
  lemma OverruledGuard(key: string)
    ensures var all := [Statement(1, "UPDATE", false, key)];
            var ds := [Declaration(key, RefusalGuard), Declaration(key, NotLoadBearing)];
            Problems(all, map[], ds) == [] && !GuardsRaise(all, ds) && !AccountedOnce(all[0], map[], ds)
  {
    var all := [Statement(1, "UPDATE", false, key)];
    var ds := [Declaration(key, RefusalGuard), Declaration(key, NotLoadBearing)];
    assert ds[0] == Declaration(key, RefusalGuard) && ds[1] == Declaration(key, NotLoadBearing);
    assert !LastDeclaredAs(ds, key, RefusalGuard) by { assert ds[1].key == key; }
    CleanInventory(all, map[], ds);
    assert all[0].key == key;
    assert SomeStatementHas(all, key);
  }
}
