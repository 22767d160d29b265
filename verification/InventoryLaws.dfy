/** What stands in the inventory's rows and problems, statement by statement. */
module InventoryLaws {
  import opened Inventory

  /** A statement that changes retained rows or refuses to proceed. */
  predicate Changes(s: Statement) {
    s.verb == "INSERT" || s.verb == "UPDATE" || s.verb == "DELETE" || s.raises
  }

  /** The row of a statement: its own number and key, and how it is accounted for, coverage before declaration. */
  ghost predicate RowFor(r: Row, s: Statement, coverage: map<string, string>, ds: seq<Declaration>) {
    && (Changes(s) || s.key in coverage)
    && r.ordinal == s.ordinal && r.key == s.key
    && match r.classification
       case ByControl(id) => s.key in coverage && coverage[s.key] == id
       case Declared(kind) => s.key !in coverage && LastDeclaredAs(ds, s.key, kind)
       case Unaccounted => s.key !in coverage && forall d | d in ds :: d.key != s.key
  }

  lemma ClassifyMeans(s: Statement, coverage: map<string, string>, ds: seq<Declaration>, r: Row)
    ensures var b := Book(coverage, DeclaredByKey(ds));
            Listed(s, b) && r == RowOf(s, b) <==> RowFor(r, s, coverage, ds)
  {
    hide DeclaredByKey, LastDeclaredAs;
    DeclaredKeys(ds, s.key);
    if r.classification.Declared? { LastIsKept(ds, s.key, r.classification.kind); }
    assert r == Row(r.ordinal, r.key, r.classification);
  }

  /** The rows are exactly those of the statements that have one. */
  lemma {:induction false} RowsMean(all: seq<Statement>, coverage: map<string, string>, ds: seq<Declaration>, n: nat, r: Row)
    requires n <= |all|
    ensures r in RowsUpTo(all, Book(coverage, DeclaredByKey(ds)), n) <==>
            exists i :: 0 <= i < n && RowFor(r, all[i], coverage, ds)
  {
    hide RowFor, DeclaredByKey, Listed, RowOf;
    if n > 0 {
      RowsMean(all, coverage, ds, n - 1, r);
      ClassifyMeans(all[n - 1], coverage, ds, r);
    }
  }

  /** What each problem about a statement means. */
  ghost predicate Faulty(p: Problem, s: Statement, coverage: map<string, string>, ds: seq<Declaration>) {
    match p
    case DoublyClassified(ordinal) => ordinal == s.ordinal && s.key in coverage && exists d :: d in ds && d.key == s.key
    case GuardCannotRefuse(ordinal) =>
      ordinal == s.ordinal && Changes(s) && !s.raises && s.key !in coverage && LastDeclaredAs(ds, s.key, RefusalGuard)
    case NothingAccountsFor(ordinal) =>
      ordinal == s.ordinal && Changes(s) && s.key !in coverage && forall d | d in ds :: d.key != s.key
    case DeclarationMatchesNothing(_) => false
  }

  lemma ProblemsOfMean(s: Statement, coverage: map<string, string>, ds: seq<Declaration>, p: Problem)
    ensures p in ProblemsOf(s, Book(coverage, DeclaredByKey(ds))) <==> Faulty(p, s, coverage, ds)
  {
    hide DeclaredByKey, LastDeclaredAs;
    DeclaredKeys(ds, s.key);
    LastIsKept(ds, s.key, RefusalGuard);
  }

  lemma {:induction false} StatementProblems(all: seq<Statement>, coverage: map<string, string>, ds: seq<Declaration>, n: nat,
                                             p: Problem)
    requires n <= |all|
    ensures p in ProblemsUpTo(all, Book(coverage, DeclaredByKey(ds)), n) <==>
            exists i :: 0 <= i < n && Faulty(p, all[i], coverage, ds)
  {
    hide Faulty, DeclaredByKey, ProblemsOf;
    if n > 0 {
      StatementProblems(all, coverage, ds, n - 1, p);
      ProblemsOfMean(all[n - 1], coverage, ds, p);
    }
  }

  lemma {:induction false} UnmatchedMean(ds: seq<Declaration>, used: set<string>, n: nat, p: Problem)
    requires n <= |ds|
    ensures p in UnmatchedUpTo(ds, used, n) <==>
            exists i :: 0 <= i < n && ds[i].key !in used && p == DeclarationMatchesNothing(ds[i].key)
  {
    if n > 0 { UnmatchedMean(ds, used, n - 1, p); }
  }

  /** Each problem reported is real and each real one is reported: about a statement, or a declaration that matches none. */
  lemma ProblemsMean(all: seq<Statement>, coverage: map<string, string>, ds: seq<Declaration>, p: Problem)
    ensures p in Problems(all, coverage, ds) <==>
            || (exists i :: 0 <= i < |all| && Faulty(p, all[i], coverage, ds))
            || (exists d :: d in ds && p == DeclarationMatchesNothing(d.key) && !SomeStatementHas(all, d.key))
  {
    hide Faulty, DeclaredByKey, ProblemsUpTo, UnmatchedUpTo, UsedUpTo, SomeStatementHas;
    var b := Book(coverage, DeclaredByKey(ds));
    var used := UsedUpTo(all, b, |all|);
    StatementProblems(all, coverage, ds, |all|, p);
    UnmatchedMean(ds, used, |ds|, p);
    forall d | d in ds ensures d.key in used <==> SomeStatementHas(all, d.key) { UsedMeans(all, coverage, ds, d); }
    if d :| d in ds && p == DeclarationMatchesNothing(d.key) && !SomeStatementHas(all, d.key) {
      var i :| 0 <= i < |ds| && ds[i] == d;
    }
  }

  lemma UsedMeans(all: seq<Statement>, coverage: map<string, string>, ds: seq<Declaration>, d: Declaration)
    requires d in ds
    ensures d.key in UsedUpTo(all, Book(coverage, DeclaredByKey(ds)), |all|) <==> SomeStatementHas(all, d.key)
  {
    hide DeclaredByKey, UsedUpTo;
    UsedKeys(all, Book(coverage, DeclaredByKey(ds)), |all|, d.key);
    DeclaredKeys(ds, d.key);
  }
}
