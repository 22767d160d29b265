/** What holds over every history of migration runs. */
module MigrationLaws {
  import opened Text
  import opened CanonicalText
  import opened FixtureChains
  import opened MigrationRunner

  // ---- one run only ever appends, and keeps the ledger and the executions in step ----

  function RowsFor(es: seq<Execution>, digest: string -> string): (r: seq<LedgerRow>)
    ensures |r| == |es| && forall i | 0 <= i < |es| :: r[i] == RowFor(es[i], digest)
  {
    if es == [] then [] else RowsFor(es[..|es| - 1], digest) + [RowFor(es[|es| - 1], digest)]
  }

  /** `after` is `st` with the executions `new_` committed, each with the row for the text it ran. */
  ghost predicate Grown(st: State, new_: seq<Execution>, after: State, digest: string -> string) {
    after.executed == st.executed + new_ && after.ledger == st.ledger + RowsFor(new_, digest)
  }

  lemma {:induction false} RowsForAppends(a: seq<Execution>, b: seq<Execution>, digest: string -> string)
    ensures RowsFor(a + b, digest) == RowsFor(a, digest) + RowsFor(b, digest)
  {
    assert (a + b)[..|a| + |b|] == a + b;
    hide RowsFor;
    var all, parts := RowsFor(a + b, digest), RowsFor(a, digest) + RowsFor(b, digest);
    forall i | 0 <= i < |a| + |b| ensures all[i] == parts[i] {
      assert (a + b)[i] == if i < |a| then a[i] else b[i - |a|];
    }
  }

  lemma GrownTwice(st: State, a: seq<Execution>, mid: State, b: seq<Execution>, after: State, digest: string -> string)
    requires Grown(st, a, mid, digest) && Grown(mid, b, after, digest)
    ensures Grown(st, a + b, after, digest)
  {
    hide RowsFor;
    RowsForAppends(a, b, digest);
    Regroup(st.executed, a, b);
    Regroup(st.ledger, RowsFor(a, digest), RowsFor(b, digest));
  }

  lemma Regroup<T>(a: seq<T>, b: seq<T>, c: seq<T>)
    ensures (a + b) + c == a + (b + c)
  {
  }

  /** The executions the apply loop commits from file `k` on. */
  ghost function NewFrom(names: seq<string>, k: nat, done: set<string>, files: map<string, string>,
                         commits: string -> bool): (r: seq<Execution>)
    requires k <= |names| && forall n | n in names :: n in files
    ensures forall e | e in r :: e.filename in names[k..] && e.filename !in done && e.text == Canonical(files[e.filename])
    decreases |names| - k
  {
    if k == |names| then []
    else
      assert names[k..] == [names[k]] + names[k + 1..];
      if names[k] in done then NewFrom(names, k + 1, done, files, commits)
      else if !commits(names[k]) then []
      else [Execution(names[k], Canonical(files[names[k]]))] + NewFrom(names, k + 1, done, files, commits)
  }

  ghost predicate Completes(names: seq<string>, k: nat, done: set<string>, commits: string -> bool) {
    forall i | k <= i < |names| && names[i] !in done :: commits(names[i])
  }

  lemma {:induction false} ApplyGrows(st: State, names: seq<string>, k: nat, done: set<string>, files: map<string, string>,
                                      digest: string -> string, commits: string -> bool, count: nat)
    requires k <= |names| && forall n | n in names :: n in files
    ensures var (after, outcome) := ApplyFrom(st, names, k, done, files, digest, commits, count);
            var new_ := NewFrom(names, k, done, files, commits);
            && Grown(st, new_, after, digest)
            && outcome == (if Completes(names, k, done, commits) then UpToDate(count + |new_|) else outcome)
            && (outcome.UpToDate? <==> Completes(names, k, done, commits))
            && (outcome.UpToDate? || outcome.Failed?)
    decreases |names| - k
  {
    if k < |names| {
      if names[k] in done {
        ApplyGrows(st, names, k + 1, done, files, digest, commits, count);
      } else if commits(names[k]) {
        var e := Execution(names[k], Canonical(files[names[k]]));
        var next := Committed(st, e, digest);
        assert RowsFor([e], digest) == [RowFor(e, digest)];
        assert Grown(st, [e], next, digest);
        hide Grown, RowsFor;
        ApplyGrows(next, names, k + 1, done, files, digest, commits, count + 1);
        var (after, outcome) := ApplyFrom(next, names, k + 1, done, files, digest, commits, count + 1);
        GrownTwice(st, [e], next, NewFrom(names, k + 1, done, files, commits), after, digest);
      }
    }
  }

  /** A run gets as far as applying when its mode is admitted, its directory is there and its ledger checks out. */
  ghost predicate Proceeds(st: State, s: Setting, digest: string -> string) {
    !ModeOf(s, digest).Refused? && s.dir.Present? && forall i | 0 <= i < |st.ledger| :: Verified(st.ledger[i], s, digest)
  }

  /** What one run commits. */
  ghost function NewIn(st: State, s: Setting, digest: string -> string, commits: string -> bool): seq<Execution> {
    if !Proceeds(st, s, digest) then []
    else NewFrom(Sorted(SqlNames(s.dir.files)), 0, Names(st.ledger), s.dir.files, commits)
  }

  predicate RefusedRun(o: Outcome) {
    o.ModeRefused? || o.NoListing? || o.LedgerRefused?
  }

  lemma RunCases(st: State, s: Setting, digest: string -> string, commits: string -> bool)
    ensures if Proceeds(st, s, digest) then
              Run(st, s, digest, commits) ==
              ApplyFrom(st, Sorted(SqlNames(s.dir.files)), 0, Names(st.ledger), s.dir.files, digest, commits, 0)
            else Run(st, s, digest, commits).0 == st && RefusedRun(Run(st, s, digest, commits).1)
  {
    hide Verified, ModeOf, ApplyFrom;
  }

  /**
   * One run: it commits `NewIn` and writes exactly their rows. A run that is refused changes nothing at all, so
   * nothing is ever applied over a ledger row without a resolvable body of the recorded digest.
   */
  lemma RunGrows(st: State, s: Setting, digest: string -> string, commits: string -> bool)
    ensures Grown(st, NewIn(st, s, digest, commits), Run(st, s, digest, commits).0, digest)
    ensures RefusedRun(Run(st, s, digest, commits).1) <==> !Proceeds(st, s, digest)
    ensures !Proceeds(st, s, digest) ==> Run(st, s, digest, commits).0 == st
  {
    RunCases(st, s, digest, commits);
    assert Proceeds(st, s, digest) ==> s.dir.Present?;
    hide Run, Proceeds, ApplyFrom, NewFrom;
    if Proceeds(st, s, digest) {
      ApplyGrows(st, Sorted(SqlNames(s.dir.files)), 0, Names(st.ledger), s.dir.files, digest, commits, 0);
    } else {
      assert RowsFor([], digest) == [];
    }
  }

  /** A run in an admitted mode over a present directory refuses the ledger exactly when some row is not verified. */
  lemma RefusesIffUnverified(st: State, s: Setting, digest: string -> string, commits: string -> bool)
    requires !ModeOf(s, digest).Refused? && s.dir.Present?
    ensures Run(st, s, digest, commits).1.LedgerRefused? <==>
            exists i :: 0 <= i < |st.ledger| && !Verified(st.ledger[i], s, digest)
  {
    hide Verified, ModeOf, ApplyFrom;
    RunGrows(st, s, digest, commits);
  }

  // ---- histories ----

  datatype Event = Event(setting: Setting, commits: string -> bool)

  ghost function History(st: State, events: seq<Event>, digest: string -> string): State {
    if events == [] then st
    else
      var last := events[|events| - 1];
      Run(History(st, events[..|events| - 1], digest), last.setting, digest, last.commits).0
  }

  ghost predicate DistinctNames(ledger: seq<LedgerRow>) {
    forall i, j | 0 <= i < j < |ledger| :: ledger[i].filename != ledger[j].filename
  }

  /** The text is the canonical form of a file of the directory. */
  ghost predicate FromDirectory(e: Execution, d: Directory) {
    d.Present? && e.filename in d.files && IsSql(e.filename) && e.text == Canonical(d.files[e.filename])
  }

  /** Run `i` of the history executed it, from its own directory. */
  ghost predicate RanIn(st: State, events: seq<Event>, digest: string -> string, e: Execution, i: int) {
    && 0 <= i < |events|
    && e in NewIn(History(st, events[..i], digest), events[i].setting, digest, events[i].commits)
    && FromDirectory(e, events[i].setting.dir)
  }

  ghost predicate FromItsRun(st: State, events: seq<Event>, digest: string -> string, e: Execution) {
    exists i :: RanIn(st, events, digest, e, i)
  }

  /** The names are pairwise different and in listing order. */
  ghost predicate InOrder(r: seq<Execution>) {
    forall i, j | 0 <= i < j < |r| :: r[i].filename != r[j].filename && Precedes(r[i].filename, r[j].filename)
  }

  lemma InOrderCons(e: Execution, rest: seq<Execution>)
    requires InOrder(rest)
    requires forall x | x in rest :: e.filename != x.filename && Precedes(e.filename, x.filename)
    ensures InOrder([e] + rest)
  {
    assert forall j | 0 <= j < |rest| :: rest[j] in rest;
  }

  lemma {:induction false} NewInOrder(names: seq<string>, k: nat, done: set<string>, files: map<string, string>,
                                      commits: string -> bool)
    requires k <= |names| && StrictlySorted(names) && forall n | n in names :: n in files
    ensures InOrder(NewFrom(names, k, done, files, commits))
    decreases |names| - k
  {
    if k < |names| {
      NewInOrder(names, k + 1, done, files, commits);
      var rest := NewFrom(names, k + 1, done, files, commits);
      forall x | x in rest ensures names[k] != x.filename && Precedes(names[k], x.filename) {
        var i :| 0 <= i < |names[k + 1..]| && names[k + 1..][i] == x.filename;
        assert names[k + 1 + i] == x.filename;
      }
      InOrderCons(Execution(names[k], Canonical(files[names[k]])), rest);
    }
  }

  /** Within one run the migrations are applied in name order, none of them a name the ledger already held. */
  lemma RunInOrder(st: State, s: Setting, digest: string -> string, commits: string -> bool)
    ensures var r := NewIn(st, s, digest, commits);
            && InOrder(r)
            && (forall e | e in r :: e.filename !in Names(st.ledger))
            && (forall e | e in r :: s.dir.Present? && e.filename in SqlNames(s.dir.files)
                                     && e.text == Canonical(s.dir.files[e.filename]))
  {
    if Proceeds(st, s, digest) {
      assert s.dir.Present?;
      var names, r := Sorted(SqlNames(s.dir.files)), NewIn(st, s, digest, commits);
      assert r == NewFrom(names, 0, Names(st.ledger), s.dir.files, commits);
      NewInOrder(names, 0, Names(st.ledger), s.dir.files, commits);
      hide NewFrom, Proceeds, NewIn, InOrder, Canonical;
      assert names[0..] == names;
    }
  }

  lemma DistinctGrows(st: State, new_: seq<Execution>, after: State, digest: string -> string)
    requires DistinctNames(st.ledger) && Grown(st, new_, after, digest)
    requires InOrder(new_)
    requires forall e | e in new_ :: e.filename !in Names(st.ledger)
    ensures DistinctNames(after.ledger)
  {
    var n := |st.ledger|;
    forall i, j | 0 <= i < j < |after.ledger| ensures after.ledger[i].filename != after.ledger[j].filename {
      if j >= n {
        assert after.ledger[j] == RowFor(new_[j - n], digest);
        assert new_[j - n] in new_;
        if i < n {
          assert st.ledger[i] in st.ledger;
        } else {
          assert after.ledger[i] == RowFor(new_[i - n], digest);
        }
      }
    }
  }

  /** All the executions a history commits, in order. */
  ghost function NewOver(st: State, events: seq<Event>, digest: string -> string): seq<Execution> {
    if events == [] then []
    else
      var before, last := events[..|events| - 1], events[|events| - 1];
      NewOver(st, before, digest) + NewIn(History(st, before, digest), last.setting, digest, last.commits)
  }

  /**
   * Over every history: rows are never changed or removed, every row the runner wrote carries the digest of the exact
   * text it executed, names stay distinct (so no name is executed twice, nor one the ledger already held), and every
   * executed text is the canonical form of a file in the directory of the run that executed it.
   */
  lemma {:induction false} HistoryIsSafe(st: State, events: seq<Event>, digest: string -> string)
    requires DistinctNames(st.ledger)
    ensures Grown(st, NewOver(st, events, digest), History(st, events, digest), digest)
    ensures DistinctNames(History(st, events, digest).ledger)
    ensures forall e | e in NewOver(st, events, digest) :: FromItsRun(st, events, digest, e)
  {
    if events == [] {
      assert RowsFor([], digest) == [];
    } else {
      var before, last := events[..|events| - 1], events[|events| - 1];
      var mid := History(st, before, digest);
      var a, b := NewOver(st, before, digest), NewIn(mid, last.setting, digest, last.commits);
      HistoryIsSafe(st, before, digest);
      RunGrows(mid, last.setting, digest, last.commits);
      RunInOrder(mid, last.setting, digest, last.commits);
      var after := History(st, events, digest);
      GrownTwice(st, a, mid, b, after, digest);
      DistinctGrows(mid, b, after, digest);
    }
    forall e | e in NewOver(st, events, digest) ensures FromItsRun(st, events, digest, e) {
      EachFromItsRun(st, events, digest, e);
    }
  }

  lemma {:induction false} EachFromItsRun(st: State, events: seq<Event>, digest: string -> string, e: Execution)
    requires e in NewOver(st, events, digest)
    ensures FromItsRun(st, events, digest, e)
  {
    hide NewIn, History, Run;
    var n := |events| - 1;
    var before, last := events[..n], events[n];
    var mid := History(st, before, digest);
    if e in NewOver(st, before, digest) {
      EachFromItsRun(st, before, digest, e);
      var i :| RanIn(st, before, digest, e, i);
      assert before[..i] == events[..i];
      assert RanIn(st, events, digest, e, i);
    } else {
      FromThisRun(mid, last.setting, digest, last.commits, e);
      assert RanIn(st, events, digest, e, n);
    }
  }

  lemma FromThisRun(st: State, s: Setting, digest: string -> string, commits: string -> bool, e: Execution)
    requires e in NewIn(st, s, digest, commits)
    ensures FromDirectory(e, s.dir)
  {
    hide NewIn;
    RunInOrder(st, s, digest, commits);
  }

  /** No name is executed twice, and none that the ledger held before. */
  lemma NothingTwice(st: State, events: seq<Event>, digest: string -> string, i: nat, j: nat)
    requires DistinctNames(st.ledger)
    requires i < j < |NewOver(st, events, digest)|
    ensures var new_ := NewOver(st, events, digest);
            new_[i].filename != new_[j].filename && new_[i].filename !in Names(st.ledger)
  {
    hide NewOver, History;
    var new_, after := NewOver(st, events, digest), History(st, events, digest);
    HistoryIsSafe(st, events, digest);
    var n := |st.ledger|;
    assert after.ledger[n + i].filename == new_[i].filename && after.ledger[n + j].filename == new_[j].filename;
    forall row | row in st.ledger ensures row.filename != new_[i].filename {
      var k :| 0 <= k < n && st.ledger[k] == row;
      assert after.ledger[k] == row;
    }
  }

  // ---- admission ----

  /** In fixture mode every body executed has a digest the named chain declares for that file name. */
  lemma FixtureRunsOnlyDeclared(st: State, s: Setting, digest: string -> string, commits: string -> bool, e: Execution)
    requires ModeOf(s, digest).Fixture? && e in NewIn(st, s, digest, commits)
    ensures var chain := s.allowlist.value[s.chain.value];
            e.filename in chain.files && digest(e.text) in chain.files[e.filename].variants
  {
    RunInOrder(st, s, digest, commits);
    hide NewIn, Listed, SqlNames, Canonical;
    ListedNames(s.dir.files);
  }

  /**
   * A body once executed binds every later production run: unless the canonical directory holds that name with a body
   * of the same digest, the run refuses and leaves the state as it was.
   */
  lemma ForeignBodyStopsProduction(st: State, events: seq<Event>, digest: string -> string, e: Execution,
                                   s: Setting, commits: string -> bool)
    requires DistinctNames(st.ledger) && e in NewOver(st, events, digest)
    requires ModeOf(s, digest).Production? && s.canonical == s.dir && s.dir.Present?
    requires e.filename !in s.dir.files || digest(Canonical(s.dir.files[e.filename])) != digest(e.text)
    ensures var now := History(st, events, digest);
            Run(now, s, digest, commits).0 == now && Run(now, s, digest, commits).1.LedgerRefused?
  {
    var now, row := History(st, events, digest), RowFor(e, digest);
    assert !Verified(row, s, digest);
    hide Run, History, NewOver, Verified, RowFor, Proceeds, ModeOf;
    var k := RowOfExecuted(st, events, digest, e);
    RunGrows(now, s, digest, commits);
    RefusesIffUnverified(now, s, digest, commits);
  }

  /** Whatever a history executed has its row in the ledger. */
  lemma RowOfExecuted(st: State, events: seq<Event>, digest: string -> string, e: Execution) returns (k: nat)
    requires DistinctNames(st.ledger) && e in NewOver(st, events, digest)
    ensures k < |History(st, events, digest).ledger| && History(st, events, digest).ledger[k] == RowFor(e, digest)
  {
    hide History, NewOver, RowFor, FromItsRun, DistinctNames;
    var new_ := NewOver(st, events, digest);
    HistoryIsSafe(st, events, digest);
    var i :| 0 <= i < |new_| && new_[i] == e;
    k := |st.ledger| + i;
  }

  // ---- convergence ----

  ghost function Always(): string -> bool { (_: string) => true }

  function NamesOf(es: seq<Execution>): set<string> {
    set e | e in es :: e.filename
  }

  lemma NamesGrow(st: State, new_: seq<Execution>, after: State, digest: string -> string)
    requires Grown(st, new_, after, digest)
    ensures Names(after.ledger) == Names(st.ledger) + NamesOf(new_)
  {
    forall n ensures n in Names(after.ledger) <==> n in Names(st.ledger) + NamesOf(new_) {
      if n in Names(st.ledger) {
        var row :| row in st.ledger && row.filename == n;
        assert row in after.ledger;
      }
      if n in NamesOf(new_) {
        var i :| 0 <= i < |new_| && new_[i].filename == n;
        assert after.ledger[|st.ledger| + i] == RowFor(new_[i], digest);
        assert after.ledger[|st.ledger| + i] in after.ledger;
      }
      if n in Names(after.ledger) {
        var i :| 0 <= i < |after.ledger| && after.ledger[i].filename == n;
        if i < |st.ledger| {
          assert st.ledger[i] in st.ledger;
        } else {
          assert after.ledger[i] == RowFor(new_[i - |st.ledger|], digest);
          assert new_[i - |st.ledger|] in new_;
        }
      }
    }
  }

  /** Only the names still ahead matter to what remains to be applied. */
  lemma {:induction false} OnlyAheadMatters(names: seq<string>, k: nat, a: set<string>, b: set<string>,
                                            files: map<string, string>, commits: string -> bool)
    requires k <= |names| && forall n | n in names :: n in files
    requires forall i | k <= i < |names| :: names[i] in a <==> names[i] in b
    ensures NewFrom(names, k, a, files, commits) == NewFrom(names, k, b, files, commits)
    decreases |names| - k
  {
    hide Canonical;
    if k < |names| {
      assert names[k] in a <==> names[k] in b;
      if names[k] in a || commits(names[k]) { OnlyAheadMatters(names, k + 1, a, b, files, commits); }
    }
  }

  /** Stopping anywhere and starting over commits what was left, in the same order. */
  lemma {:induction false} ResumeFrom(names: seq<string>, k: nat, done: set<string>, files: map<string, string>,
                                      first: string -> bool)
    requires k <= |names| && StrictlySorted(names) && forall n | n in names :: n in files
    ensures var part := NewFrom(names, k, done, files, first);
            part + NewFrom(names, k, done + NamesOf(part), files, Always()) == NewFrom(names, k, done, files, Always())
    decreases |names| - k
  {
    var part := NewFrom(names, k, done, files, first);
    if k < |names| {
      if names[k] in done {
        ResumeFrom(names, k + 1, done, files, first);
      } else if first(names[k]) {
        ResumeFrom(names, k + 1, done, files, first);
        var e, rest := Execution(names[k], Canonical(files[names[k]])), NewFrom(names, k + 1, done, files, first);
        assert NamesOf(part) == {names[k]} + NamesOf(rest) by {
          assert part == [e] + rest;
          forall n ensures n in NamesOf(part) <==> n == names[k] || n in NamesOf(rest) {
            if n == names[k] { assert e in part && e.filename == n; }
            if n in NamesOf(rest) { var x :| x in rest && x.filename == n; assert x in part; }
          }
        }
        OnlyAheadMatters(names, k + 1, done + NamesOf(rest), done + NamesOf(part), files, Always());
        assert names[k] in done + NamesOf(part);
        assert [e] + (rest + NewFrom(names, k + 1, done + NamesOf(part), files, Always()))
            == part + NewFrom(names, k + 1, done + NamesOf(part), files, Always());
      } else {
        assert part == [] && done + NamesOf(part) == done;
      }
    } else {
      assert part == [];
    }
  }

  /** The rows a run adds are verified by the next run over the same directories. */
  lemma StillProceeds(st: State, s: Setting, digest: string -> string, commits: string -> bool)
    requires Proceeds(st, s, digest)
    ensures Proceeds(Run(st, s, digest, commits).0, s, digest)
  {
    var after, new_ := Run(st, s, digest, commits).0, NewIn(st, s, digest, commits);
    RunGrows(st, s, digest, commits);
    RunInOrder(st, s, digest, commits);
    forall i | 0 <= i < |after.ledger| ensures Verified(after.ledger[i], s, digest) {
      if i < |st.ledger| {
        assert after.ledger[i] == st.ledger[i];
      } else {
        var e := new_[i - |st.ledger|];
        assert e in new_ && after.ledger[i] == RowFor(e, digest);
      }
    }
  }

  /** A run that failed anywhere, run again on the same directories, ends where one uninterrupted run ends. */
  lemma Resumes(st: State, s: Setting, digest: string -> string, commits: string -> bool)
    ensures Run(Run(st, s, digest, commits).0, s, digest, Always()).0 == Run(st, s, digest, Always()).0
  {
    if Proceeds(st, s, digest) {
      var mid := Run(st, s, digest, commits).0;
      var names := Sorted(SqlNames(s.dir.files));
      var part := NewIn(st, s, digest, commits);
      StillProceeds(st, s, digest, commits);
      RunGrows(st, s, digest, commits);
      RunGrows(st, s, digest, Always());
      RunGrows(mid, s, digest, Always());
      NamesGrow(st, part, mid, digest);
      ResumeFrom(names, 0, Names(st.ledger), s.dir.files, commits);
      GrownTwice(st, part, mid, NewIn(mid, s, digest, Always()), Run(mid, s, digest, Always()).0, digest);
    } else {
      RunGrows(st, s, digest, commits);
    }
  }

  ghost function Repeated(st: State, s: Setting, digest: string -> string, tries: seq<string -> bool>): State
    decreases |tries|
  {
    if tries == [] then st else Repeated(Run(st, s, digest, tries[0]).0, s, digest, tries[1..])
  }

  /** However many runs fail, and wherever, the first that does not fail ends where one uninterrupted run ends. */
  lemma {:induction false} Converges(st: State, s: Setting, digest: string -> string, tries: seq<string -> bool>)
    ensures Run(Repeated(st, s, digest, tries), s, digest, Always()).0 == Run(st, s, digest, Always()).0
    decreases |tries|
  {
    hide Run;
    if tries != [] {
      Converges(Run(st, s, digest, tries[0]).0, s, digest, tries[1..]);
      Resumes(st, s, digest, tries[0]);
    }
  }

  lemma {:induction false} NothingLeft(st: State, names: seq<string>, k: nat, done: set<string>, files: map<string, string>,
                                       digest: string -> string, commits: string -> bool)
    requires k <= |names| && forall n | n in names :: n in files && n in done
    ensures ApplyFrom(st, names, k, done, files, digest, commits, 0) == (st, UpToDate(0))
    decreases |names| - k
  {
    if k < |names| { NothingLeft(st, names, k + 1, done, files, digest, commits); }
  }

  lemma {:induction false} AllNamed(names: seq<string>, k: nat, done: set<string>, files: map<string, string>, i: nat)
    requires k <= i < |names| && forall n | n in names :: n in files
    ensures names[i] in done + NamesOf(NewFrom(names, k, done, files, Always()))
    decreases |names| - k
  {
    var r := NewFrom(names, k, done, files, Always());
    if i == k {
      if names[k] !in done { assert r[0] in r && r[0].filename == names[k]; }
    } else {
      AllNamed(names, k + 1, done, files, i);
      var rest := NewFrom(names, k + 1, done, files, Always());
      if names[i] !in done {
        var e :| e in rest && e.filename == names[i];
        assert e in r;
      }
    }
  }

  /** A run after a completed one applies nothing, refuses nothing, and needs no transaction to commit. */
  lemma FurtherRunIsNoOp(st: State, s: Setting, digest: string -> string, commits: string -> bool)
    requires Proceeds(st, s, digest)
    ensures var done := Run(st, s, digest, Always()).0;
            Run(done, s, digest, commits) == (done, UpToDate(0))
  {
    assert s.dir.Present?;
    hide Run, NewFrom, Proceeds, ApplyFrom;
    var done, names := Run(st, s, digest, Always()).0, Sorted(SqlNames(s.dir.files));
    StillProceeds(st, s, digest, Always());
    EverythingNamed(st, s, digest);
    RunCases(done, s, digest, commits);
    NothingLeft(done, names, 0, Names(done.ledger), s.dir.files, digest, commits);
  }

  lemma EverythingNamed(st: State, s: Setting, digest: string -> string)
    requires Proceeds(st, s, digest)
    ensures forall n | n in Sorted(SqlNames(s.dir.files)) :: n in Names(Run(st, s, digest, Always()).0.ledger)
  {
    hide Run, NewFrom, ApplyFrom;
    var done, names := Run(st, s, digest, Always()).0, Sorted(SqlNames(s.dir.files));
    RunGrows(st, s, digest, Always());
    NamesGrow(st, NewIn(st, s, digest, Always()), done, digest);
    forall n | n in names ensures n in Names(done.ledger) {
      var i :| 0 <= i < |names| && names[i] == n;
      AllNamed(names, 0, Names(st.ledger), s.dir.files, i);
    }
  }

  // ---- line endings ----

  ghost predicate SameCanonically(a: Directory, b: Directory) {
    (a.Missing? <==> b.Missing?)
    && (a.Present? ==> a.files.Keys == b.files.Keys
                       && forall f | f in a.files :: Canonical(a.files[f]) == Canonical(b.files[f]))
  }

  lemma SameBodies(a: Setting, b: Setting, filename: string)
    requires SameCanonically(a.dir, b.dir) && SameCanonically(a.canonical, b.canonical)
    ensures ResolveBody(a, filename) == ResolveBody(b, filename)
  {
  }

  lemma {:induction false} SameRefusals(ledger: seq<LedgerRow>, a: Setting, b: Setting, digest: string -> string)
    requires SameCanonically(a.dir, b.dir) && SameCanonically(a.canonical, b.canonical)
    ensures Refusals(ledger, a, digest) == Refusals(ledger, b, digest)
  {
    hide ResolveBody, SameCanonically, Verified;
    if ledger != [] {
      SameRefusals(ledger[..|ledger| - 1], a, b, digest);
      SameBodies(a, b, ledger[|ledger| - 1].filename);
    }
  }

  lemma {:induction false} SameApplication(st: State, names: seq<string>, k: nat, done: set<string>, a: map<string, string>,
                                           b: map<string, string>, digest: string -> string, commits: string -> bool, count: nat)
    requires k <= |names| && forall n | n in names :: n in a && n in b && Canonical(a[n]) == Canonical(b[n])
    ensures ApplyFrom(st, names, k, done, a, digest, commits, count) == ApplyFrom(st, names, k, done, b, digest, commits, count)
    decreases |names| - k
  {
    if k < |names| {
      if names[k] in done {
        SameApplication(st, names, k + 1, done, a, b, digest, commits, count);
      } else if commits(names[k]) {
        var e := Execution(names[k], Canonical(a[names[k]]));
        SameApplication(Committed(st, e, digest), names, k + 1, done, a, b, digest, commits, count + 1);
      }
    }
  }

  /** A run sees only canonical texts: two trees that agree canonically give the same run, refusals included. */
  lemma RunSeesCanonicalText(st: State, a: Setting, b: Setting, digest: string -> string, commits: string -> bool)
    requires SameCanonically(a.dir, b.dir) && SameCanonically(a.canonical, b.canonical)
    requires a.same == b.same && a.chain == b.chain && a.allowlist == b.allowlist
    ensures Run(st, a, digest, commits) == Run(st, b, digest, commits)
  {
    if a.dir.Present? {
      assert SqlNames(a.dir.files) == SqlNames(b.dir.files);
      SameRefusals(st.ledger, a, b, digest);
      SameApplication(st, Sorted(SqlNames(a.dir.files)), 0, Names(st.ledger), a.dir.files, b.dir.files, digest, commits, 0);
    }
    assert ModeOf(a, digest) == ModeOf(b, digest);
  }

  function CheckedOut(d: Directory): Directory {
    if d.Missing? then d else Present(map f | f in d.files :: Checkout(d.files[f]))
  }

  ghost predicate LfOnly(d: Directory) {
    d.Present? ==> forall f | f in d.files :: !Contains(d.files[f], "\r\n")
  }

  /** Checking both trees out with CRLF line endings changes nothing about any run. */
  lemma CheckoutChangesNothing(st: State, s: Setting, digest: string -> string, commits: string -> bool)
    requires LfOnly(s.dir) && LfOnly(s.canonical)
    ensures Run(st, s.(dir := CheckedOut(s.dir), canonical := CheckedOut(s.canonical)), digest, commits)
            == Run(st, s, digest, commits)
  {
    CheckoutCanonical(s.dir);
    CheckoutCanonical(s.canonical);
    RunSeesCanonicalText(st, s, s.(dir := CheckedOut(s.dir), canonical := CheckedOut(s.canonical)), digest, commits);
  }

  lemma CheckoutCanonical(d: Directory)
    requires LfOnly(d)
    ensures SameCanonically(d, CheckedOut(d))
  {
    if d.Present? {
      forall f | f in d.files ensures Canonical(Checkout(d.files[f])) == Canonical(d.files[f]) {
        CheckoutUndone(d.files[f]);
        CanonicalFixed(d.files[f]);
      }
    }
  }
}
