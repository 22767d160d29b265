/** The migration runner of scripts/migrate.ts: one run against a database, and its ledger check. */
module MigrationRunner {
  import opened Text
  import opened CanonicalText
  import opened FixtureChains

  const ALGORITHM := "sha256-canonical-lf"

  datatype LedgerRow = LedgerRow(filename: string, checksum: Option<string>, algorithm: Option<string>)

  /** A migration whose transaction committed: its name and the exact text that ran. */
  datatype Execution = Execution(filename: string, text: string)

  datatype State = State(ledger: seq<LedgerRow>, executed: seq<Execution>)

  datatype RefusalKind = MissingBody | UnverifiableChecksum | UnsupportedAlgorithm | ChecksumDrift

  datatype Refusal = Refusal(kind: RefusalKind, filename: string)

  datatype Outcome =
    | ModeRefused
    | NoListing
    | LedgerRefused(refusals: seq<Refusal>)
    | Failed(filename: string, applied: nat)
    | UpToDate(applied: nat)

  // ---- the ledger check ----

  function BodyIn(d: Directory, filename: string): Option<string> {
    if d.Present? && filename in d.files then Some(Canonical(d.files[filename])) else None
  }

  /** The run's own directory first, then the canonical one. */
  function ResolveBody(s: Setting, filename: string): Option<string> {
    if BodyIn(s.dir, filename).Some? then BodyIn(s.dir, filename) else BodyIn(s.canonical, filename)
  }

  /** The body this run can see is the body the row says was applied. */
  predicate Verified(row: LedgerRow, s: Setting, digest: string -> string) {
    && ResolveBody(s, row.filename).Some? && row.checksum.Some? && row.algorithm == Some(ALGORITHM)
    && digest(ResolveBody(s, row.filename).value) == row.checksum.value
  }

  function RefusalOf(row: LedgerRow, s: Setting, digest: string -> string): Option<RefusalKind> {
    if ResolveBody(s, row.filename).None? then Some(MissingBody)
    else if row.checksum.None? then Some(UnverifiableChecksum)
    else if row.algorithm != Some(ALGORITHM) then Some(UnsupportedAlgorithm)
    else if digest(ResolveBody(s, row.filename).value) != row.checksum.value then Some(ChecksumDrift)
    else None
  }

  function Refusals(ledger: seq<LedgerRow>, s: Setting, digest: string -> string): (r: seq<Refusal>)
    ensures r == [] <==> forall i | 0 <= i < |ledger| :: Verified(ledger[i], s, digest)
  {
    if ledger == [] then []
    else
      var last := ledger[|ledger| - 1];
      Refusals(ledger[..|ledger| - 1], s, digest)
      + if RefusalOf(last, s, digest).Some? then [Refusal(RefusalOf(last, s, digest).value, last.filename)] else []
  }

  method LedgerRefusals(ledger: seq<LedgerRow>, s: Setting, digest: string -> string) returns (refusals: seq<Refusal>)
    ensures refusals == Refusals(ledger, s, digest)
  {
    refusals := [];
    for n := 0 to |ledger|
      invariant refusals == Refusals(ledger[..n], s, digest)
    {
      var row := ledger[n];
      assert ledger[..n + 1][..n] == ledger[..n];
      var body := ResolveBody(s, row.filename);
      if body.None? {
        refusals := refusals + [Refusal(MissingBody, row.filename)];
      } else if row.checksum.None? {
        refusals := refusals + [Refusal(UnverifiableChecksum, row.filename)];
      } else if row.algorithm != Some(ALGORITHM) {
        refusals := refusals + [Refusal(UnsupportedAlgorithm, row.filename)];
      } else if digest(body.value) != row.checksum.value {
        refusals := refusals + [Refusal(ChecksumDrift, row.filename)];
      }
    }
    assert ledger[..|ledger|] == ledger;
  }

  // ---- a run as a function of the state ----

  function RowFor(e: Execution, digest: string -> string): LedgerRow {
    LedgerRow(e.filename, Some(digest(e.text)), Some(ALGORITHM))
  }

  /** One transaction: the body and its ledger row commit together. */
  function Committed(st: State, e: Execution, digest: string -> string): State {
    State(st.ledger + [RowFor(e, digest)], st.executed + [e])
  }

  function Names(ledger: seq<LedgerRow>): set<string> {
    set row | row in ledger :: row.filename
  }

  /** The apply loop from file `k` on; `commits` says which transactions the database lets commit. */
  function ApplyFrom(st: State, names: seq<string>, k: nat, done: set<string>, files: map<string, string>,
                     digest: string -> string, commits: string -> bool, count: nat): (State, Outcome)
    requires k <= |names| && forall n | n in names :: n in files
    decreases |names| - k
  {
    if k == |names| then (st, UpToDate(count))
    else if names[k] in done then ApplyFrom(st, names, k + 1, done, files, digest, commits, count)
    else if !commits(names[k]) then (st, Failed(names[k], count))
    else
      var e := Execution(names[k], Canonical(files[names[k]]));
      ApplyFrom(Committed(st, e, digest), names, k + 1, done, files, digest, commits, count + 1)
  }

  ghost function Run(st: State, s: Setting, digest: string -> string, commits: string -> bool): (State, Outcome) {
    if ModeOf(s, digest).Refused? then (st, ModeRefused)
    else if s.dir.Missing? then (st, NoListing)
    else
      var refusals := Refusals(st.ledger, s, digest);
      if refusals != [] then (st, LedgerRefused(refusals))
      else ApplyFrom(st, Sorted(SqlNames(s.dir.files)), 0, Names(st.ledger), s.dir.files, digest, commits, 0)
  }

  // ---- the database ----

  class Database {
    var ledger: seq<LedgerRow>
    var executed: seq<Execution>

    ghost function Contents(): State
      reads this
    {
      State(ledger, executed)
    }

    constructor ()
      ensures Contents() == State([], [])
    {
      ledger, executed := [], [];
    }

    /** A transaction that ran the body and recorded it. */
    method Apply(e: Execution, digest: string -> string)
      modifies this
      ensures Contents() == Committed(old(Contents()), e, digest)
    {
      executed := executed + [e];
      ledger := ledger + [RowFor(e, digest)];
    }

    method Migrate(s: Setting, digest: string -> string, commits: string -> bool) returns (outcome: Outcome)
      modifies this
      ensures (Contents(), outcome) == Run(old(Contents()), s, digest, commits)
    {
      hide ModeOf, Refusals, Canonical, IsSql;
      var mode := DecideMode(s, digest);
      if mode.Refused? { return ModeRefused; }
      if s.dir.Missing? { return NoListing; }
      var names := List(SqlNames(s.dir.files));
      var refusals := LedgerRefusals(ledger, s, digest);
      if refusals != [] { return LedgerRefused(refusals); }
      var done := Names(ledger);
      var count, k := 0, 0;
      while k < |names|
        invariant k <= |names|
        invariant ApplyFrom(Contents(), names, k, done, s.dir.files, digest, commits, count)
                  == Run(old(Contents()), s, digest, commits)
      {
        if names[k] !in done {
          assert names[k] in names;
          if !commits(names[k]) { return Failed(names[k], count); }
          Apply(Execution(names[k], Canonical(s.dir.files[names[k]])), digest);
          count := count + 1;
        }
        k := k + 1;
      }
      outcome := UpToDate(count);
    }
  }
}
