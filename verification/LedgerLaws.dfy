/** The ledger check of scripts/migrate.ts on the two directories themselves. */
module LedgerLaws {
  import opened Text
  import opened CanonicalText
  import opened FixtureChains
  import opened MigrationRunner
  import opened MigrationLaws

  predicate Holds(d: Directory, filename: string) {
    d.Present? && filename in d.files
  }

  /** The body of that name in the run's own directory or, when that lacks the name, in the canonical one. */
  predicate Seen(s: Setting, filename: string, body: string) {
    if Holds(s.dir, filename) then body == Canonical(s.dir.files[filename])
    else Holds(s.canonical, filename) && body == Canonical(s.canonical.files[filename])
  }

  predicate Held(s: Setting, filename: string) {
    Holds(s.dir, filename) || Holds(s.canonical, filename)
  }

  /** When a row is refused for which reason: the first that applies. */
  ghost predicate Faulty(kind: RefusalKind, row: LedgerRow, s: Setting, digest: string -> string) {
    match kind
    case MissingBody => !Held(s, row.filename)
    case UnverifiableChecksum => Held(s, row.filename) && row.checksum == None
    case UnsupportedAlgorithm =>
      Held(s, row.filename) && row.checksum.Some? && row.algorithm != Some("sha256-canonical-lf")
    case ChecksumDrift =>
      && row.checksum.Some? && row.algorithm == Some("sha256-canonical-lf")
      && exists body :: Seen(s, row.filename, body) && digest(body) != row.checksum.value
  }

  /** A row nothing is wrong with: its algorithm is this runner's and its checksum is that of the body seen. */
  ghost predicate Sound(row: LedgerRow, s: Setting, digest: string -> string) {
    && row.algorithm == Some("sha256-canonical-lf")
    && exists body :: Seen(s, row.filename, body) && row.checksum == Some(digest(body))
  }

  lemma ResolvedIsSeen(s: Setting, filename: string)
    ensures ResolveBody(s, filename).Some? <==> Held(s, filename)
    ensures forall body :: Seen(s, filename, body) <==> ResolveBody(s, filename) == Some(body)
  {
  }

  lemma RowMeans(row: LedgerRow, s: Setting, digest: string -> string)
    ensures Verified(row, s, digest) <==> Sound(row, s, digest)
    ensures RefusalOf(row, s, digest) == None <==> Sound(row, s, digest)
    ensures forall kind :: RefusalOf(row, s, digest) == Some(kind) <==> Faulty(kind, row, s, digest)
  {
    hide ResolveBody, Seen, Held;
    ResolvedIsSeen(s, row.filename);
    var body := ResolveBody(s, row.filename);
    if body.Some? { assert Seen(s, row.filename, body.value); }
  }

  ghost predicate Refused(r: Refusal, ledger: seq<LedgerRow>, s: Setting, digest: string -> string) {
    exists i :: 0 <= i < |ledger| && ledger[i].filename == r.filename && Faulty(r.kind, ledger[i], s, digest)
  }

  /**
   * What is refused, on the directories: each row for the first fault it has, a missing body exactly when neither
   * directory holds its name; and nothing exactly when every row is sound.
   */
  lemma {:induction false} RefusalsMean(ledger: seq<LedgerRow>, s: Setting, digest: string -> string)
    ensures forall r :: r in Refusals(ledger, s, digest) <==> Refused(r, ledger, s, digest)
    ensures Refusals(ledger, s, digest) == [] <==> forall i | 0 <= i < |ledger| :: Sound(ledger[i], s, digest)
  {
    hide Faulty, Sound, RefusalOf, Verified;
    forall i | 0 <= i < |ledger| ensures Verified(ledger[i], s, digest) <==> Sound(ledger[i], s, digest) {
      RowMeans(ledger[i], s, digest);
    }
    if ledger != [] {
      var n := |ledger| - 1;
      RefusalsMean(ledger[..n], s, digest);
      RowMeans(ledger[n], s, digest);
      forall r ensures r in Refusals(ledger, s, digest) <==> Refused(r, ledger, s, digest) {
        RefusedStep(r, ledger, s, digest);
      }
    }
  }

  lemma RefusedStep(r: Refusal, ledger: seq<LedgerRow>, s: Setting, digest: string -> string)
    requires ledger != []
    ensures var n := |ledger| - 1;
            Refused(r, ledger, s, digest) <==>
            Refused(r, ledger[..n], s, digest) || (r.filename == ledger[n].filename && Faulty(r.kind, ledger[n], s, digest))
  {
    hide Faulty;
    var n := |ledger| - 1;
    assert forall i | 0 <= i < n :: ledger[..n][i] == ledger[i];
  }

  // ---- a run as a whole ----

  /** A run that gets past its mode and its listing refuses the ledger for a row exactly when that row is not sound. */
  lemma RunRefuses(st: State, s: Setting, digest: string -> string, commits: string -> bool)
    requires !ModeOf(s, digest).Refused? && s.dir.Present?
    ensures var outcome := Run(st, s, digest, commits).1;
            && (outcome.LedgerRefused? <==> exists i :: 0 <= i < |st.ledger| && !Sound(st.ledger[i], s, digest))
            && (outcome.LedgerRefused? ==> forall r :: r in outcome.refusals <==> Refused(r, st.ledger, s, digest))
  {
    hide Sound, Refused, ApplyFrom;
    RefusalsMean(st.ledger, s, digest);
    RefusesIffUnverified(st, s, digest, commits);
    forall i | 0 <= i < |st.ledger| ensures Verified(st.ledger[i], s, digest) <==> Sound(st.ledger[i], s, digest) {
      RowMeans(st.ledger[i], s, digest);
    }
  }

  /**
   * Restricting what is applied restricts nothing of what is verified: after a production run that was not refused, an
   * admitted fixture run over the same canonical directory refuses the ledger exactly when its own directory holds a
   * different body under a name in the ledger. Names it lacks are never held against it.
   */
  lemma FixtureSeesCanonical(st: State, production: Setting, fixture: Setting, digest: string -> string,
                             commits: string -> bool, more: string -> bool)
    requires production.canonical == production.dir == fixture.canonical
    requires !RefusedRun(Run(st, production, digest, commits).1)
    requires !ModeOf(fixture, digest).Refused? && fixture.dir.Present?
    ensures var now := Run(st, production, digest, commits).0;
            Run(now, fixture, digest, more).1.LedgerRefused? <==>
            exists i :: 0 <= i < |now.ledger| && HoldsOther(fixture.dir, now.ledger[i].filename, fixture.canonical, digest)
  {
    hide Run, ModeOf, Sound, Proceeds, HoldsOther, Refused;
    var now := Run(st, production, digest, commits).0;
    RunGrows(st, production, digest, commits);
    StillProceeds(st, production, digest, commits);
    RunRefuses(now, fixture, digest, more);
    forall i | 0 <= i < |now.ledger|
      ensures Sound(now.ledger[i], fixture, digest) <==>
              !HoldsOther(fixture.dir, now.ledger[i].filename, fixture.canonical, digest)
    {
      EachVerified(now, production, digest, i);
      RowMeans(now.ledger[i], production, digest);
      SoundElsewhere(now.ledger[i], production, fixture, digest);
    }
  }

  lemma EachVerified(st: State, s: Setting, digest: string -> string, i: nat)
    requires Proceeds(st, s, digest) && i < |st.ledger|
    ensures Verified(st.ledger[i], s, digest)
  {
    hide Verified, ModeOf;
  }

  /** The directory holds a body of that name whose digest is not that of the other directory's. */
  predicate HoldsOther(d: Directory, filename: string, other: Directory, digest: string -> string) {
    && Holds(d, filename) && Holds(other, filename)
    && digest(Canonical(d.files[filename])) != digest(Canonical(other.files[filename]))
  }

  lemma SoundElsewhere(row: LedgerRow, production: Setting, fixture: Setting, digest: string -> string)
    requires production.canonical == production.dir == fixture.canonical && Sound(row, production, digest)
    ensures Sound(row, fixture, digest) <==> !HoldsOther(fixture.dir, row.filename, fixture.canonical, digest)
  {
    hide Canonical;
    var body :| Seen(production, row.filename, body) && row.checksum == Some(digest(body));
    if Holds(fixture.dir, row.filename) {
      assert Seen(fixture, row.filename, Canonical(fixture.dir.files[row.filename]));
    } else {
      assert Seen(fixture, row.filename, body);
    }
  }
}
