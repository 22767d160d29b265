/** From a cluster's bytes to the census position: scripts/migration-census.ts. */
module Census {
  import opened Bytes
  import opened Text
  import opened MarkerScan
  import opened MarkerScanLaws

  datatype Verdict = No | Yes | Indeterminate

  datatype Persistence = Ephemeral | Disposable | Persistent | Unplaced

  datatype Disposability = Established | Refuted | Undetermined

  datatype Position = Edit | Incomplete | Blocked | Freeze

  // ---- one scan per needle, merged ----

  datatype Merged = Merged(complete: bool, bytes: nat, files: nat, hits: seq<(seq<Byte>, string)>)

  function Labelled(needle: seq<Byte>, hits: seq<string>): seq<(seq<Byte>, string)> {
    seq(|hits|, i requires 0 <= i < |hits| => (needle, hits[i]))
  }

  function Merge(m: Merged, needle: seq<Byte>, scan: Scan): Merged {
    Merged(m.complete && scan.complete, m.bytes + scan.progress.bytes, m.files + scan.progress.files,
           m.hits + Labelled(needle, scan.progress.hits))
  }

  ghost function ScanAllUpTo(roots: seq<seq<File>>, needles: seq<seq<Byte>>, budget: nat, n: nat): Merged
    requires n <= |needles|
  {
    if n == 0 then Merged(true, 0, 0, [])
    else Merge(ScanAllUpTo(roots, needles, budget, n - 1), needles[n - 1], Scanned(roots, needles[n - 1], budget))
  }

  method ScanAll(roots: seq<seq<File>>, needles: seq<seq<Byte>>, budget: nat) returns (m: Merged)
    requires forall i | 0 <= i < |needles| :: needles[i] != []
    requires forall r, f | r in roots && f in r :: ValidFile(f)
    ensures m == ScanAllUpTo(roots, needles, budget, |needles|)
  {
    m := Merged(true, 0, 0, []);
    for n := 0 to |needles|
      invariant m == ScanAllUpTo(roots, needles, budget, n)
    {
      var scan := ScanForMarker(roots, needles[n], budget);
      m := Merge(m, needles[n], scan);
    }
  }

  /** Nothing that could be read contains a needle. */
  ghost predicate ReadableFree(files: seq<File>, needles: seq<seq<Byte>>) {
    forall n, i | 0 <= n < |needles| && 0 <= i < |files| && !Unread(files[i]) :: !Contains(Content(files[i]), needles[n])
  }

  lemma {:induction false} MergedClean(roots: seq<seq<File>>, needles: seq<seq<Byte>>, budget: nat, n: nat)
    requires n <= |needles| && forall i | 0 <= i < |needles| :: needles[i] != []
    ensures var m := ScanAllUpTo(roots, needles, budget, n);
            m.complete && m.hits == [] ==> ReadableFree(Flat(roots), needles[..n])
  {
    hide ScanRoots;
    if n > 0 {
      MergedClean(roots, needles, budget, n - 1);
      var m, scan := ScanAllUpTo(roots, needles, budget, n), Scanned(roots, needles[n - 1], budget);
      if m.complete && m.hits == [] {
        assert |m.hits| == |ScanAllUpTo(roots, needles, budget, n - 1).hits| + |scan.progress.hits|;
        CleanWhereRead(roots, needles[n - 1], budget);
        assert needles[..n] == needles[..n - 1] + [needles[n - 1]];
      }
    }
  }

  /** Every hit of the merged scan is a needle and a file whose readable bytes contain it. */
  lemma {:induction false} MergedReal(roots: seq<seq<File>>, needles: seq<seq<Byte>>, budget: nat, n: nat)
    requires n <= |needles| && forall i | 0 <= i < |needles| :: needles[i] != []
    ensures forall h | h in ScanAllUpTo(roots, needles, budget, n).hits :: h.0 in needles && RealHit(h.1, Flat(roots), h.0)
  {
    hide ScanRoots, RealHit;
    if n > 0 {
      var needle := needles[n - 1];
      MergedReal(roots, needles, budget, n - 1);
      HitsAreReal(roots, needle, budget);
      forall h | h in Labelled(needle, Scanned(roots, needle, budget).progress.hits)
        ensures h.0 in needles && RealHit(h.1, Flat(roots), h.0)
      {
        assert h.1 in Scanned(roots, needle, budget).progress.hits;
      }
    }
  }

  // ---- inspecting one data directory ----

  /** A data directory as the census meets it: present or not, with a version file or not, and its heap files. */
  datatype Cluster = Cluster(present: bool, version: bool, roots: seq<seq<File>>)

  /** What is looked for: the migrations' ledger names, the ledger table's name, the tables the migration creates. */
  datatype Needles = Needles(markers: seq<seq<Byte>>, ledger: seq<Byte>, tables: seq<seq<Byte>>)

  predicate Searchable(n: Needles) {
    && n.ledger != [] && (forall i | 0 <= i < |n.markers| :: n.markers[i] != [])
    && forall i | 0 <= i < |n.tables| :: n.tables[i] != []
  }

  datatype Inspection = Inspection(present: bool, readable: bool, markers: Merged, ledger: Merged, tables: Merged)

  const NOT_SCANNED := Merged(false, 0, 0, [])

  ghost function Inspected(c: Cluster, n: Needles, budget: nat): Inspection {
    Inspection(c.present, c.version,
               if c.version then ScanAllUpTo(c.roots, n.markers, budget, |n.markers|) else NOT_SCANNED,
               if c.version then ScanAllUpTo(c.roots, [n.ledger], budget, 1) else NOT_SCANNED,
               if c.version then ScanAllUpTo(c.roots, n.tables, budget, |n.tables|) else NOT_SCANNED)
  }

  method InspectDataDirectory(c: Cluster, n: Needles, budget: nat) returns (r: Inspection)
    requires Searchable(n)
    requires forall r, f | r in c.roots && f in r :: ValidFile(f)
    ensures r == Inspected(c, n, budget)
  {
    var m, l, t := NOT_SCANNED, NOT_SCANNED, NOT_SCANNED;
    if c.version {
      m := ScanAll(c.roots, n.markers, budget);
      l := ScanAll(c.roots, [n.ledger], budget);
      t := ScanAll(c.roots, n.tables, budget);
    }
    r := Inspection(c.present, c.version, m, l, t);
  }

  function VerdictFromInspection(i: Inspection): Verdict {
    if !i.present then No
    else if !i.readable then Indeterminate
    else if i.markers.hits != [] then Yes
    else if !i.markers.complete then Indeterminate
    else No
  }

  /** A verdict that the migration is here has its cause: a marker in the readable bytes of a file of a present cluster. */
  lemma YesHasCause(c: Cluster, n: Needles, budget: nat)
    requires Searchable(n) && VerdictFromInspection(Inspected(c, n, budget)) == Yes
    ensures c.present && c.version
    ensures exists needle, path :: needle in n.markers && RealHit(path, Flat(c.roots), needle)
  {
    hide ScanAllUpTo, RealHit;
    MergedReal(c.roots, n.markers, budget, |n.markers|);
    var hit := ScanAllUpTo(c.roots, n.markers, budget, |n.markers|).hits[0];
    assert hit.0 in n.markers && RealHit(hit.1, Flat(c.roots), hit.0);
  }

  lemma {:induction false} EachClean(roots: seq<seq<File>>, needles: seq<seq<Byte>>, budget: nat, n: nat, k: nat)
    requires k < n <= |needles|
    requires ScanAllUpTo(roots, needles, budget, n).complete && ScanAllUpTo(roots, needles, budget, n).hits == []
    ensures Scanned(roots, needles[k], budget).complete && Scanned(roots, needles[k], budget).progress.hits == []
  {
    hide ScanRoots;
    var m, scan := ScanAllUpTo(roots, needles, budget, n), Scanned(roots, needles[n - 1], budget);
    assert |m.hits| == |ScanAllUpTo(roots, needles, budget, n - 1).hits| + |scan.progress.hits|;
    if k < n - 1 { EachClean(roots, needles, budget, n - 1, k); }
  }

  lemma {:induction false} AlikeMerged(a: seq<seq<File>>, b: seq<seq<File>>, needles: seq<seq<Byte>>, budget: nat, n: nat)
    requires Alike(a, b) && n <= |needles|
    ensures ScanAllUpTo(a, needles, budget, n) == ScanAllUpTo(b, needles, budget, n)
  {
    hide ScanRoots, Alike;
    if n > 0 {
      AlikeMerged(a, b, needles, budget, n - 1);
      AlikeScans(a, b, needles[n - 1], budget, Progress(0, 0, []));
    }
  }

  /**
   * What a verdict that the migration is not in a present cluster shows: the inspection is the same for all files that
   * look alike to it, and every marker is absent from all of those exactly when every file was read to its end.
   */
  lemma NoVerdictShows(c: Cluster, n: Needles, budget: nat)
    requires Searchable(n) && c.present && VerdictFromInspection(Inspected(c, n, budget)) == No
    ensures forall other | Alike(c.roots, other) :: Inspected(c.(roots := other), n, budget) == Inspected(c, n, budget)
    ensures (forall k | 0 <= k < |n.markers| :: ShowsAbsent(c.roots, n.markers[k])) <==>
            n.markers == [] || AllRead(c.roots)
  {
    hide ScanAllUpTo, ScanRoots, Alike, ShowsAbsent, AllRead;
    forall other | Alike(c.roots, other) ensures Inspected(c.(roots := other), n, budget) == Inspected(c, n, budget) {
      AlikeMerged(c.roots, other, n.markers, budget, |n.markers|);
      AlikeMerged(c.roots, other, [n.ledger], budget, 1);
      AlikeMerged(c.roots, other, n.tables, budget, |n.tables|);
    }
    forall k | 0 <= k < |n.markers| ensures ShowsAbsent(c.roots, n.markers[k]) <==> AllRead(c.roots) {
      EachClean(c.roots, n.markers, budget, |n.markers|, k);
      CleanScan(c.roots, n.markers[k], budget);
    }
    if n.markers != [] { assert ShowsAbsent(c.roots, n.markers[0]) <==> AllRead(c.roots); }
  }

  // ---- disposability ----

  /**
   * The judgement's inputs: the addresses listened on (unresolved, or parsed), whether each durability setting of the
   * policy resolved to off, and the recovered inventory.
   */
  datatype Provenance = Provenance(service: bool, launchReadable: bool, listen: Option<seq<string>>, durabilityOff: seq<bool>)

  datatype Inventory = Inventory(readable: bool, reconciled: bool, names: seq<string>)

  datatype Policy = Policy(loopback: set<string>, dependedUpon: set<string>, matches: string -> bool)

  const DEFAULT_DATABASES := {"postgres", "template0", "template1"}

  function NonDefault(names: seq<string>): seq<string> {
    Filter(names, (n: string) => n !in DEFAULT_DATABASES)
  }

  function Assess(p: Provenance, inv: Inventory, i: Inspection, policy: Policy): (Disposability, seq<string>) {
    if p.service then (Refuted, [])
    else if !p.launchReadable then (Undetermined, [])
    else if p.listen.None? then (Undetermined, [])
    else if Filter(p.listen.value, (a: string) => a !in policy.loopback) != [] then (Refuted, [])
    else if !i.markers.complete || !i.ledger.complete then (Undetermined, [])
    else if i.markers.hits == [] && i.ledger.hits == [] then (Undetermined, [])
    else if !inv.readable then (Undetermined, [])
    else if !inv.reconciled then (Undetermined, [])
    else
      var named := NonDefault(inv.names);
      if Filter(named, (n: string) => n in policy.dependedUpon) != [] then (Refuted, [])
      else
        var unattributed := Filter(named, (n: string) => !policy.matches(n));
        var off := p.durabilityOff != [] && forall k | 0 <= k < |p.durabilityOff| :: p.durabilityOff[k];
        if unattributed != [] && !off then (Undetermined, unattributed) else (Established, unattributed)
  }

  /** The launch is on record, nothing starts the cluster with the machine, and every address is loopback. */
  ghost predicate Ours(p: Provenance, i: Inspection, policy: Policy) {
    && !p.service && p.launchReadable && p.listen.Some? && (forall a | a in p.listen.value :: a in policy.loopback)
    && i.markers.complete && i.ledger.complete && (i.markers.hits != [] || i.ledger.hits != [])
  }

  /** The inventory adds up, holds nothing depended upon, and is expendable by name or by declared lack of durability. */
  ghost predicate Expendable(p: Provenance, inv: Inventory, policy: Policy) {
    && inv.readable && inv.reconciled
    && (forall n | n in inv.names && n !in DEFAULT_DATABASES :: n !in policy.dependedUpon)
    && ((forall n | n in inv.names && n !in DEFAULT_DATABASES :: policy.matches(n))
        || (p.durabilityOff != [] && forall k | 0 <= k < |p.durabilityOff| :: p.durabilityOff[k]))
  }

  /** Disposability is established exactly by provenance and content together, and it never fails open. */
  lemma EstablishedMeans(p: Provenance, inv: Inventory, i: Inspection, policy: Policy)
    ensures Assess(p, inv, i, policy).0 == Established <==> Ours(p, i, policy) && Expendable(p, inv, policy)
  {
    if p.listen.Some? {
      EmptyFilter(p.listen.value, (a: string) => a !in policy.loopback);
    }
    var named := NonDefault(inv.names);
    EmptyFilter(named, (n: string) => n in policy.dependedUpon);
    EmptyFilter(named, (n: string) => !policy.matches(n));
  }

  function PersistenceFrom(d: Disposability): Persistence {
    match d
    case Established => Disposable
    case Refuted => Persistent
    case Undetermined => Unplaced
  }

  // ---- the summary ----

  datatype Finding = Finding(id: string, persistence: Persistence, applied: Verdict)

  predicate TreatedAsPersistent(e: Finding) { e.persistence == Persistent || e.persistence == Unplaced }

  datatype Conclusion = Conclusion(withIt: seq<Finding>, unknown: seq<Finding>, unclassifiable: seq<Finding>,
                                   elsewhere: seq<Finding>, complete: bool, position: Position)

  function Summarize(es: seq<Finding>): Conclusion {
    var treated := Filter(es, TreatedAsPersistent);
    var withIt := Filter(treated, (e: Finding) => e.applied == Yes);
    var unknown := Filter(treated, (e: Finding) => e.applied == Indeterminate);
    var unclassifiable := Filter(es, (e: Finding) => e.persistence == Unplaced);
    var elsewhere := Filter(es, (e: Finding) => !TreatedAsPersistent(e) && e.applied == Yes);
    Conclusion(withIt, unknown, unclassifiable, elsewhere,
               unknown == [] && unclassifiable == [],
               if withIt != [] then Freeze
               else if unknown != [] then Blocked
               else if unclassifiable != [] then Incomplete
               else Edit)
  }

  /** How far one environment alone moves the census from editing in place. */
  function Rank(e: Finding): nat {
    if !TreatedAsPersistent(e) then 0
    else match e.applied
      case Yes => 3
      case Indeterminate => 2
      case No => if e.persistence == Unplaced then 1 else 0
  }

  function PositionRank(p: Position): nat {
    match p case Edit => 0 case Incomplete => 1 case Blocked => 2 case Freeze => 3
  }

  function Max(a: nat, b: nat): nat { if a < b then b else a }

  lemma ListsByRank(es: seq<Finding>)
    ensures var c := Summarize(es);
            && (c.withIt == [] <==> forall e | e in es :: Rank(e) != 3)
            && (c.unknown == [] <==> forall e | e in es :: Rank(e) != 2)
            && (c.unclassifiable == [] <==> forall e | e in es :: e.persistence != Unplaced)
  {
    var treated := Filter(es, TreatedAsPersistent);
    EmptyFilter(treated, (e: Finding) => e.applied == Yes);
    EmptyFilter(treated, (e: Finding) => e.applied == Indeterminate);
    EmptyFilter(es, (e: Finding) => e.persistence == Unplaced);
  }

  lemma PositionByLists(es: seq<Finding>)
    ensures var c := Summarize(es);
            PositionRank(c.position) ==
            if c.withIt != [] then 3 else if c.unknown != [] then 2 else if c.unclassifiable != [] then 1 else 0
  {
    hide Filter;
  }

  /** The position is the worst rank among the environments. */
  lemma PositionIsWorst(es: seq<Finding>)
    ensures forall e | e in es :: Rank(e) <= PositionRank(Summarize(es).position)
    ensures PositionRank(Summarize(es).position) == 0
            || exists e :: e in es && Rank(e) == PositionRank(Summarize(es).position)
  {
    ListsByRank(es);
    PositionByLists(es);
    hide Summarize, PositionRank;
  }

  /** Two sets of environments together stand where the worse of them stands. */
  lemma SummaryOfBoth(a: seq<Finding>, b: seq<Finding>)
    ensures PositionRank(Summarize(a + b).position) ==
            Max(PositionRank(Summarize(a).position), PositionRank(Summarize(b).position))
  {
    hide Summarize, Rank;
    PositionIsWorst(a);
    PositionIsWorst(b);
    PositionIsWorst(a + b);
  }

  /** The order of the findings does not matter. */
  lemma SummaryUnordered(a: seq<Finding>, b: seq<Finding>)
    requires multiset(a) == multiset(b)
    ensures Summarize(a).position == Summarize(b).position
  {
    hide Summarize, Rank;
    assert forall e :: e in a <==> e in multiset(a);
    assert forall e :: e in b <==> e in multiset(b);
    PositionIsWorst(a);
    PositionIsWorst(b);
  }

  /** Editing in place is the position exactly of a complete census that found the migration nowhere it counts. */
  lemma EditMeans(es: seq<Finding>)
    ensures Summarize(es).position == Edit <==> Summarize(es).complete && Summarize(es).withIt == []
    ensures Summarize(es).position == Edit <==>
            forall e | e in es :: !TreatedAsPersistent(e) || (e.persistence == Persistent && e.applied == No)
  {
    PositionIsWorst(es);
  }

  // ---- end to end ----

  datatype Host = Host(id: string, cluster: Cluster, provenance: Provenance, inventory: Inventory)

  ghost function FindingOf(h: Host, n: Needles, budget: nat, policy: Policy): Finding {
    var i := Inspected(h.cluster, n, budget);
    Finding(h.id, PersistenceFrom(Assess(h.provenance, h.inventory, i, policy).0), VerdictFromInspection(i))
  }

  /** Every file that could be read is free of the markers; and the census shows more exactly when all were read. */
  ghost predicate ScannedClean(c: Cluster, n: Needles) {
    && c.version && ReadableFree(Flat(c.roots), n.markers)
    && ((forall k | 0 <= k < |n.markers| :: ShowsAbsent(c.roots, n.markers[k])) <==> n.markers == [] || AllRead(c.roots))
  }

  /**
   * If the census says the migration may be edited in place, then for every host cluster among its findings either
   * disposability was established, or the directory was absent, or its heap was scanned whole and no file that could
   * be read to its end contains any marker; which is every file exactly when none failed to open or to read.
   */
  lemma EditIsSafe(es: seq<Finding>, h: Host, n: Needles, budget: nat, policy: Policy)
    requires Searchable(n) && FindingOf(h, n, budget, policy) in es
    requires Summarize(es).position == Edit
    ensures var i := Inspected(h.cluster, n, budget);
            || (Ours(h.provenance, i, policy) && Expendable(h.provenance, h.inventory, policy))
            || !h.cluster.present
            || (i.markers.complete && ScannedClean(h.cluster, n))
  {
    hide ScanAllUpTo, Assess, Summarize, Ours, Expendable, ReadableFree, ShowsAbsent, AllRead;
    var i := Inspected(h.cluster, n, budget);
    EditMeans(es);
    EstablishedMeans(h.provenance, h.inventory, i, policy);
    if h.cluster.present && VerdictFromInspection(i) == No {
      MergedClean(h.cluster.roots, n.markers, budget, |n.markers|);
      assert n.markers[..|n.markers|] == n.markers;
      NoVerdictShows(h.cluster, n, budget);
    }
  }
}
