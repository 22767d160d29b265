/** Which answer the census must give: verdicts, disposability and position from the clusters and their scans. */
module CensusLaws {
  import opened Bytes
  import opened Text
  import opened MarkerScan
  import opened MarkerScanLaws
  import opened Census

  // ---- the merged scan, needle by needle ----

  ghost function ScanOf(roots: seq<seq<File>>, needles: seq<seq<Byte>>, budget: nat, k: nat): Scan
    requires k < |needles|
  {
    ScanRoots(roots, needles[k], budget, Progress(0, 0, []))
  }

  ghost predicate HasHit(roots: seq<seq<File>>, needles: seq<seq<Byte>>, budget: nat) {
    exists k :: 0 <= k < |needles| && ScanOf(roots, needles, budget, k).progress.hits != []
  }

  ghost predicate AllComplete(roots: seq<seq<File>>, needles: seq<seq<Byte>>, budget: nat) {
    forall k | 0 <= k < |needles| :: ScanOf(roots, needles, budget, k).complete
  }

  ghost function Sum(of: Scan -> nat, roots: seq<seq<File>>, needles: seq<seq<Byte>>, budget: nat): nat {
    if needles == [] then 0
    else
      var n := |needles| - 1;
      Sum(of, roots, needles[..n], budget) + of(ScanOf(roots, needles, budget, n))
  }

  lemma MergedStep(roots: seq<seq<File>>, needles: seq<seq<Byte>>, budget: nat)
    requires needles != []
    ensures var n := |needles| - 1;
            ScanAllUpTo(roots, needles, budget, n + 1)
            == Merge(ScanAllUpTo(roots, needles[..n], budget, n), needles[n], ScanOf(roots, needles, budget, n))
  {
    hide ScanRoots, Merge;
    SamePrefix(roots, needles, budget, |needles| - 1);
  }

  lemma SameScans(roots: seq<seq<File>>, needles: seq<seq<Byte>>, budget: nat, n: nat)
    requires n <= |needles|
    ensures forall k | 0 <= k < n :: ScanOf(roots, needles[..n], budget, k) == ScanOf(roots, needles, budget, k)
  {
    hide ScanRoots;
  }

  /** Complete when every needle's scan was, and the counts are those of all scans together. */
  lemma {:induction false} MergedCounts(roots: seq<seq<File>>, needles: seq<seq<Byte>>, budget: nat)
    ensures var m := ScanAllUpTo(roots, needles, budget, |needles|);
            && (m.complete <==> AllComplete(roots, needles, budget))
            && m.bytes == Sum((s: Scan) => s.progress.bytes, roots, needles, budget)
            && m.files == Sum((s: Scan) => s.progress.files, roots, needles, budget)
  {
    hide ScanRoots, ScanOf;
    if needles != [] {
      var n := |needles| - 1;
      MergedCounts(roots, needles[..n], budget);
      MergedStep(roots, needles, budget);
      SameScans(roots, needles, budget, n);
      hide ScanAllUpTo;
    }
  }

  /** The hits are those of each scan, under its needle's name. */
  lemma {:induction false} MergedHits(roots: seq<seq<File>>, needles: seq<seq<Byte>>, budget: nat, h: (seq<Byte>, string))
    ensures h in ScanAllUpTo(roots, needles, budget, |needles|).hits <==>
            exists k :: 0 <= k < |needles| && h.0 == needles[k] && h.1 in ScanOf(roots, needles, budget, k).progress.hits
  {
    hide ScanRoots, ScanOf;
    if needles != [] {
      var n := |needles| - 1;
      MergedHits(roots, needles[..n], budget, h);
      MergedStep(roots, needles, budget);
      SameScans(roots, needles, budget, n);
      hide ScanAllUpTo;
      LabelledMeans(needles[n], ScanOf(roots, needles, budget, n).progress.hits, h);
    }
  }

  lemma MergedAnyHit(roots: seq<seq<File>>, needles: seq<seq<Byte>>, budget: nat)
    ensures ScanAllUpTo(roots, needles, budget, |needles|).hits != [] <==> HasHit(roots, needles, budget)
  {
    hide ScanAllUpTo, ScanOf;
    var hits := ScanAllUpTo(roots, needles, budget, |needles|).hits;
    if hits != [] {
      MergedHits(roots, needles, budget, hits[0]);
    }
    if HasHit(roots, needles, budget) {
      var k :| 0 <= k < |needles| && ScanOf(roots, needles, budget, k).progress.hits != [];
      MergedHits(roots, needles, budget, (needles[k], ScanOf(roots, needles, budget, k).progress.hits[0]));
    }
  }

  lemma LabelledMeans(needle: seq<Byte>, hits: seq<string>, h: (seq<Byte>, string))
    ensures h in Labelled(needle, hits) <==> h.0 == needle && h.1 in hits
  {
    if h.0 == needle && h.1 in hits {
      var i :| 0 <= i < |hits| && hits[i] == h.1;
      assert Labelled(needle, hits)[i] == h;
    }
  }

  lemma {:induction false} SamePrefix(roots: seq<seq<File>>, needles: seq<seq<Byte>>, budget: nat, n: nat)
    requires n <= |needles|
    ensures ScanAllUpTo(roots, needles, budget, n) == ScanAllUpTo(roots, needles[..n], budget, n)
    decreases n
  {
    hide ScanRoots;
    if n > 0 {
      SamePrefix(roots, needles, budget, n - 1);
      SamePrefix(roots, needles[..n], budget, n - 1);
      assert needles[..n][..n - 1] == needles[..n - 1];
    }
  }

  // ---- the verdict ----

  /**
   * An absent directory holds no migration; a present one that cannot be read decides nothing; and otherwise the answer is
   * yes exactly when a marker was hit, whether or not the scan was finished, and no exactly when it was finished
   * without one.
   */
  lemma VerdictMeans(c: Cluster, n: Needles, budget: nat)
    ensures var v, hit := VerdictFromInspection(Inspected(c, n, budget)), HasHit(c.roots, n.markers, budget);
            && (v == Yes <==> c.present && c.version && hit)
            && (v == Indeterminate <==> c.present && (!c.version || (!hit && !AllComplete(c.roots, n.markers, budget))))
            && (v == No <==> !c.present || (c.version && !hit && AllComplete(c.roots, n.markers, budget)))
  {
    hide ScanAllUpTo, HasHit, AllComplete, Sum;
    MergedCounts(c.roots, n.markers, budget);
    MergedAnyHit(c.roots, n.markers, budget);
  }

  // ---- disposability ----

  /** The machine starts the cluster, it listens beyond loopback, or, all else established, it holds a database depended upon. */
  ghost predicate Refutes(p: Provenance, inv: Inventory, i: Inspection, policy: Policy) {
    || p.service
    || (p.launchReadable && p.listen.Some? && exists a :: a in p.listen.value && a !in policy.loopback)
    || (Ours(p, i, policy) && inv.readable && inv.reconciled
        && exists n :: n in inv.names && n !in {"postgres", "template0", "template1"} && n in policy.dependedUpon)
  }

  /** A database that is the cluster's own, and that no pattern of the policy declares. */
  predicate Unattributed(n: string, inv: Inventory, policy: Policy) {
    n in inv.names && n !in {"postgres", "template0", "template1"} && !policy.matches(n)
  }

  /** Disposability three ways; it is listed what could not be attributed whenever the assessment got that far. */
  lemma AssessMeans(p: Provenance, inv: Inventory, i: Inspection, policy: Policy)
    ensures var (d, unattributed) := Assess(p, inv, i, policy);
            && (d == Established <==> Ours(p, i, policy) && Expendable(p, inv, policy))
            && (d == Refuted <==> Refutes(p, inv, i, policy))
            && (if Ours(p, i, policy) && inv.readable && inv.reconciled && d != Refuted
                then forall n :: n in unattributed <==> Unattributed(n, inv, policy)
                else unattributed == [])
  {
    EstablishedMeans(p, inv, i, policy);
    RefutedMeans(p, inv, i, policy);
    ListedMeans(p, inv, i, policy);
  }

  lemma RefutedMeans(p: Provenance, inv: Inventory, i: Inspection, policy: Policy)
    ensures Assess(p, inv, i, policy).0 == Refuted <==> Refutes(p, inv, i, policy)
  {
    if p.listen.Some? {
      EmptyFilter(p.listen.value, (a: string) => a !in policy.loopback);
    }
    EmptyFilter(NonDefault(inv.names), (n: string) => n in policy.dependedUpon);
    hide Filter;
  }

  lemma ListedMeans(p: Provenance, inv: Inventory, i: Inspection, policy: Policy)
    ensures var (d, unattributed) := Assess(p, inv, i, policy);
            if Ours(p, i, policy) && inv.readable && inv.reconciled && d != Refuted
            then forall n :: n in unattributed <==> Unattributed(n, inv, policy)
            else unattributed == []
  {
    if p.listen.Some? {
      EmptyFilter(p.listen.value, (a: string) => a !in policy.loopback);
    }
    hide Filter;
  }

  /** How one cluster enters the census. */
  lemma FindingMeans(h: Host, n: Needles, budget: nat, policy: Policy)
    ensures var f, i := FindingOf(h, n, budget, policy), Inspected(h.cluster, n, budget);
            && f.id == h.id
            && (f.persistence == Disposable <==> Ours(h.provenance, i, policy) && Expendable(h.provenance, h.inventory, policy))
            && (f.persistence == Persistent <==> Refutes(h.provenance, h.inventory, i, policy))
            && f.persistence != Ephemeral
            && f.applied == VerdictFromInspection(i)
  {
    hide Assess, Inspected, Ours, Expendable, Refutes;
    AssessMeans(h.provenance, h.inventory, Inspected(h.cluster, n, budget), policy);
  }

  // ---- the position ----

  /** Who is on each of the summary's lists. */
  lemma SummaryLists(es: seq<Finding>, e: Finding)
    ensures var c, counted := Summarize(es), e in es && (e.persistence == Persistent || e.persistence == Unplaced);
            && (e in c.withIt <==> counted && e.applied == Yes)
            && (e in c.unknown <==> counted && e.applied == Indeterminate)
            && (e in c.unclassifiable <==> e in es && e.persistence == Unplaced)
            && (e in c.elsewhere <==> e in es && !counted && e.applied == Yes)
  {
  }

  /** The position, from the findings alone. */
  lemma PositionMeans(es: seq<Finding>)
    ensures var p := Summarize(es).position;
            && (p == Freeze <==> exists e :: Counts(es, e) && e.applied == Yes)
            && (p == Blocked <==> (exists e :: Counts(es, e) && e.applied == Indeterminate)
                                  && forall e | Counts(es, e) :: e.applied != Yes)
            && (p == Incomplete <==> (exists e :: Counts(es, e) && e.persistence == Unplaced)
                                     && forall e | Counts(es, e) :: e.applied == No)
            && (p == Edit <==> forall e | Counts(es, e) :: e.applied == No && e.persistence == Persistent)
  {
    var c := Summarize(es);
    assert c.position == if c.withIt != [] then Freeze else if c.unknown != [] then Blocked
                         else if c.unclassifiable != [] then Incomplete else Edit;
    forall e ensures e in c.withIt <==> Counts(es, e) && e.applied == Yes { SummaryLists(es, e); }
    forall e ensures e in c.unknown <==> Counts(es, e) && e.applied == Indeterminate { SummaryLists(es, e); }
    forall e ensures e in c.unclassifiable <==> Counts(es, e) && e.persistence == Unplaced { SummaryLists(es, e); }
    hide Summarize;
    Occupied(c.withIt);
    Occupied(c.unknown);
    Occupied(c.unclassifiable);
  }

  lemma Occupied(list: seq<Finding>)
    ensures list != [] <==> exists e :: e in list
  {
    if list != [] { assert list[0] in list; }
  }

  predicate Counts(es: seq<Finding>, e: Finding) {
    e in es && (e.persistence == Persistent || e.persistence == Unplaced)
  }

  // ---- end to end ----

  /** A marker in any cluster that is not disposable freezes the migration, even one found before the budget ran out. */
  lemma HitFreezes(es: seq<Finding>, h: Host, n: Needles, budget: nat, policy: Policy)
    requires FindingOf(h, n, budget, policy) in es && h.cluster.present && h.cluster.version
    requires HasHit(h.cluster.roots, n.markers, budget)
    requires var i := Inspected(h.cluster, n, budget);
             !(Ours(h.provenance, i, policy) && Expendable(h.provenance, h.inventory, policy))
    ensures Summarize(es).position == Freeze
  {
    hide Summarize, FindingOf, Inspected, Ours, Expendable, HasHit, Refutes, VerdictFromInspection;
    var f := FindingOf(h, n, budget, policy);
    FindingMeans(h, n, budget, policy);
    VerdictMeans(h.cluster, n, budget);
    PositionMeans(es);
    assert Counts(es, f);
  }

  /** A directory that had vanished never blocks the census: its finding is a no, whatever else is known of it. */
  lemma VanishedDoesNotBlock(h: Host, n: Needles, budget: nat, policy: Policy)
    requires !h.cluster.present
    ensures FindingOf(h, n, budget, policy).applied == No
    ensures Summarize([FindingOf(h, n, budget, policy)]).position in {Edit, Incomplete}
  {
    hide Summarize, FindingOf, VerdictFromInspection, Inspected, Refutes;
    FindingMeans(h, n, budget, policy);
    VerdictMeans(h.cluster, n, budget);
    PositionMeans([FindingOf(h, n, budget, policy)]);
  }
}
