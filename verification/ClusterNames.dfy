/** Database names read off a heap without connecting: scripts/migration-census.ts, `databaseNamesFromDisk`. */
module ClusterNames {
  import opened Bytes
  import opened Text
  import opened Census

  predicate Printable(b: Byte) { 0x21 <= b <= 0x7e }

  function Latin1(bytes: seq<Byte>): string {
    seq(|bytes|, i requires 0 <= i < |bytes| => bytes[i] as int as char)
  }

  predicate NameStart(c: char) { 'a' <= c <= 'z' || c == '_' }

  /** `^[a-z_][a-z0-9_$]*$`, for a run of 3 to 63 bytes */
  predicate Acceptable(w: string) {
    && 3 <= |w| <= 63 && NameStart(w[0])
    && forall i | 0 < i < |w| :: NameStart(w[i]) || IsDigit(w[i]) || w[i] == '$'
  }

  /** The printable bytes from `a` to `b`, with none on either side. */
  ghost predicate RunAt(bytes: seq<Byte>, a: int, b: int) {
    && 0 <= a < b <= |bytes| && (forall k | a <= k < b :: Printable(bytes[k]))
    && (a > 0 ==> !Printable(bytes[a - 1])) && (b < |bytes| ==> !Printable(bytes[b]))
  }

  /** `w` is an acceptable name and a whole run that ends no later than `n`. */
  ghost predicate NamedBy(bytes: seq<Byte>, n: int, w: string) {
    Acceptable(w) && exists a, b :: b <= n && RunAt(bytes, a, b) && w == Latin1(bytes[a..b])
  }

  function Flush(found: set<string>, run: seq<Byte>): set<string> {
    if Acceptable(Latin1(run)) then found + {Latin1(run)} else found
  }

  /** A position the loop has come to: the run so far is `bytes[start..i]`, and everything found ended before it. */
  ghost predicate ReadTo(bytes: seq<Byte>, found: set<string>, start: nat, i: nat) {
    && start <= i <= |bytes| && (forall k | start <= k < i :: Printable(bytes[k]))
    && (start > 0 ==> !Printable(bytes[start - 1]))
    && forall w :: w in found <==> NamedBy(bytes, start - 1, w)
  }

  /** A run that ends between `start` and the byte that stops the scan is the one being read. */
  lemma OneRun(bytes: seq<Byte>, found: set<string>, start: nat, i: nat, a: int, b: int)
    requires ReadTo(bytes, found, start, i) && (i < |bytes| ==> !Printable(bytes[i]))
    requires RunAt(bytes, a, b) && start <= b <= i
    ensures a == start && b == i
  {
  }

  lemma Flushed(bytes: seq<Byte>, found: set<string>, start: nat, i: nat)
    requires ReadTo(bytes, found, start, i) && (i < |bytes| ==> !Printable(bytes[i]))
    ensures forall w :: w in Flush(found, bytes[start..i]) <==> NamedBy(bytes, i, w)
  {
    var run := Latin1(bytes[start..i]);
    forall w ensures w in Flush(found, bytes[start..i]) <==> NamedBy(bytes, i, w) {
      if NamedBy(bytes, i, w) {
        var a, b :| b <= i && RunAt(bytes, a, b) && w == Latin1(bytes[a..b]);
        if b >= start { OneRun(bytes, found, start, i, a, b); } else { assert NamedBy(bytes, start - 1, w); }
      }
      if w in found {
        var a, b :| b <= start - 1 && RunAt(bytes, a, b) && w == Latin1(bytes[a..b]);
        assert b <= i;
      }
      if w == run && Acceptable(w) { assert RunAt(bytes, start, i); }
    }
  }

  /** The names recovered are exactly the acceptable whole runs of printable bytes. */
  method RecoverNames(bytes: seq<Byte>) returns (found: set<string>)
    ensures forall w :: w in found <==> NamedBy(bytes, |bytes|, w)
  {
    hide NamedBy, Flush;
    found := {};
    var run: seq<Byte> := [];
    ghost var start: nat := 0;
    NothingRead(bytes);
    for i := 0 to |bytes|
      invariant start <= i && run == bytes[start..i]
      invariant ReadTo(bytes, found, start, i)
    {
      if Printable(bytes[i]) {
        run := run + [bytes[i]];
      } else {
        Flushed(bytes, found, start, i);
        found := Flush(found, run);
        run := [];
        start := i + 1;
      }
    }
    Flushed(bytes, found, start, |bytes|);
    found := Flush(found, run);
  }

  /** Where a printable run begins and ends, byte by byte. */
  ghost predicate WholeRun(bytes: seq<Byte>, a: int, b: int) {
    && 0 <= a < b <= |bytes| && (forall k | a <= k < b :: 33 <= bytes[k] <= 126)
    && (a > 0 ==> bytes[a - 1] < 33 || bytes[a - 1] > 126) && (b < |bytes| ==> bytes[b] < 33 || bytes[b] > 126)
  }

  /** From 3 to 63 lower-case letters, digits, underscores and dollar signs, of which the first is a letter or underscore. */
  predicate NameBytes(run: seq<Byte>) {
    && 3 <= |run| <= 63 && (97 <= run[0] <= 122 || run[0] == 95)
    && forall k | 0 <= k < |run| :: 97 <= run[k] <= 122 || run[k] == 95 || 48 <= run[k] <= 57 || run[k] == 36
  }

  /** A name is recovered exactly for a whole printable run of such bytes, and is spelled as they are. */
  lemma NamedMeans(bytes: seq<Byte>, w: string)
    ensures NamedBy(bytes, |bytes|, w) <==>
            exists a, b :: WholeRun(bytes, a, b) && NameBytes(bytes[a..b]) && |w| == b - a
                           && forall k | 0 <= k < |w| :: w[k] as int == bytes[a + k]
  {
    if NamedBy(bytes, |bytes|, w) {
      var a, b :| b <= |bytes| && RunAt(bytes, a, b) && w == Latin1(bytes[a..b]);
      assert forall k | 0 <= k < |w| :: w[k] as int == bytes[a..b][k];
      assert WholeRun(bytes, a, b);
      AcceptableBytes(bytes[a..b]);
    }
    if a, b :| WholeRun(bytes, a, b) && NameBytes(bytes[a..b]) && |w| == b - a && forall k | 0 <= k < |w| :: w[k] as int == bytes[a + k] {
      var run := bytes[a..b];
      assert RunAt(bytes, a, b);
      assert forall k | 0 <= k < |w| :: w[k] == Latin1(run)[k];
      assert w == Latin1(run);
      AcceptableBytes(run);
    }
  }

  lemma AcceptableBytes(run: seq<Byte>)
    ensures Acceptable(Latin1(run)) <==> NameBytes(run)
  {
    var w := Latin1(run);
    assert forall k | 0 <= k < |run| :: w[k] as int == run[k];
  }

  lemma NothingRead(bytes: seq<Byte>)
    ensures ReadTo(bytes, {}, 0, 0)
  {
  }

  // ---- reconciling names with directories ----

  /** `content.reconciled`: no more directories than recovered names. */
  predicate Reconciled(directories: nat, recovered: set<string>) {
    directories <= |recovered - DEFAULT_DATABASES|
  }

  /**
   * One directory for each real database. The count reconciles exactly when the names missed are no more than the
   * names recovered that belong to no database; so it shows that none was missed only where there is no such name.
   */
  lemma ReconciledMeans(databases: set<string>, recovered: set<string>)
    requires databases !! DEFAULT_DATABASES
    ensures var named := recovered - DEFAULT_DATABASES;
            && (Reconciled(|databases|, recovered) <==> |databases - named| <= |named - databases|)
            && (named <= databases ==> (Reconciled(|databases|, recovered) <==> databases == named))
  {
    var named := recovered - DEFAULT_DATABASES;
    var both := databases * named;
    assert databases == (databases - named) + both && named == (named - databases) + both;
    if named <= databases && |databases - named| <= 0 { assert databases - named == {}; }
    if named <= databases { assert named - databases == {}; }
  }

  function Repeated(n: nat): (w: string)
    ensures |w| == n
  {
    seq(n, _ => 'x')
  }

  /** There are names that were not recovered, as many as one likes. */
  lemma {:induction false} FreshNames(recovered: set<string>, n: nat) returns (others: set<string>)
    ensures |others| == n && others !! recovered && others !! DEFAULT_DATABASES
  {
    if n == 0 {
      others := {};
    } else {
      var before := FreshNames(recovered, n - 1);
      var longest := LongestOf(recovered + DEFAULT_DATABASES + before);
      others := before + {Repeated(longest + 1)};
    }
  }

  lemma {:induction false} LongestOf(names: set<string>) returns (longest: nat)
    ensures forall w | w in names :: |w| <= longest
  {
    if names == {} {
      longest := 0;
    } else {
      var w :| w in names;
      longest := LongestOf(names - {w});
      if |w| > longest { longest := |w|; }
    }
  }

  /** Whatever databases there are, as many as directories, each of their names was recovered. */
  ghost predicate ShowsNamed(directories: nat, recovered: set<string>) {
    forall databases: set<string> | |databases| == directories && databases !! DEFAULT_DATABASES :: databases <= recovered
  }

  /** A count that reconciles shows that no database was missed only when there is none to miss. */
  lemma ReconciledShows(directories: nat, recovered: set<string>)
    requires Reconciled(directories, recovered)
    ensures ShowsNamed(directories, recovered) <==> directories == 0
  {
    if directories > 0 {
      var others := FreshNames(recovered, directories);
      assert others != {};
      var w :| w in others;
      assert w !in recovered;
    } else {
      assert forall databases: set<string> | |databases| == 0 :: databases == {};
    }
  }

  /**
   * A heap with the name of a live database, `cockpit`, which the last byte of its object identifier, a printable one,
   * adjoins; and with the name of a dropped one, `old`.
   */
  const HEAP: seq<Byte> := [0x41, 0x63, 0x6f, 0x63, 0x6b, 0x70, 0x69, 0x74, 0, 0x6f, 0x6c, 0x64]

  lemma HeapNames(w: string)
    ensures NamedBy(HEAP, |HEAP|, w) <==> w == "old"
  {
    assert Latin1(HEAP[9..12]) == "old" && RunAt(HEAP, 9, 12);
    if NamedBy(HEAP, |HEAP|, w) {
      var a, b :| b <= |HEAP| && RunAt(HEAP, a, b) && w == Latin1(HEAP[a..b]);
      HeapRuns(a, b);
    }
  }

  lemma HeapRuns(a: int, b: int)
    requires RunAt(HEAP, a, b)
    ensures (a == 0 && b == 8) || (a == 9 && b == 12)
  {
    assert !Printable(HEAP[8]);
    assert forall k | 0 <= k < 8 :: Printable(HEAP[k]);
    assert forall k | 9 <= k < 12 :: Printable(HEAP[k]);
    assert a != 0 ==> !Printable(HEAP[a - 1]);
  }

  /**
   * A database whose name the filter rejects is meant to show up as a directory nobody accounts for. One run of any
   * other acceptable text in the heap stands in for it, and the census then calls disposable a cluster that holds a
   * database this repository depends on.
   */
  lemma StrayNameHidesDatabase(names: seq<string>, p: Provenance, i: Inspection, policy: Policy)
    requires forall w :: w in names <==> NamedBy(HEAP, |HEAP|, w)
    requires Ours(p, i, policy) && policy.matches("old") && "old" !in policy.dependedUpon
    requires "cockpit" in policy.dependedUpon
    ensures Assess(p, Inventory(true, Reconciled(|{"cockpit"}|, set w | w in names), names), i, policy).0 == Established
  {
    HeapNames("old");
    forall w | w in names ensures w == "old" { HeapNames(w); }
    var found := set w | w in names;
    assert found == {"old"};
    assert "old"[0] != "postgres"[0];
    assert "old"[0] != "template0"[0] && "old"[0] != "template1"[0];
    assert found - DEFAULT_DATABASES == {"old"};
    EstablishedMeans(p, Inventory(true, true, names), i, policy);
  }
}
