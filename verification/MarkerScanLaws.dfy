/** The chunked scan agrees with plain substring search over what could be read. */
module MarkerScanLaws {
  import opened Bytes
  import opened Text
  import opened MarkerScan

  /** The bytes a file's reads returned contain the pattern. */
  ghost predicate Readable(f: File, pattern: seq<Byte>) {
    f.opens && Contains(Flatten(f.chunks), pattern)
  }

  ghost function Matching(files: seq<File>, pattern: seq<Byte>): seq<string> {
    if files == [] then []
    else (if Readable(files[0], pattern) then [files[0].path] else []) + Matching(files[1..], pattern)
  }

  function Flat(roots: seq<seq<File>>): seq<File> {
    if roots == [] then [] else roots[0] + Flat(roots[1..])
  }

  lemma {:induction false} MatchingAppends(a: seq<File>, b: seq<File>, pattern: seq<Byte>)
    ensures Matching(a + b, pattern) == Matching(a, pattern) + Matching(b, pattern)
  {
    if a == [] {
      assert a + b == b;
    } else {
      assert (a + b)[1..] == a[1..] + b;
      MatchingAppends(a[1..], b, pattern);
    }
  }

  lemma ContainsGrows(a: seq<Byte>, b: seq<Byte>, pattern: seq<Byte>)
    requires Contains(a, pattern)
    ensures Contains(a + b, pattern)
  {
    var i: int :| OccursAt(a, pattern, i);
    OccursPrefix(a, b, pattern, i);
  }

  lemma {:induction false} PrefixContains(chunks: seq<seq<Byte>>, j: nat, pattern: seq<Byte>)
    requires j <= |chunks| && Contains(Flatten(chunks[..j]), pattern)
    ensures Contains(Flatten(chunks), pattern)
    decreases |chunks| - j
  {
    if j == |chunks| {
      assert chunks[..j] == chunks;
    } else {
      assert chunks[..j + 1][..j] == chunks[..j];
      ContainsGrows(Flatten(chunks[..j]), chunks[j], pattern);
      PrefixContains(chunks, j + 1, pattern);
    }
  }

  lemma {:induction false} ChunksDecide(chunks: seq<seq<Byte>>, j: nat, pattern: seq<Byte>, budget: nat, bytes: nat)
    requires j <= |chunks| && !Contains(Flatten(chunks[..j]), pattern)
    ensures var (found, total) := ScanChunks(chunks, j, pattern, budget, bytes);
            && bytes <= total
            && (found ==> Contains(Flatten(chunks), pattern))
            && (!found && total < budget ==> !Contains(Flatten(chunks), pattern))
            && total + |Flatten(chunks[..j])| <= bytes + |Flatten(chunks)|
    decreases |chunks| - j
  {
    if j == |chunks| {
      assert chunks[..j] == chunks;
    } else {
      var next := Flatten(chunks[..j + 1]);
      assert chunks[..j + 1][..j] == chunks[..j];
      FlattenGrows(chunks, j + 1);
      if Contains(next, pattern) {
        PrefixContains(chunks, j + 1, pattern);
      } else if bytes + |chunks[j]| < budget {
        ChunksDecide(chunks, j + 1, pattern, budget, bytes + |chunks[j]|);
      }
    }
  }

  lemma {:induction false} FlattenGrows(chunks: seq<seq<Byte>>, j: nat)
    requires j <= |chunks|
    ensures |Flatten(chunks[..j])| <= |Flatten(chunks)|
    decreases |chunks| - j
  {
    if j == |chunks| {
      assert chunks[..j] == chunks;
    } else {
      assert chunks[..j + 1][..j] == chunks[..j];
      FlattenGrows(chunks, j + 1);
    }
  }

  function Size(files: seq<File>): nat {
    if files == [] then 0 else |Flatten(files[0].chunks)| + Size(files[1..])
  }

  lemma {:induction false} SizeAppends(a: seq<File>, b: seq<File>)
    ensures Size(a + b) == Size(a) + Size(b)
  {
    if a == [] {
      assert a + b == b;
    } else {
      assert (a + b)[1..] == a[1..] + b;
      SizeAppends(a[1..], b);
    }
  }

  /** The hit names a file among `files` whose readable bytes contain the pattern. */
  ghost predicate RealHit(h: string, files: seq<File>, pattern: seq<Byte>) {
    exists i :: 0 <= i < |files| && files[i].path == h && Readable(files[i], pattern)
  }

  /** What scanning more files does to the progress made so far. */
  ghost predicate Advances(p: Progress, after: Progress, files: seq<File>, pattern: seq<Byte>, budget: nat) {
    && p.bytes <= after.bytes <= p.bytes + Size(files)
    && |p.hits| <= |after.hits| && after.hits[..|p.hits|] == p.hits
    && (forall k | |p.hits| <= k < |after.hits| :: RealHit(after.hits[k], files, pattern))
    && (after.bytes < budget && |after.hits| < HIT_CAP ==> after.hits == p.hits + Matching(files, pattern))
  }

  lemma AdvancesTwice(p: Progress, mid: Progress, after: Progress, a: seq<File>, b: seq<File>, pattern: seq<Byte>, budget: nat)
    requires Advances(p, mid, a, pattern, budget) && Advances(mid, after, b, pattern, budget)
    ensures Advances(p, after, a + b, pattern, budget)
  {
    SizeAppends(a, b);
    MatchingAppends(a, b, pattern);
    assert after.hits[..|p.hits|] == after.hits[..|mid.hits|][..|p.hits|];
    forall k | |p.hits| <= k < |after.hits| ensures RealHit(after.hits[k], a + b, pattern) {
      if k < |mid.hits| {
        assert after.hits[k] == mid.hits[k];
        var i :| 0 <= i < |a| && a[i].path == mid.hits[k] && Readable(a[i], pattern);
        assert (a + b)[i] == a[i];
      } else {
        var i :| 0 <= i < |b| && b[i].path == after.hits[k] && Readable(b[i], pattern);
        assert (a + b)[|a| + i] == b[i];
      }
    }
  }

  /** Stopping early is harmless to every promise except completeness, which the stop itself denies. */
  lemma AdvancesStopped(p: Progress, after: Progress, a: seq<File>, b: seq<File>, pattern: seq<Byte>, budget: nat)
    requires Advances(p, after, a, pattern, budget) && (after.bytes >= budget || |after.hits| >= HIT_CAP)
    ensures Advances(p, after, a + b, pattern, budget)
  {
    SizeAppends(a, b);
    forall k | |p.hits| <= k < |after.hits| ensures RealHit(after.hits[k], a + b, pattern) {
      var i :| 0 <= i < |a| && a[i].path == after.hits[k] && Readable(a[i], pattern);
      assert (a + b)[i] == a[i];
    }
  }

  lemma OneFile(p: Progress, f: File, pattern: seq<Byte>, budget: nat)
    requires f.opens && pattern != []
    ensures var (found, bytes) := ScanChunks(f.chunks, 0, pattern, budget, p.bytes);
            Advances(p, AfterFile(p, f, found, bytes), [f], pattern, budget)
  {
    assert f.chunks[..0] == [];
    ChunksDecide(f.chunks, 0, pattern, budget, p.bytes);
    var (found, bytes) := ScanChunks(f.chunks, 0, pattern, budget, p.bytes);
    assert Size([f]) == |Flatten(f.chunks)|;
    assert Matching([f], pattern) == if Readable(f, pattern) then [f.path] else [];
    if found { assert [f][0].path == f.path && Readable([f][0], pattern); }
  }

  lemma {:induction false} RootAdvances(files: seq<File>, pattern: seq<Byte>, budget: nat, p: Progress)
    requires pattern != []
    ensures var (after, stopped) := ScanRoot(files, pattern, budget, p);
            Advances(p, after, files, pattern, budget) && (stopped ==> after.bytes >= budget)
  {
    hide ScanChunks, AfterFile, Advances;
    if files == [] || p.bytes >= budget {
      NothingScanned(p, files, pattern, budget);
    } else {
      assert files == [files[0]] + files[1..];
      if !files[0].opens {
        Unopened(p, files[0], pattern, budget);
        RootAdvances(files[1..], pattern, budget, p);
        AdvancesTwice(p, p, ScanRoot(files, pattern, budget, p).0, [files[0]], files[1..], pattern, budget);
      } else {
        OneFile(p, files[0], pattern, budget);
        var (found, bytes) := ScanChunks(files[0].chunks, 0, pattern, budget, p.bytes);
        var after := AfterFile(p, files[0], found, bytes);
        if found && |after.hits| >= HIT_CAP {
          AdvancesStopped(p, after, [files[0]], files[1..], pattern, budget);
        } else {
          RootAdvances(files[1..], pattern, budget, after);
          AdvancesTwice(p, after, ScanRoot(files, pattern, budget, p).0, [files[0]], files[1..], pattern, budget);
        }
      }
    }
  }

  lemma NothingScanned(p: Progress, files: seq<File>, pattern: seq<Byte>, budget: nat)
    requires files == [] || p.bytes >= budget
    ensures Advances(p, p, files, pattern, budget)
  {
  }

  lemma Unopened(p: Progress, f: File, pattern: seq<Byte>, budget: nat)
    requires !f.opens
    ensures Advances(p, p, [f], pattern, budget)
  {
  }

  lemma {:induction false} RootsAdvance(roots: seq<seq<File>>, pattern: seq<Byte>, budget: nat, p: Progress)
    requires pattern != []
    ensures var scan := ScanRoots(roots, pattern, budget, p);
            && Advances(p, scan.progress, Flat(roots), pattern, budget)
            && (scan.complete <==> scan.progress.bytes < budget)
  {
    hide ScanRoot, Advances;
    if roots == [] {
      NothingScanned(p, [], pattern, budget);
    } else {
      RootAdvances(roots[0], pattern, budget, p);
      var (after, stopped) := ScanRoot(roots[0], pattern, budget, p);
      if stopped {
        AdvancesStopped(p, after, roots[0], Flat(roots[1..]), pattern, budget);
      } else {
        RootsAdvance(roots[1..], pattern, budget, after);
        AdvancesTwice(p, after, ScanRoots(roots, pattern, budget, p).progress, roots[0], Flat(roots[1..]), pattern, budget);
      }
    }
  }

  ghost function Scanned(roots: seq<seq<File>>, pattern: seq<Byte>, budget: nat): Scan {
    ScanRoots(roots, pattern, budget, Progress(0, 0, []))
  }

  /** Every hit is a real occurrence, complete or not. */
  lemma HitsAreReal(roots: seq<seq<File>>, pattern: seq<Byte>, budget: nat)
    requires pattern != []
    ensures forall h | h in Scanned(roots, pattern, budget).progress.hits :: RealHit(h, Flat(roots), pattern)
  {
    RootsAdvance(roots, pattern, budget, Progress(0, 0, []));
  }

  /**
   * A complete scan that stayed under the hit cap names exactly the files a plain search of their readable bytes
   * would name, in order; and a scan is complete whenever the files together are smaller than the budget.
   */
  lemma CompleteScanIsPlainSearch(roots: seq<seq<File>>, pattern: seq<Byte>, budget: nat)
    requires pattern != []
    ensures var scan := Scanned(roots, pattern, budget);
            && (scan.complete && |scan.progress.hits| < HIT_CAP ==> scan.progress.hits == Matching(Flat(roots), pattern))
            && (Size(Flat(roots)) < budget ==> scan.complete)
  {
    RootsAdvance(roots, pattern, budget, Progress(0, 0, []));
  }

  /** A file that could not be opened or not be read to its end. */
  predicate Unread(f: File) {
    !f.opens || f.end.Fails?
  }

  ghost predicate Absent(files: seq<File>, pattern: seq<Byte>) {
    forall i | 0 <= i < |files| :: !Contains(Content(files[i]), pattern)
  }

  lemma {:induction false} NothingMatches(files: seq<File>, pattern: seq<Byte>)
    ensures Matching(files, pattern) == [] <==> forall i | 0 <= i < |files| :: !Readable(files[i], pattern)
  {
    if files != [] {
      NothingMatches(files[1..], pattern);
      assert forall i | 0 < i < |files| :: files[i] == files[1..][i - 1];
    }
  }

  /** A clean complete scan means that no file which opened and was read to its end holds the literal. */
  lemma CleanWhereRead(roots: seq<seq<File>>, pattern: seq<Byte>, budget: nat)
    requires pattern != []
    requires Scanned(roots, pattern, budget).complete && Scanned(roots, pattern, budget).progress.hits == []
    ensures var files := Flat(roots);
            forall i | 0 <= i < |files| && !Unread(files[i]) :: !Contains(Content(files[i]), pattern)
  {
    var files := Flat(roots);
    CompleteScanIsPlainSearch(roots, pattern, budget);
    NothingMatches(files, pattern);
    forall i | 0 <= i < |files| && !Unread(files[i]) ensures !Contains(Content(files[i]), pattern) {
      assert !Readable(files[i], pattern);
      assert Content(files[i]) == Flatten(files[i].chunks);
    }
  }

  /** Opening the two files and reading them shows the same: they may differ in what no read returned. */
  ghost predicate AlikeFile(a: File, b: File) {
    && a.path == b.path && a.opens == b.opens
    && (a.opens ==> a.chunks == b.chunks && (a.end.Fails? <==> b.end.Fails?))
  }

  ghost predicate AlikeFiles(a: seq<File>, b: seq<File>) {
    |a| == |b| && forall i | 0 <= i < |a| :: AlikeFile(a[i], b[i])
  }

  ghost predicate Alike(a: seq<seq<File>>, b: seq<seq<File>>) {
    |a| == |b| && forall i | 0 <= i < |a| :: AlikeFiles(a[i], b[i])
  }

  lemma {:induction false} AlikeRoot(a: seq<File>, b: seq<File>, pattern: seq<Byte>, budget: nat, p: Progress)
    requires AlikeFiles(a, b)
    ensures ScanRoot(a, pattern, budget, p) == ScanRoot(b, pattern, budget, p)
  {
    hide ScanChunks;
    if a != [] && p.bytes < budget {
      assert AlikeFile(a[0], b[0]);
      if a[0].opens {
        var (found, bytes) := ScanChunks(a[0].chunks, 0, pattern, budget, p.bytes);
        AlikeRoot(a[1..], b[1..], pattern, budget, AfterFile(p, a[0], found, bytes));
      } else {
        AlikeRoot(a[1..], b[1..], pattern, budget, p);
      }
    }
  }

  /** The scan sees only what opening and reading show. */
  lemma {:induction false} AlikeScans(a: seq<seq<File>>, b: seq<seq<File>>, pattern: seq<Byte>, budget: nat, p: Progress)
    requires Alike(a, b)
    ensures ScanRoots(a, pattern, budget, p) == ScanRoots(b, pattern, budget, p)
  {
    hide ScanRoot, AlikeFiles;
    if a != [] {
      AlikeRoot(a[0], b[0], pattern, budget, p);
      AlikeScans(a[1..], b[1..], pattern, budget, ScanRoot(a[0], pattern, budget, p).0);
    }
  }

  lemma {:induction false} AlikeFlat(a: seq<seq<File>>, b: seq<seq<File>>)
    requires Alike(a, b)
    ensures AlikeFiles(Flat(a), Flat(b))
  {
    if a != [] {
      AlikeFlat(a[1..], b[1..]);
      assert AlikeFiles(a[0], b[0]);
    }
  }

  /** The same roots with file `k` of them all exchanged for another that looks alike. */
  lemma {:induction false} Exchange(roots: seq<seq<File>>, k: nat, g: File) returns (other: seq<seq<File>>)
    requires k < |Flat(roots)| && AlikeFile(Flat(roots)[k], g)
    ensures Alike(roots, other) && Flat(other) == Flat(roots)[k := g]
  {
    var first, rest := roots[0], roots[1..];
    assert forall f: File :: AlikeFile(f, f);
    if k < |first| {
      other := [first[k := g]] + rest;
      assert other[1..] == rest;
    } else {
      var more := Exchange(rest, k - |first|, g);
      other := [first] + more;
      assert other[1..] == more;
    }
  }

  /** Every file opened and was read to its end. */
  predicate AllRead(roots: seq<seq<File>>) {
    forall i | 0 <= i < |Flat(roots)| :: !Unread(Flat(roots)[i])
  }

  ghost predicate ShowsAbsent(roots: seq<seq<File>>, pattern: seq<Byte>) {
    forall other | Alike(roots, other) :: Absent(Flat(other), pattern)
  }

  /**
   * What a clean complete scan shows. All files that look alike to it give it the same result, so it shows the literal
   * to be absent only if it is absent from all of those; and that is so exactly when every file opened and was read
   * to its end.
   */
  lemma CleanScan(roots: seq<seq<File>>, pattern: seq<Byte>, budget: nat)
    requires pattern != []
    requires Scanned(roots, pattern, budget).complete && Scanned(roots, pattern, budget).progress.hits == []
    ensures forall other | Alike(roots, other) :: Scanned(other, pattern, budget) == Scanned(roots, pattern, budget)
    ensures ShowsAbsent(roots, pattern) <==> AllRead(roots)
  {
    hide ScanRoots, Contains, Alike, AlikeFile;
    var files := Flat(roots);
    forall other | Alike(roots, other) ensures Scanned(other, pattern, budget) == Scanned(roots, pattern, budget) {
      AlikeScans(roots, other, pattern, budget, Progress(0, 0, []));
    }
    if AllRead(roots) {
      forall other | Alike(roots, other) ensures Absent(Flat(other), pattern) {
        CleanWhereRead(other, pattern, budget);
        StillRead(roots, other);
      }
    }
    if k: nat :| k < |files| && Unread(files[k]) {
      var other := Conceal(roots, k, pattern);
      assert !Absent(Flat(other), pattern);
    }
  }

  lemma StillRead(roots: seq<seq<File>>, other: seq<seq<File>>)
    requires Alike(roots, other) && AllRead(roots)
    ensures AllRead(other)
  {
    AlikeFlat(roots, other);
    forall i | 0 <= i < |Flat(other)| ensures !Unread(Flat(other)[i]) { assert AlikeFile(Flat(roots)[i], Flat(other)[i]); }
  }

  /** Whatever is missing from a file that was not read whole could be the literal. */
  lemma Conceal(roots: seq<seq<File>>, k: nat, pattern: seq<Byte>) returns (other: seq<seq<File>>)
    requires k < |Flat(roots)| && Unread(Flat(roots)[k])
    ensures Alike(roots, other)
    ensures k < |Flat(other)| && Contains(Content(Flat(other)[k]), pattern)
  {
    var f := Flat(roots)[k];
    var g := f.(end := Fails(pattern));
    other := Exchange(roots, k, g);
    OccursMiddle(Flatten(f.chunks), pattern, []);
    assert Flatten(f.chunks) + pattern + [] == Content(g);
  }

  /** A file that cannot be opened is passed over: the scan is complete, has no hit, and the literal is there. */
  lemma UnopenedFileIsSilent(path: string, pattern: seq<Byte>, budget: nat)
    requires pattern != [] && budget > 0
    ensures var roots := [[File(path, false, [pattern], Eof)]];
            && Scanned(roots, pattern, budget) == Scan(true, Progress(0, 0, []))
            && !Absent(Flat(roots), pattern)
  {
    var f := File(path, false, [pattern], Eof);
    assert Flat([[f]]) == [f] by { assert [[f]][1..] == []; }
    assert Content(f) == pattern by { assert Flatten([]) == []; assert [pattern][..0] == []; }
    assert OccursAt(pattern, pattern, 0);
    assert Content([f][0]) == pattern;
    assert ScanRoot([f], pattern, budget, Progress(0, 0, [])) == ScanRoot([], pattern, budget, Progress(0, 0, []));
    assert ScanRoots([[f]], pattern, budget, Progress(0, 0, [])) == ScanRoots([], pattern, budget, Progress(0, 0, []));
  }

  /** A read that throws ends the file in silence too. */
  lemma FailedReadIsSilent(path: string, pattern: seq<Byte>, budget: nat)
    requires pattern != [] && budget > 0
    ensures var roots := [[File(path, true, [], Fails(pattern))]];
            && Scanned(roots, pattern, budget) == Scan(true, Progress(0, 1, []))
            && !Absent(Flat(roots), pattern)
  {
    var f := File(path, true, [], Fails(pattern));
    assert Flat([[f]]) == [f] by { assert [[f]][1..] == []; }
    assert Content(f) == pattern;
    assert OccursAt(pattern, pattern, 0);
    assert Content([f][0]) == pattern;
    assert ScanRoot([f], pattern, budget, Progress(0, 0, [])) == ScanRoot([], pattern, budget, Progress(0, 1, []));
    assert ScanRoots([[f]], pattern, budget, Progress(0, 0, [])) == ScanRoots([], pattern, budget, Progress(0, 1, []));
  }

  // ---- what the budget pays for ----

  /** The bytes that reads of the files that open return. */
  function Readout(files: seq<File>): nat {
    if files == [] then 0 else (if files[0].opens then |Flatten(files[0].chunks)| else 0) + Readout(files[1..])
  }

  ghost predicate NoneReadable(files: seq<File>, pattern: seq<Byte>) {
    forall i | 0 <= i < |files| :: !Readable(files[i], pattern)
  }

  lemma {:induction false} ChunksPaid(chunks: seq<seq<Byte>>, j: nat, pattern: seq<Byte>, budget: nat, bytes: nat)
    requires j <= |chunks| && !Contains(Flatten(chunks), pattern)
    ensures |Flatten(chunks[..j])| <= |Flatten(chunks)|
    ensures var (found, total) := ScanChunks(chunks, j, pattern, budget, bytes);
            var all := bytes + |Flatten(chunks)| - |Flatten(chunks[..j])|;
            && !found && total <= all && (total < all ==> total >= budget)
    decreases |chunks| - j
  {
    FlattenGrows(chunks, j);
    if j == |chunks| {
      assert chunks[..j] == chunks;
    } else {
      assert chunks[..j + 1][..j] == chunks[..j];
      if Contains(Flatten(chunks[..j + 1]), pattern) { PrefixContains(chunks, j + 1, pattern); }
      ChunksPaid(chunks, j + 1, pattern, budget, bytes + |chunks[j]|);
    }
  }

  lemma FilePaid(p: Progress, f: File, pattern: seq<Byte>, budget: nat)
    requires pattern != [] && f.opens && !Readable(f, pattern)
    ensures var (found, bytes) := ScanChunks(f.chunks, 0, pattern, budget, p.bytes);
            var after := AfterFile(p, f, found, bytes);
            && !found && after.hits == p.hits && after.files == p.files + 1
            && after.bytes <= p.bytes + |Flatten(f.chunks)|
            && (after.bytes < p.bytes + |Flatten(f.chunks)| ==> after.bytes >= budget)
  {
    assert f.chunks[..0] == [];
    ChunksPaid(f.chunks, 0, pattern, budget, p.bytes);
  }

  lemma {:induction false} RootPaid(files: seq<File>, pattern: seq<Byte>, budget: nat, p: Progress)
    requires pattern != [] && NoneReadable(files, pattern)
    ensures var after, all := ScanRoot(files, pattern, budget, p).0, p.bytes + Readout(files);
            after.bytes <= all && (after.bytes < all ==> after.bytes >= budget)
  {
    hide ScanChunks, AfterFile, Readable;
    if files != [] && p.bytes < budget {
      var rest := files[1..];
      assert NoneReadable(rest, pattern);
      if files[0].opens {
        FilePaid(p, files[0], pattern, budget);
        var (found, bytes) := ScanChunks(files[0].chunks, 0, pattern, budget, p.bytes);
        RootPaid(rest, pattern, budget, AfterFile(p, files[0], found, bytes));
      } else {
        RootPaid(rest, pattern, budget, p);
      }
    }
  }

  lemma {:induction false} RootsPaid(roots: seq<seq<File>>, pattern: seq<Byte>, budget: nat, p: Progress)
    requires pattern != [] && NoneReadable(Flat(roots), pattern)
    ensures var scan, all := ScanRoots(roots, pattern, budget, p), p.bytes + Readout(Flat(roots));
            && (scan.complete <==> all < budget) && scan.progress.bytes <= all
            && (scan.progress.bytes < all ==> !scan.complete)
  {
    hide ScanRoot, Readable;
    if roots != [] {
      var rest := Flat(roots[1..]);
      assert Flat(roots) == roots[0] + rest;
      ReadoutAppends(roots[0], rest);
      assert forall i | 0 <= i < |roots[0]| :: roots[0][i] == Flat(roots)[i];
      assert forall i | 0 <= i < |rest| :: rest[i] == Flat(roots)[|roots[0]| + i];
      RootPaid(roots[0], pattern, budget, p);
      RootAdvances(roots[0], pattern, budget, p);
      hide Advances;
      var (after, stopped) := ScanRoot(roots[0], pattern, budget, p);
      if !stopped { RootsPaid(roots[1..], pattern, budget, after); }
    }
  }

  lemma {:induction false} ReadoutAppends(a: seq<File>, b: seq<File>)
    ensures Readout(a + b) == Readout(a) + Readout(b)
  {
    if a == [] {
      assert a + b == b;
    } else {
      assert (a + b)[1..] == a[1..] + b;
      ReadoutAppends(a[1..], b);
    }
  }

  /** Where no file holds the pattern, a scan is complete exactly when the budget exceeds all that the reads return. */
  lemma BudgetDecides(roots: seq<seq<File>>, pattern: seq<Byte>, budget: nat)
    requires pattern != [] && NoneReadable(Flat(roots), pattern)
    ensures var scan := Scanned(roots, pattern, budget);
            && (scan.complete <==> Readout(Flat(roots)) < budget)
            && (scan.complete ==> scan.progress.bytes == Readout(Flat(roots)))
  {
    RootsPaid(roots, pattern, budget, Progress(0, 0, []));
  }

  // ---- what the cap leaves ----

  function Eight(hits: seq<string>): seq<string> {
    if |hits| <= 8 then hits else hits[..8]
  }

  lemma EightTwice(a: seq<string>, b: seq<string>)
    ensures |Eight(a)| <= 8 && Eight(Eight(a) + b) == Eight(a + b)
    ensures |Eight(a)| == 8 ==> Eight(a + b) == Eight(a)
  {
    if |a| >= 8 {
      assert (a + b)[..8] == a[..8];
      assert (a[..8] + b)[..8] == a[..8];
    }
  }

  /** Up to the budget the hits are the first eight of a plain search, after `p`'s own. */
  ghost predicate CapsAt(p: Progress, after: Progress, files: seq<File>, pattern: seq<Byte>, budget: nat) {
    && p.bytes <= after.bytes && |after.hits| <= 8
    && (after.bytes < budget ==> after.hits == Eight(p.hits + Matching(files, pattern)))
  }

  lemma FileCaps(p: Progress, f: File, pattern: seq<Byte>, budget: nat)
    requires pattern != [] && f.opens && |p.hits| <= 8
    ensures var (found, bytes) := ScanChunks(f.chunks, 0, pattern, budget, p.bytes);
            CapsAt(p, AfterFile(p, f, found, bytes), [f], pattern, budget)
  {
    hide Contains, Flatten, ScanChunks;
    StartsEmpty(f.chunks, pattern, [], 0);
    ChunksDecide(f.chunks, 0, pattern, budget, p.bytes);
    assert Matching([f], pattern) == if Readable(f, pattern) then [f.path] else [];
    assert p.hits + [] == p.hits;
  }

  lemma CapsTwice(p: Progress, mid: Progress, after: Progress, a: seq<File>, b: seq<File>, pattern: seq<Byte>, budget: nat)
    requires CapsAt(p, mid, a, pattern, budget) && CapsAt(mid, after, b, pattern, budget)
    ensures CapsAt(p, after, a + b, pattern, budget)
  {
    hide Matching, Eight;
    MatchingAppends(a, b, pattern);
    EightTwice(p.hits + Matching(a, pattern), Matching(b, pattern));
    assert p.hits + (Matching(a, pattern) + Matching(b, pattern)) == (p.hits + Matching(a, pattern)) + Matching(b, pattern);
  }

  lemma CapsFull(p: Progress, after: Progress, a: seq<File>, b: seq<File>, pattern: seq<Byte>, budget: nat)
    requires CapsAt(p, after, a, pattern, budget) && |after.hits| == 8
    ensures CapsAt(p, after, a + b, pattern, budget)
  {
    hide Matching, Eight;
    MatchingAppends(a, b, pattern);
    EightTwice(p.hits + Matching(a, pattern), Matching(b, pattern));
    assert p.hits + (Matching(a, pattern) + Matching(b, pattern)) == (p.hits + Matching(a, pattern)) + Matching(b, pattern);
  }

  lemma NothingCaps(p: Progress, files: seq<File>, pattern: seq<Byte>, budget: nat)
    requires |p.hits| <= 8 && (p.bytes >= budget || forall i | 0 <= i < |files| :: !files[i].opens)
    ensures CapsAt(p, p, files, pattern, budget)
  {
    NothingMatches(files, pattern);
    assert p.hits + [] == p.hits;
  }

  lemma {:induction false} RootCaps(files: seq<File>, pattern: seq<Byte>, budget: nat, p: Progress)
    requires pattern != [] && |p.hits| <= 8
    ensures CapsAt(p, ScanRoot(files, pattern, budget, p).0, files, pattern, budget)
  {
    hide ScanChunks, AfterFile, CapsAt;
    if files == [] || p.bytes >= budget {
      NothingCaps(p, files, pattern, budget);
    } else {
      assert files == [files[0]] + files[1..];
      if !files[0].opens {
        NothingCaps(p, [files[0]], pattern, budget);
        RootCaps(files[1..], pattern, budget, p);
        CapsTwice(p, p, ScanRoot(files, pattern, budget, p).0, [files[0]], files[1..], pattern, budget);
      } else {
        FileCaps(p, files[0], pattern, budget);
        var (found, bytes) := ScanChunks(files[0].chunks, 0, pattern, budget, p.bytes);
        var after := AfterFile(p, files[0], found, bytes);
        AtMostEight(p, after, [files[0]], pattern, budget);
        if found && |after.hits| >= HIT_CAP {
          CapsFull(p, after, [files[0]], files[1..], pattern, budget);
        } else {
          RootCaps(files[1..], pattern, budget, after);
          CapsTwice(p, after, ScanRoot(files, pattern, budget, p).0, [files[0]], files[1..], pattern, budget);
        }
      }
    }
  }

  lemma AtMostEight(p: Progress, after: Progress, files: seq<File>, pattern: seq<Byte>, budget: nat)
    requires CapsAt(p, after, files, pattern, budget)
    ensures |after.hits| <= 8
  {
  }

  lemma {:induction false} RootsCap(roots: seq<seq<File>>, pattern: seq<Byte>, budget: nat, p: Progress)
    requires pattern != [] && |p.hits| <= 8
    ensures var scan := ScanRoots(roots, pattern, budget, p);
            && |scan.progress.hits| <= 8
            && (scan.complete ==> CapsAt(p, scan.progress, Flat(roots), pattern, budget) && scan.progress.bytes < budget)
  {
    hide ScanRoot, CapsAt;
    if roots == [] {
      NothingCaps(p, [], pattern, budget);
    } else {
      var (after, stopped) := ScanRoot(roots[0], pattern, budget, p);
      RootCaps(roots[0], pattern, budget, p);
      AtMostEight(p, after, roots[0], pattern, budget);
      if !stopped {
        RootsCap(roots[1..], pattern, budget, after);
        var scan := ScanRoots(roots, pattern, budget, p);
        if scan.complete { CapsTwice(p, after, scan.progress, roots[0], Flat(roots[1..]), pattern, budget); }
      }
    }
  }

  /** A complete scan names the first eight files of a plain search, in order, and any scan eight at most. */
  lemma FirstEight(roots: seq<seq<File>>, pattern: seq<Byte>, budget: nat)
    requires pattern != []
    ensures var scan := Scanned(roots, pattern, budget);
            && |scan.progress.hits| <= 8
            && (scan.complete ==> scan.progress.hits == Eight(Matching(Flat(roots), pattern)))
  {
    RootsCap(roots, pattern, budget, Progress(0, 0, []));
    assert [] + Matching(Flat(roots), pattern) == Matching(Flat(roots), pattern);
  }
}
