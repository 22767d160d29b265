/** The byte scan of scripts/migration-census.ts: a literal searched for in overlapping chunks. */
module MarkerScan {
  import opened Bytes
  import opened Text

  const CHUNK: nat := 0x10_0000

  /** How a file's reads end: at its end, or with an error before the bytes given here were read. */
  datatype ReadEnd = Eof | Fails(unread: seq<Byte>)

  /** A file as the scan meets it: whether it opens, and what its successive reads return. */
  datatype File = File(path: string, opens: bool, chunks: seq<seq<Byte>>, end: ReadEnd)

  /** Every read but the last returns something, and none more than was asked for. */
  predicate ValidFile(f: File) {
    forall i | 0 <= i < |f.chunks| :: 0 < |f.chunks[i]| <= CHUNK
  }

  function Flatten(chunks: seq<seq<Byte>>): seq<Byte> {
    if chunks == [] then [] else Flatten(chunks[..|chunks| - 1]) + chunks[|chunks| - 1]
  }

  function Content(f: File): seq<Byte> {
    Flatten(f.chunks) + if f.end.Fails? then f.end.unread else []
  }

  // ---- the plain form: does what has been read so far contain the pattern? ----

  ghost function ScanChunks(chunks: seq<seq<Byte>>, j: nat, pattern: seq<Byte>, budget: nat, bytes: nat): (bool, nat)
    requires j <= |chunks|
    decreases |chunks| - j
  {
    if j == |chunks| then (false, bytes)
    else
      var total := bytes + |chunks[j]|;
      if Contains(Flatten(chunks[..j + 1]), pattern) then (true, total)
      else if total >= budget then (false, total)
      else ScanChunks(chunks, j + 1, pattern, budget, total)
  }

  datatype Progress = Progress(bytes: nat, files: nat, hits: seq<string>)

  datatype Scan = Scan(complete: bool, progress: Progress)

  const HIT_CAP: nat := 8

  function AfterFile(p: Progress, f: File, found: bool, bytes: nat): Progress {
    Progress(bytes, p.files + 1, if found && |p.hits| < HIT_CAP then p.hits + [f.path] else p.hits)
  }

  /** One root; the flag says that the budget stopped the whole scan. */
  ghost function ScanRoot(files: seq<File>, pattern: seq<Byte>, budget: nat, p: Progress): (Progress, bool) {
    if files == [] then (p, false)
    else if p.bytes >= budget then (p, true)
    else if !files[0].opens then ScanRoot(files[1..], pattern, budget, p)
    else
      var (found, bytes) := ScanChunks(files[0].chunks, 0, pattern, budget, p.bytes);
      var after := AfterFile(p, files[0], found, bytes);
      if found && |after.hits| >= HIT_CAP then (after, false)
      else ScanRoot(files[1..], pattern, budget, after)
  }

  ghost function ScanRoots(roots: seq<seq<File>>, pattern: seq<Byte>, budget: nat, p: Progress): Scan {
    if roots == [] then Scan(p.bytes < budget, p)
    else
      var (after, stopped) := ScanRoot(roots[0], pattern, budget, p);
      if stopped then Scan(false, after) else ScanRoots(roots[1..], pattern, budget, after)
  }

  // ---- the source's form: one buffer, with the tail of the last view carried to its front ----

  ghost predicate Carries(buffer: seq<Byte>, carried: nat, consumed: seq<Byte>, overlap: nat) {
    && carried == (if |consumed| < overlap then |consumed| else overlap)
    && carried <= |buffer|
    && buffer[..carried] == consumed[|consumed| - carried..]
  }

  /** A match in the text read so far that the last chunk completes lies inside the carried tail and that chunk. */
  lemma ViewDecides(consumed: seq<Byte>, chunk: seq<Byte>, pattern: seq<Byte>, carried: nat)
    requires pattern != [] && !Contains(consumed, pattern)
    requires carried == if |consumed| < |pattern| - 1 then |consumed| else |pattern| - 1
    ensures Contains(consumed + chunk, pattern) <==> Contains(consumed[|consumed| - carried..] + chunk, pattern)
  {
    var all, skip := consumed + chunk, |consumed| - carried;
    assert consumed[skip..] + chunk == all[skip..];
    forall i: int | OccursAt(all, pattern, i) ensures i >= skip {
      if i + |pattern| <= |consumed| {
        OccursPrefix(consumed, chunk, pattern, i);
      }
    }
    forall i: int | OccursAt(all, pattern, i) ensures OccursAt(all[skip..], pattern, i - skip) {
      OccursSuffix(all, skip, pattern, i - skip);
    }
    forall i: int | OccursAt(all[skip..], pattern, i) ensures OccursAt(all, pattern, skip + i) {
      OccursSuffix(all, skip, pattern, i);
    }
  }

  lemma ScanStep(chunks: seq<seq<Byte>>, j: nat, pattern: seq<Byte>, budget: nat, bytes: nat)
    requires j < |chunks|
    ensures Flatten(chunks[..j + 1]) == Flatten(chunks[..j]) + chunks[j]
    ensures ScanChunks(chunks, j, pattern, budget, bytes) ==
            var total := bytes + |chunks[j]|;
            if Contains(Flatten(chunks[..j]) + chunks[j], pattern) then (true, total)
            else if total >= budget then (false, total)
            else ScanChunks(chunks, j + 1, pattern, budget, total)
  {
    hide Contains;
    assert chunks[..j + 1][..j] == chunks[..j];
  }

  /** The tail of the new view is the tail of everything read so far. */
  lemma CarriesOn(consumed: seq<Byte>, chunk: seq<Byte>, view: seq<Byte>, buffer: seq<Byte>, carried: nat, kept: nat, overlap: nat)
    requires carried == if |consumed| < overlap then |consumed| else overlap
    requires view == consumed[|consumed| - carried..] + chunk
    requires kept == if overlap < |view| then overlap else |view|
    requires kept <= |buffer| && buffer[..kept] == view[|view| - kept..]
    ensures Carries(buffer, kept, consumed + chunk, overlap)
  {
    var all, skip := consumed + chunk, |consumed| - carried;
    assert view == all[skip..];
    TailOfTail(all, skip, kept);
    assert kept == if |all| < overlap then |all| else overlap;
  }

  lemma TailOfTail(s: seq<Byte>, skip: nat, kept: nat)
    requires skip <= |s| && kept <= |s| - skip
    ensures s[skip..][|s| - skip - kept..] == s[|s| - kept..]
  {
  }

  lemma CarriedTail(buffer: seq<Byte>, carried: nat, consumed: seq<Byte>, overlap: nat)
    requires Carries(buffer, carried, consumed, overlap)
    ensures carried == (if |consumed| < overlap then |consumed| else overlap) <= |buffer|
    ensures buffer[..carried] == consumed[|consumed| - carried..]
  {
  }

  lemma StartsEmpty(chunks: seq<seq<Byte>>, pattern: seq<Byte>, buffer: seq<Byte>, overlap: nat)
    requires pattern != []
    ensures Flatten(chunks[..0]) == [] && !Contains(Flatten(chunks[..0]), pattern)
    ensures Carries(buffer, 0, Flatten(chunks[..0]), overlap)
  {
  }

  /** One pass of the read loop: fill, search the view, and carry its tail when the search missed. */
  method ScanChunk(chunk: seq<Byte>, pattern: seq<Byte>, buffer: array<Byte>, carried: nat, ghost consumed: seq<Byte>)
    returns (hit: bool, kept: nat)
    requires |chunk| <= CHUNK && pattern != [] && buffer.Length == CHUNK + |pattern| - 1
    requires Carries(buffer[..], carried, consumed, |pattern| - 1) && !Contains(consumed, pattern)
    modifies buffer
    ensures hit <==> Contains(consumed + chunk, pattern)
    ensures !hit ==> Carries(buffer[..], kept, consumed + chunk, |pattern| - 1)
  {
    hide Contains, Carries;
    var overlap := |pattern| - 1;
    CarriedTail(buffer[..], carried, consumed, overlap);
    var view := ReadInto(buffer, carried, chunk);
    ViewDecides(consumed, chunk, pattern, carried);
    SearchDecides(view, pattern);
    kept := if overlap < |view| then overlap else |view|;
    hit := FirstFrom(view, pattern, 0).Some?;
    if !hit {
      MoveToFront(buffer, |view| - kept, kept);
      CarriesOn(consumed, chunk, view, buffer[..], carried, kept, overlap);
    }
  }

  method ScanFile(f: File, pattern: seq<Byte>, buffer: array<Byte>, budget: nat, before: nat)
    returns (found: bool, bytes: nat)
    requires ValidFile(f) && pattern != [] && buffer.Length == CHUNK + |pattern| - 1
    modifies buffer
    ensures (found, bytes) == ScanChunks(f.chunks, 0, pattern, budget, before)
  {
    hide Contains, Carries, Flatten, ScanChunks;
    var carried: nat, j: nat := 0, 0;
    found, bytes := false, before;
    StartsEmpty(f.chunks, pattern, buffer[..], |pattern| - 1);
    // the loop ends at the end of the file and on a read that throws alike
    while j < |f.chunks|
      invariant j <= |f.chunks| && !found && !Contains(Flatten(f.chunks[..j]), pattern)
      invariant Carries(buffer[..], carried, Flatten(f.chunks[..j]), |pattern| - 1)
      invariant ScanChunks(f.chunks, j, pattern, budget, bytes) == ScanChunks(f.chunks, 0, pattern, budget, before)
    {
      ScanStep(f.chunks, j, pattern, budget, bytes);
      found, carried := ScanChunk(f.chunks[j], pattern, buffer, carried, Flatten(f.chunks[..j]));
      bytes := bytes + |f.chunks[j]|;
      if found || bytes >= budget {
        return;
      }
      j := j + 1;
    }
    ScanEnd(f.chunks, pattern, budget, bytes);
  }

  lemma ScanEnd(chunks: seq<seq<Byte>>, pattern: seq<Byte>, budget: nat, bytes: nat)
    ensures ScanChunks(chunks, |chunks|, pattern, budget, bytes) == (false, bytes)
  {
  }

  /** `readSync` into the buffer after the carried bytes; the view is the part of the buffer now in use. */
  method ReadInto(buffer: array<Byte>, carried: nat, chunk: seq<Byte>) returns (view: seq<Byte>)
    requires carried + |chunk| <= buffer.Length
    modifies buffer
    ensures view == old(buffer[..carried]) + chunk == buffer[..carried + |chunk|]
  {
    forall k | 0 <= k < |chunk| {
      buffer[carried + k] := chunk[k];
    }
    view := buffer[..carried + |chunk|];
  }

  /** `Buffer.copy` onto the front of the same buffer. */
  method MoveToFront(buffer: array<Byte>, from: nat, count: nat)
    requires from + count <= buffer.Length
    modifies buffer
    ensures buffer[..count] == old(buffer[from..from + count])
  {
    forall k | 0 <= k < count {
      buffer[k] := buffer[from + k];
    }
  }

  method ScanForMarker(roots: seq<seq<File>>, pattern: seq<Byte>, budget: nat) returns (scan: Scan)
    requires pattern != []
    requires forall r, f | r in roots && f in r :: ValidFile(f)
    ensures scan == ScanRoots(roots, pattern, budget, Progress(0, 0, []))
  {
    var buffer := new Byte[CHUNK + |pattern| - 1];
    var p := Progress(0, 0, []);
    var i := 0;
    while i < |roots|
      invariant i <= |roots|
      invariant ScanRoots(roots[i..], pattern, budget, p) == ScanRoots(roots, pattern, budget, Progress(0, 0, []))
    {
      var files, entry := roots[i], p;
      var k := 0;
      while k < |files|
        invariant k <= |files|
        invariant ScanRoot(files[k..], pattern, budget, p) == ScanRoot(files, pattern, budget, entry)
      {
        if p.bytes >= budget {
          return Scan(false, p);
        }
        if files[k].opens {
          assert files[k] in roots[i];
          var found, bytes := ScanFile(files[k], pattern, buffer, budget, p.bytes);
          p := AfterFile(p, files[k], found, bytes);
          if found && |p.hits| >= HIT_CAP {
            break;
          }
        }
        k := k + 1;
      }
      assert roots[i..][1..] == roots[i + 1..];
      i := i + 1;
    }
    scan := Scan(p.bytes < budget, p);
  }
}
