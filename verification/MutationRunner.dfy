/** The mutation loop of scripts/mutation-kill.ts, with the battery a function of the tree it runs in. */
module MutationRunner {
  import opened Text
  import opened CanonicalText

  type Tree = map<string, string>

  datatype Mutation = Mutation(id: string, file: string, from: string, to: string, testFile: string, testName: string)

  datatype TestRun = TestRun(status: int, failed: seq<string>)

  type Battery = (Tree, string) -> TestRun

  // ---- one exact edit ----

  /** The parts between the occurrences of a separator, from the left, without overlap. */
  function Parts(s: string, sep: string): seq<string>
    requires sep != ""
    decreases |s|
  {
    var first := FirstFrom(s, sep, 0);
    if first.None? then [s] else [s[..first.value]] + Parts(s[first.value + |sep|..], sep)
  }

  /** `split`, which divides at every character when the separator is empty. */
  function Split(s: string, sep: string): seq<string> {
    if sep == "" then seq(|s|, i requires 0 <= i < |s| => [s[i]]) else Parts(s, sep)
  }

  function Join(parts: seq<string>, sep: string): string {
    if parts == [] then "" else if |parts| == 1 then parts[0] else parts[0] + sep + Join(parts[1..], sep)
  }

  /** The text the runner writes over a file: line endings canonical, every part joined by the replacement. */
  function Mutated(original: string, m: Mutation): string {
    Join(Split(Canonical(original), m.from), m.to)
  }

  predicate Green(r: TestRun) { r.status == 0 && r.failed == [] }

  /** The named test is among those that failed. */
  predicate Names(r: TestRun, name: string) {
    exists i | 0 <= i < |r.failed| :: FirstFrom(r.failed[i], name, 0).Some?
  }

  datatype AnchorProblem = NoFile(id: string) | NotOnce(id: string, count: int) | NoChange(id: string)
                         | NoTestFile(id: string) | NoTest(id: string)

  function ProblemsOf(m: Mutation, tree: Tree): seq<AnchorProblem> {
    if m.file !in tree then [NoFile(m.id)]
    else
      var count := |Split(Canonical(tree[m.file]), m.from)| - 1;
      (if count != 1 then [NotOnce(m.id, count)] else [])
      + (if m.from == m.to then [NoChange(m.id)] else [])
      + (if m.testFile !in tree then [NoTestFile(m.id)]
         else if FirstFrom(tree[m.testFile], m.testName, 0).None? then [NoTest(m.id)] else [])
  }

  /** The mutation can be run: its anchor counts once, it changes something, and its test is declared. */
  predicate Anchored(m: Mutation, tree: Tree) {
    && m.file in tree && |Split(Canonical(tree[m.file]), m.from)| == 2 && m.from != m.to
    && m.testFile in tree && FirstFrom(tree[m.testFile], m.testName, 0).Some?
  }

  /** What each reported problem means. */
  ghost predicate Wrong(p: AnchorProblem, m: Mutation, tree: Tree) {
    && p.id == m.id && (p.NoFile? <==> m.file !in tree)
    && match p
       case NoFile(_) => true
       case NotOnce(_, count) => count != 1 && count == |Split(Canonical(tree[m.file]), m.from)| - 1
       case NoChange(_) => m.from == m.to
       case NoTestFile(_) => m.testFile !in tree
       case NoTest(_) => m.testFile in tree && !Contains(tree[m.testFile], m.testName)
  }

  lemma ProblemsMean(m: Mutation, tree: Tree)
    ensures forall p :: p in ProblemsOf(m, tree) <==> Wrong(p, m, tree)
    ensures ProblemsOf(m, tree) == [] <==> Anchored(m, tree)
  {
    hide Split, Canonical;
    if m.testFile in tree { SearchDecides(tree[m.testFile], m.testName); }
  }

  /** The problems reported are exactly those that some mutation has. */
  method AnchorProblems(ms: seq<Mutation>, tree: Tree) returns (problems: seq<AnchorProblem>)
    ensures forall p :: p in problems <==> exists i :: 0 <= i < |ms| && Wrong(p, ms[i], tree)
    ensures problems == [] <==> forall i | 0 <= i < |ms| :: Anchored(ms[i], tree)
  {
    hide ProblemsOf, Anchored, Wrong;
    problems := [];
    for n := 0 to |ms|
      invariant forall p :: p in problems <==> exists i :: 0 <= i < n && Wrong(p, ms[i], tree)
      invariant problems == [] <==> forall i | 0 <= i < n :: Anchored(ms[i], tree)
    {
      ProblemsMean(ms[n], tree);
      problems := problems + ProblemsOf(ms[n], tree);
    }
  }

  // ---- the verdict on one mutation, from the pristine tree alone ----

  datatype Verdict = Killed | Inconclusive | Aborted | Survived

  datatype Result = Result(id: string, baselineGreen: bool, after: TestRun, intact: bool, verdict: Verdict)

  function VerdictOf(baselineGreen: bool, dead: bool, intact: bool): Verdict {
    if baselineGreen && dead && intact then Killed
    else if !baselineGreen then Inconclusive
    else if !intact then Aborted
    else Survived
  }

  /** Each verdict, from the three things observed: a control is only blamed when everything around it was in order. */
  lemma VerdictMeans(green: bool, dead: bool, intact: bool)
    ensures var v := VerdictOf(green, dead, intact);
            && (v == Killed <==> green && dead && intact) && (v == Inconclusive <==> !green)
            && (v == Aborted <==> green && !intact) && (v == Survived <==> green && intact && !dead)
  {
  }

  function Judge(root: Tree, battery: Battery, m: Mutation): Result
    requires m.file in root
  {
    var green := Green(battery(root, m.testFile));
    var after := battery(root[m.file := Mutated(root[m.file], m)], m.testFile);
    Result(m.id, green, after, true, VerdictOf(green, after.status != 0 && Names(after, m.testName), true))
  }

  function Survivors(results: seq<Result>): nat {
    if results == [] then 0
    else Survivors(results[..|results| - 1]) + if results[|results| - 1].verdict == Killed then 0 else 1
  }

  /** A directory the process can write: the working tree, or the isolated copy of it. */
  class Directory {
    var files: Tree

    constructor (root: Tree)
      ensures files == root
    {
      files := root;
    }
  }

  /** What the runner has learnt: every cached baseline is a green run on the pristine tree. */
  ghost predicate CacheSound(baseline: map<string, TestRun>, root: Tree, battery: Battery) {
    forall f | f in baseline :: baseline[f] == battery(root, f) && Green(baseline[f])
  }

  /** The baseline, cached or run afresh, is the run on the pristine tree; only a green one is kept. */
  method Baseline(testFile: string, copy: Directory, battery: Battery, baseline: map<string, TestRun>)
    returns (base: TestRun, known: map<string, TestRun>)
    requires CacheSound(baseline, copy.files, battery)
    ensures base == battery(copy.files, testFile)
    ensures CacheSound(known, copy.files, battery)
    ensures testFile in known <==> Green(base)
  {
    known := baseline;
    if testFile in baseline {
      base := baseline[testFile];
    } else {
      base := battery(copy.files, testFile);
      if Green(base) { known := baseline[testFile := base]; }
    }
  }

  /** One mutation: edit one file of the copy, run the battery, put the file back. */
  method RunOne(m: Mutation, root: Directory, copy: Directory, battery: Battery, baseline: map<string, TestRun>)
    returns (result: Result, known: map<string, TestRun>)
    requires root != copy && copy.files == root.files && m.file in root.files
    requires CacheSound(baseline, root.files, battery)
    modifies copy
    ensures copy.files == root.files
    ensures result == Judge(root.files, battery, m)
    ensures CacheSound(known, root.files, battery)
  {
    hide Mutated, Names, CacheSound;
    var original := copy.files[m.file];
    var untouched := root.files[m.file];
    var base;
    base, known := Baseline(m.testFile, copy, battery, baseline);
    copy.files := copy.files[m.file := Mutated(original, m)];
    var after := battery(copy.files, m.testFile);
    var dead := after.status != 0 && Names(after, m.testName);
    copy.files := copy.files[m.file := original];
    assert copy.files == root.files;
    var intact := root.files[m.file] == untouched;
    result := Result(m.id, Green(base), after, intact, VerdictOf(Green(base), dead, intact));
  }

  /**
   * The whole run: refused before anything is touched when an anchor is wrong; otherwise every verdict is the one the
   * pristine tree alone gives, whatever was cached, however many mutations edit one file, and in whatever order.
   */
  method RunMutations(ms: seq<Mutation>, root: Directory, copy: Directory, battery: Battery)
    returns (ran: bool, results: seq<Result>, killed: nat, survivors: nat)
    requires root != copy && copy.files == root.files
    modifies copy
    ensures copy.files == root.files
    ensures ran <==> forall i | 0 <= i < |ms| :: Anchored(ms[i], root.files)
    ensures ran ==> |results| == |ms|
                    && forall i | 0 <= i < |ms| :: results[i] == Judge(root.files, battery, ms[i])
    ensures ran ==> survivors == Survivors(results) && killed + survivors == |ms|
    ensures !ran ==> results == []
  {
    hide Mutated, Names, Judge, Split;
    results, killed, survivors := [], 0, 0;
    var problems := AnchorProblems(ms, root.files);
    ran := problems == [];
    if !ran { return; }
    var baseline: map<string, TestRun> := map[];
    for n := 0 to |ms|
      invariant copy.files == root.files
      invariant CacheSound(baseline, root.files, battery)
      invariant |results| == n && forall i | 0 <= i < n :: results[i] == Judge(root.files, battery, ms[i])
      invariant survivors == Survivors(results) <= n
    {
      var result;
      assert Anchored(ms[n], root.files);
      result, baseline := RunOne(ms[n], root, copy, battery, baseline);
      if result.verdict != Killed { survivors := survivors + 1; }
      assert (results + [result])[..n] == results;
      results := results + [result];
    }
    killed := |ms| - survivors;
  }

  // ---- what a verdict means ----

  lemma JoinStep(part: string, parts: seq<string>, sep: string)
    requires parts != []
    ensures Join([part] + parts, sep) == part + sep + Join(parts, sep)
  {
    assert ([part] + parts)[1..] == parts;
  }

  lemma SplitNotEmpty(s: string, sep: string)
    requires sep != ""
    ensures |Split(s, sep)| >= 1
  {
  }

  lemma {:induction false} JoinUndoesSplit(s: string, sep: string)
    ensures Join(Split(s, sep), sep) == s
    decreases |s|
  {
    hide Join;
    if sep == "" {
      JoinChars(s);
      return;
    }
    var first := FirstFrom(s, sep, 0);
    if first.None? {
      JoinOne(s, sep);
      return;
    }
    var i := first.value;
    var rest := s[i + |sep|..];
    JoinUndoesSplit(rest, sep);
    SplitNotEmpty(rest, sep);
    JoinStep(s[..i], Split(rest, sep), sep);
    TakeApart(s, sep, i);
  }

  lemma JoinOne(s: string, sep: string)
    ensures Join([s], sep) == s
  {
  }

  lemma TakeApart(s: string, p: string, i: nat)
    requires OccursAt(s, p, i)
    ensures s[..i] + p + s[i + |p|..] == s
  {
  }

  lemma {:induction false} JoinChars(s: string)
    ensures Join(Split(s, ""), "") == s
  {
    if |s| > 1 {
      assert Split(s, "")[1..] == Split(s[1..], "");
      JoinChars(s[1..]);
    }
  }

  /** An anchor that counts once is one splice: the text before it, the replacement, the text after it. */
  lemma OneSplice(s: string, from: string, to: string)
    requires |Split(s, from)| == 2
    ensures var p := Split(s, from);
            s == p[0] + from + p[1] && Join(p, to) == p[0] + to + p[1]
  {
    JoinUndoesSplit(s, from);
  }

  /** The count is of occurrences that do not overlap: it is one exactly when none begins after the end of the first. */
  lemma CountedOnce(s: string, from: string)
    requires from != ""
    ensures |Split(s, from)| == 2 <==>
            FirstFrom(s, from, 0).Some? && FirstFrom(s, from, FirstFrom(s, from, 0).value + |from|).None?
  {
    hide FirstFrom, Split;
    SplitStep(s, from);
    var first := FirstFrom(s, from, 0);
    if first.Some? {
      FirstFromSuffix(s, first.value + |from|, from, 0);
      SplitLength(s[first.value + |from|..], from);
    }
  }

  lemma SplitStep(s: string, sep: string)
    requires sep != ""
    ensures FirstFrom(s, sep, 0).None? ==> |Split(s, sep)| == 1
    ensures FirstFrom(s, sep, 0).Some? ==> |Split(s, sep)| == 1 + |Split(s[FirstFrom(s, sep, 0).value + |sep|..], sep)|
  {
    hide FirstFrom, OccursAt, Split;
    var first := FirstFrom(s, sep, 0);
    if first.None? { SplitWhole(s, sep); } else { SplitFirst(s, sep, first.value); }
  }

  lemma SplitWhole(s: string, sep: string)
    requires sep != "" && FirstFrom(s, sep, 0) == None
    ensures Split(s, sep) == [s]
  {
    hide FirstFrom, OccursAt;
  }

  lemma SplitFirst(s: string, sep: string, i: nat)
    requires sep != "" && FirstFrom(s, sep, 0) == Some(i)
    ensures i + |sep| <= |s| && Split(s, sep) == [s[..i]] + Split(s[i + |sep|..], sep)
  {
    hide FirstFrom;
  }

  lemma SplitLength(s: string, sep: string)
    requires sep != ""
    ensures |Split(s, sep)| == 1 <==> FirstFrom(s, sep, 0).None?
    ensures |Split(s, sep)| >= 1
  {
    hide FirstFrom, Split;
    SplitStep(s, sep);
    var first := FirstFrom(s, sep, 0);
    if first.Some? { SplitNotEmpty(s[first.value + |sep|..], sep); }
  }

  ghost predicate OccursOnce(s: string, p: string) {
    exists i: nat :: OccursAt(s, p, i) && forall j: nat | OccursAt(s, p, j) :: j == i
  }

  /** An anchor counted once occurs once exactly when no occurrence overlaps the first. */
  lemma CountedOnceOccursOnce(s: string, from: string)
    requires from != "" && |Split(s, from)| == 2
    ensures OccursOnce(s, from) <==>
            var i := FirstFrom(s, from, 0).value;
            forall j: nat | i < j < i + |from| :: !OccursAt(s, from, j)
  {
    hide FirstFrom, Split;
    CountedOnce(s, from);
    var i := FirstFrom(s, from, 0).value;
    if forall j: nat | i < j < i + |from| :: !OccursAt(s, from, j) {
      assert OccursAt(s, from, i) && forall j: nat | OccursAt(s, from, j) :: j == i;
    }
  }

  /** `aa` counts once in `aaa` and occurs twice. */
  lemma OverlapCountsOnce()
    ensures |Split("aaa", "aa")| == 2 && !OccursOnce("aaa", "aa")
  {
    var s, p := "aaa", "aa";
    assert s[0..2] == p && s[1..3] == p;
    FirstIs(s, p, 0, 0);
    assert s[2..] == "a" && FirstFrom("a", p, 0) == None;
    CountedOnce(s, p);
    assert OccursAt(s, p, 0) && OccursAt(s, p, 1);
  }

  /** The battery is green when it exits cleanly and no test failed. */
  ghost predicate GreenOn(tree: Tree, battery: Battery, testFile: string) {
    battery(tree, testFile).status == 0 && battery(tree, testFile).failed == []
  }

  /** The battery fails, and some failed test has the name. */
  ghost predicate FailsOn(tree: Tree, battery: Battery, testFile: string, testName: string) {
    && battery(tree, testFile).status != 0
    && exists k :: 0 <= k < |battery(tree, testFile).failed| && Contains(battery(tree, testFile).failed[k], testName)
  }

  lemma NamesMeans(r: TestRun, name: string)
    ensures Names(r, name) <==> exists k :: 0 <= k < |r.failed| && Contains(r.failed[k], name)
  {
    forall k | 0 <= k < |r.failed| ensures FirstFrom(r.failed[k], name, 0).Some? <==> Contains(r.failed[k], name) {
      SearchDecides(r.failed[k], name);
    }
  }

  /**
   * A kill is credited exactly when the battery is green on the pristine tree and, on the tree that differs in one
   * file, fails the named test; a battery that was not green decides nothing, and otherwise the mutation survived. The
   * one file holds the canonical text with one occurrence of the anchor replaced.
   */
  lemma KilledMeans(root: Tree, battery: Battery, m: Mutation)
    requires Anchored(m, root)
    ensures var p, r := Split(Canonical(root[m.file]), m.from), Judge(root, battery, m);
            var edited := root[m.file := p[0] + m.to + p[1]];
            var green, fails := GreenOn(root, battery, m.testFile), FailsOn(edited, battery, m.testFile, m.testName);
            && Canonical(root[m.file]) == p[0] + m.from + p[1]
            && (r.verdict == Killed <==> green && fails)
            && (r.verdict == Inconclusive <==> !green)
            && (r.verdict == Survived <==> green && !fails)
            && r.id == m.id && r.intact && (r.baselineGreen <==> green) && r.after == battery(edited, m.testFile)
  {
    hide Names, Split, Canonical;
    var p := Split(Canonical(root[m.file]), m.from);
    OneSplice(Canonical(root[m.file]), m.from, m.to);
    NamesMeans(battery(root[m.file := p[0] + m.to + p[1]], m.testFile), m.testName);
  }

  /** The edit is the only difference between the two trees exactly when the file was checked out without CRLF. */
  lemma OnlyTheEdit(root: Tree, m: Mutation)
    requires Anchored(m, root)
    ensures var p := Split(Canonical(root[m.file]), m.from);
            root[m.file] == p[0] + m.from + p[1] <==> !Contains(root[m.file], "\r\n")
  {
    OneSplice(Canonical(root[m.file]), m.from, m.to);
    CanonicalFixed(root[m.file]);
  }

  /** In a file checked out with CRLF, replacing `b` by `c` changes the line ending too. */
  lemma EditChangesMore(m: Mutation)
    requires m.from == "b" && m.to == "c"
    ensures Mutated("b\r\n", m) == "c\n"
  {
    assert "b\r\n"[1..] == "\r\n" && "\r\n"[2..] == "" && "b\n"[1..] == "\n" && "\n"[1..] == "";
    assert Canonical("b\r\n") == "b\n";
    assert "b\n"[0..1] == "b" && FirstFrom("b\n", "b", 0) == Some(0);
    assert "\n"[0..1] != "b" && FirstFrom("\n", "b", 0) == None;
    assert Split("\n", "b") == ["\n"];
    assert Split("b\n", "b") == [""] + ["\n"];
    JoinStep("", ["\n"], "c");
    JoinOne("\n", "c");
  }

  /** No survivor is reported exactly when every mutation was killed. */
  lemma {:induction false} NoSurvivors(results: seq<Result>)
    ensures Survivors(results) <= |results|
    ensures Survivors(results) == 0 <==> forall i | 0 <= i < |results| :: results[i].verdict == Killed
  {
    if results != [] {
      NoSurvivors(results[..|results| - 1]);
      assert forall i | 0 <= i < |results| - 1 :: results[i] == results[..|results| - 1][i];
    }
  }
}
