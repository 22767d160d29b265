/** The commit budget of scripts/check-final-state.ts, with the whole history at hand and without it. */
module CommitBudget {
  import opened Text

  /** A recorded commit; `run` says whether its run concluded success, where it has one. */
  datatype Commit = Commit(sha: string, codeBearing: bool, run: Option<bool>)

  /** `thisCommit` is what the record declares its own commit to be, and `whyNoSha` the reason it gives for not naming it. */
  datatype Record = Record(range: seq<Commit>, ahead: seq<Commit>, thisCommit: Option<bool>, whyNoSha: string, used: int,
                           failedCi: int, allowed: Option<int>, violated: bool, disclosed: bool)

  /** `history` is false of a shallow clone and of a tree with no repository; `headPaths` is empty where it was not asked. */
  datatype Git = Git(history: bool, head: string, baselineToEvidence: seq<string>, aheadOfEvidence: seq<string>,
                     headPaths: seq<string>)

  function Shas(cs: seq<Commit>): seq<string> {
    seq(|cs|, i requires 0 <= i < |cs| => cs[i].sha)
  }

  function CodeBearing(cs: seq<Commit>): seq<Commit> { Filter(cs, (c: Commit) => c.codeBearing) }

  /** The commits that the record flags as documentation and git holds in the range. */
  function Excused(r: Record, git: Git): seq<Commit> {
    Filter(r.range, (c: Commit) => !c.codeBearing && c.sha in git.baselineToEvidence)
  }

  function FullHistory(r: Record, git: Git): int { |git.baselineToEvidence| - |Excused(r, git)| }

  function RecordAlone(r: Record): nat { |CodeBearing(r.range)| }

  /** What stands on top of the evidence commit: the listed ones, and the commit that the record lives in. */
  function OnTop(r: Record): nat {
    |CodeBearing(r.ahead)| + if r.thisCommit == Some(true) then 1 else 0
  }

  function Expected(r: Record, git: Git): int {
    (if git.history then FullHistory(r, git) else RecordAlone(r)) + OnTop(r)
  }

  function Failed(r: Record): nat {
    |Filter(r.range, (c: Commit) => c.codeBearing && c.run != Some(true))|
    + |Filter(r.ahead, (c: Commit) => c.codeBearing && c.run == Some(false))|
  }

  predicate IsDocumentation(path: string) {
    || (|path| >= 5 && path[..5] == "docs/")
    || (|path| >= 4 && path[|path| - 3..] == ".md" && forall i | 0 <= i < |path| - 3 :: path[i] != '/')
  }

  // ---- what the gate accepts ----

  predicate DeclarationHolds(r: Record, git: Git) {
    && r.thisCommit.Some? && !Blank(r.whyNoSha)
    && (git.headPaths != [] ==> (r.thisCommit.value <==> exists p | p in git.headPaths :: !IsDocumentation(p)))
  }

  predicate RangeMatches(r: Record, git: Git) {
    && (forall sha | sha in git.baselineToEvidence :: sha in Shas(r.range))
    && (forall sha | sha in Shas(r.range) :: sha in git.baselineToEvidence)
  }

  /** A record cannot name the commit that it lives in, so the head alone may be missing. */
  predicate AheadMatches(r: Record, git: Git) {
    && (forall sha | sha in git.aheadOfEvidence :: sha in Shas(r.ahead) || sha == git.head)
    && (forall sha | sha in Shas(r.ahead) :: sha in git.aheadOfEvidence)
  }

  predicate Accepts(r: Record, git: Git) {
    && DeclarationHolds(r, git)
    && (git.history ==> RangeMatches(r, git) && AheadMatches(r, git))
    && r.used == Expected(r, git)
    && r.failedCi == Failed(r)
    && (r.allowed.Some? && r.used > r.allowed.value ==> r.violated && r.disclosed)
  }

  datatype Problem = DeclaredDocumentation(paths: seq<string>) | DeclaredCode | NoThisCommit | NoReason
                   | Missing(shas: seq<string>) | Invented(shas: seq<string>) | Budget(expected: int)
                   | MissingAhead(shas: seq<string>) | InventedAhead(shas: seq<string>)
                   | FailedCi(count: nat) | NotCalledViolated | NotDisclosed

  // ---- what counts as documentation, and as a failed run ----

  /** Neither anything under `docs/` nor a Markdown file at the root. */
  ghost predicate CodePath(path: string) {
    && !(exists rest :: path == "docs/" + rest)
    && !(exists stem :: stem != "" && '/' !in stem && path == stem + ".md")
  }

  lemma DocumentationMeans(path: string)
    ensures IsDocumentation(path) <==> !CodePath(path)
  {
    if |path| >= 5 && path[..5] == "docs/" { assert path == "docs/" + path[5..]; }
    if |path| >= 4 && path[|path| - 3..] == ".md" && forall i | 0 <= i < |path| - 3 :: path[i] != '/' {
      assert path == path[..|path| - 3] + ".md";
    }
    if stem :| stem != "" && '/' !in stem && path == stem + ".md" {
      assert forall i | 0 <= i < |stem| :: path[i] == stem[i];
    }
  }

  lemma {:induction false} FilterSnoc<T(!new)>(s: seq<T>, x: T, p: T -> bool)
    ensures Filter(s + [x], p) == Filter(s, p) + if p(x) then [x] else []
  {
    if s != [] {
      assert (s + [x])[1..] == s[1..] + [x];
      FilterSnoc(s[1..], x, p);
    }
  }

  ghost function Places<T(!new)>(s: seq<T>, p: T -> bool): set<nat> {
    set i: nat | i < |s| && p(s[i])
  }

  lemma {:induction false} FilterCount<T(!new)>(s: seq<T>, p: T -> bool)
    ensures |Filter(s, p)| == |Places(s, p)|
  {
    hide Filter, Places;
    if s == [] {
      PlacesNone(p);
    } else {
      var n := |s| - 1;
      FilterCount(s[..n], p);
      CountSnoc(s[..n], s[n], p);
      assert s == s[..n] + [s[n]];
    }
  }

  lemma PlacesNone<T(!new)>(p: T -> bool)
    ensures Filter([], p) == [] && Places([], p) == {}
  {
  }

  lemma CountSnoc<T(!new)>(s: seq<T>, x: T, p: T -> bool)
    requires |Filter(s, p)| == |Places(s, p)|
    ensures |Filter(s + [x], p)| == |Places(s + [x], p)|
  {
    hide Filter, Places;
    FilterSnoc(s, x, p);
    PlacesSnoc(s, x, p);
  }

  lemma PlacesSnoc<T(!new)>(s: seq<T>, x: T, p: T -> bool)
    ensures Places(s + [x], p) == Places(s, p) + if p(x) then {|s|} else {}
    ensures |s| !in Places(s, p)
  {
    forall i: nat ensures i in Places(s + [x], p) <==> i in Places(s, p) || (i == |s| && p(x)) {
      if i < |s| { assert (s + [x])[i] == s[i]; }
    }
  }

  /**
   * A run fails the budget when its commit carries code: in the range when it did not conclude in success, on top of the
   * evidence only when it was recorded and did not.
   */
  lemma FailedMeans(r: Record)
    ensures Failed(r) == |set i: nat | i < |r.range| && r.range[i].codeBearing && r.range[i].run != Some(true)|
                         + |set i: nat | i < |r.ahead| && r.ahead[i].codeBearing && r.ahead[i].run == Some(false)|
  {
    hide Filter;
    FilterCount(r.range, (c: Commit) => c.codeBearing && c.run != Some(true));
    FilterCount(r.ahead, (c: Commit) => c.codeBearing && c.run == Some(false));
    assert Places(r.range, (c: Commit) => c.codeBearing && c.run != Some(true))
        == set i: nat | i < |r.range| && r.range[i].codeBearing && r.range[i].run != Some(true);
    assert Places(r.ahead, (c: Commit) => c.codeBearing && c.run == Some(false))
        == set i: nat | i < |r.ahead| && r.ahead[i].codeBearing && r.ahead[i].run == Some(false);
  }

  // ---- the problems reported ----

  /** The SHAs that are not among the known ones, in their order. */
  function Unlisted(shas: seq<string>, known: seq<string>): (r: seq<string>)
    ensures r == [] <==> forall sha | sha in shas :: sha in known
    ensures forall sha :: sha in r <==> sha in shas && sha !in known
  {
    EmptyFilter(shas, (sha: string) => sha !in known);
    Filter(shas, (sha: string) => sha !in known)
  }

  /** What each reported problem means. */
  ghost predicate Fault(p: Problem, r: Record, git: Git) {
    match p
    case DeclaredDocumentation(paths) =>
      r.thisCommit == Some(false) && paths != [] && paths == Filter(git.headPaths, (f: string) => !IsDocumentation(f))
    case DeclaredCode => r.thisCommit == Some(true) && git.headPaths != [] && forall f | f in git.headPaths :: !CodePath(f)
    case NoThisCommit => r.thisCommit == None
    case NoReason => r.thisCommit.Some? && Blank(r.whyNoSha)
    case Missing(shas) => git.history && shas != [] && shas == Unlisted(git.baselineToEvidence, Shas(r.range))
    case Invented(shas) => git.history && shas != [] && shas == Unlisted(Shas(r.range), git.baselineToEvidence)
    case Budget(expected) => expected == Expected(r, git) && r.used != expected
    case MissingAhead(shas) => git.history && shas != [] && shas == Unlisted(git.aheadOfEvidence, Shas(r.ahead) + [git.head])
    case InventedAhead(shas) => git.history && shas != [] && shas == Unlisted(Shas(r.ahead), git.aheadOfEvidence)
    case FailedCi(count) => count == Failed(r) && r.failedCi != count
    case NotCalledViolated => r.allowed.Some? && r.used > r.allowed.value && !r.violated
    case NotDisclosed => r.allowed.Some? && r.used > r.allowed.value && !r.disclosed
  }

  predicate OfDeclaration(p: Problem) { p.DeclaredDocumentation? || p.DeclaredCode? || p.NoThisCommit? || p.NoReason? }

  predicate OfRange(p: Problem) { p.Missing? || p.Invented? || p.Budget? }

  predicate OfAhead(p: Problem) { p.MissingAhead? || p.InventedAhead? }

  lemma AllDocumentation(paths: seq<string>)
    ensures Filter(paths, (f: string) => !IsDocumentation(f)) == [] <==> forall f | f in paths :: !CodePath(f)
  {
    EmptyFilter(paths, (f: string) => !IsDocumentation(f));
    forall f | f in paths ensures IsDocumentation(f) <==> !CodePath(f) { DocumentationMeans(f); }
  }

  method DeclarationProblems(r: Record, git: Git) returns (problems: seq<Problem>)
    ensures problems == [] <==> DeclarationHolds(r, git)
    ensures forall p :: p in problems <==> OfDeclaration(p) && Fault(p, r, git)
  {
    problems := [];
    if |git.headPaths| > 0 {
      var code := Filter(git.headPaths, (f: string) => !IsDocumentation(f));
      EmptyFilter(git.headPaths, (f: string) => !IsDocumentation(f));
      AllDocumentation(git.headPaths);
      if r.thisCommit == Some(false) && |code| > 0 { problems := problems + [DeclaredDocumentation(code)]; }
      if r.thisCommit == Some(true) && |code| == 0 { problems := problems + [DeclaredCode]; }
    }
    if r.thisCommit.None? {
      problems := problems + [NoThisCommit];
    } else if Blank(r.whyNoSha) {
      problems := problems + [NoReason];
    }
  }

  method RangeProblems(r: Record, git: Git) returns (problems: seq<Problem>)
    ensures problems == [] <==> (git.history ==> RangeMatches(r, git)) && r.used == Expected(r, git)
    ensures forall p :: p in problems <==> OfRange(p) && Fault(p, r, git)
  {
    hide Unlisted, FullHistory, RecordAlone, OnTop, Shas;
    var listed := Shas(r.range);
    problems := [];
    if git.history {
      var missing, invented := Unlisted(git.baselineToEvidence, listed), Unlisted(listed, git.baselineToEvidence);
      if |missing| > 0 { problems := problems + [Missing(missing)]; }
      if |invented| > 0 { problems := problems + [Invented(invented)]; }
      if r.used != FullHistory(r, git) + OnTop(r) { problems := problems + [Budget(FullHistory(r, git) + OnTop(r))]; }
    } else if r.used != RecordAlone(r) + OnTop(r) {
      problems := problems + [Budget(RecordAlone(r) + OnTop(r))];
    }
  }

  method AheadProblems(r: Record, git: Git) returns (problems: seq<Problem>)
    ensures problems == [] <==> (git.history ==> AheadMatches(r, git))
    ensures forall p :: p in problems <==> OfAhead(p) && Fault(p, r, git)
  {
    hide Unlisted, Shas;
    var recorded := Shas(r.ahead);
    problems := [];
    if git.history {
      var missing, invented := Unlisted(git.aheadOfEvidence, recorded + [git.head]), Unlisted(recorded, git.aheadOfEvidence);
      if |missing| > 0 { problems := problems + [MissingAhead(missing)]; }
      if |invented| > 0 { problems := problems + [InventedAhead(invented)]; }
    }
  }

  method BudgetProblems(r: Record, git: Git) returns (problems: seq<Problem>)
    ensures problems == [] <==> Accepts(r, git)
    ensures forall p :: p in problems <==> Fault(p, r, git)
  {
    hide DeclarationHolds, RangeMatches, AheadMatches, Expected, Failed;
    problems := DeclarationProblems(r, git);
    var range := RangeProblems(r, git);
    problems := problems + range;
    var ahead := AheadProblems(r, git);
    problems := problems + ahead;
    if r.failedCi != Failed(r) { problems := problems + [FailedCi(Failed(r))]; }
    if r.allowed.Some? && r.used > r.allowed.value {
      if !r.violated { problems := problems + [NotCalledViolated]; }
      if !r.disclosed { problems := problems + [NotDisclosed]; }
    }
  }

  // ---- counting ----

  ghost function Elements<T>(s: seq<T>): set<T> { set x | x in s }

  lemma {:induction false} Cardinal<T>(s: seq<T>)
    ensures |Elements(s)| <= |s|
    ensures |Elements(s)| == |s| <==> Distinct(s)
  {
    if s != [] {
      var n := |s| - 1;
      Cardinal(s[..n]);
      assert s == s[..n] + [s[n]];
      assert Elements(s) == Elements(s[..n]) + {s[n]};
      DistinctSnoc(s);
    }
  }

  lemma DistinctSnoc<T>(s: seq<T>)
    requires s != []
    ensures Distinct(s) <==> Distinct(s[..|s| - 1]) && s[|s| - 1] !in s[..|s| - 1]
  {
    var n := |s| - 1;
    var front := s[..n];
    assert forall i | 0 <= i < n :: front[i] == s[i];
    if Distinct(front) && s[n] !in front {
      forall i, j | 0 <= i < j < |s| ensures s[i] != s[j] {
        if j == n { assert s[i] == front[i] && front[i] in front; } else { assert front[i] != front[j]; }
      }
    }
  }

  lemma {:induction false} FilterSplits<T(!new)>(s: seq<T>, p: T -> bool, q: T -> bool)
    requires forall x | x in s :: p(x) <==> !q(x)
    ensures |Filter(s, p)| + |Filter(s, q)| == |s|
  {
    if s != [] { FilterSplits(s[1..], p, q); }
  }

  lemma {:induction false} FilterKeepsDistinct(cs: seq<Commit>, p: Commit -> bool)
    requires Distinct(Shas(cs))
    ensures Distinct(Shas(Filter(cs, p)))
  {
    if cs != [] {
      var c, rest := cs[0], cs[1..];
      hide Distinct;
      assert Distinct(Shas(rest)) && forall k | 0 <= k < |rest| :: rest[k].sha != c.sha by { TailDistinct(cs); }
      FilterKeepsDistinct(rest, p);
      var kept := Filter(rest, p);
      forall i | 0 <= i < |kept| ensures kept[i].sha != c.sha { assert kept[i] in rest; }
      PrependDistinct(c, kept);
      assert Filter(cs, p) == if p(c) then [c] + kept else kept;
    }
  }

  lemma TailDistinct(cs: seq<Commit>)
    requires cs != [] && Distinct(Shas(cs))
    ensures Distinct(Shas(cs[1..])) && forall k | 0 <= k < |cs[1..]| :: cs[1..][k].sha != cs[0].sha
  {
    var all, rest := Shas(cs), cs[1..];
    forall k | 0 <= k < |rest| ensures rest[k].sha != cs[0].sha { assert all[0] != all[k + 1]; }
    forall i, j | 0 <= i < j < |rest| ensures Shas(rest)[i] != Shas(rest)[j] { assert all[i + 1] != all[j + 1]; }
  }

  lemma PrependDistinct(c: Commit, kept: seq<Commit>)
    requires Distinct(Shas(kept)) && forall i | 0 <= i < |kept| :: kept[i].sha != c.sha
    ensures Distinct(Shas([c] + kept))
  {
    var all := Shas([c] + kept);
    forall i, j | 0 <= i < j < |all| ensures all[i] != all[j] {
      if i > 0 { assert Shas(kept)[i - 1] != Shas(kept)[j - 1]; }
    }
  }

  // ---- the two branches ----

  /** The SHAs that the record calls documentation. */
  ghost function Documented(r: Record): set<string> {
    set c | c in r.range && !c.codeBearing :: c.sha
  }

  /** Every commit of git's range that the record does not call documentation, listed or not. */
  ghost function Charged(r: Record, git: Git): set<string> {
    set sha | sha in git.baselineToEvidence && sha !in Documented(r)
  }

  /**
   * With the history at hand the count starts from git: a commit that the record leaves out is charged. It never charges
   * too many; it charges exactly these when, and only when, no documentation commit of the range is recorded twice.
   */
  lemma FullHistoryCounts(r: Record, git: Git)
    requires Distinct(git.baselineToEvidence)
    ensures FullHistory(r, git) <= |Charged(r, git)|
    ensures FullHistory(r, git) == |Charged(r, git)| <==> Distinct(Shas(Excused(r, git)))
  {
    hide Filter;
    var all, excused := Elements(git.baselineToEvidence), Elements(Shas(Excused(r, git)));
    Cardinal(git.baselineToEvidence);
    Cardinal(Shas(Excused(r, git)));
    forall sha ensures sha in excused <==> sha in all && sha in Documented(r) { ExcusedMeans(r, git, sha); }
    assert Charged(r, git) == all - excused;
    assert excused <= all;
  }

  lemma ExcusedMeans(r: Record, git: Git, sha: string)
    ensures sha in Elements(Shas(Excused(r, git))) <==> sha in git.baselineToEvidence && sha in Documented(r)
  {
    var e := Excused(r, git);
    if sha in Elements(Shas(e)) {
      var i :| 0 <= i < |e| && Shas(e)[i] == sha;
      assert e[i] in e;
    }
    if sha in git.baselineToEvidence && sha in Documented(r) {
      var c :| c in r.range && !c.codeBearing && c.sha == sha;
      assert c in e;
      var i :| 0 <= i < |e| && e[i] == c;
      assert Shas(e)[i] == sha;
    }
  }

  /**
   * The two branches demand the same figure of a record whose list holds git's range exactly when that list
   * names no commit twice.
   */
  lemma BranchesAgree(r: Record, git: Git)
    requires Distinct(git.baselineToEvidence) && RangeMatches(r, git)
    ensures FullHistory(r, git) == RecordAlone(r) <==> Distinct(Shas(r.range))
  {
    hide Filter;
    forall c | c in r.range ensures c.sha in git.baselineToEvidence {
      var i :| 0 <= i < |r.range| && r.range[i] == c;
      assert Shas(r.range)[i] == c.sha;
    }
    FilterSplits(r.range, (c: Commit) => !c.codeBearing && c.sha in git.baselineToEvidence, (c: Commit) => c.codeBearing);
    Cardinal(git.baselineToEvidence);
    Cardinal(Shas(r.range));
    assert Elements(git.baselineToEvidence) == Elements(Shas(r.range));
  }

  /** What passes where the history is at hand passes where it is not. */
  lemma HistoryIsStricter(r: Record, git: Git)
    requires git.history && Distinct(git.baselineToEvidence) && Distinct(Shas(r.range)) && Accepts(r, git)
    ensures Accepts(r, git.(history := false))
  {
    hide Filter, Failed, Distinct;
    BranchesAgree(r, git);
  }

  /** Not demanded of the record, and needed: a documentation commit listed twice hides a code-bearing one. */
  lemma ListedTwice()
    ensures var docs := Commit("b", false, Some(true));
            var r := Record([Commit("a", true, Some(true)), docs, docs], [], Some(false), "own", 0, 0, None, false, false);
            var git := Git(true, "b", ["b", "a"], [], []);
            Accepts(r, git) && Charged(r, git) == {"a"} && RecordAlone(r) == 1
  {
    var code, docs := Commit("a", true, Some(true)), Commit("b", false, Some(true));
    var r := Record([code, docs, docs], [], Some(false), "own", 0, 0, None, false, false);
    var git := Git(true, "b", ["b", "a"], [], []);
    hide Failed, FullHistory, RecordAlone, OnTop;
    TwiceCounts(code, docs, r, git);
    assert !IsSpace("own"[0]);
    assert Documented(r) == {"b"} by { assert docs in r.range; }
    assert Shas(r.range) == ["a", "b", "b"];
  }

  lemma TwiceCounts(code: Commit, docs: Commit, r: Record, git: Git)
    requires code == Commit("a", true, Some(true)) && docs == Commit("b", false, Some(true))
    requires r == Record([code, docs, docs], [], Some(false), "own", 0, 0, None, false, false)
    requires git == Git(true, "b", ["b", "a"], [], [])
    ensures Failed(r) == 0 && FullHistory(r, git) == 0 && RecordAlone(r) == 1 && OnTop(r) == 0
  {
    hide Filter;
    FilterThree(code, docs, docs, (c: Commit) => !c.codeBearing && c.sha in git.baselineToEvidence);
    FilterThree(code, docs, docs, (c: Commit) => c.codeBearing);
    FilterThree(code, docs, docs, (c: Commit) => c.codeBearing && c.run != Some(true));
    NoCommits((c: Commit) => c.codeBearing);
    NoCommits((c: Commit) => c.codeBearing && c.run == Some(false));
  }

  lemma NoCommits(p: Commit -> bool)
    ensures Filter([], p) == []
  {
  }

  lemma FilterThree(a: Commit, b: Commit, c: Commit, p: Commit -> bool)
    ensures |Filter([a, b, c], p)| == (if p(a) then 1 else 0) + (if p(b) then 1 else 0) + (if p(c) then 1 else 0)
  {
    assert [a, b, c][1..] == [b, c] && [b, c][1..] == [c] && [c][1..] == [];
    assert |Filter([c], p)| == if p(c) then 1 else 0;
    assert |Filter([b, c], p)| == (if p(b) then 1 else 0) + |Filter([c], p)|;
  }

  // ---- what an accepted figure counts ----

  /** Git holds the head above the evidence commit and the record does not list it: it is the commit the record lives in. */
  predicate LivesInHead(r: Record, git: Git) {
    git.head in git.aheadOfEvidence && git.head !in Shas(r.ahead)
  }

  /** The commits since the baseline that the record, read with its word for its own commit, makes code-bearing. */
  ghost function Delivered(r: Record, git: Git): set<string> {
    Charged(r, git) + Elements(Shas(CodeBearing(r.ahead)))
    + if LivesInHead(r, git) && r.thisCommit == Some(true) then {git.head} else {}
  }

  /**
   * The figure that an accepted record publishes is the number of distinct code-bearing commits that git holds since the
   * baseline, every unlisted one but the head among them; one more when the record's own commit is still to be made.
   */
  lemma AcceptedFigure(r: Record, git: Git)
    requires git.history && Accepts(r, git)
    requires Distinct(git.baselineToEvidence + git.aheadOfEvidence)
    requires Distinct(Shas(r.range)) && Distinct(Shas(r.ahead))
    ensures Delivered(r, git) <= Elements(git.baselineToEvidence + git.aheadOfEvidence)
    ensures r.used == |Delivered(r, git)| + if r.thisCommit == Some(true) && !LivesInHead(r, git) then 1 else 0
  {
    hide Filter, Failed, Distinct, DeclarationHolds;
    var charged, listed := Charged(r, git), Elements(Shas(CodeBearing(r.ahead)));
    DistinctParts(git.baselineToEvidence, git.aheadOfEvidence);
    FullHistoryCounts(r, git);
    FilterKeepsDistinct(r.range, (c: Commit) => !c.codeBearing && c.sha in git.baselineToEvidence);
    FilterKeepsDistinct(r.ahead, (c: Commit) => c.codeBearing);
    Cardinal(Shas(CodeBearing(r.ahead)));
    forall sha | sha in listed ensures sha in Shas(r.ahead) { ListedAhead(r, sha); }
    assert listed <= Elements(git.aheadOfEvidence);
    assert charged <= Elements(git.baselineToEvidence);
    assert |charged + listed| == |charged| + |listed|;
  }

  lemma ListedAhead(r: Record, sha: string)
    requires sha in Elements(Shas(CodeBearing(r.ahead)))
    ensures sha in Shas(r.ahead)
  {
    var kept := CodeBearing(r.ahead);
    var i :| 0 <= i < |kept| && Shas(kept)[i] == sha;
    assert kept[i] in r.ahead;
    var k :| 0 <= k < |r.ahead| && r.ahead[k] == kept[i];
    assert Shas(r.ahead)[k] == sha;
  }

  lemma DistinctParts<T>(a: seq<T>, b: seq<T>)
    requires Distinct(a + b)
    ensures Distinct(a) && Distinct(b) && Elements(a) !! Elements(b)
  {
    assert forall i | 0 <= i < |a| :: (a + b)[i] == a[i];
    forall i, j | 0 <= i < j < |b| ensures b[i] != b[j] { assert (a + b)[|a| + i] != (a + b)[|a| + j]; }
    forall i, j | 0 <= i < |a| && 0 <= j < |b| ensures a[i] != b[j] { assert (a + b)[i] != (a + b)[|a| + j]; }
  }
}
