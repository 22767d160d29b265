/** The fixture-chain allowlist and the mode decision of scripts/migration-fixture-chains.ts. */
module FixtureChains {
  import opened Text
  import opened CanonicalText

  /** A directory as a run sees it: absent, or its file names with the text each holds. */
  datatype Directory = Missing | Present(files: map<string, string>)

  datatype ChainFile = ChainFile(required: bool, variants: set<string>)

  datatype Chain = Chain(files: map<string, ChainFile>)

  datatype ChainProblem =
    | UndeclaredChain
    | NoDirectory
    | RequiredAbsent(name: string)
    | NotDeclared(name: string)
    | NotAdmitted(name: string, digest: string)

  predicate IsSql(name: string) {
    |name| >= 4 && name[|name| - 4..] == ".sql"
  }

  function SqlNames(files: map<string, string>): set<string> {
    set f | f in files && IsSql(f)
  }

  function RequiredNames(chain: Chain): set<string> {
    set f | f in chain.files && chain.files[f].required
  }

  function FileProblem(chain: Chain, name: string, digest: string): Option<ChainProblem> {
    if name !in chain.files then Some(NotDeclared(name))
    else if digest !in chain.files[name].variants then Some(NotAdmitted(name, digest))
    else None
  }

  /** A file the runner lists: one whose name ends in `.sql`. */
  ghost predicate Listed(f: string, files: map<string, string>) {
    f in files && exists stem :: f == stem + ".sql"
  }

  lemma ListedNames(files: map<string, string>)
    ensures forall f :: f in SqlNames(files) <==> Listed(f, files)
    ensures forall f | Listed(f, files) :: f in files
  {
    forall f | f in files ensures IsSql(f) <==> exists stem :: f == stem + ".sql" {
      if IsSql(f) { assert f == f[..|f| - 4] + ".sql"; }
    }
  }

  /** What a chain admits: every SQL file by its declared canonical digest, and every required file present. */
  ghost predicate Admits(chain: Chain, files: map<string, string>, digest: string -> string) {
    && (forall f | f in chain.files && chain.files[f].required :: Listed(f, files))
    && forall f | Listed(f, files) :: f in chain.files && digest(Canonical(files[f])) in chain.files[f].variants
  }

  ghost predicate Problematic(p: ChainProblem, chain: Chain, files: map<string, string>, digest: string -> string) {
    match p
    case RequiredAbsent(f) => f in chain.files && chain.files[f].required && !Listed(f, files)
    case NotDeclared(f) => Listed(f, files) && f !in chain.files
    case NotAdmitted(f, d) =>
      Listed(f, files) && f in chain.files && d == digest(Canonical(files[f])) && d !in chain.files[f].variants
    case _ => false
  }

  method RequiredProblems(chain: Chain, files: map<string, string>) returns (problems: seq<ChainProblem>)
    ensures forall p :: p in problems <==> p.RequiredAbsent? && p.name in RequiredNames(chain) && p.name !in SqlNames(files)
  {
    var present := SqlNames(files);
    var required := List(RequiredNames(chain));
    problems := [];
    for n := 0 to |required|
      invariant forall p :: p in problems <==> p.RequiredAbsent? && p.name in required[..n] && p.name !in present
    {
      assert required[..n + 1] == required[..n] + [required[n]];
      if required[n] !in present {
        problems := problems + [RequiredAbsent(required[n])];
      }
    }
    assert required[..|required|] == required;
  }

  ghost predicate FileProblematic(p: ChainProblem, chain: Chain, files: map<string, string>, digest: string -> string,
                            names: seq<string>) {
    (p.NotDeclared? || p.NotAdmitted?) && p.name in names && Problematic(p, chain, files, digest)
  }

  method FileProblems(chain: Chain, files: map<string, string>, digest: string -> string)
    returns (problems: seq<ChainProblem>)
    ensures forall p :: p in problems <==> (p.NotDeclared? || p.NotAdmitted?) && Problematic(p, chain, files, digest)
  {
    hide Problematic, FileProblematic, FileProblem, SqlNames, Listed, Canonical;
    ListedNames(files);
    var names := List(SqlNames(files));
    problems := [];
    NoFileYet(chain, files, digest);
    for n := 0 to |names|
      invariant forall p :: p in problems <==> FileProblematic(p, chain, files, digest, names[..n])
    {
      assert names[n] in names;
      OneMore(chain, files, digest, names, n);
      var problem := FileProblem(chain, names[n], digest(Canonical(files[names[n]])));
      if problem.Some? {
        problems := problems + [problem.value];
      }
    }
    assert names[..|names|] == names;
    AllFiles(chain, files, digest, names);
  }

  lemma NoFileYet(chain: Chain, files: map<string, string>, digest: string -> string)
    ensures forall p :: !FileProblematic(p, chain, files, digest, [])
  {
  }

  lemma AllFiles(chain: Chain, files: map<string, string>, digest: string -> string, names: seq<string>)
    requires forall f :: f in names <==> f in SqlNames(files)
    ensures forall p :: FileProblematic(p, chain, files, digest, names)
                        <==> (p.NotDeclared? || p.NotAdmitted?) && Problematic(p, chain, files, digest)
  {
    hide SqlNames, Listed;
    ListedNames(files);
  }

  lemma OneMore(chain: Chain, files: map<string, string>, digest: string -> string, names: seq<string>, n: nat)
    requires n < |names| && names[n] in SqlNames(files)
    ensures forall p :: FileProblematic(p, chain, files, digest, names[..n + 1]) <==>
                        FileProblematic(p, chain, files, digest, names[..n])
                        || FileProblem(chain, names[n], digest(Canonical(files[names[n]]))) == Some(p)
  {
    hide Listed, SqlNames;
    ListedNames(files);
    assert names[..n + 1] == names[..n] + [names[n]];
  }

  /** Every problem is reported, each is real, and there is none exactly when the chain admits the directory. */
  method ValidateChainDirectory(id: string, dir: Directory, chains: map<string, Chain>, digest: string -> string)
    returns (problems: seq<ChainProblem>)
    ensures problems == [] <==> id in chains && dir.Present? && Admits(chains[id], dir.files, digest)
    ensures id !in chains ==> problems == [UndeclaredChain]
    ensures id in chains && dir.Missing? ==> problems == [NoDirectory]
    ensures id in chains && dir.Present? ==>
              forall p :: p in problems <==> Problematic(p, chains[id], dir.files, digest)
  {
    hide Problematic, Admits, SqlNames;
    if id !in chains { return [UndeclaredChain]; }
    if dir.Missing? { return [NoDirectory]; }
    var required := RequiredProblems(chains[id], dir.files);
    var undeclared := FileProblems(chains[id], dir.files, digest);
    problems := required + undeclared;
    ProblemKinds(chains[id], dir.files, digest);
    AdmitsIffNoProblem(chains[id], dir.files, digest);
    assert problems != [] ==> problems[0] in problems;
  }

  lemma ProblemKinds(chain: Chain, files: map<string, string>, digest: string -> string)
    ensures forall p :: Problematic(p, chain, files, digest) ==> p.RequiredAbsent? || p.NotDeclared? || p.NotAdmitted?
    ensures forall p: ChainProblem | p.RequiredAbsent? ::
              Problematic(p, chain, files, digest) <==> p.name in RequiredNames(chain) && p.name !in SqlNames(files)
  {
    hide SqlNames, Listed;
    ListedNames(files);
  }

  lemma AdmitsIffNoProblem(chain: Chain, files: map<string, string>, digest: string -> string)
    ensures Admits(chain, files, digest) <==> forall p :: !Problematic(p, chain, files, digest)
  {
    hide Listed, SqlNames;
    ListedNames(files);
    if !Admits(chain, files, digest) {
      if f :| f in chain.files && chain.files[f].required && !Listed(f, files) {
        assert Problematic(RequiredAbsent(f), chain, files, digest);
      } else {
        var f :| Listed(f, files) && !(f in chain.files && digest(Canonical(files[f])) in chain.files[f].variants);
        var p := FileProblem(chain, f, digest(Canonical(files[f])));
        assert Problematic(p.value, chain, files, digest);
      }
    }
  }

  /**
   * One run's surroundings: the directory it is pointed at, the canonical one, whether the two paths name the same
   * directory, the chain named in the environment, and the allowlist (absent when it cannot be loaded).
   */
  datatype Setting = Setting(dir: Directory, canonical: Directory, same: bool, chain: Option<string>,
                             allowlist: Option<map<string, Chain>>)

  datatype Mode = Production | Fixture(chain: string) | Refused

  predicate Named(s: Setting) {
    s.chain.Some? && s.chain.value != ""
  }

  /** The chain the run names admits its directory. */
  ghost predicate ChainAdmits(s: Setting, digest: string -> string) {
    && Named(s) && s.allowlist.Some? && s.chain.value in s.allowlist.value && s.dir.Present?
    && Admits(s.allowlist.value[s.chain.value], s.dir.files, digest)
  }

  ghost function ModeOf(s: Setting, digest: string -> string): Mode {
    if s.same then if Named(s) then Refused else Production
    else if ChainAdmits(s, digest) then Fixture(s.chain.value) else Refused
  }

  method DecideMode(s: Setting, digest: string -> string) returns (mode: Mode)
    ensures mode == ModeOf(s, digest)
    ensures mode == Production <==> s.same && (s.chain == None || s.chain == Some(""))
    ensures forall c :: mode == Fixture(c) <==>
              && !s.same && s.chain == Some(c) && c != "" && s.allowlist.Some? && c in s.allowlist.value && s.dir.Present?
              && Admits(s.allowlist.value[c], s.dir.files, digest)
  {
    // production returns before the allowlist is read
    if s.same && !Named(s) { return Production; }
    if s.allowlist.None? || s.same || !Named(s) { return Refused; }
    var problems := ValidateChainDirectory(s.chain.value, s.dir, s.allowlist.value, digest);
    mode := if problems == [] then Fixture(s.chain.value) else Refused;
  }
}
