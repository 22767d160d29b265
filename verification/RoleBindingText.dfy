/** The scans of scripts/check-role-binding-effectiveness.ts over a whole text: groups under NOT, and marks bound to reads. */
module RoleBindingText {
  import opened Text
  import opened RoleBindings

  // ---- the whole scan against an unbounded test for NOT ----

  /** Some parenthesis still open at `at` follows the word NOT, at whatever distance. */
  ghost predicate UnderNot(s: string, at: nat)
    requires at <= |s|
  {
    exists p :: p in Stack(s, at) && p <= |s| && EndsInNot(s[..p])
  }

  /** NOT introduces the group from beyond the window. */
  predicate TooFar(s: string, p: nat)
    requires p <= |s|
  {
    p > WINDOW && Gap(s, p) >= 38 && EndsInNot(s[..p])
  }

  /** The window cuts a longer word so that NOT is left of it. */
  predicate CutWord(s: string, p: nat)
    requires p <= |s|
  {
    p > WINDOW && Gap(s, p) == 37 && LettersAt(s, "not", p - 40) && WordChar(s[p - 41])
  }

  lemma OneParenthesis(s: string, p: nat)
    requires p <= |s|
    ensures TooFar(s, p) ==> EndsInNot(s[..p]) && !IntroducedByNot(s, p)
    ensures CutWord(s, p) ==> !EndsInNot(s[..p]) && IntroducedByNot(s, p)
    ensures !TooFar(s, p) && !CutWord(s, p) ==> (IntroducedByNot(s, p) <==> EndsInNot(s[..p]))
  {
    WindowAgrees(s, p);
    WindowSees(s, p);
    if CutWord(s, p) {
      var n := TrimmedLength(s[..p]);
      assert n == p - 37;
      assert s[..p][n - 4] == s[p - 41];
    }
  }

  /** A negation stands too far off, and no other enclosing parenthesis passes the test. */
  ghost predicate Missed(s: string, at: nat)
    requires at <= |s|
  {
    && (exists p :: p in Stack(s, at) && p <= |s| && TooFar(s, p))
    && forall p | p in Stack(s, at) && p <= |s| :: (EndsInNot(s[..p]) ==> TooFar(s, p)) && !CutWord(s, p)
  }

  /** A longer word is cut, and no enclosing parenthesis follows NOT. */
  ghost predicate Invented(s: string, at: nat)
    requires at <= |s|
  {
    && (exists p :: p in Stack(s, at) && p <= |s| && CutWord(s, p))
    && forall p | p in Stack(s, at) && p <= |s| :: !EndsInNot(s[..p])
  }

  /** The scan answers as one with an unbounded test would, unless it misses a negation or makes one up. */
  lemma WholeScanAgrees(s: string, at: nat)
    requires at <= |s|
    ensures Missed(s, at) <==> UnderNot(s, at) && !EnclosedByNot(s, at)
    ensures Invented(s, at) <==> !UnderNot(s, at) && EnclosedByNot(s, at)
  {
    hide TooFar, CutWord, IntroducedByNot, EndsInNot, Stack;
    forall p: nat | p <= |s|
      ensures TooFar(s, p) ==> EndsInNot(s[..p]) && !IntroducedByNot(s, p)
      ensures CutWord(s, p) ==> !EndsInNot(s[..p]) && IntroducedByNot(s, p)
      ensures !TooFar(s, p) && !CutWord(s, p) ==> (IntroducedByNot(s, p) <==> EndsInNot(s[..p]))
    {
      OneParenthesis(s, p);
    }
  }

  function Spaces(n: nat): (s: string)
    ensures |s| == n && forall i | 0 <= i < n :: s[i] == ' '
  {
    seq(n, _ => ' ')
  }

  /** With 38 spaces before its parenthesis a negation is missed. */
  lemma FarNotIsMissed()
    ensures var s := "NOT" + Spaces(38) + "("; Missed(s, |s|)
  {
    var s := "NOT" + Spaces(38) + "(";
    assert |s| == 42 && s[41] == '(';
    assert forall i | 3 <= i < 41 :: s[i] == ' ';
    assert s[0] == 'N' && s[1] == 'O' && s[2] == 'T';
    OnlyParenthesis(s);
    TrimmedIs(s[..41], 3);
    assert LettersAt(s[..41], "not", 0);
    assert Gap(s, 41) == 38;
    assert TooFar(s, 41);
    forall p | p in Stack(s, 42) && p <= |s| ensures p == 41 {}
    OneParenthesis(s, 41);
  }

  lemma OnlyParenthesis(s: string)
    requires |s| == 42 && s[41] == '(' && forall i | 0 <= i < 41 :: s[i] != '(' && s[i] != ')'
    ensures Stack(s, 42) == [41]
  {
    NoParenthesis(s, 41);
  }

  lemma {:induction false} NoParenthesis(s: string, n: nat)
    requires n <= |s| && forall i | 0 <= i < n :: s[i] != '(' && s[i] != ')'
    ensures Stack(s, n) == []
  {
    if n > 0 { NoParenthesis(s, n - 1); }
  }

  // ---- marks bound to reads ----

  /** The mark's occurrences before `n`, overlapping ones included, that stand in no SELECT list. */
  ghost predicate AreFiltering(uses: seq<nat>, sql: string, mark: string, n: int) {
    Increasing(uses) && forall x: nat :: x in uses <==> x < n && OccursAt(sql, mark, x) && !Projected(sql, x)
  }

  ghost function Marks(sql: string, mark: string, n: nat): set<nat> {
    set x: nat | x < n && OccursAt(sql, mark, x)
  }

  lemma MarksStep(sql: string, mark: string, n: nat, at: Option<nat>)
    requires n <= |sql| && mark != "" && (at.Some? ==> n <= at.value && OccursAt(sql, mark, at.value))
    requires forall j: int | n <= j && (at.Some? ==> j < at.value) :: !OccursAt(sql, mark, j)
    ensures at.Some? ==> |Marks(sql, mark, at.value + 1)| == |Marks(sql, mark, n)| + 1
    ensures at.None? ==> Marks(sql, mark, |sql|) == Marks(sql, mark, n)
  {
    hide OccursAt;
    if at.Some? { assert Marks(sql, mark, at.value + 1) == Marks(sql, mark, n) + {at.value}; }
  }

  lemma FilteringStep(uses: seq<nat>, sql: string, mark: string, n: int, at: Option<nat>)
    requires mark != "" && n <= |sql| && AreFiltering(uses, sql, mark, n)
    requires at.Some? ==> n <= at.value && OccursAt(sql, mark, at.value)
    requires forall j: int | n <= j && (at.Some? ==> j < at.value) :: !OccursAt(sql, mark, j)
    ensures at.Some? ==>
              AreFiltering(if Projected(sql, at.value) then uses else uses + [at.value], sql, mark, at.value + 1)
    ensures at.None? ==> AreFiltering(uses, sql, mark, |sql|)
  {
    hide OccursAt, Projected;
    if at.None? { NoneBeyond(sql, mark); }
    forall i | 0 <= i < |uses| ensures uses[i] < n { assert uses[i] in uses; }
  }

  lemma NoneBeyond(sql: string, mark: string)
    ensures forall x: nat | OccursAt(sql, mark, x) && mark != "" :: x < |sql|
  {
  }

  /** The search loop: each next occurrence is looked for one character on. */
  method FilteringUses(sql: string, mark: string) returns (filtering: seq<nat>, projected: nat)
    requires mark != ""
    ensures AreFiltering(filtering, sql, mark, |sql|)
    ensures |filtering| + projected == |Marks(sql, mark, |sql|)|
  {
    hide OccursAt, Projected, FirstFrom, AreFiltering, Marks;
    var ranges := ProjectionRanges(sql);
    filtering, projected := [], 0;
    ghost var n: nat := 0;
    var at := IndexOf(sql, mark, 0);
    NothingFiltering(sql, mark);
    assert Marks(sql, mark, 0) == {} by { NoMarks(sql, mark); }
    Searched(sql, mark, 0);
    while at.Some?
      invariant n <= |sql| && AreFiltering(filtering, sql, mark, n)
      invariant |filtering| + projected == |Marks(sql, mark, n)|
      invariant at == FirstFrom(sql, mark, n)
      decreases |sql| - n
    {
      FilteringStep(filtering, sql, mark, n, at);
      MarksStep(sql, mark, n, at);
      assert InRanges(ranges, at.value) <==> Projected(sql, at.value);
      if InRanges(ranges, at.value) { projected := projected + 1; } else { filtering := filtering + [at.value]; }
      Searched(sql, mark, at.value + 1);
      Fits(sql, mark, at.value);
      n := at.value + 1;
      at := IndexOf(sql, mark, at.value + 1);
    }
    FilteringStep(filtering, sql, mark, n, None);
    MarksStep(sql, mark, n, None);
  }

  lemma NoMarks(sql: string, mark: string)
    ensures Marks(sql, mark, 0) == {}
  {
  }

  lemma NothingFiltering(sql: string, mark: string)
    ensures AreFiltering([], sql, mark, 0)
  {
  }

  lemma Fits(sql: string, mark: string, at: nat)
    requires mark != "" && OccursAt(sql, mark, at)
    ensures at < |sql|
  {
  }

  lemma Searched(sql: string, mark: string, from: nat)
    ensures from <= |sql| ==> IndexOf(sql, mark, from) == FirstFrom(sql, mark, from)
  {
  }

  /**
   * From the text and its reads to the verdict: no read is unguarded exactly when each interval between reads holds the
   * mark outside every SELECT list.
   */
  method PlaceGuardsIn(sql: string, rs: seq<nat>, mark: string)
    returns (filtering: seq<nat>, projected: nat, unguarded: nat)
    requires mark != "" && Increasing(rs)
    ensures AreFiltering(filtering, sql, mark, |sql|)
    ensures |filtering| + projected == |Marks(sql, mark, |sql|)|
    ensures unguarded == Unguarded(rs, RoleBindings.Covered(rs, filtering))
    ensures unguarded == 0 <==> forall k | 0 <= k < |rs| :: GuardedBy(sql, rs, mark, k)
  {
    hide AreFiltering, Unguarded, RoleBindings.Covered, Increasing, GuardedBy;
    filtering, projected := FilteringUses(sql, mark);
    unguarded := PlaceGuards(rs, filtering);
    GuardedIffHit(rs, filtering);
    forall k | 0 <= k < |rs| ensures Hit(rs, filtering, k) <==> GuardedBy(sql, rs, mark, k) {
      HitIsMark(sql, rs, mark, filtering, k);
    }
  }

  /** A use of the mark that filters stands in the interval of read `k`. */
  ghost predicate GuardedBy(sql: string, rs: seq<nat>, mark: string, k: nat)
    requires k < |rs|
  {
    exists x: nat :: InInterval(rs, k, x) && OccursAt(sql, mark, x) && !Projected(sql, x)
  }

  lemma HitIsMark(sql: string, rs: seq<nat>, mark: string, filtering: seq<nat>, k: nat)
    requires k < |rs| && mark != "" && AreFiltering(filtering, sql, mark, |sql|)
    ensures Hit(rs, filtering, k) <==> GuardedBy(sql, rs, mark, k)
  {
    hide OccursAt, Projected, InInterval;
    NoneBeyond(sql, mark);
    if g :| 0 <= g < |filtering| && InInterval(rs, k, filtering[g]) { assert filtering[g] in filtering; }
    if x: nat :| InInterval(rs, k, x) && OccursAt(sql, mark, x) && !Projected(sql, x) {
      assert x in filtering;
      var g :| 0 <= g < |filtering| && filtering[g] == x;
    }
  }
}
