/** The structural scans of scripts/check-role-binding-effectiveness.ts. */
module RoleBindings {
  import opened Text

  // ---- the groups that enclose a position ----

  /** A left-to-right parser's stack of open parentheses after `n` characters; a stray `)` is ignored. */
  function Stack(s: string, n: nat): seq<nat>
    requires n <= |s|
  {
    if n == 0 then []
    else
      var before := Stack(s, n - 1);
      if s[n - 1] == '(' then before + [n - 1]
      else if s[n - 1] == ')' && before != [] then before[..|before| - 1]
      else before
  }

  /** The length of `s` without its trailing white space. */
  function TrimmedLength(s: string): (n: nat)
    ensures n <= |s| && (n > 0 ==> !IsSpace(s[n - 1])) && forall k | n <= k < |s| :: IsSpace(s[k])
  {
    if s != "" && IsSpace(s[|s| - 1]) then TrimmedLength(s[..|s| - 1]) else |s|
  }

  /** `/\bNOT\s*$/i` */
  predicate EndsInNot(s: string) {
    var n := TrimmedLength(s);
    LettersAt(s, "not", n - 3) && (n > 3 ==> !WordChar(s[n - 4]))
  }

  /** `NOT` at `k`, in any case, and no letter, digit or underscore before it. */
  predicate NotAt(s: string, k: nat) {
    && k + 3 <= |s| && s[k] in "nN" && s[k + 1] in "oO" && s[k + 2] in "tT"
    && (k > 0 ==> !('a' <= s[k - 1] <= 'z' || 'A' <= s[k - 1] <= 'Z' || '0' <= s[k - 1] <= '9' || s[k - 1] == '_'))
  }

  lemma NotLetters(s: string, k: nat)
    ensures NotAt(s, k) <==> LettersAt(s, "not", k) && (k > 0 ==> !WordChar(s[k - 1]))
    ensures NotAt(s, k) ==> k + 3 <= |s| && !IsSpace(s[k + 2])
  {
    if LettersAt(s, "not", k) {
      assert Lower(s[k + 0]) == "not"[0] && Lower(s[k + 1]) == "not"[1] && Lower(s[k + 2]) == "not"[2];
    }
  }

  /** A text ends in `NOT` exactly when nothing but white space follows one. */
  lemma EndsInNotMeans(s: string)
    ensures EndsInNot(s) <==> exists k: nat :: NotAt(s, k) && Blank(Rest(s, k + 3))
  {
    hide LettersAt, IsSpace, NotAt;
    var n := TrimmedLength(s);
    if EndsInNot(s) {
      NotBegins(s, n);
      NotLetters(s, n - 3);
      assert s[n - 3 + 3..] == s[n..];
    }
    if k: nat :| NotAt(s, k) && Blank(Rest(s, k + 3)) {
      NotLetters(s, k);
      assert Blank(s[k + 3..]);
      TrimsTo(s, k + 3);
    }
  }

  function Rest(s: string, k: nat): string { if k <= |s| then s[k..] else "" }

  lemma NotBegins(s: string, n: nat)
    requires LettersAt(s, "not", n - 3)
    ensures 3 <= n <= |s|
  {
  }

  lemma TrimsTo(s: string, n: nat)
    requires 0 < n <= |s| && !IsSpace(s[n - 1]) && Blank(s[n..])
    ensures TrimmedLength(s) == n
  {
    hide IsSpace;
    assert forall i | n <= i < |s| :: s[i] == s[n..][i - n];
  }

  const WINDOW: nat := 40

  /** The test the source applies before a parenthesis: the last 40 characters end in NOT. */
  predicate IntroducedByNot(s: string, i: nat)
    requires i <= |s|
  {
    EndsInNot(s[(if i > WINDOW then i - WINDOW else 0)..i])
  }

  /** What a scan that has come down to `i + 1` at this depth has still to visit. */
  function Ahead(s: string, n: nat, depth: nat): seq<nat>
    requires n <= |s|
  {
    var k := Stack(s, n);
    if depth <= |k| then k[..|k| - depth] else []
  }

  /** Some parenthesis still open at `at` passes the test for NOT. */
  ghost predicate EnclosedByNot(s: string, at: nat)
    requires at <= |s|
  {
    exists p :: p in Stack(s, at) && p <= |s| && IntroducedByNot(s, p)
  }

  /**
   * One backward pass with a depth counter. It visits at depth zero exactly the parentheses on the forward parser's
   * stack, so it answers whether some enclosing group is introduced by NOT.
   */
  method NegatedByEnclosingGroup(sql: string, at: nat) returns (negated: bool)
    requires at <= |sql|
    ensures negated <==> EnclosedByNot(sql, at)
  {
    hide EndsInNot, IntroducedByNot, Ahead, Stack;
    AheadOfAll(sql, at);
    var depth: nat, i := 0, at - 1;
    ghost var visited: seq<nat> := [];
    while i >= 0
      invariant -1 <= i < at
      invariant Ahead(sql, i + 1, depth) + visited == Stack(sql, at)
      invariant forall p | p in visited :: p < |sql| && !IntroducedByNot(sql, p)
    {
      BackwardStep(sql, i, depth);
      if sql[i] == ')' {
        depth := depth + 1;
      } else if sql[i] == '(' {
        if depth > 0 {
          depth := depth - 1;
        } else {
          assert Stack(sql, at)[|Ahead(sql, i + 1, 0)| - 1] == i;
          assert i in Stack(sql, at);
          if IntroducedByNot(sql, i) { return true; }
          visited := [i] + visited;
        }
      }
      i := i - 1;
    }
    NothingAhead(sql, depth);
    negated := false;
  }

  lemma AheadOfAll(s: string, n: nat)
    requires n <= |s|
    ensures Ahead(s, n, 0) == Stack(s, n)
  {
  }

  lemma NothingAhead(s: string, depth: nat)
    ensures Ahead(s, 0, depth) == []
  {
  }

  lemma BackwardStep(s: string, i: nat, depth: nat)
    requires i < |s|
    ensures s[i] == ')' ==> Ahead(s, i + 1, depth) == Ahead(s, i, depth + 1)
    ensures s[i] == '(' && depth > 0 ==> Ahead(s, i + 1, depth) == Ahead(s, i, depth - 1)
    ensures s[i] == '(' && depth == 0 ==> Ahead(s, i + 1, 0) == Ahead(s, i, 0) + [i]
    ensures s[i] != '(' && s[i] != ')' ==> Ahead(s, i + 1, depth) == Ahead(s, i, depth)
  {
  }

  lemma {:induction false} StackInText(s: string, n: nat)
    requires n <= |s|
    ensures forall p | p in Stack(s, n) :: p < n && s[p] == '('
  {
    if n > 0 { StackInText(s, n - 1); }
  }

  // ---- the window ----

  lemma {:induction false} TrimmedIs(s: string, n: nat)
    requires n <= |s| && (n > 0 ==> !IsSpace(s[n - 1])) && forall k | n <= k < |s| :: IsSpace(s[k])
    ensures TrimmedLength(s) == n
  {
  }

  /** The white space between what precedes position `i` and `i`. */
  function Gap(s: string, i: nat): nat
    requires i <= |s|
  {
    i - TrimmedLength(s[..i])
  }

  /** What the windowed test sees, by the length of the gap. */
  lemma WindowSees(s: string, i: nat)
    requires i <= |s|
    ensures IntroducedByNot(s, i) <==>
            if i <= WINDOW || Gap(s, i) <= 36 then EndsInNot(s[..i])
            else Gap(s, i) == 37 && LettersAt(s, "not", i - 40)
  {
    if i <= WINDOW {
      assert s[0..i] == s[..i];
    } else {
      WindowedNot(s, i);
    }
  }

  /** What a text ending at `i` and beginning at `from` says about NOT, read in the whole text. */
  lemma NotBefore(s: string, from: nat, i: nat)
    requires from <= i <= |s|
    ensures var n := TrimmedLength(s[from..i]);
            EndsInNot(s[from..i]) <==>
            n >= 3 && LettersAt(s, "not", from + n - 3) && (n > 3 ==> !WordChar(s[from + n - 4]))
  {
    var n := TrimmedLength(s[from..i]);
    if n >= 3 { LettersIn(s, from, i, n - 3); }
    hide TrimmedLength, WordChar;
    assert n > 3 ==> s[from..i][n - 4] == s[from + n - 4];
  }

  lemma WindowedNot(s: string, i: nat)
    requires WINDOW < i <= |s|
    ensures IntroducedByNot(s, i) <==>
            if Gap(s, i) <= 36 then EndsInNot(s[..i]) else Gap(s, i) == 37 && LettersAt(s, "not", i - 40)
  {
    hide LettersAt, TrimmedLength, WordChar, EndsInNot;
    assert s[0..i] == s[..i];
    SpacesBefore(s, i - WINDOW, i);
    NotBefore(s, 0, i);
    NotBefore(s, i - WINDOW, i);
    var n := TrimmedLength(s[..i]);
    assert Gap(s, i) == i - n;
    assert Gap(s, i) <= 37 ==> TrimmedLength(s[i - WINDOW..i]) == n - (i - WINDOW);
    assert Gap(s, i) >= 38 ==> TrimmedLength(s[i - WINDOW..i]) < 3;
  }

  /** Cutting a text short on the left trims the same white space on the right, as far as it goes. */
  lemma SpacesBefore(s: string, from: nat, i: nat)
    requires from <= i <= |s|
    ensures TrimmedLength(s[from..i]) == if TrimmedLength(s[..i]) >= from then TrimmedLength(s[..i]) - from else 0
  {
    var n := TrimmedLength(s[..i]);
    assert forall k | 0 <= k < i - from :: s[from..i][k] == s[..i][from + k];
    TrimmedIs(s[from..i], if n >= from then n - from else 0);
  }

  lemma LettersIn(s: string, a: nat, b: nat, j: int)
    requires a <= b <= |s| && a + j + 3 <= b
    ensures LettersAt(s[a..b], "not", j) <==> 0 <= j && LettersAt(s, "not", a + j)
  {
    if 0 <= j {
      assert s[a..b][j] == s[a + j] && s[a..b][j + 1] == s[a + j + 1] && s[a..b][j + 2] == s[a + j + 2];
    }
  }

  /**
   * The windowed test agrees with the unbounded one except beyond its reach: at a gap of 37 it cannot see the letter
   * that would make NOT the end of a longer word, and at a longer gap it cannot see NOT.
   */
  lemma WindowAgrees(s: string, i: nat)
    requires i <= |s|
    ensures (IntroducedByNot(s, i) <==> EndsInNot(s[..i])) <==>
            !(i > WINDOW
              && ((Gap(s, i) == 37 && i > 40 && LettersAt(s, "not", i - 40) && WordChar(s[i - 41]))
                  || (Gap(s, i) >= 38 && EndsInNot(s[..i]))))
  {
    WindowSees(s, i);
    if i > WINDOW && Gap(s, i) == 37 {
      var n := TrimmedLength(s[..i]);
      assert n - 3 == i - 40;
      LettersIn(s, 0, i, n - 3);
      assert s[0..i] == s[..i];
    }
  }

  // ---- guards bound to reads ----

  predicate Increasing(rs: seq<nat>) {
    forall i, j | 0 <= i < j < |rs| :: rs[i] < rs[j]
  }

  /** The nearest read before the guard, or the first read when it precedes them all. */
  function Owner(rs: seq<nat>, guard: nat): Option<nat> {
    if rs == [] then None
    else if |rs| == 1 || rs[|rs| - 1] < guard then Some(rs[|rs| - 1])
    else Owner(rs[..|rs| - 1], guard)
  }

  /** The interval of read `k`: after it, up to the next read; the first one reaches back to the start of the text. */
  predicate InInterval(rs: seq<nat>, k: nat, guard: nat)
    requires k < |rs|
  {
    (k == 0 || rs[k] < guard) && (k == |rs| - 1 || guard <= rs[k + 1])
  }

  lemma {:induction false} OwnerByInterval(rs: seq<nat>, k: nat, guard: nat)
    requires Increasing(rs) && k < |rs|
    ensures Owner(rs, guard) == Some(rs[k]) <==> InInterval(rs, k, guard)
  {
    if |rs| > 1 && guard <= rs[|rs| - 1] {
      var front := rs[..|rs| - 1];
      OwnerInList(front, guard);
      if k < |front| { OwnerByInterval(front, k, guard); }
    }
  }

  lemma {:induction false} OwnerInList(rs: seq<nat>, guard: nat)
    requires rs != []
    ensures Owner(rs, guard).Some? && Owner(rs, guard).value in rs
  {
    if |rs| > 1 && guard <= rs[|rs| - 1] { OwnerInList(rs[..|rs| - 1], guard); }
  }

  /** The reads that some guard is bound to. */
  function Covered(rs: seq<nat>, guards: seq<nat>): set<nat> {
    if guards == [] then {}
    else
      var owner := Owner(rs, guards[|guards| - 1]);
      Covered(rs, guards[..|guards| - 1]) + if owner.Some? then {owner.value} else {}
  }

  function Unguarded(rs: seq<nat>, covered: set<nat>): nat {
    if rs == [] then 0
    else Unguarded(rs[..|rs| - 1], covered) + if rs[|rs| - 1] in covered then 0 else 1
  }

  /** The binding loop: for each guard, the reads are walked until one is not before it. */
  method PlaceGuards(rs: seq<nat>, guards: seq<nat>) returns (unguarded: nat)
    requires Increasing(rs)
    ensures unguarded == Unguarded(rs, Covered(rs, guards))
  {
    var covered: set<nat> := {};
    for g := 0 to |guards|
      invariant covered == Covered(rs, guards[..g])
    {
      assert guards[..g + 1][..g] == guards[..g];
      var owner: Option<nat> := None;
      var k := 0;
      while k < |rs| && rs[k] < guards[g]
        invariant k <= |rs| && (forall j | 0 <= j < k :: rs[j] < guards[g])
        invariant owner == if k == 0 then None else Some(rs[k - 1])
      {
        owner := Some(rs[k]);
        k := k + 1;
      }
      if owner.None? && rs != [] { owner := Some(rs[0]); }
      if rs != [] { OwnerByInterval(rs, if k == 0 then 0 else k - 1, guards[g]); }
      if owner.Some? { covered := covered + {owner.value}; }
    }
    assert guards[..|guards|] == guards;
    unguarded := Count(rs, covered);
  }

  method Count(rs: seq<nat>, covered: set<nat>) returns (n: nat)
    ensures n == Unguarded(rs, covered)
  {
    n := 0;
    for i := 0 to |rs|
      invariant n == Unguarded(rs[..i], covered)
    {
      assert rs[..i + 1][..i] == rs[..i];
      if rs[i] !in covered { n := n + 1; }
    }
    assert rs[..|rs|] == rs;
  }

  ghost predicate Hit(rs: seq<nat>, guards: seq<nat>, k: nat)
    requires k < |rs|
  {
    exists g :: 0 <= g < |guards| && InInterval(rs, k, guards[g])
  }

  lemma {:induction false} CoveredIffHit(rs: seq<nat>, guards: seq<nat>, k: nat)
    requires Increasing(rs) && k < |rs|
    ensures rs[k] in Covered(rs, guards) <==> Hit(rs, guards, k)
  {
    if guards != [] {
      var front, last := guards[..|guards| - 1], guards[|guards| - 1];
      CoveredIffHit(rs, front, k);
      OwnerByInterval(rs, k, last);
      assert forall g | 0 <= g < |front| :: guards[g] == front[g];
    }
  }

  lemma {:induction false} NoneUnguarded(rs: seq<nat>, covered: set<nat>)
    ensures Unguarded(rs, covered) == 0 <==> forall k | 0 <= k < |rs| :: rs[k] in covered
    ensures Unguarded(rs, covered) <= |rs|
  {
    if rs != [] {
      var front := rs[..|rs| - 1];
      NoneUnguarded(front, covered);
      assert forall k | 0 <= k < |front| :: rs[k] == front[k];
    }
  }

  /** No read is unguarded exactly when every interval between reads is hit by a filtering use. */
  lemma GuardedIffHit(rs: seq<nat>, guards: seq<nat>)
    requires Increasing(rs)
    ensures Unguarded(rs, Covered(rs, guards)) == 0 <==> forall k | 0 <= k < |rs| :: Hit(rs, guards, k)
  {
    NoneUnguarded(rs, Covered(rs, guards));
    forall k | 0 <= k < |rs| ensures rs[k] in Covered(rs, guards) <==> Hit(rs, guards, k) {
      CoveredIffHit(rs, guards, k);
    }
  }

  lemma {:induction false} CoveredSmall(rs: seq<nat>, guards: seq<nat>)
    ensures |Covered(rs, guards)| <= |guards|
  {
    if guards != [] {
      var front := guards[..|guards| - 1];
      CoveredSmall(rs, front);
      var owner := Owner(rs, guards[|guards| - 1]);
      if owner.Some? && owner.value !in Covered(rs, front) {
        assert |Covered(rs, front) + {owner.value}| == |Covered(rs, front)| + 1;
      } else if owner.Some? {
        assert Covered(rs, front) + {owner.value} == Covered(rs, front);
      }
    }
  }

  lemma {:induction false} EnoughCovered(rs: seq<nat>, covered: set<nat>)
    requires Increasing(rs)
    ensures |rs| <= |covered| + Unguarded(rs, covered)
    decreases |rs|
  {
    if rs != [] {
      var front, last := rs[..|rs| - 1], rs[|rs| - 1];
      if last in covered {
        EnoughCovered(front, covered - {last});
        SameUnguarded(front, covered, last);
      } else {
        EnoughCovered(front, covered);
      }
    }
  }

  lemma {:induction false} SameUnguarded(rs: seq<nat>, covered: set<nat>, x: nat)
    requires forall k | 0 <= k < |rs| :: rs[k] != x
    ensures Unguarded(rs, covered) == Unguarded(rs, covered - {x}) == Unguarded(rs, covered + {x})
  {
    if rs != [] { SameUnguarded(rs[..|rs| - 1], covered, x); }
  }

  /** Each use pays for one read at most: reads are never more than uses and unguarded reads together. */
  lemma UsesPayOnce(rs: seq<nat>, guards: seq<nat>)
    requires Increasing(rs)
    ensures |rs| <= |guards| + Unguarded(rs, Covered(rs, guards))
  {
    CoveredSmall(rs, guards);
    EnoughCovered(rs, Covered(rs, guards));
  }

  /** A further use guards one more read exactly when its interval was not hit before; another use there changes nothing. */
  lemma OneMoreUse(rs: seq<nat>, guards: seq<nat>, guard: nat, k: nat)
    requires Increasing(rs) && k < |rs| && InInterval(rs, k, guard)
    ensures Unguarded(rs, Covered(rs, guards)) ==
            Unguarded(rs, Covered(rs, guards + [guard])) + if Hit(rs, guards, k) then 0 else 1
  {
    var covered := Covered(rs, guards);
    assert (guards + [guard])[..|guards|] == guards;
    OwnerByInterval(rs, k, guard);
    CoveredIffHit(rs, guards, k);
    if rs[k] in covered {
      assert covered + {rs[k]} == covered;
    } else {
      CoveringOne(rs, covered, k);
    }
  }

  lemma {:induction false} CoveringOne(rs: seq<nat>, covered: set<nat>, k: nat)
    requires Increasing(rs) && k < |rs| && rs[k] !in covered
    ensures Unguarded(rs, covered) == Unguarded(rs, covered + {rs[k]}) + 1
    decreases |rs|
  {
    var front := rs[..|rs| - 1];
    if k == |front| {
      SameUnguarded(front, covered, rs[k]);
    } else {
      CoveringOne(front, covered, k);
      assert rs[|front|] != rs[k];
    }
  }

  // ---- which uses filter ----

  /** `\bword\b`, in any case; `w` is lower case and made of word characters. */
  predicate WordAt(s: string, w: string, i: int) {
    LettersAt(s, w, i) && (i > 0 ==> !WordChar(s[i - 1])) && (i + |w| < |s| ==> !WordChar(s[i + |w|]))
  }

  /** The next place at or after `i` where the word stands. */
  function NextWord(s: string, w: string, i: nat): (r: Option<nat>)
    ensures r.Some? ==> i <= r.value && WordAt(s, w, r.value) && forall k | i <= k < r.value :: !WordAt(s, w, k)
    ensures r.None? ==> forall k | i <= k :: !WordAt(s, w, k)
    decreases |s| - i
  {
    if i + |w| > |s| then None else if WordAt(s, w, i) then Some(i) else NextWord(s, w, i + 1)
  }

  /** The word, in any case, with no letter, digit or underscore on either side. */
  predicate Keyword(s: string, w: string, i: int) {
    && LettersAt(s, w, i)
    && (i > 0 ==> !('a' <= s[i - 1] <= 'z' || 'A' <= s[i - 1] <= 'Z' || '0' <= s[i - 1] <= '9' || s[i - 1] == '_'))
    && (i + |w| < |s| ==> var c := s[i + |w|]; !('a' <= c <= 'z' || 'A' <= c <= 'Z' || '0' <= c <= '9' || c == '_'))
  }

  lemma KeywordIsWord(s: string, w: string)
    ensures forall i: int :: Keyword(s, w, i) <==> WordAt(s, w, i)
  {
  }

  /** A SELECT list that contains `at`: no FROM between its SELECT and `at`, and a FROM further on. */
  ghost predicate InSelectList(s: string, at: nat, select: nat) {
    && Keyword(s, "select", select) && select + 6 <= at
    && (forall k | select + 6 <= k <= at :: !Keyword(s, "from", k))
    && exists k :: k > at && Keyword(s, "from", k)
  }

  ghost predicate Projected(s: string, at: nat) {
    exists select: nat :: InSelectList(s, at, select)
  }

  /** `projection.some(([from, to]) => at >= from && at < to)` */
  predicate InRanges(ranges: seq<(nat, nat)>, at: nat) {
    exists r | r in ranges :: r.0 <= at < r.1
  }

  /** Every range runs from the end of a SELECT to the next FROM; a SELECT without one opens none. */
  method ProjectionRanges(sql: string) returns (ranges: seq<(nat, nat)>)
    ensures forall at: nat :: InRanges(ranges, at) <==> Projected(sql, at)
  {
    hide Collected, RangeOf, WordAt, Projected, InRanges;
    ranges := [];
    var i: nat := 0;
    NoneCollected(sql);
    var m := NextWord(sql, "select", 0);
    while m.Some?
      invariant m == NextWord(sql, "select", i) && Collected(sql, ranges, i)
      decreases |sql| - i
    {
      var start := m.value + 6;
      var from := NextWord(sql, "from", start);
      CollectOne(sql, ranges, i);
      SelectFits(sql, i);
      assert ranges + [] == ranges;
      if from.Some? { ranges := ranges + [(start, from.value)]; }
      i := start;
      m := NextWord(sql, "select", start);
    }
    CollectedAll(sql, ranges, i);
  }

  /** The ranges are those of the SELECTs that begin before `i`. */
  ghost predicate Collected(s: string, ranges: seq<(nat, nat)>, i: nat) {
    forall r: (nat, nat) :: r in ranges <==> r.0 >= 6 && r.0 - 6 < i && RangeOf(s, r, r.0 - 6)
  }

  lemma NoneCollected(s: string)
    ensures Collected(s, [], 0)
  {
  }

  lemma CollectOne(s: string, ranges: seq<(nat, nat)>, i: nat)
    requires Collected(s, ranges, i) && NextWord(s, "select", i).Some?
    ensures var start := NextWord(s, "select", i).value + 6;
            var from := NextWord(s, "from", start);
            Collected(s, ranges + if from.Some? then [(start, from.value)] else [], start)
  {
    var select := NextWord(s, "select", i).value;
    NoSelectInside(s, select);
  }

  lemma SelectFits(s: string, i: nat)
    requires NextWord(s, "select", i).Some?
    ensures i <= NextWord(s, "select", i).value && NextWord(s, "select", i).value + 6 <= |s|
  {
  }

  lemma RangeIsList(s: string, r: (nat, nat), at: nat)
    requires r.0 >= 6 && RangeOf(s, r, r.0 - 6) && r.0 <= at < r.1
    ensures InSelectList(s, at, r.0 - 6)
  {
    KeywordIsWord(s, "select");
    KeywordIsWord(s, "from");
    assert r.1 > at && WordAt(s, "from", r.1);
  }

  lemma ListHasRange(s: string, at: nat, select: nat)
    requires InSelectList(s, at, select)
    ensures select < |s| && WordAt(s, "select", select)
    ensures NextWord(s, "from", select + 6).Some? && select + 6 <= at < NextWord(s, "from", select + 6).value
  {
    KeywordIsWord(s, "select");
    KeywordIsWord(s, "from");
    hide WordAt;
    SelectInText(s, select);
  }

  lemma SelectInText(s: string, select: nat)
    requires WordAt(s, "select", select)
    ensures select < |s|
  {
  }

  lemma CollectedAll(s: string, ranges: seq<(nat, nat)>, i: nat)
    requires Collected(s, ranges, i) && NextWord(s, "select", i).None?
    ensures forall at: nat :: InRanges(ranges, at) <==> Projected(s, at)
  {
    hide WordAt;
    forall at: nat ensures InRanges(ranges, at) <==> Projected(s, at) {
      if InRanges(ranges, at) {
        var r :| r in ranges && r.0 <= at < r.1;
        RangeIsList(s, r, at);
      }
      if Projected(s, at) {
        var select: nat :| InSelectList(s, at, select);
        ListHasRange(s, at, select);
        var r: (nat, nat) := (select + 6, NextWord(s, "from", select + 6).value);
        assert RangeOf(s, r, r.0 - 6);
        assert r in ranges;
      }
    }
  }

  ghost predicate RangeOf(s: string, r: (nat, nat), select: nat) {
    WordAt(s, "select", select) && r.0 == select + 6 && NextWord(s, "from", r.0) == Some(r.1)
  }

  /** No SELECT begins inside another. */
  lemma NoSelectInside(s: string, i: nat)
    requires WordAt(s, "select", i)
    ensures forall k: nat | i < k < i + 6 :: !WordAt(s, "select", k)
  {
    forall k: nat | i < k < i + 6 ensures !WordAt(s, "select", k) {
      assert Lower(s[i + (k - 1 - i)]) == "select"[k - 1 - i];
    }
  }
}
