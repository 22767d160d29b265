/**
 * Anchored deletions and the two-ended diff that recovers them: `removeStatement`, `removeClause` and
 * `functionStatement` delete or cut one span of a text, `controlCoverage` finds out which one by comparing.
 */
module SpanDiff {
  import opened Text

  /** A removed span: where it begins and where it ends. */
  datatype Cut = Cut(from: nat, to: nat)

  function CutOut(s: string, c: Cut): string
    requires c.from <= c.to <= |s|
  {
    s[..c.from] + s[c.to..]
  }

  // ---- the diff ----

  /** The two texts agree before `prefix` and over their last `suffix` characters, and neither can be extended. */
  ghost predicate IsDiff(sql: string, mutated: string, prefix: nat, suffix: nat) {
    && prefix <= |mutated| && prefix <= |sql| && suffix <= |mutated| - prefix && suffix <= |sql|
    && (forall k | 0 <= k < prefix :: sql[k] == mutated[k])
    && (prefix < |mutated| && prefix < |sql| ==> sql[prefix] != mutated[prefix])
    && (forall k | |mutated| - suffix <= k < |mutated| :: mutated[k] == sql[|sql| - |mutated| + k])
    && (suffix < |mutated| - prefix && suffix < |sql| ==> mutated[|mutated| - 1 - suffix] != sql[|sql| - 1 - suffix])
  }

  /** `slice` with both ends in range; JavaScript gives the empty text when they cross. */
  function Slice(s: string, from: nat, to: nat): string
    requires to <= |s|
  {
    if from <= to then s[from..to] else ""
  }

  method Diff(sql: string, mutated: string) returns (prefix: nat, suffix: nat, removed: string)
    ensures IsDiff(sql, mutated, prefix, suffix)
    ensures removed == Slice(sql, prefix, |sql| - suffix)
  {
    prefix := 0;
    while prefix < |mutated| && prefix < |sql| && sql[prefix] == mutated[prefix]
      invariant prefix <= |mutated| && prefix <= |sql|
      invariant forall k | 0 <= k < prefix :: sql[k] == mutated[k]
    {
      prefix := prefix + 1;
    }
    suffix := 0;
    while suffix < |mutated| - prefix && suffix < |sql| && sql[|sql| - 1 - suffix] == mutated[|mutated| - 1 - suffix]
      invariant suffix <= |mutated| - prefix && suffix <= |sql|
      invariant forall k | |mutated| - suffix <= k < |mutated| :: mutated[k] == sql[|sql| - |mutated| + k]
    {
      suffix := suffix + 1;
    }
    removed := Slice(sql, prefix, |sql| - suffix);
  }

  // ---- what it recovers when one span was deleted ----

  /** `d` with its first character moved to its end, `n` times. */
  function Rotate(d: string, n: nat): string
    requires d == "" ==> n == 0
    decreases n
  {
    if n == 0 then d else Rotate(d[1..] + [d[0]], n - 1)
  }

  /** For `n` characters the text at `j` repeats the text at `i`. */
  ghost predicate Repeats(s: string, i: nat, j: nat, n: nat)
    requires i <= j
  {
    j + n <= |s| && forall k | i <= k < i + n :: s[k] == s[k + j - i]
  }

  /** How far the text at `j` repeats the text at `i`. */
  function MatchRun(s: string, i: nat, j: nat): (n: nat)
    requires i <= j <= |s|
    ensures j + n <= |s| && (forall k | i <= k < i + n :: s[k] == s[k + j - i])
    ensures j + n < |s| ==> s[i + n] != s[j + n]
    decreases |s| - j
  {
    if j < |s| && s[i] == s[j] then 1 + MatchRun(s, i + 1, j + 1) else 0
  }

  /** How far a deleted span can slide along the text without changing what is left. */
  function Slide(s: string, c: Cut): (n: nat)
    requires c.from <= c.to <= |s|
    ensures c.to + n <= |s|
  {
    if c.from == c.to then 0 else MatchRun(s, c.from, c.to)
  }

  /** While the text at `j` repeats the text at `i`, the window between them turns one character a step. */
  lemma {:induction false} WindowTurns(s: string, i: nat, j: nat, n: nat)
    requires i < j && Repeats(s, i, j, n)
    ensures s[i + n..j + n] == Rotate(s[i..j], n)
    decreases n
  {
    if n > 0 {
      hide Rotate;
      assert s[i] == s[i + j - i];
      TurnOnce(s, i, j);
      TurnThenTurn(s[i..j], n - 1);
      RepeatsOn(s, i, j, n);
      WindowTurns(s, i + 1, j + 1, n - 1);
    }
  }

  lemma RepeatsOn(s: string, i: nat, j: nat, n: nat)
    requires i <= j && n > 0 && Repeats(s, i, j, n)
    ensures Repeats(s, i + 1, j + 1, n - 1)
  {
  }

  lemma TurnThenTurn(d: string, n: nat)
    requires d != ""
    ensures Rotate(d, n + 1) == Rotate(d[1..] + [d[0]], n)
  {
  }

  lemma TurnOnce(s: string, i: nat, j: nat)
    requires i < j < |s| && s[i] == s[j]
    ensures s[i + 1..j + 1] == s[i..j][1..] + [s[i..j][0]]
  {
  }

  lemma {:induction false} RotateKeeps(d: string, n: nat)
    requires d == "" ==> n == 0
    ensures multiset(Rotate(d, n)) == multiset(d) && |Rotate(d, n)| == |d|
    ensures Semicolons(Rotate(d, n)) == Semicolons(d)
    decreases n
  {
    if n > 0 {
      RotateKeeps(d[1..] + [d[0]], n - 1);
      assert d == [d[0]] + d[1..];
    }
  }

  /** `m` is `s` without the characters from `c.from` to `c.to`. */
  ghost predicate IsCut(s: string, c: Cut, m: string) {
    && c.from <= c.to <= |s| && |m| == |s| - (c.to - c.from)
    && (forall k | 0 <= k < c.from :: m[k] == s[k])
    && (forall k | c.from <= k < |m| :: m[k] == s[k + c.to - c.from])
  }

  lemma FirstDifference(s: string, c: Cut, m: string)
    requires IsCut(s, c, m)
    ensures var e := c.from + MatchRun(s, c.from, c.to);
            && e <= |m| && (forall k | 0 <= k < e :: s[k] == m[k])
            && (e < |m| ==> s[e] != m[e])
  {
    hide MatchRun;
    var n := MatchRun(s, c.from, c.to);
    forall k | c.from <= k < c.from + n ensures s[k] == m[k] {
      assert m[k] == s[k + c.to - c.from];
    }
    if c.from + n < |m| {
      assert m[c.from + n] == s[c.from + n + c.to - c.from];
    }
  }

  lemma LastDifference(s: string, c: Cut, m: string, suffix: nat)
    requires IsCut(s, c, m) && suffix < |m| - c.from
    ensures m[|m| - 1 - suffix] == s[|s| - 1 - suffix]
  {
    assert m[|m| - 1 - suffix] == s[|m| - 1 - suffix + c.to - c.from];
  }

  lemma EndsMeet(s: string, c: Cut, m: string, prefix: nat, suffix: nat)
    requires IsCut(s, c, m) && IsDiff(s, m, prefix, suffix)
    ensures prefix == c.from + MatchRun(s, c.from, c.to) && prefix + suffix == |m|
  {
    FirstDifference(s, c, m);
    if suffix < |m| - c.from { LastDifference(s, c, m, suffix); }
  }

  /**
   * Every deletion is recovered up to rotation: the two ends account for the whole of what is left, cutting the
   * reported span gives the same text, and that span is the deleted one turned by the length of its slide. With
   * `RotateKeeps`, it holds as many statement terminators as the span the deleter checked.
   */
  lemma DeletionRecovered(s: string, c: Cut, prefix: nat, suffix: nat)
    requires c.from <= c.to <= |s| && IsDiff(s, CutOut(s, c), prefix, suffix)
    ensures prefix + suffix == |CutOut(s, c)|
    ensures s[..prefix] + s[|s| - suffix..] == CutOut(s, c)
    ensures Slice(s, prefix, |s| - suffix) == Rotate(s[c.from..c.to], Slide(s, c))
  {
    hide Rotate, MatchRun, Slice, IsDiff, CutOut, Slide;
    EndsRecovered(s, c, prefix, suffix);
    SpanReported(s, c);
  }

  lemma EndsRecovered(s: string, c: Cut, prefix: nat, suffix: nat)
    requires c.from <= c.to <= |s| && IsDiff(s, CutOut(s, c), prefix, suffix)
    ensures prefix == c.from + MatchRun(s, c.from, c.to) && |s| - suffix == c.to + MatchRun(s, c.from, c.to)
    ensures prefix + suffix == |CutOut(s, c)| && s[..prefix] + s[|s| - suffix..] == CutOut(s, c)
  {
    hide MatchRun, CutOut, IsDiff;
    var m := CutOut(s, c);
    CutIsCut(s, c);
    EndsMeet(s, c, m, prefix, suffix);
    SameCut(s, m, prefix, suffix);
  }

  lemma SpanReported(s: string, c: Cut)
    requires c.from <= c.to <= |s|
    ensures var n := MatchRun(s, c.from, c.to);
            Slice(s, c.from + n, c.to + n) == Rotate(s[c.from..c.to], Slide(s, c))
  {
    hide Rotate, MatchRun, Slice, Slide;
    if c.from < c.to { TurnReported(s, c); } else { EmptyTurns(s, c); }
  }

  lemma TurnReported(s: string, c: Cut)
    requires c.from < c.to <= |s|
    ensures var n := MatchRun(s, c.from, c.to);
            Slice(s, c.from + n, c.to + n) == Rotate(s[c.from..c.to], Slide(s, c))
  {
    hide Rotate, MatchRun;
    WindowTurns(s, c.from, c.to, MatchRun(s, c.from, c.to));
  }

  lemma CutIsCut(s: string, c: Cut)
    requires c.from <= c.to <= |s|
    ensures IsCut(s, c, CutOut(s, c))
  {
  }

  lemma SameCut(s: string, m: string, prefix: nat, suffix: nat)
    requires IsDiff(s, m, prefix, suffix) && prefix + suffix == |m| <= |s|
    ensures s[..prefix] + s[|s| - suffix..] == m
  {
    var w := s[..prefix] + s[|s| - suffix..];
    forall k | 0 <= k < |m| ensures w[k] == m[k] {
      if k >= prefix { assert w[k] == s[|s| - |m| + k]; }
    }
  }

  lemma EmptyTurns(s: string, c: Cut)
    requires c.from == c.to <= |s|
    ensures var n := MatchRun(s, c.from, c.to);
            Slice(s, c.from + n, c.to + n) == Rotate(s[c.from..c.to], Slide(s, c)) == ""
  {
    hide MatchRun, Slice, Rotate, Slide;
    NoSlice(s, c.from + MatchRun(s, c.from, c.to));
    NoTurn(s, c);
  }

  lemma NoSlice(s: string, at: nat)
    requires at <= |s|
    ensures Slice(s, at, at) == ""
  {
  }

  lemma NoTurn(s: string, c: Cut)
    requires c.from == c.to <= |s|
    ensures Rotate(s[c.from..c.to], Slide(s, c)) == ""
  {
  }

  /** The diff reports the deletion at its own place exactly when what follows is not a repetition of its first character. */
  lemma PlaceRecovered(s: string, c: Cut, prefix: nat, suffix: nat)
    requires c.from <= c.to <= |s| && IsDiff(s, CutOut(s, c), prefix, suffix)
    ensures prefix == c.from <==> c.to == |s| || s[c.from] != s[c.to]
  {
    hide IsDiff, CutOut;
    EndsRecovered(s, c, prefix, suffix);
  }

  /** A span that turns once round is back where it began. */
  lemma {:induction false} RotateAt(d: string, n: nat, k: nat)
    requires k < |d|
    ensures |Rotate(d, n)| == |d| && Rotate(d, n)[k] == d[(k + n) % |d|]
    decreases n
  {
    if n > 0 {
      var next := d[1..] + [d[0]];
      RotateAt(next, n - 1, k);
      WrapStep(k, n, |d|);
      var i := (k + n - 1) % |d|;
      assert next[i] == if i + 1 < |d| then d[i + 1] else d[0];
    }
  }

  lemma WrapStep(k: nat, n: nat, m: nat)
    requires m > 0 && n > 0
    ensures (k + n) % m == if (k + n - 1) % m + 1 < m then (k + n - 1) % m + 1 else 0
  {
    var q, r := (k + n - 1) / m, (k + n - 1) % m;
    assert k + n == q * m + (r + 1);
    if r + 1 < m { Remainder(q, r + 1, m); } else { Remainder(q + 1, 0, m); }
  }

  lemma Remainder(q: nat, r: nat, m: nat)
    requires r < m
    ensures (q * m + r) % m == r
  {
    var x, a := q * m + r, (q * m + r) / m;
    assert x == a * m + x % m;
    Monotone(a + 1, q, m);
    Monotone(q + 1, a, m);
  }

  lemma Monotone(a: int, b: int, m: nat)
    ensures a <= b ==> a * m <= b * m
  {
    if a <= b { assert b * m - a * m == (b - a) * m; }
  }

  /** The one semicolon of `d` stands at `p`. */
  ghost predicate OneAt(d: string, p: nat) {
    p < |d| && d[p] == ';' && forall k | 0 <= k < |d| :: d[k] == ';' ==> k == p
  }

  lemma OneSemicolon(d: string) returns (p: nat)
    requires Semicolons(d) == 1
    ensures OneAt(d, p)
  {
    assert ';' in multiset(d);
    p :| p < |d| && d[p] == ';';
    forall k | 0 <= k < |d| && d[k] == ';' ensures k == p {
      if k != p { TwoSemicolons(d, if k < p then k else p, if k < p then p else k); }
    }
  }

  lemma TwoSemicolons(d: string, i: nat, j: nat)
    requires i < j < |d| && d[i] == ';' && d[j] == ';'
    ensures Semicolons(d) >= 2
  {
    assert d == d[..j] + d[j..];
    assert d[..j][i] == ';' && d[j..][0] == ';';
    assert multiset(d[..j])[';'] >= 1 && multiset(d[j..])[';'] >= 1;
  }

  /** A span with one semicolon is the same after turning exactly when it has turned all the way round. */
  lemma TurnedToItself(d: string, n: nat)
    requires Semicolons(d) == 1
    ensures Rotate(d, n) == d <==> n % |d| == 0
  {
    var p := OneSemicolon(d);
    RotateAt(d, n, p);
    if Rotate(d, n) == d {
      assert (p + n) % |d| == p;
      Congruent(p, n, |d|);
    }
    if n % |d| == 0 {
      forall k | 0 <= k < |d| ensures Rotate(d, n)[k] == d[k] {
        RotateAt(d, n, k);
        Whole(k, n, |d|);
      }
    }
  }

  lemma Congruent(p: nat, n: nat, m: nat)
    requires p < m && (p + n) % m == p
    ensures n % m == 0
  {
    var q := (p + n) / m;
    assert n == q * m + 0;
    Remainder(q, 0, m);
  }

  lemma Whole(k: nat, n: nat, m: nat)
    requires k < m && n % m == 0
    ensures (k + n) % m == k
  {
    var q := n / m;
    assert k + n == q * m + k;
    Remainder(q, k, m);
  }

  /**
   * What a control deletes holds one semicolon, so the span the diff reports for it is the one it deletes exactly when
   * the slide is a whole number of turns: none, above all, when the text after it begins differently.
   */
  lemma ReportedIsDeleted(s: string, from: string, to: string, prefix: nat, suffix: nat)
    requires StatementCut(s, from, to).Ok?
    requires IsDiff(s, CutOut(s, StatementCut(s, from, to).value), prefix, suffix)
    ensures var c := StatementCut(s, from, to).value;
            && c.from < c.to
            && (Slice(s, prefix, |s| - suffix) == s[c.from..c.to] <==> Slide(s, c) % (c.to - c.from) == 0)
  {
    hide IsDiff, CutOut, StatementCut, Slide, Slice, Rotate, Semicolons;
    var c := StatementCut(s, from, to).value;
    HoldsOne(s, from, to);
    var d := s[c.from..c.to];
    DeletionRecovered(s, c, prefix, suffix);
    TurnedToItself(d, Slide(s, c));
  }

  lemma HoldsOne(s: string, from: string, to: string)
    requires StatementCut(s, from, to).Ok?
    ensures var c := StatementCut(s, from, to).value; c.from < c.to <= |s| && Semicolons(s[c.from..c.to]) == 1
  {
    hide Anchor, IndexOf;
    var c := StatementCut(s, from, to).value;
    assert Semicolons(s[c.from..c.to]) == 1;
    var p := OneSemicolon(s[c.from..c.to]);
  }

  /** Whatever was deleted, the reported span is the deleted one when what follows is empty or begins differently. */
  lemma NoSlide(s: string, c: Cut)
    requires c.from <= c.to <= |s|
    requires c.to == |s| || c.from == c.to || s[c.from] != s[c.to]
    ensures Rotate(s[c.from..c.to], Slide(s, c)) == s[c.from..c.to]
  {
  }

  /** A concrete deletion whose reported span is another text: from `x;xy` cut the first statement. */
  lemma RotationHappens()
    ensures Rotate("x;xy"[0..2], Slide("x;xy", Cut(0, 2))) == ";x" != "x;xy"[0..2]
  {
    WindowTurns("x;xy", 0, 2, 1);
    assert MatchRun("x;xy", 1, 3) == 0;
    assert "x;xy"[1..3] == ";x";
  }

  // ---- the deleters ----

  /** `p` occurs in `s` at `i` and nowhere else. */
  ghost predicate OnlyAt(s: string, p: string, i: nat) {
    OccursAt(s, p, i) && forall j: int :: OccursAt(s, p, j) ==> j == i
  }

  /** `i` is the first occurrence of `p` at or after `from`. */
  ghost predicate FirstAt(s: string, p: string, from: nat, i: nat) {
    from <= i && OccursAt(s, p, i) && forall j: int | from <= j < i :: !OccursAt(s, p, j)
  }

  datatype RemovalError = OpeningMissing | OpeningAmbiguous | ClosingMissing | NotOneStatement

  /** The unique occurrence of an anchor, as both deleters and the function cutter look for it. */
  function Anchor(s: string, p: string): (r: Result<nat, RemovalError>)
    ensures p != "" ==> match r
      case Ok(i) => OnlyAt(s, p, i)
      case Err(OpeningMissing) => forall j: int :: !OccursAt(s, p, j)
      case Err(e) => e == OpeningAmbiguous && exists j: int, k: int :: j != k && OccursAt(s, p, j) && OccursAt(s, p, k)
    ensures p == "" ==> r == Err(OpeningAmbiguous)
  {
    var first := IndexOf(s, p, 0);
    if first.None? then Err(OpeningMissing)
    else
      var second := IndexOf(s, p, first.value + 1);
      if second.Some? then Err(OpeningAmbiguous) else Ok(first.value)
  }

  function Semicolons(s: string): nat {
    multiset(s)[';']
  }

  /** `removeStatement`: the closing anchor is looked for from where the opening one begins. */
  function StatementCut(sql: string, from: string, to: string): (r: Result<Cut, RemovalError>)
    ensures r.Ok? ==> r.value.from <= r.value.to <= |sql|
  {
    match Anchor(sql, from)
    case Err(e) => Err(e)
    case Ok(first) =>
      var endAt := IndexOf(sql, to, first);
      if endAt.None? then Err(ClosingMissing)
      else if Semicolons(sql[first..endAt.value + |to|]) != 1 then Err(NotOneStatement)
      else Ok(Cut(first, endAt.value + |to|))
  }

  /** `removeClause`: the closing anchor is looked for after the opening one. */
  function ClauseCut(statement: string, from: string, to: string): (r: Result<Cut, RemovalError>)
    ensures r.Ok? ==> r.value.from <= r.value.to <= |statement|
  {
    match Anchor(statement, from)
    case Err(e) => Err(e)
    case Ok(first) =>
      var endAt := IndexOf(statement, to, first + |from|);
      if endAt.None? then Err(ClosingMissing) else Ok(Cut(first, endAt.value + |to|))
  }

  /** `functionStatement`: from the unique header to the semicolon after its first terminator. */
  function FunctionCut(sql: string, header: string, terminator: string): (r: Result<Cut, RemovalError>)
    ensures r.Ok? ==> r.value.from <= r.value.to <= |sql|
  {
    match Anchor(sql, header)
    case Err(e) => Err(e)
    case Ok(first) =>
      var end := IndexOf(sql, terminator, first + |header|);
      if end.None? then Err(ClosingMissing)
      else
        var semicolon := IndexOf(sql, ";", end.value + |terminator|);
        if semicolon.None? then Err(ClosingMissing) else Ok(Cut(first, semicolon.value + 1))
  }

  lemma IndexIsFirst(s: string, p: string, from: nat, i: nat)
    requires from <= |s|
    ensures IndexOf(s, p, from) == Some(i) <==> FirstAt(s, p, from, i)
  {
  }

  lemma AnchorMeaning(s: string, p: string, a: nat)
    requires p != ""
    ensures Anchor(s, p) == Ok(a) <==> OnlyAt(s, p, a)
  {
  }

  /** A clause is cut exactly when its opening anchor names one place and the closing one follows it. */
  lemma ClauseCutMeaning(s: string, from: string, to: string, a: nat, b: nat)
    requires from != ""
    ensures ClauseCut(s, from, to) == Ok(Cut(a, b + |to|)) <==> OnlyAt(s, from, a) && FirstAt(s, to, a + |from|, b)
  {
    AnchorMeaning(s, from, a);
    if OnlyAt(s, from, a) { IndexIsFirst(s, to, a + |from|, b); }
  }

  lemma StatementCutMeaning(s: string, from: string, to: string, a: nat, b: nat)
    requires from != ""
    ensures StatementCut(s, from, to) == Ok(Cut(a, b + |to|)) <==>
            OnlyAt(s, from, a) && FirstAt(s, to, a, b) && Semicolons(s[a..b + |to|]) == 1
  {
    hide Semicolons;
    AnchorMeaning(s, from, a);
    if OnlyAt(s, from, a) { IndexIsFirst(s, to, a, b); }
  }

  ghost predicate Twice(s: string, p: string) {
    exists j: int, k: int :: j != k && OccursAt(s, p, j) && OccursAt(s, p, k)
  }

  lemma IndexMissing(s: string, p: string, from: nat)
    requires from <= |s|
    ensures IndexOf(s, p, from).None? <==> forall j: int | from <= j :: !OccursAt(s, p, j)
  {
  }

  lemma OnlyInside(s: string, p: string, a: nat)
    requires OnlyAt(s, p, a)
    ensures a + |p| <= |s| && !Twice(s, p) && Contains(s, p)
  {
  }

  lemma AnchorErrors(s: string, p: string)
    requires p != ""
    ensures Anchor(s, p) == Err(OpeningMissing) <==> !Contains(s, p)
    ensures Anchor(s, p) == Err(OpeningAmbiguous) <==> Twice(s, p)
    ensures Anchor(s, p).Err? ==> Anchor(s, p).error == OpeningMissing || Anchor(s, p).error == OpeningAmbiguous
    ensures Anchor(s, p).Ok? ==> OnlyAt(s, p, Anchor(s, p).value)
  {
    if Anchor(s, p).Ok? { OnlyInside(s, p, Anchor(s, p).value); }
  }

  /** Why a statement cannot be cut, each reason exactly. */
  lemma StatementErrors(s: string, from: string, to: string)
    requires from != ""
    ensures StatementCut(s, from, to) == Err(OpeningMissing) <==> !Contains(s, from)
    ensures StatementCut(s, from, to) == Err(OpeningAmbiguous) <==> Twice(s, from)
    ensures StatementCut(s, from, to) == Err(ClosingMissing) <==>
            exists a: nat :: OnlyAt(s, from, a) && forall b: int | a <= b :: !OccursAt(s, to, b)
    ensures StatementCut(s, from, to) == Err(NotOneStatement) <==>
            exists a: nat, b: nat :: OnlyAt(s, from, a) && FirstAt(s, to, a, b) && Semicolons(s[a..b + |to|]) != 1
  {
    hide Semicolons, Anchor, IndexOf, OnlyAt, Twice, Contains;
    AnchorErrors(s, from);
    if Anchor(s, from).Ok? {
      var a := Anchor(s, from).value;
      OnlyInside(s, from, a);
      forall x: nat | OnlyAt(s, from, x) ensures x == a { SamePlace(s, from, a, x); }
      IndexMissing(s, to, a);
      forall b: nat ensures IndexOf(s, to, a) == Some(b) <==> FirstAt(s, to, a, b) { IndexIsFirst(s, to, a, b); }
    } else {
      forall x: nat ensures !OnlyAt(s, from, x) { if OnlyAt(s, from, x) { OnlyInside(s, from, x); } }
    }
  }

  lemma SamePlace(s: string, p: string, a: nat, b: nat)
    requires OnlyAt(s, p, a) && OnlyAt(s, p, b)
    ensures a == b
  {
  }

  /** And a clause. */
  lemma ClauseErrors(s: string, from: string, to: string)
    requires from != ""
    ensures ClauseCut(s, from, to) == Err(OpeningMissing) <==> !Contains(s, from)
    ensures ClauseCut(s, from, to) == Err(OpeningAmbiguous) <==> Twice(s, from)
    ensures ClauseCut(s, from, to) == Err(ClosingMissing) <==>
            exists a: nat :: OnlyAt(s, from, a) && forall b: int | a + |from| <= b :: !OccursAt(s, to, b)
  {
    hide Anchor, IndexOf, OnlyAt, Twice, Contains;
    AnchorErrors(s, from);
    if Anchor(s, from).Ok? {
      var a := Anchor(s, from).value;
      OnlyInside(s, from, a);
      forall x: nat | OnlyAt(s, from, x) ensures x == a { SamePlace(s, from, a, x); }
      IndexMissing(s, to, a + |from|);
    } else {
      forall x: nat ensures !OnlyAt(s, from, x) { if OnlyAt(s, from, x) { OnlyInside(s, from, x); } }
    }
  }

  /** After the header at `a` the first terminator stands at `b`, and the first semicolon after that at `c`. */
  ghost predicate Terminated(s: string, header: string, terminator: string, a: nat, b: nat, c: nat) {
    FirstAt(s, terminator, a + |header|, b) && FirstAt(s, ";", b + |terminator|, c)
  }

  /** The function statement begins at its header and ends at the next semicolon after its first terminator. */
  lemma FunctionCutMeaning(s: string, header: string, terminator: string, a: nat, c: nat)
    requires header != ""
    ensures FunctionCut(s, header, terminator) == Ok(Cut(a, c + 1)) <==>
            OnlyAt(s, header, a)
            && exists b: nat :: Terminated(s, header, terminator, a, b, c)
  {
    hide FunctionCut, FirstAt, OnlyAt;
    if FunctionCut(s, header, terminator) == Ok(Cut(a, c + 1)) {
      var b := TerminatorOf(s, header, terminator, a, c);
    }
    forall b: nat | OnlyAt(s, header, a) && Terminated(s, header, terminator, a, b, c)
      ensures FunctionCut(s, header, terminator) == Ok(Cut(a, c + 1))
    {
      CutAt(s, header, terminator, a, b, c);
    }
  }

  /** And a function statement. */
  lemma FunctionErrors(s: string, header: string, terminator: string)
    requires header != ""
    ensures FunctionCut(s, header, terminator) == Err(OpeningMissing) <==> !Contains(s, header)
    ensures FunctionCut(s, header, terminator) == Err(OpeningAmbiguous) <==> Twice(s, header)
    ensures FunctionCut(s, header, terminator) == Err(ClosingMissing) <==>
            exists a: nat :: OnlyAt(s, header, a) && forall b: nat, c: nat :: !Terminated(s, header, terminator, a, b, c)
  {
    hide OnlyAt, Twice, Contains, Terminated, FunctionCut;
    AnchorErrors(s, header);
    FunctionShape(s, header, terminator);
    var r := FunctionCut(s, header, terminator);
    if r.Ok? {
      OnlyInside(s, header, r.value.from);
      FunctionCutMeaning(s, header, terminator, r.value.from, r.value.to - 1);
      forall x: nat | OnlyAt(s, header, x) ensures x == r.value.from { SamePlace(s, header, r.value.from, x); }
    } else {
      forall a: nat, b: nat, c: nat | OnlyAt(s, header, a) ensures !Terminated(s, header, terminator, a, b, c) {
        FunctionCutMeaning(s, header, terminator, a, c);
      }
      forall x: nat | OnlyAt(s, header, x) ensures Contains(s, header) && !Twice(s, header) { OnlyInside(s, header, x); }
    }
  }

  lemma FunctionShape(s: string, header: string, terminator: string)
    requires header != ""
    ensures var r := FunctionCut(s, header, terminator);
            match r
            case Ok(c) => OnlyAt(s, header, c.from) && c.to > 0
            case Err(e) => if Anchor(s, header).Err? then r.error == Anchor(s, header).error else e == ClosingMissing
  {
    hide IndexOf, OnlyAt, Anchor;
    AnchorErrors(s, header);
    if Anchor(s, header).Ok? { AnchorMeaning(s, header, Anchor(s, header).value); }
  }

  lemma TerminatorOf(s: string, header: string, terminator: string, a: nat, c: nat) returns (b: nat)
    requires header != "" && FunctionCut(s, header, terminator) == Ok(Cut(a, c + 1))
    ensures OnlyAt(s, header, a) && Terminated(s, header, terminator, a, b, c)
  {
    hide Anchor, IndexOf, FirstAt;
    AnchorMeaning(s, header, a);
    HeaderFits(s, header, a);
    b := IndexOf(s, terminator, a + |header|).value;
    IndexIsFirst(s, terminator, a + |header|, b);
    FirstFits(s, terminator, a + |header|, b);
    IndexIsFirst(s, ";", b + |terminator|, c);
  }

  lemma HeaderFits(s: string, header: string, a: nat)
    ensures OnlyAt(s, header, a) ==> a + |header| <= |s|
  {
  }

  lemma FirstFits(s: string, p: string, from: nat, i: nat)
    ensures FirstAt(s, p, from, i) ==> i + |p| <= |s|
  {
  }

  lemma CutAt(s: string, header: string, terminator: string, a: nat, b: nat, c: nat)
    requires header != "" && OnlyAt(s, header, a)
    requires Terminated(s, header, terminator, a, b, c)
    ensures FunctionCut(s, header, terminator) == Ok(Cut(a, c + 1))
  {
    hide Anchor, IndexOf, FirstAt;
    AnchorMeaning(s, header, a);
    HeaderFits(s, header, a);
    IndexIsFirst(s, terminator, a + |header|, b);
    FirstFits(s, terminator, a + |header|, b);
    IndexIsFirst(s, ";", b + |terminator|, c);
  }
}
