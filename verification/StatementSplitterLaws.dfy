/** What splitting means: pieces tile the text and are cut exactly at its top-level semicolons. */
module StatementSplitterLaws {
  import opened Text
  import opened StatementSplitter

  // ---- top level, independently of the splitter ----

  /** Reading lexeme after lexeme from `from` arrives at `to`. */
  ghost predicate Reaches(s: string, from: nat, to: nat)
    decreases |s| - from
  {
    from == to || (from < |s| && Reaches(s, from + LexLen(s[from..]), to))
  }

  /** A semicolon that is itself a lexeme, outside every comment, string and dollar body. */
  ghost predicate TopSemi(s: string, i: nat) {
    i < |s| && s[i] == ';' && Reaches(s, 0, i)
  }

  /** `ends` are the ends of the lexemes that divide `s` from `from` on. */
  ghost predicate Lexing(s: string, from: nat, ends: seq<nat>)
    requires from <= |s|
    decreases |ends|
  {
    if ends == [] then from == |s|
    else from < ends[0] <= |s| && Lexeme(s[from..], ends[0] - from) && Lexing(s, ends[0], ends[1..])
  }

  function Ends(s: string, from: nat): (r: seq<nat>)
    requires from <= |s|
    decreases |s| - from
  {
    if from == |s| then []
    else var j := from + LexLen(s[from..]); [j] + Ends(s, j)
  }

  /** Every text, however malformed, has a lexing. */
  lemma {:induction false} LexingExists(s: string, from: nat)
    requires from <= |s|
    ensures Lexing(s, from, Ends(s, from))
    decreases |s| - from
  {
    hide LexLen, Lexeme;
    if from < |s| {
      var j := from + LexLen(s[from..]);
      LexLenFinds(s[from..], j - from);
      LexingExists(s, j);
    }
  }

  lemma {:induction false} ReachedIffEnd(s: string, from: nat, ends: seq<nat>, i: nat)
    requires from <= |s| && Lexing(s, from, ends)
    ensures Reaches(s, from, i) <==> i == from || i in ends
    decreases |ends|
  {
    hide LexLen, Lexeme;
    if ends != [] {
      LexLenFinds(s[from..], ends[0] - from);
      ReachedIffEnd(s, ends[0], ends[1..], i);
      assert ends == [ends[0]] + ends[1..];
    }
  }

  /** Any division into lexemes, however it was found, names the same top-level semicolons. */
  lemma TopSemiByAnyLexing(s: string, ends: seq<nat>, i: nat)
    requires Lexing(s, 0, ends)
    ensures TopSemi(s, i) <==> i < |s| && s[i] == ';' && (i == 0 || i in ends)
  {
    ReachedIffEnd(s, 0, ends, i);
  }

  lemma {:induction false} ReachesOn(s: string, f: nat, i: nat)
    requires Reaches(s, f, i) && i < |s|
    ensures f <= i
    ensures Reaches(s, f, i + LexLen(s[i..]))
    ensures forall x: nat | i < x < i + LexLen(s[i..]) :: !Reaches(s, f, x)
    decreases |s| - f
  {
    hide LexLen;
    if f == i {
      forall x: nat | i < x < i + LexLen(s[i..]) ensures !Reaches(s, f, x) {
        NotBack(s, i + LexLen(s[i..]), x);
      }
    } else {
      ReachesOn(s, f + LexLen(s[f..]), i);
    }
  }

  lemma {:induction false} NotBack(s: string, f: nat, x: nat)
    requires x < f
    ensures !Reaches(s, f, x)
    decreases |s| - f
  {
    hide LexLen;
    if f < |s| {
      NotBack(s, f + LexLen(s[f..]), x);
    }
  }

  // ---- tiling ----

  function End(p: Piece): nat { p.offset + |p.text| }

  /** The pieces are exact, adjacent, non-blank slices from `start` on; what follows the last is blank. */
  ghost predicate Tiles(s: string, start: nat, ps: seq<Piece>)
    decreases |ps|
  {
    start <= |s|
    && if ps == [] then Blank(s[start..])
    else
      && ps[0].offset == start && End(ps[0]) <= |s|
      && ps[0].text == s[start..End(ps[0])] && !Blank(ps[0].text)
      && Tiles(s, End(ps[0]), ps[1..])
  }

  lemma {:induction false} WalkTiles(s: string, i: nat, start: nat)
    requires start <= i && start <= |s|
    ensures Tiles(s, start, Walk(s, i, start))
    decreases |s| - i
  {
    hide LexLen, Walk, Blank;
    if i >= |s| {
      TilesEnd(s, i, start);
    } else if s[i] == ';' {
      WalkPushes(s, i, start);
      WalkTiles(s, i + 1, i + 1);
      NotBlank(s[start..i + 1], i - start);
      assert Walk(s, i, start)[1..] == Walk(s, i + 1, i + 1);
    } else {
      WalkStep(s, i, start);
      WalkTiles(s, i + LexLen(s[i..]), start);
    }
  }

  lemma TilesEnd(s: string, i: nat, start: nat)
    requires start <= |s| <= i
    ensures Tiles(s, start, Walk(s, i, start))
  {
    hide LexLen;
    assert s[start..] == s[start..|s|];
    assert s[|s|..] == "";
  }

  lemma NotBlank(s: string, k: nat)
    requires k < |s| && !IsSpace(s[k])
    ensures !Blank(s)
  {
  }

  lemma WalkStep(s: string, i: nat, start: nat)
    requires start <= |s| && i < |s| && s[i] != ';'
    ensures Walk(s, i, start) == Walk(s, i + LexLen(s[i..]), start)
  {
    hide LexLen;
  }

  lemma SplitTiles(s: string)
    ensures Tiles(s, 0, Split(s))
  {
    WalkTiles(s, 0, 0);
  }

  // ---- the cuts are the top-level semicolons ----

  /** Every top-level semicolon from `start` on ends a piece; only a last piece that runs to the end of the text has none. */
  ghost predicate CutAtSemis(s: string, start: nat, ps: seq<Piece>)
    decreases |ps|
  {
    if ps == [] then forall x: nat | start <= x :: !TopSemi(s, x)
    else
      var e := End(ps[0]);
      && e > start
      && (TopSemi(s, e - 1) || (|ps| == 1 && e == |s|))
      && (forall x: nat | start <= x < e - 1 :: !TopSemi(s, x))
      && CutAtSemis(s, e, ps[1..])
  }

  lemma {:induction false} WalkCuts(s: string, i: nat, start: nat)
    requires start <= i <= |s| && Reaches(s, 0, i)
    requires forall x: nat | start <= x < i :: !TopSemi(s, x)
    ensures CutAtSemis(s, start, Walk(s, i, start))
    decreases |s| - i
  {
    hide LexLen, Reaches, Walk, Blank;
    if i < |s| {
      ReachesOn(s, 0, i);
      var j := i + LexLen(s[i..]);
      if s[i] == ';' {
        WalkPushes(s, i, start);
        LexLenFinds(s[i..], 1);
        WalkCuts(s, j, j);
        CutCons(s, i, start, Walk(s, j, j));
      } else {
        WalkStep(s, i, start);
        WalkCuts(s, j, start);
      }
    } else {
      WalkDone(s, i, start);
      CutEnd(s, start);
    }
  }

  lemma CutEnd(s: string, start: nat)
    requires start <= |s| && forall x: nat | start <= x < |s| :: !TopSemi(s, x)
    ensures CutAtSemis(s, start, if Blank(s[start..]) then [] else [Piece(s[start..], start)])
  {
    hide Reaches;
    var ps := [Piece(s[start..], start)];
    assert ps[1..] == [];
    assert start == |s| ==> s[start..] == "";
  }

  lemma CutCons(s: string, i: nat, start: nat, rest: seq<Piece>)
    requires start <= i < |s| && TopSemi(s, i) && (forall x: nat | start <= x < i :: !TopSemi(s, x))
    requires CutAtSemis(s, i + 1, rest)
    ensures CutAtSemis(s, start, [Piece(s[start..i + 1], start)] + rest)
  {
    hide TopSemi;
    var ps := [Piece(s[start..i + 1], start)] + rest;
    assert ps[1..] == rest && End(ps[0]) == i + 1;
  }

  lemma SplitCutsAtTopSemis(s: string)
    ensures CutAtSemis(s, 0, Split(s))
  {
    WalkCuts(s, 0, 0);
  }

  // ---- composition ----

  function Shift(ps: seq<Piece>, delta: nat): (r: seq<Piece>)
    ensures |r| == |ps| && forall k | 0 <= k < |ps| :: r[k] == Piece(ps[k].text, ps[k].offset + delta)
  {
    if ps == [] then [] else [Piece(ps[0].text, ps[0].offset + delta)] + Shift(ps[1..], delta)
  }

  lemma {:induction false} WalkShifts(a: string, b: string, i: nat, start: nat)
    requires start <= i && start <= |b|
    ensures Walk(a + b, |a| + i, |a| + start) == Shift(Walk(b, i, start), |a|)
    decreases |b| - i
  {
    hide LexLen, Walk, Blank;
    if i >= |b| {
      WalkShiftsEnd(a, b, i, start);
    } else {
      var w := a + b;
      assert w[|a| + i..] == b[i..];
      if b[i] == ';' {
        SliceShifts(a, b, start, i + 1);
        WalkPushes(b, i, start);
        WalkPushes(w, |a| + i, |a| + start);
        WalkShifts(a, b, i + 1, i + 1);
        ShiftCons(Piece(b[start..i + 1], start), Walk(b, i + 1, i + 1), |a|);
      } else {
        WalkStep(b, i, start);
        WalkStep(w, |a| + i, |a| + start);
        WalkShifts(a, b, i + LexLen(b[i..]), start);
      }
    }
  }

  lemma SliceShifts(a: string, b: string, i: nat, j: nat)
    requires i <= j <= |b|
    ensures (a + b)[|a| + i..|a| + j] == b[i..j]
  {
    forall k | 0 <= k < j - i ensures (a + b)[|a| + i..|a| + j][k] == b[i..j][k] {
      assert (a + b)[|a| + i + k] == b[i + k];
    }
  }

  lemma WalkShiftsEnd(a: string, b: string, i: nat, start: nat)
    requires start <= |b| <= i
    ensures Walk(a + b, |a| + i, |a| + start) == Shift(Walk(b, i, start), |a|)
  {
    hide LexLen, Blank;
    assert (a + b)[|a| + start..] == b[start..];
    if !Blank(b[start..]) {
      ShiftCons(Piece(b[start..], start), [], |a|);
    }
  }

  lemma ShiftCons(p: Piece, ps: seq<Piece>, delta: nat)
    ensures Shift([p] + ps, delta) == [Piece(p.text, p.offset + delta)] + Shift(ps, delta)
  {
    assert ([p] + ps)[1..] == ps;
  }

  /** Text after a semicolon cannot change a lexeme that ended before that semicolon. */
  lemma LexLenPrefix(t: string, u: string)
    requires t != "" && t[|t| - 1] == ';'
    requires LexLen(t) < |t|
    ensures LexLen(t + u) == LexLen(t)
  {
    var j, w := LexLen(t), t + u;
    LexLenFinds(t, j);
    if Opens(t, '-', '-') {
    } else if Opens(t, '/', '*') {
      ClosesPrefix(t, u, "*/", 2, j);
    } else if t[0] == '\'' {
      StringEndsPrefix(t, u, j);
    } else {
      MarkerPrefix(t, u);
      if Marker(t) > 0 {
        assert w[..Marker(t)] == t[..Marker(t)];
        ClosesPrefix(t, u, t[..Marker(t)], Marker(t), j);
      }
    }
    assert Lexeme(w, j);
    LexLenFinds(w, j);
  }

  lemma ClosesPrefix(t: string, u: string, mark: string, from: nat, j: nat)
    requires ClosesAt(t, mark, from, j) && j < |t|
    ensures ClosesAt(t + u, mark, from, j)
  {
    forall k: int | from <= k <= j - |mark| ensures OccursAt(t + u, mark, k) <==> OccursAt(t, mark, k) {
      OccursPrefix(t, u, mark, k);
    }
  }

  lemma {:induction false} QuotesPrefix(t: string, u: string, k: nat)
    requires k <= |t|
    ensures Quotes(t + u, k) == Quotes(t, k)
  {
    if k > 1 { QuotesPrefix(t, u, k - 1); }
  }

  lemma StringEndsPrefix(t: string, u: string, j: nat)
    requires t != "" && StringEndsAt(t, j) && j < |t|
    ensures StringEndsAt(t + u, j)
  {
    forall k: nat | 1 <= k < j ensures ClosingQuote(t + u, k) <==> ClosingQuote(t, k) {
      QuotesPrefix(t, u, k + 1);
    }
  }

  lemma {:induction false} TagRunPrefix(t: string, u: string, i: nat)
    requires i <= |t| && TagRun(t, i) < |t|
    ensures TagRun(t + u, i) == TagRun(t, i)
    decreases |t| - i
  {
    if i < |t| && TagChar(t[i]) { TagRunPrefix(t, u, i + 1); }
  }

  lemma MarkerPrefix(t: string, u: string)
    requires t != "" && t[|t| - 1] == ';'
    ensures Marker(t + u) == Marker(t)
  {
    if t[0] == '$' {
      assert TagRun(t, 1) != |t|;
      TagRunPrefix(t, u, 1);
    }
  }

  lemma {:induction false} WalkAppends(a: string, b: string, i: nat, start: nat)
    requires a != "" && a[|a| - 1] == ';'
    requires start <= i < |a| && Reaches(a, i, |a| - 1)
    ensures Walk(a + b, i, start) == Walk(a, i, start) + Shift(Split(b), |a|)
    decreases |a| - i
  {
    hide LexLen, Walk, Split, Shift;
    var w := a + b;
    assert w[i..] == a[i..] + b;
    if i == |a| - 1 {
      WalkLast(a, b, start);
    } else {
      var j := i + LexLen(a[i..]);
      assert j < |a|;
      LexLenPrefix(a[i..], b);
      if a[i] == ';' {
        LexLenFinds(a[i..], 1);
        WalkAppends(a, b, j, j);
        WalkAppendsPushing(a, b, i, start);
      } else {
        WalkStep(a, i, start);
        WalkStep(w, i, start);
        WalkAppends(a, b, j, start);
      }
    }
  }

  lemma WalkAppendsPushing(a: string, b: string, i: nat, start: nat)
    requires start <= i < |a| && a[i] == ';'
    requires Walk(a + b, i + 1, i + 1) == Walk(a, i + 1, i + 1) + Shift(Split(b), |a|)
    ensures Walk(a + b, i, start) == Walk(a, i, start) + Shift(Split(b), |a|)
  {
    hide LexLen, Walk, Split, Shift;
    WalkPushes(a, i, start);
    WalkPushes(a + b, i, start);
    assert (a + b)[start..i + 1] == a[start..i + 1];
  }

  lemma WalkLast(a: string, b: string, start: nat)
    requires start < |a| && a[|a| - 1] == ';'
    ensures Walk(a + b, |a| - 1, start) == Walk(a, |a| - 1, start) + Shift(Split(b), |a|)
  {
    WalkDone(a, |a|, |a|);
    hide LexLen, Walk, Shift;
    WalkShifts(a, b, 0, 0);
    WalkAppendsPushing(a, b, |a| - 1, start);
  }

  /** Splitting composes after any text whose last character is a top-level semicolon. */
  lemma SplitAppend(a: string, b: string)
    requires a != "" && TopSemi(a, |a| - 1)
    ensures Split(a + b) == Split(a) + Shift(Split(b), |a|)
  {
    WalkAppends(a, b, 0, 0);
  }
}
