/**
 * The parser's promise that only a qualified read is ever skipped, against what a qualified read is: the name of the
 * column after a full stop that qualifies it, and not after one that ends a comment.
 */
module QualifiedReads {
  import opened Text
  import opened SqlScan
  import opened OwnedTables
  import opened OwnedTablesLaws

  // ---- what a qualified read is ----

  /** A block comment knows where it opened. */
  datatype Comment = NoComment | LineComment | BlockComment(open: nat)

  /** Where in a text of SQL a character stands. What a literal holds may be SQL as well, and is read for comments too. */
  datatype Mode = Code(comment: Comment) | Literal(comment: Comment) | EscapedQuote(comment: Comment) | QuotedName

  function AfterComment(c: Comment, s: string, k: nat): Comment
    requires k < |s|
  {
    match c
    case NoComment =>
      if s[k] == '-' && k + 1 < |s| && s[k + 1] == '-' then LineComment
      else if s[k] == '/' && k + 1 < |s| && s[k + 1] == '*' then BlockComment(k)
      else NoComment
    case LineComment => if s[k] == '\n' then NoComment else c
    case BlockComment(open) => if k >= open + 3 && s[k - 1] == '*' && s[k] == '/' then NoComment else c
  }

  function After(m: Mode, s: string, k: nat): Mode
    requires k < |s|
  {
    match m
    case Code(c) =>
      if c == NoComment && s[k] == '\'' then Literal(NoComment)
      else if c == NoComment && s[k] == '"' then QuotedName
      else Code(AfterComment(c, s, k))
    case Literal(c) =>
      if s[k] != '\'' then Literal(AfterComment(c, s, k))
      else if k + 1 < |s| && s[k + 1] == '\'' then EscapedQuote(c)
      else Code(NoComment)
    case EscapedQuote(c) => Literal(c)
    case QuotedName => if s[k] == '"' then Code(NoComment) else m
  }

  function ModeAt(s: string, n: nat): Mode
    requires n <= |s|
  {
    if n == 0 then Code(NoComment) else After(ModeAt(s, n - 1), s, n - 1)
  }

  predicate InComment(s: string, k: nat)
    requires k <= |s|
  {
    ModeAt(s, k) != QuotedName && ModeAt(s, k).comment != NoComment
  }

  /** The last character before `n` that is not white space. */
  function LastInk(s: string, n: nat): (r: Option<nat>)
    requires n <= |s|
    ensures r.Some? ==> r.value < n && !IsSpace(s[r.value]) && forall k | r.value < k < n :: IsSpace(s[k])
    ensures r.None? ==> forall k | 0 <= k < n :: IsSpace(s[k])
  {
    if n == 0 then None else if IsSpace(s[n - 1]) then LastInk(s, n - 1) else Some(n - 1)
  }

  /** Before `p`, blanks aside, a name ends: a word or a quoted one, and in no comment. */
  predicate FollowsName(s: string, p: nat)
    requires p <= |s|
  {
    var q := LastInk(s, p);
    q.Some? && (WordChar(s[q.value]) || s[q.value] == '"') && !InComment(s, q.value)
  }

  /** The column is read of what a full stop outside every comment qualifies it with. */
  predicate QualifiedRead(s: string, at: nat)
    requires at <= |s|
  {
    var p := LastInk(s, at);
    p.Some? && s[p.value] == '.' && !InComment(s, p.value) && FollowsName(s, p.value)
  }

  /** Before `at` stands a full stop that belongs to a comment, or that follows no name. */
  predicate StrayStop(s: string, at: nat)
    requires at <= |s|
  {
    var p := LastInk(s, at);
    p.Some? && s[p.value] == '.' && (InComment(s, p.value) || !FollowsName(s, p.value))
  }

  /** The parser's test takes every full stop for a qualifier. */
  lemma TestTakesAnyStop(s: string, at: nat)
    requires at <= |s|
    ensures QualifiedAt(s, at) <==> QualifiedRead(s, at) || StrayStop(s, at)
    ensures !(QualifiedRead(s, at) && StrayStop(s, at))
  {
    hide InComment, FollowsName;
    DotIsNoSpace();
    StopBefore(s, at);
  }

  lemma {:induction false} StopBefore(s: string, at: nat)
    requires at <= |s|
    ensures QualifiedAt(s, at) <==> LastInk(s, at).Some? && s[LastInk(s, at).value] == '.'
  {
    DotIsNoSpace();
    if at > 0 { StopBefore(s, at - 1); }
  }

  // ---- a comment reaches to the end of its line, and its full stops qualify nothing ----

  /** A comment opens at `o`, in code or in a literal, and neither its line nor the literal ends before `p`. */
  ghost predicate CommentReaches(s: string, o: nat, p: nat) {
    && o + 2 <= p < |s| && s[o] == '-' && s[o + 1] == '-'
    && (ModeAt(s, o) == Code(NoComment) || ModeAt(s, o) == Literal(NoComment))
    && (forall k | o <= k < p :: s[k] != '\n') && (ModeAt(s, o).Literal? ==> forall k | o <= k < p :: s[k] != '\'')
  }

  lemma {:induction false} CommentHolds(s: string, o: nat, p: nat)
    requires CommentReaches(s, o, p)
    ensures InComment(s, p)
    ensures ModeAt(s, p) == if ModeAt(s, o).Code? then Code(LineComment) else Literal(LineComment)
  {
    if p == o + 2 {
      assert ModeAt(s, o + 1) == if ModeAt(s, o).Code? then Code(LineComment) else Literal(LineComment);
    } else {
      CommentHolds(s, o, p - 1);
    }
  }

  lemma {:induction false} InkIs(s: string, at: nat, p: nat)
    requires p < at <= |s| && !IsSpace(s[p]) && forall k | p < k < at :: IsSpace(s[k])
    ensures LastInk(s, at) == Some(p)
  {
    if p < at - 1 { InkIs(s, at - 1, p); }
  }

  /** The column under a comment that ends in a full stop: never a qualified read, always taken for one. */
  lemma StopInComment(s: string, o: nat, p: nat, at: nat)
    requires CommentReaches(s, o, p) && s[p] == '.'
    requires p < at <= |s| && forall k | p < k < at :: IsSpace(s[k])
    ensures !QualifiedRead(s, at) && StrayStop(s, at) && QualifiedAt(s, at)
  {
    hide CommentReaches, FollowsName;
    DotIsNoSpace();
    CommentHolds(s, o, p);
    InkIs(s, at, p);
    hide InComment;
    TestTakesAnyStop(s, at);
  }

  // ---- what is passed over ----

  /** The mention demands no table where the parser reads it: in its DO block, or in the text with the blocks blanked. */
  ghost predicate PassedOver(text: string, at: nat)
    requires at < |text|
  {
    if Covered(Blocks(text), at) then
      exists b :: b in Blocks(text) && b.start <= at < b.end <= |text| && !Demands(Body(text, b), at - b.start)
    else !Demands(Masked(text, Blocks(text)), at)
  }

  /**
   * A mention is passed over exactly when it is a qualified read, or a full stop that qualifies nothing stands before
   * it, or it stands outside the DO blocks and one of them separates it from a full stop.
   */
  lemma PassedOverMeans(text: string, at: nat)
    requires at < |text| && MentionAt(text, at)
    ensures PassedOver(text, at) <==>
            || QualifiedRead(text, at) || StrayStop(text, at)
            || (!Covered(Blocks(text), at) && Shadowed(text, Blocks(text), at))
  {
    hide MentionAt, QualifiedAt, QualifiedRead, StrayStop, Masked, Blocks, Covered, Shadowed;
    var blocks := Blocks(text);
    BlocksWellFormed(text);
    TestTakesAnyStop(text, at);
    if Covered(blocks, at) {
      var b := CoveredBlock(text, blocks, at);
      forall b | b in blocks && b.start <= at < b.end <= |text|
        ensures Demands(Body(text, b), at - b.start) <==> Demands(text, at)
      {
        BlockOfText(text, blocks, b);
        InsideBlock(text, b, at - b.start);
      }
    } else {
      MentionSurvives(text, blocks, at);
      QualifiedThroughMask(text, blocks, at);
    }
  }

  lemma BlockOfText(text: string, blocks: seq<Match>, b: Match)
    requires WellFormed(text, blocks) && b in blocks
    ensures b.start < b.end <= |text| && Lower(text[b.start]) == 'd' && text[b.end - 1] == '$'
  {
  }

  /**
   * The promise, and exactly where it is broken. Without a failure, each mention that is no qualified read is accounted
   * for by the tables of its block or by its own, unless a stray full stop or a block after a full stop hides it; and
   * those, and no others, are passed over in silence.
   */
  lemma NeverNarrows(file: string, text: string, at: nat)
    requires FileFailures(file, text) == []
    requires at < |text| && MentionAt(text, at) && !QualifiedRead(text, at)
    ensures PassedOver(text, at) <==>
            StrayStop(text, at) || (!Covered(Blocks(text), at) && Shadowed(text, Blocks(text), at))
    ensures !PassedOver(text, at) ==> AccountedFor(text, at)
  {
    hide MentionAt, QualifiedAt, QualifiedRead, StrayStop, Masked, Blocks, Covered, Shadowed, AccountedFor, FileFailures;
    PassedOverMeans(text, at);
    TestTakesAnyStop(text, at);
    if !PassedOver(text, at) {
      assert Demands(text, at);
      DemandsMet(file, text, at);
    }
  }

  /** A mention under a comment that ends in a full stop is passed over in every text, be it in code or in dynamic SQL. */
  lemma CommentHides(text: string, o: nat, p: nat, at: nat)
    requires CommentReaches(text, o, p) && text[p] == '.'
    requires p < at < |text| && forall k | p < k < at :: IsSpace(text[k])
    requires MentionAt(text, at)
    ensures !QualifiedRead(text, at) && PassedOver(text, at)
  {
    hide CommentReaches, PassedOver, QualifiedRead, StrayStop, QualifiedAt, MentionAt;
    StopInComment(text, o, p, at);
    PassedOverMeans(text, at);
  }

  // ---- two inputs ----

  /** A text in which the parser finds nothing: no DO block, and no mention but ones it takes for reads. */
  lemma SilentText(file: string, text: string)
    requires forall k | 0 <= k < |text| :: Lower(text[k]) != 'd'
    requires forall k: nat | k < |text| && MentionAt(text, k) :: QualifiedAt(text, k)
    ensures Blocks(text) == [] && FileFailures(file, text) == [] && FileTables(text) == {}
  {
    hide FileTables, FileFailures, Attribution, MentionAt, QualifiedAt, BlockNames, Versions, Body, Lower, DoBlock;
    assert Blocks(text) == [] by { NoBlocks(text); }
    hide Blocks;
    NoFailures(file, text);
    NothingBlanked(text);
    if t :| t in FileTables(text) { TablesExact(text, t); }
  }

  lemma NothingBlanked(text: string)
    ensures Masked(text, []) == text
  {
  }

  lemma NoBlocks(text: string)
    requires forall k | 0 <= k < |text| :: Lower(text[k]) != 'd'
    ensures Blocks(text) == []
  {
    hide DoBlock, Lower, Matches;
    forall i: nat | i < |text| ensures !Matches(text, DoBlock, i) {
      BlockShape(text, i);
      if Matches(text, DoBlock, i) { MatchIsSome(text, DoBlock, i); }
    }
    var first := Next(text, DoBlock, 0);
    if first.Some? { SomeMatch(text, DoBlock, first.value.start); }
  }

  lemma MatchIsSome(s: string, p: Pattern, i: nat)
    requires Matches(s, p, i)
    ensures p(s, i).Some?
  {
  }

  lemma SomeMatch(s: string, p: Pattern, i: nat)
    requires p(s, i).Some? && p(s, i).value.start == i < p(s, i).value.end <= |s|
    ensures Matches(s, p, i)
  {
  }

  /** `u` before the column's name, and `v` after it. */
  function Around(u: string, v: string): string { u + COLUMN + v }

  /** Between two texts without a word character at the seam the name is a mention, and the only one if those are short. */
  lemma MentionAround(u: string, v: string)
    requires u != "" && !WordChar(u[|u| - 1]) && (v == "" || !WordChar(v[0]))
    requires |u| + |v| < |COLUMN|
    ensures MentionAt(Around(u, v), |u|)
    ensures forall k: nat | MentionAt(Around(u, v), k) :: k == |u|
  {
    var text, n := Around(u, v), |u|;
    forall k: nat | k < |COLUMN| ensures Lower(text[n + k]) == COLUMN[k] {
      assert text[n + k] == COLUMN[k];
      ColumnIsLower(k);
    }
    assert text[n - 1] == u[n - 1];
    if v != "" { assert text[n + |COLUMN|] == v[0]; }
    hide MentionAt;
    forall k: nat | MentionAt(text, k) ensures k == n {
      MentionLetter(text, k, n - 1);
      MentionLetter(text, k, k + |COLUMN| - 1);
      MentionsApart(text, n, k);
    }
  }

  lemma ColumnHasNoD(u: string, v: string)
    requires forall k | 0 <= k < |u| :: Lower(u[k]) != 'd'
    requires forall k | 0 <= k < |v| :: Lower(v[k]) != 'd'
    ensures forall k | 0 <= k < |Around(u, v)| :: Lower(Around(u, v)[k]) != 'd'
  {
    hide Lower;
    var text := Around(u, v);
    forall k | 0 <= k < |text| ensures Lower(text[k]) != 'd' {
      if |u| <= k < |u| + |COLUMN| {
        ColumnLetters(k - |u|);
        ColumnIsLower(k - |u|);
        assert text[k] == COLUMN[k - |u|];
      } else if k < |u| {
        assert text[k] == u[k];
      } else {
        assert text[k] == v[k - |u| - |COLUMN|];
      }
    }
  }

  const COMMENTED := Around("-- x.\n", "")
  const DYNAMIC := Around("'-- x.\n", "'")

  /** The column under an ordinary comment: no read, outside every block, and neither a table nor a failure comes of it. */
  lemma CommentHidesColumn(file: string)
    ensures MentionAt(COMMENTED, 6) && !QualifiedRead(COMMENTED, 6) && Blocks(COMMENTED) == []
    ensures FileFailures(file, COMMENTED) == [] && FileTables(COMMENTED) == {}
  {
    hide MentionAt, QualifiedAt, QualifiedRead, StrayStop, Blocks, FileFailures, FileTables, COLUMN, Lower;
    var u := "-- x.\n";
    CommentLine(u, "", 0);
    ShortComment();
    MentionAround(u, "");
    ColumnHasNoD(u, "");
    SilentText(file, COMMENTED);
  }

  /** And the column under one in dynamic SQL, where migrations add it. */
  lemma CommentHidesDynamicColumn(file: string)
    ensures MentionAt(DYNAMIC, 7) && !QualifiedRead(DYNAMIC, 7) && Blocks(DYNAMIC) == []
    ensures FileFailures(file, DYNAMIC) == [] && FileTables(DYNAMIC) == {}
  {
    hide MentionAt, QualifiedAt, QualifiedRead, StrayStop, Blocks, FileFailures, FileTables, COLUMN, Lower;
    var u := "'-- x.\n";
    CommentLine(u, "'", 1);
    ShortComment();
    MentionAround(u, "'");
    ColumnHasNoD(u, "'");
    SilentText(file, DYNAMIC);
  }

  lemma ShortComment()
    ensures forall k | 0 <= k < 6 :: Lower("-- x.\n"[k]) != 'd'
    ensures forall k | 0 <= k < 7 :: Lower("'-- x.\n"[k]) != 'd'
    ensures Lower("'"[0]) != 'd' && !WordChar('\n') && !WordChar('\'')
    ensures |COLUMN| == 21
  {
  }

  lemma CommentLine(u: string, v: string, o: nat)
    requires (u == "-- x.\n" && o == 0) || (u == "'-- x.\n" && o == 1)
    ensures var s := Around(u, v); !QualifiedRead(s, o + 6) && StrayStop(s, o + 6) && QualifiedAt(s, o + 6)
  {
    var s := Around(u, v);
    assert forall k | 0 <= k < |u| :: s[k] == u[k];
    assert s[o] == '-' && s[o + 1] == '-' && s[o + 2] == ' ' && s[o + 3] == 'x' && s[o + 4] == '.' && s[o + 5] == '\n';
    if o == 1 { assert s[0] == '\'' && ModeAt(s, 1) == Literal(NoComment); }
    assert CommentReaches(s, o, o + 4);
    StopInComment(s, o, o + 4, o + 6);
  }
}
