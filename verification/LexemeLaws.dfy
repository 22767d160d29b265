/** What the splitter's lexemes are, written out on the text: comments, literals and dollar bodies hold their semicolons. */
module LexemeLaws {
  import opened Text
  import opened StatementSplitter
  import opened StatementSplitterLaws

  // ---- the marker of a dollar body ----

  /** Letters and underscores, or nothing at all. */
  predicate IsTag(tag: string) {
    forall k | 0 <= k < |tag| :: 'A' <= tag[k] <= 'Z' || 'a' <= tag[k] <= 'z' || tag[k] == '_'
  }

  function Mark(tag: string): (m: string)
    ensures |m| == |tag| + 2
  {
    "$" + tag + "$"
  }

  /** A text opens with a marker exactly when it begins with a tag between two dollar signs; the bare `$$` is one. */
  lemma MarkerMeans(t: string, m: nat)
    ensures m > 0 && Marker(t) == m <==> 2 <= m <= |t| && t[0] == '$' && t[m - 1] == '$' && IsTag(t[1..m - 1])
  {
    if 2 <= m <= |t| && t[0] == '$' && t[m - 1] == '$' && IsTag(t[1..m - 1]) {
      assert forall k | 1 <= k < m - 1 :: t[k] == t[1..m - 1][k - 1];
      TagEnds(t, 1, m - 1);
    }
  }

  lemma {:induction false} TagEnds(t: string, i: nat, j: nat)
    requires i <= j < |t| && t[j] == '$' && forall k | i <= k < j :: 'A' <= t[k] <= 'Z' || 'a' <= t[k] <= 'z' || t[k] == '_'
    ensures TagRun(t, i) == j
    decreases j - i
  {
    if i < j { TagEnds(t, i + 1, j); }
  }

  lemma MarkerOf(tag: string, rest: string)
    requires IsTag(tag)
    ensures Marker(Mark(tag) + rest) == |tag| + 2
  {
    var t := Mark(tag) + rest;
    assert t[1..|tag| + 1] == tag;
    MarkerMeans(t, |tag| + 2);
  }

  // ---- one lexeme inside a text ----

  /** The lexing of `s` comes to `i`, and from there to `j` with no step between: what lies there is one lexeme. */
  ghost predicate OneLexeme(s: string, i: nat, j: nat) {
    && i < j <= |s| && Reaches(s, 0, i) && Reaches(s, 0, j)
    && forall x: nat | i < x < j :: !TopSemi(s, x)
  }

  lemma LexemeHeld(a: string, lex: string, b: string)
    requires lex != "" && LexLen(lex + b) == |lex| && Reaches(a + lex + b, 0, |a|)
    ensures OneLexeme(a + lex + b, |a|, |a| + |lex|)
    ensures lex[0] != ';' ==> !TopSemi(a + lex + b, |a|)
  {
    hide LexLen, Reaches;
    var s := a + lex + b;
    assert s[|a|..] == lex + b;
    ReachesOn(s, 0, |a|);
  }

  function DollarBody(tag: string, body: string): (lex: string)
    ensures |lex| == |body| + 2 * |tag| + 4
  {
    Mark(tag) + body + Mark(tag)
  }

  /** Whatever the tag, the bare one included, a dollar body ends with its own marker and holds the semicolons between. */
  lemma DollarBodyHolds(a: string, tag: string, body: string, b: string)
    requires IsTag(tag) && FirstFrom(body + Mark(tag), Mark(tag), 0) == Some(|body|)
    requires Reaches(a + DollarBody(tag, body) + b, 0, |a|)
    ensures OneLexeme(a + DollarBody(tag, body) + b, |a|, |a| + |DollarBody(tag, body)|)
  {
    hide DollarBody, LexLen, Reaches, OneLexeme, FirstFrom, Mark, IsTag;
    DollarLexeme(tag, body, b);
    LexemeHeld(a, DollarBody(tag, body), b);
  }

  lemma DollarLexeme(tag: string, body: string, b: string)
    requires IsTag(tag) && FirstFrom(body + Mark(tag), Mark(tag), 0) == Some(|body|)
    ensures LexLen(DollarBody(tag, body) + b) == |DollarBody(tag, body)|
  {
    hide FirstFrom, Marker, DollarBody, Mark, IsTag;
    var mark, t := Mark(tag), DollarBody(tag, body) + b;
    DollarParts(tag, body, b);
    MarkerOf(tag, body + mark + b);
    BodyCloses(t, mark, body, b);
  }

  lemma DollarParts(tag: string, body: string, b: string)
    ensures var mark, t := Mark(tag), DollarBody(tag, body) + b;
            t == mark + (body + mark + b) && t[0] == '$' && t[..|mark|] == mark && t[|mark|..] == body + mark + b
  {
  }

  lemma BodyCloses(t: string, mark: string, body: string, b: string)
    requires mark != "" && FirstFrom(body + mark, mark, 0) == Some(|body|)
    requires |mark| <= |t| && t[|mark|..] == body + mark + b
    ensures CloseFrom(t, mark, |mark|) == 2 * |mark| + |body|
  {
    hide FirstFrom;
    FirstInPrefix(body + mark, b, mark, |body|);
    FirstFromSuffix(t, |mark|, mark, 0);
  }

  /** The first occurrence is found again when text is added after it. */
  lemma FirstInPrefix(x: string, b: string, p: string, i: nat)
    requires FirstFrom(x, p, 0) == Some(i)
    ensures FirstFrom(x + b, p, 0) == Some(i)
  {
    hide FirstFrom;
    forall j: int | j <= i ensures OccursAt(x + b, p, j) <==> OccursAt(x, p, j) { OccursPrefix(x, b, p, j); }
    FirstIs(x + b, p, 0, i);
  }

  predicate EndsLine(b: string) { b == "" || b[0] == '\n' }

  predicate EndsLiteral(b: string) { b == "" || b[0] != '\'' }

  function LineComment(t: string): (lex: string)
    ensures |lex| == |t| + 2
  {
    "--" + t
  }

  /** A line comment reaches to the end of its line. */
  lemma LineCommentHolds(a: string, t: string, b: string)
    requires '\n' !in t && EndsLine(b) && Reaches(a + LineComment(t) + b, 0, |a|)
    ensures OneLexeme(a + LineComment(t) + b, |a|, |a| + |LineComment(t)|)
  {
    hide LineComment, LexLen, Reaches, OneLexeme;
    LineLexeme(t, b);
    LexemeHeld(a, LineComment(t), b);
  }

  lemma LineLexeme(t: string, b: string)
    requires '\n' !in t && EndsLine(b)
    ensures LexLen(LineComment(t) + b) == |LineComment(t)|
  {
    var s := LineComment(t) + b;
    forall k | 0 <= k < |t| + 2 ensures s[k] != '\n' {
      assert k >= 2 ==> s[k] == t[k - 2];
    }
    assert s[0] == '-' && s[1] == '-';
    assert b != "" ==> s[|t| + 2] == b[0];
  }

  function BlockComment(t: string): (lex: string)
    ensures |lex| == |t| + 4
  {
    "/*" + t + "*/"
  }

  /** A block comment reaches to the first closing mark. */
  lemma BlockCommentHolds(a: string, t: string, b: string)
    requires FirstFrom(t + "*/", "*/", 0) == Some(|t|) && Reaches(a + BlockComment(t) + b, 0, |a|)
    ensures OneLexeme(a + BlockComment(t) + b, |a|, |a| + |BlockComment(t)|)
  {
    hide BlockComment, LexLen, Reaches, OneLexeme, FirstFrom;
    BlockLexeme(t, b);
    LexemeHeld(a, BlockComment(t), b);
  }

  lemma BlockLexeme(t: string, b: string)
    requires FirstFrom(t + "*/", "*/", 0) == Some(|t|)
    ensures LexLen(BlockComment(t) + b) == |BlockComment(t)|
  {
    hide FirstFrom;
    var s := BlockComment(t) + b;
    assert s[2..] == t + "*/" + b && s[0] == '/' && s[1] == '*';
    FirstInPrefix(t + "*/", b, "*/", |t|);
    FirstFromSuffix(s, 2, "*/", 0);
  }

  /** The text of a literal as SQL writes it: every quote doubled. */
  function Doubled(t: string): string {
    if t == "" then "" else (if t[0] == '\'' then "''" else [t[0]]) + Doubled(t[1..])
  }

  function Literal(t: string): (lex: string)
    ensures |lex| == |Doubled(t)| + 2
  {
    "'" + Doubled(t) + "'"
  }

  /** A literal with its quotes doubled reaches to its closing quote, whatever it holds. */
  lemma LiteralHolds(a: string, t: string, b: string)
    requires EndsLiteral(b) && Reaches(a + Literal(t) + b, 0, |a|)
    ensures OneLexeme(a + Literal(t) + b, |a|, |a| + |Literal(t)|)
  {
    hide Literal, LexLen, Reaches, OneLexeme, Doubled;
    LiteralLexeme(t, b);
    LexemeHeld(a, Literal(t), b);
  }

  lemma LiteralLexeme(t: string, b: string)
    requires EndsLiteral(b)
    ensures LexLen(Literal(t) + b) == |Literal(t)|
  {
    hide Doubled;
    var s := Literal(t) + b;
    assert s[0] == '\'' && s[1..] == Doubled(t) + "'" + b;
    LiteralEnds(s, 1, t, b);
  }

  /** From a place where an even number of quotes has gone by, the literal's text is passed over and the next quote closes. */
  lemma {:induction false} LiteralEnds(s: string, k: nat, t: string, b: string)
    requires 1 <= k <= |s| && s[k..] == Doubled(t) + "'" + b && EndsLiteral(b)
    requires Quotes(s, k) % 2 == 0 && forall l: nat | 1 <= l < k :: !ClosingQuote(s, l)
    ensures StringEnd(s, k) == k + |Doubled(t)| + 1
    decreases |t|
  {
    var rest := Doubled(t) + "'" + b;
    assert s[k] == rest[0];
    if t == "" {
      assert k + 1 < |s| ==> s[k + 1] == rest[1] == b[0];
    } else if t[0] == '\'' {
      assert s[k + 1] == rest[1] == '\'';
      assert Quotes(s, k + 1) == Quotes(s, k) + 1 && Quotes(s, k + 2) == Quotes(s, k + 1) + 1;
      assert s[k + 2..] == rest[2..] == Doubled(t[1..]) + "'" + b;
      LiteralEnds(s, k + 2, t[1..], b);
    } else {
      assert s[k + 1..] == rest[1..] == Doubled(t[1..]) + "'" + b;
      LiteralEnds(s, k + 1, t[1..], b);
    }
  }

  /** Any other character is passed by itself, and a semicolon so met is a top-level one. */
  lemma OtherCharacter(a: string, c: char, b: string)
    requires Reaches(a + [c] + b, 0, |a|) && c != '\''
    requires !(c == '-' && b != "" && b[0] == '-') && !(c == '/' && b != "" && b[0] == '*')
    requires c == '$' ==> forall k | 0 <= k < |b| && b[k] == '$' :: !IsTag(b[..k])
    ensures Reaches(a + [c] + b, 0, |a| + 1) && (TopSemi(a + [c] + b, |a|) <==> c == ';')
  {
    hide LexLen, Reaches, OneLexeme, IsTag;
    OneCharacter(c, b);
    Passed(a, [c], b);
  }

  lemma Passed(a: string, lex: string, b: string)
    requires |lex| == 1 && LexLen(lex + b) == 1 && Reaches(a + lex + b, 0, |a|)
    ensures Reaches(a + lex + b, 0, |a| + 1) && (TopSemi(a + lex + b, |a|) <==> lex[0] == ';')
  {
    hide LexLen, Reaches;
    LexemeHeld(a, lex, b);
    assert (a + lex + b)[|a|] == lex[0];
  }

  lemma OneCharacter(c: char, b: string)
    requires c != '\'' && !(c == '-' && b != "" && b[0] == '-') && !(c == '/' && b != "" && b[0] == '*')
    requires c == '$' ==> forall k | 0 <= k < |b| && b[k] == '$' :: !IsTag(b[..k])
    ensures LexLen([c] + b) == 1
  {
    var t := [c] + b;
    var m := Marker(t);
    MarkerMeans(t, m);
    assert forall k | 0 < k < |t| :: t[k] == b[k - 1];
    assert forall k | 0 <= k <= |b| :: b[..k] == t[1..k + 1];
  }

  // ---- and so a DO block is one statement ----

  /** A text whose last character is its only top-level semicolon is one piece. */
  lemma OnePiece(s: string)
    requires s != "" && TopSemi(s, |s| - 1) && forall x: nat | x < |s| - 1 :: !TopSemi(s, x)
    ensures Split(s) == [Piece(s, 0)]
  {
    hide Split, TopSemi, Blank;
    var ps := Split(s);
    SplitTiles(s);
    SplitCutsAtTopSemis(s);
    assert ps != [] && End(ps[0]) == |s| && s[0..|s|] == s;
    NothingLeft(s, ps[1..]);
    assert ps == [ps[0]] + ps[1..];
  }

  lemma NothingLeft(s: string, ps: seq<Piece>)
    requires Tiles(s, |s|, ps)
    ensures ps == []
  {
  }

  const DO: string := "DO "
  const STOP: string := ";"

  /** Whatever a DO block's body holds but its own marker, semicolons included, the block is one statement. */
  lemma DoBlockIsOnePiece(body: string)
    requires FirstFrom(body + "$$", "$$", 0) == Some(|body|)
    ensures Split("DO $$" + body + "$$;") == [Piece("DO $$" + body + "$$;", 0)]
  {
    hide FirstFrom, DollarBody, Split;
    BareBody(body);
    BareBlock(body);
  }

  lemma BareBody(body: string)
    ensures "DO $$" + body + "$$;" == DO + DollarBody("", body) + STOP
    ensures IsTag("") && Mark("") == "$$" && DollarBody("", body) != "" && DollarBody("", body)[0] == '$' && |DO| == 3
  {
  }

  lemma BareBlock(body: string)
    requires FirstFrom(body + Mark(""), Mark(""), 0) == Some(|body|)
    ensures Split(DO + DollarBody("", body) + STOP) == [Piece(DO + DollarBody("", body) + STOP, 0)]
  {
    hide FirstFrom, DollarBody, Split, OneLexeme, Reaches, TopSemi, Mark, IsTag, DO, STOP;
    BareBody(body);
    var lex := DollarBody("", body);
    Heads(lex);
    DollarBodyHolds(DO, "", body, STOP);
    Tail(lex);
  }

  lemma Heads(lex: string)
    requires lex != "" && lex[0] == '$'
    ensures Reaches(DO + lex + STOP, 0, 3) && forall x: nat | x < 3 :: !TopSemi(DO + lex + STOP, x)
  {
    hide LexLen;
    var s := "DO " + lex + ";";
    assert s == "" + ['D'] + ("O " + lex + ";");
    OtherCharacter("", 'D', "O " + lex + ";");
    assert s == "D" + ['O'] + (" " + lex + ";");
    OtherCharacter("D", 'O', " " + lex + ";");
    assert s == "DO" + [' '] + (lex + ";");
    OtherCharacter("DO", ' ', lex + ";");
  }

  lemma Tail(lex: string)
    requires lex != "" && OneLexeme(DO + lex + STOP, 3, 3 + |lex|) && lex[0] == '$'
    requires forall x: nat | x < 3 :: !TopSemi(DO + lex + STOP, x)
    ensures Split(DO + lex + STOP) == [Piece(DO + lex + STOP, 0)]
  {
    hide LexLen, Split, Reaches;
    var s := "DO " + lex + ";";
    assert s == ("DO " + lex) + [';'] + "";
    OtherCharacter("DO " + lex, ';', "");
    assert s[3] == '$';
    OnePiece(s);
  }
}
