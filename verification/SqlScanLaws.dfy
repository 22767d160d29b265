/** The regular expressions of scripts/check-owned-mutations.ts on the positions of a text: what each matches and captures. */
module SqlScanLaws {
  import opened Text
  import opened SqlScan

  // ---- letters and words ----

  const UPPERCASE := "ABCDEFGHIJKLMNOPQRSTUVWXYZ"
  const LOWERCASE := "abcdefghijklmnopqrstuvwxyz"

  /** Letter for letter, and nothing else changes. */
  lemma LowerMeans(c: char)
    ensures forall k | 0 <= k < 26 :: c == UPPERCASE[k] ==> Lower(c) == LOWERCASE[k]
    ensures c !in UPPERCASE ==> Lower(c) == c
  {
    assert forall k | 0 <= k < 26 :: UPPERCASE[k] == (65 + k) as char && LOWERCASE[k] == (97 + k) as char;
    if 'A' <= c <= 'Z' { assert UPPERCASE[c as int - 65] == c; }
  }

  /** The first two letters of a word. */
  lemma TwoLetters(s: string, w: string, i: nat)
    requires |w| >= 2
    ensures LettersAt(s, w, i) ==> i + 1 < |s| && Lower(s[i]) == w[0] && Lower(s[i + 1]) == w[1]
  {
    if LettersAt(s, w, i) { assert Lower(s[i + 0]) == w[0] && Lower(s[i + 1]) == w[1]; }
  }

  predicate WordLetter(c: char) {
    'a' <= c <= 'z' || 'A' <= c <= 'Z' || '0' <= c <= '9' || c == '_'
  }

  predicate IsIdentifier(w: string) {
    w != "" && !('0' <= w[0] <= '9') && forall k | 0 <= k < |w| :: WordLetter(w[k])
  }

  /** An identifier stands from `i` to `e`, whole on the right. */
  predicate NamedAt(s: string, i: nat, e: nat) {
    i < e <= |s| && IsIdentifier(s[i..e]) && (e == |s| || !WordLetter(s[e]))
  }

  lemma {:induction false} WordEndMeans(s: string, i: nat)
    requires i <= |s|
    ensures var e := WordEnd(s, i); (forall k | i <= k < e :: WordLetter(s[k])) && (e == |s| || !WordLetter(s[e]))
    decreases |s| - i
  {
    if i < |s| && WordChar(s[i]) { WordEndMeans(s, i + 1); }
  }

  lemma IdentifierMeans(s: string, i: nat, e: nat)
    ensures Identifier(s, i) == Some(e) <==> NamedAt(s, i, e)
  {
    if i < |s| { WordEndMeans(s, i + 1); }
    if Identifier(s, i).Some? {
      var w := s[i..Identifier(s, i).value];
      assert forall k | 0 <= k < |w| :: w[k] == s[i + k];
    }
    if NamedAt(s, i, e) {
      assert forall k | i <= k < e :: s[k] == s[i..e][k - i];
    }
  }

  /** White space from `a` to `b`, some at least, and no more after it. */
  predicate Gap(s: string, a: nat, b: nat) {
    a < b <= |s| && Blank(s[a..b]) && (b == |s| || !IsSpace(s[b]))
  }

  lemma {:induction false} SkipMeans(s: string, a: nat, b: nat)
    requires a <= b <= |s| && Blank(s[a..b]) && (b == |s| || !IsSpace(s[b]))
    ensures SkipSpace(s, a) == b
    decreases b - a
  {
    if a < b {
      assert s[a] == s[a..b][0];
      assert s[a..b] == [s[a]] + s[a + 1..b];
      SkipMeans(s, a + 1, b);
    }
  }

  lemma GapMeans(s: string, a: nat, b: nat)
    requires a <= |s|
    ensures Gap(s, a, b) <==> b == SkipSpace(s, a) && a < b
  {
    if Gap(s, a, b) { SkipMeans(s, a, b); }
  }

  /** The word `w`, in any case, at `i`, and white space from there to `j`. */
  predicate WordThen(s: string, w: string, i: nat, j: nat) {
    LettersAt(s, w, i) && Gap(s, i + |w|, j)
  }

  lemma WordsStep(s: string, i: nat, w: string, ws: seq<string>, j: nat)
    requires i <= |s|
    ensures Words(s, i, [w] + ws) == Some(j) <==> exists k: nat :: WordThen(s, w, i, k) && Words(s, k, ws) == Some(j)
  {
    assert ([w] + ws)[1..] == ws;
    if LettersAt(s, w, i) {
      var from := i + |w|;
      var k := SkipSpace(s, from);
      forall b: nat | WordThen(s, w, i, b) ensures b == k > from { GapMeans(s, from, b); }
      GapMeans(s, from, k);
      assert k > from <==> WordThen(s, w, i, k);
    }
  }

  ghost predicate TwoWords(s: string, u: string, v: string, i: nat, j: nat) {
    exists k: nat :: WordThen(s, u, i, k) && WordThen(s, v, k, j)
  }

  lemma TwoWordsMean(s: string, u: string, v: string, i: nat, j: nat)
    requires i <= |s|
    ensures Words(s, i, [u, v]) == Some(j) <==> TwoWords(s, u, v, i, j)
  {
    hide WordThen;
    assert [u] + [v] == [u, v] && [v] + [] == [v];
    WordsStep(s, i, u, [v], j);
    forall k: nat | WordThen(s, u, i, k)
      ensures k <= |s| && (Words(s, k, [v]) == Some(j) <==> WordThen(s, v, k, j))
    {
      LastWord(s, u, i, k);
      WordsStep(s, k, v, [], j);
      LastOnly(s, v, k, j);
    }
  }

  lemma LastWord(s: string, u: string, i: nat, k: nat)
    requires WordThen(s, u, i, k)
    ensures k <= |s|
  {
  }

  lemma LastOnly(s: string, v: string, k: nat, j: nat)
    requires k <= |s|
    ensures (exists l: nat :: WordThen(s, v, k, l) && Words(s, l, []) == Some(j)) <==> WordThen(s, v, k, j)
  {
    if WordThen(s, v, k, j) { assert Words(s, j, []) == Some(j); }
  }

  lemma ThreeWordsMean(s: string, u: string, v: string, w: string, i: nat, j: nat)
    requires i <= |s|
    ensures Words(s, i, [u, v, w]) == Some(j) <==> exists k: nat :: WordThen(s, u, i, k) && TwoWords(s, v, w, k, j)
  {
    hide WordThen;
    assert [u] + [v, w] == [u, v, w];
    WordsStep(s, i, u, [v, w], j);
    forall k: nat | WordThen(s, u, i, k)
      ensures k <= |s| && (Words(s, k, [v, w]) == Some(j) <==> TwoWords(s, v, w, k, j))
    {
      LastWord(s, u, i, k);
      TwoWordsMean(s, v, w, k, j);
    }
  }

  // ---- the patterns ----

  /** The column's name, in any case, with no letter, digit or underscore on either side. */
  lemma MentionMeans(s: string, i: nat)
    ensures MentionAt(s, i) <==>
            && i + 21 <= |s| && LettersAt(s, "authorization_version", i)
            && (i > 0 ==> !WordLetter(s[i - 1])) && (i + 21 < |s| ==> !WordLetter(s[i + 21]))
  {
  }

  /** A full stop at `j`, and nothing but white space from there to `i`. */
  predicate StopAt(s: string, i: nat, j: nat) {
    j < i <= |s| && s[j] == '.' && Blank(s[j + 1..i])
  }

  lemma StopStep(s: string, i: nat, j: nat)
    requires j < i < |s|
    ensures StopAt(s, i + 1, j) <==> StopAt(s, i, j) && IsSpace(s[i])
  {
    hide IsSpace;
    var longer, shorter := s[j + 1..i + 1], s[j + 1..i];
    assert longer == shorter + [s[i]];
    assert longer[|shorter|] == s[i] && forall k | 0 <= k < |shorter| :: longer[k] == shorter[k];
  }

  /** What precedes is a full stop, white space aside. */
  lemma {:induction false} QualifiedMeans(s: string, i: nat)
    requires i <= |s|
    ensures QualifiedAt(s, i) <==> exists j: nat :: StopAt(s, i, j)
  {
    if i > 0 {
      QualifiedMeans(s, i - 1);
      StopHere(s, i - 1);
      hide StopAt, IsSpace;
      forall j: nat | j < i - 1 ensures StopAt(s, i, j) <==> StopAt(s, i - 1, j) && IsSpace(s[i - 1]) { StopStep(s, i - 1, j); }
      if s[i - 1] == '.' {
        assert StopAt(s, i, i - 1);
      } else if QualifiedAt(s, i) {
        var j: nat :| StopAt(s, i - 1, j);
        assert StopAt(s, i, j);
      }
    }
  }

  lemma StopHere(s: string, i: nat)
    requires i < |s|
    ensures StopAt(s, i + 1, i) <==> s[i] == '.'
    ensures forall j: nat :: (StopAt(s, i, j) ==> j < i) && (StopAt(s, i + 1, j) ==> j <= i)
  {
    assert s[i + 1..i + 1] == "";
  }

  /** `c` is the first `p` at or after `from`. */
  ghost predicate FirstAt(s: string, p: string, from: nat, c: nat) {
    from <= c && OccursAt(s, p, c) && forall k: int | from <= k < c :: !OccursAt(s, p, k)
  }

  lemma FirstMeans(s: string, p: string, from: nat, c: nat)
    ensures FirstFrom(s, p, from) == Some(c) <==> FirstAt(s, p, from, c)
  {
    if FirstAt(s, p, from, c) { FirstIs(s, p, from, c); }
  }

  /** An INSERT at `i`: its table from `a` to `b`, its parenthesis at `paren`, and the first closing one at `close`. */
  ghost predicate InsertAt(s: string, i: nat, a: nat, b: nat, paren: nat, close: nat) {
    && (i > 0 ==> i <= |s| && !WordLetter(s[i - 1])) && TwoWords(s, "insert", "into", i, a) && NamedAt(s, a, b)
    && b <= paren < |s| && Blank(s[b..paren]) && s[paren] == '(' && FirstAt(s, ")", paren + 1, close)
  }

  lemma InsertMeans(s: string, i: nat, m: Match)
    ensures InsertList(s, i) == Some(m) <==>
            exists a: nat, b: nat, paren: nat, close: nat ::
              InsertAt(s, i, a, b, paren, close) && m == Match(i, close + 1, Lowered(s[a..b]), paren + 1)
  {
    hide Words, Identifier, TwoWords, FirstFrom, FirstAt, LettersAt, IsIdentifier;
    if InsertList(s, i) == Some(m) {
      var a := Words(s, i, ["insert", "into"]).value;
      var b := Identifier(s, a).value;
      var paren := SkipSpace(s, b);
      var close := FirstFrom(s, ")", paren + 1).value;
      TwoWordsMean(s, "insert", "into", i, a);
      IdentifierMeans(s, a, b);
      FirstMeans(s, ")", paren + 1, close);
      assert InsertAt(s, i, a, b, paren, close);
    }
    if a: nat, b: nat, paren: nat, close: nat :| InsertAt(s, i, a, b, paren, close)
                                               && m == Match(i, close + 1, Lowered(s[a..b]), paren + 1) {
      InsertFound(s, i, a, b, paren, close);
    }
  }

  lemma InsertFound(s: string, i: nat, a: nat, b: nat, paren: nat, close: nat)
    requires InsertAt(s, i, a, b, paren, close)
    ensures InsertList(s, i) == Some(Match(i, close + 1, Lowered(s[a..b]), paren + 1))
  {
    hide Words, Identifier, FirstFrom, FirstAt;
    assert i <= |s| && b <= |s|;
    TwoWordsMean(s, "insert", "into", i, a);
    IdentifierMeans(s, a, b);
    assert !IsSpace('(');
    SkipMeans(s, b, paren);
    FirstMeans(s, ")", paren + 1, close);
  }

  ghost predicate IfNotExists(s: string, j: nat, l: nat) {
    exists k: nat :: WordThen(s, "if", j, k) && TwoWords(s, "not", "exists", k, l)
  }

  /** Where the name of a CREATE or ALTER is looked for, after `j`: past IF NOT EXISTS when a name follows that. */
  ghost predicate NameAfter(s: string, j: nat, a: nat) {
    if exists l: nat, e: nat :: IfNotExists(s, j, l) && NamedAt(s, l, e) then IfNotExists(s, j, a) else a == j
  }

  ghost predicate DeclaredAt(s: string, i: nat, a: nat, b: nat) {
    && (i > 0 ==> i <= |s| && !WordLetter(s[i - 1])) && NamedAt(s, a, b)
    && exists j: nat :: (TwoWords(s, "create", "table", i, j) || TwoWords(s, "alter", "table", i, j)) && NameAfter(s, j, a)
  }

  lemma IfNotExistsMeans(s: string, j: nat, l: nat)
    requires j <= |s|
    ensures Words(s, j, ["if", "not", "exists"]) == Some(l) <==> IfNotExists(s, j, l)
  {
    hide Words, TwoWords, WordThen;
    ThreeWordsMean(s, "if", "not", "exists", j, l);
  }

  lemma NameAfterMeans(s: string, j: nat, a: nat)
    requires j <= |s|
    ensures var k := Words(s, j, ["if", "not", "exists"]);
            NameAfter(s, j, a) <==> a == if k.Some? && Identifier(s, k.value).Some? then k.value else j
  {
    hide Words, Identifier, NamedAt, IfNotExists;
    forall l: nat ensures Words(s, j, ["if", "not", "exists"]) == Some(l) <==> IfNotExists(s, j, l) {
      IfNotExistsMeans(s, j, l);
    }
    forall l: nat, e: nat ensures Identifier(s, l) == Some(e) <==> NamedAt(s, l, e) { IdentifierMeans(s, l, e); }
  }

  lemma DeclarationMeans(s: string, i: nat, m: Match)
    ensures Declaration(s, i) == Some(m) <==>
            exists a: nat, b: nat :: DeclaredAt(s, i, a, b) && m == Match(i, b, Lowered(s[a..b]), a)
  {
    hide Words, Identifier, TwoWords, NameAfter, LettersAt, IsIdentifier;
    if Declaration(s, i) == Some(m) {
      var create := Words(s, i, ["create", "table"]);
      var j := (if create.Some? then create else Words(s, i, ["alter", "table"])).value;
      TwoWordsMean(s, "create", "table", i, j);
      TwoWordsMean(s, "alter", "table", i, j);
      NameAfterMeans(s, j, m.open);
      IdentifierMeans(s, m.open, m.end);
      assert DeclaredAt(s, i, m.open, m.end);
    }
    if a: nat, b: nat :| DeclaredAt(s, i, a, b) && m == Match(i, b, Lowered(s[a..b]), a) {
      DeclarationFound(s, i, a, b);
    }
  }

  lemma DeclarationFound(s: string, i: nat, a: nat, b: nat)
    requires DeclaredAt(s, i, a, b)
    ensures Declaration(s, i) == Some(Match(i, b, Lowered(s[a..b]), a))
  {
    hide Words, Identifier, NameAfter, TwoWords;
    var j: nat :| (TwoWords(s, "create", "table", i, j) || TwoWords(s, "alter", "table", i, j)) && NameAfter(s, j, a);
    EndsInside(s, "create", i, j);
    EndsInside(s, "alter", i, j);
    TwoWordsMean(s, "create", "table", i, j);
    TwoWordsMean(s, "alter", "table", i, j);
    OneVerb(s, i);
    NameAfterMeans(s, j, a);
    IdentifierMeans(s, a, b);
  }

  lemma EndsInside(s: string, u: string, i: nat, j: nat)
    ensures TwoWords(s, u, "table", i, j) ==> i <= j <= |s|
  {
  }

  lemma OneVerb(s: string, i: nat)
    requires i <= |s|
    ensures Words(s, i, ["create", "table"]).None? || Words(s, i, ["alter", "table"]).None?
  {
    assert LettersAt(s, "create", i) ==> Lower(s[i + 0]) == "create"[0];
    assert LettersAt(s, "alter", i) ==> Lower(s[i + 0]) == "alter"[0];
  }

  /** An array literal at `i`, its brackets at `open - 1` and at the first closing one, `close`. */
  ghost predicate ArrayAt(s: string, i: nat, open: nat, close: nat) {
    && LettersAt(s, "array", i) && i + 5 < open <= |s| && Blank(s[i + 5..open - 1]) && s[open - 1] == '['
    && FirstAt(s, "]", open, close)
  }

  lemma ArrayMeans(s: string, i: nat, m: Match)
    ensures ArrayLiteral(s, i) == Some(m) <==>
            exists open: nat, close: nat :: ArrayAt(s, i, open, close) && m == Match(i, close + 1, "", open)
  {
    hide LettersAt, FirstFrom, FirstAt;
    if ArrayLiteral(s, i) == Some(m) {
      FirstMeans(s, "]", m.open, m.end - 1);
      assert ArrayAt(s, i, m.open, m.end - 1);
    }
    if open: nat, close: nat :| ArrayAt(s, i, open, close) && m == Match(i, close + 1, "", open) {
      assert !IsSpace('[');
      SkipMeans(s, i + 5, open - 1);
      FirstMeans(s, "]", open, close);
    }
  }

  /** A DO block at `i`: its body from `open` on, and the first `$$` after that at `close`. */
  ghost predicate DoAt(s: string, i: nat, open: nat, close: nat) {
    && (exists j: nat :: WordThen(s, "do", i, j) && OccursAt(s, "$$", j) && open == j + 2) && FirstAt(s, "$$", open, close)
  }

  lemma DoMeans(s: string, i: nat, m: Match)
    ensures DoBlock(s, i) == Some(m) <==>
            exists open: nat, close: nat :: DoAt(s, i, open, close) && m == Match(i, close + 2, "", open)
  {
    hide LettersAt, FirstFrom, FirstAt, WordThen, Words;
    forall j: nat | i <= |s| ensures Words(s, i, ["do"]) == Some(j) <==> WordThen(s, "do", i, j) { OneWord(s, "do", i, j); }
    forall j: nat | WordThen(s, "do", i, j) ensures i <= j <= |s| { WordInside(s, "do", i, j); }
    if DoBlock(s, i) == Some(m) {
      FirstMeans(s, "$$", m.open, m.end - 2);
      assert DoAt(s, i, m.open, m.end - 2);
    }
    if open: nat, close: nat :| DoAt(s, i, open, close) && m == Match(i, close + 2, "", open) {
      FirstMeans(s, "$$", open, close);
    }
  }

  lemma WordInside(s: string, u: string, i: nat, j: nat)
    requires WordThen(s, u, i, j)
    ensures i <= j <= |s|
  {
  }

  lemma OneWord(s: string, v: string, k: nat, j: nat)
    requires k <= |s|
    ensures Words(s, k, [v]) == Some(j) <==> WordThen(s, v, k, j)
  {
    assert [v] + [] == [v];
    WordsStep(s, k, v, [], j);
    LastOnly(s, v, k, j);
  }

  // ---- quoted names ----

  /** An identifier between the quotes at `i` and at `e`. */
  predicate QuotedAt(s: string, i: nat, e: nat) {
    i < e < |s| && s[i] == '\'' && IsIdentifier(s[i + 1..e]) && s[e] == '\''
  }

  /** What a quoted name captures is what stands between its quotes, in lower case. */
  lemma QuotedMeans(s: string, i: nat, m: Match)
    ensures QuotedName(s, i) == Some(m) <==> exists e: nat :: QuotedAt(s, i, e) && m == Match(i, e + 1, Lowered(s[i + 1..e]), i + 1)
  {
    hide Identifier, IsIdentifier;
    assert !WordLetter('\'');
    forall e: nat ensures Identifier(s, i + 1) == Some(e) <==> NamedAt(s, i + 1, e) { IdentifierMeans(s, i + 1, e); }
    if QuotedName(s, i) == Some(m) { assert QuotedAt(s, i, m.end - 1); }
    if e: nat :| QuotedAt(s, i, e) && m == Match(i, e + 1, Lowered(s[i + 1..e]), i + 1) {
      NotEmpty(s[i + 1..e]);
      IdentifierMeans(s, i + 1, e);
      assert Identifier(s, i + 1) == Some(e);
      assert QuotedName(s, i) == Some(m);
    }
  }

  lemma NotEmpty(w: string)
    requires IsIdentifier(w)
    ensures w != ""
  {
  }
}
