/** The SQL statement splitter of scripts/reconciliation-inventory.ts. */
module StatementSplitter {
  import opened Text

  datatype Piece = Piece(text: string, offset: nat)

  // ---- the scanner's own grammar, stated on the text that is still to be read ----

  predicate TagChar(c: char) {
    'A' <= c <= 'Z' || 'a' <= c <= 'z' || c == '_'
  }

  /** The end of the run of tag characters that starts at `i`. */
  function TagRun(t: string, i: nat): (j: nat)
    requires i <= |t|
    ensures i <= j <= |t|
    ensures forall k | i <= k < j :: TagChar(t[k])
    ensures j < |t| ==> !TagChar(t[j])
    decreases |t| - i
  {
    if i < |t| && TagChar(t[i]) then TagRun(t, i + 1) else i
  }

  /** The length of the dollar-quote marker that opens `t`, or 0 when none does. */
  function Marker(t: string): (m: nat)
    ensures m <= |t|
    ensures m == 0 || (m >= 2 && t[0] == '$' && t[m - 1] == '$')
  {
    if t == "" || t[0] != '$' then 0
    else
      var j := TagRun(t, 1);
      if j < |t| && t[j] == '$' then j + 1 else 0
  }

  /** `j` is the end of the first occurrence of `mark` at or after `from`, or the end of `t` if there is none. */
  ghost predicate ClosesAt(t: string, mark: string, from: nat, j: nat) {
    || (from + |mark| <= j && OccursAt(t, mark, j - |mark|)
        && forall k: int | from <= k < j - |mark| :: !OccursAt(t, mark, k))
    || (j == |t| && forall k: int | from <= k :: !OccursAt(t, mark, k))
  }

  /** The number of quotes in `t[1..k]`. */
  function Quotes(t: string, k: nat): nat
    requires k <= |t|
  {
    if k <= 1 then 0 else Quotes(t, k - 1) + (if t[k - 1] == '\'' then 1 else 0)
  }

  /** A quote closes the literal opened at 0 when it is not doubled and is the odd one out. */
  predicate ClosingQuote(t: string, k: nat) {
    1 <= k < |t| && t[k] == '\'' && (k + 1 < |t| ==> t[k + 1] != '\'') && Quotes(t, k + 1) % 2 == 1
  }

  ghost predicate StringEndsAt(t: string, j: nat) {
    || (2 <= j <= |t| && ClosingQuote(t, j - 1) && forall k: nat | 1 <= k < j - 1 :: !ClosingQuote(t, k))
    || (j == |t| && forall k: nat | 1 <= k < |t| :: !ClosingQuote(t, k))
  }

  predicate Opens(t: string, a: char, b: char) {
    |t| >= 2 && t[0] == a && t[1] == b
  }

  /** `j` is the length of the first lexeme of `t`. */
  ghost predicate Lexeme(t: string, j: nat) {
    && 0 < j <= |t|
    && if Opens(t, '-', '-') then
      (forall k | 0 <= k < j :: t[k] != '\n') && (j == |t| || t[j] == '\n')
    else if Opens(t, '/', '*') then
      ClosesAt(t, "*/", 2, j)
    else if t[0] == '\'' then
      StringEndsAt(t, j)
    else if Marker(t) > 0 then
      ClosesAt(t, t[..Marker(t)], Marker(t), j)
    else
      j == 1
  }

  lemma LexemeUnique(t: string, j: nat, k: nat)
    requires Lexeme(t, j) && Lexeme(t, k)
    ensures j == k
  {
  }

  // ---- a function that finds the lexeme ----

  function LineEnd(t: string, i: nat): (j: nat)
    requires i <= |t|
    ensures i <= j <= |t| && (j == |t| || t[j] == '\n')
    ensures forall k | i <= k < j :: t[k] != '\n'
    decreases |t| - i
  {
    if i < |t| && t[i] != '\n' then LineEnd(t, i + 1) else i
  }

  function StringEnd(t: string, k: nat): (j: nat)
    requires 1 <= k <= |t|
    requires Quotes(t, k) % 2 == 0
    requires forall l: nat | 1 <= l < k :: !ClosingQuote(t, l)
    ensures StringEndsAt(t, j)
    decreases |t| - k
  {
    if k >= |t| then |t|
    else if t[k] == '\'' then
      if k + 1 < |t| && t[k + 1] == '\'' then StringEnd(t, k + 2) else k + 1
    else StringEnd(t, k + 1)
  }

  function CloseFrom(t: string, mark: string, from: nat): (j: nat)
    requires from <= |t|
    ensures ClosesAt(t, mark, from, j)
    ensures from <= j <= |t|
  {
    var close := FirstFrom(t, mark, from);
    if close.Some? then close.value + |mark| else |t|
  }

  function LexLen(t: string): (j: nat)
    requires t != ""
    ensures 0 < j <= |t|
  {
    if Opens(t, '-', '-') then LineEnd(t, 1)
    else if Opens(t, '/', '*') then CloseFrom(t, "*/", 2)
    else if t[0] == '\'' then StringEnd(t, 1)
    else if Marker(t) > 0 then CloseFrom(t, t[..Marker(t)], Marker(t))
    else 1
  }

  /** Every non-empty text begins with exactly one lexeme, and `LexLen` finds it. */
  lemma LexLenFinds(t: string, j: nat)
    requires t != ""
    ensures Lexeme(t, j) <==> j == LexLen(t)
  {
    assert Lexeme(t, LexLen(t));
    if Lexeme(t, j) { LexemeUnique(t, j, LexLen(t)); }
  }

  // ---- splitting ----

  /** The pieces from position `i` on, the piece under construction having begun at `start`. */
  function Walk(s: string, i: nat, start: nat): (r: seq<Piece>)
    requires start <= |s|
    decreases |s| - i
  {
    if i >= |s| then
      if Blank(s[start..]) then [] else [Piece(s[start..], start)]
    else
      var j := i + LexLen(s[i..]);
      if s[i] == ';' && start <= j then [Piece(s[start..j], start)] + Walk(s, j, j) else Walk(s, j, start)
  }

  function Split(s: string): seq<Piece> {
    Walk(s, 0, 0)
  }

  /** One lexeme that is not a semicolon moves the walk on and adds no piece. */
  lemma WalkSkips(s: string, i: nat, start: nat, j: nat)
    requires start <= |s| && i < |s| && s[i] != ';'
    requires i < j <= |s| && Lexeme(s[i..], j - i)
    ensures Walk(s, i, start) == Walk(s, j, start)
  {
    LexLenFinds(s[i..], j - i);
    hide LexLen, Lexeme;
  }

  /** A semicolon lexeme closes the piece, whose text is never blank. */
  lemma WalkPushes(s: string, i: nat, start: nat)
    requires start <= i < |s| && s[i] == ';'
    ensures Walk(s, i, start) == [Piece(s[start..i + 1], start)] + Walk(s, i + 1, i + 1)
  {
    LexLenFinds(s[i..], 1);
    hide LexLen;
  }

  lemma WalkDone(s: string, i: nat, start: nat)
    requires start <= |s| <= i
    ensures Walk(s, i, start) == if Blank(s[start..]) then [] else [Piece(s[start..], start)]
  {
  }

  /** A character that opens nothing is a lexeme by itself. */
  lemma WalkSkipsOne(s: string, i: nat, start: nat)
    requires start <= |s| && i < |s| && s[i] != ';' && s[i] != '\''
    requires !Opens(s[i..], '-', '-') && !Opens(s[i..], '/', '*') && Marker(s[i..]) == 0
    ensures Walk(s, i, start) == Walk(s, i + 1, start)
  {
    assert s[i..][0] == s[i];
    WalkSkips(s, i, start, i + 1);
  }

  method SkipLineComment(sql: string, from: nat) returns (i: nat)
    requires from < |sql| && Opens(sql[from..], '-', '-')
    ensures from < i <= |sql| && Lexeme(sql[from..], i - from)
  {
    ghost var t := sql[from..];
    i := from;
    while i < |sql| && sql[i] != '\n'
      invariant from <= i <= |sql|
      invariant forall k | 0 <= k < i - from :: t[k] != '\n'
    {
      i := i + 1;
    }
  }

  /** The index ends two past the closing test, so an unterminated comment leaves it beyond the text. */
  method SkipBlockComment(sql: string, from: nat) returns (i: nat)
    requires from < |sql| && Opens(sql[from..], '/', '*')
    ensures from < i && Lexeme(sql[from..], (if i > |sql| then |sql| else i) - from)
  {
    ghost var t := sql[from..];
    i := from + 2;
    while i < |sql| && !(sql[i] == '*' && i + 1 < |sql| && sql[i + 1] == '/')
      invariant from + 2 <= i <= |sql|
      invariant forall k: int | 2 <= k < i - from :: !OccursAt(t, "*/", k)
    {
      OccursTwo(t, "*/", i - from);
      i := i + 1;
    }
    OccursTwo(t, "*/", i - from);
    i := i + 2;
  }

  method SkipString(sql: string, from: nat) returns (i: nat)
    requires from < |sql| && sql[from] == '\''
    ensures from < i <= |sql| && Lexeme(sql[from..], i - from)
  {
    ghost var t := sql[from..];
    i := from + 1;
    while i < |sql|
      invariant from < i <= |sql|
      invariant Quotes(t, i - from) % 2 == 0
      invariant forall l: nat | 1 <= l < i - from :: !ClosingQuote(t, l)
    {
      if sql[i] == '\'' {
        if i + 1 < |sql| && sql[i + 1] == '\'' {
          i := i + 2;
          continue;
        }
        i := i + 1;
        assert ClosingQuote(t, i - from - 1);
        return;
      }
      i := i + 1;
    }
  }

  method SkipDollarBody(sql: string, from: nat) returns (i: nat)
    requires from < |sql| && Marker(sql[from..]) > 0
    ensures from < i <= |sql| && Lexeme(sql[from..], i - from)
  {
    var m := Marker(sql[from..]);
    var close := FirstFrom(sql, sql[from..from + m], from + m);
    FirstFromSuffix(sql, from, sql[from..from + m], m);
    assert sql[from..][..m] == sql[from..from + m];
    LexLenFinds(sql[from..], LexLen(sql[from..]));
    i := if close.None? then |sql| else close.value + m;
  }

  /** The source's loop; each nested scan is the method named for it. */
  method SplitStatements(sql: string) returns (out: seq<Piece>)
    ensures out == Split(sql)
  {
    hide LexLen, Lexeme, Walk, Marker, Blank;
    out := [];
    var start, i, n := 0, 0, |sql|;
    while i < n
      invariant 0 <= start <= i && start <= n
      invariant out + Walk(sql, i, start) == Split(sql)
      decreases n - i
    {
      ghost var i0 := i;
      assert sql[i..][0] == sql[i];
      if Opens(sql[i..], '-', '-') {
        i := SkipLineComment(sql, i);
        WalkSkips(sql, i0, start, i);
      } else if Opens(sql[i..], '/', '*') {
        i := SkipBlockComment(sql, i);
        WalkSkips(sql, i0, start, if i > n then n else i);
        if i > n {
          WalkDone(sql, n, start);
          WalkDone(sql, i, start);
        }
      } else if sql[i] == '\'' {
        i := SkipString(sql, i);
        WalkSkips(sql, i0, start, i);
      } else if Marker(sql[i..]) > 0 {
        i := SkipDollarBody(sql, i);
        WalkSkips(sql, i0, start, i);
      } else if sql[i] == ';' {
        WalkPushes(sql, i, start);
        i := i + 1;
        assert out + Walk(sql, i0, start) == out + [Piece(sql[start..i], start)] + Walk(sql, i, i);
        out := out + [Piece(sql[start..i], start)];
        start := i;
      } else {
        WalkSkipsOne(sql, i, start);
        i := i + 1;
      }
    }
    WalkDone(sql, i, start);
    if !Blank(sql[start..]) {
      out := out + [Piece(sql[start..], start)];
    }
  }
}
