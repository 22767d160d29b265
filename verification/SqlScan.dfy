/** The regular expressions of scripts/check-owned-mutations.ts, each written as the scanner it stands for. */
module SqlScan {
  import opened Text

  function Lowered(s: string): string {
    seq(|s|, i requires 0 <= i < |s| => Lower(s[i]))
  }

  /** `\b` before a word character. */
  predicate Starts(s: string, i: nat) {
    i == 0 || i > |s| || !WordChar(s[i - 1])
  }

  function SkipSpace(s: string, i: nat): (j: nat)
    requires i <= |s|
    ensures i <= j <= |s| && Blank(s[i..j])
    ensures j == |s| || !IsSpace(s[j])
    decreases |s| - i
  {
    if i < |s| && IsSpace(s[i]) then
      var j := SkipSpace(s, i + 1);
      assert s[i..j] == [s[i]] + s[i + 1..j];
      j
    else i
  }

  /** Literals, each followed by at least one space: the index after them all. */
  function Words(s: string, i: nat, ws: seq<string>): (r: Option<nat>)
    requires i <= |s|
    ensures r.Some? ==> i <= r.value <= |s|
    decreases |ws|
  {
    if ws == [] then Some(i)
    else if !LettersAt(s, ws[0], i) then None
    else
      var j := i + |ws[0]|;
      var k := SkipSpace(s, j);
      if k == j then None else Words(s, k, ws[1..])
  }

  /** The end of the run of word characters from `i`. */
  function WordEnd(s: string, i: nat): (j: nat)
    requires i <= |s|
    ensures i <= j <= |s|
    decreases |s| - i
  {
    if i < |s| && WordChar(s[i]) then WordEnd(s, i + 1) else i
  }

  /** `[a-z_][a-z0-9_]*`, without regard to case. */
  function Identifier(s: string, i: nat): (r: Option<nat>)
    ensures r.Some? ==> i < r.value <= |s|
  {
    if i < |s| && WordChar(s[i]) && !('0' <= s[i] <= '9') then Some(WordEnd(s, i + 1)) else None
  }

  /** A match; `name` and `open` are its captures, where its pattern has them. */
  datatype Match = Match(start: nat, end: nat, name: string, open: nat)

  type Pattern = (string, nat) -> Option<Match>

  /** `exec` from a position: the match that starts first. */
  function Next(s: string, p: Pattern, from: nat): (r: Option<Match>)
    ensures r.Some? ==> from <= r.value.start < r.value.end <= |s| && p(s, r.value.start) == r
    ensures forall i: nat | from <= i < (if r.Some? then r.value.start else |s|) :: !Matches(s, p, i)
    decreases |s| - from
  {
    if from >= |s| then None
    else if Matches(s, p, from) then p(s, from)
    else Next(s, p, from + 1)
  }

  predicate Matches(s: string, p: Pattern, i: nat) {
    p(s, i).Some? && p(s, i).value.start == i < p(s, i).value.end <= |s|
  }

  /** Every match of a global `exec` loop: each begins no earlier than the one before it ends. */
  function All(s: string, p: Pattern, from: nat): seq<Match>
    decreases |s| - from
  {
    var m := Next(s, p, from);
    if m.None? then [] else [m.value] + All(s, p, m.value.end)
  }

  ghost predicate Ascending(ms: seq<Match>) {
    && (forall i | 0 <= i < |ms| :: ms[i].start < ms[i].end)
    && (forall i, j | 0 <= i < j < |ms| :: ms[i].end <= ms[j].start)
  }

  lemma {:induction false} AllAscends(s: string, p: Pattern, from: nat)
    ensures Ascending(All(s, p, from))
    ensures forall m | m in All(s, p, from) :: from <= m.start && m.end <= |s| && p(s, m.start) == Some(m)
    decreases |s| - from
  {
    hide Next, Matches;
    var m := Next(s, p, from);
    if m.Some? {
      var rest := All(s, p, m.value.end);
      AllAscends(s, p, m.value.end);
      forall i, j | 0 <= i < j < |All(s, p, from)| ensures All(s, p, from)[i].end <= All(s, p, from)[j].start {
        assert All(s, p, from)[j] == rest[j - 1] && rest[j - 1] in rest;
        if i > 0 { assert All(s, p, from)[i] == rest[i - 1]; }
      }
    }
  }

  // ---- the patterns ----

  const COLUMN := "authorization_version"

  /** `\bauthorization_version\b` */
  predicate MentionAt(s: string, i: nat) {
    Starts(s, i) && LettersAt(s, COLUMN, i) && (i + |COLUMN| == |s| || !WordChar(s[i + |COLUMN|]))
  }

  function Mention(s: string, i: nat): Option<Match> {
    if MentionAt(s, i) then Some(Match(i, i + |COLUMN|, "", i)) else None
  }

  /** `[.]\s*$`, tried on the text before `i` */
  predicate QualifiedAt(s: string, i: nat)
    requires i <= |s|
  {
    i > 0 && (s[i - 1] == '.' || (IsSpace(s[i - 1]) && QualifiedAt(s, i - 1)))
  }

  /** `DO\s+\$\$[\s\S]*?\$\$` */
  function DoBlock(s: string, i: nat): Option<Match> {
    var j := if i <= |s| then Words(s, i, ["do"]) else None;
    if j.None? || !OccursAt(s, "$$", j.value) then None
    else
      var close := FirstFrom(s, "$$", j.value + 2);
      if close.None? then None else Some(Match(i, close.value + 2, "", j.value + 2))
  }

  /** `\b(?:CREATE\s+TABLE|ALTER\s+TABLE)\s+(?:IF\s+NOT\s+EXISTS\s+)?([a-z_][a-z0-9_]*)` */
  function Declaration(s: string, i: nat): Option<Match> {
    if i > |s| || !Starts(s, i) then None
    else
      var create := Words(s, i, ["create", "table"]);
      var j := if create.Some? then create else Words(s, i, ["alter", "table"]);
      if j.None? then None
      else
        var k := Words(s, j.value, ["if", "not", "exists"]);
        var at := if k.Some? && Identifier(s, k.value).Some? then k.value else j.value;
        var end := Identifier(s, at);
        if end.None? then None else Some(Match(i, end.value, Lowered(s[at..end.value]), at))
  }

  /** `\bINSERT\s+INTO\s+([a-z_][a-z0-9_]*)\s*\(([^)]*)\)`: `open` is where the column list begins, and it ends at `end - 1`. */
  function InsertList(s: string, i: nat): Option<Match> {
    if i > |s| || !Starts(s, i) then None
    else
      var j := Words(s, i, ["insert", "into"]);
      var end := if j.None? then None else Identifier(s, j.value);
      if end.None? then None
      else
        var paren := SkipSpace(s, end.value);
        if paren == |s| || s[paren] != '(' then None
        else
          var close := FirstFrom(s, ")", paren + 1);
          if close.None? then None
          else Some(Match(i, close.value + 1, Lowered(s[j.value..end.value]), paren + 1))
  }

  /** `ARRAY\s*\[([^\]]*)\]` */
  function ArrayLiteral(s: string, i: nat): Option<Match> {
    if !LettersAt(s, "array", i) then None
    else
      var open := SkipSpace(s, i + 5);
      if open == |s| || s[open] != '[' then None
      else
        var close := FirstFrom(s, "]", open + 1);
        if close.None? then None else Some(Match(i, close.value + 1, "", open + 1))
  }

  /** `'([a-z_][a-z0-9_]*)'` */
  function QuotedName(s: string, i: nat): Option<Match> {
    if i >= |s| || s[i] != '\'' then None
    else
      var end := Identifier(s, i + 1);
      if end.None? || end.value == |s| || s[end.value] != '\'' then None
      else Some(Match(i, end.value + 1, Lowered(s[i + 1..end.value]), i + 1))
  }

  // ---- what the scans find ----

  lemma ColumnLetters(k: nat)
    requires k < |COLUMN|
    ensures WordChar(COLUMN[k]) && COLUMN[k] != 'd' && COLUMN[k] != '$'
    ensures forall c: char | Lower(c) == COLUMN[k] :: WordChar(c) && Lower(c) != 'd' && c != ')'
  {
  }

  /** A character a mention covers. */
  lemma MentionLetter(s: string, i: nat, k: nat)
    ensures MentionAt(s, i) && i <= k < i + |COLUMN| ==> k < |s| && WordChar(s[k]) && Lower(s[k]) != 'd'
  {
    if MentionAt(s, i) && i <= k < i + |COLUMN| { ColumnLetters(k - i); }
  }

  /** Mentions cannot overlap, so no `exec` loop steps over one. */
  lemma MentionsApart(s: string, i: nat, k: nat)
    ensures MentionAt(s, i) && i < k < i + |COLUMN| ==> !MentionAt(s, k)
  {
    if i < k { MentionLetter(s, i, k - 1); }
  }

  /** Between one position of the loop and the next match lies no mention but the match itself. */
  lemma NextMention(s: string, from: nat)
    ensures match Next(s, Mention, from)
      case None => forall k: nat | from <= k < |s| :: !MentionAt(s, k)
      case Some(m) =>
        && MentionAt(s, m.start) && m.end == m.start + |COLUMN| <= |s|
        && forall k: nat | from <= k < m.end && k != m.start :: !MentionAt(s, k)
  {
    var r := Next(s, Mention, from);
    forall k: nat | from <= k < |s| && (r.Some? ==> k < r.value.end && k != r.value.start) ensures !MentionAt(s, k) {
      assert Matches(s, Mention, k) <==> MentionAt(s, k);
      if r.Some? { MentionsApart(s, r.value.start, k); }
    }
  }
}
