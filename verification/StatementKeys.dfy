/** The text a statement is known by: `normalizeStatement` of scripts/reconciliation-inventory.ts. */
module StatementKeys {
  import opened Text

  // ---- lines without their comments ----

  /** `\r?\n` */
  predicate Breaks(s: string) {
    s != "" && (s[0] == '\n' || (s[0] == '\r' && |s| > 1 && s[1] == '\n'))
  }

  function AfterBreak(s: string): string
    requires Breaks(s)
  {
    if s[0] == '\n' then s[1..] else s[2..]
  }

  function LineEnd(s: string): (e: nat)
    ensures e <= |s| && (e < |s| ==> Breaks(s[e..]))
  {
    if s == "" || Breaks(s) then 0 else 1 + LineEnd(s[1..])
  }

  /** What `.` does not match. */
  predicate Terminator(c: char) {
    c == '\n' || c == '\r' || c == '\U{2028}' || c == '\U{2029}'
  }

  predicate Unbroken(s: string) {
    forall i | 0 <= i < |s| :: !Terminator(s[i])
  }

  /** `--.*$`, tried at the beginning of `l` */
  predicate Comments(l: string) {
    |l| >= 2 && l[0] == '-' && l[1] == '-' && Unbroken(l)
  }

  function Stripped(l: string): string {
    if l == "" || Comments(l) then "" else [l[0]] + Stripped(l[1..])
  }

  /** Split into lines, each stripped, joined by blanks. */
  function Uncommented(s: string): string
    decreases |s|
  {
    var e := LineEnd(s);
    Stripped(s[..e]) + if e == |s| then "" else " " + Uncommented(AfterBreak(s[e..]))
  }

  // ---- block comments and blanks ----

  function Closing(s: string): Option<nat> {
    if OccursAt(s, "/*", 0) then FirstFrom(s, "*/", 2) else None
  }

  // `/\*[\s\S]*?\*/` replaced by a blank, wherever it matches
  function Unblocked(s: string): string
    decreases |s|
  {
    if s == "" then ""
    else if Closing(s).Some? then " " + Unblocked(s[Closing(s).value + 2..])
    else [s[0]] + Unblocked(s[1..])
  }

  /** `\s+` replaced by one blank */
  function Squeezed(s: string): string {
    if s == "" then ""
    else if !IsSpace(s[0]) then [s[0]] + Squeezed(s[1..])
    else if |s| > 1 && IsSpace(s[1]) then Squeezed(s[1..])
    else " " + Squeezed(s[1..])
  }

  function Trimmed(s: string): string
    decreases |s|
  {
    if s == "" then ""
    else if IsSpace(s[0]) then Trimmed(s[1..])
    else if IsSpace(s[|s| - 1]) then Trimmed(s[..|s| - 1])
    else s
  }

  function Normalize(s: string): string {
    Trimmed(Squeezed(Unblocked(Uncommented(s))))
  }

  function Letters(s: string): string {
    if s != "" && 'a' <= Lower(s[0]) <= 'z' then [s[0]] + Letters(s[1..]) else ""
  }

  function Upper(s: string): string {
    seq(|s|, i requires 0 <= i < |s| => if 'a' <= s[i] <= 'z' then (s[i] as int - 32) as char else s[i])
  }

  function Verb(normal: string): string {
    Upper(Letters(normal))
  }

  // ---- the first pass, one character at a time ----

  lemma Step(s: string)
    requires s != ""
    ensures Breaks(s) ==> Uncommented(s) == " " + Uncommented(AfterBreak(s))
    ensures !Breaks(s) && Comments(s[..LineEnd(s)]) ==> Uncommented(s) == Uncommented(s[LineEnd(s)..])
    ensures !Breaks(s) && !Comments(s[..LineEnd(s)]) ==> Uncommented(s) == [s[0]] + Uncommented(s[1..])
  {
    hide Comments, Stripped, Uncommented;
    if Breaks(s) {
      BreakStep(s);
    } else if Comments(s[..LineEnd(s)]) {
      CommentStep(s);
    } else {
      PlainStep(s);
    }
  }

  lemma BreakStep(s: string)
    requires Breaks(s)
    ensures Uncommented(s) == " " + Uncommented(AfterBreak(s))
  {
    assert s[0..] == s && Stripped(s[..0]) == "";
  }

  lemma CommentStep(s: string)
    requires !Breaks(s) && Comments(s[..LineEnd(s)])
    ensures Uncommented(s) == Uncommented(s[LineEnd(s)..])
  {
    hide LineEnd, Comments;
    var e := LineEnd(s);
    assert Stripped(s[..e]) == "";
    if e < |s| {
      BreakStep(s[e..]);
      assert "" + (" " + Uncommented(AfterBreak(s[e..]))) == " " + Uncommented(AfterBreak(s[e..]));
    } else {
      assert s[e..] == "";
      EmptyUncommented();
    }
  }

  lemma PlainStep(s: string)
    requires s != "" && !Breaks(s) && !Comments(s[..LineEnd(s)])
    ensures Uncommented(s) == [s[0]] + Uncommented(s[1..])
  {
    hide Comments, AfterBreak, Uncommented, Breaks;
    var e, r := LineEnd(s), s[1..];
    assert LineEnd(r) == e - 1 && s[..e][1..] == r[..e - 1] && r[e - 1..] == s[e..];
    StripStep(s[..e]);
    Unfolded(s);
    Unfolded(r);
  }

  lemma StripStep(l: string)
    requires l != "" && !Comments(l)
    ensures Stripped(l) == [l[0]] + Stripped(l[1..])
  {
  }

  lemma Unfolded(s: string)
    ensures var e := LineEnd(s);
            Uncommented(s) == Stripped(s[..e]) + if e == |s| then "" else " " + Uncommented(AfterBreak(s[e..]))
  {
    hide Stripped, LineEnd, Breaks;
  }

  /** What a character of the first pass begins with. */
  lemma FirstOf(s: string)
    ensures Uncommented(s) != "" ==> s != ""
    ensures Uncommented(s) != "" && Uncommented(s)[0] != ' ' ==> Uncommented(s)[0] == s[0]
  {
    hide Uncommented, Comments, LineEnd, AfterBreak;
    EmptyUncommented();
    if s != "" {
      Step(s);
      var e := LineEnd(s);
      if !Breaks(s) && Comments(s[..e]) && e < |s| { Step(s[e..]); }
      if !Breaks(s) && Comments(s[..e]) && e == |s| { assert s[e..] == ""; }
    }
  }

  lemma EmptyUncommented()
    ensures Uncommented("") == ""
  {
  }

  lemma {:induction false} LineEndAppend(u: string, s: string)
    requires !Joint(u, s, '\r', '\n')
    ensures LineEnd(u + s) == if LineEnd(u) < |u| then LineEnd(u) else |u| + LineEnd(s)
  {
    if u == "" {
      assert u + s == s;
    } else {
      assert (u + s)[1..] == u[1..] + s;
      if |u| > 1 { assert (u + s)[1] == u[1]; }
      LineEndAppend(u[1..], s);
    }
  }

  lemma {:induction false} LineEndFirst(s: string, i: nat)
    requires i < |s| && s[i] == '\n'
    ensures LineEnd(s) <= i && LineEnd(s) < |s|
  {
    if i > 0 && !Breaks(s) { LineEndFirst(s[1..], i - 1); }
  }

  predicate Joint(u: string, s: string, a: char, b: char) {
    u != "" && s != "" && u[|u| - 1] == a && s[0] == b
  }

  /** Every `--` is followed by the end of its line. */
  ghost predicate Ended(t: string) {
    forall i | OccursAt(t, "--", i) :: exists j :: i <= j < |t| && t[j] == '\n'
  }

  lemma EndedSuffix(t: string, k: nat)
    requires Ended(t) && k <= |t|
    ensures Ended(t[k..])
  {
    forall i | OccursAt(t[k..], "--", i) ensures exists j :: i <= j < |t[k..]| && t[k..][j] == '\n' {
      OccursSuffix(t, k, "--", i);
      var j :| i + k <= j < |t| && t[j] == '\n';
      assert t[k..][j - k] == '\n';
    }
  }

  /** Where no comment runs across, the first pass works on both sides by itself. */
  lemma {:induction false} Append(u: string, s: string)
    requires Ended(u) && !Joint(u, s, '\r', '\n') && !Joint(u, s, '-', '-')
    ensures Uncommented(u + s) == Uncommented(u) + Uncommented(s)
    decreases |u|
  {
    hide Uncommented, Unbroken, LineEnd, Ended;
    EmptyUncommented();
    if u == "" {
      assert u + s == s;
      return;
    }
    Step(u);
    Step(u + s);
    LineEndAppend(u, s);
    var e := LineEnd(u);
    if Breaks(u) {
      var k := |u| - |AfterBreak(u)|;
      EndedSuffix(u, k);
      assert AfterBreak(u + s) == u[k..] + s && AfterBreak(u) == u[k..];
      Append(u[k..], s);
    } else if e < |u| && Comments(u[..e]) {
      assert (u + s)[..e] == u[..e] && (u + s)[e..] == u[e..] + s;
      EndedSuffix(u, e);
      NotAtBreak(u);
      Append(u[e..], s);
    } else {
      if e < |u| { assert (u + s)[..e] == u[..e]; } else { NoCommentAt(u, s); }
      assert (u + s)[1..] == u[1..] + s && [u[0]] + (Uncommented(u[1..]) + Uncommented(s)) == [u[0]] + Uncommented(u[1..]) + Uncommented(s);
      EndedSuffix(u, 1);
      BreakAppend(u, s);
      Append(u[1..], s);
    }
  }

  lemma NotAtBreak(u: string)
    requires u != "" && !Breaks(u)
    ensures LineEnd(u) > 0
  {
  }

  lemma BreakAppend(u: string, s: string)
    requires u != "" && !Joint(u, s, '\r', '\n')
    ensures Breaks(u + s) <==> Breaks(u)
  {
    if |u| > 1 { assert (u + s)[1] == u[1]; }
  }

  /** In a last line without `--` no comment begins. */
  lemma NoCommentAt(u: string, s: string)
    requires u != "" && Ended(u) && LineEnd(u) == |u| && !Joint(u, s, '-', '-')
    ensures !Comments(u[..LineEnd(u)]) && !Comments((u + s)[..LineEnd(u + s)])
  {
    OccursTwo(u, "--", 0);
    if OccursAt(u, "--", 0) {
      var j :| 0 <= j < |u| && u[j] == '\n';
      LineEndFirst(u, j);
    }
    if |u| > 1 { assert (u + s)[1] == u[1]; }
    assert u[..LineEnd(u)] == u;
  }

  /** A line comment with its line break is a blank. */
  lemma LineGone(t: string, s: string)
    requires Unlined(t)
    ensures Uncommented("--" + t + "\n" + s) == " " + Uncommented(s)
  {
    hide Uncommented, LineEnd;
    var all := "--" + t + "\n" + s;
    var bare := if t != "" && t[|t| - 1] == '\r' then t[..|t| - 1] else t;
    var tail := if t != "" && t[|t| - 1] == '\r' then "\r\n" + s else "\n" + s;
    assert all == ("--" + bare) + tail;
    UnbrokenLine("--" + bare, tail);
    assert all[..|"--" + bare|] == "--" + bare && all[|"--" + bare|..] == tail;
    Step(all);
    Step(tail);
    assert AfterBreak(tail) == s;
  }

  lemma {:induction false} UnbrokenLine(l: string, tail: string)
    requires Unbroken(l) && (tail == "" || Breaks(tail))
    ensures LineEnd(l + tail) == |l|
  {
    if l == "" {
      assert l + tail == tail;
    } else {
      assert (l + tail)[1..] == l[1..] + tail;
      UnbrokenLine(l[1..], tail);
    }
  }

  /** No line terminator, except the carriage return of the line break itself. */
  predicate Unlined(t: string) {
    forall i | 0 <= i < |t| && Terminator(t[i]) :: t[i] == '\r' && i == |t| - 1
  }

  // ---- comments count as blanks ----

  datatype Part = Code(text: string) | Line(text: string) | Block(text: string)

  function Shown(p: Part): string {
    match p
    case Code(t) => t
    case Line(t) => "--" + t + "\n"
    case Block(t) => "/*" + t + "*/"
  }

  function ShownAll(ps: seq<Part>): string {
    if ps == [] then "" else Shown(ps[0]) + ShownAll(ps[1..])
  }

  /** The text with a blank in place of each comment. */
  function Meant(ps: seq<Part>): string {
    if ps == [] then "" else (if ps[0].Code? then ps[0].text else " ") + Meant(ps[1..])
  }

  /** Code has no comment mark and forms none with what follows; a comment ends where it is meant to. */
  ghost predicate Fits(p: Part, after: string) {
    match p
    case Code(t) =>
      && !Contains(t, "--") && !Contains(t, "/*")
      && !Joint(t, after, '-', '-') && !Joint(t, after, '/', '*') && !Joint(t, after, '\r', '\n')
    case Line(t) => Unlined(t)
    case Block(t) => Closed(t) && Ended(t)
  }

  /** The first closing mark after `t` is the one that follows it. */
  ghost predicate Closed(t: string) {
    !Contains(t + "*", "*/")
  }

  ghost predicate AllFit(ps: seq<Part>, after: string) {
    forall i | 0 <= i < |ps| :: Fits(ps[i], ShownAll(ps[i + 1..]) + after)
  }

  predicate Alike(a: string, b: string) {
    Squeezed(a) == Squeezed(b)
  }

  lemma {:induction false} AlikeAfter(a: string, x: string, y: string)
    requires Alike(x, y)
    ensures Alike(a + x, a + y)
  {
    if a == "" {
      assert a + x == x && a + y == y;
    } else {
      assert (a + x)[1..] == a[1..] + x && (a + y)[1..] == a[1..] + y;
      AlikeAfter(a[1..], x, y);
      BeginsBlank(a[1..] + x);
      BeginsBlank(a[1..] + y);
    }
  }

  lemma BeginsBlank(x: string)
    ensures x == "" <==> Squeezed(x) == ""
    ensures x != "" ==> (IsSpace(x[0]) <==> Squeezed(x)[0] == ' ')
  {
  }

  /** Code as the first pass leaves it differs from code in its blanks alone. */
  lemma {:induction false} CodeKept(t: string, y: string)
    requires !Contains(t, "--")
    ensures Alike(Uncommented(t) + y, t + y)
    decreases |t|
  {
    hide Uncommented, Squeezed, LineEnd, Alike, Unbroken;
    EmptyUncommented();
    if t == "" {
      AlikeSelf(y);
      assert "" + y == y && Uncommented(t) + y == y;
      return;
    }
    Step(t);
    NoMarkNoComment(t);
    if Breaks(t) {
      var r := AfterBreak(t);
      WithoutFirst(t, "--", |t| - |r|);
      CodeKept(r, y);
      AlikeAfter(" ", Uncommented(r) + y, r + y);
      assert " " + (Uncommented(r) + y) == Uncommented(t) + y;
      BlankAlike(t[..|t| - |r|], r + y);
      assert t[..|t| - |r|] + (r + y) == t + y;
      AlikeTrans(Uncommented(t) + y, " " + (r + y), t + y);
    } else {
      WithoutFirst(t, "--", 1);
      CodeKept(t[1..], y);
      AlikeAfter([t[0]], Uncommented(t[1..]) + y, t[1..] + y);
      assert [t[0]] + (Uncommented(t[1..]) + y) == Uncommented(t) + y;
      assert [t[0]] + (t[1..] + y) == t + y;
    }
  }

  lemma AlikeSelf(y: string)
    ensures Alike(y, y)
  {
  }

  lemma AlikeTrans(a: string, b: string, c: string)
    requires Alike(a, b) && Alike(b, c)
    ensures Alike(a, c)
  {
  }

  /** Any run of blanks is as good as one blank. */
  lemma {:induction false} BlankAlike(w: string, y: string)
    requires w != "" && Blank(w)
    ensures Alike(" " + y, w + y)
  {
    assert (" " + y)[1..] == y && (w + y)[1..] == w[1..] + y;
    if |w| == 1 {
      assert w[1..] + y == y;
    } else {
      assert (w + y)[1] == w[1];
      BlankAlike(w[1..], y);
    }
  }

  lemma WithoutFirst(t: string, p: string, k: nat)
    requires !Contains(t, p) && k <= |t|
    ensures !Contains(t[k..], p)
  {
    if Contains(t[k..], p) {
      var i: int :| OccursAt(t[k..], p, i);
      OccursSuffix(t, k, p, i);
    }
  }

  lemma NoMarkNoComment(t: string)
    requires t != "" && !Contains(t, "--")
    ensures !Comments(t[..LineEnd(t)])
  {
    OccursTwo(t, "--", 0);
  }

  /** The first two passes. */
  function Cleared(s: string): string {
    Unblocked(Uncommented(s))
  }

  /** Code without a block mark passes the second pass as it is. */
  lemma {:induction false} NoBlock(u: string, x: string)
    requires !Contains(u, "/*") && !Joint(u, x, '/', '*')
    ensures Unblocked(u + x) == u + Unblocked(x)
  {
    if u == "" {
      assert u + x == x;
    } else {
      assert (u + x)[1..] == u[1..] + x;
      OccursTwo(u + x, "/*", 0);
      OccursTwo(u, "/*", 0);
      WithoutFirst(u, "/*", 1);
      NoBlock(u[1..], x);
      assert [u[0]] + (u[1..] + Unblocked(x)) == u + Unblocked(x);
    }
  }

  /** The first pass makes no mark of two characters that was not there. */
  lemma {:induction false} NoNewMark(s: string, p: string)
    requires |p| == 2 && p[0] != ' ' && p[1] != ' ' && !Contains(s, p)
    ensures !Contains(Uncommented(s), p)
    decreases |s|
  {
    hide Uncommented, LineEnd, Unbroken;
    EmptyUncommented();
    if s != "" {
      Step(s);
      var e := LineEnd(s);
      if Breaks(s) {
        var r := AfterBreak(s);
        WithoutFirst(s, p, |s| - |r|);
        NoNewMark(r, p);
        NoMarkBefore(' ', Uncommented(r), p);
      } else if Comments(s[..e]) {
        NotAtBreak(s);
        WithoutFirst(s, p, e);
        NoNewMark(s[e..], p);
      } else {
        WithoutFirst(s, p, 1);
        NoNewMark(s[1..], p);
        FirstOf(s[1..]);
        if s[0] == p[0] && |s| > 1 && s[1] == p[1] { OccursTwo(s, p, 0); }
        NoMarkBefore(s[0], Uncommented(s[1..]), p);
      }
    }
  }

  lemma NoMarkBefore(c: char, x: string, p: string)
    requires |p| == 2 && !Contains(x, p) && !(x != "" && c == p[0] && x[0] == p[1])
    ensures !Contains([c] + x, p)
  {
    if Contains([c] + x, p) {
      var i: int :| OccursAt([c] + x, p, i);
      OccursTwo([c] + x, p, i);
      if i > 0 {
        OccursTwo(x, p, i - 1);
      }
    }
  }
}
