/** What the key of a statement depends on, and what the inventory makes of that. */
module StatementKeyLaws {
  import opened Text
  import opened StatementKeys
  import StatementSplitter
  import opened SpanDiff
  import opened Inventory
  import opened SqlInventory

  // ---- comments count as blanks ----

  lemma {:induction false} LastKept(t: string)
    requires t != "" && !Contains(t, "--")
    ensures Uncommented(t) != ""
    ensures Uncommented(t)[|Uncommented(t)| - 1] == ' ' || Uncommented(t)[|Uncommented(t)| - 1] == t[|t| - 1]
    decreases |t|
  {
    hide Uncommented, Comments, LineEnd;
    Step(t);
    NoMarkNoComment(t);
    EmptyUncommented();
    var r := if Breaks(t) then AfterBreak(t) else t[1..];
    WithoutFirst(t, "--", |t| - |r|);
    if r != "" { LastKept(r); }
  }

  lemma NoMarkEnded(t: string)
    requires !Contains(t, "--")
    ensures Ended(t)
  {
  }

  lemma CodeCleared(t: string, x: string)
    requires Fits(Code(t), x)
    ensures Alike(Cleared(t + x), t + Cleared(x))
  {
    hide Uncommented, Unblocked, Ended, Alike;
    NoMarkEnded(t);
    Append(t, x);
    NoNewMark(t, "/*");
    EmptyUncommented();
    if t != "" { LastKept(t); }
    FirstOf(x);
    NoBlock(Uncommented(t), Uncommented(x));
    CodeKept(t, Cleared(x));
  }

  lemma LineCleared(t: string, x: string)
    requires Unlined(t)
    ensures Cleared(Shown(Line(t)) + x) == " " + Cleared(x)
  {
    hide Uncommented, Unlined;
    LineGone(t, x);
    assert (" " + Uncommented(x))[1..] == Uncommented(x);
  }

  lemma SlashAlone(x: string)
    ensures Uncommented("/" + x) == "/" + Uncommented(x)
  {
    hide LineEnd;
    Step("/" + x);
    assert ("/" + x)[1..] == x;
    if LineEnd("/" + x) > 0 { assert ("/" + x)[..LineEnd("/" + x)][0] == '/'; }
  }

  lemma OpeningKept(x: string)
    ensures Uncommented("/*" + x) == "/*" + Uncommented(x)
  {
    hide Uncommented;
    SlashAlone("*" + x);
    assert "/*" + x == "/" + ("*" + x);
    Step("*" + x);
    assert ("*" + x)[1..] == x;
    if LineEnd("*" + x) > 0 { assert ("*" + x)[..LineEnd("*" + x)][0] == '*'; }
  }

  lemma EndedStar(t: string)
    requires Ended(t)
    ensures Ended(t + "*")
  {
    forall i | OccursAt(t + "*", "--", i) ensures exists j :: i <= j < |t + "*"| && (t + "*")[j] == '\n' {
      OccursTwo(t + "*", "--", i);
      OccursTwo(t, "--", i);
      var j :| i <= j < |t| && t[j] == '\n';
      assert (t + "*")[j] == '\n';
    }
  }

  lemma FirstPassBlock(t: string, x: string)
    requires Ended(t)
    ensures Uncommented("/*" + t + "*/" + x) == "/*" + Uncommented(t + "*") + "/" + Uncommented(x)
  {
    hide Uncommented, Ended;
    EndedStar(t);
    Append(t + "*", "/" + x);
    SlashAlone(x);
    OpeningKept(t + "*" + ("/" + x));
    assert "/*" + t + "*/" + x == "/*" + (t + "*" + ("/" + x));
  }

  lemma StarLast(t: string)
    requires Ended(t)
    ensures Uncommented(t + "*") != "" && Uncommented(t + "*")[|Uncommented(t + "*")| - 1] == '*'
  {
    hide Uncommented, Ended;
    Append(t, "*");
    Step("*");
    EmptyUncommented();
    assert "*"[1..] == "";
    assert "*"[..LineEnd("*")] == "" || "*"[..LineEnd("*")][0] == '*';
  }

  /** A block comment whose body `u`, with its last star, has no earlier end. */
  lemma BlockRemoved(u: string, x: string)
    requires u != "" && u[|u| - 1] == '*' && !Contains(u, "*/")
    ensures Unblocked("/*" + u + "/" + x) == " " + Unblocked(x)
  {
    hide Unblocked;
    var s := "/*" + u + "/" + x;
    var at := |u| + 1;
    OccursTwo(s, "/*", 0);
    OccursTwo(s, "*/", at);
    forall j: int | 2 <= j < at ensures !OccursAt(s, "*/", j) {
      OccursTwo(s, "*/", j);
      OccursTwo(u, "*/", j - 2);
    }
    FirstIs(s, "*/", 2, at);
    assert s[at + 2..] == x;
    ClosingStep(s);
  }

  lemma ClosingStep(s: string)
    requires s != ""
    ensures Unblocked(s) == if Closing(s).Some? then " " + Unblocked(s[Closing(s).value + 2..]) else [s[0]] + Unblocked(s[1..])
  {
  }

  lemma BlockCleared(t: string, x: string)
    requires Closed(t) && Ended(t)
    ensures Cleared(Shown(Block(t)) + x) == " " + Cleared(x)
  {
    hide Uncommented, Unblocked, Ended;
    FirstPassBlock(t, x);
    NoNewMark(t + "*", "*/");
    StarLast(t);
    BlockRemoved(Uncommented(t + "*"), Uncommented(x));
  }

  /** Wherever they stand, comments that end where they are meant to are blanks to the key, and nothing else is lost. */
  lemma {:induction false} CommentsAreBlanks(ps: seq<Part>, s: string)
    requires AllFit(ps, s)
    ensures Alike(Cleared(ShownAll(ps) + s), Meant(ps) + Cleared(s))
  {
    hide Cleared, Alike, Fits, Shown;
    if ps == [] {
      assert "" + s == s && "" + Cleared(s) == Cleared(s);
      AlikeSelf(Cleared(s));
    } else {
      var p, rest := ps[0], ShownAll(ps[1..]) + s;
      var m := if p.Code? then p.text else " ";
      assert Fits(p, rest);
      forall i | 0 <= i < |ps[1..]| ensures Fits(ps[1..][i], ShownAll(ps[1..][i + 1..]) + s) {
        assert ps[1..][i + 1..] == ps[i + 2..];
        assert Fits(ps[i + 1], ShownAll(ps[i + 2..]) + s);
      }
      CommentsAreBlanks(ps[1..], s);
      PartCleared(p, rest);
      AlikeAfter(m, Cleared(rest), Meant(ps[1..]) + Cleared(s));
      assert ShownAll(ps) + s == Shown(p) + rest;
      assert m + (Meant(ps[1..]) + Cleared(s)) == Meant(ps) + Cleared(s);
      AlikeTrans(Cleared(Shown(p) + rest), m + Cleared(rest), Meant(ps) + Cleared(s));
    }
  }

  lemma PartCleared(p: Part, x: string)
    requires Fits(p, x)
    ensures Alike(Cleared(Shown(p) + x), (if p.Code? then p.text else " ") + Cleared(x))
  {
    hide Cleared;
    match p
    case Code(t) => CodeCleared(t, x);
    case Line(t) => LineCleared(t, x);
    case Block(t) => BlockCleared(t, x);
  }

  /** So two statements have one normal text exactly when their code is the same up to runs of blanks. */
  lemma NormalOfParts(ps: seq<Part>)
    requires AllFit(ps, "")
    ensures Normalize(ShownAll(ps)) == Trimmed(Squeezed(Meant(ps)))
  {
    CommentsAreBlanks(ps, "");
    EmptyUncommented();
    assert ShownAll(ps) + "" == ShownAll(ps) && Meant(ps) + "" == Meant(ps);
  }

  // ---- what precedes a statement ----

  /** Comments and blanks. */
  ghost predicate Lead(ps: seq<Part>, s: string) {
    AllFit(ps, s) && forall i | 0 <= i < |ps| :: ps[i].Code? ==> Blank(ps[i].text)
  }

  lemma {:induction false} LeadIsBlank(ps: seq<Part>)
    requires forall i | 0 <= i < |ps| :: ps[i].Code? ==> Blank(ps[i].text)
    ensures Blank(Meant(ps))
  {
    if ps != [] { LeadIsBlank(ps[1..]); }
  }

  lemma BlankTrimmed(w: string, x: string)
    requires Blank(w)
    ensures Trimmed(Squeezed(w + x)) == Trimmed(Squeezed(x))
  {
    if w == "" {
      assert w + x == x;
    } else {
      BlankAlike(w, x);
      assert (" " + x)[1..] == x && (" " + Squeezed(x))[1..] == Squeezed(x);
    }
  }

  lemma LeadIgnored(ps: seq<Part>, s: string)
    requires Lead(ps, s)
    ensures Normalize(ShownAll(ps) + s) == Normalize(s)
  {
    hide Cleared, Trimmed, Squeezed;
    CommentsAreBlanks(ps, s);
    LeadIsBlank(ps);
    BlankTrimmed(Meant(ps), Cleared(s));
    NormalCleared(ShownAll(ps) + s);
    NormalCleared(s);
  }

  lemma NormalCleared(s: string)
    ensures Normalize(s) == Trimmed(Squeezed(Cleared(s)))
  {
  }

  // ---- a comment that does not end ----

  /** Line terminators stand in line breaks alone. */
  predicate Plain(s: string) {
    forall i | 0 <= i < |s| && Terminator(s[i]) && s[i] != '\n' :: s[i] == '\r' && i + 1 < |s| && s[i + 1] == '\n'
  }

  lemma PlainSuffix(s: string, k: nat)
    requires Plain(s) && k <= |s|
    ensures Plain(s[k..])
  {
  }

  lemma {:induction false} LineUnbroken(s: string)
    requires Plain(s)
    ensures Unbroken(s[..LineEnd(s)])
  {
    if s != "" && !Breaks(s) {
      LineUnbroken(s[1..]);
      assert s[..LineEnd(s)] == [s[0]] + s[1..][..LineEnd(s) - 1];
    }
  }

  /** `--` at `i`, with no end of its line in `t`. */
  predicate OpenMark(t: string, i: nat) {
    i + 2 <= |t| && t[i] == '-' && t[i + 1] == '-' && forall j | i <= j < |t| :: t[j] != '\n'
  }

  lemma OpenMarkAt(t: string) returns (i: nat)
    requires !Ended(t)
    ensures OpenMark(t, i)
  {
    var k :| OccursAt(t, "--", k) && !exists j :: k <= j < |t| && t[j] == '\n';
    OccursTwo(t, "--", k);
    i := k;
  }

  /** The line that a comment opens in runs past the end of `t`. */
  lemma MarkedLine(t: string, s: string, i: nat)
    requires OpenMark(t, i)
    ensures var e := LineEnd(t + "*/" + s); e <= i || e >= |t| + 2
    ensures i == 0 ==> LineEnd(t + "*/" + s) >= |t| + 2
  {
    var x := t + "*/" + s;
    var e := LineEnd(x);
    assert x == t + ("*/" + s);
    if e < |x| && e < |t| + 2 {
      assert x[e..][0] == x[e];
      if x[e] == '\r' { assert x[e..][1] == x[e + 1]; }
      assert e != |t| && e != |t| + 1;
    }
  }

  /** The closing mark goes with the rest of its line. */
  lemma {:induction false} Swallowed(t: string, s: string, i: nat)
    requires Closed(t) && OpenMark(t, i) && Plain(t + "*/" + s) && !Contains(s, "*/")
    ensures !Contains(Uncommented(t + "*/" + s), "*/")
    decreases |t|
  {
    hide Uncommented, LineEnd, Plain, Comments;
    var x := t + "*/" + s;
    var e := LineEnd(x);
    Step(x);
    MarkedLine(t, s, i);
    if Breaks(x) {
      SwallowBreak(t, s, i);
      var r := AfterBreak(t);
      FromLater(t, s, i, |t| - |r|);
      Swallowed(r, s, i - (|t| - |r|));
      NoMarkBefore(' ', Uncommented(r + "*/" + s), "*/");
    } else if Comments(x[..e]) {
      NotAtBreak(x);
      if e <= i {
        FromLater(t, s, i, e);
        Swallowed(t[e..], s, i - e);
      } else {
        var k := e - |t| - 2;
        assert x[e..] == s[k..];
        WithoutFirst(s, "*/", k);
        NoNewMark(s[k..], "*/");
      }
    } else {
      MarkTaken(t, s, i);
      FromLater(t, s, i, 1);
      Swallowed(t[1..], s, i - 1);
      FirstOf(x[1..]);
      OccursTwo(t + "*", "*/", 0);
      NoMarkBefore(x[0], Uncommented(x[1..]), "*/");
    }
  }

  lemma SwallowBreak(t: string, s: string, i: nat)
    requires OpenMark(t, i) && Breaks(t + "*/" + s)
    ensures Breaks(t) && AfterBreak(t + "*/" + s) == AfterBreak(t) + "*/" + s && i >= |t| - |AfterBreak(t)|
  {
    var x := t + "*/" + s;
    assert x[0] == t[0] && x[1] == t[1];
  }

  lemma FromLater(t: string, s: string, i: nat, k: nat)
    requires Closed(t) && OpenMark(t, i) && Plain(t + "*/" + s) && k <= i
    ensures Closed(t[k..]) && OpenMark(t[k..], i - k) && Plain(t[k..] + "*/" + s)
    ensures (t + "*/" + s)[k..] == t[k..] + "*/" + s
  {
    WithoutFirst(t + "*", "*/", k);
    assert (t + "*")[k..] == t[k..] + "*";
    assert (t + "*/" + s)[k..] == t[k..] + "*/" + s;
    PlainSuffix(t + "*/" + s, k);
  }

  lemma MarkTaken(t: string, s: string, i: nat)
    requires OpenMark(t, i) && Plain(t + "*/" + s)
    requires !Comments((t + "*/" + s)[..LineEnd(t + "*/" + s)])
    ensures i > 0
  {
    hide LineEnd;
    var x := t + "*/" + s;
    MarkedLine(t, s, i);
    LineUnbroken(x);
    assert x[0] == t[0] && x[1] == t[1];
  }

  /** What the normal text begins with. */
  lemma Begins(x: string)
    requires x != "" && !IsSpace(x[0]) && Closing(x).None?
    ensures var n := Trimmed(Squeezed(Unblocked(x))); n != "" && n[0] == x[0]
  {
    hide Closing, IsSpace, Trimmed;
    ClosingStep(x);
    var u := Squeezed(Unblocked(x));
    assert u == [x[0]] + Squeezed(Unblocked(x)[1..]);
    TrimmedBegins(u);
  }

  lemma {:induction false} TrimmedBegins(u: string)
    requires u != "" && !IsSpace(u[0])
    ensures Trimmed(u) != "" && Trimmed(u)[0] == u[0]
    decreases |u|
  {
    if IsSpace(u[|u| - 1]) { TrimmedBegins(u[..|u| - 1]); }
  }

  predicate Letter(c: char) { 'a' <= Lower(c) <= 'z' }

  lemma NormalFirst(s: string)
    requires s != "" && Letter(s[0])
    ensures Normalize(s) != "" && Normalize(s)[0] == s[0]
  {
    hide Uncommented, Unblocked, Squeezed, Trimmed;
    Step(s);
    if LineEnd(s) > 0 { assert s[..LineEnd(s)][0] == s[0]; }
    OccursTwo(Uncommented(s), "/*", 0);
    Begins(Uncommented(s));
  }

  lemma OpenNormal(t: string, s: string)
    requires Closed(t) && !Ended(t) && Plain(t + "*/" + s) && !Contains(s, "*/")
    ensures var n := Normalize("/*" + t + "*/" + s); n != "" && n[0] == '/'
  {
    hide Uncommented, Unblocked, Squeezed, Trimmed, Ended, Plain;
    var i := OpenMarkAt(t);
    Swallowed(t, s, i);
    var x := Uncommented(t + "*/" + s);
    OpeningKept(t + "*/" + s);
    assert "/*" + t + "*/" + s == "/*" + (t + "*/" + s);
    assert ("/*" + x)[2..] == x;
    FirstFromSuffix("/*" + x, 2, "*/", 0);
    SearchDecides(x, "*/");
    Begins("/*" + x);
  }

  /**
   * A comment before a statement is no part of its key exactly when every `--` in it is followed by the end of its line.
   * Otherwise the statement has no verb.
   */
  lemma CommentIgnored(t: string, s: string)
    requires Closed(t) && Plain(t + "*/" + s) && !Contains(s, "*/") && s != "" && Letter(s[0])
    ensures Normalize(Shown(Block(t)) + s) == Normalize(s) <==> Ended(t)
    ensures !Ended(t) ==> Verb(Normalize(Shown(Block(t)) + s)) == ""
  {
    hide Normalize, Ended, Plain;
    if Ended(t) {
      BlockCleared(t, s);
      BlankTrimmed(" ", Cleared(s));
      NormalCleared(s);
      NormalCleared(Shown(Block(t)) + s);
    } else {
      OpenNormal(t, s);
      NormalFirst(s);
    }
  }

  // ---- the passes, one by one ----

  /** No line terminator: neither a line feed, a carriage return, nor a line or paragraph separator. */
  predicate OneLine(l: string) {
    '\n' !in l && '\r' !in l && '\U{2028}' !in l && '\U{2029}' !in l
  }

  /** `k` is the first `--` that no line terminator follows, or the end of the line when there is none. */
  ghost predicate CutAt(l: string, k: nat) {
    && k <= |l| && (k < |l| ==> OccursAt(l, "--", k) && OneLine(l[k..]))
    && forall i: nat | i < k && OccursAt(l, "--", i) :: !OneLine(l[i..])
  }

  lemma CutStep(l: string, k: nat)
    requires l != "" && !(OccursAt(l, "--", 0) && OneLine(l)) && CutAt(l[1..], k)
    ensures CutAt(l, k + 1)
  {
    hide OneLine;
    var r := l[1..];
    if k < |r| {
      assert l[k + 1..] == r[k..];
      OccursSuffix(l, 1, "--", k);
    }
    forall i: nat | i < k + 1 && OccursAt(l, "--", i) ensures !OneLine(l[i..]) {
      if i > 0 {
        OccursSuffix(l, 1, "--", i - 1);
        assert l[i..] == r[i - 1..];
      } else {
        assert l[0..] == l;
      }
    }
  }

  lemma CommentsMeans(l: string)
    ensures Comments(l) <==> OccursAt(l, "--", 0) && OneLine(l)
  {
    UnbrokenMeans(l);
    OccursTwo(l, "--", 0);
  }

  /** A line is cut at the first `--` that no line terminator follows. */
  lemma {:induction false} StrippedMeans(l: string)
    ensures exists k: nat :: k <= |l| && CutAt(l, k) && Stripped(l) == l[..k]
  {
    hide CutAt, OneLine, Comments;
    CommentsMeans(l);
    if l == "" {
      assert CutAt(l, 0) by { NothingCut(); }
    } else if Comments(l) {
      assert CutAt(l, 0) by { CutFirst(l); }
    } else {
      StrippedMeans(l[1..]);
      var k: nat :| k <= |l[1..]| && CutAt(l[1..], k) && Stripped(l[1..]) == l[1..][..k];
      CutStep(l, k);
      assert [l[0]] + l[1..][..k] == l[..k + 1];
    }
  }

  lemma NothingCut()
    ensures CutAt("", 0)
  {
  }

  lemma CutFirst(l: string)
    requires OccursAt(l, "--", 0) && OneLine(l)
    ensures CutAt(l, 0)
  {
    assert l[0..] == l;
  }

  lemma UnbrokenMeans(l: string)
    ensures Unbroken(l) <==> OneLine(l)
  {
    if Unbroken(l) { assert forall c | c in l :: !Terminator(c); }
  }

  /** Blank runs become one blank each, and what lies between them is kept. */
  lemma {:induction false} SqueezedRuns(a: string, w: string, b: string)
    requires w != "" && Blank(w) && (a == "" || !IsSpace(a[|a| - 1])) && (b == "" || !IsSpace(b[0]))
    ensures Squeezed(a + w + b) == Squeezed(a) + " " + Squeezed(b)
  {
    if a == "" {
      assert "" + w + b == w + b && (" " + b)[1..] == b;
      BlankAlike(w, b);
    } else {
      assert (a + w + b)[1..] == a[1..] + w + b;
      assert |a| > 1 ==> (a + w + b)[1] == a[1];
      SqueezedRuns(a[1..], w, b);
    }
  }

  lemma {:induction false} SqueezedInk(a: string)
    requires forall i | 0 <= i < |a| :: !IsSpace(a[i])
    ensures Squeezed(a) == a
  {
    if a != "" { SqueezedInk(a[1..]); }
  }

  /** Trimming takes off all the white space on both sides, and nothing else. */
  lemma {:induction false} TrimmedMeans(a: string, x: string, b: string)
    requires Blank(a) && Blank(b) && (x == "" || (!IsSpace(x[0]) && !IsSpace(x[|x| - 1])))
    ensures Trimmed(a + x + b) == x
    decreases |a| + |b|
  {
    var s := a + x + b;
    if a != "" {
      assert s[1..] == a[1..] + x + b && s[0] == a[0];
      TrimmedMeans(a[1..], x, b);
    } else if b != "" {
      var n := |b| - 1;
      assert s[..|s| - 1] == "" + x + b[..n] && s[|s| - 1] == b[n];
      TrimmedMeans("", x, b[..n]);
      if x == "" {
        assert s == b;
        BlankTrims(b);
      }
    } else {
      assert s == x;
    }
  }

  lemma {:induction false} BlankTrims(b: string)
    requires Blank(b)
    ensures Trimmed(b) == ""
  {
    if b != "" { BlankTrims(b[1..]); }
  }

  const CAPITALS := "ABCDEFGHIJKLMNOPQRSTUVWXYZ"
  const SMALL := "abcdefghijklmnopqrstuvwxyz"

  /** The verb: the letters that the normal text begins with, in capitals. */
  lemma VerbMeans(w: string, r: string)
    requires (forall i | 0 <= i < |w| :: w[i] in CAPITALS || w[i] in SMALL) && (r == "" || (r[0] !in CAPITALS && r[0] !in SMALL))
    ensures |Verb(w + r)| == |w|
    ensures forall i, k | 0 <= i < |w| && 0 <= k < 26 && (w[i] == CAPITALS[k] || w[i] == SMALL[k]) :: Verb(w + r)[i] == CAPITALS[k]
  {
    hide CAPITALS, SMALL, Letters, Letter;
    CapitalOf('A', 0);
    forall i | 0 <= i < |w| ensures Letter(w[i]) { LetterMeans(w[i]); }
    if r != "" { LetterMeans(r[0]); }
    LettersOf(w, r);
    forall i, k | 0 <= i < |w| && 0 <= k < 26 && (w[i] == CAPITALS[k] || w[i] == SMALL[k]) ensures Upper(w)[i] == CAPITALS[k] {
      CapitalOf(w[i], k);
    }
  }

  lemma CapitalOf(c: char, k: nat)
    requires k < 26
    ensures |CAPITALS| == 26 == |SMALL|
    ensures c == CAPITALS[k] || c == SMALL[k] ==> CAPITALS[k] == if 'a' <= c <= 'z' then (c as int - 32) as char else c
  {
    assert CAPITALS[k] == (65 + k) as char && SMALL[k] == (97 + k) as char;
  }

  lemma LetterMeans(c: char)
    ensures c in CAPITALS || c in SMALL <==> Letter(c)
  {
    assert forall k | 0 <= k < 26 :: CAPITALS[k] == (65 + k) as char && SMALL[k] == (97 + k) as char;
    if 'A' <= c <= 'Z' { assert CAPITALS[c as int - 65] == c; }
    if 'a' <= c <= 'z' { assert SMALL[c as int - 97] == c; }
  }

  // ---- what the inventory makes of it ----

  /** How a statement's text is read: its verb, and for a `DO` block whether it raises. */
  function Reader(raises: string -> bool): string -> Reading {
    s => var n := Normalize(s); Reading(Verb(n), Verb(n) == "DO" && raises(n))
  }

  /** `inventoryKey` of the normal text, for any digest. */
  function Keyed(digest: string -> string): string -> string {
    s => digest(Normalize(s))
  }

  predicate Reconciles(s: string, raises: string -> bool) {
    var r := Reader(raises)(s);
    IsReconciliation(Statement(1, r.verb, r.raises, ""))
  }

  /**
   * A statement under a lead and one more block comment counts as a reconciliation exactly when it is one and every `--`
   * of that comment is followed by the end of its line. Otherwise nothing asks for it to be accounted for.
   */
  lemma CommentHidesStatement(sql: string, k: nat, lead: seq<Part>, t: string, s: string,
                              raises: string -> bool, digest: string -> string)
    requires k < |StatementSplitter.Split(sql)|
    requires StatementSplitter.Split(sql)[k].text == ShownAll(lead) + (Shown(Block(t)) + s)
    requires Lead(lead, Shown(Block(t)) + s)
    requires Closed(t) && Plain(t + "*/" + s) && !Contains(s, "*/") && s != "" && Letter(s[0])
    ensures IsReconciliation(StatementsOf(sql, Reader(raises), Keyed(digest))[k]) <==> Ended(t) && Reconciles(s, raises)
  {
    hide Normalize, Verb, Ended, StatementSplitter.Split;
    LeadIgnored(lead, Shown(Block(t)) + s);
    CommentIgnored(t, s);
  }

  const HIDDEN := "/*--*/UPDATE t"

  /** An update for which the inventory has no row and asks for none. */
  lemma HiddenUpdate(raises: string -> bool, digest: string -> string)
    ensures Reconciles("UPDATE t", raises)
    ensures StatementSplitter.Split(HIDDEN) == [StatementSplitter.Piece(HIDDEN, 0)]
    ensures Problems(StatementsOf(HIDDEN, Reader(raises), Keyed(digest)), map[], []) == []
  {
    hide Normalize, StatementSplitter.Split;
    PlainUpdate();
    OnePiece();
    OpenComment();
    LettersOnly("--", "UPDATE t");
    CommentHidesStatement(HIDDEN, 0, [], "--", "UPDATE t", raises, digest);
    NoneToAccount(StatementsOf(HIDDEN, Reader(raises), Keyed(digest)));
  }

  lemma NoneToAccount(all: seq<Statement>)
    requires |all| == 1 && !IsReconciliation(all[0])
    ensures Problems(all, map[], []) == []
  {
    var b := Book(map[], DeclaredByKey([]));
    assert DeclaredByKey([]) == map[];
    assert ProblemsOf(all[0], b) == [];
    assert ProblemsUpTo(all, b, 1) == ProblemsUpTo(all, b, 0) + ProblemsOf(all[0], b);
  }

  lemma OpenComment()
    ensures Closed("--") && !Ended("--")
  {
    OccursTwo("--", "--", 0);
    assert OccursAt("--", "--", 0);
    forall i: int ensures !OccursAt("--" + "*", "*/", i) { OccursTwo("--" + "*", "*/", i); }
  }

  lemma LettersOnly(t: string, s: string)
    requires forall i | 0 <= i < |t| :: !Terminator(t[i])
    requires forall i | 0 <= i < |s| :: Letter(s[i]) || s[i] == ' '
    ensures Plain(t + "*/" + s) && !Contains(s, "*/")
  {
    forall i: int ensures !OccursAt(s, "*/", i) { OccursTwo(s, "*/", i); }
  }

  lemma PlainUpdate()
    ensures Verb(Normalize("UPDATE t")) == "UPDATE"
  {
    hide Normalize, Squeezed, Letters, Contains;
    var s := "UPDATE t";
    NoMarks(s);
    NormalOfParts([Code(s)]);
    assert [Code(s)][1..] == [];
    assert ShownAll([Code(s)]) == s && Meant([Code(s)]) == s;
    Tight(s);
    assert s == "UPDATE" + " t";
    LettersOf("UPDATE", " t");
  }

  lemma NoMarks(s: string)
    requires forall i | 0 <= i < |s| :: s[i] != '-' && s[i] != '*'
    ensures !Contains(s, "--") && !Contains(s, "/*")
  {
    forall i: int ensures !OccursAt(s, "--", i) && !OccursAt(s, "/*", i) {
      OccursTwo(s, "--", i);
      OccursTwo(s, "/*", i);
    }
  }

  lemma {:induction false} Tight(s: string)
    requires forall i | 0 <= i < |s| && IsSpace(s[i]) :: s[i] == ' ' && (i + 1 == |s| || !IsSpace(s[i + 1]))
    ensures Squeezed(s) == s
  {
    if s != "" { Tight(s[1..]); }
  }

  lemma {:induction false} LettersOf(w: string, r: string)
    requires (forall i | 0 <= i < |w| :: Letter(w[i])) && (r == "" || !Letter(r[0]))
    ensures Letters(w + r) == w
  {
    if w == "" {
      assert w + r == r;
    } else {
      assert (w + r)[1..] == w[1..] + r;
      LettersOf(w[1..], r);
    }
  }

  lemma OnePiece()
    ensures StatementSplitter.Split(HIDDEN) == [StatementSplitter.Piece(HIDDEN, 0)]
  {
    hide StatementSplitter.LexLen, StatementSplitter.Lexeme;
    CommentLexeme();
    assert HIDDEN[0] == '/' && HIDDEN[0..] == HIDDEN && |HIDDEN| == 14 && !IsSpace(HIDDEN[0]);
    WalksOn(HIDDEN, 6, 0);
    StatementSplitter.WalkSkips(HIDDEN, 0, 0, 6);
    StatementSplitter.WalkDone(HIDDEN, 14, 0);
  }

  lemma CommentLexeme()
    ensures HIDDEN[0..] == HIDDEN && StatementSplitter.Lexeme(HIDDEN, 6)
  {
    OccursTwo(HIDDEN, "*/", 2);
    OccursTwo(HIDDEN, "*/", 3);
    OccursTwo(HIDDEN, "*/", 4);
  }

  lemma {:induction false} WalksOn(s: string, i: nat, start: nat)
    requires start <= i <= |s| && forall k | i <= k < |s| :: Letter(s[k]) || s[k] == ' '
    ensures StatementSplitter.Walk(s, i, start) == StatementSplitter.Walk(s, |s|, start)
    decreases |s| - i
  {
    if i < |s| {
      assert s[i..][0] == s[i];
      StatementSplitter.WalkSkipsOne(s, i, start);
      WalksOn(s, i + 1, start);
    }
  }

  /** A control that deletes statement `k`, whose text is a lead and the deleted span, covers it as `CoversItsOwn` says. */
  lemma CoversItsStatement(sql: string, control: Control, anchors: map<string, Anchors>, digest: string -> string,
                           k: nat, lead: seq<Part>)
    requires control.id in anchors && Removable(sql, control, anchors)
    requires Distinct(KeysOf(sql, Keyed(digest))) && k < |StatementSplitter.Split(sql)|
    requires var c := StatementCut(sql, anchors[control.id].from, anchors[control.id].to).value;
             && StatementSplitter.Split(sql)[k].text == ShownAll(lead) + sql[c.from..c.to]
             && Lead(lead, sql[c.from..c.to])
    ensures var c := StatementCut(sql, anchors[control.id].from, anchors[control.id].to).value;
            var keys, covers := KeysOf(sql, Keyed(digest)), KeyOf(sql, control, anchors, Keyed(digest));
            && c.from < c.to && k < |keys|
            && (covers == Some(keys[k]) <==> digest(Normalize(Recovered(sql, c))) == digest(Normalize(sql[c.from..c.to])))
            && (Slide(sql, c) % (c.to - c.from) == 0 || c.to == |sql| || sql[c.from] != sql[c.to] ==>
                  forall j | 0 <= j < |keys| :: covers == Some(keys[j]) <==> j == k)
  {
    hide Normalize, Lead, StatementSplitter.Split, StatementCut, Slide, Recovered, KeyOf, Distinct;
    var c := StatementCut(sql, anchors[control.id].from, anchors[control.id].to).value;
    LeadIgnored(lead, sql[c.from..c.to]);
    CoversItsOwn(sql, control, anchors, Keyed(digest), k);
  }

  /** What follows `--` on its line is no part of the normal text, whether it stands in a comment or in a literal. */
  lemma {:induction false} AfterMark(u: string, a: string, b: string, v: string)
    requires Unbroken(a) && Unbroken(b) && (v == "" || Breaks(v))
    ensures Uncommented(u + "--" + a + v) == Uncommented(u + "--" + b + v)
    decreases |u|
  {
    hide Uncommented, Comments, LineEnd;
    var x, y := u + "--" + a + v, u + "--" + b + v;
    BareMark();
    Step(x);
    Step(y);
    MarkLine(u, a, v);
    MarkLine(u, b, v);
    if Breaks(x) {
      BreaksAbove(u, a, v);
      BreaksAbove(u, b, v);
      AfterMark(AfterBreak(u), a, b, v);
    } else if u != "" && !Comments(x[..LineEnd(x)]) {
      assert x[1..] == u[1..] + "--" + a + v && y[1..] == u[1..] + "--" + b + v;
      BreaksAbove(u, a, v);
      BreaksAbove(u, b, v);
      AfterMark(u[1..], a, b, v);
    } else if LineEnd(u) < |u| {
      var e := LineEnd(u);
      NotAtBreak(x);
      assert x[e..] == u[e..] + "--" + a + v && y[e..] == u[e..] + "--" + b + v;
      AfterMark(u[e..], a, b, v);
    }
  }

  lemma BareMark()
    ensures LineEnd("") == 0 && Comments("" + "--")
  {
  }

  lemma BreaksAbove(u: string, a: string, v: string)
    requires u != ""
    ensures var x := u + "--" + a + v;
            && (Breaks(x) <==> Breaks(u))
            && (Breaks(u) ==> AfterBreak(x) == AfterBreak(u) + "--" + a + v)
  {
    var x := u + "--" + a + v;
    assert x == u + ("--" + a + v);
    BreakAppend(u, "--" + a + v);
  }

  /** The line above a mark is its own, or ends with what follows the mark. */
  lemma MarkLine(u: string, a: string, v: string)
    requires Unbroken(a) && (v == "" || Breaks(v))
    ensures var x, e := u + "--" + a + v, LineEnd(u);
            if e < |u| then LineEnd(x) == e && x[..e] == u[..e]
            else
              && LineEnd(x) == |u| + 2 + |a| && x[LineEnd(x)..] == v
              && (Comments(x[..LineEnd(x)]) <==> Comments(u + "--"))
  {
    hide LineEnd, Comments, Breaks, Unbroken;
    MarkLineEnd(u, a, v);
    MarkSlices(u, a, v);
    if LineEnd(u) == |u| { UnbrokenBoth(u + "--", a); }
  }

  lemma MarkLineEnd(u: string, a: string, v: string)
    requires Unbroken(a) && (v == "" || Breaks(v))
    ensures LineEnd(u + "--" + a + v) == if LineEnd(u) < |u| then LineEnd(u) else |u| + 2 + |a|
  {
    hide LineEnd, Breaks, Unbroken;
    MarkUnbroken(a);
    LineBetween(u, "--" + a, v);
    Regroup(u, "--", a, v);
  }

  lemma LineBetween(u: string, m: string, v: string)
    requires m != "" && Unbroken(m) && (v == "" || Breaks(v))
    ensures LineEnd(u + (m + v)) == if LineEnd(u) < |u| then LineEnd(u) else |u| + |m|
  {
    hide LineEnd, Breaks;
    LineEndAppend(u, m + v);
    UnbrokenLine(m, v);
  }

  lemma Regroup(u: string, m: string, a: string, v: string)
    ensures u + m + a + v == u + ((m + a) + v)
  {
  }

  lemma MarkSlices(u: string, a: string, v: string)
    ensures var x, n := u + "--" + a + v, |u| + 2 + |a|;
            x[..n] == (u + "--") + a && x[n..] == v && forall e | 0 <= e <= |u| :: x[..e] == u[..e]
  {
  }

  lemma MarkUnbroken(a: string)
    requires Unbroken(a)
    ensures Unbroken("--" + a)
  {
  }

  lemma UnbrokenBoth(l: string, a: string)
    requires |l| >= 2 && Unbroken(a)
    ensures Comments(l + a) <==> Comments(l)
  {
    assert (l + a)[..|l|] == l;
    if Unbroken(l + a) {
      forall i | 0 <= i < |l| ensures !Terminator(l[i]) { assert (l + a)[i] == l[i]; }
    }
  }

  /** Two statements that differ there alone, say in what a literal holds, are refused as one, whatever the digest. */
  lemma MarkMergesStatements(sql: string, i: nat, j: nat, u: string, a: string, b: string, v: string, digest: string -> string)
    requires i < j < |StatementSplitter.Split(sql)|
    requires StatementSplitter.Split(sql)[i].text == u + "--" + a + v && StatementSplitter.Split(sql)[j].text == u + "--" + b + v
    requires Unbroken(a) && Unbroken(b) && (v == "" || Breaks(v))
    ensures !Distinct(KeysOf(sql, Keyed(digest)))
  {
    hide StatementSplitter.Split, Uncommented;
    AfterMark(u, a, b, v);
    assert Normalize(u + "--" + a + v) == Normalize(u + "--" + b + v);
    assert KeysOf(sql, Keyed(digest))[i] == KeysOf(sql, Keyed(digest))[j];
  }
}
