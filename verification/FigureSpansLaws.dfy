/** Rewriting spans satisfies the comparison that checks them. */
module FigureSpansLaws {
  import opened Text
  import opened FigureSpans

  // ---- reading what was read ----

  lemma {:induction false} ParseShows(t: string)
    ensures Shown(Parse(t)) == t
    decreases |t|
  {
    hide SpanAtHead;
    if t != "" {
      var s := SpanAtHead(t);
      if s.Some? {
        ParseShows(t[|Show(s.value)|..]);
        assert Parse(t)[1..] == Parse(t[|Show(s.value)|..]);
        assert t == t[..|Show(s.value)|] + t[|Show(s.value)|..];
      } else {
        ParseShows(t[1..]);
        assert Parse(t)[1..] == Parse(t[1..]);
        assert t == [t[0]] + t[1..];
      }
    }
  }

  /** `a` and `b` agree up to `n`, where each ends or opens an angle bracket; between 0 and `n` there is none. */
  ghost predicate AgreeTo(a: string, b: string, n: nat) {
    && 1 <= n <= |a| && n <= |b| && (forall i | 0 <= i < n :: a[i] == b[i]) && (forall i | 0 < i < n :: a[i] != '<')
    && (n < |a| ==> a[n] == '<') && (n < |b| ==> b[n] == '<')
  }

  lemma {:induction false} IdRunAgrees(a: string, b: string, n: nat, i: nat)
    requires AgreeTo(a, b, n) && 1 <= i <= n
    ensures IdRun(a, i) == IdRun(b, i) <= n
    decreases n - i
  {
    if i < n && IdChar(a[i]) { IdRunAgrees(a, b, n, i + 1); }
  }

  /** The only place for an angle bracket in `p` is its beginning, and only when it is looked for at 0. */
  ghost predicate NoLaterAngle(p: string, i: nat) {
    p != "" && (i > 0 ==> p[0] != '<') && forall k | 0 < k < |p| :: p[k] != '<'
  }

  lemma OccursAgrees(a: string, b: string, n: nat, p: string, i: nat)
    requires AgreeTo(a, b, n) && i <= n && NoLaterAngle(p, i)
    ensures OccursAt(a, p, i) <==> OccursAt(b, p, i)
  {
    if i + |p| <= n {
      assert a[i..i + |p|] == b[i..i + |p|];
    } else {
      BeyondAgreement(a, b, n, p, i);
      forall k | 0 <= k < n ensures b[k] == a[k] && (0 < k ==> b[k] != '<') {}
      BeyondAgreement(b, a, n, p, i);
    }
  }

  lemma BeyondAgreement(a: string, b: string, n: nat, p: string, i: nat)
    requires AgreeTo(a, b, n) && i <= n < i + |p| && NoLaterAngle(p, i)
    ensures !OccursAt(a, p, i)
  {
    OccursElement(a, p, i, n - i);
  }

  /** A marker holds no angle bracket after its first character, so agreement decides it. */
  lemma HeaderAgrees(a: string, b: string, n: nat)
    requires AgreeTo(a, b, n)
    ensures Header(a) == Header(b) && Header(a) <= n
  {
    OccursAgrees(a, b, n, OPEN, 0);
    if OccursAt(a, OPEN, 0) {
      if |OPEN| > n { BeyondAgreement(a, b, n, OPEN, 0); }
      IdRunAgrees(a, b, n, |OPEN|);
      var j := IdRun(a, |OPEN|);
      OccursAgrees(a, b, n, MID, j);
      if j + |MID| > n { BeyondAgreement(a, b, n, MID, j); }
    }
  }

  // ---- the rewritten text reads as the rendered segments ----

  ghost predicate AngleFree(source: Source) {
    forall id | id in source.values :: '<' !in source.values[id] && '<' !in source.printed(source.values[id])
  }

  lemma NewBodyAngleFree(id: string, shown: string, source: Source)
    requires AngleFree(source)
    ensures NewBody(id, shown, source) == shown || '<' !in NewBody(id, shown, source)
  {
  }

  /** The first closing marker after a body without angle brackets is the one that follows it. */
  lemma CloseAfterPlain(x: string, body: string, rest: string)
    requires '<' !in body
    ensures FirstFrom(x + body + CLOSE + rest, CLOSE, |x|) == Some(|x| + |body|)
  {
    var t := x + body + CLOSE + rest;
    OccursMiddle(x + body, CLOSE, rest);
    forall i: int | |x| <= i < |x| + |body| ensures !OccursAt(t, CLOSE, i) {
      OccursElement(t, CLOSE, i, 0);
      assert t[i] == body[i - |x|];
    }
    FirstIs(t, CLOSE, |x|, |x| + |body|);
  }

  /** Changing what follows the closing marker does not change which one is first. */
  lemma CloseAfterSame(x: string, body: string, rest: string, other: string)
    requires FirstFrom(x + body + CLOSE + rest, CLOSE, |x|) == Some(|x| + |body|)
    ensures FirstFrom(x + body + CLOSE + other, CLOSE, |x|) == Some(|x| + |body|)
  {
    var s := x + body + CLOSE;
    OccursMiddle(x + body, CLOSE, other);
    forall i: int | |x| <= i < |x| + |body| ensures !OccursAt(s + other, CLOSE, i) {
      OccursPrefix(s, rest, CLOSE, i);
      OccursPrefix(s, other, CLOSE, i);
    }
    FirstIs(s + other, CLOSE, |x|, |x| + |body|);
  }

  predicate ValidId(id: string) {
    id != "" && forall i | 0 <= i < |id| :: IdChar(id[i])
  }

  function Marker(id: string): string { OPEN + id + MID }

  lemma {:induction false} IdRunIs(a: string, id: string, rest: string, i: nat)
    requires i <= |id| && (forall k | 0 <= k < |id| :: IdChar(id[k])) && (rest != "" ==> !IdChar(rest[0]))
    ensures IdRun(a + id + rest, |a| + i) == |a| + |id|
    decreases |id| - i
  {
    var t := a + id + rest;
    if i < |id| {
      assert t[|a| + i] == id[i];
      IdRunIs(a, id, rest, i + 1);
    } else if rest != "" {
      assert t[|a| + |id|] == rest[0];
    }
  }

  lemma HeaderRead(id: string, rest: string)
    requires ValidId(id)
    ensures Header(Marker(id) + rest) == |Marker(id)|
  {
    var t := Marker(id) + rest;
    assert t == OPEN + id + (MID + rest) && t == "" + OPEN + (id + MID + rest);
    OccursMiddle("", OPEN, id + MID + rest);
    OccursMiddle(OPEN + id, MID, rest);
    IdRunIs(OPEN, id, MID + rest, 0);
  }

  /** `t` begins with this span, whose closing marker is the first after its opening one. */
  ghost predicate BeginsWith(t: string, id: string, body: string, rest: string) {
    && ValidId(id) && t == Marker(id) + body + CLOSE + rest
    && FirstFrom(Marker(id) + body + CLOSE + rest, CLOSE, |Marker(id)|) == Some(|Marker(id)| + |body|)
  }

  lemma SliceMarker(id: string, u: string)
    ensures (Marker(id) + u)[|OPEN|..|Marker(id)| - |MID|] == id
  {
  }

  lemma SliceBody(m: string, body: string, u: string)
    ensures (m + body + u)[|m|..|m| + |body|] == body
  {
  }

  lemma SliceRest(x: string, u: string)
    ensures (x + u)[|x|..] == u && (x + u)[..|x|] == x
  {
  }

  lemma SpanRead(t: string, id: string, body: string, rest: string)
    requires BeginsWith(t, id, body, rest)
    ensures SpanAtHead(t) == Some(Span(id, body)) && t[|Show(Span(id, body))|..] == rest
  {
    var m := Marker(id);
    assert t == m + (body + CLOSE + rest) && t == m + body + (CLOSE + rest);
    HeaderRead(id, body + CLOSE + rest);
    SliceMarker(id, body + CLOSE + rest);
    SliceBody(m, body, CLOSE + rest);
    hide Header;
    assert SpanAtHead(t) == Some(Span(id, body));
    SliceRest(Show(Span(id, body)), rest);
  }

  lemma HeaderId(t: string)
    requires Header(t) > 0
    ensures ValidId(t[|OPEN|..Header(t) - |MID|])
  {
  }

  lemma SpanParts(t: string)
    requires SpanAtHead(t).Some?
    ensures var s := SpanAtHead(t).value;
            && ValidId(s.id) && |Marker(s.id)| == Header(t)
            && FirstFrom(t, CLOSE, Header(t)) == Some(Header(t) + |s.body|)
  {
    HeaderId(t);
    hide Header;
  }

  lemma SpanFound(t: string)
    requires SpanAtHead(t).Some?
    ensures var s := SpanAtHead(t).value; BeginsWith(t, s.id, s.body, t[|Show(s)|..])
  {
    hide SpanAtHead, Header, ValidId, FirstFrom;
    SpanParts(t);
    var s := SpanAtHead(t).value;
    var rest := t[|Show(s)|..];
    assert Show(s) == Marker(s.id) + s.body + CLOSE;
    assert t == Show(s) + rest;
    assert t == Marker(s.id) + s.body + CLOSE + rest;
  }

  function FirstAngle(t: string): (n: nat)
    ensures n <= |t| && (forall i | 0 <= i < n :: t[i] != '<') && (n < |t| ==> t[n] == '<')
  {
    if t == "" || t[0] == '<' then 0 else 1 + FirstAngle(t[1..])
  }

  lemma ShowBegins(s: Segment, rest: string)
    requires s.Span?
    ensures Show(s) + rest != "" && (Show(s) + rest)[0] == '<'
  {
    assert Show(s) == OPEN + (s.id + MID + s.body + CLOSE);
  }

  ghost predicate SameAngle(t: string, w: string) {
    var n := FirstAngle(t);
    n <= |w| && t[..n] == w[..n] && FirstAngle(w) == n && (n == |t| <==> n == |w|)
  }

  lemma SameAngleCons(c: char, t: string, w: string)
    requires SameAngle(t, w)
    ensures SameAngle([c] + t, [c] + w)
  {
    var n := FirstAngle(t);
    assert ([c] + t)[1..] == t && ([c] + w)[1..] == w;
    assert ([c] + t)[..n + 1] == [c] + t[..n] && ([c] + w)[..n + 1] == [c] + w[..n];
  }

  /** Up to its first angle bracket, a text and its rewriting are the same. */
  lemma {:induction false} AnglesAgree(t: string, source: Source)
    ensures SameAngle(t, RewriteSpans(t, source))
    decreases |t|
  {
    hide SpanAtHead, RewriteSpans, Show, Render;
    if t != "" {
      var s := SpanAtHead(t);
      RewrittenStep(t, source);
      if s.Some? {
        var rest := t[|Show(s.value)|..];
        assert t == t[..|Show(s.value)|] + rest;
        ShowBegins(s.value, rest);
        RenderBegins(s.value, source, RewriteSpans(rest, source));
      } else {
        AnglesAgree(t[1..], source);
        SameAngleCons(t[0], t[1..], RewriteSpans(t[1..], source));
        assert t == [t[0]] + t[1..];
      }
    } else {
      assert RewriteSpans(t, source) == "" by { EmptyRewritten(source); }
    }
  }

  lemma EmptyRewritten(source: Source)
    ensures RewriteSpans("", source) == ""
  {
  }

  lemma RenderBegins(s: Segment, source: Source, rest: string)
    requires s.Span?
    ensures Show(Render(s, source)) + rest != "" && (Show(Render(s, source)) + rest)[0] == '<'
  {
    ShowBegins(Render(s, source), rest);
  }

  lemma RewrittenStep(t: string, source: Source)
    requires t != ""
    ensures var s := SpanAtHead(t);
            if s.Some? then RewriteSpans(t, source) == Show(Render(s.value, source)) + RewriteSpans(t[|Show(s.value)|..], source)
            else RewriteSpans(t, source) == [t[0]] + RewriteSpans(t[1..], source)
  {
    hide SpanAtHead, Render;
    var s := SpanAtHead(t);
    var head := if s.Some? then s.value else Lit(t[0]);
    var rest := if s.Some? then Parse(t[|Show(s.value)|..]) else Parse(t[1..]);
    assert Parse(t) == [head] + rest;
    assert ([head] + rest)[1..] == rest;
    RenderLit(head, source);
  }

  lemma RenderLit(s: Segment, source: Source)
    ensures s.Lit? ==> Render(s, source) == s
  {
  }

  /** Without a closing marker there is no span, and rewriting changes nothing. */
  lemma {:induction false} NoCloseNoChange(t: string, source: Source)
    requires forall i: int :: !OccursAt(t, CLOSE, i)
    ensures RewriteSpans(t, source) == t
    decreases |t|
  {
    if t != "" {
      assert SpanAtHead(t) == None;
      RewrittenStep(t, source);
      forall i: int ensures !OccursAt(t[1..], CLOSE, i) {
        if i >= 0 { OccursSuffix(t, 1, CLOSE, i); }
      }
      NoCloseNoChange(t[1..], source);
    }
  }

  /** A place where the pattern does not match is not made to match by rewriting what follows. */
  lemma StillNoSpan(t: string, source: Source)
    requires t != "" && SpanAtHead(t) == None
    ensures SpanAtHead(RewriteSpans(t, source)) == None
  {
    var w := RewriteSpans(t, source);
    RewrittenStep(t, source);
    assert w == [t[0]] + RewriteSpans(t[1..], source);
    hide RewriteSpans;
    if t[0] != '<' {
      OccursElement(w, OPEN, 0, 0);
    } else {
      var n := 1 + FirstAngle(t[1..]);
      AnglesAgree(t[1..], source);
      AgreeFrom(t, w, n);
      HeaderAgrees(t, w, n);
      if Header(t) > 0 {
        NoCloseAfter(t, n);
        NoCloseNoChange(t[1..], source);
        assert w == t;
      }
    }
  }

  /** A marker that opens no span is followed by no closing marker at all. */
  lemma NoCloseAfter(t: string, n: nat)
    requires t != "" && SpanAtHead(t) == None && 0 < Header(t) <= n == 1 + FirstAngle(t[1..])
    ensures forall i: int :: !OccursAt(t[1..], CLOSE, i)
  {
    forall i: int ensures !OccursAt(t[1..], CLOSE, i) {
      if i >= 0 {
        OccursSuffix(t, 1, CLOSE, i);
        OccursElement(t[1..], CLOSE, i, 0);
      }
    }
  }

  lemma AgreeFrom(t: string, w: string, n: nat)
    requires t != "" && w != "" && t[0] == w[0] && SameAngle(t[1..], w[1..]) && n == 1 + FirstAngle(t[1..])
    ensures AgreeTo(t, w, n)
  {
    assert forall i | 0 < i < n :: t[i] == t[1..][..n - 1][i - 1] && w[i] == w[1..][..n - 1][i - 1];
    assert forall i | 0 < i < n :: t[i] == t[1..][i - 1];
    assert n < |t| ==> t[n] == t[1..][n - 1];
    assert n < |w| ==> w[n] == w[1..][n - 1];
  }

  /** The rewritten text reads as exactly the rendered segments: every marker and every literal stays where it was. */
  lemma {:induction false} RewrittenReads(t: string, source: Source)
    requires AngleFree(source)
    ensures Parse(RewriteSpans(t, source)) == RenderAll(Parse(t), source)
    decreases |t|
  {
    if t != "" {
      RewrittenStep(t, source);
      var s, w := SpanAtHead(t), RewriteSpans(t, source);
      if s.Some? {
        var rest := t[|Show(s.value)|..];
        SpanFound(t);
        RewrittenSpan(s.value, rest, source);
        RewrittenReads(rest, source);
        ParseStep(w, RewriteSpans(rest, source));
      } else {
        StillNoSpan(t, source);
        RewrittenReads(t[1..], source);
        assert w[1..] == RewriteSpans(t[1..], source);
      }
      RenderStep(t, source);
    }
  }

  lemma ParseStep(w: string, rest: string)
    requires SpanAtHead(w).Some? && w[|Show(SpanAtHead(w).value)|..] == rest
    ensures Parse(w) == [SpanAtHead(w).value] + Parse(rest)
  {
  }

  lemma RenderStep(t: string, source: Source)
    requires t != ""
    ensures var s := SpanAtHead(t);
            RenderAll(Parse(t), source) ==
            if s.Some? then [Render(s.value, source)] + RenderAll(Parse(t[|Show(s.value)|..]), source)
            else [Lit(t[0])] + RenderAll(Parse(t[1..]), source)
  {
    hide SpanAtHead;
  }

  lemma RewrittenSpan(s: Segment, rest: string, source: Source)
    requires AngleFree(source) && s.Span? && BeginsWith(Show(s) + rest, s.id, s.body, rest)
    ensures var w := Show(Render(s, source)) + RewriteSpans(rest, source);
            SpanAtHead(w) == Some(Render(s, source)) && w[|Show(Render(s, source))|..] == RewriteSpans(rest, source)
  {
    var body, other := NewBody(s.id, s.body, source), RewriteSpans(rest, source);
    NewBodyAngleFree(s.id, s.body, source);
    hide NewBody, RewriteSpans, SpanAtHead;
    NewSpanBegins(s.id, s.body, rest, body, other);
    SpanRead(Marker(s.id) + body + CLOSE + other, s.id, body, other);
  }

  /** A new body without angle brackets, or the old one, leaves its closing marker the first. */
  lemma NewSpanBegins(id: string, old_: string, rest: string, body: string, other: string)
    requires BeginsWith(Marker(id) + old_ + CLOSE + rest, id, old_, rest) && (body == old_ || '<' !in body)
    ensures BeginsWith(Marker(id) + body + CLOSE + other, id, body, other)
  {
    hide Marker;
    if body == old_ {
      CloseAfterSame(Marker(id), body, rest, other);
    } else {
      CloseAfterPlain(Marker(id), body, other);
    }
  }

  // ---- agreement with the source ----

  lemma {:induction false} NormalizeAppends(a: string, b: string)
    ensures Normalize(a + b) == Normalize(a) + Normalize(b)
  {
    if a == "" {
      assert a + b == b;
    } else {
      assert (a + b)[1..] == a[1..] + b;
      NormalizeAppends(a[1..], b);
    }
  }

  lemma {:induction false} NormalizeDigits(d: string)
    requires forall i | 0 <= i < |d| :: IsDigit(d[i])
    ensures Normalize(d) == d
  {
    if d != "" { NormalizeDigits(d[1..]); }
  }

  /** Thousands separators are invisible to the comparison. */
  lemma {:induction false} GroupNormalizes(d: string)
    requires forall i | 0 <= i < |d| :: IsDigit(d[i])
    ensures Normalize(Group(d)) == d
  {
    if |d| <= 3 {
      NormalizeDigits(d);
    } else {
      var head, tail := d[..|d| - 3], d[|d| - 3..];
      GroupNormalizes(head);
      NormalizeDigits(tail);
      assert Normalize(",") == "";
      assert Group(d) == Group(head) + "," + tail;
      hide Group, Normalize;
      NormalizeAppends(Group(head) + ",", tail);
      NormalizeAppends(Group(head), ",");
      assert head + "" == head;
      assert d == head + tail;
    }
  }

  lemma {:induction false} CanonOnlyShortens(v: string)
    requires AllDigits(v)
    ensures AllDigits(Canon(v)) && |Canon(v)| <= |v|
    ensures Canon(v) == v <==> CanonicalDecimal(v)
  {
    if |v| > 1 && v[0] == '0' { CanonOnlyShortens(v[1..]); }
  }

  /** The body agrees with the source value of its figure. */
  ghost predicate Agrees(s: Segment, source: Source)
    requires s.Span?
  {
    s.id in EXEMPT || s.id !in source.values || Normalize(s.body) == Normalize(source.values[s.id])
  }

  /** The source is written in digits and the span with separators, so the value is rendered as a number. */
  predicate AsNumber(s: Segment, source: Source)
    requires s.Span?
  {
    s.id !in EXEMPT && s.id in source.values && AllDigits(source.values[s.id]) && ',' in s.body
  }

  /** What the platform prints for the value, separators aside, is the value. */
  predicate PrintsBack(v: string, source: Source) {
    Normalize(source.printed(v)) == v
  }

  /** A rendered span agrees with its source except when a number is rendered that does not print back. */
  lemma RenderedAgrees(s: Segment, source: Source)
    requires s.Span?
    ensures Agrees(Render(s, source), source) <==> (AsNumber(s, source) ==> PrintsBack(source.values[s.id], source))
  {
    if AsNumber(s, source) { NormalizeDigits(source.values[s.id]); }
  }

  /** A short number prints back exactly when it has no leading zeros. */
  lemma ShortPrintsBack(v: string, source: Source)
    requires PrintsExactly(source.printed) && AllDigits(v) && |Canon(v)| <= EXACT_DIGITS
    ensures PrintsBack(v, source) <==> CanonicalDecimal(v)
  {
    CanonOnlyShortens(v);
    GroupNormalizes(Canon(v));
  }

  /**
   * Rewriting satisfies the checker: read back, the rewritten text has the same literals and markers in the same
   * order, and each span agrees with its source exactly when it was not rendered as a number that the platform does
   * not print back.
   */
  lemma RewriteSatisfiesChecker(t: string, source: Source, k: nat)
    requires AngleFree(source) && k < |Parse(t)|
    ensures var before, after := Parse(t), Parse(RewriteSpans(t, source));
            && |after| == |before|
            && (before[k].Lit? ==> after[k] == before[k])
            && (before[k].Span? ==>
                  && after[k].Span? && after[k].id == before[k].id
                  && (Agrees(after[k], source) <==>
                        (AsNumber(before[k], source) ==> PrintsBack(source.values[before[k].id], source))))
  {
    RewrittenReads(t, source);
    if Parse(t)[k].Span? { RenderedAgrees(Parse(t)[k], source); }
  }

  /** Grouping writes a separator exactly when there are more than three digits. */
  lemma CommaWhenLong(d: string)
    requires forall i | 0 <= i < |d| :: IsDigit(d[i])
    ensures ',' in Group(d) <==> |d| > 3
  {
    if |d| > 3 {
      assert Group(d)[|Group(d[..|d| - 3])|] == ',';
    }
  }

  /**
   * The span is written with separators, and its value printed without any and not as it stands: the span loses what
   * told the next rewrite to print it.
   */
  predicate Restless(s: Segment, source: Source) {
    && s.Span? && AsNumber(s, source)
    && ',' !in source.printed(source.values[s.id]) && source.printed(source.values[s.id]) != source.values[s.id]
  }

  /** For a short number that is one of three digits or fewer behind leading zeros. */
  lemma ShortRestless(s: Segment, source: Source)
    requires PrintsExactly(source.printed) && s.Span? && AsNumber(s, source)
    requires |Canon(source.values[s.id])| <= EXACT_DIGITS
    ensures Restless(s, source) <==>
            !CanonicalDecimal(source.values[s.id]) && |Canon(source.values[s.id])| <= 3
  {
    CanonOnlyShortens(source.values[s.id]);
    CommaWhenLong(Canon(source.values[s.id]));
  }

  lemma RenderTwice(s: Segment, source: Source)
    ensures Render(Render(s, source), source) == Render(s, source) <==> !Restless(s, source)
  {
    if s.Span? && s.id !in EXEMPT && s.id in source.values && AllDigits(source.values[s.id]) {
      assert ',' !in source.values[s.id];
    }
  }

  /** A second rewrite changes nothing exactly when no span is restless. */
  lemma RewriteIsFixpoint(t: string, source: Source)
    requires AngleFree(source)
    ensures RewriteSpans(RewriteSpans(t, source), source) == RewriteSpans(t, source) <==>
            forall k | 0 <= k < |Parse(t)| :: !Restless(Parse(t)[k], source)
  {
    hide Parse, Render, Restless, Shown;
    var once := RewriteSpans(t, source);
    var segs := RenderAll(Parse(t), source);
    RewrittenReads(t, source);
    RewrittenReads(once, source);
    forall k | 0 <= k < |segs| ensures RenderAll(segs, source)[k] == segs[k] <==> !Restless(Parse(t)[k], source) {
      RenderTwice(Parse(t)[k], source);
    }
    if forall k | 0 <= k < |segs| :: RenderAll(segs, source)[k] == segs[k] { assert RenderAll(segs, source) == segs; }
  }

  /**
   * With leading zeros a rewrite can fail its check and change again: the span of `007` written `1,0` becomes `7`,
   * and then `007`.
   */
  lemma LeadingZerosBreak(source: Source)
    requires source.values == map["n" := "007"] && PrintsExactly(source.printed)
    ensures !Agrees(Render(Span("n", "1,0"), source), source)
    ensures Render(Render(Span("n", "1,0"), source), source) != Render(Span("n", "1,0"), source)
  {
    assert "1,0"[1] == ',';
    assert Canon("007") == Canon("07") == Canon("7") == "7" by { assert "007"[1..] == "07" && "07"[1..] == "7"; }
    assert source.printed("007") == "7";
    assert Render(Span("n", "1,0"), source) == Span("n", "7");
    NormalizeDigits("7");
    NormalizeDigits("007");
  }

  /** A canonical number beyond 2^53 that is printed rounded fails the check. */
  lemma RoundingBreaks(source: Source)
    requires source.values == map["n" := "9007199254740993"]
    requires source.printed("9007199254740993") == Group("9007199254740992")
    ensures CanonicalDecimal(source.values["n"]) && !Agrees(Render(Span("n", "1,0"), source), source)
  {
    hide Group, Normalize, Render, Agrees, AllDigits;
    var v, w := "9007199254740993", "9007199254740992";
    SixteenDigits();
    GroupNormalizes(w);
    assert w[15] == '2' && v[15] == '3';
    assert "1,0"[1] == ',';
    RenderedAgrees(Span("n", "1,0"), source);
  }

  lemma SixteenDigits()
    ensures AllDigits("9007199254740993") && AllDigits("9007199254740992")
    ensures forall i | 0 <= i < |"9007199254740992"| :: IsDigit("9007199254740992"[i])
    ensures CanonicalDecimal("9007199254740993")
  {
  }
}
