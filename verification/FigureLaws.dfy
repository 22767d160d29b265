/** Spans, rewriting, masks and normal forms of scripts/check-published-figures.ts, written out on the text. */
module FigureLaws {
  import opened Text
  import opened FigureSpans
  import opened FigureSpansLaws
  import opened MarkedRegions
  import opened FigureChecker

  // ---- a span on the text ----

  predicate PlainId(id: string) {
    id != "" && forall k | 0 <= k < |id| :: 'a' <= id[k] <= 'z' || '0' <= id[k] <= '9' || id[k] == '_'
  }

  function Written(id: string, body: string): string {
    "<!--fig:" + id + "-->" + body + "<!--/fig-->"
  }

  /** No closing marker before the one that ends the span. */
  ghost predicate Closes(id: string, body: string) {
    FirstFrom(Written(id, body), "<!--/fig-->", |id| + 11) == Some(|id| + 11 + |body|)
  }

  lemma WrittenIs(id: string, body: string, rest: string)
    ensures Marker(id) + body + CLOSE + rest == Written(id, body) + rest && |Marker(id)| == |id| + 11
    ensures Show(Span(id, body)) == Written(id, body)
    ensures PlainId(id) <==> ValidId(id)
  {
  }

  lemma ClosesAnyhow(id: string, body: string, rest: string)
    ensures Closes(id, body) <==>
            FirstFrom(Marker(id) + body + CLOSE + rest, CLOSE, |Marker(id)|) == Some(|Marker(id)| + |body|)
  {
    hide FirstFrom, Marker;
    WrittenIs(id, body, "");
    WrittenIs(id, body, rest);
    assert Marker(id) + body + CLOSE + "" == Written(id, body);
    if Closes(id, body) {
      CloseAfterSame(Marker(id), body, "", rest);
    } else if FirstFrom(Marker(id) + body + CLOSE + rest, CLOSE, |Marker(id)|) == Some(|Marker(id)| + |body|) {
      CloseAfterSame(Marker(id), body, rest, "");
    }
  }

  /** A text begins with a span exactly when it is written so, and the span ends with the first closing marker. */
  lemma SpanMeans(t: string, id: string, body: string)
    ensures SpanAtHead(t) == Some(Span(id, body)) <==>
            PlainId(id) && Closes(id, body) && exists rest :: t == Written(id, body) + rest
  {
    hide SpanAtHead, Written, Closes, Marker, FirstFrom, PlainId, ValidId;
    if SpanAtHead(t) == Some(Span(id, body)) {
      SpanFound(t);
      var rest := t[|Show(Span(id, body))|..];
      WrittenIs(id, body, rest);
      ClosesAnyhow(id, body, rest);
    }
    if PlainId(id) && Closes(id, body) && exists rest :: t == Written(id, body) + rest {
      var rest :| t == Written(id, body) + rest;
      WrittenIs(id, body, rest);
      ClosesAnyhow(id, body, rest);
      SpanRead(t, id, body, rest);
    }
  }

  /** What a rewrite leaves in place of one span. */
  lemma SpanRewritten(id: string, shown: string, rest: string, source: Source)
    requires PlainId(id) && Closes(id, shown)
    ensures var kept := id == "quoted" || id == "historical" || id !in source.values;
            var number := !kept && source.values[id] != "" && (forall k | 0 <= k < |source.values[id]| :: '0' <= source.values[id][k] <= '9')
                          && ',' in shown;
            RewriteSpans(Written(id, shown) + rest, source)
            == Written(id, if kept then shown else if number then source.printed(source.values[id]) else source.values[id])
               + RewriteSpans(rest, source)
  {
    hide RewriteSpans, SpanAtHead, Closes;
    var t := Written(id, shown) + rest;
    SpanMeans(t, id, shown);
    WrittenIs(id, shown, rest);
    RewrittenStep(t, source);
    assert t[|Written(id, shown)|..] == rest;
    WrittenIs(id, NewBody(id, shown, source), "");
  }

  /** And of a character that begins none. */
  lemma OthersKept(c: char, rest: string, source: Source)
    requires forall id, body :: PlainId(id) && Closes(id, body) ==> forall r :: [c] + rest != Written(id, body) + r
    ensures RewriteSpans([c] + rest, source) == [c] + RewriteSpans(rest, source)
  {
    hide RewriteSpans, SpanAtHead, Closes, PlainId, Written;
    var t := [c] + rest;
    var s := SpanAtHead(t);
    if s.Some? { SpanMeans(t, s.value.id, s.value.body); }
    RewrittenStep(t, source);
    assert t[1..] == rest;
  }

  // ---- the normal form ----

  /** What the comparison does not see: commas, white space, and the marks of emphasis and of code. */
  predicate Unseen(c: char) { IsSpace(c) || c in ",*_`" }

  /** Normalising drops exactly these, wherever they stand. */
  lemma NormalizeDrops(a: string, c: char, b: string)
    ensures Normalize(a + [c] + b) == Normalize(a) + (if Unseen(c) then "" else [c]) + Normalize(b)
  {
    NormalizeAppends(a + [c], b);
    NormalizeAppends(a, [c]);
    assert [c][1..] == "";
    assert Normalize([c]) == if Unseen(c) then "" else [c];
  }

  // ---- the masks ----

  function Spaces(n: nat): (s: string)
    ensures |s| == n && forall i | 0 <= i < n :: s[i] == ' '
  {
    seq(n, _ => ' ')
  }

  const HISTORICAL := ("<!--fig:historical:start-->", "<!--fig:historical:end-->")
  const QUOTATION := ("<!--fig:quoted-->", "<!--/fig-->")

  lemma MarkersDiffer(x: string)
    ensures !OccursAt(HISTORICAL.0 + x, HISTORICAL.1, 0) && !OccursAt(HISTORICAL.1 + x, HISTORICAL.0, 0)
    ensures !OccursAt(QUOTATION.0 + x, QUOTATION.1, 0) && !OccursAt(QUOTATION.1 + x, QUOTATION.0, 0)
    ensures !OccursAt(QUOTATION.0 + x, HISTORICAL.0, 0) && !OccursAt(QUOTATION.1 + x, HISTORICAL.0, 0)
  {
    OccursElement(HISTORICAL.0 + x, HISTORICAL.1, 0, 19);
    OccursElement(HISTORICAL.1 + x, HISTORICAL.0, 0, 19);
    OccursElement(QUOTATION.0 + x, QUOTATION.1, 0, 4);
    OccursElement(QUOTATION.1 + x, QUOTATION.0, 0, 4);
    OccursElement(QUOTATION.0 + x, HISTORICAL.0, 0, 8);
    OccursElement(QUOTATION.1 + x, HISTORICAL.0, 0, 4);
  }

  lemma AreMarkers()
    ensures MarkerLike(HISTORICAL.0) && MarkerLike(HISTORICAL.1) && MarkerLike(QUOTATION.0) && MarkerLike(QUOTATION.1)
  {
  }

  /** In a text with one historical block that block alone is blanked out, markers included. */
  lemma HistoricalMasked(a: string, b: string, c: string)
    requires NoAngle(a) && NoAngle(b) && NoAngle(c)
    ensures MaskedText(WithBlock(a, HISTORICAL.0, b, HISTORICAL.1, c))
            == a + Spaces(|HISTORICAL.0| + |b| + |HISTORICAL.1|) + c
  {
    hide NoAngle, MarkerLike, Regions, Blanked;
    var t := WithBlock(a, HISTORICAL.0, b, HISTORICAL.1, c);
    AreMarkers();
    forall x: string ensures !OccursAt(HISTORICAL.0 + x, HISTORICAL.1, 0) && !OccursAt(HISTORICAL.1 + x, HISTORICAL.0, 0) {
      MarkersDiffer(x);
    }
    OneBlock(a, HISTORICAL.0, b, HISTORICAL.1, c);
    OneBlanked(a, HISTORICAL.0 + b + HISTORICAL.1, c);
    assert t == a + (HISTORICAL.0 + b + HISTORICAL.1) + c;
    var once := a + Spaces(|HISTORICAL.0| + |b| + |HISTORICAL.1|) + c;
    NothingQuoted(once) by { PlainAround(a, |HISTORICAL.0| + |b| + |HISTORICAL.1|, c); }
  }

  lemma PlainAround(a: string, n: nat, c: string)
    requires NoAngle(a) && NoAngle(c)
    ensures NoAngle(a + Spaces(n) + c)
  {
  }

  lemma NothingQuoted(t: string)
    requires NoAngle(t)
    ensures Blanked(t, Regions(t, QUOTED_START, CLOSE, 0)) == t
  {
    forall i: nat ensures !OccursAt(t, QUOTED_START, i) { OccursElement(t, QUOTED_START, i, 0); }
    RegionsEnd(t, QUOTED_START, CLOSE, 0);
  }

  lemma OneBlanked(a: string, x: string, c: string)
    ensures Blanked(a + x + c, [Region(|a|, |a| + |x|)]) == a + Spaces(|x|) + c
  {
    var rs := [Region(|a|, |a| + |x|)];
    forall i | 0 <= i < |a + x + c| ensures Within(rs, i) <==> |a| <= i < |a| + |x| {
      assert rs[0] == Region(|a|, |a| + |x|);
    }
  }

  /** And likewise one quoted figure. */
  lemma QuotedMasked(a: string, b: string, c: string)
    requires NoAngle(a) && NoAngle(b) && NoAngle(c)
    ensures MaskedText(WithBlock(a, QUOTATION.0, b, QUOTATION.1, c)) == a + Spaces(|QUOTATION.0| + |b| + |QUOTATION.1|) + c
  {
    hide NoAngle, MarkerLike, Regions, Blanked;
    var t := WithBlock(a, QUOTATION.0, b, QUOTATION.1, c);
    AreMarkers();
    forall x: string ensures !OccursAt(QUOTATION.0 + x, QUOTATION.1, 0) && !OccursAt(QUOTATION.1 + x, QUOTATION.0, 0) {
      MarkersDiffer(x);
    }
    NotHistorical(a, b, c);
    RegionsEnd(t, HISTORICAL_START, HISTORICAL_END, 0);
    assert Blanked(t, []) == t by { NothingMasked(t); MaskedIs(t); }
    OneBlock(a, QUOTATION.0, b, QUOTATION.1, c);
    OneBlanked(a, QUOTATION.0 + b + QUOTATION.1, c);
    assert t == a + (QUOTATION.0 + b + QUOTATION.1) + c;
  }

  lemma MaskedIs(t: string)
    requires Masking(t, t, [], 0)
    ensures Blanked(t, []) == t
  {
  }

  lemma NotHistorical(a: string, b: string, c: string)
    requires NoAngle(a) && NoAngle(b) && NoAngle(c)
    ensures FirstFrom(WithBlock(a, QUOTATION.0, b, QUOTATION.1, c), HISTORICAL_START, 0) == None
  {
    hide NoAngle, MarkerLike, WithBlock;
    var t, n, m := WithBlock(a, QUOTATION.0, b, QUOTATION.1, c), |a|, |a| + |QUOTATION.0| + |b|;
    AreMarkers();
    NotAtMarkers(a, b, c);
    forall i: nat ensures !OccursAt(t, HISTORICAL_START, i) {
      AnglesOf(a, QUOTATION.0, b, QUOTATION.1, c, i);
      OccursElement(t, HISTORICAL_START, i, 0);
    }
  }

  lemma NotAtMarkers(a: string, b: string, c: string)
    ensures var t := WithBlock(a, QUOTATION.0, b, QUOTATION.1, c);
            !OccursAt(t, HISTORICAL_START, |a|) && !OccursAt(t, HISTORICAL_START, |a| + |QUOTATION.0| + |b|)
  {
    NotAt(a, QUOTATION.0, b + QUOTATION.1 + c);
    assert WithBlock(a, QUOTATION.0, b, QUOTATION.1, c) == a + (QUOTATION.0 + (b + QUOTATION.1 + c));
    NotAt(a + QUOTATION.0 + b, QUOTATION.1, c);
    assert WithBlock(a, QUOTATION.0, b, QUOTATION.1, c) == a + QUOTATION.0 + b + (QUOTATION.1 + c);
  }

  lemma NotAt(a: string, mark: string, x: string)
    requires mark == QUOTATION.0 || mark == QUOTATION.1
    ensures !OccursAt(a + (mark + x), HISTORICAL_START, |a|)
  {
    assert (a + (mark + x))[|a|..] == mark + x;
    MarkersDiffer(x);
    OccursSuffix(a + (mark + x), |a|, HISTORICAL_START, 0);
  }
}
