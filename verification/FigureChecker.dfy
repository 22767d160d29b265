/** `maskExempt` and the comparison limbs of `figureProblems` in scripts/check-published-figures.ts. */
module FigureChecker {
  import opened Text
  import opened FigureSpans
  import opened FigureSpansLaws
  import opened MarkedRegions

  const HISTORICAL_START: string := "<!--fig:historical:start-->"
  const HISTORICAL_END: string := "<!--fig:historical:end-->"
  const QUOTED_START: string := "<!--fig:quoted-->"

  // ---- masking ----

  predicate Within(rs: seq<Region>, i: nat) {
    exists k | 0 <= k < |rs| :: rs[k].from <= i < rs[k].to
  }

  /** `t` with every region replaced by as many spaces. */
  function Blanked(t: string, rs: seq<Region>): (m: string)
    ensures |m| == |t| && forall i | 0 <= i < |t| :: m[i] == if Within(rs, i) then ' ' else t[i]
  {
    seq(|t|, i requires 0 <= i < |t| => if Within(rs, i) then ' ' else t[i])
  }

  /** `masked` with the characters from `start` to `stop` replaced by spaces. */
  function BlankRange(masked: string, start: nat, stop: nat): (next: string)
    requires start <= stop <= |masked|
    ensures |next| == |masked|
    ensures forall i | 0 <= i < |masked| :: next[i] == if start <= i < stop then ' ' else masked[i]
  {
    masked[..start] + seq(stop - start, _ => ' ') + masked[stop..]
  }

  /** The loop's state: regions masked so far, nothing left before `from`, and the text untouched after it. */
  ghost predicate Masking(text: string, masked: string, done: seq<Region>, from: nat) {
    && from <= |text| && masked == Blanked(text, done)
    && (forall i | from <= i < |text| :: masked[i] == text[i])
    && (forall i | 0 <= i < from :: !OccursAt(masked, HISTORICAL_START, i))
    && done + Regions(text, HISTORICAL_START, HISTORICAL_END, from) == Regions(text, HISTORICAL_START, HISTORICAL_END, 0)
  }

  /** The historical loop: mask one region, look again from the start, stop when there is none. */
  method MaskHistorical(text: string) returns (masked: string, regions: nat)
    ensures masked == Blanked(text, Regions(text, HISTORICAL_START, HISTORICAL_END, 0))
    ensures regions == |Regions(text, HISTORICAL_START, HISTORICAL_END, 0)|
  {
    masked, regions := text, 0;
    ghost var done: seq<Region>, from: nat := [], 0;
    NothingMasked(text);
    hide Masking, BlankRange, Blanked;
    while true
      invariant Masking(text, masked, done, from) && regions == |done|
      decreases |text| - from
    {
      SearchesAgree(text, masked, done, from);
      MaskingBounds(text, masked, done, from);
      var start := FirstFrom(masked, HISTORICAL_START, 0);
      if start.None? { break; }
      var end := FirstFrom(masked, HISTORICAL_END, start.value);
      if end.None? { break; }
      var stop := end.value + |HISTORICAL_END|;
      MaskStep(text, masked, done, from, start.value, stop);
      done := done + [Region(start.value, stop)];
      masked, regions, from := BlankRange(masked, start.value, stop), regions + 1, stop;
    }
    MaskedAll(text, masked, done, from);
  }

  lemma NothingMasked(text: string)
    ensures Masking(text, text, [], 0)
  {
    assert Blanked(text, []) == text;
  }

  lemma MaskedAll(text: string, masked: string, done: seq<Region>, from: nat)
    requires Masking(text, masked, done, from) && Regions(text, HISTORICAL_START, HISTORICAL_END, from) == []
    ensures done == Regions(text, HISTORICAL_START, HISTORICAL_END, 0) && masked == Blanked(text, done)
  {
    assert done + [] == done;
  }

  lemma MaskingBounds(text: string, masked: string, done: seq<Region>, from: nat)
    requires Masking(text, masked, done, from)
    ensures from <= |text| == |masked|
  {
  }

  lemma SameFrom(masked: string, text: string, p: string, from: nat, i: int)
    requires |masked| == |text| && (forall k | from <= k < |text| :: masked[k] == text[k]) && from <= i
    ensures OccursAt(masked, p, i) <==> OccursAt(text, p, i)
  {
    if i + |p| <= |text| { OccursSame(masked, text, p, i); }
  }

  /** Searching the masked text from its start finds what searching the original from `from` finds. */
  lemma SearchesAgree(text: string, masked: string, done: seq<Region>, from: nat)
    requires Masking(text, masked, done, from)
    ensures FirstFrom(masked, HISTORICAL_START, 0) == FirstFrom(text, HISTORICAL_START, from)
    ensures forall at: nat | from <= at :: FirstFrom(masked, HISTORICAL_END, at) == FirstFrom(text, HISTORICAL_END, at)
  {
    forall i: int | from <= i ensures OccursAt(masked, HISTORICAL_START, i) <==> OccursAt(text, HISTORICAL_START, i) {
      SameFrom(masked, text, HISTORICAL_START, from, i);
    }
    forall i: int | from <= i ensures OccursAt(masked, HISTORICAL_END, i) <==> OccursAt(text, HISTORICAL_END, i) {
      SameFrom(masked, text, HISTORICAL_END, from, i);
    }
    var r := FirstFrom(text, HISTORICAL_START, from);
    if r.Some? { FirstIs(masked, HISTORICAL_START, 0, r.value); }
    forall at: nat | from <= at ensures FirstFrom(masked, HISTORICAL_END, at) == FirstFrom(text, HISTORICAL_END, at) {
      var e := FirstFrom(text, HISTORICAL_END, at);
      if e.Some? { FirstIs(masked, HISTORICAL_END, at, e.value); }
    }
  }

  lemma MaskStep(text: string, masked: string, done: seq<Region>, from: nat, start: nat, stop: nat)
    requires Masking(text, masked, done, from)
    requires FirstFrom(text, HISTORICAL_START, from) == Some(start) == FirstFrom(masked, HISTORICAL_START, 0)
    requires stop >= |HISTORICAL_END| && FirstFrom(text, HISTORICAL_END, start) == Some(stop - |HISTORICAL_END|)
    ensures Masking(text, BlankRange(masked, start, stop), done + [Region(start, stop)], stop)
  {
    hide FirstFrom;
    var next := BlankRange(masked, start, stop);
    BlankOne(text, masked, done, start, stop);
    StartHasNoSpace();
    NothingBefore(masked, next, HISTORICAL_START, start, stop);
    var rest := Regions(text, HISTORICAL_START, HISTORICAL_END, stop);
    assert Regions(text, HISTORICAL_START, HISTORICAL_END, from) == [Region(start, stop)] + rest;
    assert done + ([Region(start, stop)] + rest) == done + [Region(start, stop)] + rest;
  }

  lemma WithinOneMore(rs: seq<Region>, r: Region, i: nat)
    ensures Within(rs + [r], i) <==> Within(rs, i) || r.from <= i < r.to
  {
    var more := rs + [r];
    assert more[|rs|] == r;
    assert forall k | 0 <= k < |rs| :: more[k] == rs[k];
  }

  lemma BlankOne(text: string, masked: string, done: seq<Region>, start: nat, stop: nat)
    requires masked == Blanked(text, done) && start <= stop <= |text|
    ensures BlankRange(masked, start, stop) == Blanked(text, done + [Region(start, stop)])
  {
    hide Within, BlankRange, Blanked;
    var next, all := BlankRange(masked, start, stop), Blanked(text, done + [Region(start, stop)]);
    forall i | 0 <= i < |text| ensures next[i] == all[i] { WithinOneMore(done, Region(start, stop), i); }
  }

  lemma StartHasNoSpace()
    ensures forall k | 0 <= k < |HISTORICAL_START| :: HISTORICAL_START[k] != ' '
  {
  }

  /** Where the marker holds no space, masking its first occurrence leaves none beginning before the mask's end. */
  lemma NothingBefore(masked: string, next: string, p: string, start: nat, stop: nat)
    requires p != "" && (forall k | 0 <= k < |p| :: p[k] != ' ')
    requires start < stop <= |masked| && (forall i | 0 <= i < start :: !OccursAt(masked, p, i))
    requires next == BlankRange(masked, start, stop)
    ensures forall i | 0 <= i < stop :: !OccursAt(next, p, i)
  {
    hide BlankRange;
    forall i | 0 <= i < stop ensures !OccursAt(next, p, i) {
      if i >= start {
        OccursElement(next, p, i, 0);
      } else if i + |p| <= start {
        OccursSame(masked, next, p, i);
      } else {
        OccursElement(next, p, i, start - i);
      }
    }
  }

  /** Both masks: the historical blocks, then each inline quoted figure of what is left. */
  method MaskExempt(text: string) returns (masked: string, regions: nat, quoted: nat)
    ensures var h := Regions(text, HISTORICAL_START, HISTORICAL_END, 0);
            var once := Blanked(text, h);
            var q := Regions(once, QUOTED_START, CLOSE, 0);
            masked == Blanked(once, q) && regions == |h| && quoted == |q|
  {
    var once;
    once, regions := MaskHistorical(text);
    var q := Regions(once, QUOTED_START, CLOSE, 0);
    masked, quoted := Blanked(once, q), |q|;
  }

  /**
   * Masking preserves length and offsets: each character is a space inside a historical block, or inside a quoted
   * figure of what is left, and itself everywhere else.
   */
  lemma MaskingPreservesOffsets(text: string, i: nat)
    requires i < |text|
    ensures var h := Regions(text, HISTORICAL_START, HISTORICAL_END, 0);
            var once := Blanked(text, h);
            var q := Regions(once, QUOTED_START, CLOSE, 0);
            && Blocks(text, HISTORICAL_START, HISTORICAL_END, 0, h) && Blocks(once, QUOTED_START, CLOSE, 0, q)
            && |Blanked(once, q)| == |text|
            && Blanked(once, q)[i] == if Within(h, i) || Within(q, i) then ' ' else text[i]
  {
    hide Regions, Blocks;
    var once := Blanked(text, Regions(text, HISTORICAL_START, HISTORICAL_END, 0));
    RegionsAreBlocks(text, HISTORICAL_START, HISTORICAL_END, 0);
    RegionsAreBlocks(once, QUOTED_START, CLOSE, 0);
  }

  // ---- comparison ----

  /** One place a figure is published: in a span, or where a restatement rule matched. */
  datatype Occurrence = Occurrence(file: string, id: string, shown: string, spanned: bool)

  datatype Document = Document(file: string, text: string)

  /** A figure that no gate can derive, and the label that must stand wherever it is published. */
  datatype Uncheckable = Uncheckable(id: string, caption: string, files: set<string>)

  /** What the restatement rules match in a masked text: a figure and the value shown, match by match. */
  type Rules = string -> seq<(string, string)>

  datatype Problem = Unregistered(file: string, id: string) | Disagrees(file: string, id: string, shown: string)
                   | Divided(id: string) | Unlabelled(file: string, id: string)

  function SpansOf(file: string, segs: seq<Segment>): seq<Occurrence> {
    if segs == [] then []
    else
      SpansOf(file, segs[..|segs| - 1])
      + match segs[|segs| - 1]
        case Lit(_) => []
        case Span(id, body) => if id in EXEMPT then [] else [Occurrence(file, id, body, true)]
  }

  function Restated(file: string, found: seq<(string, string)>): seq<Occurrence> {
    seq(|found|, i requires 0 <= i < |found| => Occurrence(file, found[i].0, found[i].1, false))
  }

  function MaskedText(text: string): string {
    var once := Blanked(text, Regions(text, HISTORICAL_START, HISTORICAL_END, 0));
    Blanked(once, Regions(once, QUOTED_START, CLOSE, 0))
  }

  /** Spans are read in the document itself, restatements in its masked text. */
  function OccurrencesIn(d: Document, rules: Rules): seq<Occurrence> {
    SpansOf(d.file, Parse(d.text)) + Restated(d.file, rules(MaskedText(d.text)))
  }

  function Published(docs: seq<Document>, rules: Rules): seq<Occurrence> {
    if docs == [] then [] else Published(docs[..|docs| - 1], rules) + OccurrencesIn(docs[|docs| - 1], rules)
  }

  predicate Recorded(o: Occurrence, known: set<string>) { o.spanned ==> o.id in known }

  predicate Matches(o: Occurrence, values: map<string, string>) {
    o.id in values ==> Normalize(o.shown) == Normalize(values[o.id])
  }

  function ProblemOf(o: Occurrence, values: map<string, string>, known: set<string>): seq<Problem> {
    if !Recorded(o, known) then [Unregistered(o.file, o.id)]
    else if !Matches(o, values) then [Disagrees(o.file, o.id, o.shown)]
    else []
  }

  /** The normalised values at which each figure is published. */
  function Seen(os: seq<Occurrence>, known: set<string>, id: string): set<string> {
    set o | o in os && o.id == id && Recorded(o, known) :: Normalize(o.shown)
  }

  /**
   * The figure stands in some document: in a span whose name is no mask's, or where a restatement rule matched the text
   * outside the masks.
   */
  ghost predicate Appears(o: Occurrence, docs: seq<Document>, rules: Rules) {
    exists d | d in docs :: d.file == o.file &&
      if o.spanned then o.id != "quoted" && o.id != "historical" && Span(o.id, o.shown) in Parse(d.text)
      else (o.id, o.shown) in rules(MaskedText(d.text))
  }

  /** A figure shown where its span, if it has one, is registered. */
  ghost predicate Shows(o: Occurrence, id: string, docs: seq<Document>, known: set<string>, rules: Rules) {
    Appears(o, docs, rules) && o.id == id && (o.spanned ==> id in known)
  }

  /** What each reported problem means. */
  ghost predicate Problematic(p: Problem, docs: seq<Document>, values: map<string, string>, known: set<string>,
                              rules: Rules, uncheckable: seq<Uncheckable>) {
    match p
    case Unregistered(file, id) => id !in known && exists o :: Appears(o, docs, rules) && o.file == file && o.id == id && o.spanned
    case Disagrees(file, id, shown) =>
      && id in values && Normalize(shown) != Normalize(values[id])
      && exists o :: Shows(o, id, docs, known, rules) && o.file == file && o.shown == shown
    case Divided(id) =>
      && id !in values
      && exists o, q :: Shows(o, id, docs, known, rules) && Shows(q, id, docs, known, rules)
                        && Normalize(o.shown) != Normalize(q.shown)
    case Unlabelled(file, id) =>
      exists u, d | u in uncheckable && d in docs :: u.id == id && d.file == file && file in u.files && !Contains(d.text, u.caption)
  }

  predicate Lacks(u: Uncheckable, d: Document) {
    d.file in u.files && FirstFrom(d.text, u.caption, 0).None?
  }

  // ---- what is published ----

  lemma RestatedRead(file: string, found: seq<(string, string)>, o: Occurrence)
    ensures o in Restated(file, found) <==> o.file == file && !o.spanned && (o.id, o.shown) in found
  {
    if o.file == file && !o.spanned && (o.id, o.shown) in found {
      var i :| 0 <= i < |found| && found[i] == (o.id, o.shown);
      assert Restated(file, found)[i] == o;
    }
  }

  lemma SpanOccurrence(file: string, segs: seq<Segment>, o: Occurrence)
    ensures o in SpansOf(file, segs) <==>
            o.file == file && o.spanned && o.id != "quoted" && o.id != "historical" && Span(o.id, o.shown) in segs
  {
    SpansOfRead(file, segs, o);
    if Span(o.id, o.shown) in segs {
      var k :| 0 <= k < |segs| && segs[k] == Span(o.id, o.shown);
    }
  }

  lemma {:induction false} PublishedMeans(docs: seq<Document>, rules: Rules, o: Occurrence)
    ensures o in Published(docs, rules) <==> Appears(o, docs, rules)
  {
    hide Parse, MaskedText, SpansOf, Restated;
    if docs != [] {
      var n := |docs| - 1;
      var d := docs[n];
      PublishedMeans(docs[..n], rules, o);
      SpanOccurrence(d.file, Parse(d.text), o);
      RestatedRead(d.file, rules(MaskedText(d.text)), o);
      assert docs == docs[..n] + [d];
    }
  }

  // ---- what is reported ----

  /** Of one occurrence at most one problem is reported: an unregistered span before a value that is not the source's. */
  lemma ProblemOfMeans(o: Occurrence, p: Problem, values: map<string, string>, known: set<string>)
    ensures p in ProblemOf(o, values, known) <==>
            || (p == Unregistered(o.file, o.id) && o.spanned && o.id !in known)
            || (p == Disagrees(o.file, o.id, o.shown) && (o.spanned ==> o.id in known) && o.id in values
                && Normalize(o.shown) != Normalize(values[o.id]))
  {
    hide Normalize;
  }

  lemma SeenTwice(os: seq<Occurrence>, known: set<string>, id: string)
    ensures |Seen(os, known, id)| > 1 <==>
            exists o, q | o in os && q in os :: o.id == id == q.id && (o.spanned ==> id in known) && (q.spanned ==> id in known)
                                                && Normalize(o.shown) != Normalize(q.shown)
  {
    hide Normalize;
    var seen := Seen(os, known, id);
    if |seen| > 1 {
      var a :| a in seen;
      var rest := seen - {a};
      assert |rest| > 0;
      var b :| b in rest;
      var o :| o in os && o.id == id && Recorded(o, known) && Normalize(o.shown) == a;
      var q :| q in os && q.id == id && Recorded(q, known) && Normalize(q.shown) == b;
    }
    if o, q :| o in os && q in os && o.id == id == q.id && Recorded(o, known) && Recorded(q, known)
               && Normalize(o.shown) != Normalize(q.shown) {
      var both := {Normalize(o.shown), Normalize(q.shown)};
      assert both <= seen;
      SubsetSize(both, seen);
    }
  }

  lemma {:induction false} SubsetSize(a: set<string>, b: set<string>)
    requires a <= b
    ensures |a| <= |b|
  {
    if a != {} {
      var x :| x in a;
      SubsetSize(a - {x}, b - {x});
    }
  }

  /** The problems reported are exactly the real ones. */
  method FigureProblems(docs: seq<Document>, values: map<string, string>, known: set<string>, rules: Rules,
                        uncheckable: seq<Uncheckable>)
    returns (problems: seq<Problem>)
    ensures forall p :: p in problems <==> Problematic(p, docs, values, known, rules, uncheckable)
  {
    hide Published, Lacks, Seen, ProblemOf, Problematic;
    var all := ReadDocuments(docs, rules);
    var compared, ids := CompareOccurrences(all, values, known);
    var divided := DividedIds(all, values, known, ids);
    var unlabelled := UnlabelledFigures(docs, uncheckable);
    problems := compared + divided + unlabelled;
    forall p ensures p in problems <==> Problematic(p, docs, values, known, rules, uncheckable) {
      match p
      case Unregistered(_, _) => ComparedMeans(all, p, docs, values, known, rules, uncheckable);
      case Disagrees(_, _, _) => ComparedMeans(all, p, docs, values, known, rules, uncheckable);
      case Divided(id) => DividedMeans(all, id, ids, docs, values, known, rules, uncheckable);
                          KindsOf(all, p, values, known);
      case Unlabelled(_, _) => UnlabelledMeans(p, docs, values, known, rules, uncheckable);
                               KindsOf(all, p, values, known);
    }
  }

  lemma KindsOf(all: seq<Occurrence>, p: Problem, values: map<string, string>, known: set<string>)
    requires p.Divided? || p.Unlabelled?
    ensures forall o | o in all :: p !in ProblemOf(o, values, known)
  {
  }

  lemma ComparedMeans(all: seq<Occurrence>, p: Problem, docs: seq<Document>, values: map<string, string>, known: set<string>,
                      rules: Rules, uncheckable: seq<Uncheckable>)
    requires all == Published(docs, rules) && (p.Unregistered? || p.Disagrees?)
    ensures (exists o | o in all :: p in ProblemOf(o, values, known)) <==>
            Problematic(p, docs, values, known, rules, uncheckable)
  {
    hide Published, Appears, ProblemOf, Normalize;
    forall o ensures (o in all <==> Appears(o, docs, rules)) { PublishedMeans(docs, rules, o); }
    forall o ensures p in ProblemOf(o, values, known) <==>
            || (p == Unregistered(o.file, o.id) && o.spanned && o.id !in known)
            || (p == Disagrees(o.file, o.id, o.shown) && (o.spanned ==> o.id in known) && o.id in values
                && Normalize(o.shown) != Normalize(values[o.id]))
    {
      ProblemOfMeans(o, p, values, known);
    }
  }

  lemma DividedMeans(all: seq<Occurrence>, id: string, ids: set<string>, docs: seq<Document>, values: map<string, string>,
                     known: set<string>, rules: Rules, uncheckable: seq<Uncheckable>)
    requires all == Published(docs, rules) && ids == set o | o in all && Recorded(o, known) :: o.id
    ensures id in ids && id !in values && |Seen(all, known, id)| > 1 <==>
            Problematic(Divided(id), docs, values, known, rules, uncheckable)
  {
    hide Published, Appears, Normalize, Seen;
    forall o ensures (o in all <==> Appears(o, docs, rules)) { PublishedMeans(docs, rules, o); }
    SeenTwice(all, known, id);
  }

  lemma UnlabelledMeans(p: Problem, docs: seq<Document>, values: map<string, string>, known: set<string>, rules: Rules,
                        uncheckable: seq<Uncheckable>)
    requires p.Unlabelled?
    ensures (exists u, d | u in uncheckable && d in docs :: Lacks(u, d) && p == Unlabelled(d.file, u.id)) <==>
            Problematic(p, docs, values, known, rules, uncheckable)
  {
    forall u: Uncheckable, d: Document ensures FirstFrom(d.text, u.caption, 0).Some? <==> Contains(d.text, u.caption) {
      SearchDecides(d.text, u.caption);
    }
  }

  method ReadDocuments(docs: seq<Document>, rules: Rules) returns (all: seq<Occurrence>)
    ensures all == Published(docs, rules)
  {
    hide SpansOf, Restated, Parse, Blanked, Regions;
    all := [];
    for n := 0 to |docs|
      invariant all == Published(docs[..n], rules)
    {
      var masked, _, _ := MaskExempt(docs[n].text);
      assert masked == MaskedText(docs[n].text);
      all := all + (SpansOf(docs[n].file, Parse(docs[n].text)) + Restated(docs[n].file, rules(masked)));
      assert docs[..n + 1][..n] == docs[..n];
    }
    assert docs[..|docs|] == docs;
  }

  /** Each occurrence against the registry and the source; the figures recorded are what the next limb goes through. */
  method CompareOccurrences(all: seq<Occurrence>, values: map<string, string>, known: set<string>)
    returns (problems: seq<Problem>, ids: set<string>)
    ensures forall p :: p in problems <==> exists o | o in all :: p in ProblemOf(o, values, known)
    ensures ids == set o | o in all && Recorded(o, known) :: o.id
  {
    hide ProblemOf, Recorded;
    problems, ids := [], {};
    for n := 0 to |all|
      invariant forall p :: p in problems <==> exists o | o in all[..n] :: p in ProblemOf(o, values, known)
      invariant ids == set o | o in all[..n] && Recorded(o, known) :: o.id
    {
      assert all[..n + 1] == all[..n] + [all[n]];
      problems := problems + ProblemOf(all[n], values, known);
      if Recorded(all[n], known) { ids := ids + {all[n].id}; }
    }
    assert all[..|all|] == all;
  }

  /** Figures without a source that are published at two values. */
  method DividedIds(all: seq<Occurrence>, values: map<string, string>, known: set<string>, ids: set<string>)
    returns (problems: seq<Problem>)
    ensures forall p :: p in problems <==> p.Divided? && p.id in ids && p.id !in values && |Seen(all, known, p.id)| > 1
  {
    hide Seen;
    problems := [];
    var left := ids;
    while left != {}
      invariant left <= ids
      invariant forall p :: p in problems <==>
                  p.Divided? && p.id in ids && p.id !in left && p.id !in values && |Seen(all, known, p.id)| > 1
      decreases left
    {
      var id :| id in left;
      left := left - {id};
      if id !in values && |Seen(all, known, id)| > 1 {
        problems := problems + [Divided(id)];
      }
    }
  }

  method UnlabelledFigures(docs: seq<Document>, uncheckable: seq<Uncheckable>) returns (problems: seq<Problem>)
    ensures forall p :: p in problems <==>
              exists u, d | u in uncheckable && d in docs :: Lacks(u, d) && p == Unlabelled(d.file, u.id)
  {
    hide Lacks;
    problems := [];
    for n := 0 to |uncheckable|
      invariant forall p :: p in problems <==>
                  exists u, d | u in uncheckable[..n] && d in docs :: Lacks(u, d) && p == Unlabelled(d.file, u.id)
    {
      var mine := UnlabelledIn(docs, uncheckable[n]);
      assert uncheckable[..n + 1] == uncheckable[..n] + [uncheckable[n]];
      problems := problems + mine;
    }
    assert uncheckable[..|uncheckable|] == uncheckable;
  }

  method UnlabelledIn(docs: seq<Document>, u: Uncheckable) returns (problems: seq<Problem>)
    ensures forall p :: p in problems <==> exists d | d in docs :: Lacks(u, d) && p == Unlabelled(d.file, u.id)
  {
    hide Lacks;
    problems := [];
    for n := 0 to |docs|
      invariant forall p :: p in problems <==> exists d | d in docs[..n] :: Lacks(u, d) && p == Unlabelled(d.file, u.id)
    {
      assert docs[..n + 1] == docs[..n] + [docs[n]];
      if Lacks(u, docs[n]) { problems := problems + [Unlabelled(docs[n].file, u.id)]; }
    }
    assert docs[..|docs|] == docs;
  }

  lemma {:induction false} SpansOfRead(file: string, segs: seq<Segment>, o: Occurrence)
    ensures o in SpansOf(file, segs) <==>
            exists k :: 0 <= k < |segs| && segs[k].Span? && segs[k].id !in EXEMPT
                        && o == Occurrence(file, segs[k].id, segs[k].body, true)
  {
    if segs != [] {
      var front, last := segs[..|segs| - 1], segs[|segs| - 1];
      SpansOfRead(file, front, o);
      assert forall k | 0 <= k < |front| :: segs[k] == front[k];
    }
  }

  lemma SameShape(t: string, source: Source)
    requires AngleFree(source)
    ensures var before, after := Parse(t), Parse(RewriteSpans(t, source));
            |after| == |before| && forall k | 0 <= k < |after| :: after[k].Span? == before[k].Span?
  {
    RewrittenReads(t, source);
  }

  /**
   * The spans of a rewritten document all agree with their sources exactly when none of the document's own spans is
   * rendered as a number that the platform does not print back.
   */
  lemma RewrittenSpansMatch(d: Document, source: Source)
    requires AngleFree(source)
    ensures (forall o | o in SpansOf(d.file, Parse(RewriteSpans(d.text, source))) :: Matches(o, source.values)) <==>
            forall k | 0 <= k < |Parse(d.text)| && Parse(d.text)[k].Span? ::
              AsNumber(Parse(d.text)[k], source) ==> PrintsBack(source.values[Parse(d.text)[k].id], source)
  {
    hide Parse, Normalize, SpansOf, RewriteSpans, AngleFree, PrintsBack;
    var before, after := Parse(d.text), Parse(RewriteSpans(d.text, source));
    forall k | 0 <= k < |before| && before[k].Span?
      ensures k < |after| && after[k].Span? && after[k].id == before[k].id
      ensures Agrees(after[k], source) <==> (AsNumber(before[k], source) ==> PrintsBack(source.values[before[k].id], source))
    {
      RewriteSatisfiesChecker(d.text, source, k);
    }
    SameShape(d.text, source);
    forall o ensures o in SpansOf(d.file, after) <==>
                     exists k :: 0 <= k < |after| && after[k].Span? && after[k].id !in EXEMPT
                                 && o == Occurrence(d.file, after[k].id, after[k].body, true)
    {
      SpansOfRead(d.file, after, o);
    }
    forall k | 0 <= k < |after| && after[k].Span? && after[k].id !in EXEMPT
      ensures Occurrence(d.file, after[k].id, after[k].body, true) in SpansOf(d.file, after)
    {
      SpansOfRead(d.file, after, Occurrence(d.file, after[k].id, after[k].body, true));
    }
  }
}
