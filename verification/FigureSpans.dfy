/** Marker spans of scripts/check-published-figures.ts: reading them, rewriting them, comparing them. */
module FigureSpans {
  import opened Text

  const OPEN: string := "<!--fig:"
  const MID: string := "-->"
  const CLOSE: string := "<!--/fig-->"

  predicate IdChar(c: char) {
    'a' <= c <= 'z' || '0' <= c <= '9' || c == '_'
  }

  function IdRun(t: string, i: nat): (j: nat)
    requires i <= |t|
    ensures i <= j <= |t| && (forall k | i <= k < j :: IdChar(t[k])) && (j < |t| ==> !IdChar(t[j]))
    decreases |t| - i
  {
    if i < |t| && IdChar(t[i]) then IdRun(t, i + 1) else i
  }

  /** The length of the opening marker that `t` begins with, or 0. */
  function Header(t: string): (h: nat)
    ensures h <= |t| && (h > 0 ==> h > |OPEN| + |MID|)
  {
    if !OccursAt(t, OPEN, 0) then 0
    else
      var j := IdRun(t, |OPEN|);
      if j > |OPEN| && OccursAt(t, MID, j) then j + |MID| else 0
  }

  datatype Segment = Lit(c: char) | Span(id: string, body: string)

  function Show(s: Segment): string {
    match s
    case Lit(c) => [c]
    case Span(id, body) => OPEN + id + MID + body + CLOSE
  }

  function Shown(segs: seq<Segment>): string {
    if segs == [] then "" else Show(segs[0]) + Shown(segs[1..])
  }

  lemma FiveParts(t: string, a: nat, b: nat, c: nat, d: nat, e: nat)
    requires a <= b <= c <= d <= e <= |t|
    ensures t[..e] == t[..a] + t[a..b] + t[b..c] + t[c..d] + t[d..e]
  {
  }

  /** The span that `t` begins with: a marker, and the nearest closing marker after it. */
  function SpanAtHead(t: string): (r: Option<Segment>)
    ensures r.Some? ==> r.value.Span? && |Show(r.value)| <= |t| && t[..|Show(r.value)|] == Show(r.value)
  {
    var h := Header(t);
    if h == 0 then None
    else
      var close := FirstFrom(t, CLOSE, h);
      if close.None? then None
      else
        assert t[..|OPEN|] == OPEN && t[h - |MID|..h] == MID by {
          assert t[0..0 + |OPEN|] == OPEN;
        }
        assert t[close.value..close.value + |CLOSE|] == CLOSE;
        FiveParts(t, |OPEN|, h - |MID|, h, close.value, close.value + |CLOSE|);
        Some(Span(t[|OPEN|..h - |MID|], t[h..close.value]))
  }

  /** A text as the global pattern sees it: spans where it matches, single characters elsewhere. */
  function Parse(t: string): seq<Segment>
    decreases |t|
  {
    if t == "" then []
    else
      var s := SpanAtHead(t);
      if s.Some? then [s.value] + Parse(t[|Show(s.value)|..]) else [Lit(t[0])] + Parse(t[1..])
  }

  // ---- values ----

  predicate AllDigits(v: string) { v != "" && forall i | 0 <= i < |v| :: IsDigit(v[i]) }

  /** No leading zero, unless it is the only digit. */
  predicate CanonicalDecimal(v: string) { AllDigits(v) && (|v| > 1 ==> v[0] != '0') }

  function Canon(v: string): string {
    if |v| > 1 && v[0] == '0' then Canon(v[1..]) else v
  }

  function Group(d: string): string {
    if |d| <= 3 then d else Group(d[..|d| - 3]) + "," + d[|d| - 3..]
  }

  /** The value of each figure, and `Number(value).toLocaleString('en-US')` as the platform computes it. */
  datatype Source = Source(values: map<string, string>, printed: string -> string)

  /** The digits that a double holds exactly whatever they are. */
  const EXACT_DIGITS: nat := 15

  /** The platform prints short numbers digit by digit, without leading zeros and in groups of three. */
  ghost predicate PrintsExactly(printed: string -> string) {
    forall v | AllDigits(v) && |Canon(v)| <= EXACT_DIGITS :: printed(v) == Group(Canon(v))
  }

  predicate Stripped(c: char) { c == ',' || IsSpace(c) || c == '*' || c == '_' || c == '`' }

  /** `replace(/[,\s*_`]/g, '')` */
  function Normalize(t: string): string {
    if t == "" then "" else (if Stripped(t[0]) then "" else [t[0]]) + Normalize(t[1..])
  }

  // ---- rewriting ----

  const EXEMPT: set<string> := {"quoted", "historical"}

  function NewBody(id: string, shown: string, source: Source): string {
    if id in EXEMPT || id !in source.values then shown
    else if AllDigits(source.values[id]) && ',' in shown then source.printed(source.values[id])
    else source.values[id]
  }

  function Render(s: Segment, source: Source): Segment {
    match s
    case Lit(_) => s
    case Span(id, body) => Span(id, NewBody(id, body, source))
  }

  function RenderAll(segs: seq<Segment>, source: Source): (r: seq<Segment>)
    ensures |r| == |segs| && forall k | 0 <= k < |r| :: r[k] == Render(segs[k], source)
  {
    if segs == [] then [] else [Render(segs[0], source)] + RenderAll(segs[1..], source)
  }

  /** `text.replace(SPAN, …)` */
  function RewriteSpans(t: string, source: Source): string {
    Shown(RenderAll(Parse(t), source))
  }
}
