/** Withdrawal regions of a published document: scripts/check-final-state.ts, `maskWithdrawn`. */
module Withdrawn {
  import opened Text
  import opened MarkedRegions

  const START := "<!--final-state:withdrawn-->"
  const END := "<!--/final-state-->"

  /** The text from `from` on, without the regions. */
  ghost function Outside(t: string, rs: seq<Region>, from: nat): string
    requires from <= |t| && Blocks(t, START, END, from, rs)
    decreases |rs|
  {
    if rs == [] then t[from..] else t[from..rs[0].from] + Outside(t, rs[1..], rs[0].to)
  }

  ghost function Asserted(t: string, from: nat): string
    requires from <= |t|
  {
    RegionsAreBlocks(t, START, END, from);
    Outside(t, Regions(t, START, END, from), from)
  }

  lemma AssertedStep(t: string, at: nat)
    requires at <= |t|
    ensures var start := FirstFrom(t, START, at);
            var end := if start.Some? then FirstFrom(t, END, start.value) else None;
            if end.None? then Asserted(t, at) == t[at..] && Regions(t, START, END, at) == []
            else
              var stop := end.value + |END|;
              && at <= start.value <= stop <= |t|
              && Asserted(t, at) == t[at..start.value] + Asserted(t, stop)
              && Regions(t, START, END, at) == [Region(start.value, stop)] + Regions(t, START, END, stop)
  {
    hide FirstFrom, Blocks;
    var start := FirstFrom(t, START, at);
    var end := if start.Some? then FirstFrom(t, END, start.value) else None;
    RegionsAreBlocks(t, START, END, at);
    if end.Some? {
      var stop := end.value + |END|;
      RegionsAreBlocks(t, START, END, stop);
      assert ([Region(start.value, stop)] + Regions(t, START, END, stop))[1..] == Regions(t, START, END, stop);
    }
  }

  method MaskWithdrawn(markdown: string) returns (masked: string, regions: nat)
    ensures masked == Asserted(markdown, 0)
    ensures regions == |Regions(markdown, START, END, 0)|
  {
    hide FirstFrom, Asserted, Regions;
    masked, regions := "", 0;
    var rest := markdown;
    ghost var at: nat := 0;
    while true
      invariant at <= |markdown| && rest == markdown[at..]
      invariant masked + Asserted(markdown, at) == Asserted(markdown, 0)
      invariant regions + |Regions(markdown, START, END, at)| == |Regions(markdown, START, END, 0)|
      decreases |rest|
    {
      AssertedStep(markdown, at);
      var start := FirstFrom(rest, START, 0);
      FirstFromSuffix(markdown, at, START, 0);
      if start.None? { break; }
      var end := FirstFrom(rest, END, start.value);
      FirstFromSuffix(markdown, at, END, start.value);
      if end.None? { break; }
      masked := masked + rest[..start.value];
      rest := rest[end.value + |END|..];
      at := at + end.value + |END|;
      regions := regions + 1;
    }
    masked := masked + rest;
  }

  function Length(rs: seq<Region>): int {
    if rs == [] then 0 else rs[0].to - rs[0].from + Length(rs[1..])
  }

  /** Nothing is lost but the regions. */
  lemma {:induction false} MaskConserves(t: string, at: nat)
    requires at <= |t|
    ensures |Asserted(t, at)| + Length(Regions(t, START, END, at)) == |t| - at
    decreases |t| - at
  {
    hide Asserted, Regions, FirstFrom;
    AssertedStep(t, at);
    var start := FirstFrom(t, START, at);
    var end := if start.Some? then FirstFrom(t, END, start.value) else None;
    if end.Some? {
      var rest := Regions(t, START, END, end.value + |END|);
      MaskConserves(t, end.value + |END|);
      assert ([Region(start.value, end.value + |END|)] + rest)[1..] == rest;
    }
  }

  /** The claim at `i` touches no region. */
  ghost predicate Clear(rs: seq<Region>, i: int, j: int) {
    forall k | 0 <= k < |rs| :: j <= rs[k].from || rs[k].to <= i
  }

  lemma OccursInGap(t: string, a: nat, b: nat, claim: string, i: nat)
    requires a <= i && i + |claim| <= b <= |t| && OccursAt(t, claim, i)
    ensures OccursAt(t[a..b], claim, i - a)
  {
    OccursSuffix(t, a, claim, i - a);
    assert t[a..] == t[a..b] + t[b..];
    OccursPrefix(t[a..b], t[b..], claim, i - a);
  }

  /** A claim that touches no region is still there to be found, whatever was withdrawn around it. */
  lemma {:induction false} ClaimSurvives(t: string, at: nat, claim: string, i: nat)
    requires at <= i && OccursAt(t, claim, i) && claim != ""
    requires Clear(Regions(t, START, END, at), i, i + |claim|)
    ensures Contains(Asserted(t, at), claim)
    decreases |t| - at
  {
    hide Asserted, Regions, FirstFrom;
    AssertedStep(t, at);
    var start := FirstFrom(t, START, at);
    var end := if start.Some? then FirstFrom(t, END, start.value) else None;
    if end.None? {
      OccursSuffix(t, at, claim, i - at);
      assert OccursAt(Asserted(t, at), claim, i - at);
    } else {
      var stop := end.value + |END|;
      var rs, rest := Regions(t, START, END, at), Regions(t, START, END, stop);
      assert rs[0] == Region(start.value, stop);
      var gap, more := t[at..start.value], Asserted(t, stop);
      if i + |claim| <= start.value {
        OccursInGap(t, at, start.value, claim, i);
        OccursPrefix(gap, more, claim, i - at);
        assert OccursAt(Asserted(t, at), claim, i - at);
      } else {
        assert Clear(rest, i, i + |claim|) by { assert forall k | 0 <= k < |rest| :: rs[k + 1] == rest[k]; }
        hide OccursAt, START, END;
        ClaimSurvives(t, stop, claim, i);
        var k: int :| OccursAt(more, claim, k);
        assert (gap + more)[|gap|..] == more;
        OccursSuffix(gap + more, |gap|, claim, k);
        assert OccursAt(Asserted(t, at), claim, |gap| + k);
      }
    }
  }

  /** In a text with one withdrawal that region alone is taken out, markers included. */
  lemma OneWithdrawal(a: string, b: string, c: string)
    requires NoAngle(a) && NoAngle(b) && NoAngle(c)
    ensures Asserted(WithBlock(a, "<!--final-state:withdrawn-->", b, "<!--/final-state-->", c), 0) == a + c
  {
    hide NoAngle, Regions, Blocks, FirstFrom;
    var start, end := "<!--final-state:withdrawn-->", "<!--/final-state-->";
    assert MarkerLike(start) && MarkerLike(end) by { WithdrawalMarkers(); }
    forall x: string ensures !OccursAt(start + x, end, 0) && !OccursAt(end + x, start, 0) {
      OccursElement(start + x, end, 0, 4);
      OccursElement(end + x, start, 0, 4);
    }
    OneBlock(a, start, b, end, c);
    CutOut(a, start, b, end, c);
  }

  lemma WithdrawalMarkers()
    ensures MarkerLike("<!--final-state:withdrawn-->") && MarkerLike("<!--/final-state-->")
  {
  }

  lemma CutOut(a: string, start: string, b: string, end: string, c: string)
    requires start == START && end == END
    requires Regions(WithBlock(a, start, b, end, c), START, END, 0) == [Region(|a|, |a| + |start| + |b| + |end|)]
    ensures Asserted(WithBlock(a, start, b, end, c), 0) == a + c
  {
    var t, r := WithBlock(a, start, b, end, c), Region(|a|, |a| + |start| + |b| + |end|);
    RegionsAreBlocks(t, START, END, 0);
    assert [r][1..] == [];
    assert t[0..|a|] == a && t[r.to..] == c;
    assert Outside(t, [r], 0) == t[0..r.from] + Outside(t, [], r.to);
  }
}
