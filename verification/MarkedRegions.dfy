/** Regions of a text that a pair of markers delimits, as two gates search for them: from the left, without overlap. */
module MarkedRegions {
  import opened Text

  datatype Region = Region(from: nat, to: nat)

  /** The regions from `from` on: an opening marker and the first closing marker at or after its beginning. */
  function Regions(t: string, open: string, close: string, from: nat): seq<Region>
    requires open != "" && close != ""
    decreases |t| - from
  {
    var start := FirstFrom(t, open, from);
    if start.None? then []
    else
      var end := FirstFrom(t, close, start.value);
      if end.None? then []
      else
        var stop := end.value + |close|;
        [Region(start.value, stop)] + Regions(t, open, close, stop)
  }

  /** Each region is a real marked block, and the blocks follow one another without overlap. */
  ghost predicate Blocks(t: string, open: string, close: string, from: nat, rs: seq<Region>)
    decreases |rs|
  {
    rs == [] || (
      && from <= rs[0].from && rs[0].from + |close| <= rs[0].to <= |t|
      && OccursAt(t, open, rs[0].from) && OccursAt(t, close, rs[0].to - |close|)
      && Blocks(t, open, close, rs[0].to, rs[1..]))
  }

  lemma BlocksCons(t: string, open: string, close: string, from: nat, r: Region, rest: seq<Region>)
    requires from <= r.from && r.from + |close| <= r.to <= |t|
    requires OccursAt(t, open, r.from) && OccursAt(t, close, r.to - |close|) && Blocks(t, open, close, r.to, rest)
    ensures Blocks(t, open, close, from, [r] + rest)
  {
    hide OccursAt;
    assert ([r] + rest)[1..] == rest;
  }

  lemma {:induction false} RegionsAreBlocks(t: string, open: string, close: string, from: nat)
    requires open != "" && close != ""
    ensures Blocks(t, open, close, from, Regions(t, open, close, from))
    decreases |t| - from
  {
    hide Blocks, FirstFrom;
    var start := FirstFrom(t, open, from);
    var end := if start.Some? then FirstFrom(t, close, start.value) else None;
    if end.Some? {
      var stop := end.value + |close|;
      RegionsAreBlocks(t, open, close, stop);
      BlocksCons(t, open, close, from, Region(start.value, stop), Regions(t, open, close, stop));
    } else {
      assert Regions(t, open, close, from) == [];
      NoBlocks(t, open, close, from);
    }
  }

  lemma NoBlocks(t: string, open: string, close: string, from: nat)
    ensures Blocks(t, open, close, from, [])
  {
  }

  /** The last place the regions reach, or `from` when there are none. */
  function Reach(rs: seq<Region>, from: nat): nat {
    if rs == [] then from else rs[|rs| - 1].to
  }

  /** After the last region no opening marker is followed by a closing one. */
  lemma {:induction false} NoBlockAfter(t: string, open: string, close: string, from: nat, i: nat, j: nat)
    requires open != "" && close != ""
    requires Reach(Regions(t, open, close, from), from) <= i <= j && OccursAt(t, open, i)
    ensures !OccursAt(t, close, j)
    decreases |t| - from
  {
    var start := FirstFrom(t, open, from);
    var end := FirstFrom(t, close, start.value);
    if end.Some? {
      var stop := end.value + |close|;
      NoBlockAfter(t, open, close, stop, i, j);
    }
  }

  // ---- a text with one block ----

  predicate NoAngle(s: string) { forall k | 0 <= k < |s| :: s[k] != '<' }

  /** A marker: one angle bracket, at its beginning. */
  predicate MarkerLike(p: string) {
    p != "" && p[0] == '<' && NoAngle(p[1..])
  }

  function WithBlock(a: string, start: string, b: string, end: string, c: string): (t: string)
    ensures |t| == |a| + |start| + |b| + |end| + |c|
  {
    a + start + b + end + c
  }

  /** Where the brackets of a text with one block stand. */
  lemma AnglesOf(a: string, start: string, b: string, end: string, c: string, i: nat)
    requires MarkerLike(start) && MarkerLike(end) && NoAngle(a) && NoAngle(b) && NoAngle(c)
    ensures var t := WithBlock(a, start, b, end, c);
            i < |t| && t[i] == '<' ==> i == |a| || i == |a| + |start| + |b|
  {
    var t, n, m := WithBlock(a, start, b, end, c), |a|, |a| + |start| + |b|;
    assert n < i < n + |start| ==> t[i] == start[1..][i - n - 1];
    assert m < i < m + |end| ==> t[i] == end[1..][i - m - 1];
    assert i < n ==> t[i] == a[i];
    assert n + |start| <= i < m ==> t[i] == b[i - n - |start|];
    assert m + |end| <= i < |t| ==> t[i] == c[i - m - |end|];
  }

  /** Between brackets nothing is marked but the one block. */
  lemma OneBlock(a: string, start: string, b: string, end: string, c: string)
    requires MarkerLike(start) && MarkerLike(end) && NoAngle(a) && NoAngle(b) && NoAngle(c)
    requires forall x: string :: !OccursAt(start + x, end, 0) && !OccursAt(end + x, start, 0)
    ensures Regions(WithBlock(a, start, b, end, c), start, end, 0) == [Region(|a|, |a| + |start| + |b| + |end|)]
  {
    hide MarkerLike, NoAngle, Regions, WithBlock;
    Marked(start);
    Marked(end);
    Places(a, start, b, end, c);
    forall i: nat ensures var t := WithBlock(a, start, b, end, c);
                          (i != |a| ==> !OccursAt(t, start, i)) && (i != |a| + |start| + |b| ==> !OccursAt(t, end, i))
    {
      NotElsewhere(a, start, b, end, c, i);
    }
    OneRegion(WithBlock(a, start, b, end, c), start, end, |a|, |a| + |start| + |b|);
  }

  lemma OneRegion(t: string, start: string, end: string, n: nat, m: nat)
    requires start != "" && end != "" && n <= m && OccursAt(t, start, n) && OccursAt(t, end, m)
    requires forall i: nat :: (i != n ==> !OccursAt(t, start, i)) && (i != m ==> !OccursAt(t, end, i))
    ensures Regions(t, start, end, 0) == [Region(n, m + |end|)]
  {
    hide OccursAt, Regions;
    FirstIs(t, start, 0, n);
    FirstIs(t, end, n, m);
    assert FirstFrom(t, start, m + |end|) == None;
    RegionsStep(t, start, end, 0, n, m);
    RegionsEnd(t, start, end, m + |end|);
  }

  lemma Marked(p: string)
    requires MarkerLike(p)
    ensures p != "" && p[0] == '<'
  {
  }

  lemma Places(a: string, start: string, b: string, end: string, c: string)
    ensures var t := WithBlock(a, start, b, end, c); OccursAt(t, start, |a|) && OccursAt(t, end, |a| + |start| + |b|)
  {
    OccursMiddle(a, start, b + end + c);
    assert WithBlock(a, start, b, end, c) == a + start + (b + end + c);
    OccursMiddle(a + start + b, end, c);
  }

  lemma NotElsewhere(a: string, start: string, b: string, end: string, c: string, i: nat)
    requires MarkerLike(start) && MarkerLike(end) && NoAngle(a) && NoAngle(b) && NoAngle(c)
    requires forall x: string :: !OccursAt(start + x, end, 0) && !OccursAt(end + x, start, 0)
    ensures var t := WithBlock(a, start, b, end, c);
            (i != |a| ==> !OccursAt(t, start, i)) && (i != |a| + |start| + |b| ==> !OccursAt(t, end, i))
  {
    hide NoAngle;
    var t, n, m := WithBlock(a, start, b, end, c), |a|, |a| + |start| + |b|;
    AnglesOf(a, start, b, end, c, i);
    OccursElement(t, start, i, 0);
    OccursElement(t, end, i, 0);
    assert t[n..] == start + (b + end + c) && t[m..] == end + c;
    OccursSuffix(t, n, end, 0);
    OccursSuffix(t, m, start, 0);
  }

  lemma RegionsStep(t: string, start: string, end: string, from: nat, i: nat, j: nat)
    requires start != "" && end != "" && FirstFrom(t, start, from) == Some(i) && FirstFrom(t, end, i) == Some(j)
    ensures Regions(t, start, end, from) == [Region(i, j + |end|)] + Regions(t, start, end, j + |end|)
  {
    hide FirstFrom;
  }

  lemma RegionsEnd(t: string, start: string, end: string, from: nat)
    requires start != "" && end != "" && FirstFrom(t, start, from) == None
    ensures Regions(t, start, end, from) == []
  {
  }
}
