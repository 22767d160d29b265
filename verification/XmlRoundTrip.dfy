/** Decoding inverts spelling, and exactly where it reads a reference that nobody wrote. */
module XmlRoundTrip {
  import opened Text
  import opened XmlEntities

  // ---- what the last two passes read again ----

  const AMP: string := "&amp;"

  predicate Begins(s: string, w: string) {
    |w| <= |s| && s[..|w|] == w
  }

  /** A numeric ampersand at `i` is followed by `amp;`, however that is spelled: the last pass reads on. */
  predicate ReadsOn(t: seq<Spelled>, i: nat) {
    && i + 4 < |t| && t[i].c == '&' && (t[i].how.Hex? || t[i].how.Dec?)
    && t[i + 1].c == 'a' && t[i + 2].c == 'm' && t[i + 3].c == 'p' && t[i + 4].c == ';'
  }

  /** From `i` on the text is `w`, no character of it in decimal or by `&amp;`. */
  predicate SpelledBare(t: seq<Spelled>, i: nat, w: string) {
    i + |w| <= |t| && forall k | i <= k < i + |w| :: t[k].c == w[k - i] && !t[k].how.Dec?
  }

  function AfterAmpersand(digits: string): string { "#" + digits + ";" }

  /** A hexadecimal ampersand at `i` is followed by `#`, digits and `;`, none in decimal: the decimal pass reads on. */
  ghost predicate JumpsOn(t: seq<Spelled>, i: nat) {
    && i < |t| && t[i].c == '&' && t[i].how.Hex?
    && exists d :: Digits(d, false) && SpelledBare(t, i + 1, AfterAmpersand(d))
  }

  ghost predicate Misread(t: seq<Spelled>, i: nat) { ReadsOn(t, i) || JumpsOn(t, i) }

  ghost predicate ReadTwice(t: seq<Spelled>) {
    exists i :: Misread(t, i)
  }

  lemma ReadTwiceStep(t: seq<Spelled>)
    requires t != []
    ensures ReadTwice(t) <==> Misread(t, 0) || ReadTwice(t[1..])
  {
    hide Misread;
    if i: nat :| Misread(t, i) && i > 0 { MisreadTail(t, i - 1); }
    if i: nat :| Misread(t[1..], i) { MisreadTail(t, i); }
  }

  lemma MisreadTail(t: seq<Spelled>, i: nat)
    requires t != []
    ensures Misread(t[1..], i) <==> Misread(t, i + 1)
  {
    assert ReadsOn(t[1..], i) <==> ReadsOn(t, i + 1);
    forall d ensures SpelledBare(t[1..], i + 1, AfterAmpersand(d)) <==> SpelledBare(t, i + 2, AfterAmpersand(d)) {
      BareTail(t, i + 1, AfterAmpersand(d));
    }
    if i + 1 < |t| { assert t[1..][i] == t[i + 1]; }
    var next: nat := i + 2;
    if d :| Digits(d, false) && SpelledBare(t[1..], i + 1, AfterAmpersand(d)) {
      assert Digits(d, false) && SpelledBare(t, next, AfterAmpersand(d));
    }
    if d :| Digits(d, false) && SpelledBare(t, next, AfterAmpersand(d)) {
      assert Digits(d, false) && SpelledBare(t[1..], i + 1, AfterAmpersand(d));
    }
  }

  lemma BareTail(t: seq<Spelled>, i: nat, w: string)
    requires t != []
    ensures SpelledBare(t[1..], i, w) <==> SpelledBare(t, i + 1, w)
  {
    if SpelledBare(t[1..], i, w) {
      forall k | i + 1 <= k < i + 1 + |w| ensures t[k].c == w[k - (i + 1)] && !t[k].how.Dec? {
        assert t[k] == t[1..][k - 1];
      }
    }
    if SpelledBare(t, i + 1, w) {
      forall k | i <= k < i + |w| ensures t[1..][k].c == w[k - i] && !t[1..][k].how.Dec? {
        assert t[k + 1] == t[1..][k];
      }
    }
  }

  /** The first characters stand as themselves after `n` passes, and are those of `w`. */
  predicate Stands(t: seq<Spelled>, w: string, n: nat) {
    |w| <= |t| && forall k | 0 <= k < |w| :: Code(t[k], n) == [w[k]]
  }

  lemma StandsStep(t: seq<Spelled>, w: string, n: nat)
    requires t != [] && w != ""
    ensures Stands(t, w, n) <==> Code(t[0], n) == [w[0]] && Stands(t[1..], w[1..], n)
  {
    hide Code;
    if Code(t[0], n) == [w[0]] && Stands(t[1..], w[1..], n) {
      forall k | 0 <= k < |w| ensures Code(t[k], n) == [w[k]] {
        if k > 0 { assert Code(t[1..][k - 1], n) == [w[1..][k - 1]]; }
      }
    }
    if Stands(t, w, n) {
      forall k | 0 <= k < |w| - 1 ensures Code(t[1..][k], n) == [w[1..][k]] { assert Code(t[k + 1], n) == [w[k + 1]]; }
    }
  }

  predicate IsAscii(c: char) { c <= '\U{7F}' }

  /** Only what is written in ASCII, and without an ampersand, can be read as the rest of a reference. */
  predicate RestOfReference(w: string) {
    forall k | 0 <= k < |w| :: IsAscii(w[k]) && w[k] != '&'
  }

  lemma LateCode(x: Spelled, chr: nat -> Option<string>, n: nat)
    requires Legal(x, chr) && 5 <= n <= 6
    ensures Code(x, n) == [x.c] || (|Code(x, n)| >= 2 && (Code(x, n)[0] == '&' || !IsAscii(Code(x, n)[0])))
    ensures Code(x, 6) == if x == Spelled('&', Named) then AMP else Units(x)
    ensures x.low != "" ==> '&' !in Units(x) && !IsAscii(x.c)
    ensures Code(x, 5) == if x.how.Dec? then Opening(false) + x.how.digits + ";" else Code(x, 6)
    ensures x.c == '&' ==> x.how == Named || x.how.Hex? || x.how.Dec?
    ensures x.how == Named ==> x.c in NAMED
  {
  }

  /** Before each of the last two passes, a text begins with `w` exactly when its first characters stand as those of `w`. */
  lemma {:induction false} BeginsAsStands(t: seq<Spelled>, chr: nat -> Option<string>, w: string, n: nat)
    requires AllLegal(t, chr) && RestOfReference(w) && 5 <= n <= 6
    ensures Begins(Encoded(t, n), w) <==> Stands(t, w, n)
  {
    if w != "" && t != [] {
      BeginsAsStands(t[1..], chr, w[1..], n);
      LateCode(t[0], chr, n);
      hide Legal, Code, Stands, Begins;
      StandsStep(t, w, n);
      CodeBegins(Code(t[0], n), t[0].c, Encoded(t[1..], n), w);
    }
  }

  lemma {:induction false} StandsText(t: seq<Spelled>, w: string, n: nat)
    requires Stands(t, w, n)
    ensures |w| <= |t| && Encoded(t, n) == w + Encoded(t[|w|..], n)
  {
    hide Code, Stands, Encoded;
    StandsFits(t, w, n);
    if w == "" {
      assert t[0..] == t;
    } else {
      var c, u, m := w[0], w[1..], |w| - 1;
      StandsStep(t, w, n);
      StandsText(t[1..], u, n);
      assert t[1..][m..] == t[|w|..];
      FirstCode(t, n, c);
      Reassociate(c, u, Encoded(t[|w|..], n));
      assert w == [c] + u;
    }
  }

  lemma StandsFits(t: seq<Spelled>, w: string, n: nat)
    ensures Stands(t, w, n) ==> |w| <= |t|
  {
  }

  lemma FirstCode(t: seq<Spelled>, n: nat, c: char)
    requires t != [] && Code(t[0], n) == [c]
    ensures Encoded(t, n) == [c] + Encoded(t[1..], n)
  {
  }

  lemma Reassociate(c: char, u: string, rest: string)
    ensures [c] + (u + rest) == ([c] + u) + rest
  {
  }

  /** A text begins with `w` through its first character only: a reference begins with none of `w`. */
  lemma CodeBegins(code: string, c: char, rest: string, w: string)
    requires w != "" && RestOfReference(w)
    requires code == [c] || (|code| >= 2 && (code[0] == '&' || !IsAscii(code[0])))
    ensures Begins(code + rest, w) <==> code == [w[0]] && Begins(rest, w[1..])
  {
    hide Begins;
    assert code + rest == [code[0]] + (code[1..] + rest);
    BeginsStep(code[0], code[1..] + rest, w);
    if code == [c] { assert code[1..] + rest == rest; }
  }

  lemma BeginsStep(c: char, rest: string, w: string)
    requires w != ""
    ensures Begins([c] + rest, w) <==> c == w[0] && Begins(rest, w[1..])
  {
    var s := [c] + rest;
    if |w| <= |s| {
      assert s[..|w|] == [c] + rest[..|w| - 1];
      assert w == [w[0]] + w[1..];
    }
  }

  // ---- the decimal pass ----

  lemma ReferenceShape(s: string, d: string)
    requires Reference(['&'] + s, false) == Some(d)
    ensures Digits(d, false) && Begins(s, AfterAmpersand(d))
  {
    var all := ['&'] + s;
    var j := Run(all, 2, false);
    assert all[..2] == "&#" && all[2..j] == d && all[j] == ';';
    assert all[1] == '#' by { assert all[..2][1] == all[1]; }
    assert s[..|d| + 2] == all[1..|d| + 3];
    assert all[1..|d| + 3] == [all[1]] + all[2..j] + [all[j]];
  }

  lemma BareIsCode(x: Spelled, chr: nat -> Option<string>, c: char)
    requires Legal(x, chr) && c != '&' && IsAscii(c)
    ensures Code(x, 5) == [c] <==> x.c == c && !x.how.Dec?
    ensures Code(x, 6) == [c] <==> x.c == c
  {
    LateCode(x, chr, 5);
  }

  lemma StandsIsBare(t: seq<Spelled>, chr: nat -> Option<string>, w: string)
    requires t != [] && AllLegal(t, chr) && RestOfReference(w)
    ensures Stands(t[1..], w, 5) <==> SpelledBare(t, 1, w)
  {
    hide Legal, Code;
    forall k | 1 <= k < 1 + |w| && k < |t| ensures Code(t[k], 5) == [w[k - 1]] <==> t[k].c == w[k - 1] && !t[k].how.Dec? {
      BareIsCode(t[k], chr, w[k - 1]);
    }
    if Stands(t[1..], w, 5) {
      forall k | 1 <= k < 1 + |w| ensures t[k].c == w[k - 1] && !t[k].how.Dec? { assert t[1..][k - 1] == t[k]; }
    }
    if SpelledBare(t, 1, w) {
      forall k | 0 <= k < |w| ensures Code(t[1..][k], 5) == [w[k]] { assert t[1..][k] == t[k + 1]; }
    }
  }

  lemma NoAmpersandAfter(d: string)
    requires Digits(d, false)
    ensures RestOfReference(AfterAmpersand(d)) && |AfterAmpersand(d)| >= 3
  {
  }

  /** A hexadecimal ampersand is taken for the beginning of a decimal reference exactly when the text jumps on. */
  lemma ReferenceIffJump(t: seq<Spelled>, chr: nat -> Option<string>)
    requires AllLegal(t, chr) && t != [] && t[0].c == '&' && t[0].how.Hex?
    ensures Reference(['&'] + Encoded(t[1..], 5), false).Some? ==> JumpsOn(t, 0)
  {
    hide Legal, Code, Reference, Begins, Stands, SpelledBare, Digits, AfterAmpersand, Encoded;
    var r := Reference(['&'] + Encoded(t[1..], 5), false);
    if r.Some? {
      ReferenceShape(Encoded(t[1..], 5), r.value);
      NoAmpersandAfter(r.value);
      BeginsAsStands(t[1..], chr, AfterAmpersand(r.value), 5);
      StandsIsBare(t, chr, AfterAmpersand(r.value));
    }
  }

  /** One step of the decimal pass over a spelled text that does not jump on. */
  lemma DecimalStep(t: seq<Spelled>, chr: nat -> Option<string>)
    requires AllLegal(t, chr) && t != [] && !JumpsOn(t, 0)
    ensures NumericPass(Encoded(t, 5), false, chr) == Prepend(Code(t[0], 6), NumericPass(Encoded(t[1..], 5), false, chr))
  {
    var x, rest := t[0], Encoded(t[1..], 5);
    LateCode(x, chr, 5);
    assert x.how.Dec? ==> Digits(x.how.digits, false) && chr(Value(x.how.digits, false)) == Some(Units(x));
    hide Legal, Code, NumericPass, Reference, JumpsOn, Prepend;
    if x.how.Dec? {
      ReferenceStep(x.how.digits, rest, false, chr);
    } else if x == Spelled('&', Named) {
      OtherReference(AMP, rest, false);
      OtherStep(AMP, rest, false, chr);
    } else if x.c != '&' {
      NumericSkips(Units(x), rest, false, chr);
    } else {
      ReferenceIffJump(t, chr);
      NumericStep('&', rest, false, chr);
    }
  }

  /** One step of it over a text that does: a reference of three characters or more is read where none was written. */
  lemma DecimalJump(t: seq<Spelled>, chr: nat -> Option<string>) returns (k: nat, c: Option<string>)
    requires AllLegal(t, chr) && t != [] && JumpsOn(t, 0)
    ensures 4 <= k <= |t| && exists n: nat :: c == chr(n)
    ensures NumericPass(Encoded(t, 5), false, chr) ==
            if c.None? then None else Prepend(c.value, NumericPass(Encoded(t[k..], 5), false, chr))
  {
    var d :| Digits(d, false) && SpelledBare(t, 1, AfterAmpersand(d));
    var w := AfterAmpersand(d);
    k := 1 + |w|;
    c := chr(Value(d, false));
    NoAmpersandAfter(d);
    assert k <= |t|;
    hide NumericPass, Reference, Value, Digits, SpelledBare, JumpsOn;
    JumpCode(t, chr, d);
    ReferenceStep(d, Encoded(t[k..], 5), false, chr);
  }

  lemma JumpCode(t: seq<Spelled>, chr: nat -> Option<string>, d: string)
    requires AllLegal(t, chr) && t != [] && t[0].c == '&' && t[0].how.Hex?
    requires Digits(d, false) && SpelledBare(t, 1, AfterAmpersand(d))
    ensures var k := 1 + |AfterAmpersand(d)|;
            k <= |t| && Encoded(t, 5) == Opening(false) + d + ";" + Encoded(t[k..], 5)
  {
    var w := AfterAmpersand(d);
    NoAmpersandAfter(d);
    StandsIsBare(t, chr, w);
    StandsText(t[1..], w, 5);
    LateCode(t[0], chr, 5);
    assert 1 + |w| <= |t|;
    hide Code, Legal, Stands, SpelledBare, Digits, Begins;
    assert t[1..][|w|..] == t[1 + |w|..];
    assert Encoded(t, 5) == "&" + Encoded(t[1..], 5);
    hide Encoded;
    Regroup(d, Encoded(t[1 + |w|..], 5));
  }

  lemma Regroup(d: string, rest: string)
    ensures "&" + (AfterAmpersand(d) + rest) == Opening(false) + d + ";" + rest
  {
    assert Opening(false) == "&" + "#";
  }

  // ---- the last pass ----

  /** The replacement never makes up for a character less. */
  lemma ReplaceGrowth(c: char, s: string)
    ensures |ReplaceAll([c] + s, AMP, "&")| <= 1 + |ReplaceAll(s, AMP, "&")|
    ensures c == '&' && Begins(s, "amp;") ==> |ReplaceAll([c] + s, AMP, "&")| < 1 + |ReplaceAll(s, AMP, "&")|
    ensures c != '&' || !Begins(s, "amp;") ==> ReplaceAll([c] + s, AMP, "&") == [c] + ReplaceAll(s, AMP, "&")
  {
    BeginsStep(c, s, AMP);
    assert AMP[1..] == "amp;";
    hide ReplaceAll;
    if c == '&' && Begins(s, "amp;") {
      var rest := s[4..];
      assert s == "amp;" + rest && [c] + s == AMP + rest;
      ReplaceThis(rest, AMP, "&");
      ReplaceSkips("amp;", rest, AMP, "&");
    } else {
      ReplaceStep(c, s);
    }
  }

  lemma ReplaceStep(c: char, s: string)
    requires !Begins([c] + s, AMP)
    ensures ReplaceAll([c] + s, AMP, "&") == [c] + ReplaceAll(s, AMP, "&")
  {
    assert ([c] + s)[1..] == s;
  }

  lemma {:induction false} ReplaceBounded(a: string, s: string)
    ensures |ReplaceAll(a + s, AMP, "&")| <= |a| + |ReplaceAll(s, AMP, "&")|
  {
    hide ReplaceAll;
    if a == "" {
      assert a + s == s;
    } else {
      assert a + s == [a[0]] + (a[1..] + s);
      ReplaceGrowth(a[0], a[1..] + s);
      ReplaceBounded(a[1..], s);
    }
  }

  /** What the last pass makes of one more spelled character. */
  lemma LastStep(x: Spelled, chr: nat -> Option<string>, s: string)
    requires Legal(x, chr)
    ensures var r, r' := ReplaceAll(Code(x, 6) + s, AMP, "&"), ReplaceAll(s, AMP, "&");
            && |r| <= |Units(x)| + |r'|
            && (x.c == '&' && x.how != Named && Begins(s, "amp;") ==> |r| < |Units(x)| + |r'|)
            && (x.c != '&' || x.how == Named || !Begins(s, "amp;") ==> r == Units(x) + r')
  {
    LateCode(x, chr, 6);
    hide Legal, Code, ReplaceAll, Begins;
    if x == Spelled('&', Named) {
      ReplaceThis(s, AMP, "&");
    } else if x.low != "" {
      ReplaceSkips(Units(x), s, AMP, "&");
    } else {
      ReplaceGrowth(x.c, s);
    }
  }

  lemma ReadsOnStands(t: seq<Spelled>, chr: nat -> Option<string>)
    requires AllLegal(t, chr) && t != [] && t[0].c == '&' && t[0].how != Named
    ensures ReadsOn(t, 0) <==> Begins(Encoded(t[1..], 6), "amp;")
  {
    BeginsAsStands(t[1..], chr, "amp;", 6);
    LateCode(t[0], chr, 6);
    hide Legal, Code, Begins, Encoded;
    forall k | 0 <= k < 4 && k < |t| - 1 ensures Code(t[1..][k], 6) == ["amp;"[k]] <==> t[k + 1].c == "amp;"[k] {
      assert t[1..][k] == t[k + 1];
      BareIsCode(t[k + 1], chr, "amp;"[k]);
    }
    AmpLetters(t);
    hide ReadsOn;
    if Stands(t[1..], "amp;", 6) { assert forall k | 0 <= k < 4 :: Code(t[1..][k], 6) == ["amp;"[k]]; }
  }

  lemma AmpLetters(t: seq<Spelled>)
    requires t != [] && t[0].c == '&' && (t[0].how.Hex? || t[0].how.Dec?)
    ensures ReadsOn(t, 0) <==> 4 < |t| && forall k | 0 <= k < 4 :: t[k + 1].c == "amp;"[k]
  {
    assert "amp;"[0] == 'a' && "amp;"[1] == 'm' && "amp;"[2] == 'p' && "amp;"[3] == ';';
    if 4 < |t| && forall k | 0 <= k < 4 :: t[k + 1].c == "amp;"[k] {
      assert t[0 + 1].c == "amp;"[0] && t[1 + 1].c == "amp;"[1] && t[2 + 1].c == "amp;"[2] && t[3 + 1].c == "amp;"[3];
    }
    if ReadsOn(t, 0) {
      forall k | 0 <= k < 4 ensures t[k + 1].c == "amp;"[k] {}
    }
  }

  /** `String.fromCodePoint` gives one or two code units. */
  ghost predicate CodePoints(chr: nat -> Option<string>) {
    forall n :: chr(n).Some? ==> 1 <= |chr(n).value| <= 2
  }

  /** The last two passes give the text back exactly when nothing is read twice; otherwise they fail or give a shorter one. */
  lemma {:induction false} LastPasses(t: seq<Spelled>, chr: nat -> Option<string>)
    requires AllLegal(t, chr) && (CodePoints(chr) || NoHexAmpersand(t))
    ensures var v := NumericPass(Encoded(t, 5), false, chr);
            if ReadTwice(t) then v.None? || |ReplaceAll(v.value, AMP, "&")| < |Chars(t)|
            else v == Some(Encoded(t, 6)) && ReplaceAll(v.value, AMP, "&") == Chars(t)
    decreases |t|
  {
    hide Legal, Code, ReplaceAll, ReadTwice, Misread, CodePoints, Begins;
    if t == [] {
      EmptyPasses(chr);
    } else {
      LastPasses(t[1..], chr);
      ReadTwiceStep(t);
      if JumpsOn(t, 0) {
        assert CodePoints(chr) by { HexAmpersand(t); }
        var k, c := DecimalJump(t, chr);
        LastPasses(t[k..], chr);
        JumpShortens(t, chr, k, c);
        assert Misread(t, 0) by { JumpIsMisread(t); }
      } else {
        StepKeeps(t, chr);
      }
    }
  }

  predicate NoHexAmpersand(t: seq<Spelled>) {
    forall i | 0 <= i < |t| :: t[i].c != '&' || !t[i].how.Hex?
  }

  lemma HexAmpersand(t: seq<Spelled>)
    ensures JumpsOn(t, 0) ==> !NoHexAmpersand(t)
  {
  }

  lemma JumpIsMisread(t: seq<Spelled>)
    ensures JumpsOn(t, 0) ==> Misread(t, 0)
    ensures !JumpsOn(t, 0) ==> (Misread(t, 0) <==> ReadsOn(t, 0))
  {
  }

  lemma EmptyPasses(chr: nat -> Option<string>)
    ensures NumericPass(Encoded([], 5), false, chr) == Some("") && ReplaceAll("", AMP, "&") == "" && !ReadTwice([])
  {
  }

  lemma JumpShortens(t: seq<Spelled>, chr: nat -> Option<string>, k: nat, c: Option<string>)
    requires CodePoints(chr) && 4 <= k <= |t| && exists n: nat :: c == chr(n)
    requires NumericPass(Encoded(t, 5), false, chr) ==
             if c.None? then None else Prepend(c.value, NumericPass(Encoded(t[k..], 5), false, chr))
    requires var v := NumericPass(Encoded(t[k..], 5), false, chr);
             v.None? || |ReplaceAll(v.value, AMP, "&")| <= |Chars(t[k..])|
    ensures var v := NumericPass(Encoded(t, 5), false, chr); v.None? || |ReplaceAll(v.value, AMP, "&")| < |Chars(t)|
  {
    hide NumericPass, ReplaceAll, Encoded;
    var v := NumericPass(Encoded(t[k..], 5), false, chr);
    CharsDrop(t, k);
    if c.Some? && v.Some? { ReplaceBounded(c.value, v.value); }
  }

  lemma {:induction false} CharsDrop(t: seq<Spelled>, k: nat)
    requires k <= |t|
    ensures |Chars(t)| >= |Chars(t[k..])| + k
  {
    if k == 0 {
      assert t[0..] == t;
    } else {
      assert t[1..][k - 1..] == t[k..];
      CharsDrop(t[1..], k - 1);
    }
  }

  lemma StepKeeps(t: seq<Spelled>, chr: nat -> Option<string>)
    requires AllLegal(t, chr) && t != [] && !JumpsOn(t, 0)
    requires ReadTwice(t) <==> Misread(t, 0) || ReadTwice(t[1..])
    requires var v := NumericPass(Encoded(t[1..], 5), false, chr);
             if ReadTwice(t[1..]) then v.None? || |ReplaceAll(v.value, AMP, "&")| < |Chars(t[1..])|
             else v == Some(Encoded(t[1..], 6)) && ReplaceAll(v.value, AMP, "&") == Chars(t[1..])
    ensures var v := NumericPass(Encoded(t, 5), false, chr);
            if ReadTwice(t) then v.None? || |ReplaceAll(v.value, AMP, "&")| < |Chars(t)|
            else v == Some(Encoded(t, 6)) && ReplaceAll(v.value, AMP, "&") == Chars(t)
  {
    var x, v := t[0], NumericPass(Encoded(t[1..], 5), false, chr);
    DecimalStep(t, chr);
    JumpIsMisread(t);
    hide Legal, Code, NumericPass, ReplaceAll, ReadTwice, Misread, JumpsOn, Begins, ReadsOn;
    if v.Some? {
      LastStep(x, chr, v.value);
      if x.c == '&' && x.how != Named { ReadsOnStands(t, chr); } else { OnlyNumeric(t); }
    }
  }

  lemma OnlyNumeric(t: seq<Spelled>)
    requires t != [] && (t[0].c != '&' || t[0].how == Named)
    ensures !ReadsOn(t, 0)
  {
  }

  /**
   * However each character is spelled (plainly, by its entity, or by a decimal or hexadecimal reference), the seven
   * passes give the text back exactly when no numeric ampersand is followed by `amp;` and no hexadecimal one by what
   * the decimal pass takes for the rest of a reference.
   */
  lemma DecodeInverts(t: seq<Spelled>, chr: nat -> Option<string>)
    requires AllLegal(t, chr) && (CodePoints(chr) || NoHexAmpersand(t))
    ensures DecodeXmlText(Encoded(t, 0), chr) == Some(Chars(t)) <==> !ReadTwice(t)
  {
    hide ReplaceAll, NumericPass, Encoded, ReadTwice, CodePoints;
    NamedPassDecodes(t, chr, 0);
    NamedPassDecodes(t, chr, 1);
    NamedPassDecodes(t, chr, 2);
    NamedPassDecodes(t, chr, 3);
    HexPassDecodes(t, chr);
    LastPasses(t, chr);
  }

  /** The five predefined entities for the five characters, everything else as it is. */
  function Escape(s: string): string {
    if s == "" then "" else (if s[0] in NAMED then Entity(s[0]) else [s[0]]) + Escape(s[1..])
  }

  function Escaping(s: string): (t: seq<Spelled>)
    ensures |t| == |s| && forall i | 0 <= i < |s| :: t[i] == Spelled(s[i], if s[i] in NAMED then Named else Plain)
  {
    seq(|s|, i requires 0 <= i < |s| => Spelled(s[i], if s[i] in NAMED then Named else Plain))
  }

  lemma {:induction false} EscapeIsSpelling(s: string)
    ensures Encoded(Escaping(s), 0) == Escape(s) && Chars(Escaping(s)) == s
  {
    if s != "" {
      assert Escaping(s)[1..] == Escaping(s[1..]);
      EscapeIsSpelling(s[1..]);
    }
  }

  /** Decoding inverts escaping, for every text. */
  lemma DecodeInvertsEscape(s: string, chr: nat -> Option<string>)
    ensures DecodeXmlText(Escape(s), chr) == Some(s)
  {
    hide DecodeXmlText, AllLegal, NoHexAmpersand, ReadTwice, Escape, Escaping, Encoded, Chars;
    EscapeIsSpelling(s);
    EscapingIsPlain(s, chr);
    DecodeInverts(Escaping(s), chr);
  }

  /** An escaped text holds no numeric reference. */
  lemma EscapingIsPlain(s: string, chr: nat -> Option<string>)
    ensures AllLegal(Escaping(s), chr) && NoHexAmpersand(Escaping(s)) && !ReadTwice(Escaping(s))
  {
    var t := Escaping(s);
    forall i: nat ensures !Misread(t, i) {
      assert i < |t| ==> !t[i].how.Hex? && !t[i].how.Dec?;
    }
    forall i | 0 <= i < |t| ensures Legal(t[i], chr) { assert s[i] == '&' ==> s[i] in NAMED; }
  }

  lemma Unreplaced(w: string, u: string, pat: string, rep: string)
    requires RefShaped(w) && RefShaped(pat) && w != pat && '&' !in u
    ensures ReplaceAll(w + u, pat, rep) == w + u
  {
    ReplaceOther(w, u, pat, rep);
    ReplaceSkips(u, "", pat, rep);
    assert u + "" == u;
  }

  /**
   * The proviso is needed: the text `&amp;` with its ampersand written as a decimal reference decodes to `&`, because
   * the last pass reads what an earlier one wrote.
   */
  lemma NumericAmpersandDecodesTwice(chr: nat -> Option<string>)
    requires chr(38) == Some("&")
    ensures DecodeXmlText("&#38;amp;", chr) == Some("&")
  {
    hide ReplaceAll, NumericPass, NamedPasses;
    UntouchedByName("&#38;", "amp;");
    UntouchedByHex("&#38;", "amp;", chr);
    DecimalAmpersand("amp;", chr);
    ReplaceThis("", "&amp;", "&");
    assert ReplaceAll("", "&amp;", "&") == "" by { NothingToReplace("&amp;", "&"); }
    assert "&#38;" + "amp;" == "&#38;amp;" && "&" + "amp;" == "&amp;" + "" && "&" + "" == "&";
  }

  lemma NothingToReplace(pat: string, rep: string)
    requires pat != ""
    ensures ReplaceAll("", pat, rep) == ""
  {
  }

  lemma UntouchedByName(w: string, u: string)
    requires RefShaped(w) && w[1] == '#' && '&' !in u
    ensures NamedPasses(w + u) == w + u
  {
    hide ReplaceAll;
    Unreplaced(w, u, "&lt;", "<");
    Unreplaced(w, u, "&gt;", ">");
    Unreplaced(w, u, "&quot;", "\"");
    Unreplaced(w, u, "&apos;", "'");
  }

  lemma UntouchedByHex(w: string, u: string, chr: nat -> Option<string>)
    requires RefShaped(w) && |w| >= 3 && w[1] == '#' && w[2] != 'x' && '&' !in u
    ensures NumericPass(w + u, true, chr) == Some(w + u)
  {
    OtherReference(w, u, true);
    hide NumericPass, Reference;
    OtherStep(w, u, true, chr);
    PassesThrough(u, true, chr);
  }

  lemma PassesThrough(u: string, hex: bool, chr: nat -> Option<string>)
    requires '&' !in u
    ensures NumericPass(u, hex, chr) == Some(u)
  {
    NumericSkips(u, "", hex, chr);
    assert u + "" == u;
  }

  lemma DecimalAmpersand(u: string, chr: nat -> Option<string>)
    requires chr(38) == Some("&") && '&' !in u
    ensures NumericPass("&#38;" + u, false, chr) == Some("&" + u)
  {
    hide NumericPass, Reference;
    assert Value("38", false) == 38 by { assert "38"[..1] == "3" && "3"[..0] == ""; }
    PassesThrough(u, false, chr);
    ReferenceStep("38", u, false, chr);
    assert Opening(false) + "38" + ";" == "&#38;";
  }

  function Plainly(s: string): (t: seq<Spelled>)
    ensures |t| == |s| && forall i | 0 <= i < |s| :: t[i] == Spelled(s[i], Plain)
  {
    seq(|s|, i requires 0 <= i < |s| => Spelled(s[i], Plain))
  }

  lemma {:induction false} PlainlySpells(s: string)
    ensures Encoded(Plainly(s), 0) == s && Chars(Plainly(s)) == s
  {
    if s != "" {
      assert Plainly(s)[1..] == Plainly(s[1..]);
      PlainlySpells(s[1..]);
    }
  }

  /** Written in hexadecimal, an ampersand is read again by the last pass in one text and by the decimal pass in another. */
  lemma HexAmpersandReadTwice(chr: nat -> Option<string>)
    requires CodePoints(chr) && chr(38) == Some("&")
    ensures DecodeXmlText("&#x26;amp;", chr) != Some("&amp;")
    ensures DecodeXmlText("&#x26;#60;", chr) != Some("&#60;")
  {
    hide DecodeXmlText, ReadTwice, CodePoints;
    HexThenPlain("amp;", chr);
    HexThenPlain("#60;", chr);
    AmpReadsOn();
    NumberJumpsOn();
    assert "&#x26;" + "amp;" == "&#x26;amp;" && "&" + "amp;" == "&amp;";
    assert "&#x26;" + "#60;" == "&#x26;#60;" && "&" + "#60;" == "&#60;";
  }

  lemma AmpReadsOn()
    ensures ReadTwice([Spelled('&', Hex("26"))] + Plainly("amp;"))
  {
    var t := [Spelled('&', Hex("26"))] + Plainly("amp;");
    assert t[1].c == 'a' && t[2].c == 'm' && t[3].c == 'p' && t[4].c == ';';
    assert ReadsOn(t, 0);
    assert Misread(t, 0);
  }

  lemma NumberJumpsOn()
    ensures ReadTwice([Spelled('&', Hex("26"))] + Plainly("#60;"))
  {
    var t := [Spelled('&', Hex("26"))] + Plainly("#60;");
    assert AfterAmpersand("60") == "#60;";
    assert forall k | 1 <= k < 5 :: t[k] == Plainly("#60;")[k - 1];
    assert SpelledBare(t, 1, AfterAmpersand("60"));
    assert Digits("60", false);
    assert JumpsOn(t, 0);
    assert Misread(t, 0);
  }

  lemma HexThenPlain(s: string, chr: nat -> Option<string>)
    requires CodePoints(chr) && chr(38) == Some("&") && '&' !in s
    ensures var t := [Spelled('&', Hex("26"))] + Plainly(s);
            (DecodeXmlText("&#x26;" + s, chr) == Some("&" + s)) <==> !ReadTwice(t)
  {
    var x := Spelled('&', Hex("26"));
    var t := [x] + Plainly(s);
    assert Value("26", true) == 38 by { assert "26"[..1] == "2" && "2"[..0] == ""; }
    assert Units(x) == "&";
    assert Legal(x, chr);
    assert AllLegal(t, chr) by { assert forall i | 0 < i < |t| :: t[i] == Plainly(s)[i - 1]; }
    PlainlySpells(s);
    hide DecodeXmlText, ReadTwice, Legal, CodePoints;
    assert t[1..] == Plainly(s);
    assert Code(x, 0) == "&#x26;";
    DecodeInverts(t, chr);
  }
}
