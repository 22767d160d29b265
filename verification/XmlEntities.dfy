/** `decodeXmlText` of scripts/docx-text.ts: seven replacement passes over character and entity references. */
module XmlEntities {
  import opened Text

  /** `replace` of every occurrence of a literal, from the left. */
  function ReplaceAll(s: string, pat: string, rep: string): string
    requires pat != ""
    decreases |s|
  {
    if s == "" then ""
    else if |pat| <= |s| && s[..|pat|] == pat then rep + ReplaceAll(s[|pat|..], pat, rep)
    else [s[0]] + ReplaceAll(s[1..], pat, rep)
  }

  predicate IsHexDigit(c: char) { IsDigit(c) || 'a' <= c <= 'f' || 'A' <= c <= 'F' }

  function DigitValue(c: char): nat
    requires IsHexDigit(c)
  {
    if IsDigit(c) then c as int - '0' as int
    else if 'a' <= c <= 'f' then c as int - 'a' as int + 10
    else c as int - 'A' as int + 10
  }

  const HEX_LOWER := "0123456789abcdef"
  const HEX_UPPER := "0123456789ABCDEF"

  /** The hexadecimal digits and their values, in either case. */
  lemma DigitMeans(c: char)
    ensures IsHexDigit(c) <==> c in HEX_LOWER || c in HEX_UPPER
    ensures forall k | 0 <= k < 16 && (c == HEX_LOWER[k] || c == HEX_UPPER[k]) :: DigitValue(c) == k
  {
    assert forall k | 0 <= k < 10 :: HEX_LOWER[k] as int == 48 + k && HEX_UPPER[k] as int == 48 + k;
    assert forall k | 10 <= k < 16 :: HEX_LOWER[k] as int == 87 + k && HEX_UPPER[k] as int == 55 + k;
    if IsDigit(c) { assert HEX_LOWER[c as int - 48] == c; }
    if 'a' <= c <= 'f' { assert HEX_LOWER[c as int - 87] == c; }
    if 'A' <= c <= 'F' { assert HEX_UPPER[c as int - 55] == c; }
  }

  predicate Digit(c: char, hex: bool) { if hex then IsHexDigit(c) else IsDigit(c) }

  predicate Digits(d: string, hex: bool) {
    d != "" && forall i | 0 <= i < |d| :: Digit(d[i], hex)
  }

  function Value(d: string, hex: bool): nat
    requires forall i | 0 <= i < |d| :: Digit(d[i], hex)
  {
    if d == "" then 0
    else
      assert Digit(d[|d| - 1], hex);
      Value(d[..|d| - 1], hex) * (if hex then 16 else 10) + DigitValue(d[|d| - 1])
  }

  /** The end of the run of digits that starts at `i`. */
  function Run(s: string, i: nat, hex: bool): (j: nat)
    requires i <= |s|
    ensures i <= j <= |s| && (forall k | i <= k < j :: Digit(s[k], hex)) && (j < |s| ==> !Digit(s[j], hex))
    decreases |s| - i
  {
    if i < |s| && Digit(s[i], hex) then Run(s, i + 1, hex) else i
  }

  function Opening(hex: bool): string { if hex then "&#x" else "&#" }

  /** The digits of the numeric reference that `s` begins with, if it begins with one. */
  function Reference(s: string, hex: bool): (r: Option<string>)
    ensures r.Some? ==> Digits(r.value, hex) && |Opening(hex)| + |r.value| + 1 <= |s|
  {
    var n := |Opening(hex)|;
    if |s| < n || s[..n] != Opening(hex) then None
    else
      var j := Run(s, n, hex);
      if j == n || j == |s| || s[j] != ';' then None else Some(s[n..j])
  }

  predicate PlainDigits(d: string, hex: bool) {
    d != "" && forall k | 0 <= k < |d| :: d[k] in (if hex then HEX_LOWER + HEX_UPPER else "0123456789")
  }

  lemma DigitsMean(d: string, hex: bool)
    ensures Digits(d, hex) <==> PlainDigits(d, hex)
  {
    forall c: char ensures Digit(c, hex) <==> c in (if hex then HEX_LOWER + HEX_UPPER else "0123456789") {
      DigitMeans(c);
      DecimalMeans(c);
    }
  }

  lemma DecimalMeans(c: char)
    ensures IsDigit(c) <==> c in "0123456789"
  {
    var ten := "0123456789";
    assert forall k | 0 <= k < 10 :: ten[k] as int == 48 + k;
    if IsDigit(c) { assert ten[c as int - 48] == c; }
  }

  lemma {:induction false} RunEnds(s: string, i: nat, j: nat, hex: bool)
    requires i <= j < |s| && (forall k | i <= k < j :: Digit(s[k], hex)) && !Digit(s[j], hex)
    ensures Run(s, i, hex) == j
    decreases j - i
  {
    if i < j { RunEnds(s, i + 1, j, hex); }
  }

  function Numeric(d: string, hex: bool): string { (if hex then "&#x" else "&#") + d + ";" }

  /** A text begins with a reference exactly when it is written so: the opening, digits, at least one, and a semicolon. */
  lemma ReferenceMeans(s: string, hex: bool, d: string)
    ensures Reference(s, hex) == Some(d) <==> PlainDigits(d, hex) && exists rest :: s == Numeric(d, hex) + rest
  {
    hide PlainDigits, Reference, Digits;
    DigitsMean(d, hex);
    if Reference(s, hex) == Some(d) { ReferenceWritten(s, hex, d); }
    if PlainDigits(d, hex) && exists rest :: s == Numeric(d, hex) + rest {
      var rest :| s == Numeric(d, hex) + rest;
      WrittenReference(d, hex, rest);
    }
  }

  lemma ReferenceWritten(s: string, hex: bool, d: string)
    requires Reference(s, hex) == Some(d)
    ensures Digits(d, hex) && exists rest :: s == Numeric(d, hex) + rest
  {
    hide Digit;
    var n := |Opening(hex)|;
    TakenApart(s, n, n + |d|);
    assert [s[n + |d|]] == ";" && s[..n] == Opening(hex) && s[n..n + |d|] == d;
    assert s == Numeric(d, hex) + s[n + |d| + 1..];
  }

  lemma TakenApart(s: string, a: nat, b: nat)
    requires a <= b < |s|
    ensures s == s[..a] + s[a..b] + [s[b]] + s[b + 1..]
  {
  }

  lemma WrittenReference(d: string, hex: bool, rest: string)
    requires Digits(d, hex)
    ensures Reference(Numeric(d, hex) + rest, hex) == Some(d)
  {
    var s, n := Numeric(d, hex) + rest, |Opening(hex)|;
    assert s[n + |d|] == ';' && !Digit(';', hex);
    hide Digit;
    forall k | n <= k < n + |d| ensures Digit(s[k], hex) { assert s[k] == d[k - n]; }
    RunEnds(s, n, n + |d|, hex);
    assert s[..n] == Opening(hex) && s[n..n + |d|] == d;
  }

  /** One numeric pass; `chr` is `String.fromCodePoint`, which throws for what is no code point. */
  function NumericPass(s: string, hex: bool, chr: nat -> Option<string>): Option<string>
    decreases |s|
  {
    if s == "" then Some("")
    else
      var r := Reference(s, hex);
      if r.Some? then
        var c := chr(Value(r.value, hex));
        var rest := NumericPass(s[|Opening(hex)| + |r.value| + 1..], hex, chr);
        if c.Some? && rest.Some? then Some(c.value + rest.value) else None
      else
        var rest := NumericPass(s[1..], hex, chr);
        if rest.Some? then Some([s[0]] + rest.value) else None
  }

  /** A pass decodes the reference that a text begins with, and keeps a character that begins none. */
  lemma PassReads(c: char, d: string, rest: string, hex: bool, chr: nat -> Option<string>)
    ensures PlainDigits(d, hex) ==>
              var after := NumericPass(rest, hex, chr);
              NumericPass(Numeric(d, hex) + rest, hex, chr)
              == if chr(Value(d, hex)).Some? && after.Some? then Some(chr(Value(d, hex)).value + after.value) else None
    ensures (forall e, r | PlainDigits(e, hex) :: [c] + rest != Numeric(e, hex) + r) ==>
              var after := NumericPass(rest, hex, chr);
              NumericPass([c] + rest, hex, chr) == if after.Some? then Some([c] + after.value) else None
  {
    hide PlainDigits, Reference;
    DigitsMean(d, hex);
    if PlainDigits(d, hex) {
      var s := Numeric(d, hex) + rest;
      ReferenceMeans(s, hex, d);
      assert s[|Opening(hex)| + |d| + 1..] == rest;
    }
    var s := [c] + rest;
    assert s[1..] == rest;
    var r := Reference(s, hex);
    if r.Some? {
      ReferenceMeans(s, hex, r.value);
    }
  }

  function NamedPasses(raw: string): string {
    ReplaceAll(ReplaceAll(ReplaceAll(ReplaceAll(raw, "&lt;", "<"), "&gt;", ">"), "&quot;", "\""), "&apos;", "'")
  }

  function DecodeXmlText(raw: string, chr: nat -> Option<string>): Option<string> {
    var hexed := NumericPass(NamedPasses(raw), true, chr);
    if hexed.None? then None
    else
      var decimal := NumericPass(hexed.value, false, chr);
      if decimal.None? then None else Some(ReplaceAll(decimal.value, "&amp;", "&"))
  }

  // ---- spelled texts ----

  /** How one character of a text is written. */
  datatype Spelling = Plain | Named | Hex(digits: string) | Dec(digits: string)

  /** A character and its spelling; one beyond U+FFFF is two code units, of which `low` is the second. */
  datatype Spelled = Spelled(c: char, how: Spelling, low: string := "")

  function Units(x: Spelled): (u: string)
    ensures |u| == 1 + |x.low| && u[0] == x.c
  {
    [x.c] + x.low
  }

  /** The two code units of a pair stand outside ASCII, as surrogates do. */
  predicate WellPaired(x: Spelled) {
    x.low == "" || (|x.low| == 1 && x.c > '\U{7F}' && x.low[0] > '\U{7F}')
  }

  const NAMED: string := "<>\"'&"

  function Entity(c: char): string {
    match c
    case '<' => "&lt;"
    case '>' => "&gt;"
    case '"' => "&quot;"
    case '\'' => "&apos;"
    case _ => "&amp;"
  }

  /** Any spelling of any character that an escaped text can hold: an ampersand is written by name or by number. */
  predicate Legal(x: Spelled, chr: nat -> Option<string>) {
    match x.how
    case Plain => x.low == "" && x.c != '&'
    case Named => x.low == "" && x.c in NAMED
    case Hex(d) => WellPaired(x) && Digits(d, true) && chr(Value(d, true)) == Some(Units(x))
    case Dec(d) => WellPaired(x) && Digits(d, false) && chr(Value(d, false)) == Some(Units(x))
  }

  /** The pass that decodes a spelling. */
  function PassOf(x: Spelled): nat {
    match x.how
    case Plain => 0
    case Named => (match x.c case '<' => 0 case '>' => 1 case '"' => 2 case '\'' => 3 case _ => 6)
    case Hex(_) => 4
    case Dec(_) => 5
  }

  /** How the character stands after the first `n` passes. */
  function Code(x: Spelled, n: nat): string {
    if x.how == Plain || PassOf(x) < n then Units(x)
    else match x.how
      case Plain => Units(x)
      case Named => Entity(x.c)
      case Hex(d) => Opening(true) + d + ";"
      case Dec(d) => Opening(false) + d + ";"
  }

  function Encoded(t: seq<Spelled>, n: nat): string {
    if t == [] then "" else Code(t[0], n) + Encoded(t[1..], n)
  }

  function Chars(t: seq<Spelled>): string {
    if t == [] then "" else Units(t[0]) + Chars(t[1..])
  }

  predicate AllLegal(t: seq<Spelled>, chr: nat -> Option<string>) {
    forall i | 0 <= i < |t| :: Legal(t[i], chr)
  }

  // ---- no pass touches a reference that belongs to another ----

  /** `&`, then neither `&` nor `;`, then `;`: references are told apart by where they end. */
  predicate RefShaped(w: string) {
    && |w| >= 2 && w[0] == '&' && w[|w| - 1] == ';'
    && forall i | 0 < i < |w| - 1 :: w[i] != ';' && w[i] != '&'
  }

  lemma PrefixCode(w: string, pat: string, rest: string)
    requires RefShaped(w) && RefShaped(pat)
    requires |pat| <= |w + rest| && (w + rest)[..|pat|] == pat
    ensures w == pat
  {
    var s := w + rest;
    assert forall i | 0 <= i < |pat| :: s[..|pat|][i] == s[i];
    assert forall i | 0 <= i < |pat| && i < |w| :: pat[i] == w[i];
  }

  /** Text without an ampersand passes through a replacement unchanged. */
  lemma {:induction false} ReplaceSkips(u: string, rest: string, pat: string, rep: string)
    requires pat != "" && pat[0] == '&' && '&' !in u
    ensures ReplaceAll(u + rest, pat, rep) == u + ReplaceAll(rest, pat, rep)
  {
    if u == "" {
      assert u + rest == rest;
    } else {
      var s := u + rest;
      assert s[1..] == u[1..] + rest;
      assert |pat| <= |s| ==> s[..|pat|][0] == s[0];
      ReplaceSkips(u[1..], rest, pat, rep);
    }
  }

  lemma ReplaceOther(w: string, rest: string, pat: string, rep: string)
    requires RefShaped(w) && RefShaped(pat) && w != pat
    ensures ReplaceAll(w + rest, pat, rep) == w + ReplaceAll(rest, pat, rep)
  {
    var s := w + rest;
    if |pat| <= |s| && s[..|pat|] == pat { PrefixCode(w, pat, rest); }
    assert s[1..] == w[1..] + rest;
    ReplaceSkips(w[1..], rest, pat, rep);
  }

  lemma ReplaceThis(rest: string, pat: string, rep: string)
    requires pat != ""
    ensures ReplaceAll(pat + rest, pat, rep) == rep + ReplaceAll(rest, pat, rep)
  {
    assert (pat + rest)[|pat|..] == rest;
  }

  lemma EntityShape(x: Spelled, chr: nat -> Option<string>, n: nat)
    requires Legal(x, chr) && n <= 4
    ensures Code(x, n) == Units(x) ==> '&' !in Units(x)
    ensures Code(x, n) != Units(x) ==> x.how != Plain && PassOf(x) >= n && RefShaped(Code(x, n))
  {
    match x.how
    case Plain =>
    case Named =>
    case Hex(d) => assert forall i | 0 <= i < |d| :: d[i] != ';' && d[i] != '&';
    case Dec(d) => assert forall i | 0 <= i < |d| :: d[i] != ';' && d[i] != '&';
  }

  /** The entity that one of the first four passes decodes. */
  function NameAt(n: nat): char {
    match n case 0 => '<' case 1 => '>' case 2 => '"' case _ => '\''
  }

  lemma CodeAtNamedPass(x: Spelled, chr: nat -> Option<string>, n: nat)
    requires Legal(x, chr) && n <= 3
    ensures RefShaped(Entity(NameAt(n)))
    ensures Code(x, n) == Entity(NameAt(n)) ==> Code(x, n + 1) == [NameAt(n)]
    ensures Code(x, n) != Entity(NameAt(n)) ==> Code(x, n + 1) == Code(x, n)
  {
    match x.how
    case Plain =>
    case Named =>
    case Hex(d) => NumericIsNoName(x, n);
    case Dec(d) => NumericIsNoName(x, n);
  }

  lemma NumericIsNoName(x: Spelled, n: nat)
    requires (x.how.Hex? || x.how.Dec?) && n <= 3
    ensures Code(x, n) != Units(x) ==> Code(x, n)[1] == '#'
    ensures Entity(NameAt(n))[1] != '#' && |Entity(NameAt(n))| > 1
  {
  }

  lemma {:induction false} NamedPassDecodes(t: seq<Spelled>, chr: nat -> Option<string>, n: nat)
    requires AllLegal(t, chr) && n <= 3
    ensures ReplaceAll(Encoded(t, n), Entity(NameAt(n)), [NameAt(n)]) == Encoded(t, n + 1)
  {
    hide Legal;
    if t != [] {
      var pat, rep, x, rest := Entity(NameAt(n)), [NameAt(n)], t[0], Encoded(t[1..], n);
      var w := Code(x, n);
      NamedPassDecodes(t[1..], chr, n);
      EntityShape(x, chr, n);
      CodeAtNamedPass(x, chr, n);
      hide Code, Entity, NameAt, RefShaped, ReplaceAll;
      if w == pat {
        ReplaceThis(rest, pat, rep);
      } else if w == Units(x) {
        EntityHead(n);
        ReplaceSkips(w, rest, pat, rep);
      } else {
        ReplaceOther(w, rest, pat, rep);
      }
    }
  }

  lemma EntityHead(n: nat)
    ensures Entity(NameAt(n))[0] == '&'
  {
  }

  // ---- numeric passes ----

  function Prepend(u: string, r: Option<string>): Option<string> {
    if r.None? then None else Some(u + r.value)
  }

  lemma PrependTwice(u: string, v: string, r: Option<string>)
    ensures Prepend(u + v, r) == Prepend(u, Prepend(v, r)) && Prepend("", r) == r
  {
    if r.Some? {
      assert u + v + r.value == u + (v + r.value);
      assert "" + r.value == r.value;
    }
  }

  lemma NumericStep(c: char, rest: string, hex: bool, chr: nat -> Option<string>)
    requires Reference([c] + rest, hex) == None
    ensures NumericPass([c] + rest, hex, chr) == Prepend([c], NumericPass(rest, hex, chr))
  {
    hide Reference;
    assert ([c] + rest)[1..] == rest;
  }

  /** Text without an ampersand passes through a numeric pass unchanged. */
  lemma {:induction false} NumericSkips(u: string, rest: string, hex: bool, chr: nat -> Option<string>)
    requires '&' !in u
    ensures NumericPass(u + rest, hex, chr) == Prepend(u, NumericPass(rest, hex, chr))
  {
    hide NumericPass, Prepend, Reference;
    var r := NumericPass(rest, hex, chr);
    if u == "" {
      assert u + rest == rest;
      PrependTwice("", "", r);
    } else {
      var tail := u[1..];
      assert u == [u[0]] + tail && u + rest == [u[0]] + (tail + rest);
      NotReference(u + rest, hex);
      NumericStep(u[0], tail + rest, hex, chr);
      NumericSkips(tail, rest, hex, chr);
      PrependTwice([u[0]], tail, r);
    }
  }

  lemma NotReference(s: string, hex: bool)
    requires s != "" && s[0] != '&'
    ensures Reference(s, hex) == None
  {
    var n := |Opening(hex)|;
    assert |s| >= n ==> s[..n][0] == s[0];
  }

  lemma {:induction false} RunIs(a: string, d: string, rest: string, i: nat, hex: bool)
    requires i <= |d| && (forall k | 0 <= k < |d| :: Digit(d[k], hex))
    ensures Run(a + d + ";" + rest, |a| + i, hex) == |a| + |d|
    decreases |d| - i
  {
    var s := a + d + ";" + rest;
    if i < |d| {
      assert s[|a| + i] == d[i];
      RunIs(a, d, rest, i + 1, hex);
    } else {
      assert s[|a| + |d|] == ';';
    }
  }

  lemma ReferenceRead(d: string, rest: string, hex: bool)
    requires Digits(d, hex)
    ensures Reference(Opening(hex) + d + ";" + rest, hex) == Some(d)
  {
    var a, s := Opening(hex), Opening(hex) + d + ";" + rest;
    RunIs(a, d, rest, 0, hex);
    assert s[..|a|] == a;
    assert s[|a| + |d|] == ';';
    assert s[|a|..|a| + |d|] == d;
  }

  lemma DigitFirst(s: string, hex: bool)
    requires Reference(s, hex).Some?
    ensures |s| > |Opening(hex)| && Digit(s[|Opening(hex)|], hex)
  {
  }

  /** A reference of another kind is not read: the character after its opening tells them apart. */
  lemma OtherReference(w: string, rest: string, hex: bool)
    requires |w| >= 3 && w[0] == '&'
    requires if hex then w[1] != '#' || w[2] != 'x' else w[1] != '#' || !IsDigit(w[2])
    ensures Reference(w + rest, hex) == None
  {
    var s, n := w + rest, |Opening(hex)|;
    assert s[0] == w[0] && s[1] == w[1] && s[2] == w[2];
    assert |s| >= n && s[..n] == Opening(hex) ==> forall i | 0 <= i < n :: s[i] == s[..n][i] == Opening(hex)[i];
    if Reference(s, hex).Some? { DigitFirst(s, hex); }
  }

  lemma CodeAtNumericPass(x: Spelled, chr: nat -> Option<string>, hex: bool)
    requires Legal(x, chr)
    ensures var n := if hex then 4 else 5;
            var w := Code(x, n);
            if (x.how.Hex? && hex) || (x.how.Dec? && !hex) then
              w == Opening(hex) + x.how.digits + ";" && Digits(x.how.digits, hex)
              && chr(Value(x.how.digits, hex)) == Some(Units(x)) && Code(x, n + 1) == Units(x)
            else
              Code(x, n + 1) == w
              && (w == Units(x) || (|w| >= 3 && if hex then w[1] != '#' || w[2] != 'x' else w[1] != '#' || !IsDigit(w[2])))
  {
    match x.how
    case Plain =>
    case Named =>
    case Hex(d) =>
    case Dec(d) => assert Code(x, 4)[2] == d[0];
  }

  lemma {:induction false} HexPassDecodes(t: seq<Spelled>, chr: nat -> Option<string>)
    requires AllLegal(t, chr)
    ensures NumericPass(Encoded(t, 4), true, chr) == Some(Encoded(t, 5))
  {
    hide Legal, Code;
    if t != [] {
      var x, rest := t[0], Encoded(t[1..], 4);
      HexPassDecodes(t[1..], chr);
      EntityShape(x, chr, 4);
      CodeAtNumericPass(x, chr, true);
      var w := Code(x, 4);
      if x.how.Hex? {
        ReferenceStep(x.how.digits, rest, true, chr);
        assert Encoded(t, 4) == Opening(true) + x.how.digits + ";" + rest;
      } else if w == Units(x) {
        NumericSkips(w, rest, true, chr);
      } else {
        OtherReference(w, rest, true);
        OtherStep(w, rest, true, chr);
      }
    }
  }

  lemma ReferenceStep(d: string, rest: string, hex: bool, chr: nat -> Option<string>)
    requires Digits(d, hex)
    ensures NumericPass(Opening(hex) + d + ";" + rest, hex, chr) ==
            var c := chr(Value(d, hex));
            if c.None? then None else Prepend(c.value, NumericPass(rest, hex, chr))
  {
    ReferenceRead(d, rest, hex);
    assert (Opening(hex) + d + ";" + rest)[|Opening(hex)| + |d| + 1..] == rest;
  }

  lemma OtherStep(w: string, rest: string, hex: bool, chr: nat -> Option<string>)
    requires RefShaped(w) && Reference(w + rest, hex) == None
    ensures NumericPass(w + rest, hex, chr) == Prepend(w, NumericPass(rest, hex, chr))
  {
    hide NumericPass, Prepend, Reference;
    var tail := w[1..];
    assert w == [w[0]] + tail && w + rest == [w[0]] + (tail + rest);
    NumericStep(w[0], tail + rest, hex, chr);
    NumericSkips(tail, rest, hex, chr);
    PrependTwice([w[0]], tail, NumericPass(rest, hex, chr));
  }
}
