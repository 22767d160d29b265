/** Text primitives shared by the models.  A `char` stands for one UTF-16 code unit of the source. */
module Text {

  datatype Option<+T> = None | Some(value: T)

  datatype Result<+T, +E> = Ok(value: T) | Err(error: E)

  /** `p` occurs in `s` at index `i`. */
  predicate OccursAt<T(==)>(s: seq<T>, p: seq<T>, i: int) {
    0 <= i && i + |p| <= |s| && s[i..i + |p|] == p
  }

  ghost predicate Contains<T>(s: seq<T>, p: seq<T>) {
    exists i: int :: OccursAt(s, p, i)
  }

  /** The least index at or after `from` at which `p` occurs. */
  function FirstFrom<T(==)>(s: seq<T>, p: seq<T>, from: nat): (r: Option<nat>)
    ensures r.Some? ==> from <= r.value && OccursAt(s, p, r.value)
    ensures r.Some? ==> forall j: int | from <= j < r.value :: !OccursAt(s, p, j)
    ensures r.None? ==> forall j: int | from <= j :: !OccursAt(s, p, j)
    decreases |s| - from
  {
    if from + |p| > |s| then None
    else if s[from..from + |p|] == p then Some(from)
    else FirstFrom(s, p, from + 1)
  }

  /** `String.prototype.indexOf` with a start index, which is clamped to the length. */
  function IndexOf<T(==)>(s: seq<T>, p: seq<T>, from: nat): (r: Option<nat>)
  {
    FirstFrom(s, p, if from > |s| then |s| else from)
  }

  /** JavaScript white space, as `\s` and `trim` read it. */
  predicate IsSpace(c: char) {
    || c == ' ' || '\t' <= c <= '\r' || c == '\U{00A0}' || c == '\U{1680}' || '\U{2000}' <= c <= '\U{200A}'
    || c == '\U{2028}' || c == '\U{2029}' || c == '\U{202F}' || c == '\U{205F}' || c == '\U{3000}' || c == '\U{FEFF}'
  }

  const SPACES: string :=
    "\t\n\U{000B}\U{000C}\r \U{00A0}\U{1680}\U{2000}\U{2001}\U{2002}\U{2003}\U{2004}\U{2005}\U{2006}\U{2007}\U{2008}\U{2009}\U{200A}"
    + "\U{2028}\U{2029}\U{202F}\U{205F}\U{3000}\U{FEFF}"

  /** All of it, character by character. */
  lemma SpaceMeans(c: char)
    ensures IsSpace(c) <==> c in SPACES
  {
    if '\t' <= c <= '\r' { assert SPACES[c as int - 9] == c; }
    if '\U{2000}' <= c <= '\U{200A}' { assert SPACES[c as int - 0x2000 + 8] == c; }
    assert SPACES[5] == ' ' && SPACES[6] == '\U{00A0}' && SPACES[7] == '\U{1680}' && SPACES[19] == '\U{2028}'
        && SPACES[20] == '\U{2029}' && SPACES[21] == '\U{202F}' && SPACES[22] == '\U{205F}' && SPACES[23] == '\U{3000}'
        && SPACES[24] == '\U{FEFF}';
  }

  predicate IsDigit(c: char) { '0' <= c <= '9' }

  /** `\w` */
  predicate WordChar(c: char) {
    'a' <= c <= 'z' || 'A' <= c <= 'Z' || '0' <= c <= '9' || c == '_'
  }

  function Lower(c: char): char {
    if 'A' <= c <= 'Z' then (c as int + 32) as char else c
  }

  /** `w`, in any case, stands at `i`. */
  predicate LettersAt(s: string, w: string, i: int) {
    0 <= i && i + |w| <= |s| && forall k | 0 <= k < |w| :: Lower(s[i + k]) == w[k]
  }

  /** `trim() === ''` */
  predicate Blank(s: string) {
    forall i | 0 <= i < |s| :: IsSpace(s[i])
  }

  /** An occurrence seen through a suffix or a prefix is the same occurrence. */
  lemma OccursSuffix<T>(s: seq<T>, i: nat, p: seq<T>, k: nat)
    requires i <= |s|
    ensures OccursAt(s[i..], p, k) <==> OccursAt(s, p, i + k)
  {
    if i + k + |p| <= |s| {
      assert s[i..][k..k + |p|] == s[i + k..i + k + |p|];
    }
  }

  lemma FirstFromSuffix<T>(s: seq<T>, i: nat, p: seq<T>, m: nat)
    requires i <= |s|
    ensures match FirstFrom(s[i..], p, m)
      case None => FirstFrom(s, p, i + m) == None
      case Some(v) => FirstFrom(s, p, i + m) == Some(i + v)
    decreases |s| - m
  {
    OccursSuffix(s, i, p, m);
    if i + m + |p| <= |s| {
      FirstFromSuffix(s, i, p, m + 1);
    }
  }

  lemma OccursPrefix<T>(a: seq<T>, b: seq<T>, p: seq<T>, i: int)
    requires i + |p| <= |a|
    ensures OccursAt(a + b, p, i) <==> OccursAt(a, p, i)
  {
    if 0 <= i {
      assert (a + b)[i..i + |p|] == a[i..i + |p|];
    }
  }

  lemma OccursTwo<T>(s: seq<T>, p: seq<T>, i: int)
    requires |p| == 2
    ensures OccursAt(s, p, i) <==> 0 <= i && i + 2 <= |s| && s[i] == p[0] && s[i + 1] == p[1]
  {
    if 0 <= i && i + 2 <= |s| {
      assert s[i..i + 2] == [s[i], s[i + 1]];
      assert p == [p[0], p[1]];
    }
  }

  lemma SearchDecides<T>(s: seq<T>, p: seq<T>)
    ensures FirstFrom(s, p, 0).Some? <==> Contains(s, p)
  {
  }

  lemma OccursElement<T>(s: seq<T>, p: seq<T>, i: int, k: nat)
    requires k < |p|
    ensures OccursAt(s, p, i) ==> 0 <= i && i + |p| <= |s| && s[i + k] == p[k]
  {
    if OccursAt(s, p, i) { assert s[i..i + |p|][k] == s[i + k]; }
  }

  /** What occurs inside something that occurs, occurs. */
  lemma OccursWithin<T>(s: seq<T>, outer: seq<T>, at: nat, inner: seq<T>, k: nat)
    requires OccursAt(s, outer, at) && OccursAt(outer, inner, k)
    ensures OccursAt(s, inner, at + k)
  {
    var w := s[at..at + |outer|];
    forall j | 0 <= j < |inner| ensures s[at + k + j] == inner[j] {
      assert inner[j] == outer[k..k + |inner|][j];
      assert w[k + j] == s[at + k + j];
    }
    assert s[at + k..at + k + |inner|] == inner;
  }

  /** Where the pieces of a concatenation occur. */
  lemma OccursMiddle<T>(a: seq<T>, b: seq<T>, c: seq<T>)
    ensures OccursAt(a + b + c, b, |a|)
  {
  }

  lemma FirstIs<T>(s: seq<T>, p: seq<T>, from: nat, i: nat)
    requires from <= i && OccursAt(s, p, i) && forall j: int | from <= j < i :: !OccursAt(s, p, j)
    ensures FirstFrom(s, p, from) == Some(i)
  {
  }

  /** Occurrence depends only on the characters it covers. */
  lemma OccursSame<T>(a: seq<T>, b: seq<T>, p: seq<T>, i: nat)
    requires i + |p| <= |a| && i + |p| <= |b| && forall k | i <= k < i + |p| :: a[k] == b[k]
    ensures OccursAt(a, p, i) <==> OccursAt(b, p, i)
  {
    assert a[i..i + |p|] == b[i..i + |p|];
  }

  // ---- lists ----

  predicate Distinct<T(==)>(s: seq<T>) {
    forall i, j | 0 <= i < j < |s| :: s[i] != s[j]
  }

  /** `filter` */
  function Filter<T(!new)>(s: seq<T>, p: T -> bool): (r: seq<T>)
    ensures forall x :: x in r <==> x in s && p(x)
  {
    if s == [] then [] else (if p(s[0]) then [s[0]] else []) + Filter(s[1..], p)
  }

  lemma EmptyFilter<T(!new)>(s: seq<T>, p: T -> bool)
    ensures Filter(s, p) == [] <==> forall x | x in s :: !p(x)
  {
    var f := Filter(s, p);
    if f != [] { assert f[0] in f; }
  }
}
