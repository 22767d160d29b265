/** Canonical-LF text and name order: `canonicalSql`, `canonicalText` and the listing order of a directory. */
module CanonicalText {
  import opened Text

  /** `replace(/\r\n/g, '\n')` */
  function Canonical(t: string): string {
    if t == "" then ""
    else if |t| >= 2 && t[0] == '\r' && t[1] == '\n' then "\n" + Canonical(t[2..])
    else [t[0]] + Canonical(t[1..])
  }

  /** What a checkout with `core.autocrlf` writes for a committed text. */
  function Checkout(t: string): string {
    if t == "" then "" else (if t[0] == '\n' then "\r\n" else [t[0]]) + Checkout(t[1..])
  }

  /** Canonicalisation undoes the checkout of every text, carriage returns or not. */
  lemma {:induction false} CheckoutUndone(t: string)
    ensures Canonical(Checkout(t)) == t
  {
    if t != "" {
      CheckoutUndone(t[1..]);
      if t[0] == '\n' {
        assert Checkout(t)[2..] == Checkout(t[1..]);
      } else {
        assert Checkout(t)[1..] == Checkout(t[1..]);
        assert |t| > 1 ==> Checkout(t)[1] != '\n' by { CheckoutHead(t[1..]); }
      }
    }
  }

  lemma CheckoutHead(t: string)
    ensures t == "" <==> Checkout(t) == ""
    ensures t != "" ==> Checkout(t)[0] != '\n'
  {
  }

  lemma ContainsTail(t: string, p: string)
    requires t != "" && p != ""
    ensures Contains(t, p) <==> OccursAt(t, p, 0) || Contains(t[1..], p)
  {
    forall i: int | OccursAt(t, p, i) && i > 0 ensures OccursAt(t[1..], p, i - 1) {
      OccursSuffix(t, 1, p, i - 1);
    }
    forall i: int | OccursAt(t[1..], p, i) ensures OccursAt(t, p, i + 1) {
      OccursSuffix(t, 1, p, i);
    }
  }

  lemma EmptyContains(p: string)
    requires p != ""
    ensures !Contains("", p)
  {
  }

  lemma {:induction false} CanonicalShorter(t: string)
    ensures |Canonical(t)| <= |t|
    ensures |Canonical(t)| == |t| ==> Canonical(t) == t
    ensures |Canonical(t)| == |t| <==> !Contains(t, "\r\n")
  {
    EmptyContains("\r\n");
    if t != "" {
      ContainsTail(t, "\r\n");
      OccursTwo(t, "\r\n", 0);
      if |t| >= 2 && t[0] == '\r' && t[1] == '\n' {
        CanonicalShorter(t[2..]);
      } else {
        CanonicalShorter(t[1..]);
      }
    }
  }

  /** A text is its own canonical form exactly when it holds no CRLF. */
  lemma CanonicalFixed(t: string)
    ensures Canonical(t) == t <==> !Contains(t, "\r\n")
  {
    CanonicalShorter(t);
  }

  lemma OccursThree(s: string, a: char, b: char, c: char)
    ensures OccursAt(s, [a, b, c], 0) <==> |s| >= 3 && s[0] == a && s[1] == b && s[2] == c
  {
    if |s| >= 3 { assert s[0..3] == [s[0], s[1], s[2]]; }
  }

  /** A CRLF survives canonicalisation exactly where a further carriage return stood before it. */
  lemma {:induction false} CrlfSurvives(t: string)
    ensures Contains(Canonical(t), "\r\n") <==> Contains(t, "\r\r\n")
  {
    EmptyContains("\r\n");
    EmptyContains("\r\r\n");
    if t != "" {
      var c := Canonical(t);
      ContainsTail(t, "\r\r\n");
      ContainsTail(c, "\r\n");
      OccursTwo(c, "\r\n", 0);
      OccursThree(t, '\r', '\r', '\n');
      if |t| >= 2 && t[0] == '\r' && t[1] == '\n' {
        CrlfSurvives(t[2..]);
        ContainsTail(t[1..], "\r\r\n");
        OccursThree(t[1..], '\r', '\r', '\n');
        assert c[1..] == Canonical(t[2..]);
        assert t[1..][1..] == t[2..];
      } else {
        CrlfSurvives(t[1..]);
        assert c[1..] == Canonical(t[1..]);
      }
    }
  }

  /** Canonicalising twice is canonicalising once exactly when no CRLF is preceded by a carriage return. */
  lemma CanonicalIdempotent(t: string)
    ensures Canonical(Canonical(t)) == Canonical(t) <==> !Contains(t, "\r\r\n")
  {
    CanonicalFixed(Canonical(t));
    CrlfSurvives(t);
  }

  /** Each canonicalisation of CR CR LF takes one carriage return. */
  lemma CanonicalTwice()
    ensures Canonical("\r\r\n") == "\r\n" && Canonical("\r\n") == "\n"
  {
    assert "\r\r\n"[1..] == "\r\n" && "\r\n"[2..] == "" && "\r\n"[1..] == "\n" && "\n"[1..] == "";
  }

  // ---- names in listing order ----

  predicate Precedes(a: string, b: string) {
    a == "" || (b != "" && (a[0] < b[0] || (a[0] == b[0] && Precedes(a[1..], b[1..]))))
  }

  lemma {:induction false} PrecedesTotal(a: string, b: string)
    ensures Precedes(a, b) || Precedes(b, a)
    ensures Precedes(a, b) && Precedes(b, a) ==> a == b
  {
    if a != "" && b != "" { PrecedesTotal(a[1..], b[1..]); }
  }

  lemma {:induction false} PrecedesTrans(a: string, b: string, c: string)
    requires Precedes(a, b) && Precedes(b, c)
    ensures Precedes(a, c)
  {
    if a != "" && a[0] == b[0] && b[0] == c[0] { PrecedesTrans(a[1..], b[1..], c[1..]); }
  }

  /** The first code unit that differs decides, and a name comes before the names it begins. */
  lemma {:induction false} PrecedesMeans(a: string, b: string)
    ensures Precedes(a, b) <==> a <= b || exists k: nat :: k < |a| && k < |b| && a[..k] == b[..k] && a[k] < b[k]
  {
    if a != "" && b != "" {
      PrecedesMeans(a[1..], b[1..]);
      if a[0] == b[0] {
        if k: nat :| k < |a[1..]| && k < |b[1..]| && a[1..][..k] == b[1..][..k] && a[1..][k] < b[1..][k] {
          assert a[..k + 1] == [a[0]] + a[1..][..k] && b[..k + 1] == [b[0]] + b[1..][..k];
        }
        if k: nat :| k < |a| && k < |b| && a[..k] == b[..k] && a[k] < b[k] {
          assert k > 0;
          assert a[1..][..k - 1] == a[..k][1..] && b[1..][..k - 1] == b[..k][1..];
        }
        assert a == [a[0]] + a[1..] && b == [b[0]] + b[1..];
      } else if a[0] < b[0] {
        assert a[..0] == b[..0];
      } else {
        assert forall k: nat | 0 < k <= |a| && k <= |b| :: a[..k][0] != b[..k][0];
      }
    }
  }

  ghost predicate IsLeast(m: string, s: set<string>) {
    m in s && forall o | o in s :: Precedes(m, o)
  }

  lemma LeastExists(s: set<string>)
    requires s != {}
    ensures exists m :: IsLeast(m, s)
    decreases |s|
  {
    var x :| x in s;
    PrecedesTotal(x, x);
    if s != {x} {
      LeastExists(s - {x});
      var m :| IsLeast(m, s - {x});
      PrecedesTotal(x, m);
      if Precedes(x, m) {
        forall o | o in s ensures Precedes(x, o) {
          if o != x { PrecedesTrans(x, m, o); }
        }
        assert IsLeast(x, s);
      } else {
        assert IsLeast(m, s);
      }
    } else {
      assert IsLeast(x, s);
    }
  }

  ghost predicate StrictlySorted(names: seq<string>) {
    forall i, j | 0 <= i < j < |names| :: names[i] != names[j] && Precedes(names[i], names[j])
  }

  ghost function Sorted(names: set<string>): (r: seq<string>)
    ensures StrictlySorted(r)
    ensures forall n :: n in r <==> n in names
    decreases |names|
  {
    if names == {} then []
    else
      LeastExists(names);
      var m :| IsLeast(m, names);
      var rest := Sorted(names - {m});
      assert forall i | 0 <= i < |rest| :: rest[i] in rest;
      [m] + rest
  }

  /** There is only one strictly increasing listing of a set of names. */
  lemma {:induction false} SortedUnique(names: seq<string>)
    requires StrictlySorted(names)
    ensures names == Sorted(set n | n in names)
  {
    var s := set n | n in names;
    var r := Sorted(s);
    SameListing(names, r);
  }

  lemma {:induction false} SameListing(a: seq<string>, b: seq<string>)
    requires StrictlySorted(a) && StrictlySorted(b) && forall n :: n in a <==> n in b
    ensures a == b
  {
    assert b != [] ==> b[0] in b;
    if a != [] {
      assert a[0] in a;
      var k :| 0 <= k < |b| && b[k] == a[0];
      assert b[0] in b;
      var l :| 0 <= l < |a| && a[l] == b[0];
      PrecedesTotal(a[0], b[0]);
      assert a[0] == b[0];
      forall n ensures n in a[1..] <==> n in b[1..] {
        assert n in a <==> n == a[0] || n in a[1..];
        assert n in b <==> n == b[0] || n in b[1..];
        if n in a[1..] { var i :| 0 <= i < |a[1..]| && a[1..][i] == n; assert a[i + 1] != a[0]; }
        if n in b[1..] { var i :| 0 <= i < |b[1..]| && b[1..][i] == n; assert b[i + 1] != b[0]; }
      }
      SameListing(a[1..], b[1..]);
    }
  }

  /** `readdirSync(dir).sort()`: the least remaining name is taken until none is left. */
  method List(names: set<string>) returns (r: seq<string>)
    ensures r == Sorted(names)
  {
    r := [];
    var left := names;
    while left != {}
      invariant left <= names && StrictlySorted(r)
      invariant forall n :: n in names <==> n in r || n in left
      invariant forall n, o | n in r && o in left :: n != o && Precedes(n, o)
      decreases left
    {
      var m := Least(left);
      r := r + [m];
      left := left - {m};
    }
    assert names == set n | n in r;
    SortedUnique(r);
  }

  method Least(s: set<string>) returns (m: string)
    requires s != {}
    ensures IsLeast(m, s)
  {
    m :| m in s;
    var rest := s - {m};
    PrecedesTotal(m, m);
    while rest != {}
      invariant rest <= s && m in s
      invariant forall o | o in s && o !in rest :: Precedes(m, o)
      decreases rest
    {
      var x :| x in rest;
      PrecedesTotal(m, x);
      PrecedesTotal(x, x);
      if !Precedes(m, x) {
        forall o | o in s && o !in rest ensures Precedes(x, o) {
          PrecedesTrans(x, m, o);
        }
        m := x;
      }
      rest := rest - {x};
    }
  }
}
