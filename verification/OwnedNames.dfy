/** Which names the derivation of the owned tables takes out of a migration, on the positions of its text. */
module OwnedNames {
  import opened Text
  import opened SqlScan
  import opened SqlScanLaws
  import opened OwnedTables
  import opened OwnedTablesLaws

  // ---- all matches of a pattern ----

  /** Every place where a pattern matches is a match found, or lies inside one. */
  lemma {:induction false} AllCover(s: string, p: Pattern, from: nat, i: nat)
    requires from <= i && Matches(s, p, i)
    ensures exists m :: m in All(s, p, from) && m.start <= i < m.end
    decreases |s| - from
  {
    hide Matches;
    var first := Next(s, p, from);
    MatchSpans(s, p, i);
    NextMatches(s, p, from);
    if first.value.end <= i {
      AllCover(s, p, first.value.end, i);
      var m :| m in All(s, p, first.value.end) && m.start <= i < m.end;
      assert m in All(s, p, from);
    } else {
      assert first.value in All(s, p, from);
    }
  }

  lemma NextMatches(s: string, p: Pattern, from: nat)
    ensures match Next(s, p, from)
      case None => forall k: nat | from <= k < |s| :: !Matches(s, p, k)
      case Some(m) => Matches(s, p, m.start) && forall k: nat | from <= k < m.start :: !Matches(s, p, k)
  {
  }

  // ---- which quote opens ----

  /** A name stands quoted from `i` on, from `from` on counting, and the quote at `i` does not close another one. */
  ghost predicate OpensFrom(s: string, from: nat, i: nat)
    decreases i
  {
    && from <= i && (exists e: nat :: QuotedAt(s, i, e))
    && forall j: nat | from <= j < i && QuotedAt(s, j, i) :: !OpensFrom(s, from, j)
  }

  /** No quote stands inside a quoted name, nor a bracket. */
  lemma Inside(s: string, i: nat, e: nat, k: nat)
    requires QuotedAt(s, i, e) && i < k < e
    ensures s[k] != '\'' && s[k] != '[' && s[k] != ']'
  {
    assert s[k] == s[i + 1..e][k - i - 1];
  }

  lemma OneEnd(s: string, i: nat, e: nat, f: nat)
    requires QuotedAt(s, i, e) && QuotedAt(s, i, f)
    ensures e == f
  {
    if e < f { Inside(s, i, f, e); }
    if f < e { Inside(s, i, e, f); }
  }

  lemma NameMatches(s: string, i: nat)
    ensures Matches(s, QuotedName, i) <==> exists e: nat :: QuotedAt(s, i, e)
    ensures forall e: nat | QuotedAt(s, i, e) :: QuotedName(s, i) == Some(Match(i, e + 1, Lowered(s[i + 1..e]), i + 1))
  {
    hide QuotedName, IsIdentifier;
    forall e: nat | QuotedAt(s, i, e) ensures QuotedName(s, i) == Some(Match(i, e + 1, Lowered(s[i + 1..e]), i + 1)) {
      QuotedMeans(s, i, Match(i, e + 1, Lowered(s[i + 1..e]), i + 1));
    }
    if QuotedName(s, i).Some? { QuotedMeans(s, i, QuotedName(s, i).value); }
  }

  /** Past one found name, the same quotes open as before it. */
  lemma {:induction false} OpensLater(s: string, from: nat, i: nat, e: nat, k: nat)
    requires from <= i && QuotedAt(s, i, e) && e < k
    requires forall j: nat, f: nat | from <= j < i :: !QuotedAt(s, j, f)
    ensures OpensFrom(s, from, k) <==> OpensFrom(s, e + 1, k)
    decreases k
  {
    hide QuotedAt;
    QuoteAt(s, i, e);
    assert OpensFrom(s, from, i);
    forall j: nat | from <= j < k && QuotedAt(s, j, k)
      ensures if j == e then !OpensFrom(s, from, j) else j > e && (OpensFrom(s, from, j) <==> OpensFrom(s, e + 1, j))
    {
      if j == i {
        OneEnd(s, i, e, k);
      } else if i < j < e {
        QuoteAt(s, j, k);
        Inside(s, i, e, j);
      } else if j > e {
        OpensLater(s, from, i, e, j);
      }
    }
  }

  lemma QuoteAt(s: string, i: nat, e: nat)
    requires QuotedAt(s, i, e)
    ensures i < e < |s| && s[i] == '\'' && s[e] == '\''
  {
  }

  /** The names found are those whose first quote closes no other name that is found. */
  lemma {:induction false} AllQuoted(s: string, from: nat, m: Match)
    ensures m in All(s, QuotedName, from) <==> OpensFrom(s, from, m.start) && QuotedName(s, m.start) == Some(m)
    decreases |s| - from
  {
    hide QuotedName, QuotedAt, Next, Matches;
    NextMatches(s, QuotedName, from);
    forall k: nat ensures Matches(s, QuotedName, k) <==> exists e: nat :: QuotedAt(s, k, e) { NameMatches(s, k); }
    var first := Next(s, QuotedName, from);
    if first.None? {
      NameMatches(s, m.start);
      forall e: nat | QuotedAt(s, m.start, e) ensures m.start < |s| { QuoteAt(s, m.start, e); }
    } else {
      var i := first.value.start;
      var e: nat :| QuotedAt(s, i, e);
      NameMatches(s, i);
      assert first.value.end == e + 1;
      forall k: nat, f: nat | from <= k < i ensures !QuotedAt(s, k, f) { NameMatches(s, k); }
      AllQuoted(s, e + 1, m);
      assert OpensFrom(s, from, i);
      AllHead(s, from, m);
      if m.start > e {
        OpensLater(s, from, i, e, m.start);
      } else if i < m.start <= e {
        BetweenFound(s, from, i, e, m.start);
      }
    }
  }

  lemma AllHead(s: string, from: nat, m: Match)
    requires Next(s, QuotedName, from).Some?
    ensures var first := Next(s, QuotedName, from).value;
            m in All(s, QuotedName, from) <==> m == first || m in All(s, QuotedName, first.end)
  {
    hide Next;
  }

  lemma BetweenFound(s: string, from: nat, i: nat, e: nat, k: nat)
    requires from <= i < k <= e && QuotedAt(s, i, e) && OpensFrom(s, from, i)
    ensures !OpensFrom(s, from, k) && !OpensFrom(s, e + 1, k)
  {
    hide QuotedAt;
    if k < e {
      forall f: nat ensures !QuotedAt(s, k, f) {
        if QuotedAt(s, k, f) {
          QuoteAt(s, k, f);
          Inside(s, i, e, k);
        }
      }
    }
  }

  /** The quote opens a name, counted from the beginning of the text. */
  ghost predicate Opens(s: string, i: nat) { OpensFrom(s, 0, i) }

  /** Counting from just after a bracket makes no difference, for no name runs across one. */
  lemma {:induction false} OpensPastBracket(s: string, open: nat, i: nat)
    requires 0 < open <= i && open <= |s| && s[open - 1] == '['
    ensures OpensFrom(s, open, i) <==> Opens(s, i)
    decreases i
  {
    hide QuotedAt;
    forall j: nat | j < i && QuotedAt(s, j, i) ensures j >= open && (OpensFrom(s, open, j) <==> Opens(s, j)) {
      QuoteAt(s, j, i);
      if j < open - 1 { Inside(s, j, i, open - 1); }
      OpensPastBracket(s, open, j);
    }
  }

  /** Names quoted in the list alone are those quoted in the text between the brackets. */
  lemma QuotedInList(s: string, open: nat, close: nat, i: nat, e: nat)
    requires open <= close < |s| && s[close] == ']'
    ensures QuotedAt(s[open..close], i, e) <==> QuotedAt(s, open + i, open + e) && open + i < close
    ensures QuotedAt(s[open..close], i, e) ==> s[open..close][i + 1..e] == s[open + i + 1..open + e]
  {
    hide IsIdentifier;
    var list := s[open..close];
    if i < e < |list| { SliceOfSlice(s, open, close, i + 1, e); }
    if QuotedAt(s, open + i, open + e) && open + i < close {
      if close < open + e { Inside(s, open + i, open + e, close); }
    }
  }

  lemma SliceOfSlice(s: string, open: nat, close: nat, i: nat, e: nat)
    requires open <= close <= |s| && i <= e <= close - open
    ensures s[open..close][i..e] == s[open + i..open + e]
  {
    forall k | 0 <= k < e - i ensures s[open..close][i..e][k] == s[open + i..open + e][k] {
      assert s[open..close][i + k] == s[open + i + k];
    }
  }

  lemma {:induction false} OpensInList(s: string, open: nat, close: nat, i: nat)
    requires 0 < open <= close < |s| && s[open - 1] == '[' && s[close] == ']' && open + i < close
    ensures OpensFrom(s[open..close], 0, i) <==> OpensFrom(s, open, open + i)
    decreases i
  {
    hide QuotedAt;
    var list := s[open..close];
    forall e: nat ensures QuotedAt(list, i, e) <==> QuotedAt(s, open + i, open + e) { QuotedInList(s, open, close, i, e); }
    var at := open + i;
    forall e: nat | QuotedAt(s, at, e) ensures e >= open && QuotedAt(list, i, e - open) { QuoteAt(s, at, e); }
    forall j: nat | j < i ensures QuotedAt(list, j, i) <==> QuotedAt(s, open + j, open + i)
                          ensures OpensFrom(list, 0, j) <==> OpensFrom(s, open, open + j)
    {
      QuotedInList(s, open, close, j, i);
      OpensInList(s, open, close, j);
    }
    forall j: nat | open <= j < open + i && QuotedAt(s, j, open + i)
      ensures QuotedAt(list, j - open, i) && (OpensFrom(list, 0, j - open) <==> OpensFrom(s, open, j))
    {
    }
  }

  // ---- the names of a block ----

  /** The name `t`, in any case, between the quotes at `i` and `e`. */
  predicate Spells(s: string, i: nat, e: nat, t: string) {
    QuotedAt(s, i, e) && Lowered(s[i + 1..e]) == t
  }

  /** Between the brackets of some array literal stands the name, quoted, in any case. */
  ghost predicate NamesTable(block: string, t: string) {
    exists i: nat, e: nat :: InArray(block, i) && Spells(block, i, e, t) && Opens(block, i)
  }

  ghost predicate InArray(block: string, i: nat) {
    exists a: nat, open: nat, close: nat :: ArrayAt(block, a, open, close) && open <= i < close
  }

  lemma ArrayBrackets(s: string, a: nat, open: nat, close: nat)
    requires ArrayAt(s, a, open, close)
    ensures a + 5 < open <= close < |s| && s[open - 1] == '[' && s[close] == ']'
    ensures Lower(s[a]) == 'a' && forall k | a <= k < close :: s[k] != ']'
    ensures forall k | a < k < open :: !LettersAt(s, "array", k)
  {
    OccursElement(s, "]", close, 0);
    forall k | a <= k < a + 5 ensures Lower(s[k]) == "array"[k - a] { assert Lower(s[a + (k - a)]) == "array"[k - a]; }
    forall k | a <= k < close ensures s[k] != ']' {
      if k >= open { assert !OccursAt(s, "]", k); assert s[k..k + 1] == [s[k]]; }
      if a + 5 <= k < open - 1 { assert s[k] == s[a + 5..open - 1][k - a - 5]; }
    }
    assert forall k | a + 5 <= k < open - 1 :: s[k] == s[a + 5..open - 1][k - a - 5];
    forall k | a < k < open ensures !LettersAt(s, "array", k) { TwoLetters(s, "array", k); }
  }

  lemma {:induction false} ArrayNamesMean(block: string, arrays: seq<Match>, t: string)
    ensures t in ArrayNames(block, arrays) <==> exists a :: a in arrays && t in Quoted(block, a)
  {
    hide Quoted;
    if arrays != [] {
      var n := |arrays| - 1;
      ArrayNamesMean(block, arrays[..n], t);
      assert arrays == arrays[..n] + [arrays[n]];
    }
  }

  lemma NameFound(found: seq<Match>, t: string)
    ensures t in NamesOf(found) <==> exists m :: m in found && m.name == t
  {
    if m :| m in found && m.name == t {
      var i :| 0 <= i < |found| && found[i] == m;
      assert NamesOf(found)[i] == t;
    }
  }

  lemma ListNames(list: string, t: string)
    ensures t in NamesOf(All(list, QuotedName, 0)) <==>
            exists i: nat, e: nat :: Spells(list, i, e, t) && OpensFrom(list, 0, i)
  {
    hide QuotedName, QuotedAt, All, NamesOf;
    NameFound(All(list, QuotedName, 0), t);
    if m :| m in All(list, QuotedName, 0) && m.name == t {
      AllQuoted(list, 0, m);
      NameMatches(list, m.start);
      var e: nat :| QuotedAt(list, m.start, e);
      QuoteAt(list, m.start, e);
      assert Spells(list, m.start, e, t);
    }
    if i: nat, e: nat :| Spells(list, i, e, t) && OpensFrom(list, 0, i) {
      QuoteAt(list, i, e);
      NameMatches(list, i);
      AllQuoted(list, 0, Match(i, e + 1, t, i + 1));
    }
  }

  /** The names of one array literal, on the positions of the block. */
  lemma QuotedNames(block: string, a: nat, open: nat, close: nat, t: string)
    requires ArrayAt(block, a, open, close)
    ensures t in Quoted(block, Match(a, close + 1, "", open)) <==>
            exists i: nat, e: nat :: open <= i < close && Spells(block, i, e, t) && Opens(block, i)
  {
    hide QuotedAt, LettersAt, ArrayAt, All, NamesOf, OpensFrom, Lowered;
    ArrayBrackets(block, a, open, close);
    var list := block[open..close];
    ListNames(list, t);
    if i: nat, e: nat :| Spells(list, i, e, t) && OpensFrom(list, 0, i) {
      QuotedInList(block, open, close, i, e);
      OpensInList(block, open, close, i);
      OpensPastBracket(block, open, open + i);
      assert Spells(block, open + i, open + e, t);
    }
    if i: nat, e: nat :| open <= i < close && Spells(block, i, e, t) && Opens(block, i) {
      QuoteAt(block, i, e);
      QuotedInList(block, open, close, i - open, e - open);
      OpensInList(block, open, close, i - open);
      OpensPastBracket(block, open, i);
      assert Spells(list, i - open, e - open, t);
    }
  }

  lemma ArrayFound(block: string, m: Match)
    requires m in All(block, ArrayLiteral, 0)
    ensures m.end > 0 && m.name == "" && ArrayAt(block, m.start, m.open, m.end - 1)
  {
    hide ArrayLiteral, ArrayAt;
    AllAscends(block, ArrayLiteral, 0);
    ArrayMeans(block, m.start, m);
  }

  /** An array literal, even one that another holds, lies between the brackets of one that is found. */
  lemma ArrayHeld(block: string, a: nat, open: nat, close: nat) returns (m: Match)
    requires ArrayAt(block, a, open, close)
    ensures m in All(block, ArrayLiteral, 0) && m.open <= open <= close <= m.end - 1
  {
    hide ArrayLiteral, All, LettersAt, FirstAt;
    ArrayBrackets(block, a, open, close);
    ArrayMeans(block, a, Match(a, close + 1, "", open));
    AllCover(block, ArrayLiteral, 0, a);
    m :| m in All(block, ArrayLiteral, 0) && m.start <= a < m.end;
    ArrayFound(block, m);
    ArrayBrackets(block, m.start, m.open, m.end - 1);
    if m.start == a {
      SameArray(block, a, open, close, m.open, m.end - 1);
    } else {
      assert LettersAt(block, "array", a);
      SameClose(block, a, m.open, close, m.end - 1);
    }
  }

  lemma SameArray(s: string, a: nat, open: nat, close: nat, open': nat, close': nat)
    requires ArrayAt(s, a, open, close) && ArrayAt(s, a, open', close')
    ensures open == open' && close == close'
  {
    hide FirstAt, LettersAt;
    assert !IsSpace('[');
    SkipMeans(s, a + 5, open - 1);
    SkipMeans(s, a + 5, open' - 1);
    FirstMeans(s, "]", open, close);
    FirstMeans(s, "]", open, close');
  }

  /** Both closing brackets are the first one after `a`. */
  lemma SameClose(s: string, a: nat, open': nat, close: nat, close': nat)
    requires open' <= a < close < |s| && a <= close' < |s| && s[close] == ']' && s[close'] == ']'
    requires (forall k | a <= k < close :: s[k] != ']') && forall k | open' <= k < close' :: s[k] != ']'
    ensures close == close'
  {
  }

  /** A block names a table exactly when the name stands quoted between the brackets of one of its array literals. */
  lemma BlockNamesMean(block: string, t: string)
    ensures t in BlockNames(block) <==> NamesTable(block, t)
  {
    hide All, Quoted, QuotedAt, ArrayAt, Opens;
    ArrayNamesMean(block, All(block, ArrayLiteral, 0), t);
    if m :| m in All(block, ArrayLiteral, 0) && t in Quoted(block, m) {
      ArrayFound(block, m);
      QuotedNames(block, m.start, m.open, m.end - 1, t);
      var i: nat, e: nat :| m.open <= i < m.end - 1 && Spells(block, i, e, t) && Opens(block, i);
      assert InArray(block, i);
    }
    if i: nat, e: nat :| InArray(block, i) && Spells(block, i, e, t) && Opens(block, i) {
      var a: nat, open: nat, close: nat :| ArrayAt(block, a, open, close) && open <= i < close;
      var m := ArrayHeld(block, a, open, close);
      ArrayFound(block, m);
      QuotedNames(block, m.start, m.open, m.end - 1, t);
    }
  }

  /** What a migration owns, on its text: through a DO block that names the table, or through a mention attributed to it. */
  lemma OwnedExactly(text: string, t: string)
    ensures var blocks := Blocks(text);
            var sql := Masked(text, blocks);
            t in FileTables(text) <==>
              || (exists b :: b in blocks && Versions(Body(text, b)) && NamesTable(Body(text, b), t))
              || (exists at: nat :: at < |sql| && Demands(sql, at) && Attribution(sql, at) == Some(t))
  {
    hide FileTables, NamesTable, BlockNames, Versions, Body, Demands, Attribution, Masked, Blocks;
    TablesExact(text, t);
    forall b ensures t in BlockNames(Body(text, b)) <==> NamesTable(Body(text, b), t) { BlockNamesMean(Body(text, b), t); }
  }
}
