/** Which word of a CREATE or ALTER the derivation takes for its table: scripts/check-owned-mutations.ts, `TABLE_DECL`. */
module DeclaredTables {
  import opened Text
  import opened SqlScan
  import opened SqlScanLaws
  import opened OwnedTables
  import opened OwnedTablesLaws
  import opened QualifiedReads

  // ---- where the statement's table stands ----

  function Past(s: string, i: nat, ws: seq<string>): (j: nat)
    requires i <= |s|
    ensures i <= j <= |s|
  {
    if Words(s, i, ws).Some? then Words(s, i, ws).value else i
  }

  /** After `CREATE TABLE` or `ALTER TABLE`. */
  function Head(s: string, i: nat): (r: Option<nat>)
    ensures r.Some? ==> i <= r.value <= |s|
  {
    if i > |s| || !Starts(s, i) then None
    else if Words(s, i, ["create", "table"]).Some? then Words(s, i, ["create", "table"])
    else Words(s, i, ["alter", "table"])
  }

  predicate IfExists(s: string, i: nat)
    requires i <= |s|
  {
    Words(s, i, ["if", "not", "exists"]).None? && Words(s, i, ["if", "exists"]).Some?
  }

  /** Past `IF NOT EXISTS` or `IF EXISTS`. */
  function PastCondition(s: string, i: nat): (j: nat)
    requires i <= |s|
    ensures i <= j <= |s|
  {
    if IfExists(s, i) then Past(s, i, ["if", "exists"]) else Past(s, i, ["if", "not", "exists"])
  }

  /** The index after a full stop, if one follows the name that begins at `i`. */
  function PastStop(s: string, i: nat): (r: Option<nat>)
    requires i <= |s|
    ensures r.Some? ==> i < r.value <= |s|
  {
    if Identifier(s, i).None? then None
    else
      var stop := SkipSpace(s, Identifier(s, i).value);
      if stop < |s| && s[stop] == '.' then Some(SkipSpace(s, stop + 1)) else None
  }

  /** The statement's table, by the grammar: past a condition, ONLY, and the name of a schema. */
  function TableAt(s: string, i: nat): Option<nat> {
    if Head(s, i).None? then None
    else
      var name := Past(s, PastCondition(s, Head(s, i).value), ["only"]);
      var p := if PastStop(s, name).Some? then PastStop(s, name).value else name;
      if Identifier(s, p).Some? then Some(p) else None
  }

  // ---- which word is captured ----

  lemma WordsMove(s: string, i: nat, w: string, ws: seq<string>)
    requires i <= |s| && w != ""
    ensures Words(s, i, [w] + ws).Some? ==> i < Words(s, i, [w] + ws).value && LettersAt(s, w, i) && i + |w| < |s| && IsSpace(s[i + |w|])
  {
  }

  lemma WordIsName(s: string, i: nat, w: string)
    requires LettersAt(s, w, i) && w != "" && i + |w| < |s| && IsSpace(s[i + |w|])
    requires forall k | 0 <= k < |w| :: 'a' <= w[k] <= 'z'
    ensures Identifier(s, i) == Some(i + |w|) && Lowered(s[i..i + |w|]) == w
  {
    forall k | i <= k < i + |w| ensures WordChar(s[k]) && !IsDigit(s[k]) {
      assert Lower(s[i + (k - i)]) == w[k - i];
    }
    assert !WordChar(s[i + |w|]);
    WordEndIs(s, i + 1, i + |w|);
  }

  lemma {:induction false} WordEndIs(s: string, i: nat, e: nat)
    requires i <= e < |s| && !WordChar(s[e]) && forall k | i <= k < e :: WordChar(s[k])
    ensures WordEnd(s, i) == e
    decreases e - i
  {
    if i < e { WordEndIs(s, i + 1, e); }
  }

  /**
   * The word captured is the statement's table exactly when the statement has no IF EXISTS, no ONLY and no schema.
   * Otherwise it is `if`, `only`, or the schema's name.
   */
  lemma CapturedIsTable(s: string, i: nat)
    requires TableAt(s, i).Some?
    ensures Declaration(s, i).Some?
    ensures var d, j := Declaration(s, i).value, Head(s, i).value;
            var a := PastCondition(s, j);
            var only := Words(s, a, ["only"]).Some?;
            && (d.open == TableAt(s, i).value <==> !IfExists(s, j) && !only && PastStop(s, a).None?)
            && (IfExists(s, j) ==> d.name == "if")
            && (!IfExists(s, j) && only ==> d.name == "only")
            && (!IfExists(s, j) && !only ==> d.open == a)
  {
    hide LettersAt, Identifier, SkipSpace, Words, Lowered;
    var j := Head(s, i).value;
    var a := PastCondition(s, j);
    WordsMove(s, j, "if", ["not", "exists"]);
    WordsMove(s, j, "if", ["exists"]);
    WordsMove(s, a, "only", []);
    assert ["if"] + ["not", "exists"] == ["if", "not", "exists"] && ["if"] + ["exists"] == ["if", "exists"];
    assert ["only"] + [] == ["only"];
    if IfExists(s, j) { WordIsName(s, j, "if"); }
    if Words(s, a, ["only"]).Some? { WordIsName(s, a, "only"); }
  }

  // ---- and what that does to the derivation ----

  const BEFORE := "alter table only t add "
  const ADDED := BEFORE + COLUMN

  /** An addition for which the derivation owns a table that is none, and reports nothing. */
  lemma OnlyIsOwned(file: string)
    ensures FileFailures(file, ADDED) == [] && FileTables(ADDED) == {"only"}
  {
    hide FileTables, FileFailures, Attribution, MentionAt, QualifiedAt, BlockNames, Versions, Body, DoBlock, COLUMN, Masked;
    NoBlocksAdded();
    NoFailures(file, ADDED);
    OneMention();
    OwnerIsOnly();
    assert Demands(ADDED, 23);
    forall t ensures t in FileTables(ADDED) <==> t == "only" {
      TablesExact(ADDED, t);
    }
  }

  lemma AddedAt(k: nat)
    requires k < 44
    ensures k < 23 ==> ADDED[k] == BEFORE[k]
    ensures k >= 23 ==> ADDED[k] == COLUMN[k - 23]
    ensures |BEFORE| == 23 && |COLUMN| == 21 && |ADDED| == 44
  {
  }

  lemma OneMention()
    ensures |ADDED| == 44 && forall at: nat | at < |ADDED| :: Demands(ADDED, at) <==> at == 23
  {
    hide LettersAt, ADDED, QualifiedAt, WordChar;
    AddedAt(22);
    AddedAt(5);
    assert !WordChar(ADDED[22]) && !WordChar(ADDED[5]) by { DollarIsNoWord(); }
    ColumnStands();
    NoStopAdded();
    forall at: nat | at < |ADDED| ensures MentionAt(ADDED, at) <==> at == 23 {
      MentionLetter(ADDED, at, 22);
      MentionLetter(ADDED, at, 5);
      MentionLetter(ADDED, at, at + |COLUMN| - 1);
    }
  }

  lemma NoStopAdded()
    ensures !QualifiedAt(ADDED, 23)
  {
    hide ADDED;
    AddedAt(22);
    AddedAt(21);
    assert !QualifiedAt(ADDED, 22);
  }

  lemma ColumnStands()
    ensures LettersAt(ADDED, COLUMN, 23)
  {
    forall k: nat | k < |COLUMN| ensures Lower(ADDED[23 + k]) == COLUMN[k] {
      AddedAt(23 + k);
      ColumnIsLower(k);
    }
  }

  predicate Begins(a: char, b: char) {
    (a == 'd' && b == 'o') || (a == 'i' && b == 'n') || (a == 'c' && b == 'r') || (a == 'a' && b == 'l')
  }

  lemma BeforePairs(k: nat)
    requires k < 22
    ensures Begins(BEFORE[k], BEFORE[k + 1]) ==> k == 0
  {
  }

  lemma ColumnPairs(k: nat)
    requires k < 20
    ensures !Begins(COLUMN[k], COLUMN[k + 1])
  {
  }

  lemma FewLetters(k: nat)
    requires 0 < k < 43
    ensures k + 1 < |ADDED| && !Begins(Lower(ADDED[k]), Lower(ADDED[k + 1]))
  {
    hide Begins, ADDED;
    AddedAt(k);
    AddedAt(k + 1);
    LowerAdded(k);
    LowerAdded(k + 1);
    if k < 22 {
      BeforePairs(k);
    } else if k > 22 {
      ColumnPairs(k - 23);
    } else {
      Seam();
    }
  }

  lemma Seam()
    ensures !Begins(BEFORE[22], COLUMN[0])
  {
  }

  lemma LowerAdded(k: nat)
    requires k < 44
    ensures k < |ADDED| && Lower(ADDED[k]) == ADDED[k]
  {
    AddedAt(k);
    if k >= 23 { ColumnIsLower(k - 23); }
  }

  lemma Barren(p: Pattern)
    requires forall i: nat | i < |ADDED| :: p(ADDED, i).None?
    ensures All(ADDED, p, 0) == []
  {
    var first := Next(ADDED, p, 0);
  }

  /** Neither a DO block nor an INSERT, and no declaration but the one at the beginning. */
  lemma OthersAbsent(i: nat)
    requires i < |ADDED|
    ensures DoBlock(ADDED, i).None? && InsertList(ADDED, i).None?
    ensures i > 0 ==> Declaration(ADDED, i).None?
  {
    hide LettersAt, Identifier, SkipSpace, FirstFrom, ADDED, Lower;
    if 0 < i < 43 { FewLetters(i); }
    AddedBegins();
    TwoLetters(ADDED, "do", i);
    TwoLetters(ADDED, "insert", i);
    TwoLetters(ADDED, "create", i);
    TwoLetters(ADDED, "alter", i);
  }

  lemma AddedBegins()
    ensures |ADDED| == 44 && Lower(ADDED[0]) == 'a'
  {
  }

  lemma NoBlocksAdded()
    ensures Blocks(ADDED) == [] && Masked(ADDED, []) == ADDED
  {
    hide DoBlock, InsertList, Declaration, ADDED;
    forall i: nat | i < |ADDED| ensures DoBlock(ADDED, i).None? { OthersAbsent(i); }
    Barren(DoBlock);
    NothingBlanked(ADDED);
  }

  lemma BeforeStands(k: nat)
    requires k < 23
    ensures k < |ADDED| && ADDED[k] == BEFORE[k]
  {
  }

  lemma OnlyCaptured()
    ensures Declaration(ADDED, 0) == Some(Match(0, 16, "only", 12))
  {
    hide ADDED, Identifier, Lowered, Words, LettersAt, TableAt;
    var s := ADDED;
    AddedWords();
    assert |s| == 44 && s[0] == 'a' && s[12] == 'o' by { AddedBegins(); BeforeStands(0); BeforeStands(12); }
    TwoLetters(s, "if", 12);
    assert ["if"] + ["not", "exists"] == ["if", "not", "exists"] && ["create"] + ["table"] == ["create", "table"];
    WordsMove(s, 12, "if", ["not", "exists"]);
    WordsMove(s, 0, "create", ["table"]);
    TwoLetters(s, "create", 0);
    WordIsName(s, 12, "only");
  }

  lemma AddedWords()
    ensures Words(ADDED, 0, ["alter", "table"]) == Some(12) && LettersAt(ADDED, "only", 12) && ADDED[16] == ' '
  {
    hide ADDED, SkipSpace;
    var s := ADDED;
    forall k: nat | k < 23 ensures k < |s| && s[k] == BEFORE[k] { BeforeStands(k); }
    assert |s| == 44 by { AddedBegins(); }
    OneBlank(s, 5);
    OneBlank(s, 11);
    assert LettersAt(s, "alter", 0) && LettersAt(s, "table", 6) && LettersAt(s, "only", 12);
    assert ["alter", "table"][1..] == ["table"] && ["table"][1..] == [];
    assert Words(s, 6, ["table"]) == Some(12);
  }

  lemma OneBlank(s: string, i: nat)
    requires i + 1 < |s| && s[i] == ' ' && !IsSpace(s[i + 1])
    ensures SkipSpace(s, i) == i + 1
  {
  }

  lemma OwnerIsOnly()
    ensures Attribution(ADDED, 23) == Some("only")
  {
    hide DoBlock, InsertList, Declaration, ADDED;
    forall i: nat | i < |ADDED| ensures InsertList(ADDED, i).None? { OthersAbsent(i); }
    Barren(InsertList);
    OnlyCaptured();
    var m := Match(0, 16, "only", 12);
    BeforeStands(22);
    SomeMatch(ADDED, Declaration, 0);
    forall i: nat | i < |ADDED| && Matches(ADDED, Declaration, i) ensures i == 0 { OthersAbsent(i); }
    OnlyMatch(ADDED, Declaration, m);
    assert All(ADDED, Declaration, 0) == [m];
    assert [m][..0] == [];
  }
}
