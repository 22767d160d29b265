/** What the derivation of the owned tables attributes, and what blanking the DO blocks does to the text it reads. */
module OwnedTablesLaws {
  import opened Text
  import opened SqlScan
  import opened OwnedTables

  // ---- attribution ----

  /** The `i`th declaration starts before `at`, and no other that does starts later. */
  ghost predicate IsNearest(declarations: seq<Match>, at: nat, i: int) {
    && 0 <= i < |declarations| && declarations[i].start < at
    && forall j | 0 <= j < |declarations| && declarations[j].start < at :: declarations[j].start <= declarations[i].start
  }

  ghost predicate Nearest(declarations: seq<Match>, at: nat, t: string) {
    exists i :: IsNearest(declarations, at, i) && declarations[i].name == t
  }

  ghost predicate NoneBefore(declarations: seq<Match>, at: nat) {
    forall j | 0 <= j < |declarations| :: at <= declarations[j].start
  }

  lemma {:induction false} LastIsNearest(declarations: seq<Match>, at: nat)
    requires Ascending(declarations)
    ensures match LastBefore(declarations, at)
      case None => NoneBefore(declarations, at)
      case Some(t) => Nearest(declarations, at, t)
  {
    hide IsNearest;
    if declarations != [] {
      var n := |declarations| - 1;
      var rest := declarations[..n];
      LastIsNearest(rest, at);
      NearestStep(declarations, at);
    }
  }

  lemma NearestStep(declarations: seq<Match>, at: nat)
    requires Ascending(declarations) && declarations != []
    ensures var n := |declarations| - 1;
            if declarations[n].start < at then Nearest(declarations, at, declarations[n].name)
            else
              && (NoneBefore(declarations[..n], at) ==> NoneBefore(declarations, at))
              && forall t | Nearest(declarations[..n], at, t) :: Nearest(declarations, at, t)
  {
    var n := |declarations| - 1;
    if declarations[n].start < at {
      assert IsNearest(declarations, at, n);
    } else {
      forall t | Nearest(declarations[..n], at, t) ensures Nearest(declarations, at, t) {
        var i :| IsNearest(declarations[..n], at, i) && declarations[..n][i].name == t;
        assert IsNearest(declarations, at, i);
      }
    }
  }

  /** `at` stands in the column list of the `i`th INSERT. */
  predicate Within(lists: seq<Match>, at: nat, i: int) {
    0 <= i < |lists| && lists[i].open <= at < lists[i].end - 1
  }

  /** `at` stands in one INSERT's column list, and that INSERT names `t`. */
  ghost predicate OwnList(lists: seq<Match>, at: nat, t: string) {
    exists i :: Within(lists, at, i) && lists[i].name == t && forall j | Within(lists, at, j) :: j == i
  }

  ghost predicate InNoList(lists: seq<Match>, at: nat) {
    forall i :: !Within(lists, at, i)
  }

  lemma {:induction false} ListIsOwn(lists: seq<Match>, at: nat)
    requires Ascending(lists) && forall i | 0 <= i < |lists| :: lists[i].start < lists[i].open
    ensures match ListAt(lists, at)
      case None => InNoList(lists, at)
      case Some(t) => OwnList(lists, at, t)
  {
    if lists != [] {
      var n := |lists| - 1;
      var rest := lists[..n];
      assert forall i | i < n :: Within(rest, at, i) <==> Within(lists, at, i);
      if Within(lists, at, n) {
        assert forall j | Within(lists, at, j) :: j == n;
      } else {
        ListIsOwn(rest, at);
        if ListAt(rest, at).Some? {
          var i :| Within(rest, at, i) && rest[i].name == ListAt(rest, at).value && forall j | Within(rest, at, j) :: j == i;
          assert Within(lists, at, i) && forall j | Within(lists, at, j) :: j == i;
        }
      }
    }
  }

  /**
   * Each mention is attributed to one table or to none: to the INSERT whose column list holds it, of which there is
   * at most one; failing that to the CREATE or ALTER that starts nearest before it; to none only when none starts before.
   */
  lemma AttributionMeans(sql: string, at: nat)
    ensures var lists, declarations := All(sql, InsertList, 0), All(sql, Declaration, 0);
            match Attribution(sql, at)
            case Some(t) => OwnList(lists, at, t) || (InNoList(lists, at) && Nearest(declarations, at, t))
            case None => InNoList(lists, at) && NoneBefore(declarations, at)
  {
    hide ListAt, LastBefore, InsertList, Declaration, OwnList, InNoList, Nearest, NoneBefore, Ascending, All;
    AllAscends(sql, Declaration, 0);
    LastIsNearest(All(sql, Declaration, 0), at);
    ListsOpenLate(sql);
    ListIsOwn(All(sql, InsertList, 0), at);
  }

  lemma ListsOpenLate(sql: string)
    ensures var lists := All(sql, InsertList, 0);
            Ascending(lists) && forall i | 0 <= i < |lists| :: lists[i].start < lists[i].open
  {
    hide InsertList, All, Ascending;
    var lists := All(sql, InsertList, 0);
    AllAscends(sql, InsertList, 0);
    forall i | 0 <= i < |lists| ensures lists[i].start < lists[i].open {
      assert lists[i] in lists;
      OpenAfterStart(sql, lists[i].start);
    }
  }

  lemma OpenAfterStart(sql: string, i: nat)
    ensures InsertList(sql, i).Some? ==> InsertList(sql, i).value.start < InsertList(sql, i).value.open
  {
  }

  // ---- the sets and the failures, element by element ----

  lemma {:induction false} BlockTablesExact(text: string, blocks: seq<Match>, t: string)
    ensures t in BlockTables(text, blocks)
            <==> exists b :: b in blocks && Versions(Body(text, b)) && t in BlockNames(Body(text, b))
  {
    hide Versions, Body, BlockNames;
    if blocks != [] {
      var n := |blocks| - 1;
      BlockTablesExact(text, blocks[..n], t);
      assert blocks == blocks[..n] + [blocks[n]];
    }
  }

  lemma {:induction false} BlockFailuresExact(file: string, text: string, blocks: seq<Match>)
    ensures BlockFailures(file, text, blocks) == []
            <==> forall b | b in blocks :: Versions(Body(text, b)) ==> BlockNames(Body(text, b)) != []
  {
    hide Versions, Body, BlockNames;
    if blocks != [] {
      var n := |blocks| - 1;
      BlockFailuresExact(file, text, blocks[..n]);
      assert blocks == blocks[..n] + [blocks[n]];
    }
  }

  lemma {:induction false} MentionTablesExact(sql: string, n: nat, t: string)
    requires n <= |sql|
    ensures t in MentionTables(sql, n) <==> exists at: nat :: at < n && Demands(sql, at) && Attribution(sql, at) == Some(t)
  {
    hide Demands, Attribution;
    if n > 0 { MentionTablesExact(sql, n - 1, t); }
  }

  lemma {:induction false} MentionFailuresExact(file: string, sql: string, n: nat)
    requires n <= |sql|
    ensures MentionFailures(file, sql, n) == [] <==> forall at: nat | at < n && Demands(sql, at) :: Attribution(sql, at).Some?
  {
    hide Demands, Attribution;
    if n > 0 { MentionFailuresExact(file, sql, n - 1); }
  }

  /** No failure means that every versioning block names a table and every adding mention left has an owner. */
  lemma NoFailures(file: string, text: string)
    ensures var blocks := Blocks(text);
            var sql := Masked(text, blocks);
            FileFailures(file, text) == [] <==>
              && (forall b | b in blocks :: Versions(Body(text, b)) ==> BlockNames(Body(text, b)) != [])
              && (forall at: nat | at < |sql| && Demands(sql, at) :: Attribution(sql, at).Some?)
  {
    hide BlockFailures, MentionFailures, Masked, Blocks, Demands, Attribution, Versions, BlockNames;
    BlockFailuresExact(file, text, Blocks(text));
    MentionFailuresExact(file, Masked(text, Blocks(text)), |Masked(text, Blocks(text))|);
  }

  /** The owned tables are exactly those that a versioning block names or an adding mention is attributed to. */
  lemma TablesExact(text: string, t: string)
    ensures var blocks := Blocks(text);
            var sql := Masked(text, blocks);
            t in FileTables(text) <==>
              || (exists b :: b in blocks && Versions(Body(text, b)) && t in BlockNames(Body(text, b)))
              || (exists at: nat :: at < |sql| && Demands(sql, at) && Attribution(sql, at) == Some(t))
  {
    hide BlockTables, MentionTables, Masked, Blocks, Demands, Attribution, Versions, BlockNames;
    BlockTablesExact(text, Blocks(text), t);
    MentionTablesExact(Masked(text, Blocks(text)), |Masked(text, Blocks(text))|, t);
  }

  // ---- blanking the DO blocks ----

  /** What is needed of a block: it opens with a `d`, closes with a dollar, and lies in the text. */
  ghost predicate WellFormed(text: string, blocks: seq<Match>) {
    forall i | 0 <= i < |blocks| ::
      && blocks[i].start < blocks[i].end <= |text|
      && Lower(text[blocks[i].start]) == 'd' && text[blocks[i].end - 1] == '$'
  }

  lemma BlockShape(text: string, i: nat)
    ensures DoBlock(text, i).Some? ==>
              var b := DoBlock(text, i).value;
              b.start == i < b.end <= |text| && Lower(text[i]) == 'd' && text[b.end - 1] == '$'
  {
    var m := DoBlock(text, i);
    if m.Some? {
      OccursElement(text, "$$", m.value.end - 2, 1);
      assert LettersAt(text, "do", i);
      assert "do"[0] == 'd';
    }
  }

  lemma BlocksWellFormed(text: string)
    ensures WellFormed(text, Blocks(text))
  {
    hide DoBlock;
    AllAscends(text, DoBlock, 0);
    forall i | 0 <= i < |Blocks(text)|
      ensures var b := Blocks(text)[i];
              b.start < b.end <= |text| && Lower(text[b.start]) == 'd' && text[b.end - 1] == '$'
    {
      assert Blocks(text)[i] in Blocks(text);
      BlockShape(text, Blocks(text)[i].start);
    }
  }

  /** No character of a mention that starts outside the blocks is blanked out, for a block opens with a letter it lacks. */
  lemma MentionUncovered(text: string, blocks: seq<Match>, at: nat, k: nat)
    requires WellFormed(text, blocks) && MentionAt(text, at) && !Covered(blocks, at) && at <= k < at + |COLUMN|
    ensures !Covered(blocks, k)
  {
    hide MentionAt, Lower;
    if i: nat :| i < |blocks| && blocks[i].start <= k < blocks[i].end {
      MentionLetter(text, at, blocks[i].start);
    }
  }

  /** Blanking keeps every offset, and every mention outside the blocks. */
  lemma MentionSurvives(text: string, blocks: seq<Match>, at: nat)
    requires WellFormed(text, blocks) && MentionAt(text, at) && !Covered(blocks, at)
    ensures |Masked(text, blocks)| == |text| && MentionAt(Masked(text, blocks), at)
  {
    hide Covered;
    var sql := Masked(text, blocks);
    forall k: nat | at <= k < at + |COLUMN| ensures sql[k] == text[k] { MentionUncovered(text, blocks, at, k); }
    assert !WordChar(' ');
  }

  lemma {:induction false} BlankCrossed(sql: string, a: nat, b: nat)
    requires a <= b <= |sql| && forall k | a <= k < b :: sql[k] == ' '
    ensures QualifiedAt(sql, b) <==> QualifiedAt(sql, a)
  {
    if a < b { BlankCrossed(sql, a, b - 1); }
  }

  /** A DO block stands between `at` and a full stop, with only spaces besides. */
  ghost predicate Shadow(text: string, blocks: seq<Match>, at: nat, i: int) {
    && 0 <= i < |blocks| && blocks[i].start < blocks[i].end <= at <= |text| && Blank(text[blocks[i].end..at])
    && QualifiedAt(Masked(text, blocks), blocks[i].start)
  }

  ghost predicate Shadowed(text: string, blocks: seq<Match>, at: nat) {
    exists i :: Shadow(text, blocks, at, i)
  }

  /** The block that ends where an uncovered position begins. */
  lemma EndsHere(text: string, blocks: seq<Match>, at: nat)
    requires WellFormed(text, blocks) && 0 < at <= |text| && !Covered(blocks, at) && Covered(blocks, at - 1)
    ensures exists i: nat :: i < |blocks| && blocks[i].end == at
    ensures text[at - 1] == '$'
  {
    var i: nat :| i < |blocks| && blocks[i].start <= at - 1 < blocks[i].end;
    assert blocks[i].end == at;
  }

  lemma BlockIsBlank(text: string, blocks: seq<Match>, i: nat)
    requires WellFormed(text, blocks) && i < |blocks|
    ensures QualifiedAt(Masked(text, blocks), blocks[i].end) <==> QualifiedAt(Masked(text, blocks), blocks[i].start)
  {
    var sql := Masked(text, blocks);
    forall k | blocks[i].start <= k < blocks[i].end ensures sql[k] == ' ' { assert Covered(blocks, k); }
    BlankCrossed(sql, blocks[i].start, blocks[i].end);
  }

  lemma BlankAt(text: string, a: nat, b: nat, k: int)
    requires a <= b <= |text| && Blank(text[a..b])
    ensures a <= k < b ==> IsSpace(text[k])
  {
    if a <= k < b { assert text[a..b][k - a] == text[k]; }
  }

  lemma BlankMore(text: string, a: nat, b: nat)
    requires a < b <= |text|
    ensures Blank(text[a..b]) <==> Blank(text[a..b - 1]) && IsSpace(text[b - 1])
  {
    var all, most := text[a..b], text[a..b - 1];
    assert forall i | 0 <= i < |most| :: all[i] == most[i];
    assert all[|most|] == text[b - 1];
    assert Blank(all) ==> IsSpace(all[|most|]);
  }

  lemma ShadowAtEnd(text: string, blocks: seq<Match>, at: nat, i: nat)
    requires WellFormed(text, blocks) && Shadow(text, blocks, at, i) && 0 < at && text[at - 1] == '$'
    ensures blocks[i].end == at
  {
    BlankAt(text, blocks[i].end, at, at - 1);
  }

  lemma NotEndingHere(blocks: seq<Match>, at: nat, i: int)
    requires 0 <= i < |blocks| && blocks[i].start < blocks[i].end && !Covered(blocks, at - 1)
    ensures blocks[i].end != at
  {
  }

  lemma ShadowStep(text: string, blocks: seq<Match>, at: nat, i: int)
    requires WellFormed(text, blocks) && 0 < at <= |text| && !Covered(blocks, at - 1)
    ensures Shadow(text, blocks, at, i) <==> IsSpace(text[at - 1]) && Shadow(text, blocks, at - 1, i)
  {
    hide QualifiedAt, Masked, IsSpace, Blank;
    if 0 <= i < |blocks| {
      NotEndingHere(blocks, at, i);
      if blocks[i].end < at { BlankMore(text, blocks[i].end, at); }
    }
  }

  /**
   * What blanking does to the test for a qualified read, exactly: outside the blocks a read stays a read, and
   * the only mentions it turns into reads are those that a DO block separates from a full stop.
   */
  lemma {:induction false} QualifiedThroughMask(text: string, blocks: seq<Match>, at: nat)
    requires WellFormed(text, blocks) && at <= |text| && !Covered(blocks, at)
    ensures QualifiedAt(Masked(text, blocks), at)
            <==> QualifiedAt(text, at) || Shadowed(text, blocks, at)
  {
    if at > 0 {
      if Covered(blocks, at - 1) {
        CrossBlock(text, blocks, at);
      } else {
        QualifiedThroughMask(text, blocks, at - 1);
        CrossCharacter(text, blocks, at);
      }
    }
  }

  lemma CrossBlock(text: string, blocks: seq<Match>, at: nat)
    requires WellFormed(text, blocks) && 0 < at <= |text| && !Covered(blocks, at) && Covered(blocks, at - 1)
    ensures !QualifiedAt(text, at)
    ensures |Masked(text, blocks)| == |text|
    ensures QualifiedAt(Masked(text, blocks), at) <==> Shadowed(text, blocks, at)
  {
    hide Covered, QualifiedAt;
    NoQualifiedDollar(text, at);
    EndsHere(text, blocks, at);
    var n: nat :| n < |blocks| && blocks[n].end == at;
    BlockIsBlank(text, blocks, n);
    if QualifiedAt(Masked(text, blocks), at) {
      assert text[at..at] == [];
      assert Shadow(text, blocks, at, n);
    }
    if i :| Shadow(text, blocks, at, i) {
      ShadowAtEnd(text, blocks, at, i);
      BlockIsBlank(text, blocks, i);
    }
  }

  lemma NoQualifiedDollar(text: string, at: nat)
    requires at <= |text|
    ensures 0 < at && text[at - 1] == '$' ==> !QualifiedAt(text, at)
  {
  }

  lemma CrossCharacter(text: string, blocks: seq<Match>, at: nat)
    requires WellFormed(text, blocks) && 0 < at <= |text| && !Covered(blocks, at - 1)
    requires QualifiedAt(Masked(text, blocks), at - 1)
             <==> QualifiedAt(text, at - 1) || Shadowed(text, blocks, at - 1)
    ensures QualifiedAt(Masked(text, blocks), at)
            <==> QualifiedAt(text, at) || Shadowed(text, blocks, at)
  {
    hide Shadowed, Covered, IsSpace, WellFormed;
    assert Masked(text, blocks)[at - 1] == text[at - 1];
    DotIsNoSpace();
    ShadowedStep(text, blocks, at);
  }

  lemma ShadowedStep(text: string, blocks: seq<Match>, at: nat)
    requires WellFormed(text, blocks) && 0 < at <= |text| && !Covered(blocks, at - 1)
    ensures Shadowed(text, blocks, at) <==> IsSpace(text[at - 1]) && Shadowed(text, blocks, at - 1)
  {
    hide Shadow, Covered, IsSpace, WellFormed;
    var before: nat := at - 1;
    if Shadowed(text, blocks, at) {
      var i :| Shadow(text, blocks, at, i);
      ShadowStep(text, blocks, at, i);
      assert Shadow(text, blocks, before, i);
    }
    if IsSpace(text[before]) && Shadowed(text, blocks, before) {
      var i :| Shadow(text, blocks, before, i);
      ShadowStep(text, blocks, at, i);
    }
  }

  lemma DotIsNoSpace()
    ensures !IsSpace('.') && !IsSpace('$')
  {
  }

  // ---- inside a block ----

  /** A block is read on its own, and its mentions and its qualified reads are those of the whole text. */
  lemma InsideBlock(text: string, b: Match, k: nat)
    requires b.start < b.end <= |text| && Lower(text[b.start]) == 'd' && text[b.end - 1] == '$'
    requires k < b.end - b.start
    ensures Demands(Body(text, b), k) <==> Demands(text, b.start + k)
  {
    hide MentionAt, QualifiedAt;
    MentionInside(text, b, k);
    if MentionAt(text, b.start + k) {
      MentionLetter(text, b.start + k, b.start + k);
      QualifiedInside(text, b, k);
    }
  }

  lemma MentionInside(text: string, b: Match, k: nat)
    requires b.start < b.end <= |text| && Lower(text[b.start]) == 'd' && text[b.end - 1] == '$'
    requires k < b.end - b.start
    ensures MentionAt(Body(text, b), k) <==> MentionAt(text, b.start + k)
  {
    var block := Body(text, b);
    assert forall j | 0 <= j < |block| :: block[j] == text[b.start + j];
    MentionLetter(text, b.start + k, b.end - 1);
    MentionLetter(block, k, |block| - 1);
    MentionLetter(text, b.start + k, b.start);
    MentionLetter(block, k, 0);
    assert !WordChar('$');
  }

  lemma {:induction false} QualifiedInside(text: string, b: Match, k: nat)
    requires b.start < b.end <= |text| && Lower(text[b.start]) == 'd' && 0 < k < b.end - b.start
    ensures QualifiedAt(Body(text, b), k) <==> QualifiedAt(text, b.start + k)
  {
    var block := Body(text, b);
    assert block[k - 1] == text[b.start + k - 1];
    if k > 1 { QualifiedInside(text, b, k - 1); }
  }

  // ---- what is demanded is met ----

  /** A DO block that holds `at` and names a table. */
  ghost predicate NamedBlock(text: string, b: Match, at: nat) {
    b in Blocks(text) && b.start <= at < b.end && BlockNames(Body(text, b)) != []
  }

  /** Inside a DO block, the block names a table and all it names are owned; outside, its one table is owned. */
  ghost predicate AccountedFor(text: string, at: nat) {
    if Covered(Blocks(text), at) then exists b :: NamedBlock(text, b, at) && Members(BlockNames(Body(text, b))) <= FileTables(text)
    else
      var owner := Attribution(Masked(text, Blocks(text)), at);
      owner.Some? && owner.value in FileTables(text)
  }

  /** When a migration yields no failure, every mention that demands a table is accounted for, unless a block shadows it. */
  lemma DemandsMet(file: string, text: string, at: nat)
    requires FileFailures(file, text) == [] && at < |text| && Demands(text, at)
    ensures if !Covered(Blocks(text), at) && Shadowed(text, Blocks(text), at)
            then !Demands(Masked(text, Blocks(text)), at)
            else AccountedFor(text, at)
  {
    hide FileTables, Attribution, BlockNames, FileFailures, Masked, MentionAt, QualifiedAt, Blocks, Covered, Shadow, Body;
    var blocks := Blocks(text);
    BlocksWellFormed(text);
    NoFailures(file, text);
    if Covered(blocks, at) {
      var b := CoveredBlock(text, blocks, at);
      VersionsInside(text, b, at);
      forall t | t in BlockNames(Body(text, b)) ensures t in FileTables(text) { TablesExact(text, t); }
      assert NamedBlock(text, b, at);
    } else {
      MentionSurvives(text, blocks, at);
      QualifiedThroughMask(text, blocks, at);
      if !Shadowed(text, blocks, at) {
        TablesExact(text, Attribution(Masked(text, blocks), at).value);
      }
    }
  }

  lemma CoveredBlock(text: string, blocks: seq<Match>, at: nat) returns (b: Match)
    requires WellFormed(text, blocks) && Covered(blocks, at)
    ensures b in blocks && b.start <= at < b.end <= |text|
    ensures Lower(text[b.start]) == 'd' && text[b.end - 1] == '$'
  {
    var i: nat :| i < |blocks| && blocks[i].start <= at < blocks[i].end;
    b := blocks[i];
  }

  lemma VersionsInside(text: string, b: Match, at: nat)
    requires b.start <= at < b.end <= |text| && Lower(text[b.start]) == 'd' && text[b.end - 1] == '$'
    requires Demands(text, at)
    ensures Versions(Body(text, b))
  {
    hide MentionAt, QualifiedAt;
    InsideBlock(text, b, at - b.start);
    assert |Body(text, b)| == b.end - b.start;
  }

  // ---- and the input that shows the shadow ----

  const SHADOWED := ".DO $$$$" + COLUMN

  lemma OnlyMatch(s: string, p: Pattern, m: Match)
    requires Matches(s, p, m.start) && p(s, m.start) == Some(m)
    requires forall i: nat | i < |s| && Matches(s, p, i) :: i == m.start
    ensures All(s, p, 0) == [m]
  {
    MatchSpans(s, p, m.start);
    var first, second := Next(s, p, 0), Next(s, p, m.end);
    if first.Some? { assert Matches(s, p, first.value.start); }
    if second.Some? { assert Matches(s, p, second.value.start); }
    assert All(s, p, m.end) == [];
  }

  lemma MatchSpans(s: string, p: Pattern, i: nat)
    requires Matches(s, p, i)
    ensures i < p(s, i).value.end <= |s| && p(s, i).value.start == i
  {
  }

  lemma ShadowedOpens()
    ensures Words(SHADOWED, 1, ["do"]) == Some(4)
  {
    hide LettersAt;
    var text := SHADOWED;
    assert text[..8] == ".DO $$$$";
    assert LettersAt(text, "do", 1) by { LettersTwo(text, 1, "do"); }
    assert SkipSpace(text, 3) == 4 by { OneSpace(text, 3); }
    assert ["do"][1..] == [];
  }

  lemma OneSpace(s: string, i: nat)
    requires i + 1 < |s| && s[i] == ' ' && s[i + 1] == '$'
    ensures SkipSpace(s, i) == i + 1
  {
  }

  lemma LettersTwo(s: string, i: nat, w: string)
    requires i + 2 <= |s| && |w| == 2 && Lower(s[i]) == w[0] && Lower(s[i + 1]) == w[1]
    ensures LettersAt(s, w, i)
  {
  }

  lemma ShadowedBlock()
    ensures DoBlock(SHADOWED, 1) == Some(Match(1, 8, "", 6))
  {
    hide Words, FirstFrom;
    var text := SHADOWED;
    ShadowedOpens();
    assert text[..8] == ".DO $$$$";
    assert text[4..6] == text[..8][4..6] && text[6..8] == text[..8][6..8];
    FirstIs(text, "$$", 6, 6);
  }

  lemma ShadowedBlocks()
    ensures Blocks(SHADOWED) == [Match(1, 8, "", 6)]
  {
    hide DoBlock, All;
    ShadowedBlock();
    forall i: nat | i < |SHADOWED| && Matches(SHADOWED, DoBlock, i) ensures i == 1 {
      if i != 1 { NoBlock(i); }
    }
    OnlyMatch(SHADOWED, DoBlock, Match(1, 8, "", 6));
  }

  lemma NoBlock(i: nat)
    requires i < |SHADOWED| && i != 1
    ensures DoBlock(SHADOWED, i).None?
  {
    BlockShape(SHADOWED, i);
    if i >= 8 {
      ColumnLetters(i - 8);
      assert SHADOWED[i] == COLUMN[i - 8];
    }
  }

  /**
   * The parser's own notes promise that no mention is skipped unless it is a qualified read. This text mentions the
   * column once, unqualified, outside its only DO block; it yields no failure and no table.
   */
  lemma ShadowedIsSkipped(file: string)
    ensures Demands(SHADOWED, 8) && !Covered(Blocks(SHADOWED), 8)
    ensures FileFailures(file, SHADOWED) == [] && FileTables(SHADOWED) == {}
  {
    hide FileTables, FileFailures, DoBlock, Attribution, MentionAt, Masked, BlockNames, Versions, Body;
    var text := SHADOWED;
    var b := Match(1, 8, "", 6);
    ShadowedBlocks();
    ShadowedMentions();
    NoFailures(file, text);
    BlocksWellFormed(text);
    if t :| t in FileTables(text) { TablesExact(text, t); }
  }

  lemma ShadowedMentions()
    ensures Demands(SHADOWED, 8) && !Covered([Match(1, 8, "", 6)], 8)
    ensures !Versions(Body(SHADOWED, Match(1, 8, "", 6)))
    ensures var sql := Masked(SHADOWED, [Match(1, 8, "", 6)]);
            |sql| == |SHADOWED| && forall at: nat | at < |sql| :: !Demands(sql, at)
  {
    var text := SHADOWED;
    var b := Match(1, 8, "", 6);
    var sql := Masked(text, [b]);
    ShadowedAt8();
    assert text[..8] == ".DO $$$$";
    forall k | 0 <= k < |text| ensures sql[k] == if 1 <= k < 8 then ' ' else text[k] { CoveredOne(b, k); }
    assert !Covered([b], 8) by { CoveredOne(b, 8); }
    assert sql[0] == '.' by { assert text[0] == text[..8][0]; }
    DollarIsNoWord();
    assert |Body(text, b)| < |COLUMN|;
    forall at: nat | at < |sql| ensures !Demands(sql, at) {
      if at == 8 {
        BlankCrossed(sql, 1, 8);
      } else if at > 8 {
        assert at + |COLUMN| > |sql|;
      } else {
        MentionLetter(sql, at, at);
      }
    }
  }

  lemma DollarIsNoWord()
    ensures !WordChar('$') && !WordChar(' ') && !WordChar('.')
  {
  }

  lemma ColumnIsLower(k: nat)
    requires k < |COLUMN|
    ensures Lower(COLUMN[k]) == COLUMN[k]
  {
  }

  lemma CoveredOne(b: Match, k: int)
    ensures Covered([b], k) <==> b.start <= k < b.end
  {
    if b.start <= k < b.end { assert [b][0].start <= k < [b][0].end; }
  }

  lemma ShadowedAt8()
    ensures Demands(SHADOWED, 8) && |SHADOWED| == 8 + |COLUMN|
  {
    hide Lower, WordChar;
    var text := SHADOWED;
    assert text[..8] == ".DO $$$$" && text[8..] == COLUMN;
    assert text[7] == '$';
    DollarIsNoWord();
    forall k: nat | k < |COLUMN| ensures Lower(text[8 + k]) == COLUMN[k] {
      assert text[8 + k] == text[8..][k];
      ColumnIsLower(k);
    }
  }
}
