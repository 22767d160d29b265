/** Which tables carry the version column, read out of the migrations: scripts/check-owned-mutations.ts, `ownedTables`. */
module OwnedTables {
  import opened Text
  import opened SqlScan

  datatype Failure = UnnamedBlock(file: string, at: nat) | NoOwner(file: string, at: nat)

  // ---- DO blocks ----

  function Blocks(text: string): seq<Match> { All(text, DoBlock, 0) }

  predicate Covered(blocks: seq<Match>, k: int) {
    exists i | 0 <= i < |blocks| :: blocks[i].start <= k < blocks[i].end
  }

  /** The text with every DO block blanked out where it stands. */
  function Masked(text: string, blocks: seq<Match>): string {
    seq(|text|, k requires 0 <= k < |text| => if Covered(blocks, k) then ' ' else text[k])
  }

  function Body(text: string, b: Match): string {
    if b.start <= b.end <= |text| then text[b.start..b.end] else ""
  }

  /** The block mentions the column unqualified: it adds the column, rather than reading it. */
  predicate Versions(block: string) {
    exists k: nat | k < |block| :: MentionAt(block, k) && !QualifiedAt(block, k)
  }

  function NamesOf(found: seq<Match>): seq<string> {
    seq(|found|, i requires 0 <= i < |found| => found[i].name)
  }

  /** The names quoted in one array literal. */
  function Quoted(block: string, a: Match): seq<string> {
    if a.open < a.end <= |block| then NamesOf(All(block[a.open..a.end - 1], QuotedName, 0)) else []
  }

  /** The names quoted in a block's array literals, in order. */
  function ArrayNames(block: string, arrays: seq<Match>): seq<string> {
    if arrays == [] then []
    else ArrayNames(block, arrays[..|arrays| - 1]) + Quoted(block, arrays[|arrays| - 1])
  }

  function BlockNames(block: string): seq<string> { ArrayNames(block, All(block, ArrayLiteral, 0)) }

  function Members(names: seq<string>): set<string> { set n | n in names }

  function BlockTables(text: string, blocks: seq<Match>): set<string> {
    if blocks == [] then {}
    else
      var block := Body(text, blocks[|blocks| - 1]);
      BlockTables(text, blocks[..|blocks| - 1]) + if Versions(block) then Members(BlockNames(block)) else {}
  }

  function BlockFailures(file: string, text: string, blocks: seq<Match>): seq<Failure> {
    if blocks == [] then []
    else
      var b := blocks[|blocks| - 1];
      var block := Body(text, b);
      BlockFailures(file, text, blocks[..|blocks| - 1])
      + if Versions(block) && BlockNames(block) == [] then [UnnamedBlock(file, b.start)] else []
  }

  // ---- what stands outside them ----

  /** The column list of an INSERT that `at` stands in. */
  function ListAt(lists: seq<Match>, at: nat): Option<string> {
    if lists == [] then None
    else
      var l := lists[|lists| - 1];
      if l.open <= at < l.end - 1 then Some(l.name) else ListAt(lists[..|lists| - 1], at)
  }

  /** The table of the last declaration before `at`. */
  function LastBefore(declarations: seq<Match>, at: nat): Option<string> {
    if declarations == [] then None
    else
      var d := declarations[|declarations| - 1];
      if d.start < at then Some(d.name) else LastBefore(declarations[..|declarations| - 1], at)
  }

  /** The one table a mention is attributed to: its INSERT's own, else that of the nearest preceding CREATE or ALTER. */
  function Attribution(sql: string, at: nat): Option<string> {
    var named := ListAt(All(sql, InsertList, 0), at);
    if named.Some? then named else LastBefore(All(sql, Declaration, 0), at)
  }

  /** A mention that demands a table: one that the test for a qualified read does not skip. */
  predicate Demands(sql: string, at: nat)
    requires at <= |sql|
  {
    MentionAt(sql, at) && !QualifiedAt(sql, at)
  }

  function MentionTables(sql: string, n: nat): set<string>
    requires n <= |sql|
  {
    if n == 0 then {}
    else
      MentionTables(sql, n - 1)
      + if Demands(sql, n - 1) && Attribution(sql, n - 1).Some? then {Attribution(sql, n - 1).value} else {}
  }

  function MentionFailures(file: string, sql: string, n: nat): seq<Failure>
    requires n <= |sql|
  {
    if n == 0 then []
    else
      MentionFailures(file, sql, n - 1)
      + if Demands(sql, n - 1) && Attribution(sql, n - 1).None? then [NoOwner(file, n - 1)] else []
  }

  function FileTables(text: string): set<string> {
    var sql := Masked(text, Blocks(text));
    BlockTables(text, Blocks(text)) + MentionTables(sql, |sql|)
  }

  function FileFailures(file: string, text: string): seq<Failure> {
    var sql := Masked(text, Blocks(text));
    BlockFailures(file, text, Blocks(text)) + MentionFailures(file, sql, |sql|)
  }

  // ---- the loops ----

  method HasUnqualified(block: string) returns (versions: bool)
    ensures versions <==> Versions(block)
  {
    hide MentionAt, QualifiedAt, Next;
    versions := false;
    var last := 0;
    while true
      invariant last <= |block|
      invariant versions <==> exists k: nat | k < last :: MentionAt(block, k) && !QualifiedAt(block, k)
      decreases |block| - last
    {
      var c := Next(block, Mention, last);
      NextMention(block, last);
      if c.None? { break; }
      if !QualifiedAt(block, c.value.start) { versions := true; }
      last := c.value.end;
    }
  }

  method ReadNames(list: string) returns (names: seq<string>)
    ensures names == NamesOf(All(list, QuotedName, 0))
  {
    hide Next, QuotedName;
    names := [];
    var last := 0;
    ghost var done: seq<Match> := [];
    while true
      invariant last <= |list|
      invariant done + All(list, QuotedName, last) == All(list, QuotedName, 0)
      invariant names == NamesOf(done)
      decreases |list| - last
    {
      var q := Next(list, QuotedName, last);
      if q.None? { break; }
      names := names + [q.value.name];
      done := done + [q.value];
      last := q.value.end;
    }
    assert All(list, QuotedName, last) == [];
    assert done == All(list, QuotedName, 0);
  }

  lemma ArrayNamesStep(block: string, arrays: seq<Match>, a: Match)
    ensures ArrayNames(block, arrays + [a]) == ArrayNames(block, arrays) + Quoted(block, a)
  {
    assert (arrays + [a])[..|arrays|] == arrays;
  }

  lemma ListInside(block: string, i: nat)
    ensures ArrayLiteral(block, i).Some? ==> var a := ArrayLiteral(block, i).value; a.open < a.end <= |block|
  {
  }

  method ReadArrays(block: string) returns (names: seq<string>)
    ensures names == BlockNames(block)
  {
    hide Next, ArrayLiteral, ArrayNames, Quoted, NamesOf;
    names := [];
    var last := 0;
    ghost var done: seq<Match> := [];
    assert names == ArrayNames(block, done) by { NoArrays(block); }
    while true
      invariant last <= |block|
      invariant done + All(block, ArrayLiteral, last) == All(block, ArrayLiteral, 0)
      invariant names == ArrayNames(block, done)
      decreases |block| - last
    {
      var a := Next(block, ArrayLiteral, last);
      if a.None? { break; }
      ListInside(block, a.value.start);
      var quoted := ReadNames(block[a.value.open..a.value.end - 1]);
      QuotedIs(block, a.value);
      names := names + quoted;
      ArrayNamesStep(block, done, a.value);
      done := done + [a.value];
      last := a.value.end;
    }
    assert All(block, ArrayLiteral, last) == [];
    assert done == All(block, ArrayLiteral, 0);
  }

  lemma QuotedIs(block: string, a: Match)
    requires a.open < a.end <= |block|
    ensures Quoted(block, a) == NamesOf(All(block[a.open..a.end - 1], QuotedName, 0))
  {
  }

  lemma NoArrays(block: string)
    ensures ArrayNames(block, []) == []
  {
  }

  lemma BlockStep(file: string, text: string, blocks: seq<Match>, b: Match)
    ensures var block := Body(text, b);
            && BlockTables(text, blocks + [b])
               == BlockTables(text, blocks) + (if Versions(block) then Members(BlockNames(block)) else {})
            && BlockFailures(file, text, blocks + [b])
               == BlockFailures(file, text, blocks)
                  + (if Versions(block) && BlockNames(block) == [] then [UnnamedBlock(file, b.start)] else [])
  {
    hide Versions, BlockNames, Members, Body;
    assert (blocks + [b])[..|blocks|] == blocks;
  }

  lemma CoveredStep(blocks: seq<Match>, b: Match, k: int)
    ensures Covered(blocks + [b], k) <==> Covered(blocks, k) || b.start <= k < b.end
  {
    var all := blocks + [b];
    assert all[|blocks|] == b;
    if i: nat :| i < |blocks| && blocks[i].start <= k < blocks[i].end { assert all[i] == blocks[i]; }
    if i: nat :| i < |all| && all[i].start <= k < all[i].end { assert i < |blocks| ==> all[i] == blocks[i]; }
  }

  /** One more block blanked out, by the slices that the loop takes. */
  lemma MaskStep(text: string, blocks: seq<Match>, b: Match)
    requires b.start <= b.end <= |text|
    ensures var sql := Masked(text, blocks);
            sql[..b.start] + seq(b.end - b.start, _ => ' ') + sql[b.end..] == Masked(text, blocks + [b])
  {
    hide Covered;
    forall k | 0 <= k < |text| ensures Covered(blocks + [b], k) <==> Covered(blocks, k) || b.start <= k < b.end {
      CoveredStep(blocks, b, k);
    }
  }

  lemma NothingYet(file: string, text: string)
    ensures Masked(text, []) == text && BlockTables(text, []) == {} && BlockFailures(file, text, []) == []
  {
  }

  /** The first pass: each DO block yields its tables or a failure, and is blanked out. */
  method ReadBlocks(file: string, text: string) returns (sql: string, tables: set<string>, failures: seq<Failure>)
    ensures sql == Masked(text, Blocks(text)) && |sql| == |text|
    ensures tables == BlockTables(text, Blocks(text))
    ensures failures == BlockFailures(file, text, Blocks(text))
  {
    hide Next, Masked, BlockTables, BlockFailures, DoBlock, Versions, BlockNames, Members;
    NothingYet(file, text);
    sql, tables, failures := text, {}, [];
    var last := 0;
    ghost var done: seq<Match> := [];
    while true
      invariant last <= |text| == |sql|
      invariant done + All(text, DoBlock, last) == Blocks(text)
      invariant sql == Masked(text, done)
      invariant tables == BlockTables(text, done) && failures == BlockFailures(file, text, done)
      decreases |text| - last
    {
      var m := Next(text, DoBlock, last);
      if m.None? { break; }
      var b := m.value;
      var t, f := ReadBlock(file, text, b);
      tables, failures := tables + t, failures + f;
      BlockStep(file, text, done, b);
      MaskStep(text, done, b);
      sql := sql[..b.start] + seq(b.end - b.start, _ => ' ') + sql[b.end..];
      done := done + [b];
      last := b.end;
    }
    assert All(text, DoBlock, last) == [];
    assert done == Blocks(text);
  }

  method ReadBlock(file: string, text: string, b: Match) returns (tables: set<string>, failures: seq<Failure>)
    requires b.start <= b.end <= |text|
    ensures tables == if Versions(Body(text, b)) then Members(BlockNames(Body(text, b))) else {}
    ensures failures == if Versions(Body(text, b)) && BlockNames(Body(text, b)) == [] then [UnnamedBlock(file, b.start)]
                        else []
  {
    hide Versions, BlockNames;
    var block := text[b.start..b.end];
    tables, failures := {}, [];
    var versions := HasUnqualified(block);
    if versions {
      var names := ReadArrays(block);
      tables := set n | n in names;
      if |names| == 0 { failures := [UnnamedBlock(file, b.start)]; }
    }
  }

  method ReadDeclarations(sql: string) returns (declarations: seq<Match>)
    ensures declarations == All(sql, Declaration, 0)
  {
    hide Next, Declaration;
    declarations := [];
    var last := 0;
    while true
      invariant last <= |sql|
      invariant declarations + All(sql, Declaration, last) == All(sql, Declaration, 0)
      decreases |sql| - last
    {
      var m := Next(sql, Declaration, last);
      if m.None? { break; }
      declarations := declarations + [m.value];
      last := m.value.end;
    }
    assert All(sql, Declaration, last) == [];
  }

  /** The column lists' mentions: exactly the mentions in some INSERT's column list, each with that INSERT's table. */
  ghost predicate Resolved(inColumnList: map<nat, string>, sql: string, lists: seq<Match>) {
    forall at: nat ::
      && (at in inColumnList <==> at < |sql| && MentionAt(sql, at) && ListAt(lists, at).Some?)
      && (at in inColumnList ==> inColumnList[at] == ListAt(lists, at).value)
  }

  ghost predicate IsList(sql: string, l: Match) {
    0 < l.open < l.end <= |sql| && sql[l.open - 1] == '(' && sql[l.end - 1] == ')'
  }

  lemma ListShape(sql: string, i: nat)
    ensures InsertList(sql, i).Some? ==> IsList(sql, InsertList(sql, i).value)
  {
    var m := InsertList(sql, i);
    if m.Some? { OccursElement(sql, ")", m.value.end - 1, 0); }
  }

  /** A mention found in the column list alone is one found in the text, and conversely. */
  lemma MentionInList(sql: string, l: Match, k: nat)
    requires IsList(sql, l) && k < l.end - 1 - l.open
    ensures MentionAt(sql[l.open..l.end - 1], k) <==> MentionAt(sql, l.open + k)
  {
    var list := sql[l.open..l.end - 1];
    assert forall j | 0 <= j < |list| :: list[j] == sql[l.open + j];
    if MentionAt(sql, l.open + k) { MentionLetter(sql, l.open + k, l.end - 1); }
  }

  method ReadLists(sql: string) returns (inColumnList: map<nat, string>)
    ensures Resolved(inColumnList, sql, All(sql, InsertList, 0))
  {
    hide Next, InsertList, ListAt, MentionAt;
    inColumnList := map[];
    var last := 0;
    ghost var done: seq<Match> := [];
    assert Resolved(inColumnList, sql, done) by { NoLists(); }
    while true
      invariant last <= |sql|
      invariant done + All(sql, InsertList, last) == All(sql, InsertList, 0)
      invariant Resolved(inColumnList, sql, done)
      decreases |sql| - last
    {
      var m := Next(sql, InsertList, last);
      if m.None? { break; }
      ListShape(sql, m.value.start);
      inColumnList := ReadList(sql, m.value, inColumnList, done);
      done := done + [m.value];
      last := m.value.end;
    }
    assert All(sql, InsertList, last) == [];
    assert done == All(sql, InsertList, 0);
  }

  lemma NoLists()
    ensures forall at: nat :: ListAt([], at).None?
  {
  }

  lemma ListStep(lists: seq<Match>, l: Match, at: nat)
    ensures ListAt(lists + [l], at) == if l.open <= at < l.end - 1 then Some(l.name) else ListAt(lists, at)
  {
    assert (lists + [l])[..|lists|] == lists;
  }

  /** What the map holds when the list has been read as far as `n`. */
  ghost predicate ReadTo(found: map<nat, string>, known: map<nat, string>, sql: string, l: Match, n: nat) {
    forall at: nat ::
      && (at in found <==> at in known || (l.open <= at < l.open + n && at < |sql| && MentionAt(sql, at)))
      && (at in found && !(l.open <= at < l.open + n && MentionAt(sql, at)) ==> found[at] == known[at])
      && (l.open <= at < l.open + n && at in found && MentionAt(sql, at) ==> found[at] == l.name)
  }

  lemma ReadToStep(found: map<nat, string>, known: map<nat, string>, sql: string, l: Match, n: nat, c: Option<Match>)
    requires IsList(sql, l) && n <= l.end - 1 - l.open && ReadTo(found, known, sql, l, n)
    requires c == Next(sql[l.open..l.end - 1], Mention, n)
    ensures c.Some? ==> ReadTo(found[l.open + c.value.start := l.name], known, sql, l, c.value.end)
    ensures c.None? ==> ReadTo(found, known, sql, l, l.end - 1 - l.open)
  {
    hide Next, MentionAt;
    var list := sql[l.open..l.end - 1];
    NextMention(list, n);
    forall at: nat | l.open <= at < l.end - 1 ensures MentionAt(list, at - l.open) <==> MentionAt(sql, at) {
      MentionInList(sql, l, at - l.open);
    }
  }

  lemma ReadToAll(found: map<nat, string>, known: map<nat, string>, sql: string, l: Match, lists: seq<Match>)
    requires IsList(sql, l) && Resolved(known, sql, lists) && ReadTo(found, known, sql, l, l.end - 1 - l.open)
    ensures Resolved(found, sql, lists + [l])
  {
    hide ListAt, MentionAt;
    forall at: nat ensures ListAt(lists + [l], at) == if l.open <= at < l.end - 1 then Some(l.name) else ListAt(lists, at) {
      ListStep(lists, l, at);
    }
  }

  method ReadList(sql: string, l: Match, known: map<nat, string>, ghost lists: seq<Match>)
    returns (inColumnList: map<nat, string>)
    requires IsList(sql, l) && Resolved(known, sql, lists)
    ensures Resolved(inColumnList, sql, lists + [l])
  {
    hide Next, MentionAt, Resolved, ReadTo;
    var list := sql[l.open..l.end - 1];
    inColumnList := known;
    var last := 0;
    assert ReadTo(inColumnList, known, sql, l, 0) by { ReadNone(known, sql, l); }
    while true
      invariant last <= |list|
      invariant ReadTo(inColumnList, known, sql, l, last)
      decreases |list| - last
    {
      var c := Next(list, Mention, last);
      ReadToStep(inColumnList, known, sql, l, last, c);
      if c.None? {
        ReadToAll(inColumnList, known, sql, l, lists);
        return;
      }
      inColumnList := inColumnList[l.open + c.value.start := l.name];
      last := c.value.end;
    }
  }

  lemma ReadNone(known: map<nat, string>, sql: string, l: Match)
    ensures ReadTo(known, known, sql, l, 0)
  {
  }

  lemma {:induction false} Quiet(file: string, sql: string, a: nat, b: nat)
    requires a <= b <= |sql| && forall k: nat | a <= k < b :: !MentionAt(sql, k)
    ensures MentionTables(sql, a) == MentionTables(sql, b)
    ensures MentionFailures(file, sql, a) == MentionFailures(file, sql, b)
  {
    hide MentionAt, Attribution, QualifiedAt;
    if a < b { Quiet(file, sql, a, b - 1); }
  }

  /** From one position of the loop to the next: only the match counts. */
  lemma MentionStep(file: string, sql: string, last: nat)
    requires last <= |sql|
    ensures match Next(sql, Mention, last)
      case None => MentionTables(sql, |sql|) == MentionTables(sql, last)
                   && MentionFailures(file, sql, |sql|) == MentionFailures(file, sql, last)
      case Some(m) =>
        && MentionAt(sql, m.start) && m.end <= |sql|
        && MentionTables(sql, m.end) == MentionTables(sql, m.start + 1)
        && MentionTables(sql, m.start) == MentionTables(sql, last)
        && MentionFailures(file, sql, m.end) == MentionFailures(file, sql, m.start + 1)
        && MentionFailures(file, sql, m.start) == MentionFailures(file, sql, last)
  {
    hide MentionTables, MentionFailures, MentionAt, Next;
    NextMention(sql, last);
    var r := Next(sql, Mention, last);
    if r.None? {
      Quiet(file, sql, last, |sql|);
    } else {
      Quiet(file, sql, last, r.value.start);
      Quiet(file, sql, r.value.start + 1, r.value.end);
    }
  }

  /** The second pass: every mention left is skipped as qualified, or attributed, or reported. */
  method ReadMentions(file: string, sql: string) returns (tables: set<string>, failures: seq<Failure>)
    ensures tables == MentionTables(sql, |sql|)
    ensures failures == MentionFailures(file, sql, |sql|)
  {
    hide MentionAt, QualifiedAt, Next, ListAt, LastBefore, Declaration, InsertList;
    var declarations := ReadDeclarations(sql);
    var inColumnList := ReadLists(sql);
    tables, failures := {}, [];
    var last := 0;
    while true
      invariant last <= |sql|
      invariant tables == MentionTables(sql, last) && failures == MentionFailures(file, sql, last)
      decreases |sql| - last
    {
      var m := Next(sql, Mention, last);
      MentionStep(file, sql, last);
      if m.None? { break; }
      var at := m.value.start;
      last := m.value.end;
      if QualifiedAt(sql, at) { continue; }
      if at in inColumnList {
        tables := tables + {inColumnList[at]};
        continue;
      }
      var owner := LastBefore(declarations, at);
      if owner.None? {
        failures := failures + [NoOwner(file, at)];
        continue;
      }
      tables := tables + {owner.value};
    }
  }

  datatype Migration = Migration(file: string, text: string)

  function Tables(migrations: seq<Migration>): set<string> {
    if migrations == [] then {}
    else Tables(migrations[..|migrations| - 1]) + FileTables(migrations[|migrations| - 1].text)
  }

  function Failures(migrations: seq<Migration>): seq<Failure> {
    if migrations == [] then []
    else
      var m := migrations[|migrations| - 1];
      Failures(migrations[..|migrations| - 1]) + FileFailures(m.file, m.text)
  }

  method OwnedTables(migrations: seq<Migration>) returns (tables: set<string>, failures: seq<Failure>)
    ensures tables == Tables(migrations)
    ensures failures == Failures(migrations)
  {
    hide BlockTables, BlockFailures, MentionTables, MentionFailures, Blocks, Masked;
    tables, failures := {}, [];
    for n := 0 to |migrations|
      invariant tables == Tables(migrations[..n]) && failures == Failures(migrations[..n])
    {
      var m := migrations[n];
      var sql, t, f := ReadBlocks(m.file, m.text);
      var t', f' := ReadMentions(m.file, sql);
      tables := tables + t + t';
      failures := failures + f + f';
      assert migrations[..n + 1][..n] == migrations[..n];
    }
    assert migrations[..|migrations|] == migrations;
  }
}
