/** The inventory from the SQL itself: `parseStatements` and `buildInventory` of scripts/reconciliation-inventory.ts. */
module SqlInventory {
  import opened Text
  import opened StatementSplitter
  import opened SpanDiff
  import opened Inventory

  /** What a statement's normalised text is read for. */
  datatype Reading = Reading(verb: string, raises: bool)

  function KeysOf(sql: string, key: string -> string): seq<string> {
    var ps := Split(sql);
    seq(|ps|, i requires 0 <= i < |ps| => key(ps[i].text))
  }

  function StatementsOf(sql: string, read: string -> Reading, key: string -> string): (all: seq<Statement>)
    ensures Numbered(all)
  {
    var ps := Split(sql);
    seq(|ps|, i requires 0 <= i < |ps| =>
      Statement(i + 1, read(ps[i].text).verb, read(ps[i].text).raises, key(ps[i].text)))
  }

  datatype Refusal = KeyCollision(copies: seq<(nat, nat)>) | NotRemovable(error: RemovalError)

  /** Statements are numbered in order, and refused when two of them have one key. */
  method ParseStatements(sql: string, read: string -> Reading, key: string -> string)
    returns (r: Result<seq<Statement>, Refusal>)
    ensures r.Ok? <==> Distinct(KeysOf(sql, key))
    ensures r.Ok? ==> r.value == StatementsOf(sql, read, key)
  {
    hide Split, Distinct;
    var pieces := SplitStatements(sql);
    var parsed: seq<Statement>, keys: seq<string> := [], [];
    for n := 0 to |pieces|
      invariant |parsed| == |keys| == n
      invariant forall i | 0 <= i < n :: parsed[i] == StatementsOf(sql, read, key)[i] && keys[i] == KeysOf(sql, key)[i]
    {
      var reading, k := read(pieces[n].text), key(pieces[n].text);
      parsed := parsed + [Statement(n + 1, reading.verb, reading.raises, k)];
      keys := keys + [k];
    }
    assert parsed == StatementsOf(sql, read, key) && keys == KeysOf(sql, key);
    var collisions := KeyCollisions(keys);
    r := if collisions != [] then Err(KeyCollision(collisions)) else Ok(parsed);
  }

  datatype Report = Report(rows: seq<Row>, problems: seq<Problem>, totals: Totals)

  function CoverageOf(sql: string, controls: seq<Control>, anchors: map<string, Anchors>, key: string -> string)
    : map<string, string>
  {
    CoverageUpTo(sql, controls, anchors, key, |controls|)
  }

  /**
   * From the text to the report: refused when two statements share a key or a control cuts no statement; otherwise the
   * rows and problems are those of the statements against the spans the controls delete, and the totals add up.
   */
  method BuildInventoryOf(sql: string, read: string -> Reading, key: string -> string, ds: seq<Declaration>,
                          controls: seq<Control>, anchors: map<string, Anchors>)
    returns (r: Result<Report, Refusal>)
    ensures r.Ok? <==> Distinct(KeysOf(sql, key)) && forall i | 0 <= i < |controls| :: Removable(sql, controls[i], anchors)
    ensures r.Ok? ==>
              var all, c := StatementsOf(sql, read, key), CoverageOf(sql, controls, anchors, key);
              && r.value.rows == RowsUpTo(all, Book(c, DeclaredByKey(ds)), |all|)
              && r.value.problems == Problems(all, c, ds)
              && r.value.totals == Totalled(all, r.value.rows, |controls|)
    ensures r.Ok? ==>
              var t := r.value.totals;
              t.reconciliations == t.covered + t.notLoadBearing + t.guards + t.unaccounted
  {
    hide Distinct, KeysOf, StatementsOf, Removable, CoverageUpTo, RowsUpTo, Problems, Totalled, DeclaredByKey;
    var parsed := ParseStatements(sql, read, key);
    if parsed.Err? { return Err(parsed.error); }
    var coverage := ControlCoverage(sql, controls, anchors, key);
    if coverage.Err? { return Err(NotRemovable(coverage.error)); }
    var rows, problems, totals := BuildInventory(parsed.value, coverage.value, ds, |controls|);
    InventoryConserves(parsed.value, Book(coverage.value, DeclaredByKey(ds)), |controls|);
    r := Ok(Report(rows, problems, totals));
  }

  // ---- what a control can cover ----

  /**
   * A control that deletes statement `k` (a span with that statement's key) covers its key exactly when the span the
   * diff reports has the same key, and then no other statement's. A slide of whole turns is enough, and so is a next
   * statement that begins differently.
   */
  lemma CoversItsOwn(sql: string, control: Control, anchors: map<string, Anchors>, key: string -> string, k: nat)
    requires control.id in anchors && Removable(sql, control, anchors)
    requires Distinct(KeysOf(sql, key)) && k < |KeysOf(sql, key)|
    requires var c := StatementCut(sql, anchors[control.id].from, anchors[control.id].to).value;
             key(sql[c.from..c.to]) == KeysOf(sql, key)[k]
    ensures var c := StatementCut(sql, anchors[control.id].from, anchors[control.id].to).value;
            var covers := KeyOf(sql, control, anchors, key);
            && c.from < c.to
            && (covers == Some(KeysOf(sql, key)[k]) <==> key(Recovered(sql, c)) == key(sql[c.from..c.to]))
            && (Slide(sql, c) % (c.to - c.from) == 0 ==> covers == Some(KeysOf(sql, key)[k]))
            && (c.to == |sql| || sql[c.from] != sql[c.to] ==> covers == Some(KeysOf(sql, key)[k]))
            && (covers == Some(KeysOf(sql, key)[k]) ==>
                  forall j | 0 <= j < |KeysOf(sql, key)| && j != k :: covers != Some(KeysOf(sql, key)[j]))
  {
    hide StatementCut, Split, Rotate, Slide, Semicolons;
    var a := anchors[control.id];
    var c := StatementCut(sql, a.from, a.to).value;
    HoldsOne(sql, a.from, a.to);
    TurnedToItself(sql[c.from..c.to], Slide(sql, c));
    if c.to == |sql| || sql[c.from] != sql[c.to] { NoSlide(sql, c); }
  }
}
