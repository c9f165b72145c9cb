/** Comparing an approved revision of an estimate with its current lines, code by code. */
module RevisionDiff {
  import opened Common

  datatype RateItem = RateItem(code: string, name: string, unit: string)

  datatype EstimateLine = EstimateLine(rateCatalogItemId: string, quantity: real, lineTotal: real)

  datatype Snapshot = Snapshot(code: string, name: string, unit: string, quantity: real, lineTotal: real)

  datatype Info = Info(name: string, unit: string, quantity: real, lineTotal: real)

  datatype Kind = Added | Removed | Changed | Same

  datatype Row = Row(code: string, name: string, unit: string, revQuantity: Option<real>, curQuantity: Option<real>,
                     revTotal: Option<real>, curTotal: Option<real>, kind: Kind)

  /** A line with the code it is filed under; None when its rate item is not known. */
  datatype Coded = Coded(code: Option<string>, info: Info)

  /** A JavaScript Map: keys in the order first set, each with the value last set. */
  datatype Table = Table(keys: seq<string>, vals: map<string, Info>)
  {
    ghost predicate Valid() {
      Distinct(keys) && forall k :: k in keys <==> k in vals
    }

    function Put(k: string, v: Info): Table {
      Table(if k in vals then keys else keys + [k], vals[k := v])
    }
  }

  function CodedCurrent(line: EstimateLine, items: map<string, RateItem>): Coded {
    if line.rateCatalogItemId in items then
      var item := items[line.rateCatalogItemId];
      Coded(Some(item.code), Info(item.name, item.unit, line.quantity, line.lineTotal))
    else Coded(None, Info("", "", line.quantity, line.lineTotal))
  }

  function Current(lines: seq<EstimateLine>, items: map<string, RateItem>): (coded: seq<Coded>)
    ensures |coded| == |lines|
    ensures forall i :: 0 <= i < |lines| ==> coded[i] == CodedCurrent(lines[i], items)
  {
    seq(|lines|, i requires 0 <= i < |lines| => CodedCurrent(lines[i], items))
  }

  function Recorded(lines: seq<Snapshot>): (coded: seq<Coded>)
    ensures |coded| == |lines|
    ensures forall i :: 0 <= i < |lines| ==>
              coded[i] == Coded(Some(lines[i].code), Info(lines[i].name, lines[i].unit, lines[i].quantity, lines[i].lineTotal))
  {
    seq(|lines|, i requires 0 <= i < |lines| =>
                   Coded(Some(lines[i].code), Info(lines[i].name, lines[i].unit, lines[i].quantity, lines[i].lineTotal)))
  }

  /** The lines entered into a Map one after another. */
  function TableOf(lines: seq<Coded>): (t: Table)
    ensures t.Valid()
  {
    if lines == [] then Table([], map[]) else
      var t := TableOf(lines[..|lines| - 1]);
      var line := lines[|lines| - 1];
      if line.code.None? then t else t.Put(line.code.value, line.info)
  }

  function Missing(keys: seq<string>, vals: map<string, Info>): seq<string> {
    if keys == [] then [] else (if keys[0] in vals then [] else [keys[0]]) + Missing(keys[1..], vals)
  }

  /** The union of the two key sets, current codes first. */
  function AllCodes(cur: Table, rev: Table): seq<string> {
    cur.keys + Missing(rev.keys, cur.vals)
  }

  function RowOf(code: string, cur: Table, rev: Table): Row {
    var c := if code in cur.vals then Some(cur.vals[code]) else None;
    var r := if code in rev.vals then Some(rev.vals[code]) else None;
    var kind := if r.None? then Added
                else if c.None? then Removed
                else if r.value.quantity != c.value.quantity || r.value.lineTotal != c.value.lineTotal then Changed
                else Same;
    Row(code,
        if c.Some? then c.value.name else if r.Some? then r.value.name else code,
        if c.Some? then c.value.unit else if r.Some? then r.value.unit else "",
        if r.Some? then Some(r.value.quantity) else None, if c.Some? then Some(c.value.quantity) else None,
        if r.Some? then Some(r.value.lineTotal) else None, if c.Some? then Some(c.value.lineTotal) else None, kind)
  }

  function RowsOf(codes: seq<string>, cur: Table, rev: Table): (rows: seq<Row>)
    ensures |rows| == |codes|
    ensures forall i :: 0 <= i < |codes| ==> rows[i] == RowOf(codes[i], cur, rev)
  {
    seq(|codes|, i requires 0 <= i < |codes| => RowOf(codes[i], cur, rev))
  }

  function Compare(cur: Table, rev: Table): seq<Row> {
    RowsOf(AllCodes(cur, rev), cur, rev)
  }

  method BuildComparison(revision: seq<Snapshot>, currentLines: seq<EstimateLine>, rateItemsById: map<string, RateItem>)
    returns (rows: seq<Row>)
    ensures rows == Compare(TableOf(Current(currentLines, rateItemsById)), TableOf(Recorded(revision)))
  {
    var currentByCode := Table([], map[]);
    ghost var coded := Current(currentLines, rateItemsById);
    for i := 0 to |currentLines|
      invariant currentByCode == TableOf(coded[..i])
    {
      assert coded[..i + 1][..i] == coded[..i];
      var line := currentLines[i];
      if line.rateCatalogItemId in rateItemsById {
        var info := rateItemsById[line.rateCatalogItemId];
        currentByCode := currentByCode.Put(info.code, Info(info.name, info.unit, line.quantity, line.lineTotal));
      }
    }
    assert coded[..|coded|] == coded;
    var revByCode := TableOf(Recorded(revision));
    rows := RowsOf(AllCodes(currentByCode, revByCode), currentByCode, revByCode);
  }

  // ----- what a row shows of the lines -----

  ghost predicate LastSnapshot(revision: seq<Snapshot>, i: int, code: string) {
    0 <= i < |revision| && revision[i].code == code && forall j :: i < j < |revision| ==> revision[j].code != code
  }

  ghost predicate FiledUnder(line: EstimateLine, items: map<string, RateItem>, code: string) {
    line.rateCatalogItemId in items && items[line.rateCatalogItemId].code == code
  }

  ghost predicate LastLine(lines: seq<EstimateLine>, items: map<string, RateItem>, i: int, code: string) {
    0 <= i < |lines| && FiledUnder(lines[i], items, code) && forall j :: i < j < |lines| ==> !FiledUnder(lines[j], items, code)
  }

  /** The row's revision side: the last snapshot of its code, or nothing. */
  ghost predicate ShowsRevision(row: Row, revision: seq<Snapshot>) {
    if exists i :: LastSnapshot(revision, i, row.code) then
      exists i :: LastSnapshot(revision, i, row.code)
                  && row.revQuantity == Some(revision[i].quantity) && row.revTotal == Some(revision[i].lineTotal)
    else row.revQuantity == None && row.revTotal == None
  }

  /** Its current side: the last line filed under its code, or nothing. */
  ghost predicate ShowsCurrent(row: Row, lines: seq<EstimateLine>, items: map<string, RateItem>) {
    if exists i :: LastLine(lines, items, i, row.code) then
      exists i :: LastLine(lines, items, i, row.code)
                  && row.curQuantity == Some(lines[i].quantity) && row.curTotal == Some(lines[i].lineTotal)
    else row.curQuantity == None && row.curTotal == None
  }

  /** Its name and unit: those of the current line's item, else those recorded. */
  ghost predicate ShowsName(row: Row, revision: seq<Snapshot>, lines: seq<EstimateLine>, items: map<string, RateItem>) {
    && (forall i :: LastLine(lines, items, i, row.code) ==>
          row.name == items[lines[i].rateCatalogItemId].name && row.unit == items[lines[i].rateCatalogItemId].unit)
    && (forall i :: row.curTotal.None? && LastSnapshot(revision, i, row.code) ==>
          row.name == revision[i].name && row.unit == revision[i].unit)
  }

  ghost predicate ShowsKind(row: Row) {
    match row.kind
    case Added => row.revTotal.None?
    case Removed => row.revTotal.Some? && row.curTotal.None?
    case Changed => row.revTotal.Some? && row.curTotal.Some? && !(row.revQuantity == row.curQuantity && row.revTotal == row.curTotal)
    case Same => row.revTotal.Some? && row.revQuantity == row.curQuantity && row.revTotal == row.curTotal
  }

  lemma {:induction false} TableHas(lines: seq<Coded>, code: string)
    ensures code in TableOf(lines).vals <==> exists i :: 0 <= i < |lines| && lines[i].code == Some(code)
  {
    if lines != [] {
      var front, last := lines[..|lines| - 1], lines[|lines| - 1];
      TableHas(front, code);
      assert forall i :: 0 <= i < |front| ==> front[i] == lines[i];
    }
  }

  lemma {:induction false} TableLast(lines: seq<Coded>, code: string, i: nat)
    requires i < |lines| && lines[i].code == Some(code) && forall j :: i < j < |lines| ==> lines[j].code != Some(code)
    ensures code in TableOf(lines).vals && TableOf(lines).vals[code] == lines[i].info
  {
    if i < |lines| - 1 {
      TableLast(lines[..|lines| - 1], code, i);
    }
  }

  /** Of some lines with a code there is a last. */
  lemma {:induction false} LastCoded(lines: seq<Coded>, code: string, i: nat) returns (k: nat)
    requires i < |lines| && lines[i].code == Some(code)
    ensures k < |lines| && lines[k].code == Some(code) && forall j :: k < j < |lines| ==> lines[j].code != Some(code)
    decreases |lines| - i
  {
    if j :| i < j < |lines| && lines[j].code == Some(code) {
      k := LastCoded(lines, code, j);
    } else {
      k := i;
    }
  }

  lemma RecordedEntry(revision: seq<Snapshot>, code: string)
    ensures var vals := TableOf(Recorded(revision)).vals;
            && (code in vals <==> exists i :: LastSnapshot(revision, i, code))
            && forall i :: LastSnapshot(revision, i, code) ==>
                 vals[code] == Info(revision[i].name, revision[i].unit, revision[i].quantity, revision[i].lineTotal)
  {
    var lines := Recorded(revision);
    TableHas(lines, code);
    if code in TableOf(lines).vals {
      var i :| 0 <= i < |lines| && lines[i].code == Some(code);
      var k := LastCoded(lines, code, i);
      assert LastSnapshot(revision, k, code);
    }
    forall i | LastSnapshot(revision, i, code) ensures code in TableOf(lines).vals && TableOf(lines).vals[code] == lines[i].info {
      TableLast(lines, code, i);
    }
  }

  lemma CurrentEntry(lines: seq<EstimateLine>, items: map<string, RateItem>, code: string)
    ensures var vals := TableOf(Current(lines, items)).vals;
            && (code in vals <==> exists i :: LastLine(lines, items, i, code))
            && forall i :: LastLine(lines, items, i, code) ==>
                 var item := items[lines[i].rateCatalogItemId];
                 vals[code] == Info(item.name, item.unit, lines[i].quantity, lines[i].lineTotal)
  {
    var coded := Current(lines, items);
    TableHas(coded, code);
    assert forall i :: 0 <= i < |lines| ==> (coded[i].code == Some(code) <==> FiledUnder(lines[i], items, code));
    if code in TableOf(coded).vals {
      var i :| 0 <= i < |coded| && coded[i].code == Some(code);
      var k := LastCoded(coded, code, i);
      assert LastLine(lines, items, k, code);
    }
    forall i | LastLine(lines, items, i, code) ensures code in TableOf(coded).vals && TableOf(coded).vals[code] == coded[i].info {
      TableLast(coded, code, i);
    }
  }

  lemma RevisionSide(revision: seq<Snapshot>, cur: Table, code: string)
    ensures ShowsRevision(RowOf(code, cur, TableOf(Recorded(revision))), revision)
  {
    RecordedEntry(revision, code);
  }

  lemma CurrentSide(lines: seq<EstimateLine>, items: map<string, RateItem>, rev: Table, code: string)
    ensures ShowsCurrent(RowOf(code, TableOf(Current(lines, items)), rev), lines, items)
  {
    CurrentEntry(lines, items, code);
  }

  lemma NameShown(revision: seq<Snapshot>, lines: seq<EstimateLine>, items: map<string, RateItem>, code: string)
    ensures ShowsName(RowOf(code, TableOf(Current(lines, items)), TableOf(Recorded(revision))), revision, lines, items)
  {
    RecordedEntry(revision, code);
    CurrentEntry(lines, items, code);
  }

  lemma KindShown(cur: Table, rev: Table, code: string)
    requires code in cur.vals || code in rev.vals
    ensures ShowsKind(RowOf(code, cur, rev))
  {
  }

  /** Every row shows, of the lines compared, the last of its code on either side, with its name and unit, and whether it was
      added, removed, changed or left. */
  lemma RowsShowLines(revision: seq<Snapshot>, lines: seq<EstimateLine>, items: map<string, RateItem>, k: nat)
    requires k < |Compare(TableOf(Current(lines, items)), TableOf(Recorded(revision)))|
    ensures var row := Compare(TableOf(Current(lines, items)), TableOf(Recorded(revision)))[k];
            ShowsRevision(row, revision) && ShowsCurrent(row, lines, items) && ShowsName(row, revision, lines, items)
            && ShowsKind(row)
  {
    var cur, rev := TableOf(Current(lines, items)), TableOf(Recorded(revision));
    var code := AllCodes(cur, rev)[k];
    EachCodeOnce(cur, rev);
    assert code in AllCodes(cur, rev);
    RevisionSide(revision, cur, code);
    CurrentSide(lines, items, rev, code);
    NameShown(revision, lines, items, code);
    KindShown(cur, rev, code);
  }

  // ----- each code once -----

  lemma {:induction false} MissingCodes(keys: seq<string>, vals: map<string, Info>)
    requires Distinct(keys)
    ensures Distinct(Missing(keys, vals))
    ensures forall k :: k in Missing(keys, vals) <==> k in keys && k !in vals
  {
    if keys != [] {
      assert Distinct(keys[1..]);
      MissingCodes(keys[1..], vals);
      assert keys == [keys[0]] + keys[1..];
      assert keys[0] !in keys[1..];
    }
  }

  /** The rows name every code of either side exactly once. */
  lemma EachCodeOnce(cur: Table, rev: Table)
    requires cur.Valid() && rev.Valid()
    ensures Distinct(AllCodes(cur, rev))
    ensures forall k :: k in AllCodes(cur, rev) <==> k in cur.vals || k in rev.vals
  {
    MissingCodes(rev.keys, cur.vals);
    var missing := Missing(rev.keys, cur.vals);
    forall i, j | 0 <= i < j < |AllCodes(cur, rev)| ensures AllCodes(cur, rev)[i] != AllCodes(cur, rev)[j] {
      if i < |cur.keys| <= j {
        assert missing[j - |cur.keys|] in missing && cur.keys[i] in cur.keys;
      }
    }
  }

  // ----- the rows as a patch -----

  /** Quantity and total under each code: what the rows compare. */
  function Figures(t: Table): map<string, (real, real)> {
    map k | k in t.vals :: (t.vals[k].quantity, t.vals[k].lineTotal)
  }

  function At(m: map<string, (real, real)>, k: string): Option<(real, real)> {
    if k in m then Some(m[k]) else None
  }

  function Pair(quantity: Option<real>, total: Option<real>): Option<(real, real)> {
    if quantity.Some? && total.Some? then Some((quantity.value, total.value)) else None
  }

  function Set(m: map<string, (real, real)>, k: string, v: Option<(real, real)>): map<string, (real, real)> {
    if v.Some? then m[k := v.value] else m - {k}
  }

  /** Carries the rows out on the revision's figures: adds the added, removes the removed, changes the changed. */
  function Apply(rows: seq<Row>, m: map<string, (real, real)>): map<string, (real, real)> {
    if rows == [] then m else
      var r := rows[0];
      Apply(rows[1..], if r.kind == Same then m
                       else if r.kind == Removed then m - {r.code}
                       else Set(m, r.code, Pair(r.curQuantity, r.curTotal)))
  }

  /** And back: removes the added, restores the removed and the changed. */
  function Revert(rows: seq<Row>, m: map<string, (real, real)>): map<string, (real, real)> {
    if rows == [] then m else
      var r := rows[0];
      Revert(rows[1..], if r.kind == Same then m
                        else if r.kind == Added then m - {r.code}
                        else Set(m, r.code, Pair(r.revQuantity, r.revTotal)))
  }

  lemma {:induction false} AppliesAt(codes: seq<string>, cur: Table, rev: Table, m: map<string, (real, real)>, k: string)
    requires Distinct(codes) && forall c :: c in codes ==> c in cur.vals || c in rev.vals
    requires At(m, k) == At(Figures(rev), k) || k !in codes
    ensures At(Apply(RowsOf(codes, cur, rev), m), k) == if k in codes then At(Figures(cur), k) else At(m, k)
    decreases |codes|
  {
    if codes != [] {
      var c, rest := codes[0], codes[1..];
      var rows := RowsOf(codes, cur, rev);
      assert rows[1..] == RowsOf(rest, cur, rev);
      assert codes == [c] + rest && c !in rest && Distinct(rest);
      var r := rows[0];
      var next := if r.kind == Same then m else if r.kind == Removed then m - {c} else Set(m, c, Pair(r.curQuantity, r.curTotal));
      AppliesAt(rest, cur, rev, next, k);
    }
  }

  lemma {:induction false} RevertsAt(codes: seq<string>, cur: Table, rev: Table, m: map<string, (real, real)>, k: string)
    requires Distinct(codes) && forall c :: c in codes ==> c in cur.vals || c in rev.vals
    requires At(m, k) == At(Figures(cur), k) || k !in codes
    ensures At(Revert(RowsOf(codes, cur, rev), m), k) == if k in codes then At(Figures(rev), k) else At(m, k)
    decreases |codes|
  {
    if codes != [] {
      var c, rest := codes[0], codes[1..];
      var rows := RowsOf(codes, cur, rev);
      assert rows[1..] == RowsOf(rest, cur, rev);
      assert codes == [c] + rest && c !in rest && Distinct(rest);
      var r := rows[0];
      var next := if r.kind == Same then m else if r.kind == Added then m - {c} else Set(m, c, Pair(r.revQuantity, r.revTotal));
      RevertsAt(rest, cur, rev, next, k);
    }
  }

  /** The comparison loses nothing: carried out on the revision's figures its rows give the current ones, and
      undone on the current figures they give the revision's back. */
  lemma RowsAreAPatch(cur: Table, rev: Table)
    requires cur.Valid() && rev.Valid()
    ensures Apply(Compare(cur, rev), Figures(rev)) == Figures(cur)
    ensures Revert(Compare(cur, rev), Figures(cur)) == Figures(rev)
  {
    EachCodeOnce(cur, rev);
    var codes := AllCodes(cur, rev);
    var forth, back := Apply(Compare(cur, rev), Figures(rev)), Revert(Compare(cur, rev), Figures(cur));
    forall k ensures At(forth, k) == At(Figures(cur), k) && At(back, k) == At(Figures(rev), k) {
      AppliesAt(codes, cur, rev, Figures(rev), k);
      RevertsAt(codes, cur, rev, Figures(cur), k);
    }
    SameEverywhere(forth, Figures(cur));
    SameEverywhere(back, Figures(rev));
  }

  lemma SameEverywhere(m: map<string, (real, real)>, n: map<string, (real, real)>)
    requires forall k :: At(m, k) == At(n, k)
    ensures m == n
  {
    forall k ensures (k in m <==> k in n) && (k in m ==> m[k] == n[k]) {
      assert At(m, k) == At(n, k);
    }
  }

  // ----- totals -----

  function TotalOf(lines: seq<Coded>): real {
    if lines == [] then 0.0 else lines[0].info.lineTotal + TotalOf(lines[1..])
  }

  /** A line the comparison drops: of an unknown item, or followed by a line of the same code. */
  ghost predicate Dropped(line: Coded, later: seq<Coded>) {
    line.code.None? || exists l :: l in later && l.code == line.code
  }

  ghost function DroppedTotal(lines: seq<Coded>): real {
    if lines == [] then 0.0
    else (if Dropped(lines[0], lines[1..]) then lines[0].info.lineTotal else 0.0) + DroppedTotal(lines[1..])
  }

  /** The last-wins map, read from the front. */
  ghost function LastWins(lines: seq<Coded>): map<string, Info> {
    if lines == [] then map[] else
      var rest := LastWins(lines[1..]);
      if Dropped(lines[0], lines[1..]) then rest else rest[lines[0].code.value := lines[0].info]
  }

  lemma {:induction false} LastWinsKeys(lines: seq<Coded>)
    ensures forall k :: k in LastWins(lines) <==> exists l :: l in lines && l.code == Some(k)
  {
    if lines != [] {
      LastWinsKeys(lines[1..]);
      assert lines == [lines[0]] + lines[1..];
      forall k ensures k in LastWins(lines) <==> exists l :: l in lines && l.code == Some(k) {
        if l :| l in lines && l.code == Some(k) {
          assert l == lines[0] || l in lines[1..];
        }
        if k in LastWins(lines) && k !in LastWins(lines[1..]) {
          assert lines[0] in lines && lines[0].code == Some(k);
        }
      }
    }
  }

  lemma {:induction false} LastWinsAppend(lines: seq<Coded>, line: Coded)
    ensures LastWins(lines + [line]) == if line.code.None? then LastWins(lines) else LastWins(lines)[line.code.value := line.info]
  {
    var all := lines + [line];
    if lines == [] {
      assert all[1..] == [] && LastWins([]) == map[];
    } else {
      var rest := lines[1..];
      assert all[1..] == rest + [line];
      LastWinsAppend(rest, line);
      assert Dropped(all[0], rest + [line]) <==> Dropped(lines[0], rest) || line.code == lines[0].code by {
        if line.code == lines[0].code {
          assert line in rest + [line];
        }
        if Dropped(lines[0], rest) && lines[0].code.Some? {
          var l :| l in rest && l.code == lines[0].code;
          assert l in rest + [line];
        }
      }
      if line.code.Some? && line.code == lines[0].code {
        LastWinsKeys(rest);
      }
    }
  }

  lemma {:induction false} TableIsLastWins(lines: seq<Coded>)
    ensures TableOf(lines).vals == LastWins(lines)
  {
    if lines != [] {
      var front := lines[..|lines| - 1];
      TableIsLastWins(front);
      LastWinsAppend(front, lines[|lines| - 1]);
      assert front + [lines[|lines| - 1]] == lines;
    }
  }

  /** The totals found under the codes. */
  function SumAt(codes: seq<string>, vals: map<string, Info>): real {
    if codes == [] then 0.0
    else (if codes[0] in vals then vals[codes[0]].lineTotal else 0.0) + SumAt(codes[1..], vals)
  }

  lemma {:induction false} SumAtSet(codes: seq<string>, vals: map<string, Info>, k: string, v: Info)
    requires Distinct(codes) && k !in vals
    ensures SumAt(codes, vals[k := v]) == SumAt(codes, vals) + if k in codes then v.lineTotal else 0.0
  {
    if codes != [] {
      assert codes == [codes[0]] + codes[1..] && codes[0] !in codes[1..] && Distinct(codes[1..]);
      SumAtSet(codes[1..], vals, k, v);
    }
  }

  lemma {:induction false} SumAtNothing(codes: seq<string>)
    ensures SumAt(codes, map[]) == 0.0
  {
    if codes != [] {
      SumAtNothing(codes[1..]);
    }
  }

  /** Over any list of distinct codes that misses none of the map's, the totals add up to the lines' less the dropped ones'. */
  lemma {:induction false} KeptTotal(lines: seq<Coded>, codes: seq<string>)
    requires Distinct(codes) && forall k :: k in LastWins(lines) ==> k in codes
    ensures SumAt(codes, LastWins(lines)) == TotalOf(lines) - DroppedTotal(lines)
  {
    if lines == [] {
      SumAtNothing(codes);
    } else {
      LastWinsKeys(lines[1..]);
      KeptTotal(lines[1..], codes);
      if !Dropped(lines[0], lines[1..]) {
        SumAtSet(codes, LastWins(lines[1..]), lines[0].code.value, lines[0].info);
      }
    }
  }

  function CurrentTotal(rows: seq<Row>): real {
    if rows == [] then 0.0 else rows[0].curTotal.GetOr(0.0) + CurrentTotal(rows[1..])
  }

  function RevisionTotal(rows: seq<Row>): real {
    if rows == [] then 0.0 else rows[0].revTotal.GetOr(0.0) + RevisionTotal(rows[1..])
  }

  lemma {:induction false} RowTotals(codes: seq<string>, cur: Table, rev: Table)
    ensures CurrentTotal(RowsOf(codes, cur, rev)) == SumAt(codes, cur.vals)
    ensures RevisionTotal(RowsOf(codes, cur, rev)) == SumAt(codes, rev.vals)
    decreases |codes|
  {
    if codes != [] {
      RowTotals(codes[1..], cur, rev);
      assert RowsOf(codes, cur, rev)[1..] == RowsOf(codes[1..], cur, rev);
    }
  }

  /** Each side's rows add up to that side's line totals, less the lines the comparison drops; so the difference the
      rows show is the two estimates' difference exactly when as much was dropped from one as from the other. */
  lemma RowDifferenceIff(current: seq<Coded>, revision: seq<Coded>)
    ensures var rows := Compare(TableOf(current), TableOf(revision));
            && CurrentTotal(rows) == TotalOf(current) - DroppedTotal(current)
            && RevisionTotal(rows) == TotalOf(revision) - DroppedTotal(revision)
            && (CurrentTotal(rows) - RevisionTotal(rows) == TotalOf(current) - TotalOf(revision)
                <==> DroppedTotal(current) == DroppedTotal(revision))
  {
    var cur, rev := TableOf(current), TableOf(revision);
    EachCodeOnce(cur, rev);
    TableIsLastWins(current);
    TableIsLastWins(revision);
    KeptTotal(current, AllCodes(cur, rev));
    KeptTotal(revision, AllCodes(cur, rev));
    RowTotals(AllCodes(cur, rev), cur, rev);
  }

  /** Two current lines of one code, against a revision without any: the rows show the second line's total alone. */
  lemma RepeatedCodeDropsLine(code: string, a: Info, b: Info)
    requires a.lineTotal != 0.0
    ensures var current := [Coded(Some(code), a), Coded(Some(code), b)];
            var rows := Compare(TableOf(current), TableOf([]));
            && CurrentTotal(rows) - RevisionTotal(rows) == b.lineTotal
            && TotalOf(current) - TotalOf([]) == a.lineTotal + b.lineTotal != b.lineTotal
  {
    var x, y := Coded(Some(code), a), Coded(Some(code), b);
    assert [x, y][1..] == [y] && [y][1..] == [];
    assert Dropped(x, [y]) && !Dropped(y, []);
    RowDifferenceIff([x, y], []);
  }

  ghost predicate UniqueCodes(lines: seq<Coded>) {
    && (forall l :: l in lines ==> l.code.Some?)
    && (forall i, j :: 0 <= i < j < |lines| ==> lines[i].code != lines[j].code)
  }

  lemma {:induction false} NothingDropped(lines: seq<Coded>)
    requires UniqueCodes(lines)
    ensures DroppedTotal(lines) == 0.0
  {
    if lines != [] {
      assert lines == [lines[0]] + lines[1..] && lines[0] in lines;
      NothingDropped(lines[1..]);
    }
  }

  /** With known items and one line per code, the rows account for the whole difference. */
  lemma RowDifferenceExact(current: seq<Coded>, revision: seq<Coded>)
    requires UniqueCodes(current) && UniqueCodes(revision)
    ensures var rows := Compare(TableOf(current), TableOf(revision));
            CurrentTotal(rows) - RevisionTotal(rows) == TotalOf(current) - TotalOf(revision)
  {
    NothingDropped(current);
    NothingDropped(revision);
    RowDifferenceIff(current, revision);
  }
}
