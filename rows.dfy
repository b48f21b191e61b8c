/**
 * Rows as the remote region query returns them, and the two loops that turn
 * them into a temperature series: the status path (which also converts the
 * timestamp in field 0) and the history path (which reads only field 4).
 */
module Rows {

  /** One cell of a fetched row: a number, or Python's None. */
  datatype Cell = Null | Num(value: real)

  datatype Row = Row(cells: seq<Cell>)

  /** Outcome of one remote query: its rows (header first), or the text of the exception it raised. */
  datatype Fetch = Fetched(rows: seq<Row>) | FetchFailed(message: string)

  /** How a normalizer treats a row: the status path converts field `timeField` (milliseconds)
      into a date with `utcfromtimestamp(row[timeField]/1000)`, whose range check is the oracle
      `inRange` on seconds; the history path never looks at the timestamp. */
  datatype Path = StatusPath(timeField: nat, inRange: real -> bool) | HistoryPath

  /** The field the status loop divides by 1000 (`row[0]`), and the temperature field (`row[4]`). */
  const TIME_FIELD: nat := 0
  const TEMP_FIELD: nat := 4

  /** Where a region row carries its timestamp. A row of `getRegion` is the image id, longitude,
      latitude, time in milliseconds, then the selected band, which is why the band is field 4. */
  const REGION_TIME_FIELD: nat := 3

  /** A data row in the layout of the region query: a non-numeric image id in field 0 (a string,
      which the model writes as Null, since `row[0]/1000` raises for a string and None alike),
      a numeric time in field 3, and a temperature field. */
  predicate RegionRow(r: Row) {
    |r.cells| > TEMP_FIELD && r.cells[0].Null? && r.cells[REGION_TIME_FIELD].Num?
  }

  /** `rows[1:]`: every row after the header (an empty result has no header either). */
  function Body(rows: seq<Row>): (body: seq<Row>)
    ensures |rows| > 0 ==> |body| == |rows| - 1 && forall i :: 0 <= i < |body| ==> body[i] == rows[i + 1]
    ensures |rows| == 0 ==> body == []
  {
    if rows == [] then [] else rows[1..]
  }

  /** `row[4]` exists and is not None. */
  predicate HasTemp(r: Row) {
    |r.cells| > TEMP_FIELD && r.cells[TEMP_FIELD].Num?
  }

  /** Every row of body is in the layout of the region query. */
  predicate RegionRows(body: seq<Row>) {
    forall i :: 0 <= i < |body| ==> RegionRow(body[i])
  }

  /** `row[f]/1000` and the date conversion succeed: field f exists, is a number, and is in range. */
  predicate TimeConverts(r: Row, f: nat, inRange: real -> bool) {
    |r.cells| > f && r.cells[f].Num? && inRange(r.cells[f].value / 1000.0)
  }

  /** The row survives the normalizer's try block and its None test. */
  predicate Keeps(r: Row, path: Path) {
    HasTemp(r) && (path.StatusPath? ==> TimeConverts(r, path.timeField, path.inRange))
  }

  function TempOf(r: Row): (t: real)
    requires HasTemp(r)
  {
    r.cells[TEMP_FIELD].value
  }

  /** The values a normalizer appends for body, in body's order. */
  function Temperatures(body: seq<Row>, path: Path): (vs: seq<real>)
    ensures |vs| <= |body|
  {
    if body == [] then []
    else
      var last := body[|body| - 1];
      Temperatures(body[..|body| - 1], path) + (if Keeps(last, path) then [TempOf(last)] else [])
  }

  /** Normalization of the single-location query: the loop over `temps[1:]`, dividing field 0 by
      1000. The date it pairs with each temperature is never read afterwards, so only the
      temperature is kept. */
  method NormalizeStatusRows(rows: seq<Row>, inRange: real -> bool) returns (values: seq<real>)
    ensures values == Temperatures(Body(rows), StatusPath(TIME_FIELD, inRange))
  {
    var body := Body(rows);
    values := [];
    for i := 0 to |body|
      invariant values == Temperatures(body[..i], StatusPath(TIME_FIELD, inRange))
    {
      var row := body[i];
      assert body[..i + 1][..i] == body[..i];
      if TimeConverts(row, TIME_FIELD, inRange) && HasTemp(row) {
        values := values + [TempOf(row)];
      }
    }
    assert body[..|body|] == body;
  }

  /** Normalization of one year's query: the loop over `rows[1:]`. */
  method NormalizeHistoryRows(rows: seq<Row>) returns (values: seq<real>)
    ensures values == Temperatures(Body(rows), HistoryPath)
  {
    var body := Body(rows);
    values := [];
    for i := 0 to |body|
      invariant values == Temperatures(body[..i], HistoryPath)
    {
      var row := body[i];
      assert body[..i + 1][..i] == body[..i];
      if HasTemp(row) {
        values := values + [TempOf(row)];
      }
    }
    assert body[..|body|] == body;
  }

  /** Order is kept: normalizing two stretches of rows one after the other is normalizing both. */
  lemma {:induction false} TemperaturesAppend(a: seq<Row>, b: seq<Row>, path: Path)
    ensures Temperatures(a + b, path) == Temperatures(a, path) + Temperatures(b, path)
  {
    if b == [] {
      assert a + b == a;
    } else {
      var b' := b[..|b| - 1];
      assert (a + b)[..|a + b| - 1] == a + b';
      TemperaturesAppend(a, b', path);
    }
  }

  /** A row that is dropped leaves no trace: the output is that of the other rows. */
  lemma {:induction false} DroppedRowInvisible(a: seq<Row>, r: Row, b: seq<Row>, path: Path)
    requires !Keeps(r, path)
    ensures Temperatures(a + [r] + b, path) == Temperatures(a + b, path)
  {
    TemperaturesAppend(a + [r], b, path);
    TemperaturesAppend(a, [r], path);
    TemperaturesAppend(a, b, path);
    assert [r][..0] == [];
  }

  /** When every row is kept, the output is field 4 of each row, one value per row. */
  lemma {:induction false} AllKept(body: seq<Row>, path: Path)
    requires forall i :: 0 <= i < |body| ==> Keeps(body[i], path)
    ensures |Temperatures(body, path)| == |body|
    ensures forall i :: 0 <= i < |body| ==> HasTemp(body[i]) && Temperatures(body, path)[i] == TempOf(body[i])
  {
    if body != [] {
      AllKept(body[..|body| - 1], path);
    }
  }

  /** A list with a single None-valued row among kept rows loses exactly that one row. */
  lemma {:induction false} OneNullRowDropped(a: seq<Row>, r: Row, b: seq<Row>, path: Path)
    requires forall i :: 0 <= i < |a| ==> Keeps(a[i], path)
    requires forall i :: 0 <= i < |b| ==> Keeps(b[i], path)
    requires |r.cells| > TEMP_FIELD && r.cells[TEMP_FIELD] == Null
    ensures |Temperatures(a + [r] + b, path)| == |a + [r] + b| - 1
  {
    DroppedRowInvisible(a, r, b, path);
    AllKept(a + b, path);
  }

  /** A value is in the output iff some kept row carries it in field 4. */
  lemma {:induction false} TemperaturesMembers(body: seq<Row>, path: Path, x: real)
    ensures x in Temperatures(body, path) <==> exists i :: 0 <= i < |body| && Keeps(body[i], path) && TempOf(body[i]) == x
  {
    if body != [] {
      var p := body[..|body| - 1];
      TemperaturesMembers(p, path, x);
      if x in Temperatures(p, path) {
        var i :| 0 <= i < |p| && Keeps(p[i], path) && TempOf(p[i]) == x;
        assert body[i] == p[i];
      }
      if exists i :: 0 <= i < |body| && Keeps(body[i], path) && TempOf(body[i]) == x {
        var i :| 0 <= i < |body| && Keeps(body[i], path) && TempOf(body[i]) == x;
        if i < |p| {
          assert p[i] == body[i];
        }
      }
    }
  }

  /** The status path is the history path with the timestamp test added: when
      every timestamp converts the two agree, and the status series is never longer. */
  lemma {:induction false} StatusRefinesHistory(body: seq<Row>, f: nat, inRange: real -> bool)
    ensures |Temperatures(body, StatusPath(f, inRange))| <= |Temperatures(body, HistoryPath)|
    ensures (forall i :: 0 <= i < |body| ==> TimeConverts(body[i], f, inRange)) ==>
              Temperatures(body, StatusPath(f, inRange)) == Temperatures(body, HistoryPath)
  {
    if body != [] {
      StatusRefinesHistory(body[..|body| - 1], f, inRange);
    }
  }

  /** As written, the status loop reads the timestamp from field 0, which in a region row is the
      image id: every region row is dropped and the series is empty. */
  lemma {:induction false} StatusDropsRegionRows(body: seq<Row>, inRange: real -> bool)
    requires RegionRows(body)
    ensures Temperatures(body, StatusPath(TIME_FIELD, inRange)) == []
  {
    if body != [] {
      StatusDropsRegionRows(body[..|body| - 1], inRange);
    }
  }

  /** Reading the timestamp from field 3 instead, a region row whose time converts is kept: the
      status series is then the history series of the same rows, one value per row. */
  lemma {:induction false} RegionStatusMatchesHistory(body: seq<Row>, inRange: real -> bool)
    requires forall i :: 0 <= i < |body| ==>
               RegionRow(body[i]) && inRange(body[i].cells[REGION_TIME_FIELD].value / 1000.0)
    ensures Temperatures(body, StatusPath(REGION_TIME_FIELD, inRange)) == Temperatures(body, HistoryPath)
    ensures (forall i :: 0 <= i < |body| ==> HasTemp(body[i])) ==>
              |Temperatures(body, StatusPath(REGION_TIME_FIELD, inRange))| == |body|
  {
    StatusRefinesHistory(body, REGION_TIME_FIELD, inRange);
    if forall i :: 0 <= i < |body| ==> HasTemp(body[i]) {
      AllKept(body, HistoryPath);
    }
  }
}
