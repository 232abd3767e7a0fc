/** Per-group extraction: the block of report rows one group contributes
    (`get_machine_rows`). */
module Extraction {
  import opened Wrappers
  import opened NumberFormat
  import opened Records

  /** One row of the report grid: its cell texts. */
  type Row = seq<string>

  const WIDTH: nat := 7

  /** The empty row used as a group's title placeholder and as a separator. */
  const BlankRow: Row := ["", "", "", "", "", "", ""]

  /** The fixed column-header row. */
  const HeaderRow: Row := ["台番", "機種名", "ゲーム数", "BIG", "REG", "AT", "差枚数"]

  /** The row written for one record: unit number as `str`, the group's
      display label, the grouped play count, the three hit counts as they
      are, and the signed, grouped payout. */
  function DataRow(r: Record, displayName: string): (row: Row)
    ensures |row| == WIDTH && row[1] == displayName
  {
    [IntText(r.unit), displayName, FormatPlayCount(r.games), r.big, r.reg, r.art, FormatPayout(r.diff)]
  }

  /** Every cell of a data row reads back as the field it shows. */
  lemma DataRowReadsBack(r: Record, displayName: string)
    ensures var row := DataRow(r, displayName);
      && UnitCell(row) == Some(r.unit)
      && UnformatPlayCount(row[2]) == Some(r.games)
      && row[1] == displayName && row[3] == r.big && row[4] == r.reg && row[5] == r.art
      && UnformatPayout(row[6]) == Some(r.diff)
  {
    var row := DataRow(r, displayName);
    assert row[0] == IntText(r.unit) && row[2] == FormatPlayCount(r.games) && row[6] == FormatPayout(r.diff);
    IntTextRoundTrip(r.unit);
    PlayCountRoundTrip(r.games);
    PayoutRoundTrip(r.diff);
  }

  /** A group's block for the records `e`: the title placeholder, the
      header, then one data row per record in the given order. */
  function Block(e: seq<Record>, displayName: string): (b: seq<Row>)
    ensures |b| == 2 + |e|
    ensures b[0] == BlankRow && b[1] == HeaderRow
    ensures forall k :: 2 <= k < |b| ==> b[k] == DataRow(e[k - 2], displayName)
  {
    seq(2 + |e|, k => if k == 0 then BlankRow else if 2 <= k < 2 + |e| then DataRow(e[k - 2], displayName) else HeaderRow)
  }

  /** Every row of a block has the seven cells of the report's columns. */
  lemma BlockRowsHaveSevenCells(e: seq<Record>, displayName: string)
    ensures forall k :: 0 <= k < |Block(e, displayName)| ==> |Block(e, displayName)[k]| == WIDTH
  {
    var b := Block(e, displayName);
    assert |BlankRow| == WIDTH && |HeaderRow| == WIDTH;
    forall k | 0 <= k < |b| ensures |b[k]| == WIDTH {
      if k >= 2 {
        assert b[k] == DataRow(e[k - 2], displayName);
      }
    }
  }

  /** `get_machine_rows(df, csv_name, display_name, threshold)`: `None`
      when the model column is missing or no record qualifies; otherwise
      the title placeholder, the header, and one data row per qualifying
      record in unit-number order. */
  function MachineRows(t: Table, csvName: string, displayName: string, threshold: int): (res: Option<seq<Row>>)
    ensures res.None? <==> !t.hasModelColumn || forall x :: x in t.records ==> !Qualifies(x, csvName, threshold)
    ensures res.Some? ==> |res.value| == 2 + |Qualifying(t.records, csvName, threshold)|
    ensures res.Some? ==> |res.value| >= 3
    ensures res.Some? ==> res.value == Block(Selection(t, csvName, threshold), displayName)
  {
    if !t.hasModelColumn then None
    else
      var e := Selection(t, csvName, threshold);
      if |e| == 0 then
        assert forall x :: x in t.records ==> !Qualifies(x, csvName, threshold) by {
          forall x | x in t.records ensures !Qualifies(x, csvName, threshold) {
            assert x !in e;
          }
        }
        None
      else
        assert e[0] in e;
        Some(Block(e, displayName))
  }

  // ---------------------------------------------------------------------
  // Lemmas

  /** A data row determines every displayed field of its record: the
      unit number, play count, hit counts and payout can all be read back. */
  lemma DataRowDeterminesFields(a: Record, b: Record, displayName: string)
    requires DataRow(a, displayName) == DataRow(b, displayName)
    ensures a.unit == b.unit && a.games == b.games && a.diff == b.diff
    ensures a.big == b.big && a.reg == b.reg && a.art == b.art
  {
    DataRowReadsBack(a, displayName);
    DataRowReadsBack(b, displayName);
  }

  /** Distinct unit numbers get distinct unit cells: `str` on integers
      is injective, a consequence of `NumberFormat.IntTextRoundTrip`. */
  lemma IntTextInjective(m: int, n: int)
    requires IntText(m) == IntText(n)
    ensures m == n
  {
    IntTextRoundTrip(m);
    IntTextRoundTrip(n);
  }

  /** Every qualifying record, including one whose payout equals the
      threshold exactly, is listed in the group's block. */
  lemma QualifyingRecordIsListed(t: Table, csvName: string, displayName: string, threshold: int, x: Record)
    requires t.hasModelColumn && x in t.records && Qualifies(x, csvName, threshold)
    ensures var res := MachineRows(t, csvName, displayName, threshold);
      res.Some? && exists k :: 2 <= k < |res.value| && res.value[k] == DataRow(x, displayName)
  {
    var res := MachineRows(t, csvName, displayName, threshold);
    var e := Selection(t, csvName, threshold);
    var i :| 0 <= i < |e| && e[i] == x;
    assert res.value[i + 2] == DataRow(x, displayName);
  }

  /** Conversely, every data row of a block shows a record of the table
      with the group's model name and a payout at or above the threshold,
      and the row's cells are exactly that record's cells. */
  lemma ListedRowIsQualifying(t: Table, csvName: string, displayName: string, threshold: int, k: nat)
    requires MachineRows(t, csvName, displayName, threshold).Some?
    requires 2 <= k < |MachineRows(t, csvName, displayName, threshold).value|
    ensures exists x :: (x in t.records && Qualifies(x, csvName, threshold)
      && MachineRows(t, csvName, displayName, threshold).value[k] == DataRow(x, displayName))
  {
    var e := Selection(t, csvName, threshold);
    assert e[k - 2] in e;
  }

  /** The unit number a row's first cell reads back as, if any. */
  function UnitCell(row: Row): Option<int> {
    if |row| > 0 then ReadInt(row[0]) else None
  }

  /** Below the two heading rows, the unit cells read back as integers
      that never decrease down the rows. */
  predicate UnitsAscend(rows: seq<Row>) {
    forall j, k :: 2 <= j < k < |rows| ==>
      UnitCell(rows[j]).Some? && UnitCell(rows[k]).Some? && UnitCell(rows[j]).value <= UnitCell(rows[k]).value
  }

  /** The unit cells of a block, read back as integers, never decrease
      from one data row to the next. */
  lemma BlockInUnitOrder(t: Table, csvName: string, displayName: string, threshold: int)
    ensures var res := MachineRows(t, csvName, displayName, threshold);
      res.Some? ==> UnitsAscend(res.value)
  {
    var e := Selection(t, csvName, threshold);
    SortedBlockInUnitOrder(e, displayName);
  }

  lemma SortedBlockInUnitOrder(e: seq<Record>, displayName: string)
    requires SortedByUnit(e)
    ensures UnitsAscend(Block(e, displayName))
  {
    BlockUnits(e, displayName);
    AscendingUnits(Block(e, displayName), e);
  }

  /** The unit cell of each data row reads back as its record's unit. */
  lemma BlockUnits(e: seq<Record>, displayName: string)
    ensures var b := Block(e, displayName);
      forall k :: 2 <= k < |b| ==> UnitCell(b[k]) == Some(e[k - 2].unit)
  {
    var b := Block(e, displayName);
    forall k | 2 <= k < |b| ensures UnitCell(b[k]) == Some(e[k - 2].unit) {
      DataRowReadsBack(e[k - 2], displayName);
    }
  }

  lemma AscendingUnits(b: seq<Row>, e: seq<Record>)
    requires SortedByUnit(e) && |b| == 2 + |e|
    requires forall k :: 2 <= k < |b| ==> UnitCell(b[k]) == Some(e[k - 2].unit)
    ensures UnitsAscend(b)
  {
  }

}
