/** The parsed query response and the extraction that turns its table into
    the page's header list and row list. */
module Table {
  import opened Wrappers
  import opened JsValues

  /** A declared column; only its label is read. */
  datatype Column = Column(columnLabel: Option<string>)

  /** A cell object: raw value `v` and formatted value `f`, each possibly
      null or absent. */
  datatype Cell = Cell(v: Option<Value>, f: Option<Value>)

  /** A row: its cell list `c`, which may be absent, whose entries may be
      null, and which may be shorter or longer than the column list. */
  datatype Row = Row(c: Option<seq<Option<Cell>>>)

  /** The `table` of a response: its columns, and its row list, which may be
      absent and whose entries may be null. */
  datatype DataTable = DataTable(cols: seq<Column>, rows: Option<seq<Option<Row>>>)

  /** The parsed JSON document; an error response carries no table. */
  datatype Response = Response(table: Option<DataTable>)

  /** What the page keeps in memory and in its cache: the header list and
      the row list. */
  datatype Dataset = Dataset(headers: seq<string>, rows: seq<seq<Value>>)

  /** Every row has one value per header. */
  predicate WellFormed(d: Dataset)
  {
    forall k :: 0 <= k < |d.rows| ==> |d.rows[k]| == |d.headers|
  }

  /** `c.label || ""`: the label when there is one, "" otherwise. */
  function Label(col: Column): (h: string)
    ensures col.columnLabel.Some? ==> h == col.columnLabel.value
    ensures col.columnLabel.None? ==> h == ""
  {
    if col.columnLabel.Some? && col.columnLabel.value != "" then col.columnLabel.value else ""
  }

  /** `r.c[i]`: undefined past the end of the cell list. */
  function CellAt(cells: seq<Option<Cell>>, i: nat): Option<Cell>
  {
    if i < |cells| then cells[i] else None
  }

  /** `cell ? (cell.f ?? cell.v ?? "") : ""`: a value the cell itself holds,
      or "". The formatted value wins whenever it is not null, even when it
      is ""; the raw value is used only when there is no formatted value. */
  function CellValue(cell: Option<Cell>): (x: Value)
    ensures x == Blank || (cell.Some? && (cell.value.f == Some(x) || cell.value.v == Some(x)))
    ensures cell.Some? && cell.value.f.Some? ==> x == cell.value.f.value
    ensures cell.Some? && cell.value.f.None? && cell.value.v.Some? ==> x == cell.value.v.value
    ensures cell.None? || (cell.value.f.None? && cell.value.v.None?) ==> x == Blank
  {
    match cell
    case None => Blank
    case Some(x) => Coalesce(x.f, Coalesce(x.v, Blank))
  }

  /** `cols.map(c => c.label || "")`: one header per declared column, in
      column order. */
  function Headers(cols: seq<Column>): (hs: seq<string>)
    ensures |hs| == |cols|
    ensures forall i :: 0 <= i < |cols| ==> hs[i] == Label(cols[i])
  {
    if cols == [] then [] else [Label(cols[0])] + Headers(cols[1..])
  }

  /** `cols.map((_, i) => ...)` over a row's cell list: driven by the
      declared columns, so the row gets exactly one value per column
      whatever the length of its own cell list. */
  function RowValues(cols: seq<Column>, cells: seq<Option<Cell>>): (vs: seq<Value>)
    ensures |vs| == |cols|
    ensures forall i :: 0 <= i < |cols| ==> vs[i] == CellValue(CellAt(cells, i))
  {
    if cols == [] then []
    else RowValues(cols[..|cols| - 1], cells) + [CellValue(CellAt(cells, |cols| - 1))]
  }

  /** The mapping of one row `r`. `r.c` is read only inside the per-column
      callback, so a null row or a row without `c` throws (None) exactly
      when there is at least one column. */
  function RowOf(cols: seq<Column>, row: Option<Row>): (r: Option<seq<Value>>)
    ensures r.None? <==> cols != [] && (row.None? || row.value.c.None?)
    ensures r.Some? ==> |r.value| == |cols|
    ensures r.Some? && row.Some? && row.value.c.Some? ==> r.value == RowValues(cols, row.value.c.value)
  {
    if cols == [] then Some([])
    else if row.None? || row.value.c.None? then None
    else Some(RowValues(cols, row.value.c.value))
  }

  /** `rows.map(r => ...)`: one extracted row per source row, in order; the
      whole map throws (None) as soon as one row does. */
  function RowsOf(cols: seq<Column>, rows: seq<Option<Row>>): (out: Option<seq<seq<Value>>>)
    ensures out.Some? <==> forall k :: 0 <= k < |rows| ==> RowOf(cols, rows[k]).Some?
    ensures out.Some? ==> |out.value| == |rows|
    ensures out.Some? ==> forall k :: 0 <= k < |rows| ==> out.value[k] == RowOf(cols, rows[k]).value
  {
    if rows == [] then Some([])
    else
      match RowOf(cols, rows[0])
      case None => None
      case Some(first) =>
        match RowsOf(cols, rows[1..])
        case None => None
        case Some(rest) => Some([first] + rest)
  }

  /** `json.table.rows.map(...)`: it throws when the table has no row list,
      or when there is a column and some row is null or has no cell list; a
      null row, or a row without cells, is harmless only when there are no
      columns. Otherwise there is one row per source row, in order, each
      holding one value per column taken from that row's cells. */
  function ExtractRows(t: DataTable): (out: Option<seq<seq<Value>>>)
    ensures out.None? <==>
      t.rows.None? ||
      (t.cols != [] && exists k :: 0 <= k < |t.rows.value| && (t.rows.value[k].None? || t.rows.value[k].value.c.None?))
    ensures out.Some? ==> |out.value| == |t.rows.value|
    ensures out.Some? ==> forall k :: 0 <= k < |t.rows.value| ==> |out.value[k]| == |t.cols|
    ensures out.Some? ==> forall k :: 0 <= k < |t.rows.value| && t.rows.value[k].Some? && t.rows.value[k].value.c.Some? ==>
      out.value[k] == RowValues(t.cols, t.rows.value[k].value.c.value)
  {
    match t.rows
    case None => None
    case Some(rs) => RowsOf(t.cols, rs)
  }

  /** The header list and the row list the page builds from a table, or
      None when mapping the rows throws: the table has no row list, or it
      has a column and some row is null or has no cell list. Whatever is
      built has one header per column, one row per source row and one value
      per header in every row. */
  function Extract(t: DataTable): (d: Option<Dataset>)
    ensures d.None? <==>
      t.rows.None? ||
      (t.cols != [] && exists k :: 0 <= k < |t.rows.value| && (t.rows.value[k].None? || t.rows.value[k].value.c.None?))
    ensures d.Some? ==> WellFormed(d.value) && d.value.headers == Headers(t.cols)
    ensures d.Some? ==> |d.value.headers| == |t.cols| && |d.value.rows| == |t.rows.value|
  {
    match ExtractRows(t)
    case None => None
    case Some(rs) => Some(Dataset(Headers(t.cols), rs))
  }

  /** Headers follow the columns: a present label is kept verbatim, and a
      missing label gives "". */
  lemma HeaderOfColumn(cols: seq<Column>, i: nat)
    requires i < |cols|
    ensures cols[i].columnLabel.Some? ==> Headers(cols)[i] == cols[i].columnLabel.value
    ensures cols[i].columnLabel.None? ==> Headers(cols)[i] == ""
  {
  }

  /** Which value lands in row `k`, column `i` of the extracted data: the
      source row is there and has a cell list, and the value is the
      formatted value whenever it is not null, even when it is ""; else the
      raw value when it is not null; else "". A null cell, or a cell past
      the end of the row's cell list, gives "". */
  lemma ExtractedCell(t: DataTable, k: nat, i: nat)
    requires Extract(t).Some?
    requires k < |Extract(t).value.rows| && i < |t.cols|
    ensures t.rows.Some? && k < |t.rows.value| && t.rows.value[k].Some? && t.rows.value[k].value.c.Some?
    ensures var cells := t.rows.value[k].value.c.value;
      var x := Extract(t).value.rows[k][i];
      (i >= |cells| || cells[i].None? ==> x == Blank) &&
      (i < |cells| && cells[i].Some? ==>
        (cells[i].value.f.Some? ==> x == cells[i].value.f.value) &&
        (cells[i].value.f.None? && cells[i].value.v.Some? ==> x == cells[i].value.v.value) &&
        (cells[i].value.f.None? && cells[i].value.v.None? ==> x == Blank))
  {
    assert RowOf(t.cols, t.rows.value[k]).Some?;
  }

  /** A row whose cell list is shorter than the column list extracts the
      same as that row padded with null cells. */
  lemma ShortRowIsNullPadded(cols: seq<Column>, cells: seq<Option<Cell>>, pad: nat)
    ensures RowValues(cols, cells) == RowValues(cols, cells + seq(pad, _ => None))
  {
  }

  /** Cells beyond the declared columns are never read. */
  lemma ExtraCellsIgnored(cols: seq<Column>, cells: seq<Option<Cell>>, extra: seq<Option<Cell>>)
    requires |cells| >= |cols|
    ensures RowValues(cols, cells) == RowValues(cols, cells + extra)
  {
  }
}
