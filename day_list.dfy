/**
 * The edits a day's table applies to its day once the server call has succeeded. Each one builds
 * a new Day with `map`, `filter` or a spread and hands it to the parent through `onDayUpdate`.
 */
module DayEdits {
  import opened Wrappers
  import opened Workout
  import Seqs

  function ColumnIds(columns: seq<Column>): seq<Id> {
    seq(|columns|, i requires 0 <= i < |columns| => columns[i].id)
  }

  function ColumnId(c: Column): Id {
    c.id
  }

  function CellColumn(c: Cell): Id {
    c.columnId
  }

  /** Every cell of the row belongs to it and to one of the columns, and no column has two cells. */
  ghost predicate RowFits(row: Row, columns: seq<Column>) {
    && (forall j :: 0 <= j < |row.cells| ==>
          row.cells[j].rowId == row.id && row.cells[j].columnId in ColumnIds(columns))
    && Seqs.DistinctBy(row.cells, CellColumn)
  }

  /** The table invariant the edits keep: distinct column ids and rows that fit the columns. */
  ghost predicate WellFormed(d: Day) {
    && Seqs.Distinct(ColumnIds(d.columns))
    && forall i :: 0 <= i < |d.rows| ==> RowFits(d.rows[i], d.columns)
  }

  /** `cells.findIndex(c => c.columnId === columnId)`, with -1 as None. */
  function FindCellIndex(cells: seq<Cell>, columnId: Id): (r: Option<nat>)
    ensures r.None? ==> forall j :: 0 <= j < |cells| ==> cells[j].columnId != columnId
    ensures r.Some? ==> r.value < |cells| && cells[r.value].columnId == columnId
    ensures r.Some? ==> forall j :: 0 <= j < r.value ==> cells[j].columnId != columnId
  {
    if cells == [] then None
    else if cells[0].columnId == columnId then Some(0)
    else
      match FindCellIndex(cells[1..], columnId)
      case None => None
      case Some(k) => Some(k + 1)
  }

  /** The first position holding the column is what `findIndex` reports. */
  lemma FindCellIndexIs(cells: seq<Cell>, columnId: Id, k: nat)
    requires k < |cells| && cells[k].columnId == columnId
    requires forall j :: 0 <= j < k ==> cells[j].columnId != columnId
    ensures FindCellIndex(cells, columnId) == Some(k)
  {
  }

  /** `getCellForColumn`: the first cell of the row that belongs to the column. */
  function CellForColumn(row: Row, columnId: Id): (r: Option<Cell>)
    ensures r.Some? <==> exists j :: 0 <= j < |row.cells| && row.cells[j].columnId == columnId
    ensures r.Some? ==> r.value in row.cells && r.value.columnId == columnId
  {
    match FindCellIndex(row.cells, columnId)
    case None => None
    case Some(k) => Some(row.cells[k])
  }

  /** Which server call an edited table cell saves through. */
  datatype CellSave = UpdateExisting(cellId: Id) | Create(rowId: Id, columnId: Id)

  /** A cell that exists and has a server id is updated; otherwise the (row, column) is upserted. */
  function SaveFor(row: Row, columnId: Id): CellSave {
    match CellForColumn(row, columnId)
    case Some(cell) => if cell.id != "" then UpdateExisting(cell.id) else Create(row.id, columnId)
    case None => Create(row.id, columnId)
  }

  /** The row `handleAddRow` builds from the server's row: one empty, unsaved cell per column. */
  function NewRow(row: Row, columns: seq<Column>): Row {
    Row(row.id, seq(|columns|, i requires 0 <= i < |columns| => Cell("", columns[i].id, row.id, "")))
  }

  /** `handleAddRow`: the new row goes at the end; the rows before it are untouched. */
  function AddRow(d: Day, row: Row): (r: Day)
    ensures r == d.(rows := r.rows)
    ensures |r.rows| == |d.rows| + 1 && r.rows[..|d.rows|] == d.rows
    ensures r.rows[|d.rows|].id == row.id && |r.rows[|d.rows|].cells| == |d.columns|
    ensures forall i :: 0 <= i < |d.columns| ==>
      r.rows[|d.rows|].cells[i] == Cell("", d.columns[i].id, row.id, "")
  {
    d.(rows := d.rows + [NewRow(row, d.columns)])
  }

  /**
   * `handleDeleteRow`: every row with the id goes, the others stay in their order and with
   * their multiplicity (which `Seqs.FilterUnique` shows is exactly what `filter` leaves).
   */
  function DeleteRow(d: Day, rowId: Id): (r: Day)
    ensures r == d.(rows := r.rows)
    ensures Seqs.Subsequence(r.rows, d.rows)
    ensures forall x :: x in r.rows <==> x in d.rows && x.id != rowId
    ensures forall x :: multiset(r.rows)[x] == if x.id != rowId then multiset(d.rows)[x] else 0
  {
    Seqs.FilterCounts(d.rows, (x: Row) => x.id != rowId);
    Seqs.FilterInOrder(d.rows, (x: Row) => x.id != rowId);
    d.(rows := Seqs.Filter(d.rows, (x: Row) => x.id != rowId))
  }

  function SetCellValue(row: Row, cellId: Id, value: string): Row {
    row.(cells := seq(|row.cells|, j requires 0 <= j < |row.cells| =>
      if row.cells[j].id == cellId then row.cells[j].(value := value) else row.cells[j]))
  }

  /** `handleUpdateCell`: only the value of the cells with that id changes; the shape does not. */
  function UpdateCell(d: Day, cellId: Id, value: string): (r: Day)
    ensures r == d.(rows := r.rows) && |r.rows| == |d.rows|
    ensures forall i :: 0 <= i < |d.rows| ==>
      r.rows[i].id == d.rows[i].id && |r.rows[i].cells| == |d.rows[i].cells|
    ensures forall i, j :: 0 <= i < |d.rows| && 0 <= j < |d.rows[i].cells| ==>
      r.rows[i].cells[j] == (if d.rows[i].cells[j].id == cellId
                             then d.rows[i].cells[j].(value := value) else d.rows[i].cells[j])
  {
    d.(rows := seq(|d.rows|, i requires 0 <= i < |d.rows| => SetCellValue(d.rows[i], cellId, value)))
  }

  /** One row of `handleUpsertCell`: replace the column's cells if the row has one, else append. */
  function UpsertInRow(row: Row, columnId: Id, cell: Cell): (r: Row)
    ensures r.id == row.id
    ensures CellForColumn(row, columnId).Some? ==>
      && |r.cells| == |row.cells|
      && forall j :: 0 <= j < |row.cells| ==>
           r.cells[j] == if row.cells[j].columnId == columnId then cell else row.cells[j]
    ensures CellForColumn(row, columnId).None? ==> r.cells == row.cells + [cell]
  {
    if FindCellIndex(row.cells, columnId).Some? then
      row.(cells := seq(|row.cells|, j requires 0 <= j < |row.cells| =>
        if row.cells[j].columnId == columnId then cell else row.cells[j]))
    else
      row.(cells := row.cells + [cell])
  }

  /** `handleUpsertCell`: only the rows with `rowId` change. */
  function UpsertCell(d: Day, rowId: Id, columnId: Id, cell: Cell): (r: Day)
    ensures r == d.(rows := r.rows) && |r.rows| == |d.rows|
    ensures forall i :: 0 <= i < |d.rows| ==>
      r.rows[i] == if d.rows[i].id == rowId then UpsertInRow(d.rows[i], columnId, cell) else d.rows[i]
  {
    d.(rows := seq(|d.rows|, i requires 0 <= i < |d.rows| =>
      if d.rows[i].id == rowId then UpsertInRow(d.rows[i], columnId, cell) else d.rows[i]))
  }

  /** `handleUpdateColumn`: only the name of the column with that id changes. */
  function RenameColumn(d: Day, columnId: Id, name: string): (r: Day)
    ensures r == d.(columns := r.columns)
    ensures ColumnIds(r.columns) == ColumnIds(d.columns)
    ensures forall i :: 0 <= i < |d.columns| ==>
      r.columns[i].name == if d.columns[i].id == columnId then name else d.columns[i].name
  {
    d.(columns := seq(|d.columns|, i requires 0 <= i < |d.columns| =>
      if d.columns[i].id == columnId then d.columns[i].(name := name) else d.columns[i]))
  }

  /** `handleUpdateDayName`: an empty name is stored as no name (`name || null`). */
  function RenameDay(d: Day, name: string): (r: Day)
    ensures r == d.(name := r.name)
    ensures r.name.None? <==> name == ""
    ensures r.name.Some? ==> r.name.value == name
  {
    d.(name := if name == "" then None else Some(name))
  }

  /** `handleAddColumn`: the server's column goes at the end. */
  function AddColumn(d: Day, column: Column): (r: Day)
    ensures r == d.(columns := r.columns)
    ensures |r.columns| == |d.columns| + 1 && r.columns[..|d.columns|] == d.columns
    ensures r.columns[|d.columns|] == column
  {
    d.(columns := d.columns + [column])
  }

  function DropColumnCells(row: Row, columnId: Id): Row {
    row.(cells := Seqs.Filter(row.cells, (c: Cell) => c.columnId != columnId))
  }

  /**
   * `handleDeleteColumn`: the column and every cell that refers to it go; the other columns,
   * and the other cells of each row, stay in their order and with their multiplicity.
   */
  function DeleteColumn(d: Day, columnId: Id): (r: Day)
    ensures r == d.(columns := r.columns, rows := r.rows)
    ensures Seqs.Subsequence(r.columns, d.columns)
    ensures forall c :: multiset(r.columns)[c] == if c.id != columnId then multiset(d.columns)[c] else 0
    ensures forall c :: c in r.columns <==> c in d.columns && c.id != columnId
    ensures |r.rows| == |d.rows|
    ensures forall i :: 0 <= i < |d.rows| ==> r.rows[i].id == d.rows[i].id
    ensures forall i :: 0 <= i < |d.rows| ==> Seqs.Subsequence(r.rows[i].cells, d.rows[i].cells)
    ensures forall i, c :: 0 <= i < |d.rows| ==>
      multiset(r.rows[i].cells)[c] == if c.columnId != columnId then multiset(d.rows[i].cells)[c] else 0
    ensures forall i, c :: 0 <= i < |d.rows| ==>
      (c in r.rows[i].cells <==> c in d.rows[i].cells && c.columnId != columnId)
  {
    Seqs.FilterCounts(d.columns, (c: Column) => c.id != columnId);
    Seqs.FilterInOrder(d.columns, (c: Column) => c.id != columnId);
    assert forall i :: 0 <= i < |d.rows| ==>
      && Seqs.Subsequence(DropColumnCells(d.rows[i], columnId).cells, d.rows[i].cells)
      && forall c :: multiset(DropColumnCells(d.rows[i], columnId).cells)[c]
           == if c.columnId != columnId then multiset(d.rows[i].cells)[c] else 0
    by {
      forall i | 0 <= i < |d.rows|
        ensures Seqs.Subsequence(DropColumnCells(d.rows[i], columnId).cells, d.rows[i].cells)
        ensures forall c ::
                  multiset(DropColumnCells(d.rows[i], columnId).cells)[c]
                    == if c.columnId != columnId then multiset(d.rows[i].cells)[c] else 0
      {
        Seqs.FilterCounts(d.rows[i].cells, (c: Cell) => c.columnId != columnId);
        Seqs.FilterInOrder(d.rows[i].cells, (c: Cell) => c.columnId != columnId);
      }
    }
    d.(columns := Seqs.Filter(d.columns, (c: Column) => c.id != columnId),
       rows := seq(|d.rows|, i requires 0 <= i < |d.rows| => DropColumnCells(d.rows[i], columnId)))
  }

  // ---- every edit keeps the table invariant ----

  lemma AddRowKeepsWellFormed(d: Day, row: Row)
    requires WellFormed(d)
    ensures WellFormed(AddRow(d, row))
  {
    var n := NewRow(row, d.columns);
    var ids := ColumnIds(d.columns);
    forall j, k | 0 <= j < k < |n.cells| ensures CellColumn(n.cells[j]) != CellColumn(n.cells[k]) {
      assert n.cells[j].columnId == ids[j] && n.cells[k].columnId == ids[k];
    }
    forall j | 0 <= j < |n.cells| ensures n.cells[j].columnId in ids {
      assert n.cells[j].columnId == ids[j];
    }
  }

  lemma DeleteRowKeepsWellFormed(d: Day, rowId: Id)
    requires WellFormed(d)
    ensures WellFormed(DeleteRow(d, rowId))
  {
    var r := DeleteRow(d, rowId);
    forall i | 0 <= i < |r.rows| ensures RowFits(r.rows[i], d.columns) {
      assert r.rows[i] in d.rows;
    }
  }

  lemma UpdateCellKeepsWellFormed(d: Day, cellId: Id, value: string)
    requires WellFormed(d)
    ensures WellFormed(UpdateCell(d, cellId, value))
  {
    var r := UpdateCell(d, cellId, value);
    forall i | 0 <= i < |r.rows| ensures RowFits(r.rows[i], r.columns) {
      var row, row' := d.rows[i], r.rows[i];
      assert RowFits(row, d.columns);
      assert forall j :: 0 <= j < |row'.cells| ==>
        row'.cells[j].columnId == row.cells[j].columnId && row'.cells[j].rowId == row.cells[j].rowId;
    }
  }

  lemma UpsertInRowFits(row: Row, columns: seq<Column>, columnId: Id, cell: Cell)
    requires RowFits(row, columns)
    requires cell.rowId == row.id && cell.columnId == columnId && columnId in ColumnIds(columns)
    ensures RowFits(UpsertInRow(row, columnId, cell), columns)
  {
    var row' := UpsertInRow(row, columnId, cell);
    if CellForColumn(row, columnId).Some? {
      assert forall j :: 0 <= j < |row'.cells| ==>
        row'.cells[j].columnId == row.cells[j].columnId && row'.cells[j].rowId == row.id;
    } else {
      forall j, k | 0 <= j < k < |row'.cells| ensures CellColumn(row'.cells[j]) != CellColumn(row'.cells[k]) {
        assert row'.cells[j] == row.cells[j];
      }
    }
  }

  /** The server's cell belongs to the row and to one of the day's columns. */
  lemma UpsertCellKeepsWellFormed(d: Day, rowId: Id, columnId: Id, cell: Cell)
    requires WellFormed(d)
    requires cell.rowId == rowId && cell.columnId == columnId && columnId in ColumnIds(d.columns)
    ensures WellFormed(UpsertCell(d, rowId, columnId, cell))
  {
    var r := UpsertCell(d, rowId, columnId, cell);
    forall i | 0 <= i < |r.rows| ensures RowFits(r.rows[i], r.columns) {
      if d.rows[i].id == rowId {
        UpsertInRowFits(d.rows[i], d.columns, columnId, cell);
      }
    }
  }

  lemma RenameColumnKeepsWellFormed(d: Day, columnId: Id, name: string)
    requires WellFormed(d)
    ensures WellFormed(RenameColumn(d, columnId, name))
  {
  }

  /** The server gives a new column a fresh id. */
  lemma AddColumnKeepsWellFormed(d: Day, column: Column)
    requires WellFormed(d) && column.id !in ColumnIds(d.columns)
    ensures WellFormed(AddColumn(d, column))
  {
    var r := AddColumn(d, column);
    var ids := ColumnIds(d.columns);
    assert ColumnIds(r.columns) == ids + [column.id];
    forall i | 0 <= i < |r.rows| ensures RowFits(r.rows[i], r.columns) {
      assert RowFits(d.rows[i], d.columns);
    }
  }

  lemma DeleteColumnKeepsWellFormed(d: Day, columnId: Id)
    requires WellFormed(d)
    ensures WellFormed(DeleteColumn(d, columnId))
  {
    var r := DeleteColumn(d, columnId);
    RemainingColumnIds(d.columns, columnId);
    forall i | 0 <= i < |r.rows| ensures RowFits(r.rows[i], r.columns) {
      DropColumnCellsFits(d.rows[i], d.columns, r.columns, columnId);
    }
  }

  /** Filtering out a column keeps the other ids, and keeps them distinct. */
  lemma RemainingColumnIds(columns: seq<Column>, columnId: Id)
    requires Seqs.Distinct(ColumnIds(columns))
    ensures Seqs.Distinct(ColumnIds(Seqs.Filter(columns, (c: Column) => c.id != columnId)))
    ensures forall x :: x in ColumnIds(columns) && x != columnId ==>
      x in ColumnIds(Seqs.Filter(columns, (c: Column) => c.id != columnId))
  {
    var keep := (c: Column) => c.id != columnId;
    RemainingColumnIdsDistinct(columns, keep);
    var rest := Seqs.Filter(columns, keep);
    var ids, ids' := ColumnIds(columns), ColumnIds(rest);
    forall x | x in ids && x != columnId ensures x in ids' {
      var k :| 0 <= k < |ids| && ids[k] == x;
      assert columns[k] in rest;
      var m :| 0 <= m < |rest| && rest[m] == columns[k];
      assert ids'[m] == x;
    }
  }

  lemma RemainingColumnIdsDistinct(columns: seq<Column>, keep: Column -> bool)
    requires Seqs.Distinct(ColumnIds(columns))
    ensures Seqs.Distinct(ColumnIds(Seqs.Filter(columns, keep)))
  {
    var ids := ColumnIds(columns);
    forall j, k | 0 <= j < k < |columns| ensures ColumnId(columns[j]) != ColumnId(columns[k]) {
      assert ids[j] != ids[k];
    }
    Seqs.FilterKeepsDistinctBy(columns, keep, ColumnId);
    var rest := Seqs.Filter(columns, keep);
    var ids' := ColumnIds(rest);
    forall j, k | 0 <= j < k < |ids'| ensures ids'[j] != ids'[k] {
      assert ColumnId(rest[j]) != ColumnId(rest[k]);
    }
  }

  lemma DropColumnCellsFits(row: Row, columns: seq<Column>, rest: seq<Column>, columnId: Id)
    requires RowFits(row, columns)
    requires forall x :: x in ColumnIds(columns) && x != columnId ==> x in ColumnIds(rest)
    ensures RowFits(DropColumnCells(row, columnId), rest)
  {
    var row' := DropColumnCells(row, columnId);
    forall j | 0 <= j < |row'.cells|
      ensures row'.cells[j].rowId == row'.id && row'.cells[j].columnId in ColumnIds(rest)
    {
      assert row'.cells[j] in row.cells;
    }
    Seqs.FilterKeepsDistinctBy(row.cells, (c: Cell) => c.columnId != columnId, CellColumn);
  }

  /** Moving a column moves its id the same way. */
  lemma ColumnIdsMoved(columns: seq<Column>, from: nat, to: nat)
    requires from < |columns| && to < |columns|
    ensures ColumnIds(Seqs.Moved(columns, from, to)) == Seqs.Moved(ColumnIds(columns), from, to)
  {
    var ids := ColumnIds(columns);
    forall k | 0 <= k < |columns|
      ensures ColumnIds(Seqs.Moved(columns, from, to))[k] == Seqs.Moved(ids, from, to)[k]
    {
      Seqs.MovedAt(columns, from, to, k);
      Seqs.MovedAt(ids, from, to, k);
    }
  }

  /** A column drop keeps the invariant: the ids are only permuted. */
  lemma MoveColumnsKeepsWellFormed(d: Day, from: nat, to: nat)
    requires WellFormed(d) && from < |d.columns| && to < |d.columns|
    ensures WellFormed(d.(columns := Seqs.Moved(d.columns, from, to)))
  {
    var ids := ColumnIds(d.columns);
    var ids' := Seqs.Moved(ids, from, to);
    ColumnIdsMoved(d.columns, from, to);
    Seqs.MovedIsPermutation(ids, from, to);
    Seqs.PermutationKeepsDistinct(ids, ids');
    forall x | x in ids ensures x in ids' {
      assert x in multiset(ids);
    }
  }

  /** A row drop keeps the invariant: the rows are only permuted. */
  lemma MoveRowsKeepsWellFormed(d: Day, from: nat, to: nat)
    requires WellFormed(d) && from < |d.rows| && to < |d.rows|
    ensures WellFormed(d.(rows := Seqs.Moved(d.rows, from, to)))
  {
    var moved := Seqs.Moved(d.rows, from, to);
    Seqs.MovedIsPermutation(d.rows, from, to);
    forall i | 0 <= i < |moved| ensures RowFits(moved[i], d.columns) {
      assert moved[i] in multiset(d.rows);
    }
  }

  // ---- what the edits promise beyond the invariant ----

  /** After an upsert the row's cell for the column is the server's cell. */
  lemma UpsertThenFind(d: Day, rowId: Id, columnId: Id, cell: Cell, i: nat)
    requires cell.columnId == columnId
    requires i < |d.rows| && d.rows[i].id == rowId
    ensures CellForColumn(UpsertCell(d, rowId, columnId, cell).rows[i], columnId) == Some(cell)
  {
    var row := d.rows[i];
    var row' := UpsertCell(d, rowId, columnId, cell).rows[i];
    match FindCellIndex(row.cells, columnId)
    case Some(k) =>
      FindCellIndexIs(row'.cells, columnId, k);
    case None =>
      FindCellIndexIs(row'.cells, columnId, |row.cells|);
  }

  /**
   * Once the server has given the cell an id, the table saves further edits of it through
   * `updateCell` instead of creating another cell.
   */
  lemma UpsertThenSaveUpdates(d: Day, rowId: Id, columnId: Id, cell: Cell, i: nat)
    requires cell.columnId == columnId && cell.id != ""
    requires i < |d.rows| && d.rows[i].id == rowId
    ensures SaveFor(UpsertCell(d, rowId, columnId, cell).rows[i], columnId) == UpdateExisting(cell.id)
  {
    UpsertThenFind(d, rowId, columnId, cell, i);
  }

  /** The cells of a freshly added row have no server id, so each is saved through an upsert. */
  lemma NewRowSavesByUpsert(d: Day, row: Row, k: nat)
    requires WellFormed(d) && k < |d.columns|
    ensures SaveFor(AddRow(d, row).rows[|d.rows|], d.columns[k].id) == Create(row.id, d.columns[k].id)
  {
    var n := AddRow(d, row).rows[|d.rows|];
    var ids := ColumnIds(d.columns);
    forall j | 0 <= j < k ensures n.cells[j].columnId != d.columns[k].id {
      assert ids[j] != ids[k];
    }
    FindCellIndexIs(n.cells, d.columns[k].id, k);
  }

  lemma UpsertInRowTwice(row: Row, columnId: Id, first: Cell, second: Cell)
    requires first.columnId == columnId
    ensures UpsertInRow(UpsertInRow(row, columnId, first), columnId, second)
         == UpsertInRow(row, columnId, second)
  {
    var once := UpsertInRow(row, columnId, first);
    var twice := UpsertInRow(once, columnId, second);
    var direct := UpsertInRow(row, columnId, second);
    match FindCellIndex(row.cells, columnId)
    case Some(k) =>
      FindCellIndexIs(once.cells, columnId, k);
      assert twice.cells == direct.cells;
    case None =>
      FindCellIndexIs(once.cells, columnId, |row.cells|);
      assert twice.cells == direct.cells;
  }

  /**
   * Upserting the same (row, column) twice is upserting it once with the second cell: the
   * second call replaces the first call's cell instead of adding another.
   */
  lemma UpsertTwice(d: Day, rowId: Id, columnId: Id, first: Cell, second: Cell)
    requires first.columnId == columnId
    ensures UpsertCell(UpsertCell(d, rowId, columnId, first), rowId, columnId, second)
         == UpsertCell(d, rowId, columnId, second)
  {
    var once := UpsertCell(d, rowId, columnId, first);
    forall i | 0 <= i < |d.rows| && d.rows[i].id == rowId
      ensures UpsertInRow(once.rows[i], columnId, second) == UpsertInRow(d.rows[i], columnId, second)
    {
      UpsertInRowTwice(d.rows[i], columnId, first, second);
    }
  }

  /** Deleting a column after adding it gives back the columns the day had. */
  lemma AddThenDeleteColumn(d: Day, column: Column)
    requires WellFormed(d) && column.id !in ColumnIds(d.columns)
    ensures DeleteColumn(AddColumn(d, column), column.id).columns == d.columns
  {
    var keep := (c: Column) => c.id != column.id;
    Seqs.FilterAppend(d.columns, [column], keep);
    forall i | 0 <= i < |d.columns| ensures keep(d.columns[i]) {
      assert ColumnIds(d.columns)[i] == d.columns[i].id;
    }
    Seqs.FilterKeepsAll(d.columns, keep);
    assert AddColumn(d, column).columns == d.columns + [column];
  }
}

/** One day's table (`DayTable`): its drag state, its add-column form and the day it edits. */
module DayList {
  import opened Wrappers
  import opened Workout
  import opened Text
  import Seqs
  import DayEdits

  class DayTable {
    /** The `day` prop; the handlers replace it through `onDayUpdate`. */
    var day: Day
    var draggedRowIndex: Option<nat>
    var dragOverRowIndex: Option<nat>
    var draggedColIndex: Option<nat>
    var dragOverColIndex: Option<nat>
    var newColumnName: string
    var showAddColumnModal: bool

    constructor (day: Day)
      ensures this.day == day
      ensures draggedRowIndex == None && dragOverRowIndex == None
      ensures draggedColIndex == None && dragOverColIndex == None
      ensures newColumnName == "" && !showAddColumnModal
    {
      this.day := day;
      draggedRowIndex := None;
      dragOverRowIndex := None;
      draggedColIndex := None;
      dragOverColIndex := None;
      newColumnName := "";
      showAddColumnModal := false;
    }

    /** `handleAddRow`, given the server's new row or None when `days.addRow` threw (logged). */
    method AddRow(created: Option<Row>)
      modifies this`day
      ensures created.Some? ==> day == DayEdits.AddRow(old(day), created.value)
      ensures created.None? ==> day == old(day)
      ensures DayEdits.WellFormed(old(day)) ==> DayEdits.WellFormed(day)
    {
      if created.Some? {
        day := DayEdits.AddRow(day, created.value);
        if DayEdits.WellFormed(old(day)) {
          DayEdits.AddRowKeepsWellFormed(old(day), created.value);
        }
      }
    }

    /** `handleDeleteRow`; `ok` is false when `days.deleteRow` threw (logged). */
    method DeleteRow(rowId: Id, ok: bool)
      modifies this`day
      ensures day == if ok then DayEdits.DeleteRow(old(day), rowId) else old(day)
      ensures DayEdits.WellFormed(old(day)) ==> DayEdits.WellFormed(day)
    {
      if ok {
        day := DayEdits.DeleteRow(day, rowId);
        if DayEdits.WellFormed(old(day)) {
          DayEdits.DeleteRowKeepsWellFormed(old(day), rowId);
        }
      }
    }

    /** `handleUpdateCell`: nothing catches a failed `days.updateCell`, so it reaches the caller. */
    method UpdateCell(cellId: Id, value: string, ok: bool) returns (raised: bool)
      modifies this`day
      ensures raised <==> !ok
      ensures day == if ok then DayEdits.UpdateCell(old(day), cellId, value) else old(day)
      ensures DayEdits.WellFormed(old(day)) ==> DayEdits.WellFormed(day)
    {
      if !ok {
        return true;
      }
      day := DayEdits.UpdateCell(day, cellId, value);
      if DayEdits.WellFormed(old(day)) {
        DayEdits.UpdateCellKeepsWellFormed(old(day), cellId, value);
      }
      return false;
    }

    /** `handleUpsertCell`, given the server's cell or None when `days.upsertCell` threw (logged). */
    method UpsertCell(rowId: Id, columnId: Id, reply: Option<Cell>)
      modifies this`day
      ensures reply.Some? ==> day == DayEdits.UpsertCell(old(day), rowId, columnId, reply.value)
      ensures reply.None? ==> day == old(day)
      ensures DayEdits.WellFormed(old(day)) && columnId in DayEdits.ColumnIds(old(day).columns) &&
              reply.Some? && reply.value.rowId == rowId && reply.value.columnId == columnId
              ==> DayEdits.WellFormed(day)
    {
      if reply.Some? {
        day := DayEdits.UpsertCell(day, rowId, columnId, reply.value);
        if DayEdits.WellFormed(old(day)) && columnId in DayEdits.ColumnIds(old(day).columns) &&
           reply.value.rowId == rowId && reply.value.columnId == columnId {
          DayEdits.UpsertCellKeepsWellFormed(old(day), rowId, columnId, reply.value);
        }
      }
    }

    /** `handleUpdateColumn`: a failed `days.updateColumn` reaches the caller. */
    method UpdateColumn(columnId: Id, name: string, ok: bool) returns (raised: bool)
      modifies this`day
      ensures raised <==> !ok
      ensures day == if ok then DayEdits.RenameColumn(old(day), columnId, name) else old(day)
      ensures DayEdits.WellFormed(old(day)) ==> DayEdits.WellFormed(day)
    {
      if !ok {
        return true;
      }
      day := DayEdits.RenameColumn(day, columnId, name);
      return false;
    }

    /**
     * `handleUpdateDayName`: the server is sent `name || undefined` (`request`); a failed
     * `days.update` reaches the caller.
     */
    method UpdateDayName(name: string, ok: bool) returns (request: Option<string>, raised: bool)
      modifies this`day
      ensures request.None? <==> name == ""
      ensures request.Some? ==> request.value == name
      ensures raised <==> !ok
      ensures day == if ok then DayEdits.RenameDay(old(day), name) else old(day)
      ensures DayEdits.WellFormed(old(day)) ==> DayEdits.WellFormed(day)
    {
      request := if name == "" then None else Some(name);
      if !ok {
        return request, true;
      }
      day := DayEdits.RenameDay(day, name);
      raised := false;
    }

    /** The column-name input's `onChange`. */
    method SetNewColumnName(text: string)
      modifies this`newColumnName
      ensures newColumnName == text
    {
      newColumnName := text;
    }

    method OpenAddColumnModal()
      modifies this`showAddColumnModal
      ensures showAddColumnModal
    {
      showAddColumnModal := true;
    }

    /** The modal's close and its Cancel button: the form is hidden and emptied. */
    method CloseAddColumnModal()
      modifies this`showAddColumnModal, this`newColumnName
      ensures !showAddColumnModal && newColumnName == ""
    {
      showAddColumnModal := false;
      newColumnName := "";
    }

    /**
     * `handleAddColumn`: a blank name sends nothing; otherwise the trimmed name is sent
     * (`request`), and on success (`reply`) the column is added and the form closed. A failure is
     * logged and leaves everything as it was.
     */
    method AddColumn(reply: Option<Column>) returns (request: Option<string>)
      modifies this`day, this`newColumnName, this`showAddColumnModal
      ensures request.None? <==> Trim(old(newColumnName)) == ""
      ensures request.Some? ==> request.value == Trim(old(newColumnName)) && request.value != ""
      ensures request.Some? && reply.Some? ==>
        && day == DayEdits.AddColumn(old(day), reply.value)
        && newColumnName == "" && !showAddColumnModal
      ensures request.None? || reply.None? ==>
        day == old(day) && newColumnName == old(newColumnName) && showAddColumnModal == old(showAddColumnModal)
      ensures DayEdits.WellFormed(old(day)) && (reply.Some? ==> reply.value.id !in DayEdits.ColumnIds(old(day).columns))
        ==> DayEdits.WellFormed(day)
    {
      var name := Trim(newColumnName);
      if name == "" {
        return None;
      }
      request := Some(name);
      if reply.Some? {
        day := DayEdits.AddColumn(day, reply.value);
        newColumnName := "";
        showAddColumnModal := false;
        if DayEdits.WellFormed(old(day)) && reply.value.id !in DayEdits.ColumnIds(old(day).columns) {
          DayEdits.AddColumnKeepsWellFormed(old(day), reply.value);
        }
      }
    }

    /** `handleDeleteColumn`; `ok` is false when `days.deleteColumn` threw (logged). */
    method DeleteColumn(columnId: Id, ok: bool)
      modifies this`day
      ensures day == if ok then DayEdits.DeleteColumn(old(day), columnId) else old(day)
      ensures DayEdits.WellFormed(old(day)) ==> DayEdits.WellFormed(day)
    {
      if ok {
        day := DayEdits.DeleteColumn(day, columnId);
        if DayEdits.WellFormed(old(day)) {
          DayEdits.DeleteColumnKeepsWellFormed(old(day), columnId);
        }
      }
    }

    method RowDragStart(index: nat)
      modifies this`draggedRowIndex
      ensures draggedRowIndex == Some(index)
    {
      draggedRowIndex := Some(index);
    }

    /** Hovering marks the row as the drop target unless no row is dragged or it is the dragged one. */
    method RowDragOver(index: nat)
      modifies this`dragOverRowIndex
      ensures dragOverRowIndex ==
        if draggedRowIndex == None || draggedRowIndex == Some(index) then old(dragOverRowIndex) else Some(index)
    {
      if draggedRowIndex == None || draggedRowIndex == Some(index) {
        return;
      }
      dragOverRowIndex := Some(index);
    }

    method RowDragLeave()
      modifies this`dragOverRowIndex
      ensures dragOverRowIndex == None
    {
      dragOverRowIndex := None;
    }

    method RowDragEnd()
      modifies this`draggedRowIndex, this`dragOverRowIndex
      ensures draggedRowIndex == None && dragOverRowIndex == None
    {
      draggedRowIndex := None;
      dragOverRowIndex := None;
    }

    /**
     * `handleRowDrop`: the dragged row is spliced out of a copy of the rows and back in at
     * `dropIndex`, the day is updated at once, and `days.reorderRow` is sent the dragged row's id
     * and the drop index (`request`); its failure is only logged. Dropping with nothing dragged,
     * or onto the dragged row itself, only clears the drag state.
     */
    method RowDrop(dropIndex: nat) returns (request: Option<(Id, nat)>)
      requires dropIndex < |day.rows|
      requires draggedRowIndex.Some? ==> draggedRowIndex.value < |day.rows|
      modifies this`day, this`draggedRowIndex, this`dragOverRowIndex
      ensures draggedRowIndex == None && dragOverRowIndex == None
      ensures old(draggedRowIndex) == None || old(draggedRowIndex) == Some(dropIndex) ==>
        day == old(day) && request == None
      ensures old(draggedRowIndex).Some? && old(draggedRowIndex) != Some(dropIndex) ==>
        && day == old(day).(rows := Seqs.Moved(old(day).rows, old(draggedRowIndex).value, dropIndex))
        && request == Some((old(day).rows[old(draggedRowIndex).value].id, dropIndex))
      ensures DayEdits.WellFormed(old(day)) ==> DayEdits.WellFormed(day)
    {
      if draggedRowIndex == None || draggedRowIndex == Some(dropIndex) {
        draggedRowIndex := None;
        dragOverRowIndex := None;
        return None;
      }
      var from := draggedRowIndex.value;
      var rows := day.rows;
      var copy := new Row[|rows|](i requires 0 <= i < |rows| => rows[i]);
      assert copy[..] == rows;
      var dragged := copy[from];
      Seqs.MoveInPlace(copy, from, dropIndex);
      day := day.(rows := copy[..]);
      request := Some((dragged.id, dropIndex));
      if DayEdits.WellFormed(old(day)) {
        DayEdits.MoveRowsKeepsWellFormed(old(day), from, dropIndex);
      }
      draggedRowIndex := None;
      dragOverRowIndex := None;
    }

    method ColDragStart(index: nat)
      modifies this`draggedColIndex
      ensures draggedColIndex == Some(index)
    {
      draggedColIndex := Some(index);
    }

    /** Hovering marks the column as the drop target unless none is dragged or it is the dragged one. */
    method ColDragOver(index: nat)
      modifies this`dragOverColIndex
      ensures dragOverColIndex ==
        if draggedColIndex == None || draggedColIndex == Some(index) then old(dragOverColIndex) else Some(index)
    {
      if draggedColIndex == None || draggedColIndex == Some(index) {
        return;
      }
      dragOverColIndex := Some(index);
    }

    method ColDragLeave()
      modifies this`dragOverColIndex
      ensures dragOverColIndex == None
    {
      dragOverColIndex := None;
    }

    method ColDragEnd()
      modifies this`draggedColIndex, this`dragOverColIndex
      ensures draggedColIndex == None && dragOverColIndex == None
    {
      draggedColIndex := None;
      dragOverColIndex := None;
    }

    /** `handleColDrop`: as `handleRowDrop`, on the columns, with `days.reorderColumn`. */
    method ColDrop(dropIndex: nat) returns (request: Option<(Id, nat)>)
      requires dropIndex < |day.columns|
      requires draggedColIndex.Some? ==> draggedColIndex.value < |day.columns|
      modifies this`day, this`draggedColIndex, this`dragOverColIndex
      ensures draggedColIndex == None && dragOverColIndex == None
      ensures old(draggedColIndex) == None || old(draggedColIndex) == Some(dropIndex) ==>
        day == old(day) && request == None
      ensures old(draggedColIndex).Some? && old(draggedColIndex) != Some(dropIndex) ==>
        && day == old(day).(columns := Seqs.Moved(old(day).columns, old(draggedColIndex).value, dropIndex))
        && request == Some((old(day).columns[old(draggedColIndex).value].id, dropIndex))
      ensures DayEdits.WellFormed(old(day)) ==> DayEdits.WellFormed(day)
    {
      if draggedColIndex == None || draggedColIndex == Some(dropIndex) {
        draggedColIndex := None;
        dragOverColIndex := None;
        return None;
      }
      var from := draggedColIndex.value;
      var columns := day.columns;
      var copy := new Column[|columns|](i requires 0 <= i < |columns| => columns[i]);
      assert copy[..] == columns;
      var dragged := copy[from];
      Seqs.MoveInPlace(copy, from, dropIndex);
      day := day.(columns := copy[..]);
      request := Some((dragged.id, dropIndex));
      if DayEdits.WellFormed(old(day)) {
        DayEdits.MoveColumnsKeepsWellFormed(old(day), from, dropIndex);
      }
      draggedColIndex := None;
      dragOverColIndex := None;
    }
  }
}
