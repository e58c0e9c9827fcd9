/**
 * The client's copy of a program: Program -> Block -> Week -> Day, and inside a day a
 * user-defined table of columns, rows and cells. Identifiers are the server's uuids, as strings;
 * timestamps are not kept.
 */
module Workout {
  import opened Wrappers

  type Id = string

  datatype Cell = Cell(id: Id, columnId: Id, rowId: Id, value: string)

  datatype Row = Row(id: Id, cells: seq<Cell>)

  datatype Column = Column(id: Id, name: string)

  datatype Day = Day(id: Id, dayNumber: int, name: Option<string>, columns: seq<Column>, rows: seq<Row>)

  datatype Week = Week(id: Id, weekNumber: int, days: seq<Day>)

  datatype Block = Block(id: Id, name: string, weeks: seq<Week>)

  datatype Program = Program(id: Id, name: string, blocks: seq<Block>)
}
