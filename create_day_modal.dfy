/**
 * The "Add Day" form: an optional day name and an editable, reorderable list of column names
 * that the new day's table starts with.
 */
module CreateDayModal {
  import opened Wrappers
  import opened Text
  import Seqs

  /** The columns a new day is offered. */
  const DefaultColumns: seq<string> := ["Exercise", "Sets", "Reps", "Weight"]

  /** A column name as the form stores it: not blank, with no surrounding white space. */
  predicate IsColumnName(c: string) {
    c != "" && Trim(c) == c
  }

  /** The form's invariant on its column list: trimmed, non-blank, no name twice. */
  ghost predicate ValidColumns(cs: seq<string>) {
    Seqs.Distinct(cs) && forall i :: 0 <= i < |cs| ==> IsColumnName(cs[i])
  }

  lemma DefaultColumnsValid()
    ensures ValidColumns(DefaultColumns)
  {
    var cs := DefaultColumns;
    UnpaddedIsTrimmed(cs[0]);
    UnpaddedIsTrimmed(cs[1]);
    UnpaddedIsTrimmed(cs[2]);
    UnpaddedIsTrimmed(cs[3]);
    // The names start with four different letters.
    assert cs[0][0] == 'E' && cs[1][0] == 'S' && cs[2][0] == 'R' && cs[3][0] == 'W';
  }

  /**
   * `handleAddColumn`'s list update: the trimmed text is appended unless it is blank or already
   * listed, so the list only ever grows at its end, by at most one name.
   */
  function WithColumn(columns: seq<string>, text: string): (r: seq<string>)
    ensures r == columns || r == columns + [Trim(text)]
    ensures Trim(text) != "" ==> Trim(text) in r
    ensures Trim(text) == "" ==> r == columns
    ensures ValidColumns(columns) ==> ValidColumns(r)
  {
    if Trim(text) != "" && Trim(text) !in columns then
      TrimIdempotent(text);
      columns + [Trim(text)]
    else
      columns
  }

  /** Adding the same text twice adds it once. */
  lemma WithColumnTwice(columns: seq<string>, text: string)
    ensures WithColumn(WithColumn(columns, text), text) == WithColumn(columns, text)
  {
  }

  /**
   * `handleRemoveColumn`: `columns.filter((_, i) => i !== index)` takes out the name at `index`;
   * the names before it keep their positions and the ones after it move down by one.
   */
  function WithoutColumnAt(columns: seq<string>, index: nat): (r: seq<string>)
    ensures index < |columns| ==>
      && |r| == |columns| - 1
      && forall k :: 0 <= k < |r| ==> r[k] == columns[if k < index then k else k + 1]
    ensures index < |columns| ==> multiset(r) + multiset{columns[index]} == multiset(columns)
    ensures index >= |columns| ==> r == columns
    ensures ValidColumns(columns) ==> ValidColumns(r)
  {
    if index < |columns| then
      RemovedColumnsValid(columns, index);
      Seqs.RemoveAt(columns, index)
    else
      columns
  }

  /** Taking out one name takes one occurrence out, and keeps the list's invariant. */
  lemma RemovedColumnsValid(columns: seq<string>, index: nat)
    requires index < |columns|
    ensures multiset(Seqs.RemoveAt(columns, index)) + multiset{columns[index]} == multiset(columns)
    ensures ValidColumns(columns) ==> ValidColumns(Seqs.RemoveAt(columns, index))
  {
    Seqs.SplitMultiset(columns, index);
    var r := Seqs.RemoveAt(columns, index);
    if ValidColumns(columns) {
      Seqs.RemoveAtKeepsDistinct(columns, index);
      forall i | 0 <= i < |r| ensures IsColumnName(r[i]) {
        assert r[i] == columns[if i < index then i else i + 1];
      }
    }
  }

  /** A drop reorders the names and keeps the invariant. */
  lemma MovedColumnsValid(columns: seq<string>, from: nat, to: nat)
    requires ValidColumns(columns) && from < |columns| && to < |columns|
    ensures ValidColumns(Seqs.Moved(columns, from, to))
  {
    var moved := Seqs.Moved(columns, from, to);
    Seqs.MovedIsPermutation(columns, from, to);
    Seqs.PermutationKeepsDistinct(columns, moved);
    forall i | 0 <= i < |moved| ensures IsColumnName(moved[i]) {
      assert moved[i] in multiset(columns);
    }
  }

  /** What `onSubmit` is called with: the day name (`name.trim() || undefined`) and the columns. */
  datatype DayRequest = DayRequest(name: Option<string>, columns: seq<string>)

  class Form {
    var name: string
    var columns: seq<string>
    var newColumn: string
    var draggedIndex: Option<nat>
    var dragOverIndex: Option<nat>

    ghost predicate Valid()
      reads this
    {
      ValidColumns(columns)
    }

    constructor ()
      ensures Valid()
      ensures name == "" && columns == DefaultColumns && newColumn == ""
      ensures draggedIndex == None && dragOverIndex == None
    {
      name := "";
      columns := DefaultColumns;
      newColumn := "";
      draggedIndex := None;
      dragOverIndex := None;
      DefaultColumnsValid();
    }

    method SetName(text: string)
      modifies this`name
      ensures name == text
    {
      name := text;
    }

    method SetNewColumn(text: string)
      modifies this`newColumn
      ensures newColumn == text
    {
      newColumn := text;
    }

    /** `handleAddColumn` (the Add button and Enter in the column input). */
    method AddColumn()
      requires Valid()
      modifies this`columns, this`newColumn
      ensures Valid()
      ensures columns == WithColumn(old(columns), old(newColumn))
      ensures newColumn == if columns == old(columns) then old(newColumn) else ""
    {
      var trimmed := Trim(newColumn);
      ghost var next := WithColumn(columns, newColumn);
      if trimmed != "" && trimmed !in columns {
        columns := columns + [trimmed];
        newColumn := "";
      }
      assert columns == next;
    }

    method RemoveColumn(index: nat)
      requires Valid()
      modifies this`columns
      ensures Valid()
      ensures columns == WithoutColumnAt(old(columns), index)
    {
      ghost var next := WithoutColumnAt(columns, index);
      if index < |columns| {
        columns := columns[..index] + columns[index + 1..];
      }
      assert columns == next;
    }

    method DragStart(index: nat)
      modifies this`draggedIndex
      ensures draggedIndex == Some(index)
    {
      draggedIndex := Some(index);
    }

    method DragOver(index: nat)
      modifies this`dragOverIndex
      ensures dragOverIndex ==
        if draggedIndex == None || draggedIndex == Some(index) then old(dragOverIndex) else Some(index)
    {
      if draggedIndex == None || draggedIndex == Some(index) {
        return;
      }
      dragOverIndex := Some(index);
    }

    method DragLeave()
      modifies this`dragOverIndex
      ensures dragOverIndex == None
    {
      dragOverIndex := None;
    }

    method DragEnd()
      modifies this`draggedIndex, this`dragOverIndex
      ensures draggedIndex == None && dragOverIndex == None
    {
      draggedIndex := None;
      dragOverIndex := None;
    }

    /** `handleDrop`: the two splices on a copy of the list, then the drag state is cleared. */
    method Drop(dropIndex: nat)
      requires Valid()
      requires dropIndex < |columns|
      requires draggedIndex.Some? ==> draggedIndex.value < |columns|
      modifies this`columns, this`draggedIndex, this`dragOverIndex
      ensures Valid()
      ensures draggedIndex == None && dragOverIndex == None
      ensures columns ==
        if old(draggedIndex) == None || old(draggedIndex) == Some(dropIndex) then old(columns)
        else Seqs.Moved(old(columns), old(draggedIndex).value, dropIndex)
    {
      if draggedIndex == None || draggedIndex == Some(dropIndex) {
        draggedIndex := None;
        dragOverIndex := None;
        return;
      }
      var from := draggedIndex.value;
      var cs := columns;
      var copy := new string[|cs|](i requires 0 <= i < |cs| => cs[i]);
      assert copy[..] == cs;
      Seqs.MoveInPlace(copy, from, dropIndex);
      columns := copy[..];
      MovedColumnsValid(cs, from, dropIndex);
      draggedIndex := None;
      dragOverIndex := None;
    }

    /**
     * `handleSubmit`: nothing is sent while the list is empty. Otherwise `onSubmit` gets the
     * trimmed name, or none when it is blank, and the columns; on success the form goes back to
     * its defaults. A failure of `onSubmit` (`ok` false) is not caught: it reaches the caller
     * with the form unchanged.
     */
    method Submit(ok: bool) returns (request: Option<DayRequest>, raised: bool)
      requires Valid()
      modifies this`name, this`columns
      ensures Valid()
      ensures request.None? <==> old(columns) == []
      ensures request.Some? ==>
        && request.value.columns == old(columns)
        && ValidColumns(request.value.columns) && |request.value.columns| > 0
        && (request.value.name.None? <==> Trim(old(name)) == "")
        && (request.value.name.Some? ==> request.value.name.value == Trim(old(name)))
      ensures raised <==> request.Some? && !ok
      ensures request.Some? && ok ==> name == "" && columns == DefaultColumns
      ensures request.None? || !ok ==> name == old(name) && columns == old(columns)
    {
      if |columns| == 0 {
        return None, false;
      }
      var trimmed := Trim(name);
      request := Some(DayRequest(if trimmed == "" then None else Some(trimmed), columns));
      if !ok {
        return request, true;
      }
      name := "";
      columns := DefaultColumns;
      DefaultColumnsValid();
      raised := false;
    }

    /** `handleClose`: the form goes back to its defaults before `onClose` runs. */
    method Close()
      modifies this`name, this`columns, this`newColumn
      ensures Valid()
      ensures name == "" && columns == DefaultColumns && newColumn == ""
    {
      name := "";
      columns := DefaultColumns;
      newColumn := "";
      DefaultColumnsValid();
    }
  }
}
