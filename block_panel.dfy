/** The edits a block's panel applies to its block: whole weeks, and days inside the selected week. */
module WeekEdits {
  import opened Wrappers
  import opened Workout
  import Seqs

  function DayIds(days: seq<Day>): seq<Id> {
    seq(|days|, i requires 0 <= i < |days| => days[i].id)
  }

  /** `handleAddWeek`: the server's week, with no days yet, goes at the end. */
  function AppendWeek(b: Block, week: Week): (r: Block)
    ensures r == b.(weeks := r.weeks)
    ensures |r.weeks| == |b.weeks| + 1 && r.weeks[..|b.weeks|] == b.weeks
    ensures r.weeks[|b.weeks|] == week.(days := [])
  {
    b.(weeks := b.weeks + [week.(days := [])])
  }

  /** `handleAddDay`: the day goes at the end of the week at `index`; no other week changes. */
  function AddDay(b: Block, index: nat, day: Day): (r: Block)
    ensures r == b.(weeks := r.weeks) && |r.weeks| == |b.weeks|
    ensures forall i :: 0 <= i < |b.weeks| && i != index ==> r.weeks[i] == b.weeks[i]
    ensures index < |b.weeks| ==>
      r.weeks[index] == b.weeks[index].(days := b.weeks[index].days + [day])
  {
    b.(weeks := seq(|b.weeks|, i requires 0 <= i < |b.weeks| =>
      if i == index then b.weeks[i].(days := b.weeks[i].days + [day]) else b.weeks[i]))
  }

  /**
   * `handleDeleteWeek`: every week with the id goes, the others stay in their order and with
   * their multiplicity.
   */
  function DeleteWeek(b: Block, weekId: Id): (r: Block)
    ensures r == b.(weeks := r.weeks)
    ensures Seqs.Subsequence(r.weeks, b.weeks)
    ensures forall w :: multiset(r.weeks)[w] == if w.id != weekId then multiset(b.weeks)[w] else 0
    ensures forall w :: w in r.weeks <==> w in b.weeks && w.id != weekId
    ensures |r.weeks| <= |b.weeks|
  {
    Seqs.FilterCounts(b.weeks, (w: Week) => w.id != weekId);
    Seqs.FilterInOrder(b.weeks, (w: Week) => w.id != weekId);
    b.(weeks := Seqs.Filter(b.weeks, (w: Week) => w.id != weekId))
  }

  /**
   * `handleDeleteDay`: the days with the id go from the week at `index`, its other days stay in
   * their order and with their multiplicity; no other week changes.
   */
  function DeleteDay(b: Block, index: nat, dayId: Id): (r: Block)
    ensures r == b.(weeks := r.weeks) && |r.weeks| == |b.weeks|
    ensures forall i :: 0 <= i < |b.weeks| && i != index ==> r.weeks[i] == b.weeks[i]
    ensures index < |b.weeks| ==>
      && r.weeks[index] == b.weeks[index].(days := r.weeks[index].days)
      && Seqs.Subsequence(r.weeks[index].days, b.weeks[index].days)
      && (forall d :: multiset(r.weeks[index].days)[d]
            == if d.id != dayId then multiset(b.weeks[index].days)[d] else 0)
      && forall d :: d in r.weeks[index].days <==> d in b.weeks[index].days && d.id != dayId
  {
    assert index < |b.weeks| ==>
      && Seqs.Subsequence(Seqs.Filter(b.weeks[index].days, (d: Day) => d.id != dayId), b.weeks[index].days)
      && forall d :: multiset(Seqs.Filter(b.weeks[index].days, (d: Day) => d.id != dayId))[d]
           == if d.id != dayId then multiset(b.weeks[index].days)[d] else 0
    by {
      if index < |b.weeks| {
        Seqs.FilterCounts(b.weeks[index].days, (d: Day) => d.id != dayId);
        Seqs.FilterInOrder(b.weeks[index].days, (d: Day) => d.id != dayId);
      }
    }
    b.(weeks := seq(|b.weeks|, i requires 0 <= i < |b.weeks| =>
      if i == index then b.weeks[i].(days := Seqs.Filter(b.weeks[i].days, (d: Day) => d.id != dayId))
      else b.weeks[i]))
  }

  function ReplaceInDays(days: seq<Day>, day: Day): (r: seq<Day>)
    ensures |r| == |days|
    ensures forall j :: 0 <= j < |days| ==> r[j] == if days[j].id == day.id then day else days[j]
  {
    seq(|days|, j requires 0 <= j < |days| => if days[j].id == day.id then day else days[j])
  }

  /** `handleDayUpdate`: the days of the week at `index` with the same id become `day`. */
  function ReplaceDay(b: Block, index: nat, day: Day): (r: Block)
    ensures r == b.(weeks := r.weeks) && |r.weeks| == |b.weeks|
    ensures forall i :: 0 <= i < |b.weeks| && i != index ==> r.weeks[i] == b.weeks[i]
    ensures index < |b.weeks| ==>
      r.weeks[index] == b.weeks[index].(days := ReplaceInDays(b.weeks[index].days, day))
  {
    b.(weeks := seq(|b.weeks|, i requires 0 <= i < |b.weeks| =>
      if i == index then b.weeks[i].(days := ReplaceInDays(b.weeks[i].days, day)) else b.weeks[i]))
  }

  /**
   * The selected week after a delete leaves `remaining` weeks: kept when still in range, else
   * the last week, or 0 when none is left.
   */
  function SelectionAfterDelete(index: nat, remaining: nat): (r: nat)
    ensures remaining == 0 ==> r == 0
    ensures remaining > 0 ==> r < remaining
    ensures index < remaining ==> r == index
    ensures 0 < remaining <= index ==> r == remaining - 1
  {
    if index >= remaining && remaining > 0 then remaining - 1
    else if remaining == 0 then 0
    else index
  }

  /** Replacing a day twice with the same day is replacing it once. */
  lemma ReplaceDayIdempotent(b: Block, index: nat, day: Day)
    ensures ReplaceDay(ReplaceDay(b, index, day), index, day) == ReplaceDay(b, index, day)
  {
    var once := ReplaceDay(b, index, day);
    if index < |b.weeks| {
      assert ReplaceInDays(once.weeks[index].days, day) == once.weeks[index].days;
    }
  }

  /** Deleting a day just added to a week whose days have other ids gives back the block. */
  lemma AddThenDeleteDay(b: Block, index: nat, day: Day)
    requires index < |b.weeks| && day.id !in DayIds(b.weeks[index].days)
    ensures DeleteDay(AddDay(b, index, day), index, day.id) == b
  {
    var days := b.weeks[index].days;
    var keep := (d: Day) => d.id != day.id;
    Seqs.FilterAppend(days, [day], keep);
    forall j | 0 <= j < |days| ensures keep(days[j]) {
      assert DayIds(days)[j] == days[j].id;
    }
    Seqs.FilterKeepsAll(days, keep);
    var r := DeleteDay(AddDay(b, index, day), index, day.id);
    assert AddDay(b, index, day).weeks[index].days == days + [day];
    assert r.weeks[index] == b.weeks[index];
    assert r.weeks == b.weeks;
  }

  /** Deleting a week just added, when no other week has its id, gives back the block. */
  lemma AppendThenDeleteWeek(b: Block, week: Week)
    requires forall i :: 0 <= i < |b.weeks| ==> b.weeks[i].id != week.id
    ensures DeleteWeek(AppendWeek(b, week), week.id) == b
  {
    var keep := (w: Week) => w.id != week.id;
    Seqs.FilterAppend(b.weeks, [week.(days := [])], keep);
    Seqs.FilterKeepsAll(b.weeks, keep);
    assert AppendWeek(b, week).weeks == b.weeks + [week.(days := [])];
  }
}

/** The panel of one block (`BlockPanel`): its week tabs, the selected week, and that week's days. */
module BlockPanel {
  import opened Wrappers
  import opened Workout
  import WeekEdits

  /** The selected index points at a week, or is 0 when there are none. */
  predicate Selectable(index: nat, count: nat) {
    index < count || (count == 0 && index == 0)
  }

  /** What `daysApi.create` is sent: the week's id, the column names and the optional name. */
  datatype DayCreate = DayCreate(weekId: Id, columns: seq<string>, name: Option<string>)

  class Panel {
    /** The `block` prop; the handlers replace it through `onBlockUpdate`. */
    var block: Block
    var selectedWeekIndex: nat
    var isWeekModalOpen: bool
    var isDayModalOpen: bool

    predicate Valid()
      reads this
    {
      Selectable(selectedWeekIndex, |block.weeks|)
    }

    constructor (block: Block)
      ensures this.block == block && selectedWeekIndex == 0
      ensures !isWeekModalOpen && !isDayModalOpen
      ensures Valid()
    {
      this.block := block;
      selectedWeekIndex := 0;
      isWeekModalOpen := false;
      isDayModalOpen := false;
    }

    /** `block.weeks[selectedWeekIndex]`, undefined when the index is out of range. */
    function CurrentWeek(): (r: Option<Week>)
      reads this
      ensures r.Some? <==> selectedWeekIndex < |block.weeks|
      ensures r.Some? ==> r.value == block.weeks[selectedWeekIndex]
    {
      if selectedWeekIndex < |block.weeks| then Some(block.weeks[selectedWeekIndex]) else None
    }

    /** `onSelectWeek` from a week tab. */
    method SelectWeek(index: nat)
      modifies this`selectedWeekIndex
      ensures selectedWeekIndex == index
      ensures index < |block.weeks| ==> Valid()
    {
      selectedWeekIndex := index;
    }

    method SetWeekModalOpen(open: bool)
      modifies this`isWeekModalOpen
      ensures isWeekModalOpen == open
    {
      isWeekModalOpen := open;
    }

    method SetDayModalOpen(open: bool)
      modifies this`isDayModalOpen
      ensures isDayModalOpen == open
    {
      isDayModalOpen := open;
    }

    /**
     * `handleAddWeek`, given the server's week or None when `weeksApi.create` threw (logged): the
     * new week is appended and selected, and the modal closes.
     */
    method AddWeek(created: Option<Week>)
      modifies this`block, this`selectedWeekIndex, this`isWeekModalOpen
      ensures created.Some? ==>
        && block == WeekEdits.AppendWeek(old(block), created.value)
        && selectedWeekIndex == |block.weeks| - 1
        && CurrentWeek() == Some(created.value.(days := []))
        && !isWeekModalOpen
      ensures created.None? ==>
        block == old(block) && selectedWeekIndex == old(selectedWeekIndex) && isWeekModalOpen == old(isWeekModalOpen)
      ensures old(Valid()) ==> Valid()
    {
      if created.Some? {
        block := WeekEdits.AppendWeek(block, created.value);
        selectedWeekIndex := |block.weeks| - 1;
        isWeekModalOpen := false;
      }
    }

    /**
     * `handleAddDay`: with no current week nothing happens. Otherwise `daysApi.create` is sent
     * the week's id, the columns and the name (`request`); when it throws (`created` None) the
     * error reaches the caller, else the day is appended to the selected week and the modal closes.
     */
    method AddDay(name: Option<string>, columns: seq<string>, created: Option<Day>)
      returns (request: Option<DayCreate>, raised: bool)
      modifies this`block, this`isDayModalOpen
      ensures request.None? <==> old(CurrentWeek()).None?
      ensures request.Some? ==> request.value == DayCreate(old(CurrentWeek()).value.id, columns, name)
      ensures raised <==> request.Some? && created.None?
      ensures request.Some? && created.Some? ==>
        && block == WeekEdits.AddDay(old(block), selectedWeekIndex, created.value)
        && CurrentWeek().Some?
        && CurrentWeek().value.days == old(CurrentWeek()).value.days + [created.value]
        && !isDayModalOpen
      ensures request.None? || created.None? ==>
        block == old(block) && isDayModalOpen == old(isDayModalOpen)
      ensures old(Valid()) ==> Valid()
    {
      var current := CurrentWeek();
      if current.None? {
        return None, false;
      }
      request := Some(DayCreate(current.value.id, columns, name));
      if created.None? {
        return request, true;
      }
      block := WeekEdits.AddDay(block, selectedWeekIndex, created.value);
      isDayModalOpen := false;
      raised := false;
    }

    /**
     * `handleDeleteWeek`; `ok` is false when `weeksApi.delete` threw (logged). The selection
     * moves to the last week when it fell off the end, and to 0 when no week is left.
     */
    method DeleteWeek(weekId: Id, ok: bool)
      modifies this`block, this`selectedWeekIndex
      ensures block == if ok then WeekEdits.DeleteWeek(old(block), weekId) else old(block)
      ensures selectedWeekIndex ==
        if ok then WeekEdits.SelectionAfterDelete(old(selectedWeekIndex), |block.weeks|)
        else old(selectedWeekIndex)
      ensures ok ==> Valid()
      ensures old(Valid()) ==> Valid()
    {
      if !ok {
        return;
      }
      block := WeekEdits.DeleteWeek(block, weekId);
      var remaining := |block.weeks|;
      if selectedWeekIndex >= remaining && remaining > 0 {
        selectedWeekIndex := remaining - 1;
      } else if remaining == 0 {
        selectedWeekIndex := 0;
      }
    }

    /** `handleDeleteDay`; `ok` is false when `daysApi.delete` threw (logged). */
    method DeleteDay(dayId: Id, ok: bool)
      modifies this`block
      ensures block == if ok then WeekEdits.DeleteDay(old(block), selectedWeekIndex, dayId) else old(block)
      ensures ok && CurrentWeek().Some? ==> forall d :: d in CurrentWeek().value.days ==> d.id != dayId
      ensures old(Valid()) ==> Valid()
    {
      if ok {
        block := WeekEdits.DeleteDay(block, selectedWeekIndex, dayId);
      }
    }

    /** `handleDayUpdate`: the day table's `onDayUpdate`. */
    method DayUpdate(day: Day)
      modifies this`block
      ensures block == WeekEdits.ReplaceDay(old(block), selectedWeekIndex, day)
      ensures CurrentWeek().Some? ==>
        forall d :: d in CurrentWeek().value.days && d.id == day.id ==> d == day
      ensures old(Valid()) ==> Valid()
    {
      block := WeekEdits.ReplaceDay(block, selectedWeekIndex, day);
    }
  }
}
