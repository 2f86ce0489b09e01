/** The walk over the `'1.PMG'` row in `extract_schedule`: five days of seven
    periods, one cell cursor shared by all days, and at every step either
    `None` past the end of the row, two equal double-period entries for a
    split cell, or the parse of a single cell. */
module RowWalk {
  import opened Wrappers
  import opened PyStr
  import opened Registry
  import opened Cells

  /** One table row: the cells left to right, the class name first. */
  type Row = seq<Cell>

  /** One day: period number to lesson, or to `None` for a free period. */
  type Day = map<int, Option<Lesson>>

  /** Day name to day. */
  type Schedule = map<string, Day>

  const Days: seq<string> := ["Ponedjeljak", "Utorak", "Srijeda", "Četvrtak", "Petak"]

  /** The dictionary the walk starts from: every day present and empty. */
  const EmptySchedule: Schedule :=
    map["Ponedjeljak" := map[], "Utorak" := map[], "Srijeda" := map[], "Četvrtak" := map[], "Petak" := map[]]

  function Max(a: int, b: int): int { if a < b then b else a }
  function Min(a: int, b: int): int { if a < b then a else b }

  /** `row[i + 1] if i + 1 < len(row) else None`. */
  function NextCell(row: Row, cursor: nat): Cell {
    if cursor + 1 < |row| then row[cursor + 1] else None
  }

  /** What the walk does at one cursor position. */
  datatype Step = PastEnd | Double(lesson: Lesson) | Single(slot: Option<Lesson>)

  /** The step at `cursor`: past the end of the row nothing is read; when the
      cell and the next one are a split cell they are merged; otherwise the
      cell is parsed on its own; and `is_split_cell` raising ends the walk. */
  function StepAt(row: Row, cursor: nat): (r: Result<Step, Error>)
    ensures r == Success(PastEnd) <==> cursor >= |row|
    ensures r.Failure? <==> cursor < |row| && IsSplitCell(row[cursor], NextCell(row, cursor)).Failure?
    ensures r.Success? && r.value.Double? ==>
              && cursor + 1 < |row| && IsSplitCell(row[cursor], row[cursor + 1]) == Success(true)
              && r.value.lesson == MergeCells(row[cursor], row[cursor + 1])
    ensures r.Success? && r.value.Single? ==>
              && cursor < |row| && IsSplitCell(row[cursor], NextCell(row, cursor)) == Success(false)
              && r.value.slot == ParseCell(row[cursor])
  {
    if cursor >= |row| then Success(PastEnd)
    else
      var next := NextCell(row, cursor);
      match IsSplitCell(row[cursor], next)
      case Failure(e) => Failure(e)
      case Success(merged) =>
        if merged && next.Some? then Success(Double(MergeCells(row[cursor], next)))
        else Success(Single(ParseCell(row[cursor])))
  }

  /** What the walk does at each cursor position. */
  type Steps = nat -> Result<Step, Error>

  /** The steps of one row, as `StepAt` decides them. */
  function StepsOf(row: Row): Steps {
    (c: nat) => StepAt(row, c)
  }

  /** The rest of one day of the walk from `period` with the cursor at
      `cursor`: the filled day and the cursor after it, or the error raised. */
  function FillDay(steps: Steps, period: int, cursor: nat, day: Day): Result<(Day, nat), Error>
    requires 1 <= period <= 9
    decreases 9 - period
  {
    if period > 7 then Success((day, cursor))
    else
      match steps(cursor)
      case Failure(e) => Failure(e)
      case Success(PastEnd) => FillDay(steps, period + 1, cursor, day[period := None])
      case Success(Double(m)) => FillDay(steps, period + 2, cursor + 2, day[period := Some(m)][period + 1 := Some(m)])
      case Success(Single(slot)) => FillDay(steps, period + 1, cursor + 1, day[period := slot])
  }

  /** The rest of the week from day index `d`: each day starts from an empty
      dictionary and the cursor carries over from the day before. */
  function FillWeek(steps: Steps, d: nat, cursor: nat, s: Schedule): Result<Schedule, Error>
    requires d <= |Days|
    decreases |Days| - d
  {
    if d == |Days| then Success(s)
    else
      match FillDay(steps, 1, cursor, map[])
      case Failure(e) => Failure(e)
      case Success((day, next)) => FillWeek(steps, d + 1, next, s[Days[d] := day])
  }

  /** The whole walk: the cursor starts at 1, skipping the class-name cell. */
  function BuildSchedule(row: Row): Result<Schedule, Error> {
    FillWeek(StepsOf(row), 0, 1, EmptySchedule)
  }

  /** `steps` takes the steps of `row`. Stated point by point, and only for
      points where `StepAt` is mentioned, so that a proof about the walk does
      not unfold the cell functions at every cursor it meets. */
  ghost predicate StepsOfRow(steps: Steps, row: Row) {
    forall c: nat {:trigger StepAt(row, c)} :: steps(c) == StepAt(row, c)
  }

  /** Two step functions that agree everywhere fill the same day. */
  lemma {:induction false} FillDaySame(s1: Steps, s2: Steps, period: int, cursor: nat, day: Day)
    requires forall c: nat :: s1(c) == s2(c)
    requires 1 <= period <= 9
    ensures FillDay(s1, period, cursor, day) == FillDay(s2, period, cursor, day)
    decreases 9 - period
  {
    if period <= 7 {
      assert s1(cursor) == s2(cursor);
      FillDaySame(s1, s2, period + 1, cursor, day[period := None]);
      if s1(cursor).Success? && s1(cursor).value.Double? {
        var m := s1(cursor).value.lesson;
        FillDaySame(s1, s2, period + 2, cursor + 2, day[period := Some(m)][period + 1 := Some(m)]);
      } else if s1(cursor).Success? && s1(cursor).value.Single? {
        FillDaySame(s1, s2, period + 1, cursor + 1, day[period := s1(cursor).value.slot]);
      }
    }
  }

  /** Two step functions that agree everywhere fill the same week. */
  lemma {:induction false} FillWeekSame(s1: Steps, s2: Steps, d: nat, cursor: nat, s: Schedule)
    requires forall c: nat :: s1(c) == s2(c)
    requires d <= |Days|
    ensures FillWeek(s1, d, cursor, s) == FillWeek(s2, d, cursor, s)
    decreases |Days| - d
  {
    if d < |Days| {
      FillDaySame(s1, s2, 1, cursor, map[]);
      var day := FillDay(s1, 1, cursor, map[]);
      if day.Success? {
        FillWeekSame(s1, s2, d + 1, day.value.1, s[Days[d] := day.value.0]);
      }
    }
  }

  /** The step function of a row, known to the caller only point by point. */
  lemma RowSteps(row: Row) returns (steps: Steps)
    ensures StepsOfRow(steps, row)
    ensures forall c: nat :: c >= |row| ==> steps(c) == Success(PastEnd)
    ensures forall c: nat :: steps(c) == StepsOf(row)(c)
  {
    steps := StepsOf(row);
  }

  /** One cell of the walk (timetable_extractor.py lines 86-106): the cell
      at the cursor and the one after it (or `None`), the split test, and then
      the merged lesson of a split cell or the parse of the single cell. The
      caller has already handled a cursor past the end of the row. */
  method ReadStep(row: Row, ghost steps: Steps, cellIdx: nat) returns (step: Result<Step, Error>)
    requires StepsOfRow(steps, row)
    requires cellIdx < |row|
    ensures step == steps(cellIdx)
    ensures step != Success(PastEnd)
  {
    assert steps(cellIdx) == StepAt(row, cellIdx);
    var current := row[cellIdx];
    var next := if cellIdx + 1 < |row| then row[cellIdx + 1] else None;
    var isMerged := IsSplitCell(current, next);
    if isMerged.Failure? {
      return Failure(isMerged.error);
    }
    if isMerged.value && next.Some? {
      return Success(Double(MergeCells(current, next)));
    }
    return Success(Single(ParseCell(current)));
  }

  /** The inner loop of the walk (timetable_extractor.py lines 79-106): the
      periods of one day from the cursor `start`, writing the day dictionary
      in place (here a map reassigned). It computes `FillDay` from period 1
      and an empty day. */
  method WalkDay(row: Row, ghost steps: Steps, start: nat) returns (r: Result<(Day, nat), Error>)
    requires StepsOfRow(steps, row)
    requires forall c: nat :: c >= |row| ==> steps(c) == Success(PastEnd)
    ensures r == FillDay(steps, 1, start, map[])
  {
    var day: Day := map[];
    var cellIdx: nat := start;
    var period := 1;
    while period <= 7
      invariant 1 <= period <= 9
      invariant FillDay(steps, period, cellIdx, day) == FillDay(steps, 1, start, map[])
    {
      if cellIdx >= |row| {
        day := day[period := None];
        period := period + 1;
        continue;
      }
      var step := ReadStep(row, steps, cellIdx);
      match step
      case Failure(e) =>
        return Failure(e);
      case Success(Double(merged)) =>
        day := day[period := Some(merged)];
        day := day[period + 1 := Some(merged)];
        cellIdx := cellIdx + 2;
        period := period + 2;
      case Success(Single(parsed)) =>
        day := day[period := parsed];
        cellIdx := cellIdx + 1;
        period := period + 1;
      case Success(PastEnd) =>
        assert false;
    }
    return Success((day, cellIdx));
  }

  /** The outer loop of the walk (timetable_extractor.py lines 74-106): the
      days in order, one shared cursor starting after the class-name cell,
      each day's dictionary stored into the schedule, and an error from
      `is_split_cell` ending the walk. */
  method WalkWeek(row: Row, ghost steps: Steps) returns (r: Result<Schedule, Error>)
    requires StepsOfRow(steps, row)
    requires forall c: nat :: c >= |row| ==> steps(c) == Success(PastEnd)
    ensures r == FillWeek(steps, 0, 1, EmptySchedule)
  {
    var schedule := EmptySchedule;
    var cellIdx: nat := 1;
    var d := 0;
    while d < |Days|
      invariant 0 <= d <= |Days|
      invariant FillWeek(steps, d, cellIdx, schedule) == FillWeek(steps, 0, 1, EmptySchedule)
    {
      var name := Days[d];
      var filled := WalkDay(row, steps, cellIdx);
      FillWeekStep(steps, d, cellIdx, schedule);
      if filled.Failure? {
        return Failure(filled.error);
      }
      schedule := schedule[name := filled.value.0];
      cellIdx := filled.value.1;
      d := d + 1;
    }
    return Success(schedule);
  }

  /** The walk over the row: it computes `BuildSchedule`. */
  method WalkRow(row: Row) returns (r: Result<Schedule, Error>)
    ensures r == BuildSchedule(row)
  {
    ghost var steps := RowSteps(row);
    r := WalkWeek(row, steps);
    FillWeekSame(steps, StepsOf(row), 0, 1, EmptySchedule);
  }

  /** The walk visits the day names in order and each of them once. */
  lemma DaysDistinct()
    ensures forall i, j | 0 <= i < j < |Days| :: Days[i] != Days[j]
  {
  }

  predicate IsDouble(slot: Option<Lesson>) {
    slot.Some? && slot.value.doublePeriod
  }

  /** What the cell functions guarantee of every lesson they produce: a
      teacher code; for a double period a known code with its subject; for a
      single period the subject `parse_cell` assigns to the code. */
  predicate LessonOk(l: Lesson) {
    && l.teacher != []
    && if l.doublePeriod then Known(l.teacher) && l.subject == Subject(l.teacher)
       else l.subject == SubjectOf(l.teacher)
  }

  /** The step at cursor `c` of a row of `n` cells is one a row can produce:
      an error or a single cell only inside the row, a merge only when the
      next cell is inside the row too, a merge a double period and a single
      cell not, every lesson `LessonOk`, and nothing but `PastEnd` past the
      end. */
  predicate StepFits(r: Result<Step, Error>, c: nat, n: nat) {
    match r
    case Failure(_) => c < n
    case Success(PastEnd) => c >= n
    case Success(Double(m)) => c + 1 < n && m.doublePeriod && LessonOk(m)
    case Success(Single(slot)) => c < n && !IsDouble(slot) && (slot.Some? ==> LessonOk(slot.value))
  }

  ghost predicate StepsFit(steps: Steps, n: nat) {
    forall c: nat :: StepFits(steps(c), c, n)
  }

  /** The steps `StepAt` takes on a row fit that row. */
  lemma StepsOfFit(row: Row)
    ensures StepsFit(StepsOf(row), |row|)
  {
    forall c: nat ensures StepFits(StepsOf(row)(c), c, |row|) {
      var st := StepAt(row, c);
      if st.Success? && st.value.Double? {
        MergeAfterSplit(row[c], row[c + 1]);
      }
    }
  }

  /** From period `p` on, the day is a run of single entries and of
      double-period pairs `q, q + 1` holding equal lessons that ends exactly
      after period 7: key 8 is there only as the second half of a pair that
      starts at period 7. */
  predicate Tiled(day: Day, p: int)
    requires 1 <= p <= 9
    decreases 9 - p
  {
    if p == 9 then true
    else if p == 8 then 8 !in day
    else
      && p in day
      && if IsDouble(day[p]) then p + 1 in day && day[p + 1] == day[p] && Tiled(day, p + 2)
         else Tiled(day, p + 1)
  }

  /** The shape of a day after the walk: periods 1..8 only, tiled from 1. */
  predicate DayShape(day: Day) {
    (forall p | p in day :: 1 <= p <= 8) && Tiled(day, 1)
  }

  /** A tiled day has an entry for each of the periods up to 7. */
  lemma {:induction false} TiledCovers(day: Day, p: int)
    requires 1 <= p <= 9 && Tiled(day, p)
    ensures forall q | p <= q <= 7 :: q in day
    decreases 9 - p
  {
    if p <= 7 {
      if IsDouble(day[p]) {
        TiledCovers(day, p + 2);
      } else {
        TiledCovers(day, p + 1);
      }
    }
  }

  predicate Consistent(day: Day) {
    forall q | q in day && day[q].Some? :: LessonOk(day[q].value)
  }

  /** The rest of a day of the walk keeps what was written before `period`,
      writes only periods up to 8, and leaves the day tiled from `period`. */
  lemma {:induction false} FillDayShape(steps: Steps, n: nat, period: int, cursor: nat, day: Day)
    requires StepsFit(steps, n)
    requires 1 <= period <= 9
    requires forall q | q in day :: 1 <= q < period
    requires FillDay(steps, period, cursor, day).Success?
    ensures var r := FillDay(steps, period, cursor, day).value.0;
      && (forall q | q in r :: 1 <= q <= 8)
      && (forall q | q in day :: q in r && r[q] == day[q])
      && Tiled(r, period)
    decreases 9 - period
  {
    if period <= 7 {
      assert StepFits(steps(cursor), cursor, n);
      match steps(cursor).value
      case PastEnd =>
        FillDayShape(steps, n, period + 1, cursor, day[period := None]);
      case Double(m) =>
        FillDayShape(steps, n, period + 2, cursor + 2, day[period := Some(m)][period + 1 := Some(m)]);
      case Single(slot) =>
        FillDayShape(steps, n, period + 1, cursor + 1, day[period := slot]);
    }
  }

  /** Every lesson the walk writes satisfies `LessonOk`: a merged lesson
      because `is_split_cell` held for its halves, a single one because
      `parse_cell` made it. */
  lemma {:induction false} FillDayConsistent(steps: Steps, n: nat, period: int, cursor: nat, day: Day)
    requires StepsFit(steps, n)
    requires 1 <= period <= 9
    requires Consistent(day)
    requires FillDay(steps, period, cursor, day).Success?
    ensures Consistent(FillDay(steps, period, cursor, day).value.0)
    decreases 9 - period
  {
    if period <= 7 {
      assert StepFits(steps(cursor), cursor, n);
      match steps(cursor).value
      case PastEnd =>
        FillDayConsistent(steps, n, period + 1, cursor, day[period := None]);
      case Double(m) =>
        FillDayConsistent(steps, n, period + 2, cursor + 2, day[period := Some(m)][period + 1 := Some(m)]);
      case Single(slot) =>
        FillDayConsistent(steps, n, period + 1, cursor + 1, day[period := slot]);
    }
  }

  /** The cursor never moves back and never passes `max(cursor, len(row))`. */
  lemma {:induction false} FillDayCursor(steps: Steps, n: nat, period: int, cursor: nat, day: Day)
    requires StepsFit(steps, n)
    requires 1 <= period <= 9
    requires FillDay(steps, period, cursor, day).Success?
    ensures cursor <= FillDay(steps, period, cursor, day).value.1 <= Max(cursor, n)
    decreases 9 - period
  {
    if period <= 7 {
      assert StepFits(steps(cursor), cursor, n);
      match steps(cursor).value
      case PastEnd =>
        FillDayCursor(steps, n, period + 1, cursor, day[period := None]);
      case Double(m) =>
        FillDayCursor(steps, n, period + 2, cursor + 2, day[period := Some(m)][period + 1 := Some(m)]);
      case Single(slot) =>
        FillDayCursor(steps, n, period + 1, cursor + 1, day[period := slot]);
    }
  }

  /** Once the cursor is past the end of the row, every remaining period of
      the day is `None` and the cursor stays where it is. */
  lemma {:induction false} FillDayPastEnd(steps: Steps, n: nat, period: int, cursor: nat, day: Day)
    requires StepsFit(steps, n)
    requires 1 <= period <= 8 && cursor >= n
    ensures FillDay(steps, period, cursor, day).Success?
    ensures var (r, c) := FillDay(steps, period, cursor, day).value;
      && c == cursor
      && (forall q :: q in r <==> q in day || period <= q <= 7)
      && (forall q | q in r :: r[q] == if period <= q <= 7 then None else day[q])
    decreases 8 - period
  {
    if period <= 7 {
      assert StepFits(steps(cursor), cursor, n);
      FillDayPastEnd(steps, n, period + 1, cursor, day[period := None]);
    }
  }

  /** A schedule as the walk leaves it: exactly the five day names, every day
      shaped and consistent. */
  predicate WellFormed(s: Schedule) {
    && (forall name | name in s :: name in Days)
    && (forall k | 0 <= k < |Days| :: Days[k] in s && DayShape(s[Days[k]]) && Consistent(s[Days[k]]))
  }

  /** The rest of the week keeps the day names, leaves the days before `d`
      alone, and every day it writes is shaped and consistent. */
  lemma {:induction false} FillWeekShape(steps: Steps, n: nat, d: nat, cursor: nat, s: Schedule)
    requires StepsFit(steps, n)
    requires d <= |Days|
    requires forall k | 0 <= k < |Days| :: Days[k] in s
    requires FillWeek(steps, d, cursor, s).Success?
    ensures var r := FillWeek(steps, d, cursor, s).value;
      && r.Keys == s.Keys
      && (forall k | 0 <= k < d :: r[Days[k]] == s[Days[k]])
      && (forall k | d <= k < |Days| :: DayShape(r[Days[k]]) && Consistent(r[Days[k]]))
    decreases |Days| - d
  {
    if d < |Days| {
      FillWeekStep(steps, d, cursor, s);
      var (day, next) := FillDay(steps, 1, cursor, map[]).value;
      FillDayShape(steps, n, 1, cursor, map[]);
      FillDayConsistent(steps, n, 1, cursor, map[]);
      DaysDistinct();
      FillWeekShape(steps, n, d + 1, next, s[Days[d] := day]);
    }
  }

  /** One day of the week: a completed week completed its first day, an
      error in the first day is the week's error, and a completed first day
      leaves the rest of the week to the next day. */
  lemma FillWeekStep(steps: Steps, d: nat, cursor: nat, s: Schedule)
    requires d < |Days|
    ensures FillWeek(steps, d, cursor, s).Success? ==> FillDay(steps, 1, cursor, map[]).Success?
    ensures FillDay(steps, 1, cursor, map[]).Failure? ==>
      FillWeek(steps, d, cursor, s) == Failure(FillDay(steps, 1, cursor, map[]).error)
    ensures FillDay(steps, 1, cursor, map[]).Success? ==>
      FillWeek(steps, d, cursor, s) ==
      FillWeek(steps, d + 1, FillDay(steps, 1, cursor, map[]).value.1, s[Days[d] := FillDay(steps, 1, cursor, map[]).value.0])
  {
  }

  /** A day with every period 1..7 free. */
  function FreeDay(): (day: Day)
    ensures forall q :: q in day <==> 1 <= q <= 7
    ensures forall q | q in day :: day[q] == None
  {
    map[1 := None, 2 := None, 3 := None, 4 := None, 5 := None, 6 := None, 7 := None]
  }

  /** Once the cursor is past the end of the row, every remaining day of the
      week is free in each of its periods, and the walk cannot fail. */
  lemma {:induction false} FillWeekPastEnd(steps: Steps, n: nat, d: nat, cursor: nat, s: Schedule)
    requires StepsFit(steps, n)
    requires d <= |Days| && cursor >= n
    requires forall k | 0 <= k < |Days| :: Days[k] in s
    ensures FillWeek(steps, d, cursor, s).Success?
    ensures var r := FillWeek(steps, d, cursor, s).value;
      && r.Keys == s.Keys
      && (forall k | 0 <= k < d :: r[Days[k]] == s[Days[k]])
      && (forall k | d <= k < |Days| :: r[Days[k]] == FreeDay())
    decreases |Days| - d
  {
    if d < |Days| {
      FillDayPastEnd(steps, n, 1, cursor, map[]);
      FillWeekStep(steps, d, cursor, s);
      var day := FillDay(steps, 1, cursor, map[]).value.0;
      assert day == FreeDay();
      DaysDistinct();
      FillWeekPastEnd(steps, n, d + 1, cursor, s[Days[d] := day]);
    }
  }

  /** Every schedule the walk completes is well formed. */
  lemma BuildScheduleWellFormed(row: Row)
    requires BuildSchedule(row).Success?
    ensures WellFormed(BuildSchedule(row).value)
  {
    StepsOfFit(row);
    FillWeekWellFormed(StepsOf(row), |row|);
  }

  /** A completed walk over any well-behaved steps is well formed. */
  lemma FillWeekWellFormed(steps: Steps, n: nat)
    requires StepsFit(steps, n)
    requires FillWeek(steps, 0, 1, EmptySchedule).Success?
    ensures WellFormed(FillWeek(steps, 0, 1, EmptySchedule).value)
  {
    FillWeekShape(steps, n, 0, 1, EmptySchedule);
  }

  /** No lesson cell of the row starts a split cell. */
  predicate NoSplits(row: Row) {
    forall i | 1 <= i < |row| :: IsSplitCell(row[i], NextCell(row, i)) == Success(false)
  }

  /** The parse of cell `i`, or `None` past the end of the row. */
  function CellSlot(row: Row, i: nat): Option<Lesson> {
    if i < |row| then ParseCell(row[i]) else None
  }

  /** Period `p` of day `d` in a row that is read one cell per period. */
  function DaySlot(row: Row, d: nat, p: int): Option<Lesson>
    requires p >= 1
  {
    CellSlot(row, 7 * d + p)
  }

  /** The reference day for a row without split cells: period `p` of day `d`
      is the parse of cell `7 * d + p`. */
  function UnmergedDay(row: Row, d: nat): (day: Day)
    ensures forall p :: p in day <==> 1 <= p <= 7
  {
    map p | 1 <= p <= 7 :: DaySlot(row, d, p)
  }

  /** The lesson each cell position holds, `None` from `n` on. */
  type Slots = nat -> Option<Lesson>

  /** Every step from cell 1 on reads the one cell at the cursor, or is past
      the end of a row of `n` cells. */
  ghost predicate Unsplit(steps: Steps, n: nat, slot: Slots) {
    && (forall c: nat | c >= 1 :: steps(c) == Success(if c < n then Single(slot(c)) else PastEnd))
    && (forall c: nat | c >= n :: slot(c) == None)
  }

  /** The cell parses of a row without split cells are what its steps read. */
  lemma NoSplitsSteps(row: Row, slot: Slots)
    requires NoSplits(row)
    requires forall c: nat :: slot(c) == CellSlot(row, c)
    ensures Unsplit(StepsOf(row), |row|, slot)
  {
  }

  /** Without split cells, the rest of a day reads one cell per period, until
      the row runs out. */
  lemma {:induction false} FillDayUnsplit(steps: Steps, n: nat, slot: Slots, period: int, cursor: nat, day: Day)
    requires Unsplit(steps, n, slot)
    requires 1 <= period <= 8 && cursor >= 1
    ensures FillDay(steps, period, cursor, day).Success?
    ensures var (r, c) := FillDay(steps, period, cursor, day).value;
      && c == Min(cursor + 8 - period, Max(cursor, n))
      && (forall q :: q in r <==> q in day || period <= q <= 7)
      && (forall q | q in r :: r[q] == if period <= q <= 7 then slot(cursor + q - period) else day[q])
    decreases 8 - period
  {
    if period <= 7 {
      if cursor < n {
        FillDayUnsplit(steps, n, slot, period + 1, cursor + 1, day[period := slot(cursor)]);
      } else {
        FillDayUnsplit(steps, n, slot, period + 1, cursor, day[period := None]);
      }
    }
  }

  /** The cursor at the start of day `d` when a row of `n` cells has no split
      cells. */
  function DayStart(n: nat, d: nat): (c: nat)
    ensures c >= 1
  {
    Min(7 * d + 1, Max(1, n))
  }

  lemma DayStartNext(n: nat, d: nat)
    ensures Min(DayStart(n, d) + 7, Max(DayStart(n, d), n)) == DayStart(n, d + 1)
  {
  }

  /** The day holds periods 1..7, read from the slots from `start` on. */
  ghost predicate ReadsFrom(day: Day, slot: Slots, start: nat) {
    && (forall q :: q in day <==> 1 <= q <= 7)
    && (forall q | 1 <= q <= 7 :: day[q] == slot(start + q - 1))
  }

  /** Day `d`, started at its start cell, reads its periods from there and
      leaves the cursor at the start cell of the next day. */
  ghost predicate DayReads(steps: Steps, n: nat, slot: Slots, d: nat) {
    var r := FillDay(steps, 1, DayStart(n, d), map[]);
    r.Success? && ReadsFrom(r.value.0, slot, DayStart(n, d)) && r.value.1 == DayStart(n, d + 1)
  }

  /** Without split cells, day `d` reads its seven periods from its start
      cell and ends at the next day's start cell. */
  lemma UnsplitDay(steps: Steps, n: nat, slot: Slots, d: nat)
    requires Unsplit(steps, n, slot)
    ensures DayReads(steps, n, slot, d)
  {
    UnsplitFrom(steps, n, slot, DayStart(n, d));
    DayStartNext(n, d);
  }

  /** A whole day started at cell `start` reads its periods from there. */
  lemma UnsplitFrom(steps: Steps, n: nat, slot: Slots, start: nat)
    requires Unsplit(steps, n, slot) && start >= 1
    ensures var r := FillDay(steps, 1, start, map[]);
      r.Success? && ReadsFrom(r.value.0, slot, start) && r.value.1 == Min(start + 7, Max(start, n))
  {
    FillDayUnsplit(steps, n, slot, 1, start, map[]);
  }

  lemma UnsplitDays(steps: Steps, n: nat, slot: Slots)
    requires Unsplit(steps, n, slot)
    ensures forall d: nat :: DayReads(steps, n, slot, d)
  {
    forall d: nat ensures DayReads(steps, n, slot, d) {
      UnsplitDay(steps, n, slot, d);
    }
  }

  /** Without split cells, the rest of the week reads each day from its start
      cell, keeps the day names and leaves the days before `d` alone. */
  lemma {:induction false} FillWeekUnsplit(steps: Steps, n: nat, slot: Slots, d: nat, s: Schedule)
    requires forall e: nat :: DayReads(steps, n, slot, e)
    requires d <= |Days|
    requires forall k | 0 <= k < |Days| :: Days[k] in s
    ensures FillWeek(steps, d, DayStart(n, d), s).Success?
    ensures var r := FillWeek(steps, d, DayStart(n, d), s).value;
      && r.Keys == s.Keys
      && (forall k | 0 <= k < d :: r[Days[k]] == s[Days[k]])
      && (forall k | d <= k < |Days| :: ReadsFrom(r[Days[k]], slot, DayStart(n, k)))
    decreases |Days| - d
  {
    if d < |Days| {
      assert DayReads(steps, n, slot, d);
      FillWeekStep(steps, d, DayStart(n, d), s);
      var day := FillDay(steps, 1, DayStart(n, d), map[]).value.0;
      DaysDistinct();
      FillWeekUnsplit(steps, n, slot, d + 1, s[Days[d] := day]);
    }
  }

  /** The start cell of a day read one cell per period is `7 * d + 1`, or a
      cell past the end of the row, where every slot is `None`; so the day
      reads the slots `7 * d + 1` to `7 * d + 7`. */
  lemma ReadsDay(n: nat, slot: Slots, d: nat, day: Day)
    requires forall c: nat | c >= n :: slot(c) == None
    requires ReadsFrom(day, slot, DayStart(n, d))
    ensures forall q | 1 <= q <= 7 :: day[q] == slot(7 * d + q)
  {
    forall q | 1 <= q <= 7 ensures day[q] == slot(7 * d + q) {
      if 7 * d + 1 > Max(1, n) {
        assert slot(DayStart(n, d) + q - 1) == None;
        assert slot(7 * d + q) == None;
      }
    }
  }

  /** A day read from the cells of a row from the day's start cell is the
      reference day. */
  lemma ReadsUnmerged(row: Row, slot: Slots, d: nat, day: Day)
    requires forall c: nat :: slot(c) == CellSlot(row, c)
    requires ReadsFrom(day, slot, DayStart(|row|, d))
    ensures day == UnmergedDay(row, d)
  {
    ReadsDay(|row|, slot, d, day);
    var u := UnmergedDay(row, d);
    forall q | 1 <= q <= 7 ensures day[q] == u[q] {
      assert day[q] == slot(7 * d + q);
    }
  }

  /** A row without split cells gives, for each day `d`, the periods read
      straight off cells `7 * d + 1` to `7 * d + 7`, with `None` past the end
      of the row; no merging takes place and nothing is raised. */
  lemma BuildScheduleUnsplit(row: Row)
    requires NoSplits(row)
    ensures BuildSchedule(row).Success?
    ensures forall name :: name in BuildSchedule(row).value <==> name in Days
    ensures forall k | 0 <= k < |Days| :: BuildSchedule(row).value[Days[k]] == UnmergedDay(row, k)
  {
    var slot := (c: nat) => CellSlot(row, c);
    NoSplitsSteps(row, slot);
    UnsplitDays(StepsOf(row), |row|, slot);
    assert DayStart(|row|, 0) == 1;
    FillWeekUnsplit(StepsOf(row), |row|, slot, 0, EmptySchedule);
    var r := BuildSchedule(row).value;
    assert r.Keys == EmptySchedule.Keys;
    forall k | 0 <= k < |Days| ensures r[Days[k]] == UnmergedDay(row, k) {
      ReadsUnmerged(row, slot, k, r[Days[k]]);
    }
  }
}
