/** `extract_schedule` once the PDF page has been read: choosing the table,
    finding the row of class `1.PMG`, walking it, and repairing the result.
    The two table extractions of the page are inputs. */
module Extractor {
  import opened Wrappers
  import opened PyStr
  import opened Cells
  import opened RowWalk
  import opened Repair

  /** What `page.extract_table(...)` returns: no table, or its rows. */
  type Table = Option<seq<Row>>

  /** Python truthiness of a table: found and with at least one row. */
  predicate Found(table: Table) {
    table.Some? && |table.value| > 0
  }

  /** The marker of the class whose timetable is extracted. */
  const Marker: string := "1.PMG"

  /** `cell and '1.PMG' in str(cell)`. */
  predicate MarksClass(cell: Cell) {
    Truthy(cell) && Contains(cell.value, Marker)
  }

  /** `row and any(...)`: a non-empty row with a cell that holds the marker. */
  predicate HasMarker(row: Row) {
    |row| > 0 && exists i | 0 <= i < |row| :: MarksClass(row[i])
  }

  /** The first row from `i` on that holds the marker. */
  function MarkerFrom(rows: seq<Row>, i: nat): (r: Option<nat>)
    requires i <= |rows|
    ensures r.Some? ==> i <= r.value < |rows| && HasMarker(rows[r.value])
    ensures r.Some? ==> forall j | i <= j < r.value :: !HasMarker(rows[j])
    ensures r.None? ==> forall j | i <= j < |rows| :: !HasMarker(rows[j])
    decreases |rows| - i
  {
    if i == |rows| then None
    else if HasMarker(rows[i]) then Some(i)
    else MarkerFrom(rows, i + 1)
  }

  /** The search of timetable_extractor.py lines 60-65: the index of the
      first row holding the marker, or `None` when no row does. */
  method FindMarkerRow(rows: seq<Row>) returns (idx: Option<nat>)
    ensures idx == MarkerFrom(rows, 0)
    ensures idx.Some? ==> idx.value < |rows| && HasMarker(rows[idx.value])
    ensures idx.Some? ==> forall j | 0 <= j < idx.value :: !HasMarker(rows[j])
    ensures idx.None? <==> forall j | 0 <= j < |rows| :: !HasMarker(rows[j])
  {
    var i := 0;
    while i < |rows|
      invariant 0 <= i <= |rows|
      invariant MarkerFrom(rows, i) == MarkerFrom(rows, 0)
    {
      if HasMarker(rows[i]) {
        return Some(i);
      }
      i := i + 1;
    }
    return None;
  }

  /** The table the extractor works on: the first extraction unless it is
      empty, then the fallback one. */
  function Choose(first: Table, fallback: Table): Table {
    if Found(first) then first else fallback
  }

  /** `extract_schedule` after reading the page: `None` when no table is
      found or no row holds the marker; the error `int()` raised inside
      `is_split_cell`; otherwise the repaired schedule of the marked row. */
  function Extract(first: Table, fallback: Table): Result<Option<Schedule>, Error> {
    var table := Choose(first, fallback);
    if !Found(table) then Success(None)
    else
      match MarkerFrom(table.value, 0)
      case None => Success(None)
      case Some(i) =>
        match BuildSchedule(table.value[i])
        case Failure(e) => Failure(e)
        case Success(s) =>
          BuildScheduleWellFormed(table.value[i]);
          Success(Some(Repaired(s)))
  }

  /** `extract_schedule` (timetable_extractor.py lines 26-111) from the two
      table extractions on: the day dictionaries start empty, the `1.PMG` row
      is walked and the result repaired. The messages it prints are left
      out. */
  method ExtractSchedule(first: Table, fallback: Table) returns (r: Result<Option<Schedule>, Error>)
    ensures r == Extract(first, fallback)
  {
    var table := first;
    if !Found(table) {
      table := fallback;
    }
    if !Found(table) {
      return Success(None);
    }
    var pmgRowIdx := FindMarkerRow(table.value);
    if pmgRowIdx.None? {
      return Success(None);
    }
    var pmgRow := table.value[pmgRowIdx.value];
    var walked := WalkRow(pmgRow);
    if walked.Failure? {
      return Failure(walked.error);
    }
    BuildScheduleWellFormed(pmgRow);
    var schedule := ValidateWithSubjectMap(walked.value);
    return Success(Some(schedule));
  }

  /** The extractor gives `None` exactly when no table is found or no row of
      it holds the marker. */
  lemma ExtractNone(first: Table, fallback: Table)
    ensures Extract(first, fallback) == Success(None) <==>
      var table := Choose(first, fallback);
      !Found(table) || forall j | 0 <= j < |table.value| :: !HasMarker(table.value[j])
  {
    var table := Choose(first, fallback);
    if Found(table) && MarkerFrom(table.value, 0).Some? {
      var i := MarkerFrom(table.value, 0).value;
      if BuildSchedule(table.value[i]).Success? {
        BuildScheduleWellFormed(table.value[i]);
      }
    }
  }

  /** It raises exactly when the walk over the first marked row does. */
  lemma ExtractRaises(first: Table, fallback: Table)
    ensures Extract(first, fallback).Failure? <==>
      var table := Choose(first, fallback);
      && Found(table) && MarkerFrom(table.value, 0).Some?
      && BuildSchedule(table.value[MarkerFrom(table.value, 0).value]).Failure?
  {
  }

  /** A schedule it returns has exactly the five days, each day covering
      periods 1..7 with single entries and double-period pairs, every lesson
      consistent with the subject table, and no pair of one-letter codes left
      that the repair would join. */
  lemma ExtractWellFormed(first: Table, fallback: Table)
    requires Extract(first, fallback).Success? && Extract(first, fallback).value.Some?
    ensures var s := Extract(first, fallback).value.value;
      && WellFormed(s)
      && (forall k, q | 0 <= k < |Days| :: !CanJoin(s[Days[k]], q))
  {
    var table := Choose(first, fallback);
    var i := MarkerFrom(table.value, 0).value;
    var s := BuildSchedule(table.value[i]).value;
    BuildScheduleWellFormed(table.value[i]);
    RepairedWellFormed(s);
    RepairedLeavesNoJoin(s);
  }
}
