# Timetable extractor: cell reconstruction

A model of the part of `timetable_extractor.py` that rebuilds one class's
weekly timetable from a table row. The table is the grid that `pdfplumber`
extracted from the school's timetable PDF. The row is the first one with a
cell mentioning `1.PMG`. Each cell holds a teacher code on its first line and
a room on its second. A double period is sometimes split over two adjacent
cells, one letter of the code in each. The model covers:

- `parse_cell`, which reads one cell as a lesson;
- `is_split_cell` and `merge_cells`, which detect and join such halves;
- the walk of `extract_schedule` over the days and periods of the row, with
  one cell cursor shared by the whole week;
- the row search before the walk;
- the repair pass `validate_with_subject_map`, which joins adjacent
  one-letter codes that the walk left apart;
- the fixed tables `SUBJECT_MAP` (teacher code to subject) and
  `ROOM_NUMBERS` (1 to 28).

Modules, one per file:

- `Wrappers` (`wrappers.dfy`): `Option` and `Result`.
- `PyStr` (`pystr.dfy`): the Python string operations the code relies on:
  `str.strip()` with Python's whitespace set, `split('\n')`, the substring
  test, and `int()` on text, which fails with `ValueError`.
- `Registry` (`registry.dfy`): `SUBJECT_MAP`, written as its keys `Codes` and
  its values `Names` in dictionary order, and `ROOM_NUMBERS`.
- `Cells` (`cells.dfy`): `parse_cell`, `is_split_cell` and `merge_cells`, as
  functions.
- `RowWalk` (`walk.dfy`): the walk, as the methods `WalkRow`, `WalkWeek`,
  `WalkDay` and `ReadStep`; `WalkWeek` and `WalkDay` hold its two loops. They are proved equal to the reference
  functions `FillWeek` and `FillDay`, and the properties of the walk are
  lemmas about those functions.
- `Repair` (`repair.dfy`): `validate_with_subject_map`, as the methods
  `ValidateWithSubjectMap` and `FixDay`. They are proved equal to `Repaired`
  and `RepairDay`.
- `Extractor` (`extract.dfy`): `extract_schedule` from the extracted tables
  on, that is the table choice, the row search, the walk and the repair.

Behaviour of the code worth knowing:

- `int(combined_room)` in `is_split_cell` (timetable_extractor.py:144,151)
  is not guarded. A pair of cells whose joined code is known but whose
  joined room text is not an integer raises `ValueError`, and the error
  leaves `extract_schedule`. The model returns it as `Failure`.
- `validate_with_subject_map` is called on every walked schedule
  (timetable_extractor.py:109).
- Only `table[pmg_row_idx]`, the first row that mentions `1.PMG`, is walked
  (timetable_extractor.py:71).
- A lesson record has exactly the fields `teacher`, `room`, `subject` and
  `double_period`, and a missing room stays `''`
  (timetable_extractor.py:136-138, 197).

## Model

| member | source | states |
|---|---|---|
| PyStr.TrimStart | timetable_extractor.py:125 | the result is the longest suffix whose first character is not whitespace; everything removed is whitespace |
| PyStr.TrimEnd | timetable_extractor.py:125 | the result is the longest prefix whose last character is not whitespace; everything removed is whitespace |
| PyStr.Strip | timetable_extractor.py:125-126 | `strip()` gives `''` exactly when the text is all whitespace, and otherwise starts and ends with a non-whitespace character |
| PyStr.Contains | timetable_extractor.py:63 | `pat in s` on strings: `pat` occurs in `s` as a contiguous slice, the empty pattern always |
| PyStr.StripUnspaced | timetable_extractor.py:135-138 | text with no whitespace at either end is left alone by `strip()` |
| PyStr.StripIdempotent | timetable_extractor.py:135-138 | stripping a line that was already stripped changes nothing |
| PyStr.Split | timetable_extractor.py:132-133 | `split('\n')` gives at least one piece, and no piece contains a line break |
| PyStr.JoinSplit | timetable_extractor.py:132-133 | joining the pieces of a split with the separator gives the text back |
| PyStr.SplitJoin | timetable_extractor.py:132-133 | splitting a join of separator-free pieces gives those pieces back, so the split is the only such cut |
| PyStr.SplitHasTwoParts | timetable_extractor.py:195 | `len(lines) >= 2` holds exactly when the text contains a line break |
| PyStr.SplitFirstIsPrefix | timetable_extractor.py:135 | the first line is a prefix of the text, followed by the separator when there is a second line |
| PyStr.ParseInt | timetable_extractor.py:144 | `int()` of empty or all-whitespace text raises `ValueError`; a negative result comes from a leading `-` |
| PyStr.ParseIntDecimal | timetable_extractor.py:144 | `int()` reads back the decimal text of every natural number |
| Registry.Get | timetable_extractor.py:178 | `SUBJECT_MAP.get(code, default)` is the mapped subject for a key, and `default` otherwise |
| Registry.Known | timetable_extractor.py:144 | `code in SUBJECT_MAP`: the search over the keys finds the code |
| Registry.Subject | timetable_extractor.py:244 | `SUBJECT_MAP[code]` for a key: the value written beside that key |
| Registry.TablesAligned | timetable_extractor.py:7-22 | helper for the proofs: every key of the map has a value |
| Registry.IndexFromFinds | timetable_extractor.py:7-22 | the key search stops at the first position holding the code, and runs off the end when there is none |
| Registry.IndexFinds | timetable_extractor.py:7-22 | `code in SUBJECT_MAP` holds exactly when the code is one of the keys |
| Registry.CodesDistinct | timetable_extractor.py:7-22 | no key is written twice, so the literal is a dictionary with 14 entries |
| Registry.LookupEntries | timetable_extractor.py:7-22 | each written key maps to the subject written beside it |
| Registry.CodesHaveTwoChars | timetable_extractor.py:7-22 | every key is two characters long, each a capital letter or `Š` |
| Registry.SubjectsAreNotSentinels | timetable_extractor.py:7-22 | no subject is `"Unknown"` or `"Multiple"`, the values the parser writes for other codes |
| Registry.InRoomsFrom | timetable_extractor.py:24 | the list holds `n` from position `i` on exactly when `i + 1 <= n <= 28` |
| Registry.RoomNumbersRange | timetable_extractor.py:24 | `n in ROOM_NUMBERS` holds exactly when `1 <= n <= 28` |
| Registry.IsRoom | timetable_extractor.py:144 | `n in ROOM_NUMBERS`: `n` is one of the list's elements, read from its start |
| Cells.HalvesOf | timetable_extractor.py:132-138 | the code and the room of a cell contain no line break; the code is non-empty when the stripped text is |
| Cells.Truthy | timetable_extractor.py:122 | Python truthiness of a cell: present and not the empty string |
| Cells.Text | timetable_extractor.py:125 | `str(cell)`: the text of a present cell, `"None"` for an absent one |
| Cells.SubjectOf | timetable_extractor.py:199-204 | the subject `parse_cell` gives a code: `"Multiple"` when it holds `/`, else `SUBJECT_MAP.get(code, 'Unknown')` |
| Cells.ParseCell | timetable_extractor.py:187-213 | no lesson for an absent, empty or blank cell, or for one with a single line; otherwise teacher and room are the stripped first and second lines, the subject is `"Multiple"` for a code with `/`, the mapped subject for a key, `"Unknown"` otherwise, and it is not a double period |
| Cells.KnownPair | timetable_extractor.py:144 | the `and` evaluates left to right: an unknown joined code gives `False` without reading the room; a known one raises exactly when the joined room text is no integer, and gives `True` exactly when it reads as 1..28 |
| Cells.IsSplitCell | timetable_extractor.py:122-129 | an absent, empty or blank cell on either side gives `False` |
| Cells.HalvesSplit | timetable_extractor.py:140-154 | `True` only for a known joined code |
| Cells.HalvesSplitIsSingleTest | timetable_extractor.py:141-152 | the `<= 2` test adds nothing to the `== 1` test, because every key has two characters and no code is empty |
| Cells.CellHalves | timetable_extractor.py:125-138 | a truthy, non-blank cell has a non-empty code |
| Cells.IsSplitCellOnHalves | timetable_extractor.py:122-154 | on two non-blank cells, `is_split_cell` is the `== 1` test on their halves |
| Cells.IsSplitCellCharacterised | timetable_extractor.py:122-154 | on two non-blank cells: `True` exactly when both codes are one character, the joined code is a key and the joined room text reads as 1..28; raises exactly when both codes are one character, the joined code is a key and the joined room text is no integer |
| Cells.SplitHalves | timetable_extractor.py:141-145 | a detected split has two non-blank cells of one-character codes, a known joined code and a room 1..28 |
| Cells.MergeCells | timetable_extractor.py:156-185 | the teacher is the joined codes and the room the joined room texts, plain concatenation; it is a double period |
| Cells.MergeOfTruthy | timetable_extractor.py:160-185 | on two present cells, the merged subject is `SUBJECT_MAP.get(teacher, 'Unknown')` |
| Cells.MergeAfterSplit | timetable_extractor.py:141-185 | after a detected split, the merged lesson has a known two-character code made of the two halves, its subject (never `"Unknown"`), a room reading as 1..28, and is a double period |
| Cells.OneLineHalves | timetable_extractor.py:132-138 | a one-line cell has that line as its code and `''` as its room |
| Cells.OneLineCell | timetable_extractor.py:125-138 | a one-line cell is truthy and non-blank, and its halves are its line and `''` |
| Cells.TwoLineHalves | timetable_extractor.py:132-138 | a two-line cell is unchanged by stripping, and its halves are exactly its two lines |
| Cells.CellOfTwoLines | timetable_extractor.py:125-138 | a two-line cell is truthy and non-blank, and its halves are its two lines |
| Cells.ParseLines | timetable_extractor.py:192-211 | stripped text of two or more lines parses to the lesson of its halves |
| Cells.ParseTwoLines | timetable_extractor.py:187-211 | writing a code and a room as a two-line cell and parsing it gives them back, with the subject of the code |
| Cells.ParseOneLine | timetable_extractor.py:193-213 | a one-line cell holds no lesson |
| Cells.KnownCodeHalves | timetable_extractor.py:7-22 | each letter of a key, alone in a cell, is one line of text |
| Cells.TwoLineCells | timetable_extractor.py:125-138 | the two letters of a key, each above half of a room, make two cells whose halves are those letters and room halves |
| Cells.SplitOfTwoLines | timetable_extractor.py:141-145 | such cells are a split exactly when the joined room text reads as 1..28, and raise exactly when it is no integer |
| Cells.MergeOfTwoLines | timetable_extractor.py:172-185 | merging such cells gives the key's lesson in the joined room, as a double period |
| Cells.SplitWithoutRoomsRaises | timetable_extractor.py:136-144 | the two letters of a key, with no room lines, make `int('')` raise |
| RowWalk.StepAt | timetable_extractor.py:81-106 | past the row nothing is read; a split of the cell and the next one is merged; otherwise the single cell is parsed; an error from `is_split_cell` is passed on |
| RowWalk.NextCell | timetable_extractor.py:89 | the cell after the cursor, `None` when the cursor is on the last cell or past it |
| RowWalk.ReadStep | timetable_extractor.py:86-106 | reading the cell at the cursor takes the step `StepAt` describes, never the past-end one |
| RowWalk.WalkDay | timetable_extractor.py:79-106 | the while loop over periods computes `FillDay` from period 1 and an empty day |
| RowWalk.FillDay | timetable_extractor.py:79-106 | the reference definition of one day: periods from `period` to 7 in order; a past-end step writes `None` and keeps the cursor; a merge writes the lesson at `period` and `period + 1` and moves both by 2; a single cell writes its parse and moves both by 1; a raise ends the day |
| RowWalk.FillWeek | timetable_extractor.py:74-106 | the reference definition of the week: the days in order, each from an empty dictionary, the cursor carried over from the day before, a raise ending the walk |
| RowWalk.BuildSchedule | timetable_extractor.py:74-106 | the reference definition of the whole walk: the week from the first day with the cursor at cell 1 |
| RowWalk.WalkWeek | timetable_extractor.py:74-106 | the loop over the five days, with one shared cursor from 1, computes `FillWeek` |
| RowWalk.WalkRow | timetable_extractor.py:74-106 | the walk over the row computes `BuildSchedule` |
| RowWalk.FillDaySame | timetable_extractor.py:79-106 | helper for the proofs: the day depends only on the steps taken |
| RowWalk.FillWeekSame | timetable_extractor.py:74-106 | helper for the proofs: the week depends only on the steps taken |
| RowWalk.RowSteps | timetable_extractor.py:81-106 | the steps of a row are `StepAt` at every cursor, and past the end of the row |
| RowWalk.DaysDistinct | timetable_extractor.py:74 | helper for the proofs: the walk writes five different days |
| RowWalk.StepsOfFit | timetable_extractor.py:81-106 | every step of a row is one a row can produce: an error or a single cell only inside the row, a merge only with a next cell, and every lesson consistent with the subject map |
| RowWalk.TiledCovers | timetable_extractor.py:80-106 | a tiled day has an entry for each period up to 7 |
| RowWalk.FillDayShape | timetable_extractor.py:80-106 | a day keeps what was written before, writes only periods up to 8, and is a run of single entries and pairs of equal double periods; key 8 only as the second half of a pair starting at 7 |
| RowWalk.FillDayConsistent | timetable_extractor.py:94-106 | every lesson the walk writes is consistent: a merged one has a known code and its subject, a single one the subject `parse_cell` gives |
| RowWalk.FillDayCursor | timetable_extractor.py:81-106 | within a day the cursor never moves back and never passes `max(cursor, len(row))` |
| RowWalk.FillDayPastEnd | timetable_extractor.py:81-84 | once the cursor is past the row, every remaining period of the day is `None` and the cursor stays put |
| RowWalk.FreeDay | timetable_extractor.py:81-84 | the free day has periods 1..7, all `None` |
| RowWalk.FillWeekPastEnd | timetable_extractor.py:78-84 | once the cursor is past the row, every remaining day is free and the walk cannot fail |
| RowWalk.FillWeekShape | timetable_extractor.py:74-106 | the week keeps the day names and every day it writes is shaped and consistent |
| RowWalk.FillWeekStep | timetable_extractor.py:78-106 | helper for the proofs: one day of the week: its error ends the walk, otherwise the next day starts at its final cursor |
| RowWalk.FillWeekWellFormed | timetable_extractor.py:74-106 | a completed walk over steps a row can produce is well formed |
| RowWalk.BuildScheduleWellFormed | timetable_extractor.py:74-106 | a walk that completes gives exactly the five days, each shaped and consistent |
| RowWalk.UnmergedDay | timetable_extractor.py:80-106 | the reference day for a row without splits has periods 1..7 |
| RowWalk.NoSplitsSteps | timetable_extractor.py:92-106 | in a row without splits every step reads a single cell |
| RowWalk.FillDayUnsplit | timetable_extractor.py:79-106 | without splits a day reads one cell per period until the row runs out, and the cursor moves by the cells read |
| RowWalk.DayStart | timetable_extractor.py:76 | a day's start cell is never the class-name cell |
| RowWalk.DayStartNext | timetable_extractor.py:76-106 | helper for the proofs: without splits each day starts where the previous one ended |
| RowWalk.UnsplitFrom | timetable_extractor.py:79-106 | without splits a day started at cell `c` holds periods 1..7, period `p` being the parse of cell `c + p - 1`, and leaves the cursor at `min(c + 7, max(c, len(row)))` |
| RowWalk.UnsplitDay | timetable_extractor.py:78-106 | without splits day `d` reads its periods from its start cell and ends at the next day's start cell |
| RowWalk.UnsplitDays | timetable_extractor.py:78-106 | without splits each day reads its periods from its start cell and ends at the next day's start cell |
| RowWalk.FillWeekUnsplit | timetable_extractor.py:74-106 | without splits the week reads each day from its start cell |
| RowWalk.ReadsDay | timetable_extractor.py:76-106 | such a day reads cells `7d+1` to `7d+7`, `None` past the end of the row |
| RowWalk.ReadsUnmerged | timetable_extractor.py:76-106 | such a day is the reference day |
| RowWalk.BuildScheduleUnsplit | timetable_extractor.py:74-106 | a row without splits never fails, and day `d`, period `p` is the parse of cell `7d+p`, or `None` past the row |
| Repair.Joined | timetable_extractor.py:238-246 | the joined lesson has the combined code, which is a two-character key, the room of the first period, the key's subject, and is a double period |
| Repair.CanJoin | timetable_extractor.py:225-239 | the tests before a join at `p`: `p < 7`, the lesson at `p` has an unknown one-character code, the lesson at `p + 1` a one-character code, and the two together are a key |
| Repair.FixDay | timetable_extractor.py:223-250 | the while loop over one day's periods computes `RepairDay` from period 1 |
| Repair.RepairDay | timetable_extractor.py:223-250 | the reference definition of the repair of one day from `p`: a joinable pair is overwritten by its joined lesson at both periods and the walk goes on at `p + 2`; otherwise it goes on at `p + 1`; it stops after period 7 |
| Repair.ValidateWithSubjectMap | timetable_extractor.py:215-251 | the pass over the five days computes `Repaired` |
| Repair.Repaired | timetable_extractor.py:220-251 | the reference definition of the pass: every day of the schedule replaced by its repair from period 1 |
| Repair.CanJoinReads | timetable_extractor.py:225-239 | whether a pair can be joined at `p`, and the joined lesson, depend only on periods `p` and `p + 1` |
| Repair.RepairFrame | timetable_extractor.py:224-250 | the repair keeps the periods present, leaves earlier periods alone, and at `p` writes the joined lesson exactly when the pair can be joined |
| Repair.AtUpdate | timetable_extractor.py:247-248 | helper for the proofs: writing a period changes `get` for that period only |
| Repair.RepairChanges | timetable_extractor.py:224-250 | only joinable pairs change, judged on the day as it was: each changed entry holds the joined lesson of the pair starting there or one period before; all other entries, key 8 included, stay |
| Repair.RepairNothing | timetable_extractor.py:224-250 | a day with no joinable pair is left unchanged |
| Repair.JoinedStaysPut | timetable_extractor.py:231 | a lesson with a known code cannot start or end a join |
| Repair.RepairLeavesNoJoin | timetable_extractor.py:224-250 | after the repair from `p`, no pair from `p` on can be joined |
| Repair.RepairDayLeavesNoJoin | timetable_extractor.py:222-250 | after repairing a day, no pair in it can be joined |
| Repair.RepairDayIdempotent | timetable_extractor.py:222-250 | repairing a repaired day changes nothing |
| Repair.RepairConsistent | timetable_extractor.py:241-248 | the repair writes only consistent lessons |
| Repair.TiledFrame | timetable_extractor.py:80-106 | whether a day is tiled from `p` depends only on periods from `p` on |
| Repair.DoubleStaysPut | timetable_extractor.py:231 | a double period the walk wrote cannot start or end a join |
| Repair.RepairTiled | timetable_extractor.py:224-250 | the repair keeps a consistent day tiled: a joined pair of single periods becomes one double-period pair |
| Repair.RepairDayShape | timetable_extractor.py:222-250 | the repair keeps the shape and consistency of a day the walk built |
| Repair.EachDayDays | timetable_extractor.py:222-250 | the pass over the days keeps the day names and replaces each day by its repair, and nothing else |
| Repair.RepairedDays | timetable_extractor.py:215-251 | `validate_with_subject_map` keeps the day names and repairs each day on its own |
| Repair.EachDayWellFormed | timetable_extractor.py:222-250 | a pass that keeps every day's shape keeps the schedule well formed |
| Repair.RepairedWellFormed | timetable_extractor.py:109 | a walked schedule is still well formed after the repair |
| Repair.RepairedNothing | timetable_extractor.py:215-251 | a schedule with no joinable pair is returned unchanged |
| Repair.RepairedLeavesNoJoin | timetable_extractor.py:215-251 | after the repair, no day has a joinable pair |
| Repair.RepairedIdempotent | timetable_extractor.py:215-251 | running the repair a second time changes nothing |
| Extractor.MarkerFrom | timetable_extractor.py:62-65 | the result is the first row from `i` holding a truthy cell that contains `1.PMG`, or `None` when there is none |
| Extractor.MarksClass | timetable_extractor.py:63 | `cell and '1.PMG' in str(cell)` for one cell |
| Extractor.HasMarker | timetable_extractor.py:63 | `row and any(...)`: a non-empty row with a cell that holds `1.PMG` |
| Extractor.FindMarkerRow | timetable_extractor.py:61-65 | the loop finds the first marked row, `None` exactly when no row is marked |
| Extractor.ExtractSchedule | timetable_extractor.py:26-111 | from the two table extractions on, `extract_schedule` computes `Extract` |
| Extractor.Choose | timetable_extractor.py:50-54 | the table worked on: the first extraction unless it is empty or missing, then the second one |
| Extractor.Extract | timetable_extractor.py:50-111 | the reference definition of `extract_schedule` after the page is read: `None` without a table or a marked row, the `ValueError` of the walk, otherwise the repaired walk of the first marked row |
| Extractor.ExtractNone | timetable_extractor.py:53-69 | the result is `None` exactly when no table is found or no row is marked |
| Extractor.ExtractRaises | timetable_extractor.py:71-106 | it raises exactly when the walk over the first marked row raises |
| Extractor.ExtractWellFormed | timetable_extractor.py:26-111 | a returned schedule has exactly the five days, each covering periods 1..7 with single entries and double-period pairs, every lesson consistent with the subject map, and no joinable pair left |

## Left out

- Opening the PDF and `page.extract_table` (lines 39-51): these are calls
  into `pdfplumber`. The two extraction results are inputs of
  `Extractor.ExtractSchedule`.
- The `print` calls for "no table" and "row not found": these are output,
  and only the `None` result is modelled.
- `return_schedule_as_json`, the download, `json.dumps` and the main block,
  and all of `timetable_fetcher.py`: these are network access and
  serialisation.
- PyStr.ParseInt: does not accept the non-ASCII Unicode decimal digits that
  Python's `int()` also reads, because they would need Unicode tables. A
  room text written with them fails in the model where Python succeeds.
  It also skips the whole `str.isspace` set around the number, where
  CPython's `int()` skips only ASCII whitespace, so `int('\x1c5')` raises
  in Python and gives 5 here; and it has no limit on the number of digits,
  where CPython 3.11 and later raise above 4300. Neither case reaches
  `is_split_cell`, whose room halves are already stripped and short.
- Dictionaries updated in place (`schedule[day][period] = ...`) are maps
  that are reassigned. `merged.copy()` is the same value written twice,
  because lessons are values here and nothing checks object identity.
- A day is one map reassigned by `Repair.FixDay`, not an entry of
  `schedule` that is edited in place. This changes nothing, because each
  iteration reads and writes only its own day.
- Repair.ValidateWithSubjectMap: requires all five day names in the
  schedule. The source would raise `KeyError` otherwise, and its only caller
  always passes all five.
- `SUBJECT_MAP` is modelled as two parallel sequences, keys and values,
  searched in order. `Registry.LookupEntries` and `Registry.CodesDistinct`
  show this is the same dictionary.
- `RowWalk.WalkDay`, `RowWalk.WalkWeek` and `RowWalk.ReadStep` split the one
  nested loop of `extract_schedule` into three methods. They carry a ghost
  step function that they only use for proofs.
