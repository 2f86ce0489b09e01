/** Reading one timetable cell (`parse_cell`), deciding whether two adjacent
    cells are the halves of one double-period cell (`is_split_cell`), and
    combining such halves (`merge_cells`). A cell is the text the table
    extractor produced for it, or `None`; its first line is a teacher code and
    its second line a room. */
module Cells {
  import opened Wrappers
  import opened PyStr
  import opened Registry

  type Cell = Option<string>

  /** The lesson record `{teacher, room, subject, double_period}`. */
  datatype Lesson = Lesson(teacher: string, room: string, subject: string, doublePeriod: bool)

  /** The first two lines of a cell: the (half) teacher code and the (half) room. */
  datatype Halves = Halves(code: string, room: string)

  /** Python truthiness of a cell: present and not the empty string. */
  predicate Truthy(cell: Cell) {
    cell.Some? && cell.value != ""
  }

  /** `str(cell)`: the text of a present cell, and `"None"` for an absent one. */
  function Text(cell: Cell): string {
    if cell.Some? then cell.value else "None"
  }

  /** A character of the stripped text is a character of the text. */
  lemma StripKeeps(s: string, c: char)
    ensures c in Strip(s) ==> c in s
  {
    var left := TrimStart(s);
    var r := TrimEnd(left);
    if c in r {
      var k :| 0 <= k < |r| && r[k] == c;
      assert left[k] == c;
      assert s[|s| - |left| + k] == c;
    }
  }

  /** The stripped first line and the stripped second line (`''` when there is
      none) of already-stripped cell text `c`. Neither contains a line break,
      and the code is non-empty whenever `c` is non-empty. */
  function HalvesOf(c: string): (h: Halves)
    ensures '\n' !in h.code && '\n' !in h.room
    ensures c != [] && !IsSpace(c[0]) ==> h.code != []
  {
    LinesHaveNoBreak(c);
    FirstLineNotBlank(c);
    var parts := Split(c, '\n');
    Halves(Strip(parts[0]), if |parts| > 1 then Strip(parts[1]) else "")
  }

  lemma LinesHaveNoBreak(c: string)
    ensures '\n' !in Strip(Split(c, '\n')[0])
    ensures |Split(c, '\n')| > 1 ==> '\n' !in Strip(Split(c, '\n')[1])
  {
    var parts := Split(c, '\n');
    StripKeeps(parts[0], '\n');
    if |parts| > 1 { StripKeeps(parts[1], '\n'); }
  }

  /** The first line of non-empty stripped text has text on it. */
  lemma FirstLineNotBlank(c: string)
    ensures c != [] && !IsSpace(c[0]) ==> Strip(Split(c, '\n')[0]) != []
  {
    if c != [] && !IsSpace(c[0]) {
      var first := Split(c, '\n')[0];
      SplitFirstIsPrefix(c, '\n');
      assert IsSpace('\n');
      assert first[0] == c[0];
    }
  }

  /** `parse_cell`: an absent, empty or blank cell, or one whose stripped text
      has a single line, holds no lesson; otherwise the lesson's teacher is the
      stripped first line, its room the stripped second line, its subject
      `"Multiple"` for a code with a `/`, the mapped subject for a known code
      and `"Unknown"` otherwise, and it is never a double period. */
  function ParseCell(cell: Cell): (r: Option<Lesson>)
    ensures r.Some? <==> cell.Some? && '\n' in Strip(cell.value)
    ensures r.Some? ==> Halves(r.value.teacher, r.value.room) == HalvesOf(Strip(cell.value))
    ensures r.Some? ==> r.value.teacher != [] && !r.value.doublePeriod
    ensures r.Some? && '/' in r.value.teacher ==> r.value.subject == "Multiple"
    ensures r.Some? && '/' !in r.value.teacher && Known(r.value.teacher) ==>
              r.value.subject == Subject(r.value.teacher)
    ensures r.Some? && '/' !in r.value.teacher && !Known(r.value.teacher) ==>
              r.value.subject == "Unknown"
  {
    ParseCellFacts(cell);
    if cell.None? || cell.value == "" || Strip(cell.value) == "" then
      None
    else
      var content := Strip(cell.value);
      if |Split(content, '\n')| >= 2 then
        var h := HalvesOf(content);
        Some(Lesson(h.code, h.room, SubjectOf(h.code), false))
      else
        None
  }

  /** The subject `parse_cell` gives a teacher code: `"Multiple"` for
      alternative teachers, else the mapped subject or `"Unknown"`. */
  function SubjectOf(code: string): string {
    if '/' in code then "Multiple" else Get(code, "Unknown")
  }

  lemma ParseCellFacts(cell: Cell)
    ensures cell.Some? && cell.value == "" ==> Strip(cell.value) == ""
    ensures cell.Some? ==> (|Split(Strip(cell.value), '\n')| >= 2 <==> '\n' in Strip(cell.value))
  {
    if cell.Some? {
      SplitHasTwoParts(Strip(cell.value), '\n');
      if cell.value == "" { StripUnspaced(""); }
    }
  }

  /** `combined_name in SUBJECT_MAP and int(combined_room) in ROOM_NUMBERS`,
      evaluated left to right: the room text is read as an integer only once
      the code is known, and then a room text that is no integer raises. */
  function KnownPair(h1: Halves, h2: Halves): (r: Result<bool, Error>)
    ensures !Known(h1.code + h2.code) ==> r == Success(false)
    ensures r.Failure? <==> Known(h1.code + h2.code) && ParseInt(h1.room + h2.room).Failure?
    ensures r == Success(true) <==>
              Known(h1.code + h2.code) && ParseInt(h1.room + h2.room).Success?
              && 1 <= ParseInt(h1.room + h2.room).value <= 28
  {
    var code := h1.code + h2.code;
    if !Known(code) then Success(false)
    else
      match ParseInt(h1.room + h2.room)
      case Failure(e) => Failure(e)
      case Success(n) => RoomNumbersRange(n); Success(IsRoom(n))
  }

  /** `is_split_cell`: whether two adjacent cells are the two halves of one
      double-period cell. Either cell absent, empty or blank means no. */
  function IsSplitCell(cell1: Cell, cell2: Cell): (r: Result<bool, Error>)
    ensures !Truthy(cell1) || !Truthy(cell2) ==> r == Success(false)
    ensures Truthy(cell1) && Truthy(cell2) && (AllSpace(cell1.value) || AllSpace(cell2.value)) ==>
              r == Success(false)
  {
    if !Truthy(cell1) || !Truthy(cell2) then Success(false)
    else
      var c1 := Strip(cell1.value);
      var c2 := Strip(cell2.value);
      if c1 == "" || c2 == "" then Success(false)
      else HalvesSplit(HalvesOf(c1), HalvesOf(c2))
  }

  /** The two tests of `is_split_cell` on the halves of two non-blank cells:
      first for two one-character codes, then for two codes of at most two
      characters. */
  function HalvesSplit(h1: Halves, h2: Halves): (r: Result<bool, Error>)
    ensures r == Success(true) ==> Known(h1.code + h2.code)
  {
    var singles := if |h1.code| == 1 && |h2.code| == 1 then KnownPair(h1, h2) else Success(false);
    match singles
    case Failure(e) => Failure(e)
    case Success(true) => Success(true)
    case Success(false) =>
      if |h1.code| <= 2 && |h2.code| <= 2 then KnownPair(h1, h2) else Success(false)
  }

  /** The at-most-two-characters test adds nothing to the one-character test:
      every known code has two characters and neither half code is empty. */
  lemma {:induction false} HalvesSplitIsSingleTest(h1: Halves, h2: Halves)
    requires h1.code != [] && h2.code != []
    ensures HalvesSplit(h1, h2) == if |h1.code| == 1 && |h2.code| == 1 then KnownPair(h1, h2) else Success(false)
  {
    if Known(h1.code + h2.code) {
      CodesHaveTwoChars(h1.code + h2.code);
    }
  }

  /** The halves of a truthy, non-blank cell. */
  function CellHalves(cell: Cell): (h: Halves)
    requires Truthy(cell) && !AllSpace(cell.value)
    ensures h.code != []
  {
    HalvesOf(Strip(cell.value))
  }

  /** On two non-blank cells `is_split_cell` is the one-character test. */
  lemma IsSplitCellOnHalves(cell1: Cell, cell2: Cell)
    requires Truthy(cell1) && Truthy(cell2) && !AllSpace(cell1.value) && !AllSpace(cell2.value)
    ensures var h1 := CellHalves(cell1); var h2 := CellHalves(cell2);
      IsSplitCell(cell1, cell2) == if |h1.code| == 1 && |h2.code| == 1 then KnownPair(h1, h2) else Success(false)
  {
    HalvesSplitIsSingleTest(CellHalves(cell1), CellHalves(cell2));
  }

  /** On two non-blank cells `is_split_cell` says yes exactly when both codes
      are one character, the joined code is known and the joined room text
      reads as a room number 1..28; it raises exactly when both codes are one
      character, the joined code is known and the joined room text is not an
      integer. */
  lemma IsSplitCellCharacterised(cell1: Cell, cell2: Cell)
    requires Truthy(cell1) && Truthy(cell2) && !AllSpace(cell1.value) && !AllSpace(cell2.value)
    ensures var h1 := CellHalves(cell1); var h2 := CellHalves(cell2);
      var code := h1.code + h2.code; var room := h1.room + h2.room;
      && (IsSplitCell(cell1, cell2) == Success(true) <==>
            |h1.code| == 1 && |h2.code| == 1 && Known(code)
            && ParseInt(room).Success? && 1 <= ParseInt(room).value <= 28)
      && (IsSplitCell(cell1, cell2).Failure? <==>
            |h1.code| == 1 && |h2.code| == 1 && Known(code) && ParseInt(room).Failure?)
  {
    IsSplitCellOnHalves(cell1, cell2);
  }

  /** `merge_cells`: the joined teacher code and the joined room text (plain
      string concatenation), the subject looked up for the joined code, marked
      as a double period. */
  function MergeCells(cell1: Cell, cell2: Cell): (r: Lesson)
    ensures var h1 := HalvesOf(Strip(Text(cell1))); var h2 := HalvesOf(Strip(Text(cell2)));
      r.teacher == h1.code + h2.code && r.room == h1.room + h2.room
    ensures r.doublePeriod
  {
    var h1 := HalvesOf(Strip(Text(cell1)));
    var h2 := HalvesOf(Strip(Text(cell2)));
    var teacher := h1.code + h2.code;
    Lesson(teacher, h1.room + h2.room, Get(teacher, "Unknown"), true)
  }

  /** `merge_cells` on two present, non-empty cells. */
  lemma MergeOfTruthy(cell1: Cell, cell2: Cell)
    requires Truthy(cell1) && Truthy(cell2)
    ensures var h1 := HalvesOf(Strip(cell1.value)); var h2 := HalvesOf(Strip(cell2.value));
      MergeCells(cell1, cell2) == Lesson(h1.code + h2.code, h1.room + h2.room, Get(h1.code + h2.code, "Unknown"), true)
  {
    assert Text(cell1) == cell1.value && Text(cell2) == cell2.value;
  }

  /** After a split was detected, the merged lesson has a known two-character
      code made of the two one-character halves, the subject of that code
      (never `"Unknown"`), a room text that reads as a room number 1..28, and
      is a double period. */
  lemma {:induction false} MergeAfterSplit(cell1: Cell, cell2: Cell)
    requires IsSplitCell(cell1, cell2) == Success(true)
    ensures Truthy(cell1) && Truthy(cell2) && !AllSpace(cell1.value) && !AllSpace(cell2.value)
    ensures var m := MergeCells(cell1, cell2);
      && Known(m.teacher) && |m.teacher| == 2
      && m.teacher == [CellHalves(cell1).code[0], CellHalves(cell2).code[0]]
      && m.subject == Subject(m.teacher) && m.subject != "Unknown"
      && ParseInt(m.room).Success? && 1 <= ParseInt(m.room).value <= 28
      && m.doublePeriod
  {
    var h1, h2 := CellHalves(cell1), CellHalves(cell2);
    SplitHalves(cell1, cell2);
    MergeOfTruthy(cell1, cell2);
    PairOfSingles(h1.code, h2.code);
    SubjectsAreNotSentinels(h1.code + h2.code);
  }

  lemma PairOfSingles(a: string, b: string)
    requires |a| == 1 && |b| == 1
    ensures a + b == [a[0], b[0]]
  {
  }

  lemma SplitHalves(cell1: Cell, cell2: Cell)
    requires IsSplitCell(cell1, cell2) == Success(true)
    ensures Truthy(cell1) && Truthy(cell2) && !AllSpace(cell1.value) && !AllSpace(cell2.value)
    ensures var h1 := CellHalves(cell1); var h2 := CellHalves(cell2);
      && |h1.code| == 1 && |h2.code| == 1 && Known(h1.code + h2.code)
      && ParseInt(h1.room + h2.room).Success? && 1 <= ParseInt(h1.room + h2.room).value <= 28
  {
    IsSplitCellCharacterised(cell1, cell2);
  }

  /** Text with something on it and no whitespace at either end. */
  predicate Unspaced(s: string) {
    s != [] && !IsSpace(s[0]) && !IsSpace(s[|s| - 1])
  }

  /** A cell written as one line `code`: its halves are the code and no room. */
  lemma OneLineHalves(code: string)
    requires Unspaced(code) && '\n' !in code
    ensures Strip(code) == code && '\n' !in Strip(code)
    ensures HalvesOf(code) == Halves(code, "")
  {
    StripUnspaced(code);
    assert Join([code], '\n') == code;
    SplitJoin([code], '\n');
  }

  /** A cell written as the two lines `code` and `room`: stripping leaves it
      alone and its halves are exactly the code and the room. */
  lemma TwoLineHalves(code: string, room: string)
    requires Unspaced(code) && Unspaced(room) && '\n' !in code && '\n' !in room
    ensures Strip(code + "\n" + room) == code + "\n" + room
    ensures '\n' in code + "\n" + room
    ensures HalvesOf(code + "\n" + room) == Halves(code, room)
  {
    var s := code + "\n" + room;
    assert s[0] == code[0] && s[|s| - 1] == room[|room| - 1];
    StripUnspaced(s);
    assert s[|code|] == '\n';
    assert Join([code, room], '\n') == s;
    SplitJoin([code, room], '\n');
    StripUnspaced(code);
    StripUnspaced(room);
  }

  lemma ParseLinesHalves(s: string, h: Halves)
    requires '\n' in Strip(s) && HalvesOf(Strip(s)) == h
    ensures ParseCell(Some(s)).Some?
    ensures ParseCell(Some(s)).value.teacher == h.code && ParseCell(Some(s)).value.room == h.room
  {
  }

  lemma ParseLinesSubject(s: string, h: Halves)
    requires '\n' in Strip(s) && HalvesOf(Strip(s)) == h
    ensures ParseCell(Some(s)).Some?
    ensures ParseCell(Some(s)).value.subject == SubjectOf(h.code)
  {
    ParseLinesHalves(s, h);
  }

  /** Stripped text of two or more lines parses to the lesson of its halves. */
  lemma {:induction false} ParseLines(s: string, h: Halves)
    requires Strip(s) == s && '\n' in s && HalvesOf(s) == h
    ensures ParseCell(Some(s)) == Some(Lesson(h.code, h.room, SubjectOf(h.code), false))
  {
    ParseLinesHalves(s, h);
    ParseLinesSubject(s, h);
  }

  /** The halves of a two-line cell are its two lines. */
  lemma CellOfTwoLines(code: string, room: string)
    requires Unspaced(code) && Unspaced(room) && '\n' !in code && '\n' !in room
    ensures var cell := Some(code + "\n" + room);
      Truthy(cell) && !AllSpace(cell.value) && CellHalves(cell) == Halves(code, room)
  {
    TwoLineHalves(code, room);
    StrippedCellHalves(code + "\n" + room, Halves(code, room));
  }

  lemma StrippedCellHalves(s: string, h: Halves)
    requires Strip(s) == s && s != [] && HalvesOf(s) == h
    ensures Truthy(Some(s)) && !AllSpace(s) && CellHalves(Some(s)) == h
  {
  }

  /** Writing a lesson's code and room as a two-line cell and parsing it gives
      the lesson back, with the subject `parse_cell` assigns to that code. */
  lemma {:induction false} ParseTwoLines(code: string, room: string)
    requires Unspaced(code) && Unspaced(room) && '\n' !in code && '\n' !in room
    ensures ParseCell(Some(code + "\n" + room)) == Some(Lesson(code, room, SubjectOf(code), false))
  {
    TwoLineHalves(code, room);
    ParseLines(code + "\n" + room, Halves(code, room));
  }

  /** A one-line cell holds no lesson. */
  lemma {:induction false} ParseOneLine(code: string)
    requires Unspaced(code) && '\n' !in code
    ensures ParseCell(Some(code)) == None
  {
    OneLineHalves(code);
  }

  /** The two cells of a known code written as two one-letter halves, each on
      its own line above half of the room text. */
  lemma TwoLineCells(c1: char, c2: char, r1: string, r2: string)
    requires Known([c1, c2])
    requires Unspaced(r1) && Unspaced(r2) && '\n' !in r1 && '\n' !in r2
    ensures var cell1, cell2 := Some([c1] + "\n" + r1), Some([c2] + "\n" + r2);
      && Truthy(cell1) && Truthy(cell2) && !AllSpace(cell1.value) && !AllSpace(cell2.value)
      && CellHalves(cell1) == Halves([c1], r1) && CellHalves(cell2) == Halves([c2], r2)
  {
    KnownCodeHalves(c1, c2);
    CellOfTwoLines([c1], r1);
    CellOfTwoLines([c2], r2);
  }

  /** A known code written as two one-letter halves, each on its own line
      above half of the room: `is_split_cell` reads the halves as a split
      exactly when the joined room text is a room number 1..28, and raises
      exactly when it is no integer. */
  lemma {:induction false} SplitOfTwoLines(c1: char, c2: char, r1: string, r2: string)
    requires Known([c1, c2])
    requires Unspaced(r1) && Unspaced(r2) && '\n' !in r1 && '\n' !in r2
    ensures var cell1, cell2 := Some([c1] + "\n" + r1), Some([c2] + "\n" + r2);
      && (IsSplitCell(cell1, cell2) == Success(true) <==>
            ParseInt(r1 + r2).Success? && 1 <= ParseInt(r1 + r2).value <= 28)
      && (IsSplitCell(cell1, cell2).Failure? <==> ParseInt(r1 + r2).Failure?)
  {
    TwoLineCells(c1, c2, r1, r2);
    PairOfSingles([c1], [c2]);
    IsSplitCellCharacterised(Some([c1] + "\n" + r1), Some([c2] + "\n" + r2));
  }

  /** `merge_cells` on such halves gives the lesson of the joined code in the
      joined room. */
  lemma {:induction false} MergeOfTwoLines(c1: char, c2: char, r1: string, r2: string)
    requires Known([c1, c2])
    requires Unspaced(r1) && Unspaced(r2) && '\n' !in r1 && '\n' !in r2
    ensures MergeCells(Some([c1] + "\n" + r1), Some([c2] + "\n" + r2)) ==
              Lesson([c1, c2], r1 + r2, Subject([c1, c2]), true)
  {
    TwoLineCells(c1, c2, r1, r2);
    PairOfSingles([c1], [c2]);
    MergeOfTruthy(Some([c1] + "\n" + r1), Some([c2] + "\n" + r2));
  }

  /** The letters of a known code, one per cell, are one-line cell texts. */
  lemma KnownCodeHalves(c1: char, c2: char)
    requires Known([c1, c2])
    ensures Unspaced([c1]) && '\n' !in [c1] && Unspaced([c2]) && '\n' !in [c2]
  {
    CodesHaveTwoChars([c1, c2]);
    assert [c1, c2][0] == c1 && [c1, c2][1] == c2;
  }

  /** Two one-letter halves of a known code with no room lines make `int('')`
      raise: the joined room text is empty. */
  lemma {:induction false} SplitWithoutRoomsRaises(c1: char, c2: char)
    requires Known([c1, c2])
    ensures IsSplitCell(Some([c1]), Some([c2])) == Failure(ValueError(""))
  {
    KnownCodeHalves(c1, c2);
    OneLineCell([c1]);
    OneLineCell([c2]);
    IsSplitCellOnHalves(Some([c1]), Some([c2]));
    PairOfSingles([c1], [c2]);
    assert AllSpace("" + "");
  }

  /** The halves of a one-line cell are its line and no room. */
  lemma OneLineCell(code: string)
    requires Unspaced(code) && '\n' !in code
    ensures Truthy(Some(code)) && !AllSpace(code) && CellHalves(Some(code)) == Halves(code, "")
  {
    OneLineHalves(code);
    StrippedCellHalves(code, Halves(code, ""));
  }
}
