/** The repair pass `validate_with_subject_map`: within each day, a period
    whose one-letter teacher code is unknown and the next period's one-letter
    code together form a known code are rewritten as one double period of
    that code. */
module Repair {
  import opened Wrappers
  import opened Registry
  import opened Cells
  import opened RowWalk

  /** `day.get(p)`: the entry of period `p`, or `None` when there is none. */
  function At(day: Day, p: int): Option<Lesson> {
    if p in day then day[p] else None
  }

  /** `current and current.get('teacher')`: a lesson (a non-empty dictionary,
      so always truthy) with a non-empty teacher code. */
  predicate HasTeacher(slot: Option<Lesson>) {
    slot.Some? && slot.value.teacher != []
  }

  /** The tests of timetable_extractor.py lines 227-239 at period `p`: the
      code at `p` is unknown and one character long, `p` is not the last
      period, the code at `p + 1` is one character long, and together they
      form a known code. */
  predicate CanJoin(day: Day, p: int) {
    && 1 <= p < 7
    && HasTeacher(At(day, p))
    && !Known(At(day, p).value.teacher) && |At(day, p).value.teacher| == 1
    && HasTeacher(At(day, p + 1))
    && |At(day, p + 1).value.teacher| == 1
    && Known(At(day, p).value.teacher + At(day, p + 1).value.teacher)
  }

  /** The lesson written to periods `p` and `p + 1` when they are joined:
      the combined code, the room of period `p`, the subject of the combined
      code, a double period. */
  function Joined(day: Day, p: int): (m: Lesson)
    requires CanJoin(day, p)
    ensures m.doublePeriod && Known(m.teacher) && |m.teacher| == 2
    ensures m.teacher == At(day, p).value.teacher + At(day, p + 1).value.teacher
    ensures m.room == At(day, p).value.room && m.subject == Subject(m.teacher)
  {
    var combined := At(day, p).value.teacher + At(day, p + 1).value.teacher;
    CodesHaveTwoChars(combined);
    Lesson(combined, At(day, p).value.room, Subject(combined), true)
  }

  /** The rest of the repair of one day from period `p`: a joined pair skips
      its second period. */
  function RepairDay(day: Day, p: int): Day
    requires 1 <= p <= 8
    decreases 8 - p
  {
    if p > 7 then day
    else if CanJoin(day, p) then
      var m := Joined(day, p);
      RepairDay(day[p := Some(m)][p + 1 := Some(m)], p + 2)
    else RepairDay(day, p + 1)
  }

  /** The inner loop of `validate_with_subject_map` (timetable_extractor.py
      lines 223-250) on one day's dictionary, rewritten in place there and a
      map reassigned here. */
  method FixDay(day: Day) returns (fixed: Day)
    ensures fixed == RepairDay(day, 1)
  {
    fixed := day;
    var period := 1;
    while period <= 7
      invariant 1 <= period <= 8
      invariant RepairDay(fixed, period) == RepairDay(day, 1)
    {
      var current := At(fixed, period);
      if current.Some? && current.value.teacher != [] {
        var teacher := current.value.teacher;
        if !Known(teacher) && |teacher| == 1 {
          if period < 7 {
            var nextPeriod := At(fixed, period + 1);
            if nextPeriod.Some? && nextPeriod.value.teacher != [] {
              var nextTeacher := nextPeriod.value.teacher;
              if |nextTeacher| == 1 {
                var combined := teacher + nextTeacher;
                if Known(combined) {
                  var merged := Lesson(combined, current.value.room, Subject(combined), true);
                  fixed := fixed[period := Some(merged)];
                  fixed := fixed[period + 1 := Some(merged)];
                  period := period + 1;
                }
              }
            }
          }
        }
      }
      period := period + 1;
    }
  }

  /** The rest of a pass over the week from day index `d` that replaces each
      day by `fix` of it. */
  function EachDay(fix: Day -> Day, s: Schedule, d: nat): Schedule
    requires d <= |Days|
    requires forall k | 0 <= k < |Days| :: Days[k] in s
    decreases |Days| - d
  {
    if d == |Days| then s
    else EachDay(fix, s[Days[d] := fix(s[Days[d]])], d + 1)
  }

  /** The repair of one whole day. */
  function RepairWhole(day: Day): Day {
    RepairDay(day, 1)
  }

  /** What `validate_with_subject_map` returns. */
  function Repaired(s: Schedule): Schedule
    requires forall k | 0 <= k < |Days| :: Days[k] in s
  {
    EachDay(RepairWhole, s, 0)
  }

  /** `validate_with_subject_map` (timetable_extractor.py lines 215-251):
      every day in order, each repaired in place. A day name that is missing
      would raise `KeyError`; the only caller passes a schedule with all of
      them. */
  method ValidateWithSubjectMap(schedule: Schedule) returns (fixed: Schedule)
    requires forall k | 0 <= k < |Days| :: Days[k] in schedule
    ensures fixed == Repaired(schedule)
  {
    fixed := schedule;
    var d := 0;
    while d < |Days|
      invariant 0 <= d <= |Days|
      invariant forall k | 0 <= k < |Days| :: Days[k] in fixed
      invariant EachDay(RepairWhole, fixed, d) == Repaired(schedule)
    {
      var name := Days[d];
      var day := FixDay(fixed[name]);
      fixed := fixed[name := day];
      d := d + 1;
    }
  }

  /** Whether `CanJoin` holds at `p` depends on periods `p` and `p + 1` only. */
  lemma CanJoinReads(day: Day, day': Day, p: int)
    requires At(day, p) == At(day', p) && At(day, p + 1) == At(day', p + 1)
    ensures CanJoin(day, p) == CanJoin(day', p)
    ensures CanJoin(day, p) ==> Joined(day, p) == Joined(day', p)
  {
  }

  /** The repair from `p` keeps the periods, leaves the periods before `p`
      alone, and at `p` writes the joined lesson exactly when `CanJoin` holds
      there. */
  lemma {:induction false} RepairFrame(day: Day, p: int)
    requires 1 <= p <= 8
    ensures RepairDay(day, p).Keys == day.Keys
    ensures forall q | q < p :: At(RepairDay(day, p), q) == At(day, q)
    ensures p <= 7 ==> At(RepairDay(day, p), p) == if CanJoin(day, p) then Some(Joined(day, p)) else At(day, p)
    decreases 8 - p
  {
    if p <= 7 {
      if CanJoin(day, p) {
        var m := Joined(day, p);
        var day' := day[p := Some(m)][p + 1 := Some(m)];
        RepairFrame(day', p + 2);
      } else {
        RepairFrame(day, p + 1);
      }
    }
  }

  /** Period `q` of `r` holds the lesson of the pair joined at `start`. */
  predicate JoinedAt(day: Day, r: Day, start: int, q: int) {
    CanJoin(day, start) && At(r, q) == Some(Joined(day, start))
  }

  /** Writing period `p` changes what `day.get` gives for `p` only. */
  lemma AtUpdate(day: Day, p: int, v: Option<Lesson>, q: int)
    ensures At(day[p := v], q) == if q == p then v else At(day, q)
  {
  }

  /** Only joined pairs change: an entry the repair from `p` rewrites, at or
      after `p`, is the joined lesson of a pair that starts there or one
      period before, and `CanJoin` holds for that pair in the day as it was. */
  lemma {:induction false} RepairChanges(day: Day, p: int)
    requires 1 <= p <= 8
    ensures forall q | At(RepairDay(day, p), q) != At(day, q) ::
      (p <= q && JoinedAt(day, RepairDay(day, p), q, q)) || (p <= q - 1 && JoinedAt(day, RepairDay(day, p), q - 1, q))
    decreases 8 - p
  {
    if p <= 7 {
      if CanJoin(day, p) {
        var m := Joined(day, p);
        var day' := day[p := Some(m)][p + 1 := Some(m)];
        var r := RepairDay(day', p + 2);
        RepairChanges(day', p + 2);
        RepairFrame(day', p + 2);
        forall q | At(r, q) != At(day, q)
          ensures (p <= q && JoinedAt(day, r, q, q)) || (p <= q - 1 && JoinedAt(day, r, q - 1, q))
        {
          AtUpdate(day, p, Some(m), q);
          AtUpdate(day[p := Some(m)], p + 1, Some(m), q);
          if q == p + 1 {
            AtUpdate(day, p, Some(m), p);
            AtUpdate(day[p := Some(m)], p + 1, Some(m), p);
          } else if q != p {
            assert At(r, q) != At(day', q);
            if p + 2 <= q {
              AtUpdate(day, p, Some(m), q + 1);
              AtUpdate(day[p := Some(m)], p + 1, Some(m), q + 1);
              CanJoinReads(day, day', q);
            }
            if p + 2 <= q - 1 {
              AtUpdate(day, p, Some(m), q - 1);
              AtUpdate(day[p := Some(m)], p + 1, Some(m), q - 1);
              CanJoinReads(day, day', q - 1);
            }
          }
        }
      } else {
        RepairChanges(day, p + 1);
      }
    }
  }

  /** A day in which no pair can be joined is left as it is. */
  lemma {:induction false} RepairNothing(day: Day, p: int)
    requires 1 <= p <= 8
    requires forall q :: !CanJoin(day, q)
    ensures RepairDay(day, p) == day
    decreases 8 - p
  {
    if p <= 7 {
      RepairNothing(day, p + 1);
    }
  }

  /** A joined lesson cannot start another join: its code is known and two
      characters long. */
  lemma JoinedStaysPut(day: Day, q: int)
    requires HasTeacher(At(day, q)) && Known(At(day, q).value.teacher)
    ensures !CanJoin(day, q) && !CanJoin(day, q - 1)
  {
    CodesHaveTwoChars(At(day, q).value.teacher);
  }

  /** After the repair from `p` no pair from `p` on can be joined. */
  lemma {:induction false} RepairLeavesNoJoin(day: Day, p: int)
    requires 1 <= p <= 8
    ensures forall q | p <= q :: !CanJoin(RepairDay(day, p), q)
    decreases 8 - p
  {
    var r := RepairDay(day, p);
    if p <= 7 {
      if CanJoin(day, p) {
        var m := Joined(day, p);
        var day' := day[p := Some(m)][p + 1 := Some(m)];
        RepairLeavesNoJoin(day', p + 2);
        RepairFrame(day', p + 2);
        JoinedStaysPut(r, p);
        JoinedStaysPut(r, p + 1);
      } else {
        RepairLeavesNoJoin(day, p + 1);
        RepairFrame(day, p + 1);
        if p + 1 <= 7 && CanJoin(day, p + 1) {
          JoinedStaysPut(r, p + 1);
        } else {
          CanJoinReads(day, r, p);
        }
      }
    }
  }

  /** After the repair of a day no pair can be joined. */
  lemma RepairDayLeavesNoJoin(day: Day)
    ensures forall q :: !CanJoin(RepairDay(day, 1), q)
  {
    RepairLeavesNoJoin(day, 1);
  }

  /** Repairing a repaired day changes nothing. */
  lemma RepairDayIdempotent(day: Day)
    ensures RepairDay(RepairDay(day, 1), 1) == RepairDay(day, 1)
  {
    RepairDayLeavesNoJoin(day);
    RepairNothing(RepairDay(day, 1), 1);
  }

  /** Every lesson the repair writes satisfies `LessonOk`. */
  lemma {:induction false} RepairConsistent(day: Day, p: int)
    requires 1 <= p <= 8
    requires Consistent(day)
    ensures Consistent(RepairDay(day, p))
    decreases 8 - p
  {
    if p <= 7 {
      if CanJoin(day, p) {
        var m := Joined(day, p);
        RepairConsistent(day[p := Some(m)][p + 1 := Some(m)], p + 2);
      } else {
        RepairConsistent(day, p + 1);
      }
    }
  }

  /** Whether a day is tiled from `p` depends on the periods from `p` on only. */
  lemma {:induction false} TiledFrame(d1: Day, d2: Day, p: int)
    requires 1 <= p <= 9
    requires forall q | q >= p :: (q in d1 <==> q in d2) && At(d1, q) == At(d2, q)
    ensures Tiled(d1, p) == Tiled(d2, p)
    decreases 9 - p
  {
    if p <= 7 {
      assert At(d1, p) == At(d2, p) && At(d1, p + 1) == At(d2, p + 1);
      TiledFrame(d1, d2, p + 1);
      if p <= 6 {
        TiledFrame(d1, d2, p + 2);
      }
    }
  }

  /** A lesson the walk wrote as a double period cannot be joined, at either
      end of a pair. */
  lemma DoubleStaysPut(day: Day, q: int)
    requires q in day && IsDouble(day[q]) && LessonOk(day[q].value)
    ensures !CanJoin(day, q) && !CanJoin(day, q - 1)
  {
    JoinedStaysPut(day, q);
  }

  /** The repair keeps a consistent day tiled: a joined pair consists of two
      single periods and becomes one double-period pair. */
  lemma {:induction false} RepairTiled(day: Day, p: int)
    requires 1 <= p <= 8
    requires Tiled(day, p) && Consistent(day)
    ensures Tiled(RepairDay(day, p), p)
    decreases 8 - p
  {
    if p <= 7 {
      if IsDouble(day[p]) {
        DoubleStaysPut(day, p);
        if p + 1 <= 7 {
          DoubleStaysPut(day, p + 1);
          RepairTiled(day, p + 2);
          RepairFrame(day, p + 2);
          var r := RepairDay(day, p + 2);
          assert At(r, p) == At(day, p) && At(r, p + 1) == At(day, p + 1);
        }
      } else if CanJoin(day, p) {
        var m := Joined(day, p);
        var day' := day[p := Some(m)][p + 1 := Some(m)];
        if IsDouble(day[p + 1]) {
          CodesHaveTwoChars(day[p + 1].value.teacher);
        }
        TiledFrame(day, day', p + 2);
        RepairConsistent(day, p);
        assert Consistent(day') by {
          assert LessonOk(m);
        }
        RepairTiled(day', p + 2);
        RepairFrame(day', p + 2);
        var r := RepairDay(day', p + 2);
        assert At(r, p) == Some(m) && At(r, p + 1) == Some(m);
      } else {
        RepairTiled(day, p + 1);
        RepairFrame(day, p + 1);
        var r := RepairDay(day, p + 1);
        assert At(r, p) == At(day, p);
      }
    }
  }

  /** The repair keeps the shape and the consistency of a day the walk built. */
  lemma RepairDayShape(day: Day)
    requires DayShape(day) && Consistent(day)
    ensures DayShape(RepairDay(day, 1)) && Consistent(RepairDay(day, 1))
  {
    RepairFrame(day, 1);
    RepairTiled(day, 1);
    RepairConsistent(day, 1);
  }

  /** The rest of a pass over the week from `d` keeps the day names, leaves
      the days before `d` and any entry that is not a day name alone, and
      replaces each of the days from `d` on by `fix` of it. */
  lemma {:induction false} EachDayDays(fix: Day -> Day, s: Schedule, d: nat)
    requires d <= |Days|
    requires forall k | 0 <= k < |Days| :: Days[k] in s
    ensures EachDay(fix, s, d).Keys == s.Keys
    ensures forall k | 0 <= k < d :: EachDay(fix, s, d)[Days[k]] == s[Days[k]]
    ensures forall k | d <= k < |Days| :: EachDay(fix, s, d)[Days[k]] == fix(s[Days[k]])
    ensures forall name | name in s && name !in Days :: EachDay(fix, s, d)[name] == s[name]
    decreases |Days| - d
  {
    if d < |Days| {
      DaysDistinct();
      EachDayDays(fix, s[Days[d] := fix(s[Days[d]])], d + 1);
    }
  }

  /** `validate_with_subject_map` keeps the day names and repairs each day on
      its own. */
  lemma RepairedDays(s: Schedule)
    requires forall k | 0 <= k < |Days| :: Days[k] in s
    ensures Repaired(s).Keys == s.Keys
    ensures forall k | 0 <= k < |Days| :: Repaired(s)[Days[k]] == RepairDay(s[Days[k]], 1)
    ensures forall name | name in s && name !in Days :: Repaired(s)[name] == s[name]
  {
    EachDayDays(RepairWhole, s, 0);
  }

  /** A pass that keeps every day's shape and consistency keeps a schedule
      well formed. */
  lemma EachDayWellFormed(fix: Day -> Day, s: Schedule)
    requires WellFormed(s)
    requires forall day | DayShape(day) && Consistent(day) :: DayShape(fix(day)) && Consistent(fix(day))
    ensures WellFormed(EachDay(fix, s, 0))
  {
    EachDayDays(fix, s, 0);
  }

  /** A schedule the walk built is still well formed after the repair. */
  lemma RepairedWellFormed(s: Schedule)
    requires WellFormed(s)
    ensures WellFormed(Repaired(s))
  {
    forall day | DayShape(day) && Consistent(day)
      ensures DayShape(RepairWhole(day)) && Consistent(RepairWhole(day))
    {
      RepairDayShape(day);
    }
    EachDayWellFormed(RepairWhole, s);
  }

  /** A schedule with no pair left to join is returned as it is. */
  lemma RepairedNothing(s: Schedule)
    requires forall k | 0 <= k < |Days| :: Days[k] in s
    requires forall k, q | 0 <= k < |Days| :: !CanJoin(s[Days[k]], q)
    ensures Repaired(s) == s
  {
    RepairedDays(s);
    forall k | 0 <= k < |Days| ensures Repaired(s)[Days[k]] == s[Days[k]] {
      RepairNothing(s[Days[k]], 1);
    }
    assert forall name | name in s :: Repaired(s)[name] == s[name];
  }

  /** After the repair no day has a pair left to join. */
  lemma RepairedLeavesNoJoin(s: Schedule)
    requires forall k | 0 <= k < |Days| :: Days[k] in s
    ensures forall k | 0 <= k < |Days| :: Days[k] in Repaired(s)
    ensures forall k, q | 0 <= k < |Days| :: !CanJoin(Repaired(s)[Days[k]], q)
  {
    RepairedDays(s);
    forall k | 0 <= k < |Days| ensures forall q :: !CanJoin(Repaired(s)[Days[k]], q) {
      RepairDayLeavesNoJoin(s[Days[k]]);
    }
  }

  /** Running `validate_with_subject_map` twice is running it once. */
  lemma RepairedIdempotent(s: Schedule)
    requires forall k | 0 <= k < |Days| :: Days[k] in s
    ensures forall k | 0 <= k < |Days| :: Days[k] in Repaired(s)
    ensures Repaired(Repaired(s)) == Repaired(s)
  {
    RepairedLeavesNoJoin(s);
    RepairedNothing(Repaired(s));
  }
}
