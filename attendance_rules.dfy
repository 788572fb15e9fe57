/** markAttendance and getAttendanceStats (server/db.ts) on table values: the functions that
    the `Db.Database` methods are specified by, and what holds of them. */
module AttendanceRules {
  import opened Wrappers
  import opened Seqs
  import opened Tables
  import opened Schema
  import Percent

  /** The natural key of an attendance row. */
  function PairOf(a: Attendance): (int, int) {
    (a.trainingId, a.playerId)
  }

  predicate IsPair(a: Row<Attendance>, trainingId: int, playerId: int) {
    a.fields.trainingId == trainingId && a.fields.playerId == playerId
  }

  /** The invariant that only markAttendance keeps: one row per (trainingId, playerId). */
  ghost predicate OneRowPerPair(rows: seq<Row<Attendance>>) {
    UniqueKeys(rows, PairOf)
  }

  /** The `present` flag of the first row of the pair, if there is one. */
  function PresentOf(rows: seq<Row<Attendance>>, trainingId: int, playerId: int): (r: Option<bool>)
    ensures r.None? <==> forall i :: 0 <= i < |rows| ==> !IsPair(rows[i], trainingId, playerId)
  {
    match Lookup(rows, PairOf, (trainingId, playerId))
    case None => None
    case Some(a) => Some(a.present)
  }

  /** The row markAttendance inserts: `present` given, both timestamps now. */
  function NewMark(trainingId: int, playerId: int, present: bool, now: Timestamp): Attendance {
    InsertAttendance(trainingId, playerId, Some(present)).ToRow(now)
  }

  /** `UPDATE attendance SET present = ?`: `updatedAt` (ON UPDATE CURRENT_TIMESTAMP) moves
      only when the flag changes value. */
  function SetPresent(present: bool, now: Timestamp): Attendance -> Attendance {
    (a: Attendance) => if a.present == present then a else a.(present := present, updatedAt := now)
  }

  /** Setting the flag never moves a row to another pair. */
  lemma SetPresentKeepsPairs(rows: seq<Row<Attendance>>, present: bool, now: Timestamp)
    ensures forall i :: 0 <= i < |rows| ==> PairOf(SetPresent(present, now)(rows[i].fields)) == PairOf(rows[i].fields)
  {
  }

  /** SELECT the pair's row LIMIT 1; if found, UPDATE its `present` by id, else INSERT. */
  function Mark(t: Table<Attendance>, trainingId: int, playerId: int, present: bool, now: Timestamp): Table<Attendance> {
    UpsertBy(t, PairOf, (trainingId, playerId), SetPresent(present, now), NewMark(trainingId, playerId, present, now))
  }

  /** With a row for the pair, only that row changes and the table keeps its size: a row that
      already holds `present` stays as it was, any other takes `present` and `updatedAt` now. */
  lemma MarkUpdatesFoundRow(t: Table<Attendance>, trainingId: int, playerId: int, present: bool, now: Timestamp, i: nat)
    requires t.Valid()
    requires FirstIndex(t.rows, HasKey(PairOf, (trainingId, playerId))) == Some(i)
    ensures var r := Mark(t, trainingId, playerId, present, now);
      && |r.rows| == |t.rows| && r.nextId == t.nextId
      && r.rows[i].id == t.rows[i].id && r.rows[i].fields.present == present
      && (t.rows[i].fields.present == present ==> r.rows[i] == t.rows[i])
      && (t.rows[i].fields.present != present ==>
            r.rows[i].fields == t.rows[i].fields.(present := present, updatedAt := now))
      && forall j :: 0 <= j < |t.rows| && j != i ==> r.rows[j] == t.rows[j]
  {
    UpsertByFound(t, PairOf, (trainingId, playerId), SetPresent(present, now), NewMark(trainingId, playerId, present, now), i);
  }

  /** Marking a pair with the flag its row already holds leaves the table exactly as it was,
      `updatedAt` included, since no column changes value. */
  lemma RemarkChangesNothing(t: Table<Attendance>, trainingId: int, playerId: int, present: bool, now: Timestamp)
    requires t.Valid()
    requires PresentOf(t.rows, trainingId, playerId) == Some(present)
    ensures Mark(t, trainingId, playerId, present, now) == t
  {
    var i := FirstIndex(t.rows, HasKey(PairOf, (trainingId, playerId))).value;
    MarkUpdatesFoundRow(t, trainingId, playerId, present, now, i);
    var r := Mark(t, trainingId, playerId, present, now);
    assert r.rows == t.rows;
  }

  /** Without a row for the pair, exactly one row with the given values is appended. */
  lemma MarkAppendsMissingRow(t: Table<Attendance>, trainingId: int, playerId: int, present: bool, now: Timestamp)
    requires forall j :: 0 <= j < |t.rows| ==> !IsPair(t.rows[j], trainingId, playerId)
    ensures Mark(t, trainingId, playerId, present, now).rows
         == t.rows + [Row(t.nextId, Attendance(trainingId, playerId, present, now, now))]
  {
    UpsertByMissing(t, PairOf, (trainingId, playerId), SetPresent(present, now), NewMark(trainingId, playerId, present, now));
  }

  /** From a table with at most one row per pair, `attendance.mark` keeps the table valid and
      one row per pair, and leaves exactly one row for the pair, holding `present`. */
  lemma MarkKeepsOneRowPerPair(t: Table<Attendance>, trainingId: int, playerId: int, present: bool, now: Timestamp)
    requires t.Valid() && OneRowPerPair(t.rows)
    ensures var r := Mark(t, trainingId, playerId, present, now);
      && r.Valid() && OneRowPerPair(r.rows)
      && PresentOf(r.rows, trainingId, playerId) == Some(present)
      && Count(r.rows, HasKey(PairOf, (trainingId, playerId))) == 1
  {
    var r := Mark(t, trainingId, playerId, present, now);
    var change, added := SetPresent(present, now), NewMark(trainingId, playerId, present, now);
    SetPresentKeepsPairs(t.rows, present, now);
    UpsertByKeepsKeysUnique(t, PairOf, (trainingId, playerId), change, added);
    var before := Lookup(t.rows, PairOf, (trainingId, playerId));
    assert Lookup(r.rows, PairOf, (trainingId, playerId)) == Some(if before.Some? then change(before.value) else added);
  }

  /** `attendance.mark` leaves the `present` of every other pair as it was. */
  lemma MarkKeepsOtherPairs(t: Table<Attendance>, trainingId: int, playerId: int, present: bool, now: Timestamp)
    requires t.Valid()
    ensures var r := Mark(t, trainingId, playerId, present, now);
      forall tid, pid :: (tid, pid) != (trainingId, playerId) ==>
        PresentOf(r.rows, tid, pid) == PresentOf(t.rows, tid, pid)
  {
    var r := Mark(t, trainingId, playerId, present, now);
    var change, added := SetPresent(present, now), NewMark(trainingId, playerId, present, now);
    SetPresentKeepsPairs(t.rows, present, now);
    UpsertByKeepsOtherKeys(t, PairOf, (trainingId, playerId), change, added);
    forall tid, pid | (tid, pid) != (trainingId, playerId)
      ensures PresentOf(r.rows, tid, pid) == PresentOf(t.rows, tid, pid)
    {
      assert Lookup(r.rows, PairOf, (tid, pid)) == Lookup(t.rows, PairOf, (tid, pid));
    }
  }

  /** One call of `attendance.mark`, with the time it ran. */
  datatype MarkCall = MarkCall(trainingId: int, playerId: int, present: bool, at: Timestamp)

  /** The calls run one after another. */
  function ApplyMarks(t: Table<Attendance>, calls: seq<MarkCall>): Table<Attendance>
    decreases |calls|
  {
    if calls == [] then t
    else ApplyMarks(Mark(t, calls[0].trainingId, calls[0].playerId, calls[0].present, calls[0].at), calls[1..])
  }

  /** The `present` of the last call for the pair, if any call was for it. */
  function LastPresent(calls: seq<MarkCall>, trainingId: int, playerId: int): Option<bool>
    decreases |calls|
  {
    if calls == [] then None
    else match LastPresent(calls[1..], trainingId, playerId)
      case Some(b) => Some(b)
      case None =>
        if calls[0].trainingId == trainingId && calls[0].playerId == playerId
        then Some(calls[0].present) else None
  }

  /** From a table with at most one row per pair, any sequence of marks keeps the table valid
      and at most one row per pair. */
  lemma {:induction false} ApplyMarksKeepsOneRowPerPair(t: Table<Attendance>, calls: seq<MarkCall>)
    requires t.Valid() && OneRowPerPair(t.rows)
    ensures var r := ApplyMarks(t, calls); r.Valid() && OneRowPerPair(r.rows)
    decreases |calls|
  {
    if calls != [] {
      var c := calls[0];
      MarkKeepsOneRowPerPair(t, c.trainingId, c.playerId, c.present, c.at);
      ApplyMarksKeepsOneRowPerPair(Mark(t, c.trainingId, c.playerId, c.present, c.at), calls[1..]);
    }
  }

  /** After a sequence of marks, a pair's `present` is the last mark's for it, or the
      original value when no call named the pair. */
  lemma {:induction false} ApplyMarksLastWins(t: Table<Attendance>, calls: seq<MarkCall>, trainingId: int, playerId: int)
    requires t.Valid() && OneRowPerPair(t.rows)
    ensures PresentOf(ApplyMarks(t, calls).rows, trainingId, playerId) ==
      match LastPresent(calls, trainingId, playerId)
      case Some(b) => Some(b)
      case None => PresentOf(t.rows, trainingId, playerId)
    decreases |calls|
  {
    if calls != [] {
      var c := calls[0];
      MarkKeepsOneRowPerPair(t, c.trainingId, c.playerId, c.present, c.at);
      MarkKeepsOtherPairs(t, c.trainingId, c.playerId, c.present, c.at);
      ApplyMarksLastWins(Mark(t, c.trainingId, c.playerId, c.present, c.at), calls[1..], trainingId, playerId);
    }
  }

  /** Calling mark twice for the same pair, true then false, leaves one row, with false. */
  lemma TrueThenFalse(t: Table<Attendance>, trainingId: int, playerId: int, at1: Timestamp, at2: Timestamp)
    requires t.Valid() && OneRowPerPair(t.rows)
    ensures var r := Mark(Mark(t, trainingId, playerId, true, at1), trainingId, playerId, false, at2);
      && PresentOf(r.rows, trainingId, playerId) == Some(false)
      && Count(r.rows, HasKey(PairOf, (trainingId, playerId))) == 1
  {
    MarkKeepsOneRowPerPair(t, trainingId, playerId, true, at1);
    MarkKeepsOneRowPerPair(Mark(t, trainingId, playerId, true, at1), trainingId, playerId, false, at2);
  }

  /** `{ total, present, percentage }` as getAttendanceStats returns it. */
  datatype AttendanceStats = AttendanceStats(total: nat, present: nat, percentage: nat)

  const NoStats: AttendanceStats := AttendanceStats(0, 0, 0)

  /** `gte(trainings.date, startDate)` and `lte(trainings.date, endDate)`, each only when given. */
  predicate InRange(date: Timestamp, startDate: Option<Timestamp>, endDate: Option<Timestamp>) {
    (startDate.Some? ==> date >= startDate.value) && (endDate.Some? ==> date <= endDate.value)
  }

  /** getAttendanceStats once a storage handle exists. A given range is used only to ask
      whether any training at all (of any category) falls inside it; the counts are over every
      attendance row of the player, whatever training it belongs to. */
  function Stats(attendance: seq<Row<Attendance>>, trainings: seq<Row<Training>>, playerId: int,
                 startDate: Option<Timestamp>, endDate: Option<Timestamp>): (r: AttendanceStats)
    ensures r.present <= r.total && r.percentage <= 100
    ensures (startDate.Some? || endDate.Some?) &&
            (forall i :: 0 <= i < |trainings| ==> !InRange(trainings[i].fields.date, startDate, endDate))
            ==> r == NoStats
    ensures r.total == 0 ==> r == NoStats
  {
    var trainingsInRange := Count(trainings, (t: Row<Training>) => InRange(t.fields.date, startDate, endDate));
    if (startDate.Some? || endDate.Some?) && trainingsInRange == 0 then NoStats
    else
      var ofPlayer := (a: Row<Attendance>) => a.fields.playerId == playerId;
      var presentOfPlayer := (a: Row<Attendance>) => a.fields.playerId == playerId && a.fields.present;
      var total := Count(attendance, ofPlayer);
      var present := Count(attendance, presentOfPlayer);
      CountMonotone(attendance, presentOfPlayer, ofPlayer);
      AttendanceStats(total, present, Percent.RoundedPercent(present, total))
  }

  /** Without a range, the statistics count every row of the player and the percentage is the
      rounded share of rows marked present. */
  lemma StatsWithoutRange(attendance: seq<Row<Attendance>>, trainings: seq<Row<Training>>, playerId: int)
    ensures var r := Stats(attendance, trainings, playerId, None, None);
      && r.total == |Filter(attendance, (a: Row<Attendance>) => a.fields.playerId == playerId)|
      && r.present == |Filter(attendance, (a: Row<Attendance>) => a.fields.playerId == playerId && a.fields.present)|
      && r.percentage == Percent.RoundedPercent(r.present, r.total)
  {
    CountIsFilterLength(attendance, (a: Row<Attendance>) => a.fields.playerId == playerId);
    CountIsFilterLength(attendance, (a: Row<Attendance>) => a.fields.playerId == playerId && a.fields.present);
  }

  /** The range is never applied to the count: as soon as one training lies in the range, the
      result is the statistics over all of the player's rows. */
  lemma StatsIgnoreRange(attendance: seq<Row<Attendance>>, trainings: seq<Row<Training>>, playerId: int,
                         startDate: Option<Timestamp>, endDate: Option<Timestamp>, k: nat)
    requires k < |trainings| && InRange(trainings[k].fields.date, startDate, endDate)
    ensures Stats(attendance, trainings, playerId, startDate, endDate) == Stats(attendance, trainings, playerId, None, None)
  {
  }

  /** A player whose rows all lie outside the range is still counted in full: one training in
      January, one row of the player for a training in March, and a January range give 1 of 1. */
  lemma StatsCountRowsOutsideRange()
    ensures var january := Row(1, Training(10, U13, None, None, 1, 0, 0));
      var march := Row(2, Training(70, U13, None, None, 1, 0, 0));
      var row := Row(1, Attendance(2, 7, true, 0, 0));
      Stats([row], [january, march], 7, Some(0), Some(31)) == AttendanceStats(1, 1, 100)
  {
    var january := Row(1, Training(10, U13, None, None, 1, 0, 0));
    var march := Row(2, Training(70, U13, None, None, 1, 0, 0));
    StatsIgnoreRange([Row(1, Attendance(2, 7, true, 0, 0))], [january, march], 7, Some(0), Some(31), 0);
  }
}
