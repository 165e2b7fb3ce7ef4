/**
 * The logic of the attendance dashboard: the summary statistics for the
 * selected date and period, the 7 x 8 seat grid, the seat toggle, single
 * and bulk marking. The attendance provider is outside the model: its
 * lookup table for the selected date and period, and its per-date hour
 * totals, are parameters, and a call to it is returned as a value.
 */
module Dashboard {
  import opened Wrappers
  import opened StudentSchema
  import opened StudentSearch

  /** One entry of the attendance lookup table, which is keyed by student id. */
  datatype Mark = Mark(status: string, hours: real)

  datatype TimeRange = TimeRange(startTime: string, endTime: string)

  /** A call of the provider's `markAttendance`. */
  datatype MarkCall = MarkCall(date: string, studentId: string, status: string, period: string, timeRange: Option<TimeRange>)

  /** A call of the provider's `bulkMarkAttendance`. */
  datatype BulkMarkCall = BulkMarkCall(date: string, statuses: map<string, string>, period: string, timeRange: Option<TimeRange>)

  datatype Stats = Stats(present: nat, absent: nat, total: nat, presentPercentage: nat, partialPresent: nat)

  const Present: string := "present"
  const Absent: string := "absent"
  const SeatCount: nat := 56
  const SeatsPerRow: nat := 8
  /** A student counts as partially present with a day total strictly between 0 and this. */
  const FullDayHours: real := 8.0

  function Min(a: int, b: int): (m: int) { if a <= b then a else b }
  function Max(a: int, b: int): (m: int) { if a >= b then a else b }

  /** `getAttendanceStatus`: the recorded status, or "" when the student has no record. */
  function AttendanceStatus(data: map<string, Mark>, studentId: string): (r: string)
    ensures studentId !in data ==> r == ""
    ensures studentId in data ==> r == data[studentId].status
  {
    if studentId in data then data[studentId].status else ""
  }

  /** `getStudentHours`: the recorded hours, or 0 when the student has no record. */
  function StudentHours(data: map<string, Mark>, studentId: string): (r: real)
    ensures studentId !in data ==> r == 0.0
    ensures studentId in data ==> r == data[studentId].hours
  {
    if studentId in data then data[studentId].hours else 0.0
  }

  /** `handleAttendanceChange`: the time range is sent only with a "present" mark. */
  function AttendanceChange(date: string, period: string, timeRange: TimeRange, studentId: string, status: string): (c: MarkCall)
    ensures c.date == date && c.period == period && c.studentId == studentId && c.status == status
    ensures c.timeRange.Some? <==> status == Present
    ensures c.timeRange.Some? ==> c.timeRange.value == timeRange
  {
    MarkCall(date, studentId, status, period, if status == Present then Some(timeRange) else None)
  }

  /**
   * `handleSeatClick`: an empty seat does nothing; an occupied seat is
   * marked "absent" when it is "present" and "present" otherwise.
   */
  function SeatClick(data: map<string, Mark>, date: string, period: string, timeRange: TimeRange, studentId: string): (r: Option<MarkCall>)
    ensures r.None? <==> studentId == ""
    ensures r.Some? ==> r.value.studentId == studentId && r.value.date == date && r.value.period == period
    ensures r.Some? ==> r.value.status == Present || r.value.status == Absent
    ensures r.Some? ==> (r.value.status == Absent <==> AttendanceStatus(data, studentId) == Present)
    ensures r.Some? && studentId !in data ==> r.value.status == Present && r.value.timeRange == Some(timeRange)
  {
    if studentId == "" then None
    else
      var newStatus := if AttendanceStatus(data, studentId) == Present then Absent else Present;
      Some(AttendanceChange(date, period, timeRange, studentId, newStatus))
  }

  /**
   * Clicking a marked seat twice gives its status back, provided the
   * provider records the first click's status.
   */
  lemma SeatClickTwice(data: map<string, Mark>, data': map<string, Mark>, date: string, period: string, timeRange: TimeRange, studentId: string)
    requires studentId != "" && studentId in data
    requires data[studentId].status == Present || data[studentId].status == Absent
    requires studentId in data'
    requires data'[studentId].status == SeatClick(data, date, period, timeRange, studentId).value.status
    ensures SeatClick(data', date, period, timeRange, studentId).value.status == data[studentId].status
  {
  }

  /** The ids whose record in the lookup table has the given status. */
  function KeysWithStatus(data: map<string, Mark>, status: string): (r: set<string>)
    ensures r <= data.Keys
    ensures forall k :: k in r <==> k in data && data[k].status == status
  {
    set k | k in data && data[k].status == status
  }

  /** `Math.round(present / total * 100)` for non-negative integers, without floats. */
  function RoundedPercentage(part: nat, total: nat): (r: nat)
    requires total > 0
    ensures 2 * total * r <= 200 * part + total < 2 * total * (r + 1)
  {
    (200 * part + total) / (2 * total)
  }

  /** Cancelling a positive factor from a strict integer inequality. */
  lemma CancelLess(a: int, x: int, y: int)
    requires a > 0 && a * x < a * y
    ensures x < y
  {
  }

  /**
   * The rounding is to the nearest integer, halves rounding up: the result
   * is within one half of the exact percentage.
   */
  lemma RoundedPercentageNearest(part: nat, total: nat)
    requires total > 0
    ensures var r := RoundedPercentage(part, total) as real;
      r - 0.5 <= 100.0 * part as real / total as real < r + 0.5
  {
    var r := RoundedPercentage(part, total);
    CastProduct(2 * total, r);
    CastProduct(2 * total, r + 1);
    NearestReal(part as real, total as real, r as real);
  }

  lemma CastProduct(a: int, b: int)
    ensures (a * b) as real == a as real * b as real
  {
  }

  lemma NearestReal(p: real, t: real, r: real)
    requires t > 0.0
    requires 2.0 * t * r <= 200.0 * p + t < 2.0 * t * (r + 1.0)
    ensures r - 0.5 <= 100.0 * p / t < r + 0.5
  {
    var e := 100.0 * p / t;
    assert e * t == 100.0 * p;
    assert 2.0 * t * r == 2.0 * (r * t) && 2.0 * t * (r + 1.0) == 2.0 * (r * t) + 2.0 * t;
    assert (r - 0.5) * t == r * t - 0.5 * t && (r + 0.5) * t == r * t + 0.5 * t;
    CancelLessReal(e, r + 0.5, t);
    CancelLessEqReal(r - 0.5, e, t);
  }

  lemma CancelLessReal(x: real, y: real, t: real)
    requires t > 0.0 && x * t < y * t
    ensures x < y
  {
  }

  lemma CancelLessEqReal(x: real, y: real, t: real)
    requires t > 0.0 && x * t <= y * t
    ensures x <= y
  {
  }

  /** A part of a whole is at most 100 percent; all of it is exactly 100. */
  lemma RoundedPercentageBounds(part: nat, total: nat)
    requires total > 0
    ensures part <= total ==> RoundedPercentage(part, total) <= 100
    ensures part == total ==> RoundedPercentage(part, total) == 100
    ensures part == 0 ==> RoundedPercentage(part, total) == 0
  {
    var r := RoundedPercentage(part, total);
    var d := 2 * total;
    if part <= total {
      assert d * r <= 200 * part + total <= 201 * total < d * 101;
      CancelLess(d, r, 101);
    }
    if part == total {
      assert d * 99 < 201 * total < d * (r + 1);
      CancelLess(d, 99, r + 1);
    }
    if part == 0 {
      assert total < d * (r + 1) && d * r <= total < d * 1;
      CancelLess(d, r, 1);
    }
  }

  predicate IsPartial(hours: real)
  {
    0.0 < hours < FullDayHours
  }

  /** The number of roster students whose day total is partial. */
  function CountPartial(students: seq<Student>, totalHours: string -> real): (n: nat)
    ensures n <= |students|
  {
    if |students| == 0 then 0
    else
      var last := |students| - 1;
      CountPartial(students[..last], totalHours) + (if IsPartial(totalHours(students[last].id)) then 1 else 0)
  }

  /** The roster positions of the partially present students. */
  function PartialSeats(students: seq<Student>, totalHours: string -> real): (seats: set<nat>)
  {
    set i: nat | i < |students| && IsPartial(totalHours(students[i].id))
  }

  /** The partial count is the number of roster positions whose day total is partial. */
  lemma {:induction false} CountPartialIsSize(students: seq<Student>, totalHours: string -> real)
    ensures CountPartial(students, totalHours) == |PartialSeats(students, totalHours)|
    decreases |students|
  {
    if |students| > 0 {
      var last := |students| - 1;
      var prefix := students[..last];
      CountPartialIsSize(prefix, totalHours);
      var before := PartialSeats(prefix, totalHours);
      assert PartialSeats(students, totalHours)
          == before + (if IsPartial(totalHours(students[last].id)) then {last} else {});
      assert last !in before;
    }
  }

  /** `calculateStats` for the selected date and period. */
  function CalculateStats(students: seq<Student>, data: map<string, Mark>, totalHours: string -> real): (st: Stats)
    ensures |students| == 0 ==> st == Stats(0, 0, 0, 0, 0)
    ensures |students| > 0 ==>
      && st.total == |students|
      && st.present == |KeysWithStatus(data, Present)|
      && st.absent == |KeysWithStatus(data, Absent)|
      && st.partialPresent == |PartialSeats(students, totalHours)|
      && 2 * st.total * st.presentPercentage <= 200 * st.present + st.total < 2 * st.total * (st.presentPercentage + 1)
  {
    if |students| == 0 then Stats(0, 0, 0, 0, 0)
    else
      var present := |KeysWithStatus(data, Present)|;
      var absent := |KeysWithStatus(data, Absent)|;
      CountPartialIsSize(students, totalHours);
      var partial := CountPartial(students, totalHours);
      var total := |students|;
      Stats(present, absent, total, RoundedPercentage(present, total), partial)
  }

  /**
   * The present and absent counts together never exceed the number of
   * records, and the partial count never exceeds the roster.
   */
  lemma StatsBounds(students: seq<Student>, data: map<string, Mark>, totalHours: string -> real)
    ensures var st := CalculateStats(students, data, totalHours);
      st.present + st.absent <= |data| && st.partialPresent <= st.total
  {
    var p, a := KeysWithStatus(data, Present), KeysWithStatus(data, Absent);
    assert p * a == {};
    assert p + a <= data.Keys;
    SubsetSize(p + a, data.Keys);
    CountPartialIsSize(students, totalHours);
  }

  lemma {:induction false} SubsetSize<T>(a: set<T>, b: set<T>)
    requires a <= b
    ensures |a| <= |b|
  {
    assert b == a + (b - a);
  }

  /** The roster padded with empty seats up to 56 entries. */
  function Padded(students: seq<Student>): (p: seq<Option<Student>>)
    ensures |p| == Max(|students|, SeatCount)
    ensures forall k :: 0 <= k < |students| ==> p[k] == Some(students[k])
    ensures forall k :: |students| <= k < |p| ==> p[k] == None
  {
    seq(|students|, k requires 0 <= k < |students| => Some(students[k]))
      + seq(Max(|students|, SeatCount) - |students|, _ => None)
  }

  /**
   * `getStudentRows`: pad the roster to 56 seats, then cut it into rows of
   * eight. Seat `k` of the padded roster is column `k % 8` of row `k / 8`.
   */
  method GetStudentRows(students: seq<Student>) returns (rows: seq<seq<Option<Student>>>)
    ensures |rows| == (|Padded(students)| + SeatsPerRow - 1) / SeatsPerRow
    ensures forall r :: 0 <= r < |rows| ==>
      rows[r] == Padded(students)[SeatsPerRow * r .. Min(SeatsPerRow * r + SeatsPerRow, |Padded(students)|)]
    ensures forall k :: 0 <= k < |Padded(students)| ==>
      k / SeatsPerRow < |rows| && k % SeatsPerRow < |rows[k / SeatsPerRow]| && rows[k / SeatsPerRow][k % SeatsPerRow] == Padded(students)[k]
    ensures |students| <= SeatCount ==> |rows| == 7 && forall r :: 0 <= r < |rows| ==> |rows[r]| == SeatsPerRow
  {
    var padded := seq(|students|, k requires 0 <= k < |students| => Some(students[k]));
    while |padded| < SeatCount
      invariant |padded| == Max(|students|, |padded|)
      invariant |padded| <= Max(|students|, SeatCount)
      invariant padded == Padded(students)[..|padded|]
      decreases SeatCount - |padded|
    {
      padded := padded + [None];
    }
    assert padded == Padded(students);
    rows := [];
    var i := 0;
    while i < |padded|
      invariant 0 <= i <= |padded| + SeatsPerRow - 1
      invariant i == SeatsPerRow * |rows|
      invariant i < |padded| ==> i % SeatsPerRow == 0
      invariant forall r :: 0 <= r < |rows| ==>
        rows[r] == padded[SeatsPerRow * r .. Min(SeatsPerRow * r + SeatsPerRow, |padded|)]
      decreases |padded| - i
    {
      rows := rows + [padded[i .. Min(i + SeatsPerRow, |padded|)]];
      i := i + SeatsPerRow;
    }
    forall k | 0 <= k < |padded|
      ensures k / SeatsPerRow < |rows| && k % SeatsPerRow < |rows[k / SeatsPerRow]| && rows[k / SeatsPerRow][k % SeatsPerRow] == padded[k]
    {
      var r := k / SeatsPerRow;
      assert SeatsPerRow * r <= k < SeatsPerRow * r + SeatsPerRow;
    }
  }

  /**
   * `handleBulkAttendance`: the status map sent to the provider has exactly
   * the ids of the filtered students as keys, each with the selected status.
   */
  method HandleBulkAttendance(students: seq<Student>, searchTerm: string, date: string, period: string,
                              selectedStatus: string, timeRange: TimeRange) returns (call: BulkMarkCall)
    ensures call.statuses.Keys == FilteredIds(students, searchTerm)
    ensures forall k :: k in call.statuses ==> call.statuses[k] == selectedStatus
    ensures call.date == date && call.period == period
    ensures call.timeRange == if selectedStatus == Present then Some(timeRange) else None
  {
    var filtered := FilteredStudents(students, searchTerm);
    var statuses: map<string, string> := map[];
    var i := 0;
    while i < |filtered|
      invariant 0 <= i <= |filtered|
      invariant statuses.Keys == set s | s in filtered[..i] :: s.id
      invariant forall k :: k in statuses ==> statuses[k] == selectedStatus
    {
      assert filtered[..i + 1] == filtered[..i] + [filtered[i]];
      statuses := statuses[filtered[i].id := selectedStatus];
      i := i + 1;
    }
    assert filtered[..i] == filtered;
    call := BulkMarkCall(date, statuses, period, if selectedStatus == Present then Some(timeRange) else None);
  }

  /** The ids of the filtered students. */
  function FilteredIds(students: seq<Student>, searchTerm: string): (ids: set<string>)
  {
    set s | s in FilteredStudents(students, searchTerm) :: s.id
  }

  /**
   * On a roster with unique ids, bulk marking reaches a roster student
   * exactly when the search matches it, so no other student is touched.
   */
  lemma BulkReachesExactlyMatches(students: seq<Student>, searchTerm: string)
    requires UniqueIds(students)
    ensures forall k :: 0 <= k < |students| ==>
      (students[k].id in FilteredIds(students, searchTerm) <==> Matches(students[k], searchTerm))
  {
    forall k | 0 <= k < |students| && students[k].id in FilteredIds(students, searchTerm)
      ensures Matches(students[k], searchTerm)
    {
      var t :| t in FilteredStudents(students, searchTerm) && t.id == students[k].id;
      var j :| 0 <= j < |students| && students[j] == t;
    }
  }

  /**
   * Each entry of a bulk mark carries what a single mark of that student
   * with the selected status would carry.
   */
  lemma BulkAgreesWithSingle(call: BulkMarkCall, date: string, period: string, selectedStatus: string, timeRange: TimeRange, studentId: string)
    requires call.date == date && call.period == period
    requires call.timeRange == if selectedStatus == Present then Some(timeRange) else None
    requires studentId in call.statuses && call.statuses[studentId] == selectedStatus
    ensures AttendanceChange(date, period, timeRange, studentId, call.statuses[studentId])
      == MarkCall(call.date, studentId, call.statuses[studentId], call.period, call.timeRange)
  {
  }
}
