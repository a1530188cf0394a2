/**
 The `GET /attendance-report` handler: for every student (a LEFT JOIN, so
 students without rows are included) the number of present rows, the hours
 summed over present rows, the number of distinct dates with any row, and the
 percentage present over distinct dates, rows ordered by roll number.
 */
module Report {
  import opened Strings
  import opened Sorting
  import opened Schema
  import opened Recorder
  import opened Roster

  /** The aggregates of one group: `present_days`, `total_hours`, the set
      behind `COUNT(DISTINCT a.date)`, and the number of joined rows. */
  datatype Totals = Totals(present: nat, hours: int, dates: set<string>, count: nat)

  /** The group of student `id`, folded over the attendance rows in table order. */
  function Tally(records: seq<AttendanceRecord>, id: nat): (t: Totals)
    ensures t.present <= t.count
    ensures |t.dates| <= t.count
    ensures t.count == 0 ==> t.present == 0 && t.hours == 0
    decreases |records|
  {
    if |records| == 0 then Totals(0, 0, {}, 0)
    else Add(Tally(records[..|records| - 1], id), records[|records| - 1], id)
  }

  /** One joined row added to the group of student `id`; rows of other students are ignored. */
  function Add(t: Totals, a: AttendanceRecord, id: nat): Totals {
    if a.studentId != id then t
    else if a.status == Present then Totals(t.present + 1, t.hours + a.hours, t.dates + {a.date}, t.count + 1)
    else Totals(t.present, t.hours, t.dates + {a.date}, t.count + 1)
  }

  lemma IndicesSnoc(records: seq<AttendanceRecord>, id: nat)
    requires |records| > 0
    ensures var n := |records|;
      var prefix := records[..n - 1];
      var a := records[n - 1];
      && RecordIndices(records, id)
         == RecordIndices(prefix, id) + (if a.studentId == id then {n - 1} else {})
      && PresentIndices(records, id)
         == PresentIndices(prefix, id) + (if a.studentId == id && a.status == Present then {n - 1} else {})
      && RecordedDates(records, id)
         == RecordedDates(prefix, id) + (if a.studentId == id then {a.date} else {})
      && n - 1 !in RecordIndices(prefix, id)
      && n - 1 !in PresentIndices(prefix, id)
  {
  }

  /** Adding up present hours from the front agrees with adding the last row on at the end. */
  lemma {:induction false} PresentHoursSnoc(records: seq<AttendanceRecord>, id: nat)
    requires |records| > 0
    ensures var a := records[|records| - 1];
      PresentHours(records, id)
      == PresentHours(records[..|records| - 1], id) + (if a.studentId == id && a.status == Present then a.hours else 0)
    decreases |records|
  {
    if |records| > 1 {
      var tail := records[1..];
      PresentHoursSnoc(tail, id);
      assert tail[..|tail| - 1] == records[..|records| - 1][1..];
    }
  }

  /** The fold computes what the SQL aggregates denote: the count of the
      student's present rows, the hours summed over them, the count of all the
      student's rows, and the set of distinct dates among them. */
  lemma {:induction false} TallyMatchesGroup(records: seq<AttendanceRecord>, id: nat)
    ensures Tally(records, id).count == |RecordIndices(records, id)|
    ensures Tally(records, id).present == |PresentIndices(records, id)|
    ensures Tally(records, id).hours == PresentHours(records, id)
    ensures Tally(records, id).dates == RecordedDates(records, id)
    decreases |records|
  {
    if |records| > 0 {
      TallyMatchesGroup(records[..|records| - 1], id);
      IndicesSnoc(records, id);
      PresentHoursSnoc(records, id);
    }
  }

  /** Aggregates over two batches of rows stored one after the other. */
  function Combine(x: Totals, y: Totals): Totals {
    Totals(x.present + y.present, x.hours + y.hours, x.dates + y.dates, x.count + y.count)
  }

  lemma CombineAdd(x: Totals, y: Totals, a: AttendanceRecord, id: nat)
    ensures Combine(x, Add(y, a, id)) == Add(Combine(x, y), a, id)
  {
  }

  lemma {:induction false} TallyAppend(a: seq<AttendanceRecord>, b: seq<AttendanceRecord>, id: nat)
    ensures Tally(a + b, id) == Combine(Tally(a, id), Tally(b, id))
    decreases |b|
  {
    if |b| == 0 {
      assert a + b == a;
    } else {
      var front := b[..|b| - 1];
      var last := b[|b| - 1];
      var ab := a + b;
      assert ab[..|ab| - 1] == a + front && ab[|ab| - 1] == last;
      assert Tally(ab, id) == Add(Tally(a + front, id), last, id);
      assert Tally(b, id) == Add(Tally(front, id), last, id);
      TallyAppend(a, front, id);
      CombineAdd(Tally(a, id), Tally(front, id), last, id);
    }
  }

  /** When every row's hours agree with its status, as the recorder writes
      them, `total_hours` is four times `present_days`. */
  lemma {:induction false} CreditedHoursArePerPresentDay(records: seq<AttendanceRecord>, id: nat)
    requires forall i :: 0 <= i < |records| ==> Credited(records[i])
    ensures Tally(records, id).hours == HoursPerSession * Tally(records, id).present
    decreases |records|
  {
    if |records| > 0 {
      CreditedHoursArePerPresentDay(records[..|records| - 1], id);
    }
  }

  /** If no two of the student's rows share a date, every row is its own
      day, so `present_days` cannot exceed `total_days`. */
  lemma {:induction false} OneRowPerDateBoundsPresence(records: seq<AttendanceRecord>, id: nat)
    requires forall i, j :: 0 <= i < j < |records| && records[i].studentId == id && records[j].studentId == id ==>
      records[i].date != records[j].date
    ensures |Tally(records, id).dates| == Tally(records, id).count
    ensures Tally(records, id).present <= |Tally(records, id).dates|
    decreases |records|
  {
    if |records| > 0 {
      var n := |records|;
      var prefix := records[..n - 1];
      OneRowPerDateBoundsPresence(prefix, id);
      TallyMatchesGroup(prefix, id);
      if records[n - 1].studentId == id {
        assert records[n - 1].date !in RecordedDates(prefix, id);
      }
    }
  }

  /** `percentage`: present days over distinct days, times 100, and 0 when
      the student has no recorded day. */
  function Percentage(presentDays: nat, totalDays: nat): (p: real)
    ensures totalDays == 0 ==> p == 0.0
    ensures totalDays > 0 ==> p * totalDays as real == presentDays as real * 100.0
    ensures totalDays > 0 ==> (p <= 100.0 <==> presentDays <= totalDays)
    ensures p >= 0.0
  {
    if totalDays == 0 then 0.0 else (presentDays * 100) as real / totalDays as real
  }

  datatype ReportRow = ReportRow(
    rollNo: string,
    name: string,
    presentDays: nat,
    totalHours: int,
    totalDays: nat,
    percentage: real)

  function RowRoll(r: ReportRow): string {
    r.rollNo
  }

  /** The report line of student `s`. */
  function RowFor(s: Student, records: seq<AttendanceRecord>): (r: ReportRow)
    ensures r.rollNo == s.rollNo && r.name == s.name
    ensures r.presentDays == |PresentIndices(records, s.id)|
    ensures r.totalHours == PresentHours(records, s.id)
    ensures r.totalDays == |RecordedDates(records, s.id)|
    ensures r.presentDays <= |RecordIndices(records, s.id)| && r.totalDays <= |RecordIndices(records, s.id)|
    ensures RecordIndices(records, s.id) == {} ==> r == ReportRow(s.rollNo, s.name, 0, 0, 0, 0.0)
    ensures r.totalDays == 0 ==> r.percentage == 0.0
    ensures r.percentage == Percentage(r.presentDays, r.totalDays)
  {
    var t := Tally(records, s.id);
    TallyMatchesGroup(records, s.id);
    ReportRow(s.rollNo, s.name, t.present, t.hours, |t.dates|, Percentage(t.present, |t.dates|))
  }

  /** The report lines in `students` table order, before sorting. */
  function Rows(students: seq<Student>, records: seq<AttendanceRecord>): seq<ReportRow> {
    seq(|students|, i requires 0 <= i < |students| => RowFor(students[i], records))
  }

  /** The handler against `db`: one line per student, ordered by roll number. */
  function AttendanceReport(db: Db): (r: seq<ReportRow>)
    ensures |r| == |db.students|
    ensures SortedBy(r, RowRoll)
    ensures multiset(r) == multiset(Rows(db.students, db.attendance))
  {
    var rows := Rows(db.students, db.attendance);
    var r := SortBy(rows, RowRoll);
    assert |r| == |multiset(r)| == |multiset(rows)| == |rows|;
    r
  }

  /** Every enrolled student has a line, including one with no attendance rows. */
  lemma ReportCoversEveryStudent(db: Db, s: Student)
    requires s in db.students
    ensures RowFor(s, db.attendance) in AttendanceReport(db)
  {
    var k :| 0 <= k < |db.students| && db.students[k] == s;
    var rows := Rows(db.students, db.attendance);
    assert rows[k] == RowFor(s, db.attendance);
    assert RowFor(s, db.attendance) in multiset(rows);
  }

  /** Every line of the report belongs to an enrolled student. */
  lemma ReportHasOnlyStudents(db: Db, line: ReportRow)
    requires line in AttendanceReport(db)
    ensures exists s :: s in db.students && line == RowFor(s, db.attendance)
  {
    var rows := Rows(db.students, db.attendance);
    assert line in multiset(rows);
    var k :| 0 <= k < |rows| && rows[k] == line;
    assert db.students[k] in db.students;
  }

  /** Recording the same session twice stores two rows for every enrolled
      student: nothing deduplicates a repeated (date, type). */
  lemma ResubmissionDuplicatesRows(db: Db, date: string, sessionType: string, marked: seq<string>, mode: string, s: Student)
    requires DistinctIds(Ids(db.students)) && s in db.students
    ensures var twice := SaveAttendance(SaveAttendance(db, date, sessionType, marked, mode), date, sessionType, marked, mode);
      |RecordIndices(twice.attendance, s.id)| == |RecordIndices(db.attendance, s.id)| + 2
  {
    var added := Record(Ids(db.students), date, sessionType, marked, mode);
    var once := SaveAttendance(db, date, sessionType, marked, mode);
    var twice := SaveAttendance(once, date, sessionType, marked, mode);
    assert once.attendance == db.attendance + added;
    assert twice.attendance == once.attendance + added;
    OneRowPerSubmission(Ids(db.students), date, sessionType, marked, mode, s.id);
    var k :| 0 <= k < |db.students| && db.students[k] == s;
    assert Ids(db.students)[k] == s.id;
    TallyAppend(db.attendance, added, s.id);
    TallyAppend(once.attendance, added, s.id);
    TallyMatchesGroup(added, s.id);
    TallyMatchesGroup(db.attendance, s.id);
    TallyMatchesGroup(twice.attendance, s.id);
  }

  /** One submission stores exactly one row for each enrolled id. */
  lemma OneRowPerSubmission(enrolled: seq<nat>, date: string, sessionType: string, marked: seq<string>, mode: string, id: nat)
    requires DistinctIds(enrolled)
    ensures |RecordIndices(Record(enrolled, date, sessionType, marked, mode), id)| == if id in enrolled then 1 else 0
  {
    var added := Record(enrolled, date, sessionType, marked, mode);
    if id in enrolled {
      var k :| 0 <= k < |enrolled| && enrolled[k] == id;
      assert RecordIndices(added, id) == {k};
    } else {
      assert RecordIndices(added, id) == {};
    }
  }

  /** For rows written by the recorder, a student's `total_hours` is four per present day. */
  lemma RecordedHoursArePerPresentDay(db: Db, date: string, sessionType: string, marked: seq<string>, mode: string, s: Student)
    requires forall i :: 0 <= i < |db.attendance| ==> Credited(db.attendance[i])
    ensures var line := RowFor(s, SaveAttendance(db, date, sessionType, marked, mode).attendance);
      line.totalHours == HoursPerSession * line.presentDays
  {
    var after := SaveAttendance(db, date, sessionType, marked, mode).attendance;
    assert after == db.attendance + Record(Ids(db.students), date, sessionType, marked, mode);
    CreditedHoursArePerPresentDay(after, s.id);
  }

  /** Because `present_days` counts rows and `total_days` counts dates, two
      present sessions on one date give a percentage of 200. */
  lemma TwoSessionsOnOneDateExceedFullAttendance()
    ensures var db := Db([Student(1, "R1", "A")], []);
      var once := SaveAttendance(db, "2024-01-01", "lecture", ["1"], PresentMode);
      var twice := SaveAttendance(once, "2024-01-01", "lab", ["1"], PresentMode);
      var line := RowFor(Student(1, "R1", "A"), twice.attendance);
      line.presentDays == 2 && line.totalDays == 1 && line.percentage == 200.0
  {
    var db := Db([Student(1, "R1", "A")], []);
    var once := SaveAttendance(db, "2024-01-01", "lecture", ["1"], PresentMode);
    var twice := SaveAttendance(once, "2024-01-01", "lab", ["1"], PresentMode);
    assert NatToString(1) == "1";
    var first := AttendanceRecord(1, "2024-01-01", "lecture", Present, 4);
    var second := AttendanceRecord(1, "2024-01-01", "lab", Present, 4);
    assert once.attendance == [first];
    assert twice.attendance == [first, second];
    assert [first, second][..1] == [first];
    assert [first][..0] == [];
    assert Tally([first], 1) == Totals(1, 4, {"2024-01-01"}, 1);
    assert Tally([first, second], 1) == Totals(2, 8, {"2024-01-01"}, 2);
  }

  /** A re-import keeps the attendance table and numbers the new students
      from 1, so rows recorded under an old id are reported for whichever new
      student received that id. */
  lemma ReimportInheritsAttendance(db: Db, rows: seq<Row>, k: int)
    requires 0 <= k < |LoadStudents(db, rows).db.students|
    ensures var after := LoadStudents(db, rows).db;
      Tally(after.attendance, after.students[k].id) == Tally(db.attendance, k + 1)
  {
  }
}
