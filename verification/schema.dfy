/**
 The two tables of the attendance database, `students` and `attendance`, held
 as immutable sequences in insertion (rowid) order, and reference definitions
 over them that the handlers' contracts are stated against.
 */
module Schema {

  /** A row of `students`: `id` is the integer primary key, `roll_no` is unique. */
  datatype Student = Student(id: nat, rollNo: string, name: string)

  /** The `status` column; the recorder writes only these two values. */
  datatype Status = Present | Absent

  /** A row of `attendance`; `studentId` refers to `students.id`. */
  datatype AttendanceRecord = AttendanceRecord(
    studentId: nat,
    date: string,
    sessionType: string,
    status: Status,
    hours: int)

  datatype Db = Db(students: seq<Student>, attendance: seq<AttendanceRecord>)

  /** Hours credited for one session to a student who was present. */
  const HoursPerSession: int := 4

  /** The `id` column, in the order the model stores the students. */
  function Ids(students: seq<Student>): seq<nat> {
    seq(|students|, i requires 0 <= i < |students| => students[i].id)
  }

  /** Hours credited for a status: the fixed allotment when present, none otherwise. */
  function HoursFor(status: Status): int {
    if status == Present then HoursPerSession else 0
  }

  /** The hours column agrees with the status. */
  predicate Credited(a: AttendanceRecord) {
    a.hours == HoursFor(a.status)
  }

  ghost predicate DistinctIds(ids: seq<nat>) {
    forall i, j :: 0 <= i < j < |ids| ==> ids[i] != ids[j]
  }

  /** Positions of the attendance rows that belong to student `id`. */
  ghost function RecordIndices(records: seq<AttendanceRecord>, id: nat): set<int> {
    set i | 0 <= i < |records| && records[i].studentId == id
  }

  /** Positions of the rows of student `id` whose status is present. */
  ghost function PresentIndices(records: seq<AttendanceRecord>, id: nat): set<int> {
    set i | 0 <= i < |records| && records[i].studentId == id && records[i].status == Present
  }

  /** Hours summed over the rows of student `id` whose status is present,
      added up from the first row on. */
  ghost function PresentHours(records: seq<AttendanceRecord>, id: nat): int
    decreases |records|
  {
    if |records| == 0 then 0
    else
      (if records[0].studentId == id && records[0].status == Present then records[0].hours else 0)
      + PresentHours(records[1..], id)
  }

  /** The distinct dates on which student `id` has any row, present or absent. */
  ghost function RecordedDates(records: seq<AttendanceRecord>, id: nat): set<string> {
    set i | 0 <= i < |records| && records[i].studentId == id :: records[i].date
  }
}
