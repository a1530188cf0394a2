/**
 The `POST /save-attendance` handler: one attendance row per enrolled student
 for the submitted date and session type, with a status derived from the
 marked ids and the mode, and hours credited only when present. Rows are only
 ever appended.
 */
module Recorder {
  import opened Strings
  import opened Schema

  /** The only `mode` value under which the marked students are the present ones;
      every other value, `"absent"` included, inverts the marking. */
  const PresentMode: string := "present"

  /** Status of student `id`: `marked` is the `presentStudents` list of the
      request body, matched against `id.toString()`. */
  function StatusFor(mode: string, marked: seq<string>, id: nat): Status {
    var hit := NatToString(id) in marked;
    if mode == PresentMode then
      if hit then Present else Absent
    else
      if hit then Absent else Present
  }

  function RecordFor(id: nat, date: string, sessionType: string, marked: seq<string>, mode: string): AttendanceRecord {
    var status := StatusFor(mode, marked, id);
    AttendanceRecord(id, date, sessionType, status, HoursFor(status))
  }

  /** The rows inserted for one submission, one per id of `enrolled`, in the order given. */
  function Record(enrolled: seq<nat>, date: string, sessionType: string, marked: seq<string>, mode: string)
    : (r: seq<AttendanceRecord>)
    ensures |r| == |enrolled|
    ensures forall i :: 0 <= i < |r| ==>
      r[i].studentId == enrolled[i] && r[i].date == date && r[i].sessionType == sessionType
    ensures forall i :: 0 <= i < |r| ==> Credited(r[i])
    ensures forall i :: 0 <= i < |r| ==>
      (r[i].status == Present <==> (mode == PresentMode <==> NatToString(enrolled[i]) in marked))
  {
    seq(|enrolled|, i requires 0 <= i < |enrolled| => RecordFor(enrolled[i], date, sessionType, marked, mode))
  }

  /** The handler against `db`: the new rows are appended, taking the
      students in the order the model stores them (the query itself fixes no
      order); nothing already stored is touched. */
  function SaveAttendance(db: Db, date: string, sessionType: string, marked: seq<string>, mode: string): (r: Db)
    ensures r.students == db.students
    ensures |r.attendance| == |db.attendance| + |db.students|
    ensures r.attendance[..|db.attendance|] == db.attendance
    ensures r.attendance[|db.attendance|..] == Record(Ids(db.students), date, sessionType, marked, mode)
  {
    var added := Record(Ids(db.students), date, sessionType, marked, mode);
    assert (db.attendance + added)[|db.attendance|..] == added;
    Db(db.students, db.attendance + added)
  }

  /** Any mode other than `"present"` (a typo, a missing field) behaves exactly like `"absent"`. */
  lemma OtherModesActAsAbsent(enrolled: seq<nat>, date: string, sessionType: string, marked: seq<string>, mode: string)
    requires mode != PresentMode
    ensures Record(enrolled, date, sessionType, marked, mode) == Record(enrolled, date, sessionType, marked, "absent")
  {
  }

  /** The two modes give every student opposite statuses for the same marking. */
  lemma ModesInvert(enrolled: seq<nat>, date: string, sessionType: string, marked: seq<string>)
    ensures forall i :: 0 <= i < |enrolled| ==>
      Record(enrolled, date, sessionType, marked, PresentMode)[i].status
      != Record(enrolled, date, sessionType, marked, "absent")[i].status
  {
  }

  /** The point of the two modes: submitting the present list in `"present"`
      mode and the complementary absent list in `"absent"` mode stores the same rows. */
  lemma ComplementaryMarkingsAgree(enrolled: seq<nat>, date: string, sessionType: string, presentList: seq<string>, absentList: seq<string>)
    requires forall i :: 0 <= i < |enrolled| ==>
      (NatToString(enrolled[i]) in presentList <==> NatToString(enrolled[i]) !in absentList)
    ensures Record(enrolled, date, sessionType, presentList, PresentMode)
         == Record(enrolled, date, sessionType, absentList, "absent")
  {
  }

  /** Marking one id in `"present"` mode makes exactly the students with that id present. */
  lemma {:induction false} SingleMarkSelectsOneId(enrolled: seq<nat>, date: string, sessionType: string, id: nat)
    ensures forall i :: 0 <= i < |enrolled| ==>
      (Record(enrolled, date, sessionType, [NatToString(id)], PresentMode)[i].status == Present <==> enrolled[i] == id)
  {
    forall i | 0 <= i < |enrolled|
      ensures NatToString(enrolled[i]) in [NatToString(id)] <==> enrolled[i] == id
    {
      if NatToString(enrolled[i]) == NatToString(id) {
        NatToStringInjective(enrolled[i], id);
      }
    }
  }

  /** A mark with a leading zero, such as `"07"`, never equals `id.toString()`:
      if every mark looks like that, `"present"` mode marks everyone absent. */
  lemma PaddedMarksMatchNobody(enrolled: seq<nat>, date: string, sessionType: string, marked: seq<string>)
    requires forall m :: m in marked ==> |m| > 1 && m[0] == '0'
    ensures forall i :: 0 <= i < |enrolled| ==>
      Record(enrolled, date, sessionType, marked, PresentMode)[i].status == Absent
  {
  }
}
