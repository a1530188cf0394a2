/**
 The roster import (`loadStudentsFromCSV`): clear the `students` table, scan
 the parsed lines of the roll list, skip lines lacking a roll number or a name,
 insert the first line for each roll number and report later ones as
 duplicates, then read the table back ordered by roll number.
 */
module Roster {
  import opened Wrappers
  import opened Sorting
  import opened Schema

  /** One parsed line of the roll list: the cells under the `RegdNo` and
      `NameoftheStudent` headers, `None` when the line has no such cell. */
  datatype Row = Row(regdNo: Option<string>, name: Option<string>)

  /** A (roll number, name) pair, as inserted, listed or reported as a duplicate. */
  datatype Entry = Entry(rollNo: string, name: string)

  /** JavaScript truthiness of a parsed cell: a missing cell and the empty string are falsy. */
  predicate Truthy(cell: Option<string>) {
    cell.Some? && cell.value != ""
  }

  /** The guard `rollNo && name`: only such lines are inserted or reported. */
  predicate Qualifies(row: Row) {
    Truthy(row.regdNo) && Truthy(row.name)
  }

  function RollOf(row: Row): string
    requires Qualifies(row)
  {
    row.regdNo.value
  }

  function EntryOf(row: Row): Entry
    requires Qualifies(row)
  {
    Entry(row.regdNo.value, row.name.value)
  }

  function EntryRoll(e: Entry): string {
    e.rollNo
  }

  function EntryOfStudent(s: Student): Entry {
    Entry(s.rollNo, s.name)
  }

  ghost function RollNos(es: seq<Entry>): set<string> {
    set e | e in es :: e.rollNo
  }

  ghost predicate DistinctRolls(es: seq<Entry>) {
    forall i, j :: 0 <= i < j < |es| ==> es[i].rollNo != es[j].rollNo
  }

  /** Positions of the lines that pass the guard. */
  ghost function QualifyingIndices(rows: seq<Row>): set<int> {
    set i | 0 <= i < |rows| && Qualifies(rows[i])
  }

  /** Roll numbers of the lines that pass the guard. */
  ghost function QualifyingRolls(rows: seq<Row>): set<string> {
    set i | 0 <= i < |rows| && Qualifies(rows[i]) :: RollOf(rows[i])
  }

  /** Line `i` repeats the roll number of an earlier line that passed the guard. */
  ghost predicate SeenBefore(rows: seq<Row>, i: int)
    requires 0 <= i < |rows| && Qualifies(rows[i])
  {
    exists j :: 0 <= j < i && Qualifies(rows[j]) && RollOf(rows[j]) == RollOf(rows[i])
  }

  /** State of the scan: the pairs inserted so far in order, the set
      `processedRollNumbers`, and the `duplicates` array. */
  datatype Scan = Scan(inserted: seq<Entry>, processed: set<string>, duplicates: seq<Entry>)

  /** The `data` handler applied to one line. */
  function Step(acc: Scan, row: Row): Scan {
    if !Qualifies(row) then acc
    else if RollOf(row) in acc.processed then acc.(duplicates := acc.duplicates + [EntryOf(row)])
    else Scan(acc.inserted + [EntryOf(row)], acc.processed + {RollOf(row)}, acc.duplicates)
  }

  /** The scan over all lines, in file order, starting from empty state. */
  function ScanRows(rows: seq<Row>): (r: Scan)
    ensures r.processed == RollNos(r.inserted) == QualifyingRolls(rows)
    ensures DistinctRolls(r.inserted)
    ensures forall e :: e in r.duplicates ==> e.rollNo in RollNos(r.inserted)
    ensures forall e :: e in r.inserted ==> e.rollNo != "" && e.name != ""
    ensures forall e :: e in r.duplicates ==> e.rollNo != "" && e.name != ""
    decreases |rows|
  {
    if |rows| == 0 then Scan([], {}, [])
    else
      var prefix := rows[..|rows| - 1];
      var last := rows[|rows| - 1];
      QualifyingRollsSnoc(rows);
      var acc := ScanRows(prefix);
      if Qualifies(last) && RollOf(last) !in acc.processed then
        AppendFreshRoll(acc.inserted, EntryOf(last));
        Step(acc, last)
      else
        Step(acc, last)
  }

  lemma QualifyingRollsSnoc(rows: seq<Row>)
    requires |rows| > 0
    ensures QualifyingRolls(rows)
         == QualifyingRolls(rows[..|rows| - 1])
          + (if Qualifies(rows[|rows| - 1]) then {RollOf(rows[|rows| - 1])} else {})
  {
  }

  lemma AppendFreshRoll(es: seq<Entry>, e: Entry)
    requires DistinctRolls(es) && e.rollNo !in RollNos(es)
    ensures DistinctRolls(es + [e])
    ensures RollNos(es + [e]) == RollNos(es) + {e.rollNo}
  {
  }

  /** The last line was seen before exactly when its roll number was processed by then. */
  lemma SeenBeforeIsProcessed(rows: seq<Row>)
    requires |rows| > 0 && Qualifies(rows[|rows| - 1])
    ensures SeenBefore(rows, |rows| - 1)
        <==> RollOf(rows[|rows| - 1]) in ScanRows(rows[..|rows| - 1]).processed
  {
  }

  /** `e` is the pair of a qualifying line whose roll number no earlier qualifying line carries. */
  ghost predicate FromFirstLine(rows: seq<Row>, e: Entry) {
    exists i :: 0 <= i < |rows| && Qualifies(rows[i]) && !SeenBefore(rows, i) && EntryOf(rows[i]) == e
  }

  /** `e` is the pair of a qualifying line that repeats an earlier qualifying roll number. */
  ghost predicate FromRepeatLine(rows: seq<Row>, e: Entry) {
    exists i :: 0 <= i < |rows| && Qualifies(rows[i]) && SeenBefore(rows, i) && EntryOf(rows[i]) == e
  }

  lemma FirstLinesSnoc(rows: seq<Row>, e: Entry)
    requires |rows| > 0
    ensures var n := |rows|;
      var last := rows[n - 1];
      FromFirstLine(rows, e) <==>
        FromFirstLine(rows[..n - 1], e) || (Qualifies(last) && !SeenBefore(rows, n - 1) && EntryOf(last) == e)
  {
  }

  lemma RepeatLinesSnoc(rows: seq<Row>, e: Entry)
    requires |rows| > 0
    ensures var n := |rows|;
      var last := rows[n - 1];
      FromRepeatLine(rows, e) <==>
        FromRepeatLine(rows[..n - 1], e) || (Qualifies(last) && SeenBefore(rows, n - 1) && EntryOf(last) == e)
  {
  }

  /** First occurrence wins: a pair is inserted exactly when it comes from a
      qualifying line whose roll number no earlier qualifying line carries.
      Lines failing the guard are never inserted. */
  lemma {:induction false} ScanInsertsFirstLines(rows: seq<Row>)
    ensures forall e :: e in ScanRows(rows).inserted <==> FromFirstLine(rows, e)
    decreases |rows|
  {
    if |rows| > 0 {
      var n := |rows|;
      var prefix := rows[..n - 1];
      var last := rows[n - 1];
      ScanInsertsFirstLines(prefix);
      if Qualifies(last) {
        SeenBeforeIsProcessed(rows);
      }
      forall e
        ensures e in ScanRows(rows).inserted <==> FromFirstLine(rows, e)
      {
        FirstLinesSnoc(rows, e);
      }
    }
  }

  /** A pair is reported as a duplicate exactly when it comes from a
      qualifying line that repeats an earlier qualifying roll number. Lines
      failing the guard are never reported. */
  lemma {:induction false} ScanReportsRepeatLines(rows: seq<Row>)
    ensures forall e :: e in ScanRows(rows).duplicates <==> FromRepeatLine(rows, e)
    decreases |rows|
  {
    if |rows| > 0 {
      var n := |rows|;
      var prefix := rows[..n - 1];
      var last := rows[n - 1];
      ScanReportsRepeatLines(prefix);
      if Qualifies(last) {
        SeenBeforeIsProcessed(rows);
      }
      forall e
        ensures e in ScanRows(rows).duplicates <==> FromRepeatLine(rows, e)
      {
        RepeatLinesSnoc(rows, e);
      }
    }
  }

  lemma QualifyingIndicesSnoc(rows: seq<Row>)
    requires |rows| > 0
    ensures |QualifyingIndices(rows)|
         == |QualifyingIndices(rows[..|rows| - 1])| + (if Qualifies(rows[|rows| - 1]) then 1 else 0)
  {
    var n := |rows|;
    var prefix := rows[..n - 1];
    var before := QualifyingIndices(prefix);
    assert n - 1 !in before;
    if Qualifies(rows[n - 1]) {
      assert QualifyingIndices(rows) == before + {n - 1};
    } else {
      assert QualifyingIndices(rows) == before;
    }
  }

  /** Every qualifying line lands in exactly one of the two lists. */
  lemma {:induction false} ScanCountsQualifyingLines(rows: seq<Row>)
    ensures |ScanRows(rows).inserted| + |ScanRows(rows).duplicates| == |QualifyingIndices(rows)|
    decreases |rows|
  {
    if |rows| > 0 {
      ScanCountsQualifyingLines(rows[..|rows| - 1]);
      QualifyingIndicesSnoc(rows);
    }
  }

  /** A duplicate's roll number was inserted by a line earlier in the file. */
  lemma DuplicateFollowsInsert(rows: seq<Row>, i: int)
    requires 0 <= i < |rows| && Qualifies(rows[i]) && SeenBefore(rows, i)
    ensures RollOf(rows[i]) in RollNos(ScanRows(rows[..i]).inserted)
  {
  }

  /** The name kept for a roll number is the one on its first qualifying line. */
  lemma FirstNameWins(rows: seq<Row>, i: int, e: Entry)
    requires 0 <= i < |rows| && Qualifies(rows[i]) && !SeenBefore(rows, i)
    requires e in ScanRows(rows).inserted && e.rollNo == RollOf(rows[i])
    ensures e.name == rows[i].name.value
  {
  }

  /** The database after an import, the rows the promise resolves with, and
      the duplicates reported on the console. */
  datatype Loaded = Loaded(db: Db, listing: seq<Entry>, duplicates: seq<Entry>)

  /** The inserts in scan order into the freshly emptied table: SQLite gives
      the k-th new row rowid k + 1 when the table starts empty. */
  function Enroll(entries: seq<Entry>): seq<Student> {
    seq(|entries|, k requires 0 <= k < |entries| => Student(k + 1, entries[k].rollNo, entries[k].name))
  }

  function Entries(students: seq<Student>): seq<Entry> {
    seq(|students|, k requires 0 <= k < |students| => EntryOfStudent(students[k]))
  }

  ghost function StudentRolls(students: seq<Student>): set<string> {
    set s | s in students :: s.rollNo
  }

  /** The enrolled table holds exactly the inserted pairs, so its roll numbers stay distinct. */
  lemma EnrollKeepsEntries(es: seq<Entry>)
    requires DistinctRolls(es)
    ensures Entries(Enroll(es)) == es
    ensures StudentRolls(Enroll(es)) == RollNos(es)
    ensures forall s :: s in Enroll(es) ==> EntryOfStudent(s) in es
    ensures forall i, j :: 0 <= i < j < |Enroll(es)| ==> Enroll(es)[i].rollNo != Enroll(es)[j].rollNo
  {
    var students := Enroll(es);
    assert Entries(students) == es;
    forall s | s in students
      ensures EntryOfStudent(s) in es && s.rollNo in RollNos(es)
    {
      var k :| 0 <= k < |students| && students[k] == s;
      assert es[k] == EntryOfStudent(s);
    }
    forall x | x in RollNos(es)
      ensures x in StudentRolls(students)
    {
      var e :| e in es && e.rollNo == x;
      var k :| 0 <= k < |es| && es[k] == e;
      assert students[k] in students;
    }
  }

  /** `loadStudentsFromCSV` run against `db` with the parsed lines `rows`. */
  function LoadStudents(db: Db, rows: seq<Row>): (r: Loaded)
    ensures r.db.attendance == db.attendance
    ensures StudentRolls(r.db.students) == QualifyingRolls(rows)
    ensures forall i, j :: 0 <= i < j < |r.db.students| ==>
      r.db.students[i].rollNo != r.db.students[j].rollNo
    ensures forall k :: 0 <= k < |r.db.students| ==> r.db.students[k].id == k + 1
    ensures forall s :: s in r.db.students ==> FromFirstLine(rows, EntryOfStudent(s))
    ensures SortedBy(r.listing, EntryRoll)
    ensures multiset(r.listing) == multiset(Entries(r.db.students))
    ensures forall e :: e in r.duplicates <==> FromRepeatLine(rows, e)
  {
    var scan := ScanRows(rows);
    var students := Enroll(scan.inserted);
    EnrollKeepsEntries(scan.inserted);
    ScanInsertsFirstLines(rows);
    ScanReportsRepeatLines(rows);
    Loaded(Db(students, db.attendance), SortBy(Entries(students), EntryRoll), scan.duplicates)
  }

  /** Import is a full replace: a student whose roll number is not on a
      qualifying line of the new file is no longer enrolled, whatever the
      table held before. */
  lemma LoadDropsPreviousRoster(db: Db, rows: seq<Row>, prior: Student)
    requires prior in db.students && prior.rollNo !in QualifyingRolls(rows)
    ensures forall s :: s in LoadStudents(db, rows).db.students ==> s.rollNo != prior.rollNo
  {
  }
}
