# Attendance tracker: roster import, attendance recording, report aggregation

A Dafny model of the three computations at the heart of the attendance web
application in `app.js`:

- **Roster import** (`loadStudentsFromCSV`). The `students` table is cleared.
  The parsed lines of the roll list are scanned in file order. A line is
  skipped unless both its `RegdNo` and `NameoftheStudent` cells are present and
  non-empty (JavaScript truthiness). The first qualifying line for a roll number
  is inserted; later ones go to the `duplicates` list. The table is then read
  back ordered by roll number.
- **Attendance recording** (`POST /save-attendance`). One row per enrolled
  student is appended for the submitted date and session type. A student whose
  `id.toString()` is in `presentStudents` is present when `mode` is exactly
  `"present"`. Under every other `mode` the marking is inverted. Hours are 4 for
  a present row and 0 otherwise.
- **Report** (`GET /attendance-report`). The LEFT JOIN / GROUP BY query is a
  fold over the attendance rows, done once per student. `present_days` counts
  present rows. `total_hours` sums hours over present rows. `total_days` counts
  distinct dates. The percentage is present days over distinct days times 100,
  or 0 when there are no days. Lines are ordered by roll number.

The database is an immutable value `Db(students, attendance)`. Each handler is
a pure function of it: `Roster.LoadStudents`, `Recorder.SaveAttendance` and
`Report.AttendanceReport`.

Modules, one file each: `Wrappers` (Option), `Strings` (SQLite's BINARY text
order and the decimal rendering of ids), `Sorting` (ORDER BY as a sort by a
text key), `Schema` (the two tables and reference definitions over them),
`Roster`, `Recorder`, `Report`.

Storage behaviour the model assumes, since it lies outside the source:
- SQLite numbers rows of an emptied table from rowid 1. So the k-th student
  inserted by an import gets id k + 1.
- `ORDER BY roll_no` uses the BINARY collation. On Unicode scalar values this
  is lexicographic order on code points (`Strings.TextLe`).
- In the LEFT JOIN, a student with no attendance rows joins one NULL row. The
  two `CASE` expressions and `COUNT(DISTINCT a.date)` turn that row into zeros.

Two details of `app.js` the model keeps:
- `mode` is compared only with `'present'` (app.js:147), so any other value, or
  none, acts as `"absent"` (`Recorder.OtherModesActAsAbsent`).
- `loadStudentsFromCSV` resolves with the listing read back at app.js:85-104;
  the duplicates are only logged. `Roster.Loaded` carries the listing and the
  duplicates.

A consequence the model makes explicit: a re-import keeps the `attendance`
table and renumbers students from 1. Attendance rows recorded under an old id
are then reported for whichever new student received that id
(`Report.ReimportInheritsAttendance`).

## Model

| member | source | states |
|---|---|---|
| Roster.ScanRows | app.js:56-81 | The processed-roll set equals the set of inserted roll numbers, and also the set of roll numbers on qualifying lines. Inserted roll numbers are pairwise distinct. Every duplicate's roll number is among the inserted ones. No inserted or duplicate pair has an empty roll number or name. |
| Roster.ScanInsertsFirstLines | app.js:62-72 | A pair is inserted iff it comes from a qualifying line whose roll number no earlier qualifying line carries. Lines missing a cell are never inserted. |
| Roster.ScanReportsRepeatLines | app.js:62-68 | A pair is reported as a duplicate iff it comes from a qualifying line repeating an earlier qualifying roll number. Lines missing a cell are never reported. |
| Roster.ScanCountsQualifyingLines | app.js:65-72 | Inserted count plus duplicate count equals the number of qualifying lines. So every qualifying line lands in exactly one list. |
| Roster.DuplicateFollowsInsert | app.js:66-71 | The roll number of a repeated line was already inserted by the scan of the lines before it. |
| Roster.FirstNameWins | app.js:66-72 | The name kept for a roll number is the name on its first qualifying line. |
| Roster.LoadStudents | app.js:44-114 | After an import the enrolled roll numbers are exactly those of qualifying lines, and they are distinct. Ids run 1..n. Each student is the pair of a first-occurrence line. The attendance table is untouched. The listing is sorted by roll number and is a permutation of the table. The duplicates are exactly the pairs of repeated lines. |
| Roster.LoadDropsPreviousRoster | app.js:47-72 | A previously enrolled student whose roll number is not on a qualifying line of the new file is no longer enrolled. |
| Strings.NatToString | app.js:148 | `id.toString()` is a non-empty string of decimal digits with no leading zero (for ids of 1 and up). |
| Strings.DigitsValueOfNatToString | app.js:148 | Reading the rendered id back as decimal digits gives the id: the round trip of `toString`. |
| Strings.NatToStringInjective | app.js:148 | Two different ids never render to the same string. |
| Strings.TextLeTotal | app.js:85 | Any two roll numbers are comparable under the `ORDER BY roll_no` text order. |
| Strings.TextLeTransitive | app.js:85 | The `ORDER BY roll_no` text order is transitive. |
| Strings.TextLeAntisymmetric | app.js:85 | Two roll numbers that each sort no later than the other are equal, so distinct roll numbers have a strict order. |
| Sorting.SortBy | app.js:172 | ORDER BY yields the rows sorted by the key and as a permutation of the input rows. |
| Recorder.Record | app.js:144-154 | One row per given id, in the order given, each with that id and the submitted date and type. Hours are 4 exactly when present and 0 otherwise. Status is present iff (mode is `"present"`) agrees with (the id's string is marked). |
| Recorder.SaveAttendance | app.js:138-157 | Saving is append-only: students unchanged, old rows kept as a prefix, one new row per student appended (in the model's students order). |
| Recorder.OtherModesActAsAbsent | app.js:147-149 | Any mode other than `"present"` yields exactly the rows `"absent"` mode yields. |
| Recorder.ModesInvert | app.js:147-149 | For the same marks, `"present"` and `"absent"` mode give every student opposite statuses. |
| Recorder.ComplementaryMarkingsAgree | app.js:144-149 | A present-list in `"present"` mode and its complement in `"absent"` mode store the same rows. |
| Recorder.SingleMarkSelectsOneId | app.js:144-148 | Marking one id's string in `"present"` mode makes exactly the students with that id present. |
| Recorder.PaddedMarksMatchNobody | app.js:148 | Marks with a leading zero such as `"07"` match no id, so `"present"` mode then marks everyone absent. |
| Report.Tally | app.js:166-168 | For one student's group, present rows never outnumber rows, and distinct dates never outnumber rows. A student without rows has zero present days and zero hours. |
| Report.TallyMatchesGroup | app.js:166-171 | The fold equals the SQL aggregates. Its present count is the number of the student's present rows. Its hours equal the hours summed over those rows. Its row count is the number of the student's rows. Its date set is the set of dates among them. |
| Report.TallyAppend | app.js:166-168 | Aggregates over two batches stored one after the other combine: counts and hours add, date sets unite. |
| Report.CreditedHoursArePerPresentDay | app.js:166-167 | When every row's hours agree with its status, `total_hours` is 4 × `present_days`. |
| Report.OneRowPerDateBoundsPresence | app.js:166-168 | If no two of a student's rows share a date, `total_days` equals the row count, so `present_days` ≤ `total_days`. |
| Report.Percentage | app.js:181-182 | 0 when `total_days` is 0. Otherwise percentage × `total_days` = `present_days` × 100. It is at most 100 iff `present_days` ≤ `total_days`. |
| Report.RowFor | app.js:164-182 | A student's line carries their roll number and name. It also carries the number of their present rows, the hours summed over those rows, and the number of their distinct dates. Both counts are bounded by the student's row count. A student with no rows gets an all-zero line. |
| Report.AttendanceReport | app.js:162-183 | One line per student, sorted by roll number, a permutation of the per-student lines. |
| Report.ReportCoversEveryStudent | app.js:169-171 | Every enrolled student, with or without attendance rows, has their line in the report. |
| Report.ReportHasOnlyStudents | app.js:169-171 | Every report line is the line of some enrolled student. |
| Report.OneRowPerSubmission | app.js:146-154 | One submission stores exactly one row for each enrolled id and none for other ids. |
| Report.ResubmissionDuplicatesRows | app.js:151-154 | Submitting the same session twice adds two rows for every enrolled student; nothing deduplicates. |
| Report.RecordedHoursArePerPresentDay | app.js:151-167 | After a save onto a table whose rows agree with their status, every student's `total_hours` is 4 × `present_days`. |
| Report.TwoSessionsOnOneDateExceedFullAttendance | app.js:166-182 | Two present sessions on one date give `present_days` = 2, `total_days` = 1, and a percentage of 200. |
| Report.ReimportInheritsAttendance | app.js:47-80 | After a re-import, the group of the k-th new student is the group that id k + 1 had before the import. |

## Left out

- HTTP routing, view rendering, static files and `app.listen` (app.js:1-16, 116-132, 185, 189-191): plumbing around the computations.
- The SQLite connection and table creation (app.js:19-41). Asynchronous `db.run`/`db.all` callbacks and their ordering are also left out. Storage is the immutable `Db` value. `insertedCount` and `errorCount` are not modelled.
- Storage failures (`DELETE`, `INSERT`, `SELECT` errors and the HTTP 500 paths, app.js:48-52, 74-76, 86-88, 139-142, 174-177): these depend on storage behaviour outside the source.
- The CSV stream and its `error` event (app.js:59-60, 108-111): a foreign parser and file I/O. Lines arrive already parsed as `Roster.Row`.
- Console logging of the import summary (app.js:90-103) and the unused `moment` import (app.js:7).
- Floating point and `toFixed(2)`: the percentage is an exact `real`. The string/number type difference between the two branches is not modelled.
- `presentStudents` is modelled as a list of strings. A missing list acts as an empty one. A single form value (a bare string) and numeric JSON ids are not modelled; the latter never equal `id.toString()`.
- The request's `date` and `type` are modelled as strings. A missing field, stored as NULL and ignored by `COUNT(DISTINCT a.date)`, is not modelled.
- Roster.LoadStudents: relates each enrolled student to its first-occurrence line and fixes ids as 1..n. It does not state that the k-th table row comes from the k-th first-occurrence line.
- Recorder.SaveAttendance: appends the new rows in the order the model stores the students. `SELECT id FROM students` (app.js:138) has no `ORDER BY`, and the inserts (app.js:151-154) are separate asynchronous calls, so the source fixes no row order. The report does not depend on it: aggregates over stored batches combine whatever their order (`Report.TallyAppend`, `Report.TallyMatchesGroup`).
