# OBE server route logic in Dafny

This project models the table logic under six Express route files of the OBE
(outcome-based education) server:

- **Bulk upload** (`routes/fileupload.js`). An uploaded sheet's rows are
  handled one at a time by a per-type handler: an upsert into one table, the
  course-mapping pair of upserts, or the ESE (end-semester examination) mark
  update. Progress is counted in the process-wide `uploadProgress` registry.
  A server-sent-event stream samples that registry and ends once the rounded
  percentage reaches 100.
- **Bulk deletion** (`routes/dataDelete.js`). The option lists of the
  deletion screen, the preview counts, and the ADMIN-authorised execution.
  The execution counts and then deletes inside one transaction, and rolls
  back on failure.
- **Status reports** (`routes/statusreport.js`). The department names of a
  semester, the department status report (a join of report rows with
  course-mapping rows), the relationship-matrix status and counts, and the
  per-course ESE completeness report.
- **Student, staff and scope management** (`routes/studentmanage.js`,
  `routes/staffmanage.js`, `routes/scopemanage.js`). Dropdown lists,
  adding and deleting students, the student list, adding, renaming and
  deleting staff, tutors and HODs, the staff-id search, and the scope
  (permission) patches.

Each table is a sequence of rows, and a row is a map from column names to
cells (`Null`, a string or an integer). The Sequelize calls are written as
functions over tables in module `Rows`:
- `findAll` is `Select`;
- `count` is `Count`;
- `destroy` is `Destroy`;
- `update` is `Update`;
- `upsert` is `Upsert`.

A `where` object is a list of conditions (`Eq`, `Ne`, `In`) with SQL's
treatment of NULL.

The database is the class `Tables.Store`. The routes change it through its
methods. Each route method's contract ties the new tables to a pure function
of the old ones, and lemmas state what those functions guarantee. Two
things are parameters of the model rather than part of it:
- which store calls fail (`rejects` in ingestion, `failure` in deletion and
  scope updates);
- the primary-key columns an upsert matches on (`Store.key`).

In four places the code does less than the server is meant to do. The model
follows the code:
- A failing upload row is meant to be counted as `failed`, get an error
  entry, and not stop the upload. The code has no
  `failed` counter and no error list. Its loop has no catch, so the first
  failing handler ends the upload (`Ingestion.StopsAtFailure`).
- An update that matches no row is meant to be a row failure. The ESE handler's zero-match update succeeds and is counted
  (`Ingestion.EseNoMatchNoChange`).
- A progress stream with no registry entry is meant to report "no upload
  in progress" and end, and a finished entry is meant to be evicted after a
  grace period. In the code, a sample with no entry writes nothing
  and the stream keeps waiting; a finished entry is evicted by the sample
  that ends the stream.
- Preview counts are meant to equal the executed deletion's counts. The code keeps that for the four selector lists when their values are
  distinct and non-null (`DataDelete.PreviewAgreesWithExecute`). It does
  not keep it for the staff count (`DataDelete.PreviewStaffCountMayDiffer`),
  and it does not keep it for the report table under the hodSems selector
  (see Findings).

## Model

| member | source | states |
|---|---|---|
| Tables.Store.FindAll | routes/statusreport.js:20-23 | `findAll` returns exactly the rows of the table that match the filter. |
| Tables.Store.Create | routes/studentmanage.js:233-238 | `create` appends the row to its table and leaves every other table as it was. |
| Tables.Store.UpsertRow | routes/fileupload.js:64-71 | `upsert` replaces the table by its upserted form and leaves every other table as it was. |
| Tables.Store.UpdateWhere | routes/scopemanage.js:34 | `update` patches the matching rows of one table, and returns the number of rows the filter matched. |
| Tables.Store.DestroyWhere | routes/studentmanage.js:490 | `destroy` removes the matching rows of one table, and returns how many went: the count before, equal to the drop in the table's length. |
| Tables.Store.Restore | routes/dataDelete.js:205-206 | A rollback returns the tables to the committed state. |
| Tables.ActiveAcademic | routes/studentmanage.js:31-38 | `findOne({ where: { active_sem: 1 } })` finds an academic row with `active_sem` 1, and finds none exactly when no academic row has it. |
| Tables.Append | routes/studentmanage.js:240-255 | Appending rows to one table leaves the other tables as they were. |
| Rows.KeyFilter | routes/staffmanage.js:163-168 | The `where` object built from a row's key columns matches a row exactly when that row agrees on every key column. |
| Rows.Upsert | routes/fileupload.js:64-71 | An upsert keeps the table's length when a row with the same key exists, and otherwise appends the row. |
| Rows.UpsertStores | routes/fileupload.js:64-71 | After an upsert some row has the upserted row's key and carries every column of it. |
| Rows.UpsertIdempotent | routes/fileupload.js:136 | Upserting the same row twice gives the same table as upserting it once. |
| Rows.InsertUnlessPresentUnique | routes/staffmanage.js:163-177 | Look up by key, then create only when nothing was found: afterwards a row with the key exists; the table is unchanged exactly when one existed before; a table unique by the key stays unique. |
| Rows.Select | routes/statusreport.js:120 | `findAll` keeps exactly the matching rows, each as many times as the table holds it. |
| Rows.FindFirst | routes/statusreport.js:179 | `findOne` returns the first matching row, and returns nothing exactly when no row matches. |
| Rows.Distinct | routes/studentmanage.js:47 | `[...new Set(s)]` has no duplicates and holds exactly the values of `s`. |
| Rows.DistinctOrder | routes/statusreport.js:24 | The values of `[...new Set(s)]` are in order of first occurrence in `s`. |
| Rows.DestroyRemovesMatches | routes/dataDelete.js:169-170 | After `destroy` no row matches the filter, and the count taken before it is the number of rows removed. |
| Rows.SelectDestroyPartition | routes/dataDelete.js:169-170 | Every row of a table is either counted by the filter or survives its `destroy`, and never both. |
| Text.SortCells | routes/dataDelete.js:25 | The default `sort()` gives a permutation of its input in string order. |
| Text.LexLeTotal | routes/dataDelete.js:25 | The string order `sort()` compares by is total. |
| Text.LexLeTransitive | routes/dataDelete.js:25 | The string order `sort()` compares by is transitive. |
| Text.Trim | routes/staffmanage.js:391-396 | `trim()` removes leading and trailing white space and nothing else; the result is a slice of the input that starts and ends without white space. |
| Text.TrimEmpty | routes/staffmanage.js:391 | `s.trim() === ""` holds exactly when every character of `s` is white space. |
| Text.DecimalValue | routes/fileupload.js:150-153 | `Number(s)` is 0 for the empty string and the decimal value for a run of digits; it is NaN for other strings that start with neither a sign nor a digit. |
| UploadProgress.Registry.constructor | routes/fileupload.js:30 | The registry starts empty. |
| UploadProgress.Registry.Start | routes/fileupload.js:50 | Starting an upload sets its type's entry to `{ total, processed: 0 }`, replacing any earlier entry; other types' entries stay. |
| UploadProgress.Registry.Increment | routes/fileupload.js:53 | `processed++` raises the entry's count by exactly one; with no entry it fails (the TypeError) and nothing changes. |
| UploadProgress.Registry.SampleOnce | routes/fileupload.js:257-272 | A sample with no entry writes nothing. Otherwise it writes the rounded percentage, and it ends the stream and evicts the entry exactly when that percentage is at least 100. |
| UploadProgress.Percent | routes/fileupload.js:261-263 | The percentage is NaN exactly when `total` is 0. Otherwise it is `100 * processed / total` rounded half up: `2t·r ≤ 200p + t < 2t·(r + 1)`. |
| UploadProgress.PercentInRange | routes/fileupload.js:261-263 | With `0 ≤ processed ≤ total` and `total > 0` the percentage lies in 0..100. |
| UploadProgress.EndsIff | routes/fileupload.js:267-271 | The stream ends exactly when `total > 0` and `200 * processed ≥ 199 * total`. |
| UploadProgress.EndsOneRowEarly | routes/fileupload.js:267-271 | From 200 rows upwards, the stream already ends when one row is still unprocessed. |
| UploadProgress.EndsOnlyWhenDone | routes/fileupload.js:267-271 | Below 200 rows, the stream ends only once every row is processed. |
| UploadProgress.ZeroRowsNeverEnd | routes/fileupload.js:261-271 | For an upload of zero rows, no sequence of samples ever ends the stream or evicts the entry (0/0 is NaN). |
| UploadProgress.RowsFromBegin | routes/fileupload.js:49-55 | With no sample in between, `n` handled rows leave the entry at `{ total, processed: n }`, and the loop still runs exactly when `n < total`. |
| UploadProgress.DeadLoopStays | routes/fileupload.js:51-54 | Once the loop has stopped, no later event handles another row. |
| UploadProgress.ClosedStays | routes/fileupload.js:267-271 | Once the stream has ended, it stays ended. |
| UploadProgress.RowsLostAsWritten | routes/fileupload.js:267-271 | With 400 rows or more, a sample taken after all but two rows ends the stream. The next increment throws, so the last row is never handled. |
| UploadProgress.CompleteRuleKeepsRows | routes/fileupload.js:267-271 | If the sampler ends the stream only when every row is processed, the entry always equals `{ total, handled }` and the loop runs exactly while rows remain. A closed stream then means every row was handled. |
| UploadProgress.CorrectedSamplerCompletes | routes/fileupload.js:267-271 | Under that rule, after any interleaving from the start, the loop stops only once every row is handled, and the stream closes only then. |
| Ingestion.NumberOf | routes/fileupload.js:150-153 | `Number(x)` of a numeric cell is its value; of a missing cell it is NaN. |
| Ingestion.EseMark | routes/fileupload.js:150-153 | `Number(x) \|\| -1` is never 0. It is the number when that is non-zero. Missing, empty, 0 and non-numeric cells all become -1. |
| Ingestion.EsePatch | routes/fileupload.js:149-154 | The ESE patch sets exactly `ese_lot`, `ese_mot`, `ese_hot` and `ese_total`, each to the normalised mark of the row's cell. |
| Ingestion.RunRows | routes/fileupload.js:49-55 | The loop never completes more handlers than there are rows. |
| Ingestion.UpsertThrough | routes/fileupload.js:64-71 | One upsert through the store: it succeeds unless the store rejects it, and the tables become the upserted ones. |
| Ingestion.Handle | routes/fileupload.js:61-243 | Running a handler against the store gives the outcome and the tables of the upload type's row handler. |
| Ingestion.CountRow | routes/fileupload.js:53 | Counting a row on an entry the upload started raises its `processed` by one. |
| Ingestion.HandleCounted | routes/fileupload.js:52-53 | A loop turn runs the handler, and counts the row only when the handler succeeds. |
| Ingestion.Turn | routes/fileupload.js:51-54 | One loop turn keeps the registry entry equal to `{ total, rows done }`. After the turn, the whole run still ends where the rows from the next one on lead. |
| Ingestion.ProcessExcel | routes/fileupload.js:49-55 | The type's entry ends as `{ total: rows.length, processed: completed }`, and the other entries stay. `completed` and the tables are those of running the handler over the rows in order, stopping at the first failure. |
| Ingestion.ResumeStep | routes/fileupload.js:51-54 | A handled row moves the loop to the next row; a failing row ends the run there. |
| Ingestion.AllRowsHandled | routes/fileupload.js:49-55 | When no handler fails, every row is handled and `processed` reaches `total`. |
| Ingestion.StopsAtFailure | routes/fileupload.js:51-54 | When the handler fails on row `i`, `processed` stays at `i`. |
| Ingestion.HandlersSucceed | routes/fileupload.js:61-243 | A handler fails only when the store rejects one of its writes, or on a course-mapping upload with no active academic row. |
| Ingestion.CourseMappingWithoutActive | routes/fileupload.js:106-114 | With no active academic row, a course-mapping upload fails on its first row and writes nothing. |
| Ingestion.EseWhereMatches | routes/fileupload.js:155 | The ESE filter matches a mark entry exactly when its `reg_no` and `course_code` are the row's. |
| Ingestion.EseTouchesMarkEntryOnly | routes/fileupload.js:147-156 | An ESE row whose patch is accepted succeeds and changes no table but markentry. |
| Ingestion.EseUpdatesOnlyMatches | routes/fileupload.js:148-156 | A mark entry with the row's `reg_no` and `course_code` gets four non-zero marks and keeps its other columns. Every other entry is unchanged. |
| Ingestion.EseNoMatchNoChange | routes/fileupload.js:148-156 | An ESE row that matches no mark entry still succeeds, and changes nothing. |
| Ingestion.ReportRecordFields | routes/fileupload.js:116-123 | The report row carries the decoded row's `staff_id`, `course_code`, `category`, `section` and `dept_name`, and the active semester. |
| Ingestion.CourseMappingSteps | routes/fileupload.js:110-123 | A handled course-mapping row is one course-mapping upsert, then one report upsert. |
| Ingestion.CourseMappingStamped | routes/fileupload.js:111-114 | A handled course-mapping row leaves a course-mapping row that carries the decoded row's columns and the active `academic_sem`. |
| Ingestion.ReportStamped | routes/fileupload.js:116-123 | A handled course-mapping row leaves a report row that carries the five report columns and the same `academic_sem`. |
| DataDelete.KeepTruthy | routes/dataDelete.js:25 | `filter(Boolean)` keeps exactly the truthy values, and keeps a duplicate-free list duplicate-free. |
| DataDelete.OptionList | routes/dataDelete.js:20-25 | Each option list is duplicate-free and sorted. It holds exactly the truthy values that some row carries in the column. |
| DataDelete.OptionsStaffCount | routes/dataDelete.js:62 | The options' `staffAllCount` leaves out exactly the ADMIN-category rows and the rows with no category. |
| DataDelete.CountsBy | routes/dataDelete.js:88-91 | The preview gives one `{ value, count }` per requested value, in request order. Each count is the number of rows whose column equals that value. |
| DataDelete.PreviewSumIsInCount | routes/dataDelete.js:168-170 | For distinct non-null values, the preview counts add up to the count the execution's `IN` delete takes. |
| DataDelete.PreviewAgreesWithExecute | routes/dataDelete.js:150-214 | For the student, mentor, mark-entry and report lists, each with distinct non-null values, the preview's counts sum to the counts a commit reports. |
| DataDelete.PreviewStaffCountMayDiffer | routes/dataDelete.js:126 | A staff row with a non-ADMIN id and the ADMIN category is counted by the preview and kept by the execution. |
| DataDelete.Execute | routes/dataDelete.js:150-214 | With a wrong password the answer is 401 and nothing changes. With no failing stage, the commit leaves the committed tables and reports the pre-delete counts. When a running stage fails, the answer is a rollback and the tables are the rolled-back ones. |
| DataDelete.EarlyStages | routes/dataDelete.js:168-186 | The student, mentor, mark-entry and report stages fail exactly when the failing stage is one of them and runs. Otherwise each runs only when its list is non-empty and reports its pre-delete count. |
| DataDelete.HodSemsRun | routes/dataDelete.js:188-191 | The hodSems stage counts the selected semesters' report rows, then clears the whole report table, or fails as the failing stage (see Findings for when the store refuses the unfiltered delete). |
| DataDelete.LateStages | routes/dataDelete.js:188-200 | The hodSems, hodAll and staffAll stages fail exactly when the failing stage runs. The report clear has happened exactly when hodSems ran before the failure. |
| DataDelete.RunStage | routes/dataDelete.js:168-171 | A count-then-delete stage runs only when its selector is set, and fails when it is the failing stage. Otherwise it reports the count and deletes those rows. |
| DataDelete.LateCounts | routes/dataDelete.js:188-200 | The hods and staff counts taken after the first four stages are those the commit reports. |
| DataDelete.CountInNone | routes/dataDelete.js:168 | An `IN` over no values matches no row. |
| DataDelete.CountInSplit | routes/dataDelete.js:169 | Splitting a non-null, unrepeated value off an `IN` list splits the count. |
| DataDelete.DestroyIfAt | routes/dataDelete.js:168-171 | A stage's delete changes its own table only. |
| DataDelete.ThroughReportsAt | routes/dataDelete.js:168-186 | After the first four stages, each stage's table has lost exactly its selected rows when the stage ran. |
| DataDelete.ThroughReportsOther | routes/dataDelete.js:168-186 | The first four stages leave the hod, staff and other tables alone. |
| DataDelete.LaterStagesFrame | routes/dataDelete.js:188-200 | The last three stages change only the report, hod and staff tables. |
| DataDelete.CommittedEarlyAt | routes/dataDelete.js:168-181 | The committed student, mentor and mark-entry tables are those of their stages. |
| DataDelete.LastReportAt | routes/dataDelete.js:188-191 | After the last stages the report table is empty when hodSems ran, and otherwise unchanged. |
| DataDelete.LastHodAt | routes/dataDelete.js:192-195 | After the last stages the hod table is empty when hodAll is set, and otherwise unchanged. |
| DataDelete.LastStaffAt | routes/dataDelete.js:196-200 | After the last stages, a set staffAll has removed exactly the staff rows whose category is set and is not ADMIN. |
| DataDelete.CommittedReportAt | routes/dataDelete.js:183-191 | The committed report table is empty when hodSems ran. Otherwise it is the reports stage's result. |
| DataDelete.CommittedHodAt | routes/dataDelete.js:192-195 | The committed hod table is empty under hodAll, and otherwise unchanged. |
| DataDelete.CommittedStaffAt | routes/dataDelete.js:196-200 | The committed staff table is the staffAll stage's result. |
| DataDelete.CommittedOthersAt | routes/dataDelete.js:159-203 | A commit leaves every table that no stage names as it was. |
| DataDelete.CommitRemovesSelected | routes/dataDelete.js:168-181 | After a commit no student, mentor or mark-entry row matches its running selector. Each reported count is the number of rows removed. An unset selector leaves its table as it was and reports 0. |
| DataDelete.CommitRemovesStaff | routes/dataDelete.js:196-200 | staffAll removes every row whose category is set and is not ADMIN, and reports how many. It keeps every ADMIN-category row. |
| DataDelete.StaffCountIs | routes/dataDelete.js:196-198 | The reported staff count is the non-ADMIN-category count under staffAll, and 0 otherwise. |
| DataDelete.CommitRemovesHods | routes/dataDelete.js:192-195 | hodAll empties the hod table, and its count replaces any hodSems count. |
| DataDelete.HodSemsClearsOtherSemesters | routes/dataDelete.js:188-191 | As written, hodSems deletes every report row, including rows that no selector names. Those rows stay gone when a later stage fails and the transaction rolls back. |
| DataDelete.HodSemsExample | routes/dataDelete.js:190 | A concrete input: with hodSems naming only the ODD semester, the EVEN report row is gone after the commit. |
| DataDelete.HodSemsRejectedRollsBack | routes/dataDelete.js:188-209 | If the store refuses the unfiltered delete, the running hodSems stage fails and the rollback restores exactly the tables the request started from. |
| DataDelete.IntendedReportAt | routes/dataDelete.js:188-191 | With the intended hodSems stage, the committed report table is the working table without the selected semesters' rows. |
| DataDelete.IntendedHodSemsStage | routes/dataDelete.js:188-191 | With the intended hodSems stage, a report row survives the commit exactly when no running selector names its semester. The hodSems count is then the number of rows that stage removes. |
| StatusReport.DeptNames | routes/statusreport.js:20-24 | `statusDeptName` lists each `dept_name` of the semester's report rows, once each. |
| StatusReport.DeptNamesInFirstOrder | routes/statusreport.js:24 | The names come in order of first occurrence. |
| StatusReport.TitleOrEmpty | routes/statusreport.js:55 | `course_title \|\| ''` keeps a truthy title, and turns a falsy one into `''`. |
| StatusReport.Detail | routes/statusreport.js:49-58 | A staff detail keeps the course-mapping row's staff, course, name and department id. Its `dept_name` is the staff's department, or 'unknown'. Only the ALL branch blanks a falsy title. |
| StatusReport.Details | routes/statusreport.js:49-58 | There is one detail per course-mapping row. |
| StatusReport.MatchesJoinKey | routes/statusreport.js:61-63 | The join matches on the same `staff_id` and the same `course_code`. |
| StatusReport.FindDetail | routes/statusreport.js:61-63 | Searching the details finds the detail of the first matching course-mapping row. |
| StatusReport.JoinedFields | routes/statusreport.js:64-70 | The joined entry takes the four added columns from the match, or 'unknown', 'unknown', 'unknown' and '' without one. |
| StatusReport.JoinedKeeps | routes/statusreport.js:64-65 | The join keeps every other column of the report row. |
| StatusReport.DeptStatusReport | routes/statusreport.js:36-108 | There is one entry per selected report row, in the same order, and each keeps the report row's own columns. |
| StatusReport.DeptStatusJoin | routes/statusreport.js:60-100 | Each entry's staff name, department id, department and title come from the first course-mapping row with its staff and course. With no such row they are 'unknown', 'unknown', 'unknown' and ''. |
| StatusReport.DeptRowsSelected | routes/statusreport.js:75 | The non-ALL branch selects exactly the semester's report rows of that department. |
| StatusReport.HasMatrix | routes/statusreport.js:126 | `rsMatrix.some(...)` holds exactly when some rsmatrix row has the course code. |
| StatusReport.AllMatrixReport | routes/statusreport.js:114-135 | There is one entry per course-mapping row of the semester, in table order. Each entry's status is 'Completed' exactly when some rsmatrix row has its course code. |
| StatusReport.MatrixCount | routes/statusreport.js:147-163 | `uniqueCourseCount` is the number of different course codes mapped in the semester. `completeCount` is the number of different non-null rsmatrix codes among them. |
| StatusReport.CompleteWithinUnique | routes/statusreport.js:147-163 | `completeCount ≤ uniqueCourseCount`. |
| StatusReport.EseReport | routes/statusreport.js:175-225 | The answer is 404 exactly when no academic row is active. Otherwise it has one entry per course code of the titled course-mapping rows, in first-occurrence order, with the title of the last such row. A course is 'Incomplete' exactly when one of its active mark entries lacks an examination mark. |
| StatusReport.EseCodesListed | routes/statusreport.js:204-218 | A course is listed exactly when its code is not null, some active mark entry has it, and some course-mapping row has it. |
| StatusReport.LastTitleIsLast | routes/statusreport.js:210-216 | A repeated course code keeps the title of its last course-mapping row. |
| StatusReport.CourseStatusMap | routes/statusreport.js:189-202 | The status fold has one entry per course code of the mark entries, in first-occurrence order. An entry is 'Complete' exactly when none of that course's entries lacks a mark. |
| StatusReport.ResultMap | routes/statusreport.js:209-216 | The result fold has one entry per course code in insertion order, with the last row's title and the status fold's status ('Incomplete' when the fold has none). |
| StatusReport.EseEntries | routes/statusreport.js:214 | Every listed code's status is 'Incomplete' exactly when one of its active mark entries lacks an examination mark. |
| StatusReport.StatusBuiltStep | routes/statusreport.js:190-202 | One mark entry keeps the status fold's invariant. |
| StatusReport.ResultBuiltStep | routes/statusreport.js:210-216 | One course-mapping row keeps the result fold's invariant. |
| StudentManage.ValuesOf | routes/studentmanage.js:42-47 | A dropdown list is duplicate-free and holds exactly the column's values among the matching rows. |
| StudentManage.ValuesInFirstOrder | routes/studentmanage.js:47 | The values come in order of first occurrence among the matching rows. |
| StudentManage.Categories | routes/studentmanage.js:29-55 | 404 exactly when no academic row is active. Otherwise the categories of the active semester's students. |
| StudentManage.DeptIds | routes/studentmanage.js:61-91 | 404 exactly when no academic row is active. Otherwise the department ids of the active semester's students of the category. |
| StudentManage.Semesters | routes/studentmanage.js:97-128 | 404 exactly when no academic row is active. Otherwise the semesters of the active semester's students of the category and department. |
| StudentManage.Sections | routes/studentmanage.js:134-167 | 404 exactly when no academic row is active. Otherwise the sections of the class's students. |
| StudentManage.CourseCodes | routes/studentmanage.js:171-208 | 404 when no academic row is active. Also 404 exactly when no mark entry of the class exists. Otherwise the class's course codes: non-empty, duplicate-free, and exactly those of its mark entries. |
| StudentManage.AddStudent | routes/studentmanage.js:214-267 | 404 without writes when no academic row is active; 400 without writes when the name or register number is empty. Otherwise the student row and the string codes' mark entries are created. The answer is 201 exactly when every code is a string, and 500 otherwise. |
| StudentManage.AddMarks | routes/studentmanage.js:240-255 | One mark entry per string course code is appended, in order. `allStrings` tells whether every code was a string. |
| StudentManage.MarkRecordFields | routes/studentmanage.js:245-252 | A mark entry carries the student's fields, the course code and the active semester. |
| StudentManage.MarkRecordMarksNull | routes/studentmanage.js:248-251 | Every mark of a new mark entry is null. |
| StudentManage.MarkRecordsOfStrings | routes/studentmanage.js:240-253 | The mark entries created are exactly those of the string codes. |
| StudentManage.MarkRecordsCount | routes/studentmanage.js:240-253 | When every code is a string, there is one mark entry per code. |
| StudentManage.StudentAddedHolds | routes/studentmanage.js:233-255 | After the checks pass, the student row is appended and the mark entry of every string code is present. Every earlier mark entry is kept, and no other table changes. |
| StudentManage.DeleteStudent | routes/studentmanage.js:271-296 | The marks and then the student rows with the register number are destroyed. The answer is 404 exactly when no studentmaster row had it. |
| StudentManage.WithoutStudentRemovesOnly | routes/studentmanage.js:275-281 | Afterwards no mark entry or student row has the register number, every other row is kept, and the other tables are as they were. |
| StudentManage.StudentDelete | routes/studentmanage.js:484-501 | Only the student rows with the register number go. The answer is 404 exactly when there were none. |
| StudentManage.FieldOrNull | routes/studentmanage.js:381-386 | `details?.f \|\| null` is truthy or null. |
| StudentManage.StudentsList | routes/studentmanage.js:355-396 | The answer is 500 exactly when no academic row is active. Otherwise there is one entry per distinct register number of the class's active mark entries, in order. |
| StudentManage.StudentEntryFields | routes/studentmanage.js:379-387 | An entry holds its register number and the details' fields, with a falsy field as null. |
| StudentManage.StudentsListUnmatched | routes/studentmanage.js:378-387 | With no student row of the class for the register number, every detail is null. |
| StudentManage.StudentsListFirstMatch | routes/studentmanage.js:378-387 | The details come from the first student row of the class with the register number. |
| StudentManage.NewStudentAdd | routes/studentmanage.js:456-478 | The row is inserted exactly when no student row has the same `reg_no` and `semester`; otherwise the table is unchanged. |
| StaffManage.Flag | routes/staffmanage.js:42 | `p ? 1 : 0` is 1 exactly when `p` is truthy, and 0 otherwise. |
| StaffManage.FlagsAt | routes/staffmanage.js:42-53 | The flag under each scope column is the one of its own permission. |
| StaffManage.ScopeRecordFlags | routes/staffmanage.js:40-54 | The new scope row has the staff's id and name. Each of its twelve flags is 1 exactly when its permission is truthy, and 0 otherwise. |
| StaffManage.FlagColumnsDistinct | routes/staffmanage.js:41-53 | The twelve flag columns are distinct, and distinct from the id and name columns. |
| StaffManage.NewStaff | routes/staffmanage.js:25-61 | The staff row is created and then the scope row. Without a permissions object the answer is 500 and the staff row stays. |
| StaffManage.NewPassword | routes/staffmanage.js:76 | `newpassword \|\| oldpassword` is the new password when that is non-empty, and the old one otherwise. |
| StaffManage.StaffIsMatches | routes/staffmanage.js:80 | `where: { staff_id }` matches exactly the rows of that staff. |
| StaffManage.StaffUpdate | routes/staffmanage.js:67-107 | The staffmaster update runs first, then the coursemapping, report, hod and mentor renames. The staff row read back is the first staffmaster row with the new id in the updated table. |
| StaffManage.RenameStep | routes/staffmanage.js:84-102 | One rename update replaces one table by its renamed form. |
| StaffManage.StaffUpdatedSteps | routes/staffmanage.js:74-102 | A staff update is the five updates applied one after another. |
| StaffManage.StaffUpdatedAt | routes/staffmanage.js:74-102 | Table by table: staffmaster takes the staff patch, the four dependent tables take the rename, and the rest stay. |
| StaffManage.StaffUpdatePassword | routes/staffmanage.js:74-80 | The staff's row takes the new name, the new category, and the new password when that is non-empty (the old one otherwise). |
| StaffManage.StaffRenamePropagates | routes/staffmanage.js:84-102 | Every coursemapping, report, hod and mentor row of the staff takes the new category and name (`hod_name` in hod) and keeps its other columns. Rows of other staff are unchanged. |
| StaffManage.RenamedRow | routes/staffmanage.js:84-87 | One row under the rename update. |
| StaffManage.StaffUpdateFrame | routes/staffmanage.js:67-107 | A staff update changes no table besides staffmaster and the four it renames in. |
| StaffManage.DestroyInTables | routes/staffmanage.js:118-123 | Each table named once loses its matching rows, and the others are untouched. |
| StaffManage.StaffDelete | routes/staffmanage.js:113-127 | The staff's rows go from the six tables, one after another. |
| StaffManage.StaffDeleteSteps | routes/staffmanage.js:118-123 | The deletion is the six destroys, in source order. |
| StaffManage.StaffDeleteRemovesAll | routes/staffmanage.js:118-123 | Afterwards none of staffmaster, coursemapping, mentor, hod, scope or report holds a row of the staff. Every row of other staff is kept, and the other tables are unchanged. |
| StaffManage.NewTutor | routes/staffmanage.js:153-183 | 500 when no academic row is active. Otherwise the answer is 409 with no insert when a row with the same eleven fields (active year and semester included) exists, and exactly one row is added otherwise. |
| StaffManage.MentorUpdate | routes/staffmanage.js:189-206 | The matching tutor rows are patched. The answer is 404 exactly when no row has the serial number, semester and year. |
| StaffManage.MentorDelete | routes/staffmanage.js:212-232 | The staff's tutor rows of the active semester go. The "not found" answer comes exactly when there were none, and the answer is 500 when no academic row is active. |
| StaffManage.NewHod | routes/staffmanage.js:284-303 | The hod row is inserted exactly when no row with the same six fields exists; otherwise nothing changes. |
| StaffManage.HodUpdate | routes/staffmanage.js:309-332 | The hod rows with the serial number are patched. The answer is 404 exactly when there is none. |
| StaffManage.HodDelete | routes/staffmanage.js:338-360 | The located hod rows go, and the scope update follows only when some went and the staff has none left. The answer is 404 exactly when no hod row matched. |
| StaffManage.ClearsHodReportIff | routes/staffmanage.js:348-352 | The scope update's guard holds exactly when a hod row was deleted and the staff has no hod row left. |
| StaffManage.HodDeleteRemoves | routes/staffmanage.js:345 | Afterwards no hod row matches the request, and the other hod rows stay. |
| StaffManage.HodDeleteScope | routes/staffmanage.js:348-352 | A scope row of the staff has `hod_report` set to 0 exactly when the guard holds, and is unchanged otherwise, as is every scope row of other staff. |
| StaffManage.StaffIdsLike | routes/staffmanage.js:395-398 | The search returns the `staff_id` of exactly the staff rows whose id contains the query, and nothing exactly when none does. |
| StaffManage.GetStaff | routes/staffmanage.js:385-409 | 400 exactly for a missing, empty or blank query. Otherwise 404 exactly when no staff id contains the trimmed query, and the matching ids when some do. |
| ScopeManage.ScopeSet | routes/scopemanage.js:9-18 | `scopeset` returns every scope row, in table order, and changes nothing. |
| ScopeManage.UpdateKeys | routes/scopemanage.js:28 | The keys are the staff ids of `updates`, in order. |
| ScopeManage.Patched | routes/scopemanage.js:32-35 | The patches keep the scope table's length. |
| ScopeManage.UpdateScope | routes/scopemanage.js:25-42 | The patches are applied in order up to the first failing one, and those before it stay. No other table changes. The answer is success exactly when every patch was applied. |
| ScopeManage.PatchedStep | routes/scopemanage.js:32-35 | The patches up to one key are those before it, then its own. |
| ScopeManage.PatchOf | routes/scopemanage.js:33 | A staff id has a patch exactly when it is one of the keys. |
| ScopeManage.UnkeyedRowsUnchanged | routes/scopemanage.js:32-35 | A scope row whose `staff_id` is no key of `updates` comes out unchanged. |
| ScopeManage.PatchedRows | routes/scopemanage.js:32-35 | With distinct keys and patches that leave `staff_id` alone, every scope row of a key's staff takes exactly that key's patch, and every other row is unchanged. |

## Left out

- Express plumbing: routing, headers, response bodies and messages. Each route's outcome is a result datatype.
- Upload decoding: `readExcel` (routes/fileupload.js:37-43), with the sheet decoding and the removal of the temporary file. The decoded rows are an input sequence.
- Stream timing: the 500 ms timer, the stream headers, and tearing the timer down on disconnect (routes/fileupload.js:253-274). One sample is `Registry.SampleOnce`. Its interleaving with the row loop is written as explicit event sequences (`UploadProgress.Run`).
- Unhandled rejections: `processExcel` is started without `await`. The effect of a failing handler's rejection on the process is not modelled; only the loop stopping is.
- Concurrency: `Promise.all` fan-outs (routes/dataDelete.js:88-115, routes/statusreport.js:49-58, routes/studentmanage.js:240-255) are modelled as sequential iteration.
- DataDelete.HodSemsRun: the stage is modelled as the unfiltered delete succeeding. The store refusing `destroy({})` outright is reached only through the `failure` parameter (`failure == Some(HodSemsStage)`, see `DataDelete.HodSemsRejectedRollsBack`), not as a certainty.
- Isolation and locking: the report clear at routes/dataDelete.js:190 runs outside the transaction and is modelled as applied at once. Locks, isolation levels and any wait it causes are left out.
- Floating point: `Math.round` of a float ratio is modelled as exact round-half-up of `100 * processed / total`. ESE marks and other numbers are integers.
- Ingestion.NumberOf, Text.DecimalValue: `Number(s)` is exact for optionally signed digit strings and the empty string. Strings with surrounding white space, a fraction, an exponent or a hexadecimal prefix read as NaN here, though JavaScript converts them; `Text.DecimalValue` gives None for all of them.
- Upsert primary keys and column types come from the table definitions, which are not part of this model. The keys are the parameter `Store.key`; cells are untyped. Keys the database generates (the auto-increment `s_no` of mentor and hod rows) are not modelled: an upserted row without a key column matches the rows whose key is NULL instead of getting a fresh key, and an empty key makes an upsert update every row.
- Fields a request leaves out are read as null. That is exact for `create` and `where` objects read as IS NULL. Sequelize refuses `undefined` in a `where` object and skips it in an `update` patch; neither is modelled. In the ESE upload loop this decides whether the upload stops: a sheet row without `reg_no` or `course_code` makes the real update throw and ends the upload, while the model reads the field as IS NULL and carries on (`Ingestion.EseNoMatchNoChange`).
- StaffManage.MentorUpdate, StaffManage.HodUpdate: the affected-row count is modelled as the number of rows matched. A driver that reports only changed rows would answer 404 for an update that changes nothing.
- `Op.like` is modelled as plain substring containment. Its `%` and `_` wildcards inside the query and its collation (case folding) are not modelled.
- SQL `DISTINCT` is modelled as first-occurrence de-duplication of the selected rows.
- The default `sort()` compares strings by Unicode code point. JavaScript compares UTF-16 code units, which differ only outside the Basic Multilingual Plane.
- The ESE report keys its status map by JavaScript object keys (strings). Here course codes are compared as cells, so a code and its string form are not merged. Object-key enumeration order only affects the `IN` list, whose order does not matter.
- Store failures in the CRUD routes (student, staff, tutor, HOD, status reports) are not modelled. Only ingestion, deletion and scope patching have failure parameters.
- Answers sent before later writes: `DELETE /hod/:id` answers before its scope update (routes/staffmanage.js:349-352). `/staffupdate`, `/staffdelete` and `/newhodadded` have catch blocks that send no answer. The model gives the final tables and the answer, not their timing.
- Plain reads with no logic are not modelled: `/studetails`, `/staffdetails`, `GET /mentor`, `GET /hod`, `/hodDropDownValues`, `/staffdepartments` and `/staffdata`. The same holds for the two `DISTINCT` dropdown routes `/student/manage/dropdownValues` and `/student/manage/add/dropdownValues` (routes/studentmanage.js:320-349, 402-450). The dropdown routes with logic (category, deptId, semester, section, coursecode) are modelled.
- Logging (`console.log`, `console.error`).

## Findings

| source | as written | input that shows it | evidently intended | confidence | as-written member | corrected member |
|---|---|---|---|---|---|---|
| routes/fileupload.js:267-271 | The stream ends and evicts the registry entry once the rounded percentage reaches 100. From 200 rows that is one row early, and from 400 rows two rows early. The loop's next `processed++` then throws on the missing entry and the loop stops. | An upload of `t ≥ 400` rows, sampled after `t - 2` rows: row `t - 1` is handled, its increment throws, and row `t` is never handled. | End the stream only once every row is processed (`processed >= total`). Every row is then handled under every interleaving. | not executed | UploadProgress.RowsLostAsWritten | UploadProgress.CorrectedSamplerCompletes |
| routes/dataDelete.js:188-191 | The hodSems stage counts the selected semesters' report rows, then runs `report.destroy({})` with no filter and no transaction. If the store accepts that call, it deletes every report row, and a later rollback does not restore them. If the store refuses a `destroy` with neither `where` nor `truncate` (Sequelize's usual check, unless a default scope supplies a `where`), every request with a non-empty hodSems fails at line 190, is rolled back and answers 500, so report rows are never lost but hodSems can never be used. | Report rows with `academic_sem` "2024-25 ODD" and "2024-25 EVEN", and hodSems = ["2024-25 ODD"]: the EVEN row is gone after the commit. | Delete only the selected semesters' report rows, inside the transaction. A report row then survives exactly when no running selector names its semester. | not executed; which of the two readings holds depends on the Sequelize version and on model options outside this model | DataDelete.HodSemsClearsOtherSemesters | DataDelete.IntendedHodSemsStage |

`DataDelete.Execute` models the route as written; `DataDelete.IntendedCommittedTables` is the
commit with the corrected stage, and `DataDelete.IntendedReportAt` states its report table.
