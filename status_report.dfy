/**
 * The status reports: the department names of a semester's reports, the
 * department status report (report rows joined with their course mapping),
 * the relationship-matrix status of each mapped course, the matrix counts,
 * and the end-semester-examination completeness of each active course.
 *
 * Every route here only reads the tables.
 */
module StatusReport {
  import opened Rows
  import opened Text
  import opened Tables

  function SemIs(sem: Cell): Filter { [Eq("academic_sem", sem)] }

  /** `statusDeptName`: the `dept_name` of the semester's report rows, each once, in order of first occurrence. */
  function DeptNames(db: Db, sem: Cell): (r: seq<Cell>)
    ensures NoDup(r)
    ensures forall x :: x in r <==> exists row :: row in TableOf(db, Report) && Get(row, "academic_sem") == sem && Get(row, "dept_name") == x
  {
    var rows := Select(TableOf(db, Report), SemIs(sem));
    var names := ColumnOf(rows, "dept_name");
    forall x ensures x in names <==> exists row :: row in TableOf(db, Report) && Get(row, "academic_sem") == sem && Get(row, "dept_name") == x {
      if x in names {
        var i :| 0 <= i < |rows| && names[i] == x;
        assert rows[i] in rows;
        MatchesOne(rows[i], SemIs(sem)[0]);
      }
      if exists row :: row in TableOf(db, Report) && Get(row, "academic_sem") == sem && Get(row, "dept_name") == x {
        var row :| row in TableOf(db, Report) && Get(row, "academic_sem") == sem && Get(row, "dept_name") == x;
        MatchesOne(row, SemIs(sem)[0]);
        var i :| 0 <= i < |rows| && rows[i] == row;
        assert names[i] == x;
      }
    }
    Distinct(names)
  }

  /** The names come out in the order in which the semester's report rows first carry them. */
  lemma DeptNamesInFirstOrder(db: Db, sem: Cell)
    ensures var names := ColumnOf(Select(TableOf(db, Report), SemIs(sem)), "dept_name");
            forall i, j :: 0 <= i < j < |DeptNames(db, sem)| ==>
              FirstIndex(names, DeptNames(db, sem)[i]) < FirstIndex(names, DeptNames(db, sem)[j])
  {
    DistinctOrder(ColumnOf(Select(TableOf(db, Report), SemIs(sem)), "dept_name"));
  }

  /*
   * `deptstatusreport`. Each course-mapping row is first given the
   * department of its staff; then each selected report row is completed from
   * the first of those rows with the same staff and course.
   */

  /** The department of the staff of a course-mapping row, or 'unknown' when no staff row has its id. */
  function StaffDept(db: Db, cm: Row): Cell {
    match FindFirst(TableOf(db, StaffMaster), [Eq("staff_id", Get(cm, "staff_id"))])
    case None => Str("unknown")
    case Some(s) => Get(s, "staff_dept")
  }

  /** The course title as the ALL branch stores it: a falsy title becomes ''. */
  function TitleOrEmpty(c: Cell): (r: Cell)
    ensures Truthy(c) ==> r == c
    ensures !Truthy(c) ==> r == Str("")
  {
    if Truthy(c) then c else Str("")
  }

  /** One element of `staffDetails`; `all` tells whether the request asked for ALL departments. */
  function Detail(db: Db, all: bool, cm: Row): (d: Row)
    ensures Get(d, "staff_id") == Get(cm, "staff_id") && Get(d, "course_code") == Get(cm, "course_code")
    ensures Get(d, "staff_name") == Get(cm, "staff_name") && Get(d, "dept_id") == Get(cm, "dept_id")
    ensures Get(d, "dept_name") == StaffDept(db, cm)
    ensures Get(d, "course_title") == if all then TitleOrEmpty(Get(cm, "course_title")) else Get(cm, "course_title")
  {
    if all then cm["course_title" := TitleOrEmpty(Get(cm, "course_title"))]["dept_name" := StaffDept(db, cm)]
    else cm["dept_name" := StaffDept(db, cm)]
  }

  function Details(db: Db, all: bool, t: Table): (s: Table)
    ensures |s| == |t|
  {
    if t == [] then [] else [Detail(db, all, t[0])] + Details(db, all, t[1..])
  }

  /** The join condition: the same staff and the same course. */
  function JoinKey(m: Row): Filter {
    [Eq("staff_id", Get(m, "staff_id")), Eq("course_code", Get(m, "course_code"))]
  }

  lemma MatchesJoinKey(x: Row, m: Row)
    ensures Matches(x, JoinKey(m)) <==> Get(x, "staff_id") == Get(m, "staff_id") && Get(x, "course_code") == Get(m, "course_code")
  {
    MatchesTwo(x, JoinKey(m)[0], JoinKey(m)[1]);
  }

  /** Searching the details finds the detail of the first matching course-mapping row. */
  lemma {:induction false} FindDetail(db: Db, all: bool, t: Table, m: Row)
    ensures FindFirst(Details(db, all, t), JoinKey(m))
            == match FindFirst(t, JoinKey(m)) case None => None case Some(c) => Some(Detail(db, all, c))
  {
    if t != [] {
      MatchesJoinKey(t[0], m);
      MatchesJoinKey(Detail(db, all, t[0]), m);
      assert Details(db, all, t)[0] == Detail(db, all, t[0]);
      assert Details(db, all, t)[1..] == Details(db, all, t[1..]);
      FindDetail(db, all, t[1..], m);
    }
  }

  /** The columns the join adds to each report row. */
  function Joined(m: Row, found: Option<Row>): Row {
    match found
    case None =>
      m["staff_name" := Str("unknown")]["dept_id" := Str("unknown")]["dept_name" := Str("unknown")]["course_title" := Str("")]
    case Some(s) =>
      m["staff_name" := Get(s, "staff_name")]["dept_id" := Get(s, "dept_id")]["dept_name" := Get(s, "dept_name")]["course_title" := Get(s, "course_title")]
  }

  lemma JoinedFields(m: Row, found: Option<Row>)
    ensures var e := Joined(m, found);
            match found
            case None =>
              Get(e, "staff_name") == Str("unknown") && Get(e, "dept_id") == Str("unknown")
              && Get(e, "dept_name") == Str("unknown") && Get(e, "course_title") == Str("")
            case Some(s) =>
              && Get(e, "staff_name") == Get(s, "staff_name") && Get(e, "dept_id") == Get(s, "dept_id")
              && Get(e, "dept_name") == Get(s, "dept_name") && Get(e, "course_title") == Get(s, "course_title")
  {
  }

  predicate Added(k: Column) {
    k == "staff_name" || k == "dept_id" || k == "dept_name" || k == "course_title"
  }

  lemma JoinedKeeps(m: Row, found: Option<Row>, k: Column)
    requires k in m && !Added(k)
    ensures k in Joined(m, found) && Joined(m, found)[k] == m[k]
  {
  }

  /** The report rows a request selects: the semester's, and the department's unless it asks for ALL. */
  function ReportRows(db: Db, sem: Cell, dept: Cell): Table {
    if dept == Str("ALL") then Select(TableOf(db, Report), SemIs(sem))
    else Select(TableOf(db, Report), [Eq("academic_sem", sem), Eq("dept_name", dept)])
  }

  function DeptStatusReport(db: Db, sem: Cell, dept: Cell): (r: seq<Row>)
    ensures |r| == |ReportRows(db, sem, dept)|
    ensures forall i, k :: 0 <= i < |r| && k in ReportRows(db, sem, dept)[i] && !Added(k) ==>
              k in r[i] && r[i][k] == ReportRows(db, sem, dept)[i][k]
  {
    var details := Details(db, dept == Str("ALL"), TableOf(db, CourseMapping));
    var rows := ReportRows(db, sem, dept);
    var r := seq(|rows|, i requires 0 <= i < |rows| => Joined(rows[i], FindFirst(details, JoinKey(rows[i]))));
    forall i, k | 0 <= i < |r| && k in rows[i] && !Added(k) ensures k in r[i] && r[i][k] == rows[i][k] {
      JoinedKeeps(rows[i], FindFirst(details, JoinKey(rows[i])), k);
    }
    r
  }

  /**
   * Each entry of the department status report takes the staff name and the
   * department id of the first course-mapping row with its staff and course,
   * and the department of that row's staff; with no such row all three are
   * 'unknown' and the title is ''. Only the ALL branch turns a falsy title
   * into ''.
   */
  lemma DeptStatusJoin(db: Db, sem: Cell, dept: Cell, i: nat)
    requires i < |ReportRows(db, sem, dept)|
    ensures var m := ReportRows(db, sem, dept)[i];
            var e := DeptStatusReport(db, sem, dept)[i];
            match FindFirst(TableOf(db, CourseMapping), JoinKey(m))
            case None =>
              Get(e, "staff_name") == Str("unknown") && Get(e, "dept_id") == Str("unknown")
              && Get(e, "dept_name") == Str("unknown") && Get(e, "course_title") == Str("")
            case Some(c) =>
              && Get(e, "staff_name") == Get(c, "staff_name") && Get(e, "dept_id") == Get(c, "dept_id")
              && Get(e, "dept_name") == StaffDept(db, c)
              && Get(e, "course_title") == if dept == Str("ALL") then TitleOrEmpty(Get(c, "course_title")) else Get(c, "course_title")
  {
    var rows := ReportRows(db, sem, dept);
    var details := Details(db, dept == Str("ALL"), TableOf(db, CourseMapping));
    var found := FindFirst(details, JoinKey(rows[i]));
    assert DeptStatusReport(db, sem, dept)[i] == Joined(rows[i], found);
    FindDetail(db, dept == Str("ALL"), TableOf(db, CourseMapping), rows[i]);
    JoinedFields(rows[i], found);
  }

  /** The rows the non-ALL branch selects are the semester's rows of that department. */
  lemma DeptRowsSelected(db: Db, sem: Cell, dept: Cell)
    requires dept != Str("ALL")
    ensures forall row :: row in ReportRows(db, sem, dept) <==>
              row in TableOf(db, Report) && Get(row, "academic_sem") == sem && Get(row, "dept_name") == dept
  {
    forall row ensures Matches(row, [Eq("academic_sem", sem), Eq("dept_name", dept)])
                       <==> Get(row, "academic_sem") == sem && Get(row, "dept_name") == dept {
      MatchesTwo(row, Eq("academic_sem", sem), Eq("dept_name", dept));
    }
  }

  /*
   * `allmatrixreport` and `matrixcount`.
   */

  /** `rsMatrix.some(m => m.course_code === code)`. */
  function HasMatrix(rs: Table, code: Cell): (b: bool)
    ensures b <==> exists x :: x in rs && Get(x, "course_code") == code
  {
    if rs == [] then false
    else Get(rs[0], "course_code") == code || HasMatrix(rs[1..], code)
  }

  function MatrixStatus(done: bool): string {
    if done then "Completed" else "Incomplete"
  }

  /**
   * One entry per course-mapping row of the semester, in table order, with
   * status 'Completed' exactly when some relationship-matrix row has its
   * course code.
   */
  function AllMatrixReport(db: Db, sem: Cell): (r: seq<Row>)
    ensures var rows := Select(TableOf(db, CourseMapping), SemIs(sem));
            |r| == |rows|
            && forall i :: 0 <= i < |r| ==>
                 r[i] == rows[i]["status" := Str(MatrixStatus(exists x :: x in TableOf(db, RsMatrix) && Get(x, "course_code") == Get(rows[i], "course_code")))]
  {
    var rows := Select(TableOf(db, CourseMapping), SemIs(sem));
    seq(|rows|, i requires 0 <= i < |rows| => rows[i]["status" := Str(MatrixStatus(HasMatrix(TableOf(db, RsMatrix), Get(rows[i], "course_code"))))])
  }

  datatype MatrixCounts = MatrixCounts(uniqueCourseCount: nat, completeCount: nat)

  /** The DISTINCT course codes mapped in the semester. */
  function MappedCodes(db: Db, sem: Cell): seq<Cell> {
    Distinct(ColumnOf(Select(TableOf(db, CourseMapping), SemIs(sem)), "course_code"))
  }

  /**
   * `uniqueCourseCount` is the number of different course codes mapped in
   * the semester; `completeCount` the number of different non-null codes
   * among the relationship-matrix rows whose code is one of them.
   */
  function MatrixCount(db: Db, sem: Cell): (r: MatrixCounts)
    ensures r.uniqueCourseCount == |set row | row in Select(TableOf(db, CourseMapping), SemIs(sem)) :: Get(row, "course_code")|
    ensures r.completeCount == |set row | row in TableOf(db, RsMatrix) && Get(row, "course_code") != Null
                                            && Get(row, "course_code") in MappedCodes(db, sem) :: Get(row, "course_code")|
  {
    var codes := MappedCodes(db, sem);
    var cm := Select(TableOf(db, CourseMapping), SemIs(sem));
    var done := Select(TableOf(db, RsMatrix), [In("course_code", codes)]);
    DistinctCount(ColumnOf(cm, "course_code"));
    ColumnSet(cm, "course_code");
    DistinctCount(ColumnOf(done, "course_code"));
    ColumnSet(done, "course_code");
    forall row ensures row in done <==> row in TableOf(db, RsMatrix) && Get(row, "course_code") != Null && Get(row, "course_code") in codes {
      MatchesOne(row, In("course_code", codes));
    }
    assert (set row | row in done :: Get(row, "course_code"))
        == (set row | row in TableOf(db, RsMatrix) && Get(row, "course_code") != Null && Get(row, "course_code") in codes :: Get(row, "course_code"));
    MatrixCounts(|codes|, |Distinct(ColumnOf(done, "course_code"))|)
  }

  /** No more courses are complete than are mapped. */
  lemma CompleteWithinUnique(db: Db, sem: Cell)
    ensures MatrixCount(db, sem).completeCount <= MatrixCount(db, sem).uniqueCourseCount
  {
    var codes := MappedCodes(db, sem);
    var cm := Select(TableOf(db, CourseMapping), SemIs(sem));
    var done := set row | row in TableOf(db, RsMatrix) && Get(row, "course_code") != Null && Get(row, "course_code") in codes :: Get(row, "course_code");
    DistinctCount(ColumnOf(cm, "course_code"));
    ColumnSet(cm, "course_code");
    assert done <= set x | x in codes;
    assert (set x | x in codes) == (set row | row in cm :: Get(row, "course_code"));
    SubsetCardinality(done, set x | x in codes);
  }

  /*
   * `esereport`: the end-semester-examination completeness of each course of
   * the active semester. The route fills a status per course code from the
   * mark entries, then a result per course code from the course-mapping rows
   * with those codes.
   *
   * JavaScript object keys are strings, so the route identifies a code with
   * its string form; here codes are compared as cells.
   */

  /** The status string of a course: 'Complete' or 'Incomplete'. */
  datatype EseState = Complete | Incomplete

  datatype EseCourse = EseCourse(course_code: Cell, course_title: Cell, status: EseState)

  datatype EseResponse =
    | NoActiveSemester            // 404, 'Active semester not found'
    | EseCourses(courses: seq<EseCourse>)

  /** The active semester's mark entries: `academic_sem` equal to the string form of the active row's. */
  function EseMarks(db: Db, active: Row): Table {
    Select(TableOf(db, MarkEntry), [Eq("academic_sem", Str(CellString(Get(active, "academic_sem"))))])
  }

  /** A mark entry with any of the four examination marks still null. */
  predicate EseMissing(e: Row) {
    Get(e, "ese_lot") == Null || Get(e, "ese_mot") == Null || Get(e, "ese_hot") == Null || Get(e, "ese_total") == Null
  }

  /** The course codes of the mark entries, each once, in order of first occurrence. */
  function MarkCodes(marks: Table): seq<Cell> {
    Distinct(ColumnOf(marks, "course_code"))
  }

  /** The course-mapping rows whose code is one of the mark entries' codes, in table order. */
  function TitledRows(db: Db, marks: Table): Table {
    Select(TableOf(db, CourseMapping), [In("course_code", MarkCodes(marks))])
  }

  /** The title of the last row with course code `code`. */
  function LastTitle(rows: Table, code: Cell): Option<Cell> {
    if rows == [] then None
    else if Get(rows[|rows| - 1], "course_code") == code then Some(Get(rows[|rows| - 1], "course_title"))
    else LastTitle(rows[..|rows| - 1], code)
  }

  /** `LastTitle` finds a title exactly when some row has the code, and then it is the title of the last such row. */
  lemma {:induction false} LastTitleIsLast(rows: Table, code: Cell)
    ensures LastTitle(rows, code).None? <==> forall j :: 0 <= j < |rows| ==> Get(rows[j], "course_code") != code
    ensures LastTitle(rows, code).Some? ==>
              exists j :: 0 <= j < |rows| && Get(rows[j], "course_code") == code && LastTitle(rows, code).value == Get(rows[j], "course_title")
                          && forall l :: j < l < |rows| ==> Get(rows[l], "course_code") != code
  {
    if rows != [] && Get(rows[|rows| - 1], "course_code") != code {
      var p := rows[..|rows| - 1];
      LastTitleIsLast(p, code);
      assert forall j :: 0 <= j < |p| ==> p[j] == rows[j];
    }
  }

  lemma LastTitleStep(rows: Table, k: nat, c: Cell)
    requires k < |rows|
    ensures LastTitle(rows[..k + 1], c)
            == if Get(rows[k], "course_code") == c then Some(Get(rows[k], "course_title")) else LastTitle(rows[..k], c)
  {
    assert rows[..k + 1][..k] == rows[..k];
  }

  function EseStatus(complete: bool): EseState {
    if complete then Complete else Incomplete
  }

  /**
   * One entry per course code of `TitledRows`, in order of first occurrence:
   * its title is the last such row's, and its status is 'Incomplete' exactly
   * when some active mark entry of the course lacks an examination mark.
   */
  method EseReport(db: Db) returns (resp: EseResponse)
    ensures ActiveAcademic(db).None? <==> resp == NoActiveSemester
    ensures ActiveAcademic(db).Some? ==>
              var marks := EseMarks(db, ActiveAcademic(db).value);
              var rows := TitledRows(db, marks);
              var codes := Distinct(ColumnOf(rows, "course_code"));
              && resp.EseCourses?
              && |resp.courses| == |codes|
              && forall i :: 0 <= i < |codes| ==>
                   && resp.courses[i].course_code == codes[i]
                   && LastTitle(rows, codes[i]).Some?
                   && resp.courses[i].course_title == LastTitle(rows, codes[i]).value
                   && resp.courses[i].status
                      == EseStatus(forall e :: e in marks && Get(e, "course_code") == codes[i] ==> !EseMissing(e))
  {
    var active := ActiveAcademic(db);
    if active.None? {
      return NoActiveSemester;
    }
    var marks := EseMarks(db, active.value);
    var status, keys := CourseStatusMap(marks);
    var rows := Select(TableOf(db, CourseMapping), [In("course_code", keys)]);
    var result, order := ResultMap(rows, status);
    EseEntries(marks, status, keys, TableOf(db, CourseMapping), result, order);
    resp := EseCourses(seq(|order|, i requires 0 <= i < |order| => result[order[i]]));
  }

  /**
   * A course is listed exactly when its code is not null, some active mark
   * entry has it, and some course-mapping row has it.
   */
  lemma EseCodesListed(db: Db, marks: Table, x: Cell)
    ensures x in Distinct(ColumnOf(TitledRows(db, marks), "course_code"))
            <==> x != Null && (exists e :: e in marks && Get(e, "course_code") == x)
                 && exists row :: row in TableOf(db, CourseMapping) && Get(row, "course_code") == x
  {
    var rows := TitledRows(db, marks);
    var col := ColumnOf(rows, "course_code");
    var mcol := ColumnOf(marks, "course_code");
    if x in col {
      var j :| 0 <= j < |rows| && col[j] == x;
      assert rows[j] in rows;
      MatchesOne(rows[j], In("course_code", MarkCodes(marks)));
      var l :| 0 <= l < |marks| && mcol[l] == x;
      assert marks[l] in marks;
    }
    if x != Null && (exists e :: e in marks && Get(e, "course_code") == x)
       && exists row :: row in TableOf(db, CourseMapping) && Get(row, "course_code") == x {
      var e :| e in marks && Get(e, "course_code") == x;
      var l :| 0 <= l < |marks| && marks[l] == e;
      assert mcol[l] == x;
      var row :| row in TableOf(db, CourseMapping) && Get(row, "course_code") == x;
      MatchesOne(row, In("course_code", MarkCodes(marks)));
      var j :| 0 <= j < |rows| && rows[j] == row;
      assert col[j] == x;
    }
  }

  /** Every code of the result has a title and the status its mark entries give it. */
  lemma EseEntries(marks: Table, status: map<Cell, bool>, keys: seq<Cell>, cm: Table,
                   result: map<Cell, EseCourse>, order: seq<Cell>)
    requires forall c :: c in status <==> c in keys
    requires forall c :: c in status ==> (status[c] <==> AllFilled(marks, |marks|, c))
    requires var rows := Select(cm, [In("course_code", keys)]);
             && order == Distinct(ColumnOf(rows, "course_code"))
             && (forall c :: c in result <==> c in order)
             && forall c :: c in result ==>
                  && result[c].course_code == c
                  && LastTitle(rows, c).Some? && result[c].course_title == LastTitle(rows, c).value
                  && result[c].status == EseStatus(c in status && status[c])
    ensures forall i :: 0 <= i < |order| ==>
              && order[i] in result
              && result[order[i]].status == EseStatus(forall e :: e in marks && Get(e, "course_code") == order[i] ==> !EseMissing(e))
  {
    var rows := Select(cm, [In("course_code", keys)]);
    forall i | 0 <= i < |order|
      ensures result[order[i]].status == EseStatus(forall e :: e in marks && Get(e, "course_code") == order[i] ==> !EseMissing(e))
    {
      var c := order[i];
      var col := ColumnOf(rows, "course_code");
      assert c in col;
      var j :| 0 <= j < |rows| && col[j] == c;
      assert rows[j] in rows;
      MatchesOne(rows[j], In("course_code", keys));
      assert c in status;
      if !status[c] {
        assert !AllFilled(marks, |marks|, c);
        var l :| 0 <= l < |marks| && Get(marks[l], "course_code") == c && EseMissing(marks[l]);
        assert marks[l] in marks;
      } else {
        forall e | e in marks && Get(e, "course_code") == c ensures !EseMissing(e) {
          var l :| 0 <= l < |marks| && marks[l] == e;
        }
      }
    }
  }

  /** No mark entry of course `c` among the first `n` lacks an examination mark. */
  predicate AllFilled(marks: Table, n: nat, c: Cell)
    requires n <= |marks|
  {
    forall j :: 0 <= j < n && Get(marks[j], "course_code") == c ==> !EseMissing(marks[j])
  }

  lemma AllFilledStep(marks: Table, n: nat, c: Cell)
    requires n < |marks|
    ensures AllFilled(marks, n + 1, c)
            <==> AllFilled(marks, n, c) && (Get(marks[n], "course_code") == c ==> !EseMissing(marks[n]))
  {
  }

  /** The codes the first loop has met after `i` mark entries, in order of first occurrence. */
  ghost predicate StatusKeys(marks: Table, i: nat, status: map<Cell, bool>, keys: seq<Cell>)
    requires i <= |marks|
  {
    && keys == Distinct(ColumnOf(marks, "course_code")[..i])
    && (forall c :: c in status <==> c in keys)
  }

  /** What the first loop has built after `i` mark entries. */
  ghost predicate StatusBuilt(marks: Table, i: nat, status: map<Cell, bool>, keys: seq<Cell>)
    requires i <= |marks|
  {
    && StatusKeys(marks, i, status, keys)
    && (forall c :: c in status ==> (status[c] <==> AllFilled(marks, i, c)))
  }

  /** The loop body: a new code starts 'Complete'; an entry lacking a mark makes its code 'Incomplete'. */
  function StatusStep(e: Row, status: map<Cell, bool>): map<Cell, bool> {
    var code := Get(e, "course_code");
    var s := if code !in status then status[code := true] else status;
    if EseMissing(e) then s[code := false] else s
  }

  function KeysStep(e: Row, status: map<Cell, bool>, keys: seq<Cell>): seq<Cell> {
    if Get(e, "course_code") !in status then keys + [Get(e, "course_code")] else keys
  }

  lemma StatusKeysStep(marks: Table, i: nat, status: map<Cell, bool>, keys: seq<Cell>)
    requires i < |marks| && StatusKeys(marks, i, status, keys)
    ensures StatusKeys(marks, i + 1, StatusStep(marks[i], status), KeysStep(marks[i], status, keys))
  {
    DistinctSnoc(ColumnOf(marks, "course_code"), i);
  }

  /** A code not met among the first `i` entries has no entry there lacking a mark. */
  lemma UnseenAllFilled(marks: Table, i: nat, status: map<Cell, bool>, keys: seq<Cell>, c: Cell)
    requires i <= |marks| && StatusKeys(marks, i, status, keys) && c !in status
    ensures AllFilled(marks, i, c)
  {
    forall j | 0 <= j < i ensures Get(marks[j], "course_code") != c {
      assert ColumnOf(marks, "course_code")[..i][j] == Get(marks[j], "course_code");
    }
  }

  lemma StatusEntryStep(marks: Table, i: nat, status: map<Cell, bool>, c: Cell)
    requires i < |marks| && c in StatusStep(marks[i], status)
    requires c in status ==> (status[c] <==> AllFilled(marks, i, c))
    requires c !in status ==> AllFilled(marks, i, c)
    ensures StatusStep(marks[i], status)[c] <==> AllFilled(marks, i + 1, c)
  {
    AllFilledStep(marks, i, c);
  }

  lemma StatusBuiltStep(marks: Table, i: nat, status: map<Cell, bool>, keys: seq<Cell>)
    requires i < |marks| && StatusBuilt(marks, i, status, keys)
    ensures StatusBuilt(marks, i + 1, StatusStep(marks[i], status), KeysStep(marks[i], status, keys))
  {
    StatusKeysStep(marks, i, status, keys);
    var status' := StatusStep(marks[i], status);
    forall c | c in status' ensures status'[c] <==> AllFilled(marks, i + 1, c) {
      if c !in status {
        UnseenAllFilled(marks, i, status, keys, c);
      }
      StatusEntryStep(marks, i, status, c);
    }
  }

  /**
   * The first loop: a status per course code, true for 'Complete'; `keys`
   * are the codes in order of first occurrence.
   */
  method CourseStatusMap(marks: Table) returns (status: map<Cell, bool>, keys: seq<Cell>)
    ensures keys == MarkCodes(marks)
    ensures forall c :: c in status <==> c in keys
    ensures forall c :: c in status ==> (status[c] <==> AllFilled(marks, |marks|, c))
  {
    status, keys := map[], [];
    var i := 0;
    while i < |marks|
      invariant 0 <= i <= |marks|
      invariant StatusBuilt(marks, i, status, keys)
    {
      StatusBuiltStep(marks, i, status, keys);
      var code := Get(marks[i], "course_code");
      if code !in status {
        status := status[code := true];
        keys := keys + [code];
      }
      if EseMissing(marks[i]) {
        status := status[code := false];
      }
      i := i + 1;
    }
    assert ColumnOf(marks, "course_code")[..|marks|] == ColumnOf(marks, "course_code");
  }

  /** The codes the second loop has met after `k` course-mapping rows, in order of first occurrence. */
  ghost predicate ResultOrder(rows: Table, k: nat, result: map<Cell, EseCourse>, order: seq<Cell>)
    requires k <= |rows|
  {
    && order == Distinct(ColumnOf(rows, "course_code")[..k])
    && (forall c :: c in result <==> c in order)
  }

  /** The entry for code `c` after `k` course-mapping rows. */
  ghost predicate ResultEntry(rows: Table, k: nat, status: map<Cell, bool>, result: map<Cell, EseCourse>, c: Cell)
    requires k <= |rows| && c in result
  {
    && result[c].course_code == c
    && LastTitle(rows[..k], c).Some? && result[c].course_title == LastTitle(rows[..k], c).value
    && result[c].status == EseStatus(c in status && status[c])
  }

  /** What the second loop has built after `k` course-mapping rows. */
  ghost predicate ResultBuilt(rows: Table, k: nat, status: map<Cell, bool>, result: map<Cell, EseCourse>, order: seq<Cell>)
    requires k <= |rows|
  {
    && ResultOrder(rows, k, result, order)
    && (forall c :: c in result ==> ResultEntry(rows, k, status, result, c))
  }

  /** `resultMap.set(code, ...)` for one course-mapping row. */
  function ResultStep(row: Row, status: map<Cell, bool>, result: map<Cell, EseCourse>): map<Cell, EseCourse> {
    var code := Get(row, "course_code");
    result[code := EseCourse(code, Get(row, "course_title"), EseStatus(code in status && status[code]))]
  }

  lemma ResultOrderStep(rows: Table, k: nat, status: map<Cell, bool>, result: map<Cell, EseCourse>, order: seq<Cell>)
    requires k < |rows| && ResultOrder(rows, k, result, order)
    ensures ResultOrder(rows, k + 1, ResultStep(rows[k], status, result),
                        if Get(rows[k], "course_code") in result then order else order + [Get(rows[k], "course_code")])
  {
    DistinctSnoc(ColumnOf(rows, "course_code"), k);
  }

  lemma ResultEntryStep(rows: Table, k: nat, status: map<Cell, bool>, result: map<Cell, EseCourse>, c: Cell)
    requires k < |rows| && c in ResultStep(rows[k], status, result)
    requires c in result ==> ResultEntry(rows, k, status, result, c)
    ensures ResultEntry(rows, k + 1, status, ResultStep(rows[k], status, result), c)
  {
    LastTitleStep(rows, k, c);
  }

  lemma ResultBuiltStep(rows: Table, k: nat, status: map<Cell, bool>, result: map<Cell, EseCourse>, order: seq<Cell>)
    requires k < |rows| && ResultBuilt(rows, k, status, result, order)
    ensures ResultBuilt(rows, k + 1, status, ResultStep(rows[k], status, result),
                        if Get(rows[k], "course_code") in result then order else order + [Get(rows[k], "course_code")])
  {
    ResultOrderStep(rows, k, status, result, order);
    var result' := ResultStep(rows[k], status, result);
    forall c | c in result' ensures ResultEntry(rows, k + 1, status, result', c) {
      ResultEntryStep(rows, k, status, result, c);
    }
  }

  lemma ResultBuiltDone(rows: Table, status: map<Cell, bool>, result: map<Cell, EseCourse>, order: seq<Cell>)
    requires ResultBuilt(rows, |rows|, status, result, order)
    ensures order == Distinct(ColumnOf(rows, "course_code"))
    ensures forall c :: c in result <==> c in order
    ensures forall c :: c in result ==>
              && result[c].course_code == c
              && LastTitle(rows, c).Some? && result[c].course_title == LastTitle(rows, c).value
              && result[c].status == EseStatus(c in status && status[c])
  {
    assert ColumnOf(rows, "course_code")[..|rows|] == ColumnOf(rows, "course_code");
    assert rows[..|rows|] == rows;
  }

  /**
   * The second loop: a result per course code of `rows`, the last row's
   * title winning; `order` is the insertion order of the codes.
   */
  method ResultMap(rows: Table, status: map<Cell, bool>) returns (result: map<Cell, EseCourse>, order: seq<Cell>)
    ensures order == Distinct(ColumnOf(rows, "course_code"))
    ensures forall c :: c in result <==> c in order
    ensures forall c :: c in result ==>
              && result[c].course_code == c
              && LastTitle(rows, c).Some? && result[c].course_title == LastTitle(rows, c).value
              && result[c].status == EseStatus(c in status && status[c])
  {
    result, order := map[], [];
    var k := 0;
    while k < |rows|
      invariant 0 <= k <= |rows|
      invariant ResultBuilt(rows, k, status, result, order)
    {
      ResultBuiltStep(rows, k, status, result, order);
      var code := Get(rows[k], "course_code");
      if code !in result {
        order := order + [code];
      }
      result := ResultStep(rows[k], status, result);
      k := k + 1;
    }
    ResultBuiltDone(rows, status, result, order);
  }
}
