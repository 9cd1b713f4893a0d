/**
 * Student management: the cascading dropdown lists of the student screens,
 * adding a student with one mark entry per course, deleting a student and
 * their marks, the student list of a class, and the duplicate-checked add.
 */
module StudentManage {
  import opened Rows
  import opened Tables

  /** A dropdown route's answer. */
  datatype Dropdown =
    | NoActiveYear              // 404, no academic row has `active_sem` 1
    | NoCourseCode              // 404, no mark entry matches
    | Values(values: seq<Cell>) // 200, the distinct values

  lemma MatchesThree(r: Row, a: Cond, b: Cond, c: Cond)
    ensures Matches(r, [a, b, c]) <==> Holds(r, a) && Holds(r, b) && Holds(r, c)
  {
    assert [a, b, c] == [a] + [b, c];
    MatchesCons(r, a, [b, c]);
    MatchesTwo(r, b, c);
  }

  lemma MatchesFour(r: Row, a: Cond, b: Cond, c: Cond, d: Cond)
    ensures Matches(r, [a, b, c, d]) <==> Holds(r, a) && Holds(r, b) && Holds(r, c) && Holds(r, d)
  {
    assert [a, b, c, d] == [a] + [b, c, d];
    MatchesCons(r, a, [b, c, d]);
    MatchesThree(r, b, c, d);
  }

  /** `[...new Set(rows.map(r => r.col))]` over the rows of `t` matching `f`. */
  function ValuesOf(t: Table, f: Filter, col: Column): (r: seq<Cell>)
    ensures NoDup(r)
    ensures forall x :: x in r <==> exists row :: row in t && Matches(row, f) && Get(row, col) == x
  {
    var rows := Select(t, f);
    var column := ColumnOf(rows, col);
    forall x ensures x in column <==> exists row :: row in t && Matches(row, f) && Get(row, col) == x {
      if x in column {
        var i :| 0 <= i < |rows| && column[i] == x;
        assert rows[i] in rows;
      }
      if exists row :: row in t && Matches(row, f) && Get(row, col) == x {
        var row :| row in t && Matches(row, f) && Get(row, col) == x;
        var i :| 0 <= i < |rows| && rows[i] == row;
        assert column[i] == x;
      }
    }
    Distinct(column)
  }

  /** The values come out in the order in which the matching rows first carry them. */
  lemma ValuesInFirstOrder(t: Table, f: Filter, col: Column)
    ensures var column := ColumnOf(Select(t, f), col);
            forall i, j :: 0 <= i < j < |ValuesOf(t, f, col)| ==>
              FirstIndex(column, ValuesOf(t, f, col)[i]) < FirstIndex(column, ValuesOf(t, f, col)[j])
  {
    DistinctOrder(ColumnOf(Select(t, f), col));
  }

  /** The semester of the active academic row. */
  function ActiveSem(db: Db): Cell
    requires ActiveAcademic(db).Some?
  {
    Get(ActiveAcademic(db).value, "academic_sem")
  }

  /** `/category`: the categories of the active semester's students. */
  function Categories(db: Db): (r: Dropdown)
    ensures r.NoActiveYear? <==> ActiveAcademic(db).None?
    ensures r.Values? ==> NoDup(r.values) && forall x :: x in r.values <==>
              exists row :: row in TableOf(db, StudentMaster) && Get(row, "academic_sem") == ActiveSem(db)
                             && Get(row, "category") == x
    ensures !r.NoCourseCode?
  {
    if ActiveAcademic(db).None? then NoActiveYear
    else
      var f := [Eq("academic_sem", ActiveSem(db))];
      assert forall row :: Matches(row, f) <==> Get(row, "academic_sem") == ActiveSem(db) by {
        forall row { MatchesOne(row, f[0]); }
      }
      Values(ValuesOf(TableOf(db, StudentMaster), f, "category"))
  }

  /** `/deptId`: the department ids of the active semester's students of a category. */
  function DeptIds(db: Db, category: Cell): (r: Dropdown)
    ensures r.NoActiveYear? <==> ActiveAcademic(db).None?
    ensures r.Values? ==> NoDup(r.values) && forall x :: x in r.values <==>
              exists row :: row in TableOf(db, StudentMaster) && Get(row, "academic_sem") == ActiveSem(db)
                             && Get(row, "category") == category && Get(row, "dept_id") == x
    ensures !r.NoCourseCode?
  {
    if ActiveAcademic(db).None? then NoActiveYear
    else
      var f := [Eq("academic_sem", ActiveSem(db)), Eq("category", category)];
      assert forall row :: Matches(row, f) <==> Get(row, "academic_sem") == ActiveSem(db) && Get(row, "category") == category by {
        forall row { MatchesTwo(row, f[0], f[1]); }
      }
      Values(ValuesOf(TableOf(db, StudentMaster), f, "dept_id"))
  }

  /** `/semester`: the semesters of the active semester's students of a category and department. */
  function Semesters(db: Db, category: Cell, deptId: Cell): (r: Dropdown)
    ensures r.NoActiveYear? <==> ActiveAcademic(db).None?
    ensures r.Values? ==> NoDup(r.values) && forall x :: x in r.values <==>
              exists row :: row in TableOf(db, StudentMaster) && Get(row, "academic_sem") == ActiveSem(db)
                             && Get(row, "category") == category && Get(row, "dept_id") == deptId
                             && Get(row, "semester") == x
    ensures !r.NoCourseCode?
  {
    if ActiveAcademic(db).None? then NoActiveYear
    else
      var f := [Eq("academic_sem", ActiveSem(db)), Eq("category", category), Eq("dept_id", deptId)];
      assert forall row :: Matches(row, f) <==> Get(row, "academic_sem") == ActiveSem(db) && Get(row, "category") == category
                                                && Get(row, "dept_id") == deptId by {
        assert f == [f[0], f[1], f[2]];
        forall row { MatchesThree(row, f[0], f[1], f[2]); }
      }
      Values(ValuesOf(TableOf(db, StudentMaster), f, "semester"))
  }

  /** The `where` object of the section and course-code routes. */
  function ClassFilter(db: Db, category: Cell, deptId: Cell, semester: Cell): Filter
    requires ActiveAcademic(db).Some?
  {
    [Eq("academic_sem", ActiveSem(db)), Eq("category", category), Eq("dept_id", deptId), Eq("semester", semester)]
  }

  predicate InClass(db: Db, row: Row, category: Cell, deptId: Cell, semester: Cell)
    requires ActiveAcademic(db).Some?
  {
    Get(row, "academic_sem") == ActiveSem(db) && Get(row, "category") == category
    && Get(row, "dept_id") == deptId && Get(row, "semester") == semester
  }

  lemma MatchesClass(db: Db, category: Cell, deptId: Cell, semester: Cell)
    requires ActiveAcademic(db).Some?
    ensures forall row :: Matches(row, ClassFilter(db, category, deptId, semester)) <==> InClass(db, row, category, deptId, semester)
  {
    var f := ClassFilter(db, category, deptId, semester);
    assert f == [f[0], f[1], f[2], f[3]];
    forall row { MatchesFour(row, f[0], f[1], f[2], f[3]); }
  }

  /** `/section`: the sections of the active semester's students of a category, department and semester. */
  function Sections(db: Db, category: Cell, deptId: Cell, semester: Cell): (r: Dropdown)
    ensures r.NoActiveYear? <==> ActiveAcademic(db).None?
    ensures r.Values? ==> NoDup(r.values) && forall x :: x in r.values <==>
              exists row :: row in TableOf(db, StudentMaster) && InClass(db, row, category, deptId, semester)
                             && Get(row, "section") == x
    ensures !r.NoCourseCode?
  {
    if ActiveAcademic(db).None? then NoActiveYear
    else
      MatchesClass(db, category, deptId, semester);
      Values(ValuesOf(TableOf(db, StudentMaster), ClassFilter(db, category, deptId, semester), "section"))
  }

  /**
   * `/coursecode`: the course codes of the active semester's mark entries of
   * a category, department and semester; 404 when there is none.
   */
  function CourseCodes(db: Db, category: Cell, deptId: Cell, semester: Cell): (r: Dropdown)
    ensures r.NoActiveYear? <==> ActiveAcademic(db).None?
    ensures r.NoCourseCode? <==> ActiveAcademic(db).Some? && forall row :: row in TableOf(db, MarkEntry) ==> !InClass(db, row, category, deptId, semester)
    ensures r.Values? ==> r.values != [] && NoDup(r.values) && forall x :: x in r.values <==>
              exists row :: row in TableOf(db, MarkEntry) && InClass(db, row, category, deptId, semester)
                             && Get(row, "course_code") == x
  {
    if ActiveAcademic(db).None? then NoActiveYear
    else
      var f := ClassFilter(db, category, deptId, semester);
      MatchesClass(db, category, deptId, semester);
      if Select(TableOf(db, MarkEntry), f) == [] then NoCourseCode
      else
        var row := Select(TableOf(db, MarkEntry), f)[0];
        assert row in Select(TableOf(db, MarkEntry), f);
        Values(ValuesOf(TableOf(db, MarkEntry), f, "course_code"))
  }

  /*
   * `/addstudent`.
   */

  datatype AddStudentResult =
    | AddNoActiveYear     // 404
    | NameOrRegNoMissing  // 400
    | StudentAdded        // 201
    | AddFailed           // 500: `course_codes` is absent or holds a non-string

  const StudentFields: seq<Column> := ["stu_name", "reg_no", "batch", "emis", "section", "semester", "mentor", "category", "dept_id"]

  /** The student fields each mark entry copies from the request. */
  const MarkStudentFields: seq<Column> := ["stu_name", "reg_no", "semester", "batch", "category", "dept_id"]

  /** The mark columns a new mark entry leaves null. */
  const MarkColumns: seq<Column> := ["c1_lot", "c1_hot", "c1_mot", "c1_total", "c2_lot", "c2_mot", "c2_hot", "c2_total",
                                     "a1_lot", "a2_lot", "ese_lot", "ese_hot", "ese_mot", "ese_total"]

  /** The new studentmaster row: the request's student fields and the active semester. */
  function StudentRecord(req: Row, sem: Cell): Row {
    Project(req, StudentFields)["academic_sem" := sem]
  }

  /** The new markentry row for one course code. */
  function MarkRecord(req: Row, sem: Cell, code: string): Row {
    NullMarks + Project(req, MarkStudentFields)["course_code" := Str(code)]["academic_sem" := sem]
  }

  const NullMarks: Row := map c | c in MarkColumns :: Null

  /** A mark entry carries the student's fields, the course code and the active semester. */
  lemma MarkRecordFields(req: Row, sem: Cell, code: string)
    ensures var m := MarkRecord(req, sem, code);
            && Get(m, "course_code") == Str(code) && Get(m, "academic_sem") == sem
            && forall f :: f in MarkStudentFields ==> Get(m, f) == Get(req, f)
  {
  }

  lemma MarkColumnsApart()
    ensures forall c :: c in MarkColumns ==> c !in MarkStudentFields && c != "course_code" && c != "academic_sem"
  {
  }

  /** Every mark of a new mark entry is null. */
  lemma MarkRecordMarksNull(req: Row, sem: Cell, code: string)
    ensures forall c :: c in MarkColumns ==> Get(MarkRecord(req, sem, code), c) == Null
  {
    MarkColumnsApart();
  }

  /** One mark entry per string course code, in the order of the codes. */
  function MarkRecords(req: Row, sem: Cell, codes: seq<Cell>): seq<Row> {
    if codes == [] then []
    else
      var rest := MarkRecords(req, sem, codes[..|codes| - 1]);
      match codes[|codes| - 1]
      case Str(code) => rest + [MarkRecord(req, sem, code)]
      case _ => rest
  }

  /** The mark entries are exactly those of the string codes. */
  lemma {:induction false} MarkRecordsOfStrings(req: Row, sem: Cell, codes: seq<Cell>)
    ensures forall r :: r in MarkRecords(req, sem, codes) <==> exists code :: Str(code) in codes && r == MarkRecord(req, sem, code)
  {
    if codes != [] {
      var p := codes[..|codes| - 1];
      MarkRecordsOfStrings(req, sem, p);
      assert codes == p + [codes[|codes| - 1]];
      forall r ensures r in MarkRecords(req, sem, codes) <==> exists code :: Str(code) in codes && r == MarkRecord(req, sem, code) {
        if r in MarkRecords(req, sem, codes) && r !in MarkRecords(req, sem, p) {
          assert r == MarkRecord(req, sem, codes[|codes| - 1].s);
        }
        if exists code :: Str(code) in codes && r == MarkRecord(req, sem, code) {
          var code :| Str(code) in codes && r == MarkRecord(req, sem, code);
          if Str(code) !in p {
            assert codes[|codes| - 1] == Str(code);
          }
        }
      }
    }
  }

  lemma MarkRecordsSnoc(req: Row, sem: Cell, codes: seq<Cell>, c: Cell)
    ensures MarkRecords(req, sem, codes + [c]) ==
              MarkRecords(req, sem, codes) + if c.Str? then [MarkRecord(req, sem, c.s)] else []
  {
    assert (codes + [c])[..|codes|] == codes;
  }

  predicate AllStrings(codes: seq<Cell>) {
    forall i :: 0 <= i < |codes| ==> codes[i].Str?
  }

  /** With every code a string there is one mark entry per code. */
  lemma {:induction false} MarkRecordsCount(req: Row, sem: Cell, codes: seq<Cell>)
    requires AllStrings(codes)
    ensures |MarkRecords(req, sem, codes)| == |codes|
  {
    if codes != [] {
      MarkRecordsCount(req, sem, codes[..|codes| - 1]);
    }
  }

  /** The tables after the student row and the mark entries of the string codes are created. */
  function StudentAddedTables(db: Db, req: Row, sem: Cell, codes: Option<seq<Cell>>): Db {
    var d := WithTable(db, StudentMaster, TableOf(db, StudentMaster) + [StudentRecord(req, sem)]);
    match codes
    case None => d
    case Some(cs) => Append(d, MarkEntry, MarkRecords(req, sem, cs))
  }

  /**
   * `/addstudent`. Each course code is checked and its mark entry created in
   * turn; a non-string code makes the answer 500, but the student row and the
   * mark entries of the string codes stay. `codes` is None when the request
   * has no `course_codes`.
   */
  method AddStudent(store: Store, req: Row, codes: Option<seq<Cell>>) returns (resp: AddStudentResult)
    modifies store
    ensures ActiveAcademic(old(store.tables)).None? ==> resp == AddNoActiveYear && store.tables == old(store.tables)
    ensures ActiveAcademic(old(store.tables)).Some? && (!Truthy(Get(req, "stu_name")) || !Truthy(Get(req, "reg_no"))) ==>
              resp == NameOrRegNoMissing && store.tables == old(store.tables)
    ensures ActiveAcademic(old(store.tables)).Some? && Truthy(Get(req, "stu_name")) && Truthy(Get(req, "reg_no")) ==>
              && store.tables == StudentAddedTables(old(store.tables), req, Get(ActiveAcademic(old(store.tables)).value, "academic_sem"), codes)
              && (resp == StudentAdded <==> codes.Some? && AllStrings(codes.value))
              && (resp != StudentAdded ==> resp == AddFailed)
  {
    var active := ActiveAcademic(store.tables);
    if active.None? {
      return AddNoActiveYear;
    }
    var sem := Get(active.value, "academic_sem");
    if !Truthy(Get(req, "stu_name")) || !Truthy(Get(req, "reg_no")) {
      return NameOrRegNoMissing;
    }
    store.Create(StudentMaster, StudentRecord(req, sem));
    if codes.None? {
      return AddFailed;
    }
    var allStrings := AddMarks(store, req, sem, codes.value);
    resp := if allStrings then StudentAdded else AddFailed;
  }

  /**
   * The `course_codes.map` of `/addstudent`: a mark entry per string code, in
   * order; `allStrings` is false when some code is not a string.
   */
  method AddMarks(store: Store, req: Row, sem: Cell, cs: seq<Cell>) returns (allStrings: bool)
    modifies store
    ensures store.tables == Append(old(store.tables), MarkEntry, MarkRecords(req, sem, cs))
    ensures allStrings <==> AllStrings(cs)
  {
    ghost var d := store.tables;
    allStrings := true;
    var i := 0;
    while i < |cs|
      invariant 0 <= i <= |cs|
      invariant store.tables == Append(d, MarkEntry, MarkRecords(req, sem, cs[..i]))
      invariant allStrings <==> AllStrings(cs[..i])
    {
      assert cs[..i + 1] == cs[..i] + [cs[i]];
      MarkRecordsSnoc(req, sem, cs[..i], cs[i]);
      if cs[i].Str? {
        var row := MarkRecord(req, sem, cs[i].s);
        AppendSnoc(d, MarkEntry, MarkRecords(req, sem, cs[..i]), row);
        store.Create(MarkEntry, row);
        assert store.tables == Append(d, MarkEntry, MarkRecords(req, sem, cs[..i + 1]));
      } else {
        allStrings := false;
        assert MarkRecords(req, sem, cs[..i + 1]) == MarkRecords(req, sem, cs[..i]);
      }
      i := i + 1;
    }
    assert cs[..|cs|] == cs;
  }

  /**
   * After `/addstudent` gets past its checks, the student row and the mark
   * entry of every string code are present, every earlier row is kept and no
   * other table changes.
   */
  lemma StudentAddedHolds(db: Db, req: Row, sem: Cell, codes: Option<seq<Cell>>)
    ensures var d := StudentAddedTables(db, req, sem, codes);
            && TableOf(d, StudentMaster) == TableOf(db, StudentMaster) + [StudentRecord(req, sem)]
            && (forall r :: r in TableOf(db, MarkEntry) ==> r in TableOf(d, MarkEntry))
            && (codes.Some? ==> forall code :: Str(code) in codes.value ==> MarkRecord(req, sem, code) in TableOf(d, MarkEntry))
            && (codes.None? ==> TableOf(d, MarkEntry) == TableOf(db, MarkEntry))
            && forall n :: n != StudentMaster && n != MarkEntry ==> TableOf(d, n) == TableOf(db, n)
  {
    if codes.Some? {
      MarkRecordsOfStrings(req, sem, codes.value);
    }
  }

  /*
   * Deleting a student.
   */

  function RegNoIs(regNo: Cell): Filter { [Eq("reg_no", regNo)] }

  /** The tables after the mark entries and the studentmaster rows with `reg_no` are destroyed. */
  function WithoutStudent(db: Db, regNo: Cell): Db {
    var d := WithTable(db, MarkEntry, Destroy(TableOf(db, MarkEntry), RegNoIs(regNo)));
    WithTable(d, StudentMaster, Destroy(TableOf(db, StudentMaster), RegNoIs(regNo)))
  }

  datatype DeleteResult = StudentDeleted | StudentNotFound

  /** `/deletestudent/:reg_no`: marks first, then the student; 404 when no studentmaster row went. */
  method DeleteStudent(store: Store, regNo: Cell) returns (resp: DeleteResult)
    modifies store
    ensures store.tables == WithoutStudent(old(store.tables), regNo)
    ensures resp == StudentNotFound <==> Count(TableOf(old(store.tables), StudentMaster), RegNoIs(regNo)) == 0
  {
    ghost var db := store.tables;
    var _ := store.DestroyWhere(MarkEntry, RegNoIs(regNo));
    assert TableOf(store.tables, StudentMaster) == TableOf(db, StudentMaster);
    var deletedStudent := store.DestroyWhere(StudentMaster, RegNoIs(regNo));
    resp := if deletedStudent > 0 then StudentDeleted else StudentNotFound;
  }

  /**
   * After the deletion no mark entry or studentmaster row has the register
   * number, every other row of the two tables is kept, and the other tables
   * are as they were. The marks go even when the answer is 404.
   */
  lemma WithoutStudentRemovesOnly(db: Db, regNo: Cell)
    ensures var d := WithoutStudent(db, regNo);
            && (forall r :: r in TableOf(d, MarkEntry) <==> r in TableOf(db, MarkEntry) && Get(r, "reg_no") != regNo)
            && (forall r :: r in TableOf(d, StudentMaster) <==> r in TableOf(db, StudentMaster) && Get(r, "reg_no") != regNo)
            && forall n :: n != MarkEntry && n != StudentMaster ==> TableOf(d, n) == TableOf(db, n)
  {
    forall r { MatchesOne(r, RegNoIs(regNo)[0]); }
  }

  /** `/student/delete`: the studentmaster rows only; 404 when none went. */
  method StudentDelete(store: Store, regNo: Cell) returns (resp: DeleteResult)
    modifies store
    ensures store.tables == WithTable(old(store.tables), StudentMaster, Destroy(TableOf(old(store.tables), StudentMaster), RegNoIs(regNo)))
    ensures resp == StudentNotFound <==> Count(TableOf(old(store.tables), StudentMaster), RegNoIs(regNo)) == 0
  {
    var deletedCount := store.DestroyWhere(StudentMaster, RegNoIs(regNo));
    resp := if deletedCount > 0 then StudentDeleted else StudentNotFound;
  }

  /*
   * `/student/manage/studentsList`.
   */

  /** `details?.f || null`. */
  function FieldOrNull(details: Option<Row>, f: Column): (c: Cell)
    ensures Truthy(c) || c == Null
  {
    if details.Some? && Truthy(Get(details.value, f)) then Get(details.value, f) else Null
  }

  const ListFields: seq<Column> := ["stu_name", "category", "dept_id", "semester", "section", "batch"]

  function StudentEntry(regNo: Cell, details: Option<Row>): Row {
    map["reg_no" := regNo, "stu_name" := FieldOrNull(details, "stu_name"), "category" := FieldOrNull(details, "category"),
        "dept_id" := FieldOrNull(details, "dept_id"), "semester" := FieldOrNull(details, "semester"),
        "section" := FieldOrNull(details, "section"), "batch" := FieldOrNull(details, "batch")]
  }

  /** The register numbers of the class's active-semester mark entries, each once. */
  function ListedRegNos(db: Db, semester: Cell, department: Cell, category: Cell): seq<Cell>
    requires ActiveAcademic(db).Some?
  {
    ValuesOf(TableOf(db, MarkEntry),
             [Eq("semester", semester), Eq("dept_id", department), Eq("category", category), Eq("academic_sem", ActiveSem(db))],
             "reg_no")
  }

  /** The class's studentmaster rows, in any semester of the academic calendar. */
  function ClassStudents(db: Db, semester: Cell, department: Cell, category: Cell): Table {
    Select(TableOf(db, StudentMaster), [Eq("semester", semester), Eq("dept_id", department), Eq("category", category)])
  }

  /**
   * One entry per register number, in the order of `ListedRegNos`; None is
   * the 500 answer when no academic row is active.
   */
  function StudentsList(db: Db, semester: Cell, department: Cell, category: Cell): (r: Option<seq<Row>>)
    ensures r.None? <==> ActiveAcademic(db).None?
    ensures r.Some? ==> var regs := ListedRegNos(db, semester, department, category);
              |r.value| == |regs| && forall i :: 0 <= i < |regs| ==> Get(r.value[i], "reg_no") == regs[i]
  {
    if ActiveAcademic(db).None? then None
    else
      var regs := ListedRegNos(db, semester, department, category);
      var details := ClassStudents(db, semester, department, category);
      Some(seq(|regs|, i requires 0 <= i < |regs| => StudentEntry(regs[i], FindFirst(details, RegNoIs(regs[i])))))
  }

  /** An entry holds its register number and the details' fields, a falsy one as null. */
  lemma StudentEntryFields(regNo: Cell, details: Option<Row>)
    ensures Get(StudentEntry(regNo, details), "reg_no") == regNo
    ensures forall f :: f in ListFields ==> Get(StudentEntry(regNo, details), f) == FieldOrNull(details, f)
  {
  }

  /** With no studentmaster row of the class for the register number, every detail is null. */
  lemma StudentsListUnmatched(db: Db, semester: Cell, department: Cell, category: Cell, i: nat)
    requires ActiveAcademic(db).Some? && i < |ListedRegNos(db, semester, department, category)|
    requires forall row :: row in ClassStudents(db, semester, department, category) ==>
               Get(row, "reg_no") != ListedRegNos(db, semester, department, category)[i]
    ensures forall f :: f in ListFields ==> Get(StudentsList(db, semester, department, category).value[i], f) == Null
  {
    var regs := ListedRegNos(db, semester, department, category);
    var details := ClassStudents(db, semester, department, category);
    var found := FindFirst(details, RegNoIs(regs[i]));
    forall row | row in details ensures !Matches(row, RegNoIs(regs[i])) {
      MatchesOne(row, RegNoIs(regs[i])[0]);
    }
    assert found.None?;
    StudentEntryFields(regs[i], found);
  }

  /**
   * Each entry's details come from the first studentmaster row of the class
   * with its register number, a falsy field becoming null.
   */
  lemma StudentsListFirstMatch(db: Db, semester: Cell, department: Cell, category: Cell, i: nat, j: nat)
    requires ActiveAcademic(db).Some? && i < |ListedRegNos(db, semester, department, category)|
    requires var details := ClassStudents(db, semester, department, category);
             var reg := ListedRegNos(db, semester, department, category)[i];
             && j < |details| && Get(details[j], "reg_no") == reg
             && forall l :: 0 <= l < j ==> Get(details[l], "reg_no") != reg
    ensures var details := ClassStudents(db, semester, department, category);
            forall f :: f in ListFields ==>
              Get(StudentsList(db, semester, department, category).value[i], f) ==
                if Truthy(Get(details[j], f)) then Get(details[j], f) else Null
  {
    var regs := ListedRegNos(db, semester, department, category);
    var details := ClassStudents(db, semester, department, category);
    var f := RegNoIs(regs[i]);
    MatchesOne(details[j], f[0]);
    CountPositive(details, f, j);
    var found := FindFirst(details, f);
    var k :| 0 <= k < |details| && details[k] == found.value && Matches(details[k], f)
             && forall l :: 0 <= l < k ==> !Matches(details[l], f);
    MatchesOne(details[k], f[0]);
    assert j == k;
    StudentEntryFields(regs[i], found);
  }

  /*
   * `/newStudentAdd`.
   */

  const NewStudentFields: seq<Column> := ["reg_no", "stu_name", "dept_id", "category", "semester", "section", "batch"]

  /** `newStudentAdd` looks a student up by register number and semester. */
  const RegSem: seq<Column> := ["reg_no", "semester"]

  datatype NewStudentResult = AlreadyExisting | NewStudentAdded

  method NewStudentAdd(store: Store, req: Row) returns (resp: NewStudentResult)
    modifies store
    ensures var row := Project(req, NewStudentFields);
            && store.tables == WithTable(old(store.tables), StudentMaster, InsertUnlessPresent(TableOf(old(store.tables), StudentMaster), RegSem, row))
            && (resp == NewStudentAdded <==> forall r :: r in TableOf(old(store.tables), StudentMaster) ==> !SameKey(r, row, RegSem))
  {
    var row := Project(req, NewStudentFields);
    InsertUnlessPresentUnique(TableOf(store.tables, StudentMaster), RegSem, row);
    if store.CountWhere(StudentMaster, KeyFilter(row, RegSem)) > 0 {
      return AlreadyExisting;
    }
    store.Create(StudentMaster, row);
    resp := NewStudentAdded;
  }
}
