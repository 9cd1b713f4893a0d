/**
 * Bulk ingestion: the per-type row handlers of the upload routes and the
 * background loop that runs them one row at a time while counting progress
 * in the registry.
 *
 * A store write can fail (the source has no catch, so the loop stops); which
 * writes fail is a parameter `rejects`, given the table and the row or patch.
 */
module Ingestion {
  import opened Rows
  import opened Text
  import opened Tables
  import opened UploadProgress

  /** The upload types, one per upload route. */
  datatype Upload =
    | StaffMasterFile | StudentMasterFile | CourseMappingFile | MarkEntryFile | EseFile | HodFile
    | MentorFile | ScopeFile | CalculationFile | AcademicFile | RsMatrixFile | CourseMasterFile

  /** The registry key each route uses. */
  function KindName(u: Upload): string {
    match u
    case StaffMasterFile => "staffmaster"
    case StudentMasterFile => "studentmaster"
    case CourseMappingFile => "coursemapping"
    case MarkEntryFile => "markentry"
    case EseFile => "ese"
    case HodFile => "hod"
    case MentorFile => "mentor"
    case ScopeFile => "scope"
    case CalculationFile => "calculation"
    case AcademicFile => "academic"
    case RsMatrixFile => "rsmatrix"
    case CourseMasterFile => "coursemaster"
  }

  /** The table a raw-upsert upload writes. */
  function RawTable(u: Upload): TableName
    requires u !in {StaffMasterFile, StudentMasterFile, CourseMappingFile, EseFile}
  {
    match u
    case MarkEntryFile => MarkEntry
    case HodFile => Hod
    case MentorFile => Mentor
    case ScopeFile => Scope
    case CalculationFile => Calculation
    case AcademicFile => Academic
    case RsMatrixFile => RsMatrix
    case CourseMasterFile => CourseMaster
  }

  const StaffColumns: seq<Column> :=
    ["staff_id", "staff_category", "staff_name", "staff_pass", "staff_dept", "dept_category"]
  const StudentColumns: seq<Column> :=
    ["reg_no", "stu_name", "dept_id", "category", "semester", "section", "batch"]
  const ReportColumns: seq<Column> :=
    ["staff_id", "course_code", "category", "section", "dept_name"]
  const EseColumns: seq<Column> := ["ese_lot", "ese_mot", "ese_hot", "ese_total"]

  /** `Number(x)` of a decoded cell; None stands for NaN (a missing cell or a non-numeric string). */
  function NumberOf(c: Cell): (r: Option<int>)
    ensures c.Num? ==> r == Some(c.n)
    ensures c.Null? ==> r.None?
  {
    match c
    case Null => None
    case Num(n) => Some(n)
    case Str(s) => DecimalValue(s)
  }

  /** `Number(x) || -1`: the number when it is a non-zero number, and -1 otherwise. */
  function EseMark(c: Cell): (m: int)
    ensures m != 0
    ensures c.Num? && c.n != 0 ==> m == c.n
    ensures c.Null? || c == Num(0) || c == Str("") ==> m == -1
    ensures c.Str? && AllDigits(c.s) && DigitsValue(c.s) != 0 ==> m == DigitsValue(c.s)
    ensures NumberOf(c).None? ==> m == -1
  {
    var v := NumberOf(c);
    if v.Some? && v.value != 0 then v.value else -1
  }

  /** The patch the ESE handler applies. */
  function EsePatch(row: Row): (p: Row)
    ensures p.Keys == set c | c in EseColumns
    ensures forall c :: c in EseColumns ==> p[c] == Num(EseMark(Get(row, c)))
  {
    map["ese_lot" := Num(EseMark(Get(row, "ese_lot"))),
        "ese_mot" := Num(EseMark(Get(row, "ese_mot"))),
        "ese_hot" := Num(EseMark(Get(row, "ese_hot"))),
        "ese_total" := Num(EseMark(Get(row, "ese_total")))]
  }

  /** The mark entries an ESE row addresses: same `reg_no` and same `course_code`. */
  function EseWhere(row: Row): Filter {
    [Eq("reg_no", Get(row, "reg_no")), Eq("course_code", Get(row, "course_code"))]
  }

  /** The coursemapping row written: the decoded row with the active `academic_sem`. */
  function MappingRecord(row: Row, sem: Cell): Row {
    row["academic_sem" := sem]
  }

  /** The report row written beside it. */
  function ReportRecord(row: Row, sem: Cell): Row {
    Project(row, ReportColumns)["academic_sem" := sem]
  }

  /** What one handler did: whether it finished, and the tables after it. */
  datatype Outcome = Outcome(ok: bool, db: Db)

  /** One upsert through the store, unless the store rejects it. */
  function TryUpsert(key: TableName -> seq<Column>, rejects: (TableName, Row) -> bool,
                     db: Db, n: TableName, row: Row): Outcome
  {
    if rejects(n, row) then Outcome(false, db)
    else Outcome(true, WithTable(db, n, Upsert(TableOf(db, n), key(n), row)))
  }

  /**
   * The handler of upload type `u` applied to one decoded row. `active` is the
   * academic row read when the coursemapping upload was received; reading its
   * `academic_sem` when there is none throws.
   */
  function HandleRow(u: Upload, active: Option<Row>, key: TableName -> seq<Column>,
                     rejects: (TableName, Row) -> bool, db: Db, row: Row): Outcome
  {
    match u
    case StaffMasterFile => TryUpsert(key, rejects, db, StaffMaster, Project(row, StaffColumns))
    case StudentMasterFile => TryUpsert(key, rejects, db, StudentMaster, Project(row, StudentColumns))
    case CourseMappingFile =>
      if active.None? then Outcome(false, db)
      else
        var sem := Get(active.value, "academic_sem");
        var first := TryUpsert(key, rejects, db, CourseMapping, MappingRecord(row, sem));
        if !first.ok then first
        else TryUpsert(key, rejects, first.db, Report, ReportRecord(row, sem))
    case EseFile =>
      var patch := EsePatch(row);
      if rejects(MarkEntry, patch) then Outcome(false, db)
      else Outcome(true, WithTable(db, MarkEntry, Update(TableOf(db, MarkEntry), EseWhere(row), patch)))
    case _ => TryUpsert(key, rejects, db, RawTable(u), row)
  }

  /** The handler closure `processExcel` is given for upload type `u`. */
  function HandlerOf(u: Upload, active: Option<Row>, key: TableName -> seq<Column>,
                     rejects: (TableName, Row) -> bool): (Db, Row) -> Outcome
  {
    (db, row) => HandleRow(u, active, key, rejects, db, row)
  }

  /**
   * The loop over the rows, in order, stopping at the first handler that
   * fails: how many handlers finished, and the tables after the loop.
   */
  function RunRows(handler: (Db, Row) -> Outcome, db: Db, rows: seq<Row>): (r: (nat, Db))
    ensures r.0 <= |rows|
    decreases |rows|
  {
    if rows == [] then (0, db)
    else
      var o := handler(db, rows[0]);
      if !o.ok then (0, o.db)
      else
        var rest := RunRows(handler, o.db, rows[1..]);
        (rest.0 + 1, rest.1)
  }

  /** One handler, run against the store. */
  method Handle(store: Store, u: Upload, active: Option<Row>, rejects: (TableName, Row) -> bool, row: Row)
    returns (ok: bool)
    modifies store
    ensures Outcome(ok, store.tables) == HandleRow(u, active, store.key, rejects, old(store.tables), row)
  {
    match u
    case StaffMasterFile =>
      ok := UpsertThrough(store, rejects, StaffMaster, Project(row, StaffColumns));
    case StudentMasterFile =>
      ok := UpsertThrough(store, rejects, StudentMaster, Project(row, StudentColumns));
    case CourseMappingFile =>
      if active.None? {
        return false;
      }
      var sem := Get(active.value, "academic_sem");
      ok := UpsertThrough(store, rejects, CourseMapping, MappingRecord(row, sem));
      if ok {
        ok := UpsertThrough(store, rejects, Report, ReportRecord(row, sem));
      }
    case EseFile =>
      var patch := EsePatch(row);
      ok := !rejects(MarkEntry, patch);
      if ok {
        var _ := store.UpdateWhere(MarkEntry, EseWhere(row), patch);
      }
    case _ =>
      ok := UpsertThrough(store, rejects, RawTable(u), row);
  }

  method UpsertThrough(store: Store, rejects: (TableName, Row) -> bool, n: TableName, row: Row)
    returns (ok: bool)
    modifies store
    ensures Outcome(ok, store.tables) == TryUpsert(store.key, rejects, old(store.tables), n, row)
  {
    ok := !rejects(n, row);
    if ok {
      store.UpsertRow(n, row);
    }
  }

  /**
   * `processExcel(type, rows, handler)`: the entry for the type is reset to
   * `{ total: |rows|, processed: 0 }`, then each row is handled in order and
   * counted; the first failing handler ends the loop.
   */
  method ProcessExcel(store: Store, reg: Registry, u: Upload, active: Option<Row>,
                      rows: seq<Row>, rejects: (TableName, Row) -> bool)
    returns (completed: nat)
    modifies store, reg
    ensures completed <= |rows|
    ensures reg.entries == old(reg.entries)[KindName(u) := Progress(|rows|, completed)]
    ensures (completed, store.tables) == RunRows(HandlerOf(u, active, store.key, rejects), old(store.tables), rows)
  {
    var kind := KindName(u);
    ghost var h := HandlerOf(u, active, store.key, rejects);
    ghost var goal := RunRows(h, store.tables, rows);
    ghost var others := reg.entries;
    reg.Start(kind, |rows|);
    completed := 0;
    assert rows[completed..] == rows;
    while completed < |rows|
      invariant completed <= |rows|
      invariant reg.entries == others[kind := Progress(|rows|, completed)]
      invariant goal == Resume(completed, RunRows(h, store.tables, rows[completed..]))
    {
      var ok := Turn(store, reg, u, active, rejects, rows, completed, kind, others, goal);
      if !ok {
        return;
      }
      completed := completed + 1;
    }
    assert rows[completed..] == [];
  }

  /** The loop body on row `i`: the run still ends in `goal`, now resumed after it. */
  method Turn(store: Store, reg: Registry, u: Upload, active: Option<Row>, rejects: (TableName, Row) -> bool,
              rows: seq<Row>, i: nat, kind: string, ghost others: map<string, Progress>, ghost goal: (nat, Db))
    returns (ok: bool)
    requires i < |rows|
    requires reg.entries == others[kind := Progress(|rows|, i)]
    requires goal == Resume(i, RunRows(HandlerOf(u, active, store.key, rejects), store.tables, rows[i..]))
    modifies store, reg
    ensures reg.entries == others[kind := Progress(|rows|, if ok then i + 1 else i)]
    ensures ok ==> goal == Resume(i + 1, RunRows(HandlerOf(u, active, store.key, rejects), store.tables, rows[i + 1..]))
    ensures !ok ==> goal == (i, store.tables)
  {
    ghost var before := store.tables;
    ok := HandleCounted(store, reg, u, active, rejects, rows[i], kind, others, |rows|, i);
    ResumeStep(HandlerOf(u, active, store.key, rejects), before, rows, i, ok, store.tables);
  }

  /** One turn of the loop: the row's handler, then, when it succeeded, the count. */
  method HandleCounted(store: Store, reg: Registry, u: Upload, active: Option<Row>, rejects: (TableName, Row) -> bool,
                       row: Row, kind: string, ghost others: map<string, Progress>, total: nat, done: nat)
    returns (ok: bool)
    requires reg.entries == others[kind := Progress(total, done)]
    modifies store, reg
    ensures Outcome(ok, store.tables) == HandlerOf(u, active, store.key, rejects)(old(store.tables), row)
    ensures reg.entries == others[kind := Progress(total, if ok then done + 1 else done)]
  {
    ghost var h := HandlerOf(u, active, store.key, rejects);
    assert h(store.tables, row) == HandleRow(u, active, store.key, rejects, store.tables, row);
    ok := Handle(store, u, active, rejects, row);
    if ok {
      CountRow(reg, kind, others, total, done);
    }
  }

  /** `uploadProgress[type].processed++` on an entry the upload started. */
  method CountRow(reg: Registry, kind: string, ghost others: map<string, Progress>, total: nat, done: nat)
    requires reg.entries == others[kind := Progress(total, done)]
    modifies reg
    ensures reg.entries == others[kind := Progress(total, done + 1)]
  {
    var counted := reg.Increment(kind);
    assert counted;
  }

  /** The count and tables of a run that had already finished `done` rows before the remaining ones. */
  function Resume(done: nat, r: (nat, Db)): (nat, Db) {
    (done + r.0, r.1)
  }

  /** One more row of the loop: a handled row moves the resume point on, a failing one ends the run there. */
  lemma ResumeStep(h: (Db, Row) -> Outcome, db: Db, rows: seq<Row>, i: nat, ok: bool, db': Db)
    requires i < |rows|
    requires Outcome(ok, db') == h(db, rows[i])
    ensures ok ==> Resume(i, RunRows(h, db, rows[i..])) == Resume(i + 1, RunRows(h, db', rows[i + 1..]))
    ensures !ok ==> Resume(i, RunRows(h, db, rows[i..])) == (i, db')
  {
    assert rows[i..][0] == rows[i] && rows[i..][1..] == rows[i + 1..];
  }

  /** A handler that never fails handles every row. */
  lemma {:induction false} AllRowsHandled(h: (Db, Row) -> Outcome, db: Db, rows: seq<Row>)
    requires forall d, r :: h(d, r).ok
    ensures RunRows(h, db, rows).0 == |rows|
    decreases |rows|
  {
    if rows != [] {
      AllRowsHandled(h, h(db, rows[0]).db, rows[1..]);
    }
  }

  /**
   * The handlers never fail when the store rejects no write, provided a
   * coursemapping upload has an active academic row.
   */
  lemma HandlersSucceed(u: Upload, active: Option<Row>, key: TableName -> seq<Column>,
                        rejects: (TableName, Row) -> bool)
    requires forall n, r :: !rejects(n, r)
    requires u == CourseMappingFile ==> active.Some?
    ensures forall d, r :: HandlerOf(u, active, key, rejects)(d, r).ok
  {
  }

  /** A coursemapping upload with no active academic row fails on its first row and writes nothing. */
  lemma CourseMappingWithoutActive(key: TableName -> seq<Column>, rejects: (TableName, Row) -> bool,
                                   db: Db, rows: seq<Row>)
    requires rows != []
    ensures RunRows(HandlerOf(CourseMappingFile, None, key, rejects), db, rows) == (0, db)
  {
  }

  /** A failing row leaves the count at the number of rows handled before it. */
  lemma {:induction false} StopsAtFailure(h: (Db, Row) -> Outcome, db: Db, rows: seq<Row>, i: nat)
    requires i < |rows|
    requires RunRows(h, db, rows).0 >= i
    requires !h(RunRows(h, db, rows[..i]).1, rows[i]).ok
    ensures RunRows(h, db, rows).0 == i
    decreases i
  {
    if i > 0 {
      var o := h(db, rows[0]);
      assert o.ok;
      assert rows[..i][0] == rows[0] && rows[..i][1..] == rows[1..][..i - 1];
      StopsAtFailure(h, o.db, rows[1..], i - 1);
    }
  }

  /** The ESE filter holds of a mark entry exactly when its `reg_no` and `course_code` are the row's. */
  lemma EseWhereMatches(row: Row, r: Row)
    ensures Matches(r, EseWhere(row)) <==>
              Get(r, "reg_no") == Get(row, "reg_no") && Get(r, "course_code") == Get(row, "course_code")
  {
    var f := EseWhere(row);
    assert Holds(r, f[0]) && Holds(r, f[1]) ==> Matches(r, f);
  }

  /** An ESE row is handled unless its patch is rejected, and it touches the markentry table only. */
  lemma EseTouchesMarkEntryOnly(active: Option<Row>, key: TableName -> seq<Column>,
                                rejects: (TableName, Row) -> bool, db: Db, row: Row)
    requires !rejects(MarkEntry, EsePatch(row))
    ensures HandleRow(EseFile, active, key, rejects, db, row).ok
    ensures forall n :: n != MarkEntry ==> TableOf(HandleRow(EseFile, active, key, rejects, db, row).db, n) == TableOf(db, n)
  {
  }

  /**
   * After an ESE row, a mark entry with its `reg_no` and `course_code` has
   * four non-zero marks and its other columns unchanged; any other entry is
   * unchanged.
   */
  lemma EseUpdatesOnlyMatches(active: Option<Row>, key: TableName -> seq<Column>,
                              rejects: (TableName, Row) -> bool, db: Db, row: Row, i: nat)
    requires !rejects(MarkEntry, EsePatch(row))
    requires i < |TableOf(db, MarkEntry)|
    ensures var before := TableOf(db, MarkEntry)[i];
            var after := TableOf(HandleRow(EseFile, active, key, rejects, db, row).db, MarkEntry);
            |after| == |TableOf(db, MarkEntry)| &&
            if Get(before, "reg_no") == Get(row, "reg_no") && Get(before, "course_code") == Get(row, "course_code")
            then (forall c :: c in EseColumns ==> Get(after[i], c).Num? && Get(after[i], c).n != 0)
                 && (forall c :: c !in EseColumns ==> Get(after[i], c) == Get(before, c))
            else after[i] == before
  {
    var before := TableOf(db, MarkEntry)[i];
    var patch := EsePatch(row);
    EseWhereMatches(row, before);
    assert TableOf(HandleRow(EseFile, active, key, rejects, db, row).db, MarkEntry)
           == Update(TableOf(db, MarkEntry), EseWhere(row), patch);
    if Matches(before, EseWhere(row)) {
      forall c | c !in EseColumns ensures Get(before + patch, c) == Get(before, c) {
        assert c !in patch;
      }
    }
  }

  /** An ESE row that matches no mark entry still succeeds, and changes nothing. */
  lemma EseNoMatchNoChange(active: Option<Row>, key: TableName -> seq<Column>,
                           rejects: (TableName, Row) -> bool, db: Db, row: Row)
    requires !rejects(MarkEntry, EsePatch(row))
    requires forall r :: r in TableOf(db, MarkEntry) ==>
               Get(r, "reg_no") != Get(row, "reg_no") || Get(r, "course_code") != Get(row, "course_code")
    ensures HandleRow(EseFile, active, key, rejects, db, row) == Outcome(true, WithTable(db, MarkEntry, TableOf(db, MarkEntry)))
  {
    var before := TableOf(db, MarkEntry);
    forall i | 0 <= i < |before| ensures !Matches(before[i], EseWhere(row)) {
      EseWhereMatches(row, before[i]);
    }
    assert Update(before, EseWhere(row), EsePatch(row)) == before;
  }

  /** The report record holds the report columns of the decoded row and the semester. */
  lemma ReportRecordFields(row: Row, sem: Cell)
    ensures "academic_sem" in ReportRecord(row, sem) && ReportRecord(row, sem)["academic_sem"] == sem
    ensures forall c :: c in ReportColumns ==> c in ReportRecord(row, sem) && ReportRecord(row, sem)[c] == Get(row, c)
  {
    assert "academic_sem" !in ReportColumns;
  }

  /** A handled coursemapping row is an upsert into coursemapping followed by one into report. */
  lemma CourseMappingSteps(active: Row, key: TableName -> seq<Column>,
                           rejects: (TableName, Row) -> bool, db: Db, row: Row)
    requires HandleRow(CourseMappingFile, Some(active), key, rejects, db, row).ok
    ensures var sem := Get(active, "academic_sem");
            var first := TryUpsert(key, rejects, db, CourseMapping, MappingRecord(row, sem));
            var rr := ReportRecord(row, sem);
            && first.ok
            && TableOf(HandleRow(CourseMappingFile, Some(active), key, rejects, db, row).db, Report)
                 == Upsert(TableOf(first.db, Report), key(Report), rr)
            && TableOf(HandleRow(CourseMappingFile, Some(active), key, rejects, db, row).db, CourseMapping)
                 == Upsert(TableOf(db, CourseMapping), key(CourseMapping), MappingRecord(row, sem))
  {
  }

  /**
   * A coursemapping row that is handled leaves a coursemapping row carrying
   * the decoded row's columns, stamped with the `academic_sem` of the active
   * academic row.
   */
  lemma CourseMappingStamped(active: Row, key: TableName -> seq<Column>,
                             rejects: (TableName, Row) -> bool, db: Db, row: Row)
    requires HandleRow(CourseMappingFile, Some(active), key, rejects, db, row).ok
    ensures exists m :: m in TableOf(HandleRow(CourseMappingFile, Some(active), key, rejects, db, row).db, CourseMapping)
              && Get(m, "academic_sem") == Get(active, "academic_sem")
              && forall c :: c in row && c != "academic_sem" ==> Get(m, c) == row[c]
  {
    var m := MappingRecord(row, Get(active, "academic_sem"));
    CourseMappingSteps(active, key, rejects, db, row);
    var x := UpsertWitness(TableOf(db, CourseMapping), key(CourseMapping), m);
    assert Get(x, "academic_sem") == Get(active, "academic_sem");
  }

  /**
   * ... and a report row carrying its `staff_id`, `course_code`, `category`,
   * `section` and `dept_name`, stamped with the same `academic_sem`.
   */
  lemma ReportStamped(active: Row, key: TableName -> seq<Column>,
                      rejects: (TableName, Row) -> bool, db: Db, row: Row)
    requires HandleRow(CourseMappingFile, Some(active), key, rejects, db, row).ok
    ensures exists r :: r in TableOf(HandleRow(CourseMappingFile, Some(active), key, rejects, db, row).db, Report)
              && Get(r, "academic_sem") == Get(active, "academic_sem")
              && forall c :: c in ReportColumns ==> Get(r, c) == Get(row, c)
  {
    var sem := Get(active, "academic_sem");
    var first := TryUpsert(key, rejects, db, CourseMapping, MappingRecord(row, sem));
    var rr := ReportRecord(row, sem);
    CourseMappingSteps(active, key, rejects, db, row);
    ReportRecordFields(row, sem);
    var y := UpsertWitness(TableOf(first.db, Report), key(Report), rr);
    assert Get(y, "academic_sem") == sem;
    assert forall c :: c in ReportColumns ==> Get(y, c) == Get(row, c);
  }
}
