/**
 * Bulk deletion: the option lists of the deletion screen, the read-only
 * preview of how many rows each selected value would remove, and the
 * authorised, transactional execution.
 *
 * A store call inside the transaction can fail; which stage fails is a
 * parameter of the execution. The committed state outside the transaction
 * is kept apart from the working state, since one delete of the execution
 * runs outside the transaction.
 */
module DataDelete {
  import opened Rows
  import opened Text
  import opened Tables

  /** `values.filter(Boolean)`. */
  function KeepTruthy(s: seq<Cell>): (r: seq<Cell>)
    ensures forall x :: x in r <==> x in s && Truthy(x)
    ensures NoDup(s) ==> NoDup(r)
  {
    if s == [] then []
    else
      var rest := KeepTruthy(s[1..]);
      assert NoDup(s) ==> s[0] !in s[1..] && NoDup(s[1..]);
      (if Truthy(s[0]) then [s[0]] else []) + rest
  }

  /**
   * One options list: the DISTINCT non-null values of column `col` (taken in
   * order of first occurrence), without falsy values, sorted.
   */
  function OptionList(t: Table, col: Column): (r: seq<Cell>)
    ensures NoDup(r)
    ensures Sorted(r)
    ensures forall x :: x in r <==> Truthy(x) && exists row :: row in t && Get(row, col) == x
  {
    var present := Select(t, [Ne(col, Null)]);
    var values := KeepTruthy(Distinct(ColumnOf(present, col)));
    var r := SortCells(values);
    NoDupPermutation(values, r);
    forall x ensures x in r <==> Truthy(x) && exists row :: row in t && Get(row, col) == x {
      assert x in r <==> x in values by {
        assert x in r <==> x in multiset(r);
      }
      if Truthy(x) && exists row :: row in t && Get(row, col) == x {
        var row :| row in t && Get(row, col) == x;
        assert Holds(row, Ne(col, Null));
        assert Matches(row, [Ne(col, Null)]);
        var i :| 0 <= i < |present| && present[i] == row;
        assert ColumnOf(present, col)[i] == x;
      }
      if x in values {
        var i :| 0 <= i < |present| && ColumnOf(present, col)[i] == x;
        assert present[i] in present;
      }
    }
    r
  }

  /** The body of `/data-delete/options`. */
  datatype OptionsResult = OptionsResult(
    batches: seq<Cell>, mentorAcademicYears: seq<Cell>, markEntryAcademicYears: seq<Cell>,
    reportAcademicSems: seq<Cell>, mentorAcademicSems: seq<Cell>, markEntryAcademicSems: seq<Cell>,
    hodAllCount: nat, staffAllCount: nat)

  /** The staff rows a full staff deletion removes: a category that is set and is not ADMIN. */
  const NotAdminCategory: Filter := [Ne("staff_category", Str("ADMIN"))]

  function Options(db: Db): OptionsResult {
    OptionsResult(
      OptionList(TableOf(db, StudentMaster), "batch"),
      OptionList(TableOf(db, Mentor), "academic_year"),
      OptionList(TableOf(db, MarkEntry), "academic_year"),
      OptionList(TableOf(db, Report), "academic_sem"),
      OptionList(TableOf(db, Mentor), "academic_sem"),
      OptionList(TableOf(db, MarkEntry), "academic_sem"),
      |TableOf(db, Hod)|,
      Count(TableOf(db, StaffMaster), NotAdminCategory))
  }

  /**
   * The options' staff count leaves out exactly the ADMIN-category rows and
   * the rows with no category.
   */
  lemma OptionsStaffCount(db: Db)
    ensures Options(db).staffAllCount
            + Count(TableOf(db, StaffMaster), [Eq("staff_category", Str("ADMIN"))])
            + Count(TableOf(db, StaffMaster), [Eq("staff_category", Null)])
            == |TableOf(db, StaffMaster)|
  {
    NeCountComplement(TableOf(db, StaffMaster), "staff_category", Str("ADMIN"));
  }

  /** The selectors of a preview or an execution; an absent list is `[]`, the flags are their truthiness. */
  datatype Selection = Selection(
    studentBatches: seq<Cell>, mentorYears: seq<Cell>, markEntryYears: seq<Cell>,
    reportSems: seq<Cell>, hodSems: seq<Cell>, hodAll: bool, staffAll: bool)

  datatype ValueCount = ValueCount(value: Cell, count: nat)

  /** The body of `/data-delete/preview`. */
  datatype PreviewResult = PreviewResult(
    studentCounts: seq<ValueCount>, mentorCounts: seq<ValueCount>, markEntryCounts: seq<ValueCount>,
    reportCounts: seq<ValueCount>, hodCounts: seq<ValueCount>, hodAllCount: nat, staffAllCount: nat)

  /** One `{ value, count }` per requested value, in request order: the rows whose column equals it. */
  function CountsBy(t: Table, col: Column, values: seq<Cell>): (r: seq<ValueCount>)
    ensures |r| == |values|
    ensures forall i :: 0 <= i < |values| ==>
              r[i].value == values[i] && r[i].count == |Select(t, [Eq(col, values[i])])|
  {
    if values == [] then []
    else [ValueCount(values[0], Count(t, [Eq(col, values[0])]))] + CountsBy(t, col, values[1..])
  }

  function Sum(vcs: seq<ValueCount>): nat {
    if vcs == [] then 0 else vcs[0].count + Sum(vcs[1..])
  }

  /** The preview's staff filter. */
  const NotAdminId: Filter := [Ne("staff_id", Str("ADMIN"))]

  function Preview(db: Db, sel: Selection): PreviewResult {
    PreviewResult(
      CountsBy(TableOf(db, StudentMaster), "batch", sel.studentBatches),
      CountsBy(TableOf(db, Mentor), "academic_year", sel.mentorYears),
      CountsBy(TableOf(db, MarkEntry), "academic_year", sel.markEntryYears),
      CountsBy(TableOf(db, Report), "academic_sem", sel.reportSems),
      CountsBy(TableOf(db, Report), "academic_sem", sel.hodSems),
      if sel.hodAll then |TableOf(db, Hod)| else 0,
      if sel.staffAll then Count(TableOf(db, StaffMaster), NotAdminId) else 0)
  }

  /** The filters of the execution's stages. */
  function BatchIn(sel: Selection): Filter { [In("batch", sel.studentBatches)] }
  function MentorYearIn(sel: Selection): Filter { [In("academic_year", sel.mentorYears)] }
  function MarkYearIn(sel: Selection): Filter { [In("academic_year", sel.markEntryYears)] }
  function ReportSemIn(sel: Selection): Filter { [In("academic_sem", sel.reportSems)] }
  function HodSemIn(sel: Selection): Filter { [In("academic_sem", sel.hodSems)] }

  /** The staff row the password is checked against. */
  function AdminLogin(password: Cell): Filter {
    [Eq("staff_pass", password), Eq("staff_id", Str("ADMIN"))]
  }

  predicate Authorized(db: Db, password: Cell) {
    Count(TableOf(db, StaffMaster), AdminLogin(password)) > 0
  }

  /** The stages of the execution, in order. */
  datatype Stage = StudentsStage | MentorsStage | MarkEntriesStage | ReportsStage | HodSemsStage | HodAllStage | StaffAllStage

  function StageIndex(s: Stage): nat {
    match s
    case StudentsStage => 0
    case MentorsStage => 1
    case MarkEntriesStage => 2
    case ReportsStage => 3
    case HodSemsStage => 4
    case HodAllStage => 5
    case StaffAllStage => 6
  }

  /** Whether a stage runs: its list is non-empty, or its flag is set. */
  predicate Runs(sel: Selection, s: Stage) {
    match s
    case StudentsStage => |sel.studentBatches| > 0
    case MentorsStage => |sel.mentorYears| > 0
    case MarkEntriesStage => |sel.markEntryYears| > 0
    case ReportsStage => |sel.reportSems| > 0
    case HodSemsStage => |sel.hodSems| > 0
    case HodAllStage => sel.hodAll
    case StaffAllStage => sel.staffAll
  }

  datatype Deleted = Deleted(students: nat, mentors: nat, markEntries: nat, reports: nat, hods: nat, staff: nat)

  datatype ExecuteResponse =
    | Unauthorized            // 401, `success: false`
    | Committed(deleted: Deleted)
    | RolledBack              // 500, `success: false`

  function DestroyIf(db: Db, cond: bool, n: TableName, f: Filter): Db {
    if cond then WithTable(db, n, Destroy(TableOf(db, n), f)) else db
  }

  /** The working tables after the students, mentors, mark entries and reports stages. */
  function ThroughReports(db: Db, sel: Selection): Db {
    var d1 := DestroyIf(db, Runs(sel, StudentsStage), StudentMaster, BatchIn(sel));
    var d2 := DestroyIf(d1, Runs(sel, MentorsStage), Mentor, MentorYearIn(sel));
    var d3 := DestroyIf(d2, Runs(sel, MarkEntriesStage), MarkEntry, MarkYearIn(sel));
    DestroyIf(d3, Runs(sel, ReportsStage), Report, ReportSemIn(sel))
  }

  /** The hod and staff stages. */
  function LastStages(d: Db, sel: Selection): Db {
    var d6 := DestroyIf(d, Runs(sel, HodAllStage), Hod, []);
    DestroyIf(d6, Runs(sel, StaffAllStage), StaffMaster, NotAdminCategory)
  }

  /** The hodSems stage as written: an unfiltered delete of every report row. */
  function ClearReports(d: Db, sel: Selection): Db {
    if Runs(sel, HodSemsStage) then WithTable(d, Report, []) else d
  }

  /** The tables after a committed execution. */
  function CommittedTables(db: Db, sel: Selection): Db {
    LastStages(ClearReports(ThroughReports(db, sel), sel), sel)
  }

  /** The counts a committed execution reports. */
  function DeletedCounts(db: Db, sel: Selection): Deleted {
    Deleted(
      if Runs(sel, StudentsStage) then Count(TableOf(db, StudentMaster), BatchIn(sel)) else 0,
      if Runs(sel, MentorsStage) then Count(TableOf(db, Mentor), MentorYearIn(sel)) else 0,
      if Runs(sel, MarkEntriesStage) then Count(TableOf(db, MarkEntry), MarkYearIn(sel)) else 0,
      if Runs(sel, ReportsStage) then Count(TableOf(db, Report), ReportSemIn(sel)) else 0,
      if Runs(sel, HodAllStage) then |TableOf(db, Hod)|
      else if Runs(sel, HodSemsStage) then Count(TableOf(ThroughReports(db, sel), Report), HodSemIn(sel))
      else 0,
      if Runs(sel, StaffAllStage) then Count(TableOf(db, StaffMaster), NotAdminCategory) else 0)
  }

  /**
   * The tables after a rollback at stage `failed`: the state before the
   * transaction, except that the report clear of the hodSems stage, made
   * outside the transaction, stays if it ran before the failure.
   */
  function RolledBackTables(db: Db, sel: Selection, failed: Stage): Db {
    if Runs(sel, HodSemsStage) && StageIndex(HodSemsStage) < StageIndex(failed) then WithTable(db, Report, [])
    else db
  }

  /**
   * `/data-delete/execute`. `failure` is the stage whose store calls throw,
   * if any; a stage that does not run cannot fail.
   */
  method Execute(store: Store, sel: Selection, password: Cell, failure: Option<Stage>)
    returns (resp: ExecuteResponse)
    modifies store
    ensures !Authorized(old(store.tables), password) ==> resp == Unauthorized && store.tables == old(store.tables)
    ensures Authorized(old(store.tables), password) && (failure.None? || !Runs(sel, failure.value)) ==>
              resp == Committed(DeletedCounts(old(store.tables), sel))
              && store.tables == CommittedTables(old(store.tables), sel)
    ensures Authorized(old(store.tables), password) && failure.Some? && Runs(sel, failure.value) ==>
              resp == RolledBack && store.tables == RolledBackTables(old(store.tables), sel, failure.value)
  {
    if store.CountWhere(StaffMaster, AdminLogin(password)) == 0 {
      return Unauthorized;
    }
    ghost var db := store.tables;
    var committed := store.tables;
    var students, mentors, marks, reports, failed := EarlyStages(store, sel, failure);
    if failed {
      store.Restore(committed);
      return RolledBack;
    }
    var hods, staff, cleared;
    LateCounts(db, sel);
    hods, staff, failed, cleared := LateStages(store, sel, failure);
    if failed {
      store.Restore(if cleared then WithTable(committed, Report, []) else committed);
      return RolledBack;
    }
    resp := Committed(Deleted(students, mentors, marks, reports, hods, staff));
  }

  /** The students, mentors, mark entries and reports stages. */
  method EarlyStages(store: Store, sel: Selection, failure: Option<Stage>)
    returns (students: nat, mentors: nat, marks: nat, reports: nat, failed: bool)
    modifies store
    ensures failed <==> failure.Some? && Runs(sel, failure.value) && StageIndex(failure.value) <= 3
    ensures !failed ==> store.tables == ThroughReports(old(store.tables), sel)
    ensures !failed ==> students == StageCount(old(store.tables), sel, StudentsStage, StudentMaster, BatchIn(sel))
    ensures !failed ==> mentors == StageCount(old(store.tables), sel, MentorsStage, Mentor, MentorYearIn(sel))
    ensures !failed ==> marks == StageCount(old(store.tables), sel, MarkEntriesStage, MarkEntry, MarkYearIn(sel))
    ensures !failed ==> reports == StageCount(old(store.tables), sel, ReportsStage, Report, ReportSemIn(sel))
  {
    ghost var db := store.tables;
    mentors, marks, reports := 0, 0, 0;
    students, failed := RunStage(store, sel, StudentsStage, failure, StudentMaster, BatchIn(sel));
    if failed { return; }
    assert TableOf(store.tables, Mentor) == TableOf(db, Mentor);
    assert TableOf(store.tables, MarkEntry) == TableOf(db, MarkEntry);
    assert TableOf(store.tables, Report) == TableOf(db, Report);
    mentors, failed := RunStage(store, sel, MentorsStage, failure, Mentor, MentorYearIn(sel));
    if failed { return; }
    assert TableOf(store.tables, MarkEntry) == TableOf(db, MarkEntry);
    assert TableOf(store.tables, Report) == TableOf(db, Report);
    marks, failed := RunStage(store, sel, MarkEntriesStage, failure, MarkEntry, MarkYearIn(sel));
    if failed { return; }
    assert TableOf(store.tables, Report) == TableOf(db, Report);
    reports, failed := RunStage(store, sel, ReportsStage, failure, Report, ReportSemIn(sel));
  }

  /**
   * The hodSems, hodAll and staffAll stages; `cleared` tells whether the
   * unfiltered report delete, made outside the transaction, ran.
   */
  method LateStages(store: Store, sel: Selection, failure: Option<Stage>)
    returns (hods: nat, staff: nat, failed: bool, cleared: bool)
    requires !(failure.Some? && Runs(sel, failure.value) && StageIndex(failure.value) <= 3)
    modifies store
    ensures failed <==> failure.Some? && Runs(sel, failure.value)
    ensures failed ==> (cleared <==> Runs(sel, HodSemsStage) && StageIndex(HodSemsStage) < StageIndex(failure.value))
    ensures !failed ==> store.tables == LastStages(ClearReports(old(store.tables), sel), sel)
    ensures !failed ==> hods == LateHods(old(store.tables), sel) && staff == LateStaff(old(store.tables), sel)
  {
    ghost var w := store.tables;
    staff := 0;
    hods, failed, cleared := HodSemsRun(store, sel, failure);
    if failed { return; }
    ghost var d5 := store.tables;
    assert TableOf(d5, Hod) == TableOf(w, Hod) && TableOf(d5, StaffMaster) == TableOf(w, StaffMaster);
    var all: nat;
    all, failed := RunStage(store, sel, HodAllStage, failure, Hod, []);
    if failed { return; }
    if Runs(sel, HodAllStage) {
      hods := all;
      CountAll(TableOf(w, Hod));
    }
    DestroyIfAt(d5, Runs(sel, HodAllStage), Hod, []);
    staff, failed := RunStage(store, sel, StaffAllStage, failure, StaffMaster, NotAdminCategory);
  }

  /** The rows a stage counts in table `n` of `db`: none when its selector is unset. */
  function StageCount(db: Db, sel: Selection, s: Stage, n: TableName, f: Filter): nat {
    if Runs(sel, s) then Count(TableOf(db, n), f) else 0
  }

  /** The hods count of the last stages run on the working tables `w`. */
  function LateHods(w: Db, sel: Selection): nat {
    if Runs(sel, HodAllStage) then |TableOf(w, Hod)|
    else if Runs(sel, HodSemsStage) then Count(TableOf(w, Report), HodSemIn(sel))
    else 0
  }

  /** The staff count of the last stages run on the working tables `w`. */
  function LateStaff(w: Db, sel: Selection): nat {
    if Runs(sel, StaffAllStage) then Count(TableOf(w, StaffMaster), NotAdminCategory) else 0
  }

  /** The counts of the last stages, run after the first four, are the reported ones. */
  lemma LateCounts(db: Db, sel: Selection)
    ensures LateHods(ThroughReports(db, sel), sel) == DeletedCounts(db, sel).hods
    ensures LateStaff(ThroughReports(db, sel), sel) == DeletedCounts(db, sel).staff
  {
    ThroughReportsOther(db, sel, Hod);
    ThroughReportsOther(db, sel, StaffMaster);
  }

  /**
   * The hodSems stage: it counts the report rows of the selected semesters
   * and then deletes every report row, outside the transaction.
   */
  method HodSemsRun(store: Store, sel: Selection, failure: Option<Stage>)
    returns (hods: nat, failed: bool, cleared: bool)
    modifies store
    ensures failed <==> Runs(sel, HodSemsStage) && failure == Some(HodSemsStage)
    ensures failed ==> !cleared && store.tables == old(store.tables)
    ensures !failed ==> cleared == Runs(sel, HodSemsStage) && store.tables == ClearReports(old(store.tables), sel)
    ensures !failed ==> hods == if Runs(sel, HodSemsStage) then Count(TableOf(old(store.tables), Report), HodSemIn(sel)) else 0
  {
    hods, failed, cleared := 0, false, false;
    if Runs(sel, HodSemsStage) {
      if failure == Some(HodSemsStage) {
        return 0, true, false;
      }
      hods := store.CountWhere(Report, HodSemIn(sel));
      DestroyAll(TableOf(store.tables, Report));
      var _ := store.DestroyWhere(Report, []);
      cleared := true;
    }
  }

  /**
   * One count-then-delete stage inside the transaction: it runs only when
   * its selector is set, and fails when it is the failing stage.
   */
  method RunStage(store: Store, sel: Selection, s: Stage, failure: Option<Stage>, n: TableName, f: Filter)
    returns (count: nat, failed: bool)
    modifies store
    ensures failed <==> Runs(sel, s) && failure == Some(s)
    ensures !failed ==> store.tables == DestroyIf(old(store.tables), Runs(sel, s), n, f)
    ensures !failed ==> count == StageCount(old(store.tables), sel, s, n, f)
  {
    count, failed := 0, false;
    if Runs(sel, s) {
      if failure == Some(s) {
        failed := true;
      } else {
        count := store.CountWhere(n, f);
        var _ := store.DestroyWhere(n, f);
      }
    }
  }

  /** An `IN` over no values matches no row. */
  lemma CountInNone(t: Table, col: Column)
    ensures Count(t, [In(col, [])]) == 0
  {
    if Count(t, [In(col, [])]) > 0 {
      var r := Select(t, [In(col, [])])[0];
      assert r in Select(t, [In(col, [])]);
      MatchesOne(r, In(col, []));
      assert false;
    }
  }

  /** Splitting one value off an `IN` list splits its count, when the value is not null and not repeated. */
  lemma {:induction false} CountInSplit(t: Table, col: Column, v: Cell, rest: seq<Cell>)
    requires v != Null && v !in rest
    ensures Count(t, [In(col, [v] + rest)]) == Count(t, [Eq(col, v)]) + Count(t, [In(col, rest)])
  {
    if t != [] {
      CountInSplit(t[1..], col, v, rest);
      MatchesOne(t[0], In(col, [v] + rest));
      MatchesOne(t[0], Eq(col, v));
      MatchesOne(t[0], In(col, rest));
    }
  }

  /**
   * For a list of distinct, non-null values, the preview's counts add up to
   * the number of rows the execution's `IN` delete removes.
   */
  lemma {:induction false} PreviewSumIsInCount(t: Table, col: Column, vs: seq<Cell>)
    requires NoDup(vs) && Null !in vs
    ensures Sum(CountsBy(t, col, vs)) == Count(t, [In(col, vs)])
  {
    if vs == [] {
      CountInNone(t, col);
    } else {
      assert vs == [vs[0]] + vs[1..];
      assert NoDup(vs[1..]) && vs[0] !in vs[1..];
      PreviewSumIsInCount(t, col, vs[1..]);
      CountInSplit(t, col, vs[0], vs[1..]);
    }
  }

  /** A stage's delete changes its own table only. */
  lemma DestroyIfAt(db: Db, cond: bool, n: TableName, f: Filter)
    ensures TableOf(DestroyIf(db, cond, n, f), n) == if cond then Destroy(TableOf(db, n), f) else TableOf(db, n)
    ensures forall m :: m != n ==> TableOf(DestroyIf(db, cond, n, f), m) == TableOf(db, m)
  {
  }

  /** The working tables after the first four stages, table by table. */
  lemma ThroughReportsAt(db: Db, sel: Selection)
    ensures var w := ThroughReports(db, sel);
      && TableOf(w, StudentMaster) == (if Runs(sel, StudentsStage) then Destroy(TableOf(db, StudentMaster), BatchIn(sel)) else TableOf(db, StudentMaster))
      && TableOf(w, Mentor) == (if Runs(sel, MentorsStage) then Destroy(TableOf(db, Mentor), MentorYearIn(sel)) else TableOf(db, Mentor))
      && TableOf(w, MarkEntry) == (if Runs(sel, MarkEntriesStage) then Destroy(TableOf(db, MarkEntry), MarkYearIn(sel)) else TableOf(db, MarkEntry))
      && TableOf(w, Report) == (if Runs(sel, ReportsStage) then Destroy(TableOf(db, Report), ReportSemIn(sel)) else TableOf(db, Report))
  {
    var d1 := DestroyIf(db, Runs(sel, StudentsStage), StudentMaster, BatchIn(sel));
    DestroyIfAt(db, Runs(sel, StudentsStage), StudentMaster, BatchIn(sel));
    var d2 := DestroyIf(d1, Runs(sel, MentorsStage), Mentor, MentorYearIn(sel));
    DestroyIfAt(d1, Runs(sel, MentorsStage), Mentor, MentorYearIn(sel));
    var d3 := DestroyIf(d2, Runs(sel, MarkEntriesStage), MarkEntry, MarkYearIn(sel));
    DestroyIfAt(d2, Runs(sel, MarkEntriesStage), MarkEntry, MarkYearIn(sel));
    DestroyIfAt(d3, Runs(sel, ReportsStage), Report, ReportSemIn(sel));
  }

  /** The first four stages leave every other table alone. */
  lemma ThroughReportsOther(db: Db, sel: Selection, n: TableName)
    requires n !in {StudentMaster, Mentor, MarkEntry, Report}
    ensures TableOf(ThroughReports(db, sel), n) == TableOf(db, n)
  {
    var d1 := DestroyIf(db, Runs(sel, StudentsStage), StudentMaster, BatchIn(sel));
    DestroyIfAt(db, Runs(sel, StudentsStage), StudentMaster, BatchIn(sel));
    var d2 := DestroyIf(d1, Runs(sel, MentorsStage), Mentor, MentorYearIn(sel));
    DestroyIfAt(d1, Runs(sel, MentorsStage), Mentor, MentorYearIn(sel));
    var d3 := DestroyIf(d2, Runs(sel, MarkEntriesStage), MarkEntry, MarkYearIn(sel));
    DestroyIfAt(d2, Runs(sel, MarkEntriesStage), MarkEntry, MarkYearIn(sel));
    DestroyIfAt(d3, Runs(sel, ReportsStage), Report, ReportSemIn(sel));
  }

  /** The clear and the last two stages leave the first three stages' tables alone. */
  lemma LaterStagesFrame(w: Db, sel: Selection)
    ensures var c := LastStages(ClearReports(w, sel), sel);
      forall n :: n !in {Report, Hod, StaffMaster} ==> TableOf(c, n) == TableOf(w, n)
  {
    var d5 := ClearReports(w, sel);
    assert forall n :: n != Report ==> TableOf(d5, n) == TableOf(w, n);
    var d6 := DestroyIf(d5, Runs(sel, HodAllStage), Hod, []);
    DestroyIfAt(d5, Runs(sel, HodAllStage), Hod, []);
    DestroyIfAt(d6, Runs(sel, StaffAllStage), StaffMaster, NotAdminCategory);
  }

  /** The committed student, mentor and mark-entry tables. */
  lemma CommittedEarlyAt(db: Db, sel: Selection)
    ensures var c := CommittedTables(db, sel);
      && TableOf(c, StudentMaster) == (if Runs(sel, StudentsStage) then Destroy(TableOf(db, StudentMaster), BatchIn(sel)) else TableOf(db, StudentMaster))
      && TableOf(c, Mentor) == (if Runs(sel, MentorsStage) then Destroy(TableOf(db, Mentor), MentorYearIn(sel)) else TableOf(db, Mentor))
      && TableOf(c, MarkEntry) == (if Runs(sel, MarkEntriesStage) then Destroy(TableOf(db, MarkEntry), MarkYearIn(sel)) else TableOf(db, MarkEntry))
  {
    ThroughReportsAt(db, sel);
    LaterStagesFrame(ThroughReports(db, sel), sel);
  }

  /** The report table after the last stages, run on the working tables `w`: cleared by the hodSems stage. */
  lemma LastReportAt(w: Db, sel: Selection)
    ensures TableOf(LastStages(ClearReports(w, sel), sel), Report) == if Runs(sel, HodSemsStage) then [] else TableOf(w, Report)
  {
    var d5 := ClearReports(w, sel);
    var d6 := DestroyIf(d5, Runs(sel, HodAllStage), Hod, []);
    assert TableOf(d6, Report) == TableOf(d5, Report);
    assert TableOf(DestroyIf(d6, Runs(sel, StaffAllStage), StaffMaster, NotAdminCategory), Report) == TableOf(d6, Report);
  }

  /** The hod table after the last stages: emptied by the hodAll stage. */
  lemma LastHodAt(w: Db, sel: Selection)
    ensures TableOf(LastStages(ClearReports(w, sel), sel), Hod) == if sel.hodAll then [] else TableOf(w, Hod)
  {
    var d5 := ClearReports(w, sel);
    assert TableOf(d5, Hod) == TableOf(w, Hod);
    var d6 := DestroyIf(d5, Runs(sel, HodAllStage), Hod, []);
    DestroyAll(TableOf(w, Hod));
    assert TableOf(d6, Hod) == if sel.hodAll then [] else TableOf(w, Hod);
    assert TableOf(DestroyIf(d6, Runs(sel, StaffAllStage), StaffMaster, NotAdminCategory), Hod) == TableOf(d6, Hod);
  }

  /** The staff table after the last stages: the staffAll stage removes the non-ADMIN category rows. */
  lemma LastStaffAt(w: Db, sel: Selection)
    ensures TableOf(LastStages(ClearReports(w, sel), sel), StaffMaster)
            == if sel.staffAll then Destroy(TableOf(w, StaffMaster), NotAdminCategory) else TableOf(w, StaffMaster)
  {
    var d5 := ClearReports(w, sel);
    assert TableOf(d5, StaffMaster) == TableOf(w, StaffMaster);
    var d6 := DestroyIf(d5, Runs(sel, HodAllStage), Hod, []);
    assert TableOf(d6, StaffMaster) == TableOf(d5, StaffMaster);
    assert Runs(sel, StaffAllStage) == sel.staffAll;
  }

  /** The committed report table: emptied by the hodSems stage, else the reports stage's result. */
  lemma CommittedReportAt(db: Db, sel: Selection)
    ensures TableOf(CommittedTables(db, sel), Report)
            == if Runs(sel, HodSemsStage) then []
               else if Runs(sel, ReportsStage) then Destroy(TableOf(db, Report), ReportSemIn(sel))
               else TableOf(db, Report)
  {
    ThroughReportsAt(db, sel);
    LastReportAt(ThroughReports(db, sel), sel);
  }

  /** The committed hod table: emptied by a full hod deletion. */
  lemma CommittedHodAt(db: Db, sel: Selection)
    ensures TableOf(CommittedTables(db, sel), Hod) == if sel.hodAll then [] else TableOf(db, Hod)
  {
    ThroughReportsOther(db, sel, Hod);
    LastHodAt(ThroughReports(db, sel), sel);
  }

  /** The committed staff table: a full staff deletion removes every non-ADMIN category row. */
  lemma CommittedStaffAt(db: Db, sel: Selection)
    ensures TableOf(CommittedTables(db, sel), StaffMaster)
            == if sel.staffAll then Destroy(TableOf(db, StaffMaster), NotAdminCategory) else TableOf(db, StaffMaster)
  {
    ThroughReportsOther(db, sel, StaffMaster);
    LastStaffAt(ThroughReports(db, sel), sel);
  }

  /** A commit leaves every table no stage names as it was. */
  lemma CommittedOthersAt(db: Db, sel: Selection, n: TableName)
    requires n !in {StudentMaster, Mentor, MarkEntry, Report, Hod, StaffMaster}
    ensures TableOf(CommittedTables(db, sel), n) == TableOf(db, n)
  {
    ThroughReportsOther(db, sel, n);
    LaterStagesFrame(ThroughReports(db, sel), sel);
  }

  /**
   * The preview and the execution agree: for each list of distinct non-null
   * values, the preview counts add up to the execution's count for it.
   */
  lemma PreviewAgreesWithExecute(db: Db, sel: Selection)
    requires NoDup(sel.studentBatches) && Null !in sel.studentBatches
    requires NoDup(sel.mentorYears) && Null !in sel.mentorYears
    requires NoDup(sel.markEntryYears) && Null !in sel.markEntryYears
    requires NoDup(sel.reportSems) && Null !in sel.reportSems
    ensures var p := Preview(db, sel);
            var d := DeletedCounts(db, sel);
            && Sum(p.studentCounts) == d.students
            && Sum(p.mentorCounts) == d.mentors
            && Sum(p.markEntryCounts) == d.markEntries
            && Sum(p.reportCounts) == d.reports
  {
    PreviewSumIsInCount(TableOf(db, StudentMaster), "batch", sel.studentBatches);
    PreviewSumIsInCount(TableOf(db, Mentor), "academic_year", sel.mentorYears);
    PreviewSumIsInCount(TableOf(db, MarkEntry), "academic_year", sel.markEntryYears);
    PreviewSumIsInCount(TableOf(db, Report), "academic_sem", sel.reportSems);
  }

  /**
   * After a commit no student, mentor or mark-entry row matches its selector;
   * each reported count is the number of rows removed; an unset selector
   * leaves its table as it was and reports 0.
   */
  lemma CommitRemovesSelected(db: Db, sel: Selection)
    ensures var c := CommittedTables(db, sel);
            var d := DeletedCounts(db, sel);
            && (Runs(sel, StudentsStage) ==> Count(TableOf(c, StudentMaster), BatchIn(sel)) == 0)
            && d.students == |TableOf(db, StudentMaster)| - |TableOf(c, StudentMaster)|
            && (Runs(sel, MentorsStage) ==> Count(TableOf(c, Mentor), MentorYearIn(sel)) == 0)
            && d.mentors == |TableOf(db, Mentor)| - |TableOf(c, Mentor)|
            && (Runs(sel, MarkEntriesStage) ==> Count(TableOf(c, MarkEntry), MarkYearIn(sel)) == 0)
            && d.markEntries == |TableOf(db, MarkEntry)| - |TableOf(c, MarkEntry)|
            && (!Runs(sel, StudentsStage) ==> TableOf(c, StudentMaster) == TableOf(db, StudentMaster) && d.students == 0)
            && (!Runs(sel, MentorsStage) ==> TableOf(c, Mentor) == TableOf(db, Mentor) && d.mentors == 0)
            && (!Runs(sel, MarkEntriesStage) ==> TableOf(c, MarkEntry) == TableOf(db, MarkEntry) && d.markEntries == 0)
  {
    CommittedEarlyAt(db, sel);
    DestroyRemovesMatches(TableOf(db, StudentMaster), BatchIn(sel));
    DestroyRemovesMatches(TableOf(db, Mentor), MentorYearIn(sel));
    DestroyRemovesMatches(TableOf(db, MarkEntry), MarkYearIn(sel));
  }

  /**
   * A full staff deletion removes every staff row whose category is set and
   * is not ADMIN, reports how many, and keeps every ADMIN-category row.
   */
  lemma CommitRemovesStaff(db: Db, sel: Selection)
    ensures var c := TableOf(CommittedTables(db, sel), StaffMaster);
            && (sel.staffAll ==> Count(c, NotAdminCategory) == 0)
            && DeletedCounts(db, sel).staff == |TableOf(db, StaffMaster)| - |c|
            && forall r :: r in TableOf(db, StaffMaster) && Get(r, "staff_category") == Str("ADMIN") ==> r in c
  {
    var t := TableOf(db, StaffMaster);
    var c := TableOf(CommittedTables(db, sel), StaffMaster);
    CommittedStaffAt(db, sel);
    StaffCountIs(db, sel);
    if sel.staffAll {
      DestroyRemovesMatches(t, NotAdminCategory);
      forall r | r in t && Get(r, "staff_category") == Str("ADMIN")
        ensures r in c
      {
        MatchesOne(r, NotAdminCategory[0]);
      }
    }
  }

  lemma StaffCountIs(db: Db, sel: Selection)
    ensures DeletedCounts(db, sel).staff == if sel.staffAll then Count(TableOf(db, StaffMaster), NotAdminCategory) else 0
  {
    assert Runs(sel, StaffAllStage) == sel.staffAll;
  }

  /** A full hod deletion empties the table, and its count replaces any hodSems count. */
  lemma CommitRemovesHods(db: Db, sel: Selection)
    requires sel.hodAll
    ensures TableOf(CommittedTables(db, sel), Hod) == []
    ensures DeletedCounts(db, sel).hods == |TableOf(db, Hod)|
  {
    CommittedHodAt(db, sel);
  }

  /**
   * As written, the hodSems stage empties the whole report table: a report
   * row that neither the reports nor the hodSems selector names is gone after
   * a commit, and stays gone when a later stage fails and the transaction
   * rolls back.
   */
  lemma HodSemsClearsOtherSemesters(db: Db, sel: Selection, r: Row)
    requires Runs(sel, HodSemsStage)
    requires r in TableOf(db, Report) && !Matches(r, ReportSemIn(sel)) && !Matches(r, HodSemIn(sel))
    ensures r !in TableOf(CommittedTables(db, sel), Report)
    ensures forall s :: Runs(sel, s) && StageIndex(HodSemsStage) < StageIndex(s) ==>
              r !in TableOf(RolledBackTables(db, sel, s), Report)
  {
    CommittedReportAt(db, sel);
  }

  /**
   * The other reading of line 190: if the store refuses a `destroy` with
   * neither `where` nor `truncate`, the hodSems stage is the failing stage
   * whenever it runs. `Execute` then answers `RolledBack` (its third ensures,
   * with `failure == Some(HodSemsStage)`), and the rolled-back tables are
   * the ones the request started from: no report row is lost.
   */
  lemma HodSemsRejectedRollsBack(db: Db, sel: Selection)
    requires Runs(sel, HodSemsStage)
    ensures RolledBackTables(db, sel, HodSemsStage) == db
  {
  }

  /** Two report rows of different semesters, and a selection naming only the first under hodSems. */
  const OddRow: Row := map["academic_sem" := Str("2024-25 ODD")]
  const EvenRow: Row := map["academic_sem" := Str("2024-25 EVEN")]
  const OddHodSems: Selection := Selection([], [], [], [], [Str("2024-25 ODD")], false, false)

  /** On that input, the EVEN row, which no selector names, does not survive the commit. */
  lemma HodSemsExample()
    ensures !Matches(EvenRow, HodSemIn(OddHodSems)) && !Matches(EvenRow, ReportSemIn(OddHodSems))
    ensures TableOf(CommittedTables(map[Report := [OddRow, EvenRow]], OddHodSems), Report) == []
  {
    MatchesOne(EvenRow, HodSemIn(OddHodSems)[0]);
    MatchesOne(EvenRow, ReportSemIn(OddHodSems)[0]);
    CommittedReportAt(map[Report := [OddRow, EvenRow]], OddHodSems);
  }

  /** The hodSems stage as evidently intended: the selected semesters' report rows are deleted inside the transaction. */
  function IntendedClearReports(d: Db, sel: Selection): Db {
    DestroyIf(d, Runs(sel, HodSemsStage), Report, HodSemIn(sel))
  }

  /** The tables after a committed execution with the intended hodSems stage; a rollback then restores every table. */
  function IntendedCommittedTables(db: Db, sel: Selection): Db {
    LastStages(IntendedClearReports(ThroughReports(db, sel), sel), sel)
  }

  /** The committed report table with the intended hodSems stage, from the working table after the reports stage. */
  lemma IntendedReportAt(db: Db, sel: Selection)
    ensures var w := TableOf(ThroughReports(db, sel), Report);
            TableOf(IntendedCommittedTables(db, sel), Report)
            == if Runs(sel, HodSemsStage) then Destroy(w, HodSemIn(sel)) else w
  {
    var w := ThroughReports(db, sel);
    var d5 := IntendedClearReports(w, sel);
    DestroyIfAt(w, Runs(sel, HodSemsStage), Report, HodSemIn(sel));
    var d6 := DestroyIf(d5, Runs(sel, HodAllStage), Hod, []);
    DestroyIfAt(d5, Runs(sel, HodAllStage), Hod, []);
    var c := DestroyIf(d6, Runs(sel, StaffAllStage), StaffMaster, NotAdminCategory);
    assert c == IntendedCommittedTables(db, sel);
    DestroyIfAt(d6, Runs(sel, StaffAllStage), StaffMaster, NotAdminCategory);
  }

  /**
   * With the intended hodSems stage, a report row survives the commit exactly
   * when no running selector names its semester, and the hodSems count is the
   * number of rows that stage removes.
   */
  lemma IntendedHodSemsStage(db: Db, sel: Selection)
    ensures var c := TableOf(IntendedCommittedTables(db, sel), Report);
      && (forall r :: r in c <==> r in TableOf(db, Report)
                                  && !(Runs(sel, ReportsStage) && Matches(r, ReportSemIn(sel)))
                                  && !(Runs(sel, HodSemsStage) && Matches(r, HodSemIn(sel))))
      && (!sel.hodAll && Runs(sel, HodSemsStage) ==>
            DeletedCounts(db, sel).hods == |TableOf(ThroughReports(db, sel), Report)| - |c|)
  {
    var w := TableOf(ThroughReports(db, sel), Report);
    ThroughReportsAt(db, sel);
    IntendedReportAt(db, sel);
    if Runs(sel, HodSemsStage) {
      DestroyRemovesMatches(w, HodSemIn(sel));
      LateCounts(db, sel);
    }
  }

  /**
   * The preview's staff count and the execution's can differ: a staff row
   * whose id is not ADMIN but whose category is ADMIN is counted by the
   * preview and kept by the execution.
   */
  lemma PreviewStaffCountMayDiffer()
    ensures var db: Db := map[StaffMaster := [map["staff_id" := Str("S1"), "staff_category" := Str("ADMIN")]]];
            var sel := Selection([], [], [], [], [], false, true);
            Preview(db, sel).staffAllCount == 1 && DeletedCounts(db, sel).staff == 0
  {
    var row: Row := map["staff_id" := Str("S1"), "staff_category" := Str("ADMIN")];
    MatchesOne(row, NotAdminId[0]);
    MatchesOne(row, NotAdminCategory[0]);
  }
}
