/**
 * The staff, tutor (mentor) and HOD routes: each one a short sequence of
 * creates, updates and destroys on the store.
 *
 * A request body is a `Row`; a field the request leaves out reads as null.
 */
module StaffManage {
  import opened Rows
  import opened Text
  import opened Tables

  /*
   * `/newstaff`.
   */

  /** The request's permission names and, position by position, the scope columns they set. */
  const PermissionNames: seq<Column> := ["dashboard", "course", "rsm", "co", "so", "po", "pso", "wpr", "input", "manage", "obereport", "setting"]
  const FlagColumns: seq<Column> := ["dashboard", "course_list", "relationship_matrix", "course_outcome", "student_outcome",
                                     "program_outcome", "program_specific_outcome", "work_progress_report", "input_files",
                                     "manage", "obe_report", "settings"]

  /** `permission ? 1 : 0`. */
  function Flag(c: Cell): (f: Cell)
    ensures f == Num(1) <==> Truthy(c)
    ensures f == Num(0) <==> !Truthy(c)
  {
    if Truthy(c) then Num(1) else Num(0)
  }

  /** The new staffmaster row; the request's `password` goes to `staff_pass`. */
  function StaffRecord(req: Row): Row {
    map["staff_id" := Get(req, "staff_id"), "staff_name" := Get(req, "staff_name"), "staff_dept" := Get(req, "staff_dept"),
        "dept_category" := Get(req, "dept_category"), "staff_category" := Get(req, "staff_category"),
        "staff_pass" := Get(req, "password")]
  }

  /** One 0/1 flag per permission, under the scope table's column names. */
  function Flags(permissions: Row): map<Column, Cell> {
    map i | 0 <= i < |FlagColumns| :: FlagColumns[i] := Flag(Get(permissions, PermissionNames[i]))
  }

  /** The new scope row: the staff's id and name and one 0/1 flag per permission. */
  function ScopeRecord(staffId: Cell, staffName: Cell, permissions: Row): Row {
    Flags(permissions)["staff_id" := staffId]["staff_name" := staffName]
  }

  /** The flag under the `i`-th column is the one of the `i`-th permission. */
  lemma FlagsAt(permissions: Row, i: nat)
    requires i < |FlagColumns|
    ensures FlagColumns[i] in Flags(permissions)
    ensures Flags(permissions)[FlagColumns[i]] == Flag(Get(permissions, PermissionNames[i]))
  {
    FlagColumnsDistinct();
  }

  /** Each scope flag is 1 exactly when its permission is truthy, and 0 otherwise. */
  lemma ScopeRecordFlags(staffId: Cell, staffName: Cell, permissions: Row)
    ensures var s := ScopeRecord(staffId, staffName, permissions);
            && Get(s, "staff_id") == staffId && Get(s, "staff_name") == staffName
            && forall i :: 0 <= i < |FlagColumns| ==>
                 (Get(s, FlagColumns[i]) == Num(1) <==> Truthy(Get(permissions, PermissionNames[i])))
                 && (Get(s, FlagColumns[i]) == Num(0) <==> !Truthy(Get(permissions, PermissionNames[i])))
  {
    var s := ScopeRecord(staffId, staffName, permissions);
    forall i | 0 <= i < |FlagColumns|
      ensures Get(s, FlagColumns[i]) == Flag(Get(permissions, PermissionNames[i]))
    {
      FlagColumnsDistinct();
      FlagsAt(permissions, i);
      assert FlagColumns[i] != "staff_id" && FlagColumns[i] != "staff_name";
    }
  }

  /** The flag columns are distinct, and distinct from the id and name columns. */
  lemma FlagColumnsDistinct()
    ensures NoDup(FlagColumns)
    ensures "staff_id" !in FlagColumns && "staff_name" !in FlagColumns
  {
  }

  datatype NewStaffResult = StaffAdded | NewStaffFailed

  /**
   * `/newstaff`: the staffmaster row, then the scope row. Without a
   * `permissions` object (None) reading a permission throws after the staff
   * row was created; the answer is 500 and the staff row stays.
   */
  method NewStaff(store: Store, req: Row, permissions: Option<Row>) returns (resp: NewStaffResult)
    modifies store
    ensures var staffAdded := WithTable(old(store.tables), StaffMaster, TableOf(old(store.tables), StaffMaster) + [StaffRecord(req)]);
            match permissions
            case None => resp == NewStaffFailed && store.tables == staffAdded
            case Some(p) =>
              && resp == StaffAdded
              && store.tables == WithTable(staffAdded, Scope, TableOf(old(store.tables), Scope) + [ScopeRecord(Get(req, "staff_id"), Get(req, "staff_name"), p)])
  {
    store.Create(StaffMaster, StaffRecord(req));
    if permissions.None? {
      return NewStaffFailed;
    }
    store.Create(Scope, ScopeRecord(Get(req, "staff_id"), Get(req, "staff_name"), permissions.value));
    resp := StaffAdded;
  }

  /*
   * `/staffupdate`.
   */

  /** `newpassword || oldpassword`. */
  function NewPassword(newPassword: Cell, oldPassword: Cell): (p: Cell)
    ensures Truthy(newPassword) ==> p == newPassword
    ensures !Truthy(newPassword) ==> p == oldPassword
  {
    if Truthy(newPassword) then newPassword else oldPassword
  }

  function StaffIs(staffId: Cell): Filter { [Eq("staff_id", staffId)] }

  lemma StaffIsMatches(r: Row, staffId: Cell)
    ensures Matches(r, StaffIs(staffId)) <==> Get(r, "staff_id") == staffId
  {
    MatchesOne(r, StaffIs(staffId)[0]);
  }

  /** The staffmaster patch of `/staffupdate`. */
  function StaffPatch(req: Row): Row {
    map["staff_name" := Get(req, "newstaffname"), "staff_pass" := NewPassword(Get(req, "newpassword"), Get(req, "oldpassword")),
        "staff_dept" := Get(req, "newdept"), "staff_category" := Get(req, "newStaffCategory"),
        "dept_category" := Get(req, "newDeptCategory")]
  }

  /** The column that holds the staff's name: `hod_name` in hod, `staff_name` elsewhere. */
  function NameColumn(n: TableName): Column {
    if n == Hod then "hod_name" else "staff_name"
  }

  /** The patch copied to the staff's rows of a dependent table. */
  function RenamePatch(req: Row, n: TableName): Row {
    map["category" := Get(req, "newStaffCategory"), NameColumn(n) := Get(req, "newstaffname")]
  }

  /** The tables a staff rename reaches besides staffmaster, in update order. */
  const RenamedTables: seq<TableName> := [CourseMapping, Report, Hod, Mentor]

  /** Table `n` after the rename: the staff's rows take the rename patch. */
  function Renamed(db: Db, req: Row, n: TableName): Table {
    Update(TableOf(db, n), StaffIs(Get(req, "newstaffid")), RenamePatch(req, n))
  }

  /** The tables after `/staffupdate`. */
  function StaffUpdated(db: Db, req: Row): Db {
    RenameIn(WithTable(db, StaffMaster, Update(TableOf(db, StaffMaster), StaffIs(Get(req, "newstaffid")), StaffPatch(req))),
             db, req, RenamedTables)
  }

  /** `d` with each table of `ns` in turn replaced by its renamed form in `db`. */
  function RenameIn(d: Db, db: Db, req: Row, ns: seq<TableName>): Db
    decreases |ns|
  {
    if ns == [] then d
    else RenameIn(WithTable(d, ns[0], Renamed(db, req, ns[0])), db, req, ns[1..])
  }

  lemma {:induction false} RenameInTables(d: Db, db: Db, req: Row, ns: seq<TableName>, n: TableName)
    ensures TableOf(RenameIn(d, db, req, ns), n) == if n in ns then Renamed(db, req, n) else TableOf(d, n)
    decreases |ns|
  {
    if ns != [] {
      RenameInTables(WithTable(d, ns[0], Renamed(db, req, ns[0])), db, req, ns[1..], n);
      assert n in ns <==> n == ns[0] || n in ns[1..];
    }
  }

  /**
   * `/staffupdate`: the staffmaster row, then coursemapping, report, hod and
   * mentor; `updated` is the staff's row read back after the first update.
   */
  method StaffUpdate(store: Store, req: Row) returns (updated: Option<Row>)
    modifies store
    ensures store.tables == StaffUpdated(old(store.tables), req)
    ensures updated == FindFirst(TableOf(store.tables, StaffMaster), StaffIs(Get(req, "newstaffid")))
  {
    ghost var db := store.tables;
    var f := StaffIs(Get(req, "newstaffid"));
    var _ := store.UpdateWhere(StaffMaster, f, StaffPatch(req));
    updated := FindFirst(TableOf(store.tables, StaffMaster), f);
    RenameStep(store, req, CourseMapping, db);
    RenameStep(store, req, Report, db);
    RenameStep(store, req, Hod, db);
    RenameStep(store, req, Mentor, db);
    StaffUpdatedSteps(db, req);
  }

  lemma StaffPatchValues(req: Row)
    ensures var p := StaffPatch(req);
            && "staff_pass" in p && p["staff_pass"] == NewPassword(Get(req, "newpassword"), Get(req, "oldpassword"))
            && "staff_name" in p && p["staff_name"] == Get(req, "newstaffname")
            && "staff_category" in p && p["staff_category"] == Get(req, "newStaffCategory")
  {
  }

  lemma RenamePatchValues(req: Row, n: TableName)
    ensures var p := RenamePatch(req, n);
            && p.Keys == {"category", NameColumn(n)}
            && p["category"] == Get(req, "newStaffCategory")
            && p[NameColumn(n)] == Get(req, "newstaffname")
  {
    assert NameColumn(n) != "category";
  }

  /** One rename update, on a table the earlier updates left as it was in `db`. */
  method RenameStep(store: Store, req: Row, n: TableName, ghost db: Db)
    requires TableOf(store.tables, n) == TableOf(db, n)
    modifies store
    ensures store.tables == WithTable(old(store.tables), n, Renamed(db, req, n))
  {
    var _ := store.UpdateWhere(n, StaffIs(Get(req, "newstaffid")), RenamePatch(req, n));
  }

  /** `StaffUpdated` is the five updates applied one after another. */
  lemma StaffUpdatedSteps(db: Db, req: Row)
    ensures var d := WithTable(db, StaffMaster, Update(TableOf(db, StaffMaster), StaffIs(Get(req, "newstaffid")), StaffPatch(req)));
            StaffUpdated(db, req) ==
              WithTable(WithTable(WithTable(WithTable(d, CourseMapping, Renamed(db, req, CourseMapping)),
                Report, Renamed(db, req, Report)), Hod, Renamed(db, req, Hod)), Mentor, Renamed(db, req, Mentor))
  {
    var ns := RenamedTables;
    assert ns[1..][1..][1..][1..] == [];
  }

  /** Table by table: staffmaster takes the staff patch, the renamed tables the rename, and the rest stay. */
  lemma StaffUpdatedAt(db: Db, req: Row, n: TableName)
    ensures TableOf(StaffUpdated(db, req), n) ==
              if n == StaffMaster then Update(TableOf(db, StaffMaster), StaffIs(Get(req, "newstaffid")), StaffPatch(req))
              else if n in RenamedTables then Renamed(db, req, n)
              else TableOf(db, n)
  {
    var d := WithTable(db, StaffMaster, Update(TableOf(db, StaffMaster), StaffIs(Get(req, "newstaffid")), StaffPatch(req)));
    RenameInTables(d, db, req, RenamedTables, n);
  }

  /** The staff's row takes the new password when it is non-empty and keeps the old one given otherwise. */
  lemma StaffUpdatePassword(db: Db, req: Row, i: nat)
    requires i < |TableOf(db, StaffMaster)| && Get(TableOf(db, StaffMaster)[i], "staff_id") == Get(req, "newstaffid")
    ensures var r := TableOf(StaffUpdated(db, req), StaffMaster)[i];
            && Get(r, "staff_pass") == (if Truthy(Get(req, "newpassword")) then Get(req, "newpassword") else Get(req, "oldpassword"))
            && Get(r, "staff_name") == Get(req, "newstaffname")
            && Get(r, "staff_category") == Get(req, "newStaffCategory")
  {
    StaffUpdatedAt(db, req, StaffMaster);
    StaffPatchValues(req);
    MatchesOne(TableOf(db, StaffMaster)[i], StaffIs(Get(req, "newstaffid"))[0]);
  }

  /**
   * The rename reaches every row of the staff in coursemapping, report, hod
   * and mentor: each takes the new category and name and keeps its other
   * columns; the rows of other staff are unchanged.
   */
  lemma StaffRenamePropagates(db: Db, req: Row, n: TableName)
    requires n in RenamedTables
    ensures var t := TableOf(db, n);
            var u := TableOf(StaffUpdated(db, req), n);
            && |u| == |t|
            && forall i :: 0 <= i < |t| ==>
                 if Get(t[i], "staff_id") == Get(req, "newstaffid") then
                   && Get(u[i], "category") == Get(req, "newStaffCategory")
                   && Get(u[i], NameColumn(n)) == Get(req, "newstaffname")
                   && forall c :: c != "category" && c != NameColumn(n) ==> Get(u[i], c) == Get(t[i], c)
                 else u[i] == t[i]
  {
    var t := TableOf(db, n);
    var u := TableOf(StaffUpdated(db, req), n);
    StaffUpdatedAt(db, req, n);
    assert u == Renamed(db, req, n);
    forall i | 0 <= i < |t|
      ensures if Get(t[i], "staff_id") == Get(req, "newstaffid") then
                && Get(u[i], "category") == Get(req, "newStaffCategory")
                && Get(u[i], NameColumn(n)) == Get(req, "newstaffname")
                && forall c :: c != "category" && c != NameColumn(n) ==> Get(u[i], c) == Get(t[i], c)
              else u[i] == t[i]
    {
      RenamedRow(t[i], req, n);
    }
  }

  /** One row under the rename update. */
  lemma RenamedRow(r: Row, req: Row, n: TableName)
    ensures var f := StaffIs(Get(req, "newstaffid"));
            var u := if Matches(r, f) then r + RenamePatch(req, n) else r;
            if Get(r, "staff_id") == Get(req, "newstaffid") then
              && Get(u, "category") == Get(req, "newStaffCategory")
              && Get(u, NameColumn(n)) == Get(req, "newstaffname")
              && forall c :: c != "category" && c != NameColumn(n) ==> Get(u, c) == Get(r, c)
            else u == r
  {
    RenamePatchValues(req, n);
    MatchesOne(r, StaffIs(Get(req, "newstaffid"))[0]);
  }

  /** `/staffupdate` changes no table besides staffmaster and the four it renames in. */
  lemma StaffUpdateFrame(db: Db, req: Row, n: TableName)
    requires n != StaffMaster && n !in RenamedTables
    ensures TableOf(StaffUpdated(db, req), n) == TableOf(db, n)
  {
    StaffUpdatedAt(db, req, n);
  }

  /*
   * `/staffdelete`.
   */

  /** The tables `/staffdelete` clears of the staff, in order. */
  const StaffTables: seq<TableName> := [StaffMaster, CourseMapping, Mentor, Hod, Scope, Report]

  /** Table `n` of `db` without its rows matching `f`. */
  function Drop(db: Db, n: TableName, f: Filter): Db {
    WithTable(db, n, Destroy(TableOf(db, n), f))
  }

  /** The rows matching `f` destroyed from each table of `ns` in turn. */
  function DestroyIn(db: Db, ns: seq<TableName>, f: Filter): Db
    decreases |ns|
  {
    if ns == [] then db
    else DestroyIn(Drop(db, ns[0], f), ns[1..], f)
  }

  /** Each table named once in `ns` loses its matching rows; the others are untouched. */
  lemma {:induction false} DestroyInTables(db: Db, ns: seq<TableName>, f: Filter)
    requires NoDup(ns)
    ensures forall n :: n in ns ==> TableOf(DestroyIn(db, ns, f), n) == Destroy(TableOf(db, n), f)
    ensures forall n :: n !in ns ==> TableOf(DestroyIn(db, ns, f), n) == TableOf(db, n)
    decreases |ns|
  {
    if ns != [] {
      var d := Drop(db, ns[0], f);
      assert NoDup(ns[1..]) by {
        forall i, j | 0 <= i < j < |ns[1..]| ensures ns[1..][i] != ns[1..][j] {
          assert ns[1..][i] == ns[i + 1] && ns[1..][j] == ns[j + 1];
        }
      }
      DestroyInTables(d, ns[1..], f);
      assert ns[0] !in ns[1..] by {
        forall i | 0 <= i < |ns[1..]| ensures ns[1..][i] != ns[0] {
          assert ns[1..][i] == ns[i + 1];
        }
      }
      forall n | n in ns ensures n == ns[0] || n in ns[1..] {
        var i :| 0 <= i < |ns| && ns[i] == n;
        if i > 0 { assert ns[1..][i - 1] == n; }
      }
    }
  }

  /** `/staffdelete`: the staff's rows go from the six tables one after another. */
  method StaffDelete(store: Store, staffId: Cell)
    modifies store
    ensures store.tables == DestroyIn(old(store.tables), StaffTables, StaffIs(staffId))
  {
    ghost var db := store.tables;
    var f := StaffIs(staffId);
    var _ := store.DestroyWhere(StaffMaster, f);
    var _ := store.DestroyWhere(CourseMapping, f);
    var _ := store.DestroyWhere(Mentor, f);
    var _ := store.DestroyWhere(Hod, f);
    var _ := store.DestroyWhere(Scope, f);
    var _ := store.DestroyWhere(Report, f);
    StaffDeleteSteps(db, f);
  }

  /** The six destroys of `/staffdelete`, one after another. */
  lemma StaffDeleteSteps(db: Db, f: Filter)
    ensures DestroyIn(db, StaffTables, f) ==
              Drop(Drop(Drop(Drop(Drop(Drop(db, StaffMaster, f), CourseMapping, f), Mentor, f), Hod, f), Scope, f), Report, f)
  {
    var ns := StaffTables;
    assert ns[1..][1..][1..][1..][1..][1..] == [];
  }

  /**
   * After `/staffdelete` none of the six tables holds a row of the staff,
   * every row of other staff is kept, and the other tables are unchanged.
   */
  lemma StaffDeleteRemovesAll(db: Db, staffId: Cell)
    ensures var d := DestroyIn(db, StaffTables, StaffIs(staffId));
            && (forall n, r :: n in StaffTables ==> (r in TableOf(d, n) <==> r in TableOf(db, n) && Get(r, "staff_id") != staffId))
            && forall n :: n !in StaffTables ==> TableOf(d, n) == TableOf(db, n)
  {
    assert NoDup(StaffTables);
    DestroyInTables(db, StaffTables, StaffIs(staffId));
    forall r { MatchesOne(r, StaffIs(staffId)[0]); }
  }

  /*
   * Tutors: `/newtutoradded`, `PUT /mentor/:id`, `DELETE /mentor/:id`.
   */

  /** The columns a tutor row is created with and looked up by, active year and semester included. */
  const TutorKey: seq<Column> := ["staff_id", "staff_name", "graduate", "category", "academic_year",
                                  "dept_id", "dept_name", "batch", "degree", "section", "academic_sem"]

  /** The new tutor row: the request's fields with the active academic year and semester. */
  function TutorRecord(req: Row, active: Row): Row {
    Project(req["academic_year" := Get(active, "academic_year")]["academic_sem" := Get(active, "academic_sem")], TutorKey)
  }

  datatype TutorAddResult =
    | TutorNoActiveYear   // 500: no active academic row
    | TutorExists         // 409
    | TutorAdded          // 201

  /** `/newtutoradded`: 409 with nothing inserted when an identical tutor row exists. */
  method NewTutor(store: Store, req: Row) returns (resp: TutorAddResult)
    modifies store
    ensures ActiveAcademic(old(store.tables)).None? ==> resp == TutorNoActiveYear && store.tables == old(store.tables)
    ensures ActiveAcademic(old(store.tables)).Some? ==>
              var row := TutorRecord(req, ActiveAcademic(old(store.tables)).value);
              && store.tables == WithTable(old(store.tables), Mentor, InsertUnlessPresent(TableOf(old(store.tables), Mentor), TutorKey, row))
              && (resp == TutorAdded <==> forall r :: r in TableOf(old(store.tables), Mentor) ==> !SameKey(r, row, TutorKey))
              && resp != TutorNoActiveYear
  {
    var active := ActiveAcademic(store.tables);
    if active.None? {
      return TutorNoActiveYear;
    }
    var row := TutorRecord(req, active.value);
    InsertUnlessPresentUnique(TableOf(store.tables, Mentor), TutorKey, row);
    if store.CountWhere(Mentor, KeyFilter(row, TutorKey)) > 0 {
      return TutorExists;
    }
    store.Create(Mentor, row);
    resp := TutorAdded;
  }

  datatype UpdateResult = RowUpdated | RowNotFound

  const MentorPatchFields: seq<Column> := ["batch", "staff_name", "category", "degree", "dept_name", "section", "staff_id"]

  /** A tutor row is located by its serial number, academic semester and academic year, all from the body. */
  const MentorLocator: seq<Column> := ["s_no", "academic_sem", "academic_year"]

  /** `PUT /mentor/:id`: 404 exactly when no row has the serial number, semester and year. */
  method MentorUpdate(store: Store, req: Row) returns (resp: UpdateResult)
    modifies store
    ensures store.tables == WithTable(old(store.tables), Mentor,
              Update(TableOf(old(store.tables), Mentor), KeyFilter(req, MentorLocator), Project(req, MentorPatchFields)))
    ensures resp == RowNotFound <==>
              forall r :: r in TableOf(old(store.tables), Mentor) ==>
                Get(r, "s_no") != Get(req, "s_no") || Get(r, "academic_sem") != Get(req, "academic_sem")
                || Get(r, "academic_year") != Get(req, "academic_year")
  {
    CountZero(TableOf(store.tables, Mentor), KeyFilter(req, MentorLocator));
    var updated := store.UpdateWhere(Mentor, KeyFilter(req, MentorLocator), Project(req, MentorPatchFields));
    resp := if updated > 0 then RowUpdated else RowNotFound;
  }

  datatype MentorDeleteResult =
    | MentorDeleted        // 200
    | MentorNotFound       // 200, with an error message
    | MentorDeleteFailed   // 500: no active academic row

  /** `DELETE /mentor/:id`: the staff's tutor rows of the active semester. */
  method MentorDelete(store: Store, id: string) returns (resp: MentorDeleteResult)
    modifies store
    ensures ActiveAcademic(old(store.tables)).None? ==> resp == MentorDeleteFailed && store.tables == old(store.tables)
    ensures ActiveAcademic(old(store.tables)).Some? ==>
              var f := [Eq("staff_id", Str(id)), Eq("academic_sem", Get(ActiveAcademic(old(store.tables)).value, "academic_sem"))];
              && store.tables == WithTable(old(store.tables), Mentor, Destroy(TableOf(old(store.tables), Mentor), f))
              && (resp == MentorNotFound <==> Count(TableOf(old(store.tables), Mentor), f) == 0)
              && resp != MentorDeleteFailed
  {
    var active := ActiveAcademic(store.tables);
    if active.None? {
      return MentorDeleteFailed;
    }
    var deleted := store.DestroyWhere(Mentor, [Eq("staff_id", Str(id)), Eq("academic_sem", Get(active.value, "academic_sem"))]);
    resp := if deleted > 0 then MentorDeleted else MentorNotFound;
  }

  /*
   * HODs: `/newhodadded`, `PUT /hod/:id`, `DELETE /hod/:id`.
   */

  const HodKey: seq<Column> := ["staff_id", "hod_name", "graduate", "dept_id", "category", "dept_name"]

  datatype HodAddResult = HodExists | HodAdded

  /** `/newhodadded`: nothing is inserted when an identical hod row exists. */
  method NewHod(store: Store, req: Row) returns (resp: HodAddResult)
    modifies store
    ensures var row := Project(req, HodKey);
            && store.tables == WithTable(old(store.tables), Hod, InsertUnlessPresent(TableOf(old(store.tables), Hod), HodKey, row))
            && (resp == HodAdded <==> forall r :: r in TableOf(old(store.tables), Hod) ==> !SameKey(r, row, HodKey))
  {
    var row := Project(req, HodKey);
    InsertUnlessPresentUnique(TableOf(store.tables, Hod), HodKey, row);
    if store.CountWhere(Hod, KeyFilter(row, HodKey)) > 0 {
      return HodExists;
    }
    store.Create(Hod, row);
    resp := HodAdded;
  }

  const HodPatchFields: seq<Column> := ["hod_name", "graduate", "dept_id", "category", "dept_name", "staff_id"]

  /** `PUT /hod/:id`: 404 exactly when no hod row has the serial number. */
  method HodUpdate(store: Store, req: Row) returns (resp: UpdateResult)
    modifies store
    ensures store.tables == WithTable(old(store.tables), Hod,
              Update(TableOf(old(store.tables), Hod), [Eq("s_no", Get(req, "s_no"))], Project(req, HodPatchFields)))
    ensures resp == RowNotFound <==> forall r :: r in TableOf(old(store.tables), Hod) ==> Get(r, "s_no") != Get(req, "s_no")
  {
    var f := [Eq("s_no", Get(req, "s_no"))];
    CountZero(TableOf(store.tables, Hod), f);
    forall r { MatchesOne(r, f[0]); }
    var updated := store.UpdateWhere(Hod, f, Project(req, HodPatchFields));
    resp := if updated > 0 then RowUpdated else RowNotFound;
  }

  /** A hod row to delete is located by staff, department, category and graduate level. */
  const HodLocator: seq<Column> := ["staff_id", "dept_id", "category", "graduate"]

  /** `scope.update({ hod_report: 0 })`. */
  const HodReportOff: Row := map["hod_report" := Num(0)]

  /**
   * The tables after `DELETE /hod/:id`: the located hod rows go; when some
   * went and the staff has no hod row left, the staff's scope rows lose
   * `hod_report`.
   */
  function HodDeletedTables(db: Db, req: Row): Db {
    var f := KeyFilter(req, HodLocator);
    var hods := Destroy(TableOf(db, Hod), f);
    var d := WithTable(db, Hod, hods);
    var staff := StaffIs(Get(req, "staff_id"));
    if Count(TableOf(db, Hod), f) == 0 || Count(hods, staff) > 0 then d
    else WithTable(d, Scope, Update(TableOf(db, Scope), staff, HodReportOff))
  }

  datatype HodDeleteResult = HodDeleted | HodNotFound

  method HodDelete(store: Store, req: Row) returns (resp: HodDeleteResult)
    modifies store
    ensures store.tables == HodDeletedTables(old(store.tables), req)
    ensures resp == HodNotFound <==> forall r :: r in TableOf(old(store.tables), Hod) ==> !SameKey(r, req, HodLocator)
  {
    CountZero(TableOf(store.tables, Hod), KeyFilter(req, HodLocator));
    var deleted := store.DestroyWhere(Hod, KeyFilter(req, HodLocator));
    if deleted == 0 {
      return HodNotFound;
    }
    resp := HodDeleted;
    var staff := StaffIs(Get(req, "staff_id"));
    if store.CountWhere(Hod, staff) > 0 {
      return;
    }
    var _ := store.UpdateWhere(Scope, staff, HodReportOff);
  }

  /** The hod rows left after `DELETE /hod/:id`. */
  function HodsLeft(db: Db, req: Row): Table {
    Destroy(TableOf(db, Hod), KeyFilter(req, HodLocator))
  }

  /** Whether the delete switches the staff's `hod_report` off: a row was deleted and the staff has none left. */
  ghost predicate ClearsHodReport(db: Db, req: Row) {
    && (exists r :: r in TableOf(db, Hod) && SameKey(r, req, HodLocator))
    && forall r :: r in HodsLeft(db, req) ==> Get(r, "staff_id") != Get(req, "staff_id")
  }

  /** The guard of the scope update is `ClearsHodReport`. */
  lemma ClearsHodReportIff(db: Db, req: Row)
    ensures ClearsHodReport(db, req)
            <==> Count(TableOf(db, Hod), KeyFilter(req, HodLocator)) > 0 && Count(HodsLeft(db, req), StaffIs(Get(req, "staff_id"))) == 0
  {
    var id := Get(req, "staff_id");
    CountZero(TableOf(db, Hod), KeyFilter(req, HodLocator));
    CountZero(HodsLeft(db, req), StaffIs(id));
    forall r | r in HodsLeft(db, req) ensures Matches(r, StaffIs(id)) <==> Get(r, "staff_id") == id {
      StaffIsMatches(r, id);
    }
  }

  /** After `DELETE /hod/:id` no hod row matches the request, and the others stay. */
  lemma HodDeleteRemoves(db: Db, req: Row)
    ensures forall r :: r in TableOf(HodDeletedTables(db, req), Hod) <==>
              r in TableOf(db, Hod) && !SameKey(r, req, HodLocator)
  {
    assert TableOf(HodDeletedTables(db, req), Hod) == HodsLeft(db, req);
  }

  /**
   * A scope row of the staff has `hod_report` set to 0 exactly when the
   * delete clears it, and is unchanged otherwise, as is every scope row of
   * other staff.
   */
  lemma HodDeleteScope(db: Db, req: Row)
    ensures var d := HodDeletedTables(db, req);
            var s := TableOf(db, Scope);
            && |TableOf(d, Scope)| == |s|
            && forall i :: 0 <= i < |s| ==>
                 TableOf(d, Scope)[i]
                 == if ClearsHodReport(db, req) && Get(s[i], "staff_id") == Get(req, "staff_id") then s[i] + HodReportOff else s[i]
  {
    var id := Get(req, "staff_id");
    var s := TableOf(db, Scope);
    var d := HodDeletedTables(db, req);
    ClearsHodReportIff(db, req);
    if ClearsHodReport(db, req) {
      assert TableOf(d, Scope) == Update(s, StaffIs(id), HodReportOff);
      forall i | 0 <= i < |s| ensures Matches(s[i], StaffIs(id)) <==> Get(s[i], "staff_id") == id {
        StaffIsMatches(s[i], id);
      }
    } else {
      assert TableOf(d, Scope) == s;
    }
  }

  /*
   * `/getstaff`.
   */

  /** `staff_id LIKE '%q%'`, the column read as text. */
  predicate IdLike(r: Row, q: string) {
    Get(r, "staff_id") != Null && Contains(CellString(Get(r, "staff_id")), q)
  }

  /** The `staff_id` of every staffmaster row whose id contains `q`. */
  function StaffIdsLike(t: Table, q: string): (s: Table)
    ensures forall x :: x in s <==> exists r :: r in t && IdLike(r, q) && x == Project(r, ["staff_id"])
    ensures s == [] <==> forall r :: r in t ==> !IdLike(r, q)
  {
    if t == [] then []
    else
      var rest := StaffIdsLike(t[1..], q);
      assert forall r :: r in t <==> r == t[0] || r in t[1..];
      if IdLike(t[0], q) then [Project(t[0], ["staff_id"])] + rest else rest
  }

  datatype GetStaffResult =
    | InvalidId              // 400
    | NoStaffFound           // 404
    | StaffIds(ids: Table)   // 200

  /**
   * `/getstaff?newTuturId=q`: 400 for a missing, empty or blank query;
   * otherwise the ids containing the trimmed query, 404 when there are none.
   */
  function GetStaff(db: Db, query: Option<string>): (r: GetStaffResult)
    ensures r.InvalidId? <==> query.None? || forall k :: 0 <= k < |query.value| ==> IsSpace(query.value[k])
    ensures r.NoStaffFound? <==>
              !r.InvalidId? && forall row :: row in TableOf(db, StaffMaster) ==> !IdLike(row, Trim(query.value))
    ensures r.StaffIds? ==>
              && r.ids != []
              && forall x :: x in r.ids <==>
                   exists row :: row in TableOf(db, StaffMaster) && IdLike(row, Trim(query.value)) && x == Project(row, ["staff_id"])
  {
    if query.None? then InvalidId
    else
      TrimEmpty(query.value);
      if query.value == [] || Trim(query.value) == [] then InvalidId
      else
        var ids := StaffIdsLike(TableOf(db, StaffMaster), Trim(query.value));
        if |ids| == 0 then NoStaffFound
        else StaffIds(ids)
  }
}
