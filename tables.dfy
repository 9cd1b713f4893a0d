/**
 * The twelve tables the routes read and write, and the store object through
 * which they are changed in place.
 *
 * Upsert keys come from the table definitions, which are not part of this
 * model; the store therefore carries them as a parameter `key`.
 */
module Tables {
  import opened Rows

  datatype TableName =
    | Academic | CourseMapping | Report | MarkEntry | Scope | Mentor
    | Hod | StudentMaster | StaffMaster | Calculation | RsMatrix | CourseMaster

  /** The contents of the tables; a table with no entry is empty. */
  type Db = map<TableName, Table>

  function TableOf(db: Db, n: TableName): Table {
    if n in db then db[n] else []
  }

  /** `db` with table `n` replaced by `t`. */
  function WithTable(db: Db, n: TableName, t: Table): (r: Db)
    ensures TableOf(r, n) == t
    ensures forall m :: m != n ==> TableOf(r, m) == TableOf(db, m)
  {
    db[n := t]
  }

  /** `db` with `rows` appended to table `n`; unchanged when there are none. */
  function Append(db: Db, n: TableName, rows: seq<Row>): (r: Db)
    ensures TableOf(r, n) == TableOf(db, n) + rows
    ensures forall m :: m != n ==> TableOf(r, m) == TableOf(db, m)
  {
    if rows == [] then (assert TableOf(db, n) + rows == TableOf(db, n); db)
    else WithTable(db, n, TableOf(db, n) + rows)
  }

  /** Appending one more row is a `create` after the earlier ones. */
  lemma AppendSnoc(db: Db, n: TableName, rows: seq<Row>, row: Row)
    ensures Append(db, n, rows + [row]) == WithTable(Append(db, n, rows), n, TableOf(Append(db, n, rows), n) + [row])
  {
    assert TableOf(db, n) + (rows + [row]) == TableOf(db, n) + rows + [row];
  }

  /** `academic.findOne({ where: { active_sem: 1 } })`. */
  function ActiveAcademic(db: Db): (r: Option<Row>)
    ensures r.Some? ==> r.value in TableOf(db, Academic) && Get(r.value, "active_sem") == Num(1)
    ensures r.None? <==> forall x :: x in TableOf(db, Academic) ==> Get(x, "active_sem") != Num(1)
  {
    var f := [Eq("active_sem", Num(1))];
    var r := FindFirst(TableOf(db, Academic), f);
    assert forall x :: Matches(x, f) <==> Get(x, "active_sem") == Num(1) by {
      forall x ensures Matches(x, f) <==> Get(x, "active_sem") == Num(1) {
        assert Holds(x, f[0]) ==> Matches(x, f);
      }
    }
    assert r.None? <==> Select(TableOf(db, Academic), f) == [];
    r
  }

  /** The database, changed in place by the routes. */
  class Store {
    var tables: Db
    /** The primary-key columns `upsert` matches on, per table. */
    const key: TableName -> seq<Column>

    constructor (initial: Db, key: TableName -> seq<Column>)
      ensures tables == initial && this.key == key
    {
      tables := initial;
      this.key := key;
    }

    /** `model.findAll({ where: f })`. */
    function FindAll(n: TableName, f: Filter): (s: Table)
      reads this
      ensures forall r :: r in s <==> r in TableOf(tables, n) && Matches(r, f)
    {
      Select(TableOf(tables, n), f)
    }

    /** `model.count({ where: f })`. */
    function CountWhere(n: TableName, f: Filter): nat
      reads this
    {
      Count(TableOf(tables, n), f)
    }

    /** A transaction rollback: the tables return to the committed state `committed`. */
    method Restore(committed: Db)
      modifies this
      ensures tables == committed
    {
      tables := committed;
    }

    /** `model.create(row)`. */
    method Create(n: TableName, row: Row)
      modifies this
      ensures tables == WithTable(old(tables), n, TableOf(old(tables), n) + [row])
    {
      tables := WithTable(tables, n, TableOf(tables, n) + [row]);
    }

    /** `model.upsert(row)`. */
    method UpsertRow(n: TableName, row: Row)
      modifies this
      ensures tables == WithTable(old(tables), n, Upsert(TableOf(old(tables), n), key(n), row))
    {
      tables := WithTable(tables, n, Upsert(TableOf(tables, n), key(n), row));
    }

    /** `model.update(patch, { where: f })`, returning the number of rows it matched. */
    method UpdateWhere(n: TableName, f: Filter, patch: Row) returns (affected: nat)
      modifies this
      ensures tables == WithTable(old(tables), n, Update(TableOf(old(tables), n), f, patch))
      ensures affected == Count(TableOf(old(tables), n), f)
    {
      affected := Count(TableOf(tables, n), f);
      tables := WithTable(tables, n, Update(TableOf(tables, n), f, patch));
    }

    /** `model.destroy({ where: f })`, returning the number of rows removed. */
    method DestroyWhere(n: TableName, f: Filter) returns (deleted: nat)
      modifies this
      ensures tables == WithTable(old(tables), n, Destroy(TableOf(old(tables), n), f))
      ensures deleted == Count(TableOf(old(tables), n), f)
      ensures deleted == |TableOf(old(tables), n)| - |TableOf(tables, n)|
    {
      deleted := Count(TableOf(tables, n), f);
      tables := WithTable(tables, n, Destroy(TableOf(tables, n), f));
    }
  }
}
