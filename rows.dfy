/**
 * Rows, cells and filters of the relational store the routes talk to.
 *
 * A table is an ordered sequence of rows; a row maps column names to cells.
 * The store operations the routes use (findAll, findOne, count, update,
 * destroy, upsert) are written here as functions over such sequences, with
 * the SQL reading of a `where` object: equality with `null` is `IS NULL`,
 * and `<>` or `IN` never match a NULL cell.
 */
module Rows {

  datatype Option<+T> = None | Some(value: T)

  /** A stored or decoded value: SQL NULL (JavaScript null or undefined), a string or an integer. */
  datatype Cell = Null | Str(s: string) | Num(n: int)

  /** JavaScript truthiness of a cell: null, the empty string and 0 are falsy. */
  predicate Truthy(c: Cell) {
    match c
    case Null => false
    case Str(s) => s != ""
    case Num(n) => n != 0
  }

  type Column = string
  type Row = map<Column, Cell>
  type Table = seq<Row>

  /** `row.col`; a missing property reads as Null. */
  function Get(r: Row, c: Column): Cell {
    if c in r then r[c] else Null
  }

  /** The object literal `{ c1: row.c1, ..., cn: row.cn }`. */
  function Project(r: Row, cols: seq<Column>): (p: Row)
    ensures p.Keys == set c | c in cols
    ensures forall c :: c in cols ==> p[c] == Get(r, c)
  {
    map c | c in cols :: Get(r, c)
  }

  /** One condition of a `where` object. */
  datatype Cond =
    | Eq(col: Column, v: Cell)          // { col: v }, IS NULL when v is Null
    | Ne(col: Column, v: Cell)          // { col: { [Op.ne]: v } }
    | In(col: Column, vs: seq<Cell>)    // { col: [..] } or { col: { [Op.in]: [..] } }

  predicate Holds(r: Row, c: Cond) {
    match c
    case Eq(col, v) => Get(r, col) == v
    case Ne(col, v) => Get(r, col) != Null && Get(r, col) != v
    case In(col, vs) => Get(r, col) != Null && Get(r, col) in vs
  }

  /** A `where` object: the conjunction of its conditions; `[]` is `where: {}`. */
  type Filter = seq<Cond>

  predicate Matches(r: Row, f: Filter) {
    forall i :: 0 <= i < |f| ==> Holds(r, f[i])
  }

  /** A one-condition filter holds exactly when its condition does. */
  lemma MatchesOne(r: Row, c: Cond)
    ensures Matches(r, [c]) <==> Holds(r, c)
  {
    assert [c][0] == c;
  }

  /** A two-condition filter holds exactly when both conditions do. */
  lemma MatchesTwo(r: Row, c: Cond, d: Cond)
    ensures Matches(r, [c, d]) <==> Holds(r, c) && Holds(r, d)
  {
    assert [c, d][0] == c && [c, d][1] == d;
  }

  /** A filter with one more condition in front holds when that condition and the rest do. */
  lemma MatchesCons(r: Row, c: Cond, f: Filter)
    ensures Matches(r, [c] + f) <==> Holds(r, c) && Matches(r, f)
  {
    var g := [c] + f;
    assert g[0] == c;
    assert forall i :: 0 <= i < |f| ==> g[i + 1] == f[i];
    if Holds(r, c) && Matches(r, f) {
      forall i | 0 <= i < |g| ensures Holds(r, g[i]) {
        if i > 0 { assert g[i] == f[i - 1]; }
      }
    }
  }

  /**
   * `findAll({ where: f })`: the matching rows, each as often as the table
   * holds it. SQL fixes no order without ORDER BY; the model keeps table order.
   */
  function Select(t: Table, f: Filter): (s: Table)
    ensures forall r :: r in s <==> r in t && Matches(r, f)
    ensures forall r :: multiset(s)[r] == if Matches(r, f) then multiset(t)[r] else 0
    ensures |s| == Count(t, f)
  {
    if t == [] then []
    else
      var rest := Select(t[1..], f);
      assert t == [t[0]] + t[1..];
      (if Matches(t[0], f) then [t[0]] else []) + rest
  }

  /** `count({ where: f })`. */
  function Count(t: Table, f: Filter): nat {
    if t == [] then 0
    else (if Matches(t[0], f) then 1 else 0) + Count(t[1..], f)
  }

  /** `destroy({ where: f })`: the rows that do not match, in table order. */
  function Destroy(t: Table, f: Filter): (s: Table)
    ensures forall r :: r in s <==> r in t && !Matches(r, f)
    ensures |s| == |t| - Count(t, f)
  {
    if t == [] then []
    else (if Matches(t[0], f) then [] else [t[0]]) + Destroy(t[1..], f)
  }

  /** `update(patch, { where: f })`: every matching row takes the patch's columns. */
  function Update(t: Table, f: Filter, patch: Row): (s: Table)
    ensures |s| == |t|
    ensures forall i :: 0 <= i < |t| ==> s[i] == if Matches(t[i], f) then t[i] + patch else t[i]
  {
    if t == [] then []
    else [if Matches(t[0], f) then t[0] + patch else t[0]] + Update(t[1..], f, patch)
  }

  /** The `where` object that locates `row` by the key columns `key`. */
  function KeyFilter(row: Row, key: seq<Column>): (f: Filter)
    ensures |f| == |key|
    ensures forall r :: Matches(r, f) <==> forall k :: k in key ==> Get(r, k) == Get(row, k)
  {
    if key == [] then []
    else
      var f := [Eq(key[0], Get(row, key[0]))] + KeyFilter(row, key[1..]);
      assert forall r :: Matches(r, f) <==> Holds(r, f[0]) && Matches(r, f[1..]) by {
        forall r ensures Matches(r, f) <==> Holds(r, f[0]) && Matches(r, f[1..]) {
          if Holds(r, f[0]) && Matches(r, f[1..]) {
            forall i | 0 <= i < |f| ensures Holds(r, f[i]) {
              if i > 0 { assert f[i] == f[1..][i - 1]; }
            }
          }
        }
      }
      f
  }

  /**
   * `upsert(row)` with primary-key columns `key`: the rows with the same key
   * take the columns of `row`; with no such row, `row` is appended.
   */
  function Upsert(t: Table, key: seq<Column>, row: Row): (s: Table)
    ensures Count(t, KeyFilter(row, key)) > 0 ==> |s| == |t|
    ensures Count(t, KeyFilter(row, key)) == 0 ==> s == t + [row]
  {
    var f := KeyFilter(row, key);
    if Count(t, f) > 0 then Update(t, f, row) else t + [row]
  }

  /** `findAll()` with no `where` returns the whole table. */
  lemma {:induction false} SelectAll(t: Table)
    ensures Select(t, []) == t
  {
    if t != [] {
      SelectAll(t[1..]);
    }
  }

  /** No row is counted exactly when no row matches. */
  lemma {:induction false} CountZero(t: Table, f: Filter)
    ensures Count(t, f) == 0 <==> forall r :: r in t ==> !Matches(r, f)
  {
    if t != [] {
      CountZero(t[1..], f);
      assert forall r :: r in t <==> r == t[0] || r in t[1..];
    }
  }

  /** The rows agree on every column of `key`. */
  predicate SameKey(a: Row, b: Row, key: seq<Column>) {
    forall k :: k in key ==> Get(a, k) == Get(b, k)
  }

  /** No two rows agree on every column of `key`. */
  predicate UniqueBy(t: Table, key: seq<Column>) {
    forall i, j :: 0 <= i < j < |t| ==> !SameKey(t[i], t[j], key)
  }

  /**
   * A `findAll` by the `key` columns of `row`, then `create(row)` only when it
   * found nothing.
   */
  function InsertUnlessPresent(t: Table, key: seq<Column>, row: Row): Table {
    if Count(t, KeyFilter(row, key)) > 0 then t else t + [row]
  }

  /**
   * Afterwards a row with the key of `row` exists; the table is unchanged
   * exactly when one existed before; and a table unique by the key stays so.
   */
  lemma InsertUnlessPresentUnique(t: Table, key: seq<Column>, row: Row)
    ensures exists r :: r in InsertUnlessPresent(t, key, row) && SameKey(r, row, key)
    ensures InsertUnlessPresent(t, key, row) == t <==> exists r :: r in t && SameKey(r, row, key)
    ensures UniqueBy(t, key) ==> UniqueBy(InsertUnlessPresent(t, key, row), key)
  {
    var f := KeyFilter(row, key);
    if Count(t, f) > 0 {
      var m := FindFirst(t, f);
      var i :| 0 <= i < |t| && t[i] == m.value && Matches(t[i], f);
      assert t[i] in t && SameKey(t[i], row, key);
    } else {
      var s := t + [row];
      assert s[|t|] == row && row in s && SameKey(row, row, key);
      forall r | r in t ensures !SameKey(r, row, key) {
        var i :| 0 <= i < |t| && t[i] == r;
        if Matches(r, f) { CountPositive(t, f, i); }
      }
      assert |s| != |t|;
      if UniqueBy(t, key) {
        forall i, j | 0 <= i < j < |s| ensures !SameKey(s[i], s[j], key) {
          if j == |t| {
            assert s[i] == t[i] && t[i] in t;
            assert !SameKey(t[i], row, key);
          }
        }
      }
    }
  }

  /** `findOne({ where: f })`: the first matching row. */
  function FindFirst(t: Table, f: Filter): (r: Option<Row>)
    ensures r.None? <==> Count(t, f) == 0
    ensures r.Some? ==> exists i :: 0 <= i < |t| && t[i] == r.value && Matches(t[i], f)
                          && forall j :: 0 <= j < i ==> !Matches(t[j], f)
  {
    if t == [] then None
    else if Matches(t[0], f) then Some(t[0])
    else
      var r := FindFirst(t[1..], f);
      assert r.Some? ==> exists i :: 0 <= i < |t| - 1 && t[1..][i] == r.value && Matches(t[1..][i], f)
                            && forall j :: 0 <= j < i ==> !Matches(t[1..][j], f);
      if r.Some? then
        var i :| 0 <= i < |t| - 1 && t[1..][i] == r.value && Matches(t[1..][i], f)
                 && forall j :: 0 <= j < i ==> !Matches(t[1..][j], f);
        assert t[i + 1] == r.value && forall j :: 0 <= j < i + 1 ==> !Matches(t[j], f);
        r
      else r
  }

  /** `rows.map(r => r.col)`. */
  function ColumnOf(t: Table, c: Column): (s: seq<Cell>)
    ensures |s| == |t|
    ensures forall i :: 0 <= i < |t| ==> s[i] == Get(t[i], c)
  {
    seq(|t|, i requires 0 <= i < |t| => Get(t[i], c))
  }

  predicate NoDup<T(==)>(s: seq<T>) {
    forall i, j :: 0 <= i < j < |s| ==> s[i] != s[j]
  }

  /** Index of the first occurrence of `x` in `s`. */
  function FirstIndex<T(==)>(s: seq<T>, x: T): (k: nat)
    requires x in s
    ensures k < |s| && s[k] == x && x !in s[..k]
  {
    if s[0] == x then 0 else 1 + FirstIndex(s[1..], x)
  }

  /**
   * `[...new Set(s)]`: each value once, in order of first occurrence.
   */
  function Distinct<T(==,!new)>(s: seq<T>): (d: seq<T>)
    ensures NoDup(d)
    ensures forall x :: x in d <==> x in s
  {
    if s == [] then []
    else
      var p := Distinct(s[..|s| - 1]);
      var x := s[|s| - 1];
      assert forall y :: y in s <==> y in s[..|s| - 1] || y == x by {
        assert s == s[..|s| - 1] + [x];
      }
      if x in p then p else p + [x]
  }

  /** Extending the input by one value extends `Distinct` by it, unless it was already there. */
  lemma DistinctSnoc<T(!new)>(s: seq<T>, i: nat)
    requires i < |s|
    ensures Distinct(s[..i + 1]) == if s[i] in Distinct(s[..i]) then Distinct(s[..i]) else Distinct(s[..i]) + [s[i]]
  {
    assert s[..i + 1][..i] == s[..i];
  }

  lemma FirstIndexPrefix<T>(s: seq<T>, n: nat, x: T)
    requires n <= |s| && x in s[..n]
    ensures FirstIndex(s[..n], x) == FirstIndex(s, x)
  {
    var k := FirstIndex(s[..n], x);
    assert s[k] == x && x !in s[..k] by { assert s[..n][..k] == s[..k]; }
  }

  /** The order of `Distinct(s)` is the order of first occurrence in `s`. */
  lemma {:induction false} DistinctOrder<T(!new)>(s: seq<T>)
    ensures forall i, j :: 0 <= i < j < |Distinct(s)| ==>
              Distinct(s)[i] in s && Distinct(s)[j] in s &&
              FirstIndex(s, Distinct(s)[i]) < FirstIndex(s, Distinct(s)[j])
  {
    if s != [] {
      var s' := s[..|s| - 1];
      var x := s[|s| - 1];
      DistinctOrder(s');
      var p := Distinct(s');
      var d := Distinct(s);
      assert s' == s[..|s| - 1];
      assert forall k :: 0 <= k < |p| ==> d[k] == p[k];
      forall i, j | 0 <= i < j < |d|
        ensures d[i] in s && d[j] in s && FirstIndex(s, d[i]) < FirstIndex(s, d[j])
      {
        assert d[i] == p[i] && p[i] in s';
        FirstIndexPrefix(s, |s| - 1, d[i]);
        if j < |p| {
          assert d[j] == p[j] && p[j] in s';
          FirstIndexPrefix(s, |s| - 1, d[j]);
        } else {
          assert d[j] == x && x !in s';
          assert FirstIndex(s, x) == |s| - 1;
        }
      }
    } else {
      assert Distinct(s) == [];
    }
  }

  /** A duplicate-free sequence has as many elements as its set. */
  lemma {:induction false} NoDupCardinality<T>(s: seq<T>)
    requires NoDup(s)
    ensures |set x | x in s| == |s|
  {
    if s != [] {
      var s' := s[1..];
      NoDupCardinality(s');
      assert (set x | x in s) == (set x | x in s') + {s[0]};
      assert s[0] !in s';
    }
  }

  /** A duplicate-free sequence whose values all lie in another duplicate-free sequence is no longer. */
  lemma NoDupSubsetLength<T>(a: seq<T>, b: seq<T>)
    requires NoDup(a) && NoDup(b)
    requires forall x :: x in a ==> x in b
    ensures |a| <= |b|
  {
    NoDupCardinality(a);
    NoDupCardinality(b);
    var sa := set x | x in a;
    var sb := set x | x in b;
    assert sa <= sb;
    SubsetCardinality(sa, sb);
  }

  /** `[...new Set(s)].length` is the number of different values in `s`. */
  lemma DistinctCount<T(!new)>(s: seq<T>)
    ensures |Distinct(s)| == |set x | x in s|
  {
    NoDupCardinality(Distinct(s));
    assert (set x | x in Distinct(s)) == (set x | x in s);
  }

  /** The values of a column are the column's values over the rows. */
  lemma ColumnSet(t: Table, c: Column)
    ensures (set x | x in ColumnOf(t, c)) == (set r | r in t :: Get(r, c))
  {
    forall x | x in ColumnOf(t, c) ensures x in (set r | r in t :: Get(r, c)) {
      var i :| 0 <= i < |t| && ColumnOf(t, c)[i] == x;
      assert t[i] in t;
    }
    forall r | r in t ensures Get(r, c) in ColumnOf(t, c) {
      var i :| 0 <= i < |t| && t[i] == r;
      assert ColumnOf(t, c)[i] == Get(r, c);
    }
  }

  lemma SubsetCardinality<T>(a: set<T>, b: set<T>)
    requires a <= b
    ensures |a| <= |b|
  {
    assert b == a + (b - a);
  }

  /** Every row of a table is a matching row or a surviving row: `count` then `destroy` partitions it. */
  lemma {:induction false} SelectDestroyPartition(t: Table, f: Filter)
    ensures multiset(Select(t, f)) + multiset(Destroy(t, f)) == multiset(t)
  {
    if t != [] {
      SelectDestroyPartition(t[1..], f);
      var a, b := Select(t[1..], f), Destroy(t[1..], f);
      assert t == [t[0]] + t[1..];
      if Matches(t[0], f) {
        assert Select(t, f) == [t[0]] + a;
        assert Destroy(t, f) == b;
      } else {
        assert Select(t, f) == a;
        assert Destroy(t, f) == [t[0]] + b;
      }
    }
  }

  /** A table with a matching row has a positive count. */
  lemma CountPositive(t: Table, f: Filter, i: nat)
    requires i < |t| && Matches(t[i], f)
    ensures Count(t, f) > 0
  {
    assert t[i] in Select(t, f);
  }

  /** After `destroy({ where: f })` no row matches `f`, and `count` is the number of rows removed. */
  lemma DestroyRemovesMatches(t: Table, f: Filter)
    ensures Count(Destroy(t, f), f) == 0
    ensures |t| - |Destroy(t, f)| == Count(t, f)
  {
    var s := Destroy(t, f);
    if FindFirst(s, f).Some? {
      assert false;
    }
  }

  /** `count()` with `where: {}` counts every row. */
  lemma CountAll(t: Table)
    ensures Count(t, []) == |t|
  {
    DestroyAll(t);
  }

  /** Destroy with `where: {}` empties the table. */
  lemma DestroyAll(t: Table)
    ensures Destroy(t, []) == []
  {
    assert forall r :: Matches(r, []);
  }

  /** `row` is present after the upsert: some row has the key of `row` and carries every column of `row`. */
  lemma UpsertStores(t: Table, key: seq<Column>, row: Row)
    ensures exists r :: r in Upsert(t, key, row) && Matches(r, KeyFilter(row, key))
                     && forall c :: c in row ==> c in r && r[c] == row[c]
  {
    var f := KeyFilter(row, key);
    var s := Upsert(t, key, row);
    assert Matches(row, f);
    if Count(t, f) > 0 {
      var m := FindFirst(t, f);
      var i :| 0 <= i < |t| && t[i] == m.value && Matches(t[i], f);
      var x := t[i] + row;
      assert s[i] == x;
      forall k | k in key ensures Get(x, k) == Get(row, k) {
        assert Get(t[i], k) == Get(row, k);
      }
      assert Matches(x, f);
      forall c | c in row ensures c in x && x[c] == row[c] {
      }
      assert x in s;
    } else {
      assert s[|t|] == row;
      assert row in s;
    }
  }

  /** A row of the upserted table that carries every column of `row`. */
  lemma UpsertWitness(t: Table, key: seq<Column>, row: Row) returns (x: Row)
    ensures x in Upsert(t, key, row) && forall c :: c in row ==> c in x && x[c] == row[c]
  {
    UpsertStores(t, key, row);
    x :| x in Upsert(t, key, row) && Matches(x, KeyFilter(row, key)) && forall c :: c in row ==> c in x && x[c] == row[c];
  }

  lemma UnionAbsorbs(a: Row, b: Row)
    ensures (a + b) + b == a + b
  {
  }

  /** Upserting the same row twice is the same as upserting it once. */
  lemma UpsertIdempotent(t: Table, key: seq<Column>, row: Row)
    ensures Upsert(Upsert(t, key, row), key, row) == Upsert(t, key, row)
  {
    var f := KeyFilter(row, key);
    var s := Upsert(t, key, row);
    assert Matches(row, f);
    if Count(t, f) > 0 {
      UpsertKeptMatchesIdempotent(t, key, row);
    } else {
      assert s == t + [row];
      CountPositive(s, f, |t|);
      forall i | 0 <= i < |t|
        ensures !Matches(t[i], f)
      {
        if Matches(t[i], f) {
          CountPositive(t, f, i);
          assert false;
        }
      }
      assert Update(s, f, row) == s by {
        forall i | 0 <= i < |s|
          ensures Update(s, f, row)[i] == s[i]
        {
          if i == |t| {
            UnionAbsorbs(map[], row);
            assert row + row == row;
          }
        }
      }
    }
  }

  lemma KeyKept(r: Row, row: Row, key: seq<Column>)
    requires Matches(r, KeyFilter(row, key))
    ensures Matches(r + row, KeyFilter(row, key))
  {
  }

  /** An update whose patch every matching row already carries changes nothing. */
  lemma UpdateFixed(s: Table, f: Filter, row: Row)
    requires forall i :: 0 <= i < |s| && Matches(s[i], f) ==> s[i] + row == s[i]
    ensures Update(s, f, row) == s
  {
  }

  lemma UpsertKeptMatchesIdempotent(t: Table, key: seq<Column>, row: Row)
    requires Count(t, KeyFilter(row, key)) > 0
    ensures Count(Update(t, KeyFilter(row, key), row), KeyFilter(row, key)) > 0
    ensures Update(Update(t, KeyFilter(row, key), row), KeyFilter(row, key), row) == Update(t, KeyFilter(row, key), row)
  {
    var f := KeyFilter(row, key);
    var s := Update(t, f, row);
    var m := FindFirst(t, f);
    var i0 :| 0 <= i0 < |t| && t[i0] == m.value && Matches(t[i0], f);
    KeyKept(t[i0], row, key);
    CountPositive(s, f, i0);
    forall i | 0 <= i < |s| && Matches(s[i], f)
      ensures s[i] + row == s[i]
    {
      if Matches(t[i], f) {
        UnionAbsorbs(t[i], row);
      }
    }
    UpdateFixed(s, f, row);
  }

  /** A duplicate-free sequence holds each value at most once. */
  lemma {:induction false} NoDupMultiplicity<T>(s: seq<T>, x: T)
    requires NoDup(s)
    ensures multiset(s)[x] <= 1
  {
    if s != [] {
      assert s == [s[0]] + s[1..];
      assert NoDup(s[1..]);
      NoDupMultiplicity(s[1..], x);
      if x == s[0] {
        assert x !in s[1..];
      }
    }
  }

  /** A permutation of a duplicate-free sequence is duplicate-free. */
  lemma NoDupPermutation<T>(s: seq<T>, r: seq<T>)
    requires NoDup(s) && multiset(r) == multiset(s)
    ensures NoDup(r)
  {
    forall i, j | 0 <= i < j < |r| ensures r[i] != r[j] {
      if r[i] == r[j] {
        var x := r[i];
        assert r == r[..j] + [x] + r[j + 1..];
        assert x in r[..j];
        assert multiset(r)[x] >= 2;
        NoDupMultiplicity(s, x);
        assert false;
      }
    }
  }

  /**
   * Every row either has column `col` unset, or equal to `v`, or set to
   * something else: the three counts add up to the table's length.
   */
  lemma {:induction false} NeCountComplement(t: Table, col: Column, v: Cell)
    requires v != Null
    ensures Count(t, [Ne(col, v)]) + Count(t, [Eq(col, v)]) + Count(t, [Eq(col, Null)]) == |t|
  {
    if t != [] {
      NeCountComplement(t[1..], col, v);
      MatchesOne(t[0], Ne(col, v));
      MatchesOne(t[0], Eq(col, v));
      MatchesOne(t[0], Eq(col, Null));
    }
  }
}
