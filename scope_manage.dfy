/**
 * The permission (scope) routes: reading every scope row, and patching the
 * scope rows of several staff one after another.
 */
module ScopeManage {
  import opened Rows
  import opened Tables

  /** `scope.findAll()`: every scope row, in table order; nothing changes. */
  method ScopeSet(store: Store) returns (rows: Table)
    ensures rows == TableOf(store.tables, Scope)
  {
    rows := store.FindAll(Scope, []);
    SelectAll(TableOf(store.tables, Scope));
  }

  /** The `updates` object: staff ids, in `Object.keys` order, each with its patch. */
  type Updates = seq<(string, Row)>

  function UpdateKeys(u: Updates): (ks: seq<string>)
    ensures |ks| == |u| && forall i :: 0 <= i < |u| ==> ks[i] == u[i].0
  {
    seq(|u|, i requires 0 <= i < |u| => u[i].0)
  }

  /** `where: { staff_id: key }`. */
  function StaffKeyIs(key: string): Filter { [Eq("staff_id", Str(key))] }

  /** The scope table after the patches of `u`, applied in order. */
  function Patched(t: Table, u: Updates): (p: Table)
    ensures |p| == |t|
  {
    if u == [] then t
    else
      var last := u[|u| - 1];
      Update(Patched(t, u[..|u| - 1]), StaffKeyIs(last.0), last.1)
  }

  /** How many patches `/updateScope` applies: those before the first that fails. */
  function Applied(u: Updates, failure: Option<nat>): nat {
    if failure.Some? && failure.value < |u| then failure.value else |u|
  }

  datatype ScopeUpdateResult = ScopeUpdated | ScopeUpdateFailed

  /**
   * `/updateScope`. `failure` is the position of the first patch the store
   * rejects, if any: the loop stops there with a 500, and the earlier
   * patches stay, there being no transaction.
   */
  method UpdateScope(store: Store, updates: Updates, failure: Option<nat>) returns (resp: ScopeUpdateResult)
    modifies store
    ensures TableOf(store.tables, Scope) == Patched(TableOf(old(store.tables), Scope), updates[..Applied(updates, failure)])
    ensures forall n :: n != Scope ==> TableOf(store.tables, n) == TableOf(old(store.tables), n)
    ensures resp == ScopeUpdated <==> Applied(updates, failure) == |updates|
  {
    ghost var db := store.tables;
    var i := 0;
    while i < |updates|
      invariant 0 <= i <= Applied(updates, failure)
      invariant TableOf(store.tables, Scope) == Patched(TableOf(db, Scope), updates[..i])
      invariant forall n :: n != Scope ==> TableOf(store.tables, n) == TableOf(db, n)
    {
      if failure == Some(i) {
        return ScopeUpdateFailed;
      }
      PatchedStep(TableOf(db, Scope), updates, i);
      var _ := store.UpdateWhere(Scope, StaffKeyIs(updates[i].0), updates[i].1);
      i := i + 1;
    }
    assert updates[..|updates|] == updates;
    resp := ScopeUpdated;
  }

  /** The patches up to `i` are those before it, then the one at `i`. */
  lemma PatchedStep(t: Table, u: Updates, i: nat)
    requires i < |u|
    ensures Patched(t, u[..i + 1]) == Update(Patched(t, u[..i]), StaffKeyIs(u[i].0), u[i].1)
  {
    assert u[..i + 1][..i] == u[..i];
  }

  /** The patch of the last update whose key is the cell `c`, if any. */
  function PatchOf(u: Updates, c: Cell): (p: Option<Row>)
    ensures p.None? <==> forall j :: 0 <= j < |u| ==> Str(u[j].0) != c
  {
    if u == [] then None
    else if Str(u[|u| - 1].0) == c then Some(u[|u| - 1].1)
    else
      var p := PatchOf(u[..|u| - 1], c);
      assert forall j :: 0 <= j < |u| - 1 ==> u[..|u| - 1][j] == u[j];
      p
  }

  /** A scope row whose `staff_id` is no key of `updates` comes out unchanged. */
  lemma {:induction false} UnkeyedRowsUnchanged(t: Table, u: Updates, i: nat)
    requires i < |t| && forall j :: 0 <= j < |u| ==> Str(u[j].0) != Get(t[i], "staff_id")
    ensures Patched(t, u)[i] == t[i]
  {
    if u != [] {
      var p := u[..|u| - 1];
      UnkeyedRowsUnchanged(t, p, i);
      MatchesOne(t[i], StaffKeyIs(u[|u| - 1].0)[0]);
    }
  }

  /**
   * With distinct keys (an object's keys are) and patches that leave
   * `staff_id` alone, every scope row of a key's staff takes exactly that
   * key's patch, and every other row is unchanged.
   */
  lemma {:induction false} PatchedRows(t: Table, u: Updates, i: nat)
    requires i < |t|
    requires NoDup(UpdateKeys(u))
    requires forall j :: 0 <= j < |u| ==> "staff_id" !in u[j].1
    ensures Get(Patched(t, u)[i], "staff_id") == Get(t[i], "staff_id")
    ensures Patched(t, u)[i] == match PatchOf(u, Get(t[i], "staff_id")) { case None => t[i] case Some(p) => t[i] + p }
  {
    if u != [] {
      var p := u[..|u| - 1];
      var last := u[|u| - 1];
      assert NoDup(UpdateKeys(p)) by {
        forall a, b | 0 <= a < b < |p| ensures UpdateKeys(p)[a] != UpdateKeys(p)[b] {
          assert UpdateKeys(u)[a] != UpdateKeys(u)[b];
        }
      }
      PatchedRows(t, p, i);
      MatchesOne(Patched(t, p)[i], StaffKeyIs(last.0)[0]);
      if Str(last.0) == Get(t[i], "staff_id") {
        forall j | 0 <= j < |p| ensures Str(p[j].0) != Get(t[i], "staff_id") {
          assert UpdateKeys(u)[j] != UpdateKeys(u)[|u| - 1];
        }
      }
    }
  }
}
