/**
 * What the writing operations of the group store do to the tables, stated as
 * functions of the tables before the call: inserting a group, updating one,
 * moving listed entries under a target, and the loop of
 * `insertGroupItemsAsync` with its early return.
 */
module Mutations {
  import opened Wrappers
  import opened Records

  // ---------------------------------------------------------------------
  // addGroupAsync, updateAsync, the trash root

  /**
   * The row `addGroupAsync` inserts: the given id, or a fresh one when it is
   * missing or empty, and the given columns except `description`, which it
   * does not copy.
   */
  function GroupRow(n: NewGroup, freshId: string): (g: Group)
    ensures g.id == if Truthy(n.id) then n.id.value else freshId
    ensures g.description.None?
    ensures g.parentId == n.parentId && g.name == n.name && g.icon == n.icon
    ensures g.color == n.color && g.order == n.order
  {
    Group(if Truthy(n.id) then n.id.value else freshId, n.parentId, n.name, None, n.icon, n.color, n.order)
  }

  function Apply<T>(u: Update<T>, v: T): T
  {
    match u
    case Keep => v
    case Put(w) => w
  }

  /** A group row with the columns an update provides written and the others kept. */
  function ApplyUpdate(g: Group, u: GroupUpdate): Group
  {
    Group(g.id, Apply(u.parentId, g.parentId), Apply(u.name, g.name), Apply(u.description, g.description),
      Apply(u.icon, g.icon), Apply(u.color, g.color), Apply(u.order, g.order))
  }

  /** `UPDATE groups SET … WHERE id = u.id`. */
  function UpdateRows(rows: seq<Group>, u: GroupUpdate): (r: seq<Group>)
    ensures |r| == |rows|
    ensures forall k :: 0 <= k < |rows| ==> r[k].id == rows[k].id
    ensures forall k :: 0 <= k < |rows| && rows[k].id != u.id ==> r[k] == rows[k]
  {
    seq(|rows|, k requires 0 <= k < |rows| => if rows[k].id == u.id then ApplyUpdate(rows[k], u) else rows[k])
  }

  /** Writing the same update twice is writing it once. */
  lemma UpdateIdempotent(rows: seq<Group>, u: GroupUpdate)
    ensures UpdateRows(UpdateRows(rows, u), u) == UpdateRows(rows, u)
  {
    var once := UpdateRows(rows, u);
    forall k | 0 <= k < |rows| ensures UpdateRows(once, u)[k] == once[k] {
      if rows[k].id == u.id {
        assert once[k] == ApplyUpdate(rows[k], u);
      }
    }
  }

  /** An update never touches the primary key, so ids stay unique. */
  lemma UpdateKeepsIds(rows: seq<Group>, u: GroupUpdate)
    ensures Ids(UpdateRows(rows, u)) == Ids(rows)
    ensures UniqueIds(rows) ==> UniqueIds(UpdateRows(rows, u))
  {
    var r := UpdateRows(rows, u);
    assert forall x :: x in Ids(r) ==> x in Ids(rows);
    assert forall x :: x in Ids(rows) ==> x in Ids(r);
  }

  /** The update a soft delete writes: only `parentId`, set to the trash. */
  function ToTrash(id: string): GroupUpdate
  {
    GroupUpdate(id, Put(Some(TrashId)), Keep, Keep, Keep, Keep, Keep)
  }

  /** The group `createTrashIfNotExistsAsync` adds: a root named `Trash` with the trash icon. */
  const TrashGroup: NewGroup :=
    NewGroup(Some(TrashId), None, Some("Trash"), None, Some("mdi:trash-outline"), None, None)

  /** The number of rows with a given id. */
  function CountId(rows: seq<Group>, id: string): (n: nat)
    ensures n <= |rows|
    ensures n == 0 <==> id !in Ids(rows)
  {
    if |rows| == 0 then 0
    else
      var rest := CountId(rows[1..], id);
      assert Ids(rows) == {rows[0].id} + Ids(rows[1..]) by {
        forall x | x in Ids(rows) ensures x in {rows[0].id} + Ids(rows[1..]) {
          var k :| 0 <= k < |rows| && rows[k].id == x;
          if k > 0 { assert rows[1..][k - 1] == rows[k]; }
        }
      }
      (if rows[0].id == id then 1 else 0) + rest
  }

  /** Under the primary key a present id occurs exactly once. */
  lemma {:induction false} CountUnique(rows: seq<Group>, id: string)
    requires UniqueIds(rows) && id in Ids(rows)
    ensures CountId(rows, id) == 1
    decreases |rows|
  {
    if rows[0].id == id {
      assert forall k :: 0 <= k < |rows[1..]| ==> rows[1..][k].id != id by {
        forall k | 0 <= k < |rows[1..]| ensures rows[1..][k].id != id {
          assert rows[1..][k] == rows[k + 1];
        }
      }
    } else {
      var k :| 0 <= k < |rows| && rows[k].id == id;
      assert rows[1..][k - 1].id == id;
      CountUnique(rows[1..], id);
    }
  }

  // ---------------------------------------------------------------------
  // moveGroupItemsAsync

  /** The parent a moved group gets: the target's id if the target is a cached group, otherwise null. */
  function TargetParent(target: Option<Group>): Option<string>
  {
    match target
    case Some(t) => Some(t.id)
    case None => None
  }

  /**
   * The move writes the row of listed id `id` when `id` names a cached group
   * that is not already under the target; with no known target nothing is
   * skipped (a null parent is never the undefined target id).
   */
  predicate Relocated(cache: seq<Group>, target: Option<Group>, ids: seq<string>, id: string)
  {
    id in ids && FindById(cache, Some(id)).Some?
    && !(target.Some? && FindById(cache, Some(id)).value.parentId == Some(target.value.id))
  }

  /** The groups table after the move: relocated rows get the target parent, all others stay. */
  function MovedRows(rows: seq<Group>, cache: seq<Group>, target: Option<Group>, ids: seq<string>): (r: seq<Group>)
    ensures |r| == |rows|
    ensures forall k :: 0 <= k < |rows| ==> r[k].id == rows[k].id
  {
    seq(|rows|, k requires 0 <= k < |rows| =>
      if Relocated(cache, target, ids, rows[k].id) then rows[k].(parentId := TargetParent(target)) else rows[k])
  }

  /**
   * The memberships after the move: a listed id that is not a cached group is
   * filed under the target when the target is a known group and the id has a
   * membership row; nothing else changes.
   */
  function MovedMemberships(ms: map<string, Option<string>>, cache: seq<Group>, target: Option<Group>, ids: seq<string>)
    : (r: map<string, Option<string>>)
    ensures r.Keys == ms.Keys
  {
    map k | k in ms :: if k in ids && FindById(cache, Some(k)).None? && target.Some? then Some(target.value.id) else ms[k]
  }

  /**
   * When the cache mirrors the table, every listed group ends up under the
   * target parent (null for an unknown target): the skipped ones already were.
   */
  lemma MoveReachesTarget(rows: seq<Group>, cache: seq<Group>, target: Option<Group>, ids: seq<string>, k: nat)
    requires k < |rows| && rows[k].id in ids
    requires FindById(cache, Some(rows[k].id)) == Some(rows[k])
    ensures MovedRows(rows, cache, target, ids)[k].parentId == TargetParent(target)
  {
  }

  /** Moving the same entries again, with the cache refreshed in between, changes nothing more. */
  lemma MoveIdempotent(rows: seq<Group>, target: Option<Group>, ids: seq<string>)
    requires UniqueIds(rows)
    ensures var moved := MovedRows(rows, rows, target, ids);
      MovedRows(moved, moved, target, ids) == moved
  {
    var moved := MovedRows(rows, rows, target, ids);
    forall k | 0 <= k < |rows| ensures MovedRows(moved, moved, target, ids)[k] == moved[k] {
      FindUnique(rows, k);
      assert UniqueIds(moved);
      FindUnique(moved, k);
    }
  }

  /** The move keeps the primary key. */
  lemma MoveKeepsIds(rows: seq<Group>, cache: seq<Group>, target: Option<Group>, ids: seq<string>)
    ensures Ids(MovedRows(rows, cache, target, ids)) == Ids(rows)
    ensures UniqueIds(rows) ==> UniqueIds(MovedRows(rows, cache, target, ids))
  {
    var r := MovedRows(rows, cache, target, ids);
    assert forall x :: x in Ids(r) ==> x in Ids(rows);
    assert forall x :: x in Ids(rows) ==> x in Ids(r);
  }

  /** `UPDATE groups SET parentId = p WHERE id = id`. */
  function SetParent(rows: seq<Group>, id: string, p: Option<string>): (r: seq<Group>)
    ensures |r| == |rows|
    ensures forall k :: 0 <= k < |rows| ==> r[k] == if rows[k].id == id then rows[k].(parentId := p) else rows[k]
  {
    seq(|rows|, k requires 0 <= k < |rows| => if rows[k].id == id then rows[k].(parentId := p) else rows[k])
  }

  /** The closed form of the move grows one listed id at a time, as the loop does. */
  lemma MovedRowsStep(rows: seq<Group>, cache: seq<Group>, target: Option<Group>, ids: seq<string>, i: nat)
    requires i < |ids|
    ensures var before := MovedRows(rows, cache, target, ids[..i]);
      MovedRows(rows, cache, target, ids[..i + 1])
      == if Relocated(cache, target, [ids[i]], ids[i]) then SetParent(before, ids[i], TargetParent(target)) else before
  {
    assert forall x :: x in ids[..i + 1] <==> x in ids[..i] || x == ids[i] by {
      assert ids[..i + 1] == ids[..i] + [ids[i]];
    }
  }

  lemma MovedMembershipsStep(ms: map<string, Option<string>>, cache: seq<Group>, target: Option<Group>, ids: seq<string>, i: nat)
    requires i < |ids|
    ensures var before := MovedMemberships(ms, cache, target, ids[..i]);
      MovedMemberships(ms, cache, target, ids[..i + 1])
      == if FindById(cache, Some(ids[i])).None? && target.Some? then Retarget(before, ids[i], target.value.id) else before
  {
    assert forall x :: x in ids[..i + 1] <==> x in ids[..i] || x == ids[i] by {
      assert ids[..i + 1] == ids[..i] + [ids[i]];
    }
  }

  /** Nothing listed, nothing moved. */
  lemma MovedNothing(rows: seq<Group>, cache: seq<Group>, target: Option<Group>, ms: map<string, Option<string>>)
    ensures MovedRows(rows, cache, target, []) == rows
    ensures MovedMemberships(ms, cache, target, []) == ms
  {
  }

  /** The groups table after a soft delete made sure the trash exists. */
  function WithTrash(rows: seq<Group>): seq<Group>
  {
    if TrashId in Ids(rows) then rows else rows + [GroupRow(TrashGroup, TrashId)]
  }

  /** Making sure the trash exists leaves exactly one trash row, a root when it had to be created. */
  lemma WithTrashSingle(rows: seq<Group>)
    requires UniqueIds(rows)
    ensures UniqueIds(WithTrash(rows)) && CountId(WithTrash(rows), TrashId) == 1
    ensures TrashId !in Ids(rows) ==> FindById(WithTrash(rows), Some(TrashId)) == Some(GroupRow(TrashGroup, TrashId))
    ensures TrashId !in Ids(rows) ==> GroupRow(TrashGroup, TrashId).parentId.None?
  {
    var r := WithTrash(rows);
    if TrashId !in Ids(rows) {
      assert r[|rows|] == GroupRow(TrashGroup, TrashId);
      assert forall k :: 0 <= k < |rows| ==> r[k] == rows[k];
      assert TrashId in Ids(r);
      FindUnique(r, |rows|);
    }
    CountUnique(r, TrashId);
  }

  /** Writing a whole record with the same id keeps the primary key. */
  lemma OverwriteKeepsIds(rows: seq<Group>, id: string, g: Group)
    requires g.id == id
    ensures Ids(Overwrite(rows, id, g)) == Ids(rows)
    ensures UniqueIds(rows) ==> UniqueIds(Overwrite(rows, id, g))
  {
    var r := Overwrite(rows, id, g);
    assert forall k :: 0 <= k < |rows| ==> r[k].id == rows[k].id;
    assert forall x :: x in Ids(r) ==> x in Ids(rows);
    assert forall x :: x in Ids(rows) ==> x in Ids(r);
  }

  // ---------------------------------------------------------------------
  // insertGroupItemsAsync

  /** The tables one iteration of `insertGroupItemsAsync` reads and writes. */
  datatype Tables = Tables(rows: seq<Group>, cache: seq<Group>, memberships: map<string, Option<string>>)

  /** The loop goes on, or the early `return` ended it (and skipped the refresh). */
  datatype Run = Running(tables: Tables) | Stopped(tables: Tables)

  /** The membership row of item `id`, if any, filed under group `gid`. */
  function Retarget(ms: map<string, Option<string>>, id: string, gid: string): (r: map<string, Option<string>>)
    ensures r.Keys == ms.Keys
    ensures forall k :: k in ms ==> r[k] == if k == id then Some(gid) else ms[k]
  {
    if id in ms then ms[id := Some(gid)] else ms
  }

  /** Every row with id `id` overwritten with the whole record `g`. */
  function Overwrite(rows: seq<Group>, id: string, g: Group): (r: seq<Group>)
    ensures |r| == |rows|
    ensures forall k :: 0 <= k < |rows| ==> r[k] == if rows[k].id == id then g else rows[k]
  {
    seq(|rows|, k requires 0 <= k < |rows| => if rows[k].id == id then g else rows[k])
  }

  /**
   * One iteration for entry `item`. A group entry stops the loop when its
   * cached parent equals the target's id, which includes the case of a group
   * missing from the cache together with an unknown target (both undefined).
   * Otherwise a cached group gets the target parent in the cache and its whole
   * cached record is written to its row. An item entry is refiled only under a
   * known target.
   */
  function InsertStep(t: Tables, item: MenuItem, target: Option<Group>): Run
  {
    if item.isGroup then
      match FindIndex(t.cache, Some(item.id))
      case None => if target.None? then Stopped(t) else Running(t)
      case Some(i) =>
        if target.Some? && t.cache[i].parentId == Some(target.value.id) then Stopped(t)
        else
          var g := t.cache[i].(parentId := TargetParent(target));
          Running(Tables(Overwrite(t.rows, item.id, g), t.cache[i := g], t.memberships))
    else if target.Some? then Running(t.(memberships := Retarget(t.memberships, item.id, target.value.id)))
    else Running(t)
  }

  /** The loop over `items`, from the left, ending at the first stop. */
  function InsertRun(t: Tables, items: seq<MenuItem>, target: Option<Group>): Run
  {
    if |items| == 0 then Running(t)
    else match InsertRun(t, items[..|items| - 1], target)
      case Stopped(u) => Stopped(u)
      case Running(u) => InsertStep(u, items[|items| - 1], target)
  }

  /** Once stopped, later entries are never looked at. */
  lemma {:induction false} StoppedStaysStopped(t: Tables, a: seq<MenuItem>, b: seq<MenuItem>, target: Option<Group>)
    requires InsertRun(t, a, target).Stopped?
    ensures InsertRun(t, a + b, target) == InsertRun(t, a, target)
    decreases |b|
  {
    if |b| > 0 {
      var ab := a + b;
      assert ab[..|ab| - 1] == a + b[..|b| - 1];
      StoppedStaysStopped(t, a, b[..|b| - 1], target);
    } else {
      assert a + b == a;
    }
  }

  /** The loop after `i` entries takes one more step, and a stop there is the result of the whole loop. */
  lemma InsertRunStep(t: Tables, items: seq<MenuItem>, i: nat, target: Option<Group>)
    requires i < |items| && InsertRun(t, items[..i], target).Running?
    ensures var next := InsertStep(InsertRun(t, items[..i], target).tables, items[i], target);
      InsertRun(t, items[..i + 1], target) == next
      && (next.Stopped? ==> InsertRun(t, items, target) == next)
  {
    assert items[..i + 1][..i] == items[..i];
    if InsertRun(t, items[..i + 1], target).Stopped? {
      StoppedStaysStopped(t, items[..i + 1], items[i + 1..], target);
      assert items[..i + 1] + items[i + 1..] == items;
    }
  }

  /** The first entry runs alone. */
  lemma InsertRunFirst(t: Tables, x: MenuItem, rest: seq<MenuItem>, target: Option<Group>)
    requires InsertStep(t, x, target).Stopped?
    ensures InsertRun(t, [x] + rest, target) == InsertStep(t, x, target)
  {
    assert InsertRun(t, [x], target) == InsertStep(t, x, target) by {
      assert [x][..0] == [];
    }
    StoppedStaysStopped(t, [x], rest, target);
  }

  /**
   * With no known target, a listed group that is not in the cache ends the
   * loop on the spot, before any later entry and before the refresh.
   */
  lemma UnknownGroupWithoutTargetStops(t: Tables, id: string, rest: seq<MenuItem>)
    requires FindById(t.cache, Some(id)).None?
    ensures InsertRun(t, [MenuItem(id, true)] + rest, None) == Stopped(t)
  {
    InsertRunFirst(t, MenuItem(id, true), rest, None);
  }

  /** Overwriting a cached group's parent keeps every cached id where it was. */
  lemma FindIndexAfterParentChange(cache: seq<Group>, i: nat, p: Option<string>, id: Option<string>)
    requires i < |cache|
    ensures FindIndex(cache[i := cache[i].(parentId := p)], id) == FindIndex(cache, id)
  {
    var c := cache[i := cache[i].(parentId := p)];
    assert forall k :: 0 <= k < |cache| ==> c[k].id == cache[k].id;
    match FindIndex(cache, id)
    case None =>
    case Some(j) =>
  }

  /**
   * A group listed twice under a known target: the first time it is moved,
   * the second time its parent already equals the target and the loop stops,
   * so the refresh never happens.
   */
  lemma DuplicateGroupStops(t: Tables, id: string, target: Group)
    requires FindById(t.cache, Some(id)).Some?
    requires FindById(t.cache, Some(id)).value.parentId != Some(target.id)
    ensures InsertRun(t, [MenuItem(id, true), MenuItem(id, true)], Some(target)).Stopped?
  {
    var items := [MenuItem(id, true), MenuItem(id, true)];
    var i := FindIndex(t.cache, Some(id)).value;
    assert items[..1][..0] == [];
    assert InsertRun(t, items[..1], Some(target)) == InsertStep(t, items[0], Some(target));
    var u := InsertStep(t, items[0], Some(target)).tables;
    FindIndexAfterParentChange(t.cache, i, Some(target.id), Some(id));
    assert FindIndex(u.cache, Some(id)) == Some(i);
  }

  /** The loop never changes which cached entry an id finds. */
  lemma {:induction false} InsertRunKeepsLookups(t: Tables, items: seq<MenuItem>, target: Option<Group>, id: Option<string>)
    ensures FindIndex(InsertRun(t, items, target).tables.cache, id) == FindIndex(t.cache, id)
    decreases |items|
  {
    if |items| > 0 {
      var p := items[..|items| - 1];
      InsertRunKeepsLookups(t, p, target, id);
      match InsertRun(t, p, target)
      case Stopped(_) =>
      case Running(u) =>
        var x := items[|items| - 1];
        if x.isGroup && FindIndex(u.cache, Some(x.id)).Some? {
          FindIndexAfterParentChange(u.cache, FindIndex(u.cache, Some(x.id)).value, TargetParent(target), id);
        }
    }
  }

  /** One step places its own group under the target and leaves placed groups placed. */
  lemma StepPlaces(u: Tables, x: MenuItem, target: Option<Group>, id: string)
    requires InsertStep(u, x, target).Running?
    requires FindById(u.cache, Some(id)).Some?
    requires (x.isGroup && x.id == id) || FindById(u.cache, Some(id)).value.parentId == TargetParent(target)
    ensures var v := InsertStep(u, x, target).tables;
      FindById(v.cache, Some(id)).Some? && FindById(v.cache, Some(id)).value.parentId == TargetParent(target)
  {
    if x.isGroup && FindIndex(u.cache, Some(x.id)).Some? {
      var i := FindIndex(u.cache, Some(x.id)).value;
      FindIndexAfterParentChange(u.cache, i, TargetParent(target), Some(id));
    }
  }

  /**
   * A run that was not stopped leaves every listed cached group under the
   * target in the cache.
   */
  lemma {:induction false} InsertRunPlaces(t: Tables, items: seq<MenuItem>, target: Option<Group>, j: nat)
    requires InsertRun(t, items, target).Running?
    requires j < |items| && items[j].isGroup && FindById(t.cache, Some(items[j].id)).Some?
    ensures var u := InsertRun(t, items, target).tables;
      FindById(u.cache, Some(items[j].id)).Some?
      && FindById(u.cache, Some(items[j].id)).value.parentId == TargetParent(target)
    decreases |items|
  {
    var n := |items| - 1;
    var p := items[..n];
    assert InsertRun(t, p, target).Running?;
    var u := InsertRun(t, p, target).tables;
    InsertRunKeepsLookups(t, p, target, Some(items[j].id));
    if j < n {
      assert p[j] == items[j];
      InsertRunPlaces(t, p, target, j);
    }
    StepPlaces(u, items[n], target, items[j].id);
  }
}
