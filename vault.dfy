/**
 * The password group store: the database tables it writes (groups, group
 * memberships, and through the item store the items, their custom fields and
 * attachments) and its in-memory `groups` list, refreshed from the groups
 * table by `syncGroupItemsAsync`.
 */
module Vault {
  import opened Wrappers
  import opened Records
  import opened Hierarchy
  import opened Mutations
  import opened Cloning

  class GroupStore {
    /** Whether the database handle is set; every operation fails without it. */
    var ready: bool
    /** The groups table, in row order. */
    var groupRows: seq<Group>
    /** The store's `groups` list, as last refreshed. */
    var cache: seq<Group>
    /** The group-items table: an item's membership, under a group or unfiled (null). */
    var memberships: map<string, Option<string>>
    /** The items table, by item id. */
    var items: map<string, Details>
    /** The custom fields of each item. */
    var keyValues: map<string, seq<KeyValue>>
    /** The item-binaries table. */
    var attachments: seq<Attachment>

    /** The primary key of the groups table. */
    ghost predicate Valid()
      reads this
    {
      UniqueIds(groupRows)
    }

    /** The tables a clone writes, as one value. */
    function Contents(): Store
      reads this
    {
      Store(groupRows, items, keyValues, memberships, attachments)
    }

    constructor (ready: bool)
      ensures this.ready == ready && Valid()
      ensures groupRows == [] && cache == [] && memberships == map[]
      ensures items == map[] && keyValues == map[] && attachments == []
    {
      this.ready := ready;
      groupRows := [];
      cache := [];
      memberships := map[];
      items := map[];
      keyValues := map[];
      attachments := [];
    }

    // -------------------------------------------------------------------
    // Reads

    /** `readGroupAsync`: the row with that id, or null. */
    function ReadGroup(id: string): (r: Result<Option<Group>>)
      reads this
      ensures r.Ok? <==> ready
      ensures r.Ok? ==> (r.value.Some? <==> id in Ids(groupRows))
      ensures r.Ok? && r.value.Some? ==> r.value.value in groupRows && r.value.value.id == id
    {
      if !ready then Err(NotInitialized)
      else
        var found := FindById(groupRows, Some(id));
        assert found.None? ==> id !in Ids(groupRows);
        Ok(found)
    }

    /** `readGroupsAsync`: the children of a truthy parent id, otherwise every group, by `order` with nulls last. */
    function ReadGroups(parent: Option<string>): (r: Result<seq<Group>>)
      reads this
      ensures r.Ok? <==> ready
      ensures r.Ok? ==> SortedByOrder(r.value)
      ensures r.Ok? && Truthy(parent) ==> multiset(r.value) == multiset(WithParent(groupRows, parent))
      ensures r.Ok? && Truthy(parent) ==> forall g :: g in r.value <==> g in groupRows && g.parentId == parent
      ensures r.Ok? && !Truthy(parent) ==> multiset(r.value) == multiset(groupRows)
    {
      if !ready then Err(NotInitialized) else Ok(ListGroups(groupRows, parent))
    }

    /** `getByParentIdAsync`: children of a truthy parent id, otherwise the roots; any failure gives none. */
    function GetByParentId(parent: Option<string>): (r: seq<Group>)
      reads this
      ensures !ready ==> r == []
      ensures SortedByOrder(r)
      ensures ready && Truthy(parent) ==> multiset(r) == multiset(WithParent(groupRows, parent))
      ensures ready && !Truthy(parent) ==> multiset(r) == multiset(WithParent(groupRows, None))
      ensures ready && Truthy(parent) ==> forall g :: g in r <==> g in groupRows && g.parentId == parent
      ensures ready && !Truthy(parent) ==> forall g :: g in r <==> g in groupRows && g.parentId.None?
    {
      if !ready then [] else ByParent(groupRows, parent)
    }

    /** `readGroupItemsAsync`: the items filed under a truthy group id, otherwise the unfiled ones. */
    function ReadGroupItems(groupId: Option<string>): (r: Result<set<string>>)
      reads this
      ensures r.Ok? <==> ready
      ensures r.Ok? && Truthy(groupId) ==> forall i :: i in r.value <==> i in memberships && memberships[i] == groupId
      ensures r.Ok? && !Truthy(groupId) ==> forall i :: i in r.value <==> i in memberships && memberships[i].None?
    {
      if !ready then Err(NotInitialized)
      else if Truthy(groupId) then Ok(set i | i in memberships && memberships[i] == groupId)
      else Ok(set i | i in memberships && memberships[i].None?)
    }

    // -------------------------------------------------------------------
    // Writes

    /** `syncGroupItemsAsync`: with the database there, the `groups` list becomes the groups table in query order. */
    method Sync()
      modifies this
      ensures Contents() == old(Contents()) && ready == old(ready)
      ensures ready ==> cache == SortByOrder(groupRows)
      ensures !ready ==> cache == old(cache)
    {
      if ready {
        cache := SortByOrder(groupRows);
      }
    }

    /**
     * `addGroupAsync`: inserts the row for `g` (its id, or `freshId` when that is
     * missing or empty; without `description`) and returns it. An id already in
     * the table violates the primary key and nothing is written.
     */
    method AddGroup(g: NewGroup, freshId: string) returns (r: Result<Group>)
      requires Valid()
      modifies this
      ensures Valid()
      ensures ready == old(ready) && cache == old(cache) && memberships == old(memberships)
      ensures items == old(items) && keyValues == old(keyValues) && attachments == old(attachments)
      ensures !ready ==> r == Err(NotInitialized) && groupRows == old(groupRows)
      ensures ready && GroupRow(g, freshId).id in Ids(old(groupRows)) ==>
        r == Err(ConstraintViolation) && groupRows == old(groupRows)
      ensures ready && GroupRow(g, freshId).id !in Ids(old(groupRows)) ==>
        r == Ok(GroupRow(g, freshId)) && groupRows == old(groupRows) + [GroupRow(g, freshId)]
    {
      if !ready {
        return Err(NotInitialized);
      }
      var row := GroupRow(g, freshId);
      if row.id in Ids(groupRows) {
        return Err(ConstraintViolation);
      }
      groupRows := groupRows + [row];
      assert forall k :: 0 <= k < |groupRows| - 1 ==> groupRows[k] == old(groupRows)[k];
      return Ok(row);
    }

    /** `updateAsync`: writes the provided columns of the row with the given id; nothing without an id. */
    method UpdateGroup(u: GroupUpdate) returns (r: Outcome)
      requires Valid()
      modifies this
      ensures Valid()
      ensures ready == old(ready) && cache == old(cache) && memberships == old(memberships)
      ensures items == old(items) && keyValues == old(keyValues) && attachments == old(attachments)
      ensures !ready ==> r == Fail(NotInitialized) && groupRows == old(groupRows)
      ensures ready ==> r == Pass && groupRows == if u.id == "" then old(groupRows) else UpdateRows(old(groupRows), u)
    {
      if !ready {
        return Fail(NotInitialized);
      }
      if u.id == "" {
        return Pass;
      }
      UpdateKeepsIds(groupRows, u);
      groupRows := UpdateRows(groupRows, u);
      return Pass;
    }

    /**
     * `createTrashIfNotExistsAsync`: `Ok(None)` when the trash group exists
     * (the source returns true), otherwise the trash root it adds. Either way
     * exactly one trash row is left.
     */
    method CreateTrashIfNotExists() returns (r: Result<Option<Group>>)
      requires Valid()
      modifies this
      ensures Valid()
      ensures ready == old(ready) && cache == old(cache) && memberships == old(memberships)
      ensures items == old(items) && keyValues == old(keyValues) && attachments == old(attachments)
      ensures !ready ==> r == Err(NotInitialized) && groupRows == old(groupRows)
      ensures ready ==> groupRows == WithTrash(old(groupRows)) && CountId(groupRows, TrashId) == 1
      ensures ready && TrashId in Ids(old(groupRows)) ==> r == Ok(None)
      ensures ready && TrashId !in Ids(old(groupRows)) ==> r == Ok(Some(GroupRow(TrashGroup, TrashId)))
      ensures ready && TrashId !in Ids(old(groupRows)) ==>
        FindById(groupRows, Some(TrashId)) == Some(GroupRow(TrashGroup, TrashId))
    {
      var existing := ReadGroup(TrashId);
      if existing.Err? {
        return Err(existing.error);
      }
      WithTrashSingle(groupRows);
      if existing.value.Some? {
        return Ok(None);
      }
      var added := AddGroup(TrashGroup, TrashId);
      return Ok(Some(added.value));
    }

    /**
     * `deleteGroupAsync`: a final delete, or any delete of the trash, removes the
     * group with its whole subtree and their memberships (the schema cascade).
     * Otherwise the trash is made sure to exist and the group is moved under it.
     */
    method DeleteGroup(id: string, final: bool) returns (r: Outcome)
      requires Valid()
      modifies this
      ensures Valid()
      ensures ready == old(ready) && cache == old(cache)
      ensures items == old(items) && keyValues == old(keyValues) && attachments == old(attachments)
      ensures !ready ==> r == Fail(NotInitialized) && groupRows == old(groupRows) && memberships == old(memberships)
      ensures ready && (final || id == TrashId) ==> (r == Pass
        && groupRows == Without(old(groupRows), Doomed(old(groupRows), id))
        && memberships == DropMemberships(old(memberships), Doomed(old(groupRows), id)))
      ensures ready && !(final || id == TrashId) ==> (r == Pass && memberships == old(memberships)
        && groupRows == (if id == "" then WithTrash(old(groupRows)) else UpdateRows(WithTrash(old(groupRows)), ToTrash(id)))
        && CountId(groupRows, TrashId) == 1
        && (TrashId !in Ids(old(groupRows)) ==> FindById(groupRows, Some(TrashId)) == Some(GroupRow(TrashGroup, TrashId))))
    {
      if !ready {
        return Fail(NotInitialized);
      }
      if final || id == TrashId {
        var doomed := Doomed(groupRows, id);
        var rows := Without(groupRows, doomed);
        var ms := DropMemberships(memberships, doomed);
        WithoutKeepsUnique(groupRows, doomed);
        groupRows, memberships := rows, ms;
      } else {
        MoveToTrash(id);
      }
      return Pass;
    }

    /** The soft delete: the trash is made sure to exist, then the group is moved under it. */
    method MoveToTrash(id: string)
      requires Valid() && ready && id != TrashId
      modifies this
      ensures Valid() && ready && cache == old(cache)
      ensures items == old(items) && keyValues == old(keyValues) && attachments == old(attachments)
      ensures memberships == old(memberships)
      ensures groupRows == (if id == "" then WithTrash(old(groupRows)) else UpdateRows(WithTrash(old(groupRows)), ToTrash(id)))
      ensures CountId(groupRows, TrashId) == 1
      ensures TrashId !in Ids(old(groupRows)) ==> FindById(groupRows, Some(TrashId)) == Some(GroupRow(TrashGroup, TrashId))
    {
      var trash := CreateTrashIfNotExists();
      UpdateCountsTrash(groupRows, ToTrash(id));
      UpdateKeepsTrashRow(groupRows, ToTrash(id));
      var moved := UpdateGroup(ToTrash(id));
    }

    /**
     * `moveGroupItemsAsync`: each listed cached group not already under the
     * target gets the target's id as parent (null for an unknown target); each
     * other listed id has its membership refiled under a known target; then the
     * `groups` list is refreshed.
     */
    method MoveGroupItems(ids: seq<string>, targetGroupId: Option<string>) returns (r: Outcome)
      requires Valid()
      modifies this
      ensures Valid()
      ensures ready == old(ready)
      ensures items == old(items) && keyValues == old(keyValues) && attachments == old(attachments)
      ensures !ready ==> (r == Fail(NotInitialized) && groupRows == old(groupRows) && memberships == old(memberships)
        && cache == old(cache))
      ensures ready ==> (r == Pass
        && groupRows == MovedRows(old(groupRows), old(cache), FindById(old(cache), targetGroupId), ids)
        && memberships == MovedMemberships(old(memberships), old(cache), FindById(old(cache), targetGroupId), ids)
        && cache == SortByOrder(groupRows))
    {
      if !ready {
        return Fail(NotInitialized);
      }
      var target := FindById(cache, targetGroupId);
      MovedNothing(groupRows, cache, target, memberships);
      assert ids[..0] == [];
      var i := 0;
      while i < |ids|
        invariant 0 <= i <= |ids|
        invariant cache == old(cache) && ready
        invariant items == old(items) && keyValues == old(keyValues) && attachments == old(attachments)
        invariant groupRows == MovedRows(old(groupRows), old(cache), target, ids[..i])
        invariant memberships == MovedMemberships(old(memberships), old(cache), target, ids[..i])
      {
        MovedRowsStep(old(groupRows), cache, target, ids, i);
        MovedMembershipsStep(old(memberships), cache, target, ids, i);
        MoveEntry(ids[i], target);
        i := i + 1;
      }
      assert ids[..|ids|] == ids;
      MoveKeepsIds(old(groupRows), old(cache), target, ids);
      Sync();
      return Pass;
    }

    /**
     * One iteration of the insert loop: reports whether the entry ends the
     * loop, and otherwise leaves the tables as that step writes them.
     */
    method InsertEntry(item: MenuItem, target: Option<Group>) returns (stopped: bool)
      requires Valid()
      modifies this
      ensures Valid() && ready == old(ready)
      ensures items == old(items) && keyValues == old(keyValues) && attachments == old(attachments)
      ensures var next := InsertStep(Tables(old(groupRows), old(cache), old(memberships)), item, target);
        stopped == next.Stopped? && Tables(groupRows, cache, memberships) == next.tables
    {
      if item.isGroup {
        var idx := FindIndex(cache, Some(item.id));
        if idx.None? && target.None? {
          return true;
        }
        if idx.Some? {
          if target.Some? && cache[idx.value].parentId == Some(target.value.id) {
            return true;
          }
          var moved := cache[idx.value].(parentId := TargetParent(target));
          OverwriteKeepsIds(groupRows, item.id, moved);
          groupRows, cache := Overwrite(groupRows, item.id, moved), cache[idx.value := moved];
        }
      } else if target.Some? {
        memberships := Retarget(memberships, item.id, target.value.id);
      }
      return false;
    }

    /**
     * One iteration of the move loop: a cached group not already under the
     * target is reparented; any other id is refiled under a known target.
     */
    method MoveEntry(id: string, target: Option<Group>)
      modifies this
      ensures groupRows == if Relocated(cache, target, [id], id) then SetParent(old(groupRows), id, TargetParent(target)) else old(groupRows)
      ensures memberships == if FindById(cache, Some(id)).None? && target.Some? then Retarget(old(memberships), id, target.value.id) else old(memberships)
      ensures ready == old(ready) && cache == old(cache)
      ensures items == old(items) && keyValues == old(keyValues) && attachments == old(attachments)
    {
      var group := FindById(cache, Some(id));
      if group.Some? {
        if !(target.Some? && group.value.parentId == Some(target.value.id)) {
          groupRows := SetParent(groupRows, id, TargetParent(target));
        }
      } else if target.Some? {
        memberships := Retarget(memberships, id, target.value.id);
      }
    }

    /**
     * `insertGroupItemsAsync`: the loop of `InsertRun` on the cache, the groups
     * table and the memberships. When the loop is left through the early
     * return the `groups` list is not refreshed (but keeps the parents written
     * into it); otherwise it is.
     */
    method InsertGroupItems(entries: seq<MenuItem>, targetGroupId: Option<string>) returns (r: Outcome)
      requires Valid()
      modifies this
      ensures Valid()
      ensures ready == old(ready)
      ensures items == old(items) && keyValues == old(keyValues) && attachments == old(attachments)
      ensures !ready ==> (r == Fail(NotInitialized) && groupRows == old(groupRows) && memberships == old(memberships)
        && cache == old(cache))
      ensures ready ==> (r == Pass &&
        var run := InsertRun(Tables(old(groupRows), old(cache), old(memberships)), entries, FindById(old(cache), targetGroupId));
        groupRows == run.tables.rows && memberships == run.tables.memberships
        && cache == (if run.Stopped? then run.tables.cache else SortByOrder(groupRows)))
    {
      if !ready {
        return Fail(NotInitialized);
      }
      var start := Tables(groupRows, cache, memberships);
      var target := FindById(cache, targetGroupId);
      assert entries[..0] == [];
      var i := 0;
      while i < |entries|
        invariant 0 <= i <= |entries|
        invariant ready && Valid()
        invariant items == old(items) && keyValues == old(keyValues) && attachments == old(attachments)
        invariant InsertRun(start, entries[..i], target) == Running(Tables(groupRows, cache, memberships))
      {
        InsertRunStep(start, entries, i, target);
        var stopped := InsertEntry(entries[i], target);
        if stopped {
          return Pass;
        }
        i := i + 1;
      }
      assert entries[..|entries|] == entries;
      Sync();
      return Pass;
    }

    /**
     * `cloneGroupItemsAsync`: the loop of `CloneRun` over the listed ids with
     * one new id each, followed by a refresh of the `groups` list.
     */
    method CloneGroupItems(ids: seq<string>, targetGroupId: Option<string>, opts: CloneOptions, newIds: seq<string>)
      returns (r: Outcome)
      requires Valid() && NewIdsFor(Contents(), ids, newIds)
      modifies this
      ensures Valid()
      ensures ready == old(ready)
      ensures !ready ==> r == Fail(NotInitialized) && Contents() == old(Contents()) && cache == old(cache)
      ensures ready ==> (r == Pass
        && Contents() == CloneRun(old(Contents()), old(cache), ids, newIds, targetGroupId, opts)
        && cache == SortByOrder(groupRows))
    {
      if !ready {
        return Fail(NotInitialized);
      }
      var target := FindById(cache, targetGroupId);
      ghost var start := Contents();
      assert ids[..0] == [] && newIds[..0] == [];
      var i := 0;
      while i < |ids|
        invariant 0 <= i <= |ids|
        invariant ready && Valid() && cache == old(cache)
        invariant Contents() == CloneRun(start, cache, ids[..i], newIds[..i], targetGroupId, opts)
      {
        CloneLoopStep(start, cache, ids, newIds, targetGroupId, opts, i);
        ghost var next := CloneStep(Contents(), cache, ids[i], newIds[i], targetGroupId, opts);
        CloneEntry(ids[i], newIds[i], target, targetGroupId, opts);
        assert Contents() == next;
        i := i + 1;
      }
      assert ids[..|ids|] == ids && newIds[..|ids|] == newIds;
      Sync();
      return Pass;
    }

    /** One iteration of the clone loop: the copy of group or item `id` under `newId`. */
    method CloneEntry(id: string, newId: string, target: Option<Group>, targetGroupId: Option<string>, opts: CloneOptions)
      requires Valid() && ready && target == FindById(cache, targetGroupId)
      requires newId != "" && newId !in Ids(groupRows) && newId !in items && newId !in keyValues && newId !in memberships
      modifies this
      ensures Valid() && ready && cache == old(cache)
      ensures Contents() == CloneStep(old(Contents()), cache, id, newId, targetGroupId, opts)
    {
      var group := FindById(cache, Some(id));
      if group.Some? {
        var added := AddGroup(ClonedGroup(group.value, newId, targetGroupId, opts), newId);
      } else if id in items {
        CloneItem(id, newId, TargetParent(target), opts);
      }
    }

    /**
     * The copy of item `id` under `newId`: its details as the clone rewrites
     * them, its custom fields, its membership and, with history, its attachments.
     */
    method CloneItem(id: string, newId: string, membership: Option<string>, opts: CloneOptions)
      requires id in items
      modifies this
      ensures items == old(items)[newId := ClonedDetails(old(items)[id], id, opts)]
      ensures keyValues == old(keyValues)[newId := KeyValuesIn(old(Contents()), id)]
      ensures memberships == old(memberships)[newId := membership]
      ensures attachments == old(attachments) + if opts.includeHistory then Rehome(AttachmentsOf(old(attachments), id), newId) else []
      ensures ready == old(ready) && groupRows == old(groupRows) && cache == old(cache)
    {
      var details := ClonedDetails(items[id], id, opts);
      var kvs := KeyValuesIn(Contents(), id);
      var copies := if opts.includeHistory then AttachmentsOf(attachments, id) else [];
      items, keyValues, memberships := items[newId := details], keyValues[newId := kvs], memberships[newId := membership];
      CopyAttachments(copies, newId);
      assert Rehome([], newId) == [];
    }

    /** The attachment rows written for a copied item, one insert each. */
    method CopyAttachments(src: seq<Attachment>, newId: string)
      modifies this
      ensures attachments == old(attachments) + Rehome(src, newId)
      ensures ready == old(ready) && groupRows == old(groupRows) && cache == old(cache)
      ensures memberships == old(memberships) && items == old(items) && keyValues == old(keyValues)
    {
      var k := 0;
      while k < |src|
        invariant 0 <= k <= |src|
        invariant attachments == old(attachments) + Rehome(src[..k], newId)
        invariant ready == old(ready) && groupRows == old(groupRows) && cache == old(cache)
        invariant memberships == old(memberships) && items == old(items) && keyValues == old(keyValues)
      {
        attachments := attachments + [Attachment(newId, src[k].binaryHash, src[k].fileName)];
        assert Rehome(src[..k + 1], newId) == Rehome(src[..k], newId) + [Attachment(newId, src[k].binaryHash, src[k].fileName)];
        k := k + 1;
      }
      assert src[..|src|] == src;
    }
  }

  /** The walk below group `id` ends within `fuel` nested calls. */
  predicate Explores(gs: seq<Group>, id: string, fuel: nat)
    decreases fuel, 0
  {
    fuel > 0 && ExploresAll(gs, ByParent(gs, Some(id)), fuel - 1)
  }

  /** The walks below each group of `cs`, in turn, end within `fuel` nested calls. */
  predicate ExploresAll(gs: seq<Group>, cs: seq<Group>, fuel: nat)
    decreases fuel, |cs| + 1
  {
    |cs| == 0 || (Explores(gs, cs[0].id, fuel) && ExploresAll(gs, cs[1..], fuel))
  }

  /** When the walks over a list end, so does the walk below its `k`-th group. */
  lemma {:induction false} ExploresAllAt(gs: seq<Group>, cs: seq<Group>, fuel: nat, k: nat)
    requires ExploresAll(gs, cs, fuel) && k < |cs|
    ensures Explores(gs, cs[k].id, fuel)
    decreases k
  {
    if k > 0 {
      var tail := cs[1..];
      assert ExploresAll(gs, tail, fuel);
      ExploresAllAt(gs, tail, fuel, k - 1);
      assert tail[k - 1] == cs[k];
    }
  }

  /** When the walk below every group of a list ends, so do the walks over the list. */
  lemma {:induction false} ExploresAllFrom(gs: seq<Group>, cs: seq<Group>, fuel: nat)
    requires forall k :: 0 <= k < |cs| ==> Explores(gs, cs[k].id, fuel)
    ensures ExploresAll(gs, cs, fuel)
    decreases |cs|
  {
    if |cs| > 0 {
      var tail := cs[1..];
      forall k | 0 <= k < |tail| ensures Explores(gs, tail[k].id, fuel) {
        assert tail[k] == cs[k + 1];
      }
      ExploresAllFrom(gs, tail, fuel);
      assert Explores(gs, cs[0].id, fuel);
    }
  }

  lemma ExploresFromChildren(gs: seq<Group>, id: string, fuel: nat, children: seq<Group>)
    requires fuel > 0 && children == ByParent(gs, Some(id))
    requires forall k :: 0 <= k < |children| ==> Explores(gs, children[k].id, fuel - 1)
    ensures Explores(gs, id, fuel)
  {
    ExploresAllFrom(gs, children, fuel - 1);
  }

  lemma ExploresNeedsChild(gs: seq<Group>, id: string, fuel: nat, children: seq<Group>, i: nat)
    requires fuel > 0 && children == ByParent(gs, Some(id)) && i < |children|
    requires !Explores(gs, children[i].id, fuel - 1)
    ensures !Explores(gs, id, fuel)
  {
    if Explores(gs, id, fuel) {
      ExploresAllAt(gs, children, fuel - 1, i);
    }
  }

  /**
   * `getChildGroupsRecursiveAsync(groupId, acc)` on the groups table `gs`
   * (`ready` false: every child lookup fails and yields no children). It walks
   * the whole subtree, but every nested call starts from a new empty list and
   * adds nothing to it, so what comes back is the caller's list unchanged.
   * `None` stands for a walk deeper than `fuel` nested calls (the source has no
   * guard).
   */
  method ChildGroupsRecursive(ready: bool, gs: seq<Group>, groupId: string, acc: seq<Group>, fuel: nat)
    returns (r: Option<seq<Group>>)
    ensures ready ==> (r.Some? <==> Explores(gs, groupId, fuel))
    ensures !ready ==> (r.Some? <==> fuel > 0)
    ensures r.Some? ==> r.value == acc
    decreases fuel, 0
  {
    if fuel == 0 {
      return None;
    }
    if !ready {
      // the child lookup fails, so there are no children to walk
      return Some(acc);
    }
    var children := ByParent(gs, Some(groupId));
    assert Explores(gs, groupId, fuel) == ExploresAll(gs, children, fuel - 1);
    r := WalkChildren(gs, children, acc, fuel - 1);
  }

  /**
   * The loop over the children of one group: a nested walk from each, whose
   * (always empty) result is appended to `acc`.
   */
  method WalkChildren(gs: seq<Group>, children: seq<Group>, acc: seq<Group>, depth: nat)
    returns (r: Option<seq<Group>>)
    ensures r.Some? <==> ExploresAll(gs, children, depth)
    ensures r.Some? ==> r.value == acc
    decreases depth, |children| + 1
  {
    var groups := acc;
    var i := 0;
    while i < |children|
      invariant 0 <= i <= |children|
      invariant groups == acc
      invariant ExploresAll(gs, children, depth) == ExploresAll(gs, children[i..], depth)
    {
      var sub := ChildGroupsRecursive(true, gs, children[i].id, [], depth);
      assert children[i..][0] == children[i] && children[i..][1..] == children[i + 1..];
      if sub.None? {
        return None;
      }
      groups := groups + sub.value;
      i := i + 1;
    }
    return Some(groups);
  }

  /** An update of another group leaves the row found for the trash id as it was. */
  lemma UpdateKeepsTrashRow(rows: seq<Group>, u: GroupUpdate)
    requires u.id != TrashId
    ensures FindById(UpdateRows(rows, u), Some(TrashId)) == FindById(rows, Some(TrashId))
  {
    var r := UpdateRows(rows, u);
    assert forall k :: 0 <= k < |rows| ==> (Some(r[k].id) == Some(TrashId) <==> Some(rows[k].id) == Some(TrashId));
    var i := FindIndex(rows, Some(TrashId));
    var j := FindIndex(r, Some(TrashId));
    if i.Some? {
      assert j.Some? && j.value == i.value;
    } else {
      assert j.None?;
    }
  }

  lemma UpdateCountsTrash(rows: seq<Group>, u: GroupUpdate)
    requires CountId(rows, TrashId) == 1
    ensures CountId(UpdateRows(rows, u), TrashId) == 1
  {
    UpdateKeepsCount(rows, u, TrashId);
  }

  lemma {:induction false} UpdateKeepsCount(rows: seq<Group>, u: GroupUpdate, id: string)
    ensures CountId(UpdateRows(rows, u), id) == CountId(rows, id)
    decreases |rows|
  {
    if |rows| > 0 {
      var r := UpdateRows(rows, u);
      var tail := rows[1..];
      UpdateKeepsCount(tail, u, id);
      assert r[1..] == UpdateRows(tail, u);
      assert r[0].id == rows[0].id;
      assert CountId(r, id) == (if r[0].id == id then 1 else 0) + CountId(r[1..], id);
      assert CountId(rows, id) == (if rows[0].id == id then 1 else 0) + CountId(tail, id);
    }
  }
}
