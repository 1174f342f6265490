/**
 * `cloneGroupItemsAsync`: each listed id that names a cached group gets a new
 * group next to the target; every other id that names an item gets a new item
 * whose credentials are references to the original, its custom fields, a
 * membership and, with history, copies of its attachments.
 */
module Cloning {
  import opened Wrappers
  import opened Records
  import opened Resolver
  import opened Mutations

  /** The options of a clone; `referenceCredentials` defaults to true, the others to false and absent. */
  datatype CloneOptions = CloneOptions(includeHistory: bool, referenceCredentials: bool, appendix: Option<string>)

  const DefaultOptions: CloneOptions := CloneOptions(false, true, None)

  /** The tables a clone writes. */
  datatype Store = Store(
    rows: seq<Group>,
    items: map<string, Details>,
    keyValues: map<string, seq<KeyValue>>,
    memberships: map<string, Option<string>>,
    attachments: seq<Attachment>)

  /** `${name} ${appendix}` with a truthy appendix, otherwise `name || ''`. */
  function CloneName(name: Option<string>, appendix: Option<string>): string
  {
    if Truthy(appendix) then Interpolate(name) + " " + appendix.value
    else if Truthy(name) then name.value
    else ""
  }

  /** The argument the clone hands to `addGroupAsync` for group `g`. */
  function ClonedGroup(g: Group, newId: string, targetGroupId: Option<string>, opts: CloneOptions): NewGroup
  {
    NewGroup(Some(newId), if Truthy(targetGroupId) then targetGroupId else None,
      Some(CloneName(g.name, opts.appendix)), g.description, g.icon, g.color, None)
  }

  /** The details of the copy of item `origId`. */
  function ClonedDetails(d: Details, origId: string, opts: CloneOptions): Details
  {
    var titled := d.(title := Some(CloneName(d.title, opts.appendix)));
    if opts.referenceCredentials then
      titled.(username := Some(ItemRefText("USERNAME", origId)), password := Some(ItemRefText("PASSWORD", origId)))
    else titled
  }

  /** `readAttachmentsAsync(itemId)`: the attachment rows of one item, in row order. */
  function AttachmentsOf(atts: seq<Attachment>, itemId: string): (r: seq<Attachment>)
    ensures forall a :: a in r <==> a in atts && a.itemId == itemId
  {
    if |atts| == 0 then []
    else
      var rest := AttachmentsOf(atts[1..], itemId);
      assert atts == [atts[0]] + atts[1..];
      if atts[0].itemId == itemId then [atts[0]] + rest else rest
  }

  /** Copies of attachment rows pointing at `newId`, keeping hash and file name. */
  function Rehome(atts: seq<Attachment>, newId: string): (r: seq<Attachment>)
    ensures |r| == |atts|
    ensures forall k :: 0 <= k < |atts| ==> r[k] == Attachment(newId, atts[k].binaryHash, atts[k].fileName)
  {
    seq(|atts|, k requires 0 <= k < |atts| => Attachment(newId, atts[k].binaryHash, atts[k].fileName))
  }

  /** `readKeyValuesAsync(itemId) || []`. */
  function KeyValuesIn(s: Store, id: string): seq<KeyValue>
  {
    if id in s.keyValues then s.keyValues[id] else []
  }

  /** One iteration, for listed id `id` with newIds id `newId`. */
  function CloneStep(s: Store, cache: seq<Group>, id: string, newId: string, targetGroupId: Option<string>, opts: CloneOptions): Store
  {
    match FindById(cache, Some(id))
    case Some(g) =>
      s.(rows := s.rows + [GroupRow(ClonedGroup(g, newId, targetGroupId, opts), newId)])
    case None =>
      if id !in s.items then s
      else Store(
        s.rows,
        s.items[newId := ClonedDetails(s.items[id], id, opts)],
        s.keyValues[newId := KeyValuesIn(s, id)],
        s.memberships[newId := TargetParent(FindById(cache, targetGroupId))],
        s.attachments + if opts.includeHistory then Rehome(AttachmentsOf(s.attachments, id), newId) else [])
  }

  /** The loop over the listed ids, from the left. */
  function CloneRun(s: Store, cache: seq<Group>, ids: seq<string>, newIds: seq<string>, targetGroupId: Option<string>, opts: CloneOptions): Store
    requires |newIds| == |ids|
  {
    if |ids| == 0 then s
    else
      var n := |ids| - 1;
      CloneStep(CloneRun(s, cache, ids[..n], newIds[..n], targetGroupId, opts), cache, ids[n], newIds[n], targetGroupId, opts)
  }

  /** The new ids are distinct, differ from the listed ids and name nothing stored yet. */
  predicate NewIdsFor(s: Store, ids: seq<string>, newIds: seq<string>)
  {
    |newIds| == |ids|
    && (forall i, j :: 0 <= i < j < |newIds| ==> newIds[i] != newIds[j])
    && forall k :: 0 <= k < |newIds| ==>
      newIds[k] != "" && newIds[k] !in ids && newIds[k] !in s.items && newIds[k] !in Ids(s.rows)
      && newIds[k] !in s.keyValues && newIds[k] !in s.memberships
  }

  lemma FreshPrefix(s: Store, ids: seq<string>, newIds: seq<string>, n: nat)
    requires NewIdsFor(s, ids, newIds) && n <= |ids|
    ensures NewIdsFor(s, ids[..n], newIds[..n])
  {
    forall k | 0 <= k < n ensures newIds[k] !in ids[..n] {
      assert newIds[k] !in ids;
    }
  }

  /** One iteration keeps the existing rows and attachment rows first. */
  lemma StepPrefixes(p: Store, cache: seq<Group>, id: string, newId: string, tg: Option<string>, opts: CloneOptions)
    ensures var r := CloneStep(p, cache, id, newId, tg, opts);
      |p.rows| <= |r.rows| && r.rows[..|p.rows|] == p.rows
      && |p.attachments| <= |r.attachments| && r.attachments[..|p.attachments|] == p.attachments
  {
    var r := CloneStep(p, cache, id, newId, tg, opts);
    assert r.rows[..|p.rows|] == p.rows;
    assert r.attachments[..|p.attachments|] == p.attachments;
  }

  /** One iteration only adds entries, and only under its new id. */
  lemma StepOnlyAdds(p: Store, cache: seq<Group>, id: string, newId: string, tg: Option<string>, opts: CloneOptions)
    requires newId !in p.items && newId !in p.keyValues && newId !in p.memberships
    ensures var r := CloneStep(p, cache, id, newId, tg, opts);
      (forall k :: k in p.items ==> k in r.items && r.items[k] == p.items[k])
      && (forall k :: k in p.keyValues ==> k in r.keyValues && r.keyValues[k] == p.keyValues[k])
      && (forall k :: k in p.memberships ==> k in r.memberships && r.memberships[k] == p.memberships[k])
      && (forall k :: k in r.items && k !in p.items ==> k == newId)
      && (forall k :: k in r.keyValues && k !in p.keyValues ==> k == newId)
      && (forall k :: k in r.memberships && k !in p.memberships ==> k == newId)
  {
  }

  lemma PrefixOfPrefix<T>(a: seq<T>, b: seq<T>, c: seq<T>)
    requires |a| <= |b| <= |c| && b[..|a|] == a && c[..|b|] == b
    ensures c[..|a|] == a
  {
    assert c[..|a|] == c[..|b|][..|a|];
  }

  /** Existing rows and attachment rows stay first, in order. */
  lemma {:induction false} ClonePrefixes(s: Store, cache: seq<Group>, ids: seq<string>, newIds: seq<string>, tg: Option<string>, opts: CloneOptions)
    requires |newIds| == |ids|
    ensures var r := CloneRun(s, cache, ids, newIds, tg, opts);
      |s.rows| <= |r.rows| && r.rows[..|s.rows|] == s.rows
      && |s.attachments| <= |r.attachments| && r.attachments[..|s.attachments|] == s.attachments
    decreases |ids|
  {
    if |ids| > 0 {
      var n := |ids| - 1;
      ClonePrefixes(s, cache, ids[..n], newIds[..n], tg, opts);
      var p := CloneRun(s, cache, ids[..n], newIds[..n], tg, opts);
      StepPrefixes(p, cache, ids[n], newIds[n], tg, opts);
      var r := CloneStep(p, cache, ids[n], newIds[n], tg, opts);
      PrefixOfPrefix(s.rows, p.rows, r.rows);
      PrefixOfPrefix(s.attachments, p.attachments, r.attachments);
    }
  }

  /** Existing entries keep their values, and a key is new only if it is the new id of a listed entry. */
  lemma {:induction false} CloneEntries(s: Store, cache: seq<Group>, ids: seq<string>, newIds: seq<string>, tg: Option<string>, opts: CloneOptions)
    requires NewIdsFor(s, ids, newIds)
    ensures var r := CloneRun(s, cache, ids, newIds, tg, opts);
      (forall k :: k in s.items ==> k in r.items && r.items[k] == s.items[k])
      && (forall k :: k in s.keyValues ==> k in r.keyValues && r.keyValues[k] == s.keyValues[k])
      && (forall k :: k in s.memberships ==> k in r.memberships && r.memberships[k] == s.memberships[k])
      && (forall k :: k in r.items && k !in s.items ==> k in newIds)
      && (forall k :: k in r.keyValues && k !in s.keyValues ==> k in newIds)
      && (forall k :: k in r.memberships && k !in s.memberships ==> k in newIds)
    decreases |ids|
  {
    if |ids| > 0 {
      var n := |ids| - 1;
      FreshPrefix(s, ids, newIds, n);
      CloneEntries(s, cache, ids[..n], newIds[..n], tg, opts);
      var p := CloneRun(s, cache, ids[..n], newIds[..n], tg, opts);
      assert newIds[n] !in newIds[..n];
      assert forall k :: k in newIds[..n] ==> k in newIds;
      StepOnlyAdds(p, cache, ids[n], newIds[n], tg, opts);
    }
  }

  /**
   * A clone only adds: existing rows stay first, existing entries keep their
   * values, and a key is new only if it is the new id of a listed entry.
   */
  lemma CloneOnlyAdds(s: Store, cache: seq<Group>, ids: seq<string>, newIds: seq<string>, tg: Option<string>, opts: CloneOptions)
    requires NewIdsFor(s, ids, newIds)
    ensures var r := CloneRun(s, cache, ids, newIds, tg, opts);
      |s.rows| <= |r.rows| && r.rows[..|s.rows|] == s.rows
      && |s.attachments| <= |r.attachments| && r.attachments[..|s.attachments|] == s.attachments
      && (forall k :: k in s.items ==> k in r.items && r.items[k] == s.items[k])
      && (forall k :: k in s.keyValues ==> k in r.keyValues && r.keyValues[k] == s.keyValues[k])
      && (forall k :: k in s.memberships ==> k in r.memberships && r.memberships[k] == s.memberships[k])
      && (forall k :: k in r.items && k !in s.items ==> k in newIds)
      && (forall k :: k in r.keyValues && k !in s.keyValues ==> k in newIds)
      && (forall k :: k in r.memberships && k !in s.memberships ==> k in newIds)
  {
    ClonePrefixes(s, cache, ids, newIds, tg, opts);
    CloneEntries(s, cache, ids, newIds, tg, opts);
  }

  /** One iteration adds at most a row with its new id. */
  lemma StepRowIds(p: Store, cache: seq<Group>, id: string, newId: string, tg: Option<string>, opts: CloneOptions)
    ensures forall x :: x in Ids(CloneStep(p, cache, id, newId, tg, opts).rows) ==> x in Ids(p.rows) || x == newId
  {
    var r := CloneStep(p, cache, id, newId, tg, opts);
    forall k | 0 <= k < |r.rows| ensures r.rows[k].id in Ids(p.rows) || r.rows[k].id == newId {
      if k < |p.rows| {
        assert r.rows[k] == p.rows[k];
      }
    }
  }

  /** The rows a clone adds carry new ids. */
  lemma {:induction false} RunRowIds(s: Store, cache: seq<Group>, ids: seq<string>, newIds: seq<string>, tg: Option<string>, opts: CloneOptions)
    requires |newIds| == |ids|
    ensures forall x :: x in Ids(CloneRun(s, cache, ids, newIds, tg, opts).rows) ==> x in Ids(s.rows) || x in newIds
    decreases |ids|
  {
    if |ids| > 0 {
      var n := |ids| - 1;
      var p := CloneRun(s, cache, ids[..n], newIds[..n], tg, opts);
      var r := CloneRun(s, cache, ids, newIds, tg, opts);
      assert r == CloneStep(p, cache, ids[n], newIds[n], tg, opts);
      RunRowIds(s, cache, ids[..n], newIds[..n], tg, opts);
      StepRowIds(p, cache, ids[n], newIds[n], tg, opts);
      forall x | x in Ids(r.rows) ensures x in Ids(s.rows) || x in newIds {
        if x != newIds[n] && x !in Ids(s.rows) {
          assert x in newIds[..n];
        }
      }
    }
  }

  /**
   * The next iteration of the loop: the run on one more id is one more step,
   * and that step's new id is unused so far.
   */
  lemma CloneLoopStep(s: Store, cache: seq<Group>, ids: seq<string>, newIds: seq<string>, tg: Option<string>, opts: CloneOptions, i: nat)
    requires NewIdsFor(s, ids, newIds) && i < |ids|
    ensures CloneRun(s, cache, ids[..i + 1], newIds[..i + 1], tg, opts)
      == CloneStep(CloneRun(s, cache, ids[..i], newIds[..i], tg, opts), cache, ids[i], newIds[i], tg, opts)
    ensures var p := CloneRun(s, cache, ids[..i], newIds[..i], tg, opts);
      newIds[i] != "" && newIds[i] !in p.items && newIds[i] !in p.keyValues
      && newIds[i] !in p.memberships && newIds[i] !in Ids(p.rows)
  {
    assert ids[..i + 1][..i] == ids[..i] && newIds[..i + 1][..i] == newIds[..i];
    FreshPrefix(s, ids, newIds, i);
    CloneOnlyAdds(s, cache, ids[..i], newIds[..i], tg, opts);
    RunRowIds(s, cache, ids[..i], newIds[..i], tg, opts);
    assert newIds[i] !in newIds[..i];
  }

  /** A key that is no new id keeps its entries through a clone. */
  lemma Untouched(s: Store, cache: seq<Group>, ids: seq<string>, newIds: seq<string>, tg: Option<string>, opts: CloneOptions, x: string)
    requires NewIdsFor(s, ids, newIds) && x !in newIds
    ensures var r := CloneRun(s, cache, ids, newIds, tg, opts);
      (x in r.items <==> x in s.items) && (x in s.items ==> r.items[x] == s.items[x])
      && (x in r.keyValues <==> x in s.keyValues) && KeyValuesIn(r, x) == KeyValuesIn(s, x)
      && (x in r.memberships <==> x in s.memberships)
  {
    CloneOnlyAdds(s, cache, ids, newIds, tg, opts);
  }

  /** The iteration for an item entry writes the copy under its new id. */
  lemma ItemStep(p: Store, cache: seq<Group>, id: string, newId: string, tg: Option<string>, opts: CloneOptions)
    requires FindById(cache, Some(id)).None? && id in p.items
    ensures var r := CloneStep(p, cache, id, newId, tg, opts);
      newId in r.items && r.items[newId] == ClonedDetails(p.items[id], id, opts)
      && newId in r.keyValues && r.keyValues[newId] == KeyValuesIn(p, id)
      && newId in r.memberships && r.memberships[newId] == TargetParent(FindById(cache, tg))
  {
  }

  /**
   * The copy of listed item `ids[j]`: details with the cloned title and, by
   * default, reference credentials, the original's custom fields, and a
   * membership under the target group if it is a cached group, otherwise null.
   */
  lemma {:induction false} ClonedItem(s: Store, cache: seq<Group>, ids: seq<string>, newIds: seq<string>, tg: Option<string>, opts: CloneOptions, j: nat)
    requires NewIdsFor(s, ids, newIds) && j < |ids|
    requires FindById(cache, Some(ids[j])).None? && ids[j] in s.items
    ensures var r := CloneRun(s, cache, ids, newIds, tg, opts);
      newIds[j] in r.items && r.items[newIds[j]] == ClonedDetails(s.items[ids[j]], ids[j], opts)
      && newIds[j] in r.keyValues && r.keyValues[newIds[j]] == KeyValuesIn(s, ids[j])
      && newIds[j] in r.memberships && r.memberships[newIds[j]] == TargetParent(FindById(cache, tg))
    decreases |ids|
  {
    var n := |ids| - 1;
    FreshPrefix(s, ids, newIds, n);
    var p := CloneRun(s, cache, ids[..n], newIds[..n], tg, opts);
    if j < n {
      assert ids[..n][j] == ids[j] && newIds[..n][j] == newIds[j];
      ClonedItem(s, cache, ids[..n], newIds[..n], tg, opts, j);
      assert newIds[n] !in newIds[..n];
      Untouched(s, cache, ids[..n], newIds[..n], tg, opts, newIds[n]);
      StepOnlyAdds(p, cache, ids[n], newIds[n], tg, opts);
    } else {
      assert ids[j] !in newIds[..n];
      Untouched(s, cache, ids[..n], newIds[..n], tg, opts, ids[j]);
      ItemStep(p, cache, ids[j], newIds[j], tg, opts);
    }
  }

  /** One iteration adds attachment rows only for its own new id. */
  lemma StepAttachmentsFor(p: Store, cache: seq<Group>, id: string, newId: string, tg: Option<string>, opts: CloneOptions, x: string)
    requires x != newId
    ensures forall a :: a in CloneStep(p, cache, id, newId, tg, opts).attachments && a.itemId == x ==> a in p.attachments
  {
    var r := CloneStep(p, cache, id, newId, tg, opts);
    forall a | a in r.attachments && a.itemId == x ensures a in p.attachments {
      if FindById(cache, Some(id)).None? && id in p.items && opts.includeHistory {
        var added := Rehome(AttachmentsOf(p.attachments, id), newId);
        assert r.attachments == p.attachments + added;
        assert a !in added;
      }
    }
  }

  /** The loop adds attachment rows only for the fresh ids. */
  lemma {:induction false} RunAttachmentsFor(s: Store, cache: seq<Group>, ids: seq<string>, newIds: seq<string>, tg: Option<string>, opts: CloneOptions, x: string)
    requires |newIds| == |ids| && x !in newIds
    ensures forall a :: a in CloneRun(s, cache, ids, newIds, tg, opts).attachments && a.itemId == x ==> a in s.attachments
    decreases |ids|
  {
    if |ids| > 0 {
      var n := |ids| - 1;
      assert x !in newIds[..n] && x != newIds[n];
      RunAttachmentsFor(s, cache, ids[..n], newIds[..n], tg, opts, x);
      StepAttachmentsFor(CloneRun(s, cache, ids[..n], newIds[..n], tg, opts), cache, ids[n], newIds[n], tg, opts, x);
    }
  }

  /**
   * A listed id that is neither a cached group nor an item produces nothing:
   * no item, custom fields, membership or attachment row under its new id.
   */
  lemma {:induction false} MissingItemClonesNothing(s: Store, cache: seq<Group>, ids: seq<string>, newIds: seq<string>, tg: Option<string>, opts: CloneOptions, j: nat)
    requires NewIdsFor(s, ids, newIds) && j < |ids|
    requires FindById(cache, Some(ids[j])).None? && ids[j] !in s.items
    ensures var r := CloneRun(s, cache, ids, newIds, tg, opts);
      newIds[j] !in r.items && newIds[j] !in r.keyValues && newIds[j] !in r.memberships
      && forall a :: a in r.attachments && a.itemId == newIds[j] ==> a in s.attachments
    decreases |ids|
  {
    var n := |ids| - 1;
    FreshPrefix(s, ids, newIds, n);
    var p := CloneRun(s, cache, ids[..n], newIds[..n], tg, opts);
    assert newIds[n] !in newIds[..n];
    Untouched(s, cache, ids[..n], newIds[..n], tg, opts, newIds[n]);
    if j < n {
      assert ids[..n][j] == ids[j] && newIds[..n][j] == newIds[j];
      MissingItemClonesNothing(s, cache, ids[..n], newIds[..n], tg, opts, j);
      StepOnlyAdds(p, cache, ids[n], newIds[n], tg, opts);
      StepAttachmentsFor(p, cache, ids[n], newIds[n], tg, opts, newIds[j]);
    } else {
      assert ids[j] !in newIds[..n];
      Untouched(s, cache, ids[..n], newIds[..n], tg, opts, ids[j]);
      RunAttachmentsFor(s, cache, ids[..n], newIds[..n], tg, opts, newIds[j]);
    }
  }

  /** The listed ids that name cached groups. */
  function GroupEntries(cache: seq<Group>, ids: seq<string>): nat
  {
    if |ids| == 0 then 0
    else GroupEntries(cache, ids[..|ids| - 1]) + if FindById(cache, Some(ids[|ids| - 1])).Some? then 1 else 0
  }

  /** Group cloning is shallow: exactly one new row per listed cached group, no descendants. */
  lemma {:induction false} CloneRowCount(s: Store, cache: seq<Group>, ids: seq<string>, newIds: seq<string>, tg: Option<string>, opts: CloneOptions)
    requires |newIds| == |ids|
    ensures |CloneRun(s, cache, ids, newIds, tg, opts).rows| == |s.rows| + GroupEntries(cache, ids)
    decreases |ids|
  {
    if |ids| > 0 {
      CloneRowCount(s, cache, ids[..|ids| - 1], newIds[..|ids| - 1], tg, opts);
    }
  }

  /** The row a clone adds for a cached group `g`. */
  function CloneRowOf(g: Group, newId: string, tg: Option<string>, opts: CloneOptions): (r: Group)
    ensures r.id == newId && r.parentId == (if Truthy(tg) then tg else None)
    ensures r.name == Some(CloneName(g.name, opts.appendix)) && r.icon == g.icon && r.color == g.color
    ensures r.description.None? && r.order.None?
  {
    GroupRow(ClonedGroup(g, newId, tg, opts), newId)
  }

  /**
   * Every row a clone adds is the copy of a listed cached group: parented at
   * the target id or at the root, with the cloned name, icon and colour, and
   * without description or order.
   */
  lemma {:induction false} NewRowsAreClones(s: Store, cache: seq<Group>, ids: seq<string>, newIds: seq<string>, tg: Option<string>, opts: CloneOptions, k: nat)
    requires |newIds| == |ids|
    requires var r := CloneRun(s, cache, ids, newIds, tg, opts); |s.rows| <= k < |r.rows|
    ensures exists j :: (0 <= j < |ids| && FindById(cache, Some(ids[j])).Some?
      && CloneRun(s, cache, ids, newIds, tg, opts).rows[k] == CloneRowOf(FindById(cache, Some(ids[j])).value, newIds[j], tg, opts))
    decreases |ids|
  {
    var n := |ids| - 1;
    var p := CloneRun(s, cache, ids[..n], newIds[..n], tg, opts);
    var r := CloneRun(s, cache, ids, newIds, tg, opts);
    CloneRowCount(s, cache, ids[..n], newIds[..n], tg, opts);
    if k < |p.rows| {
      assert r.rows[k] == p.rows[k];
      NewRowsAreClones(s, cache, ids[..n], newIds[..n], tg, opts, k);
      var j :| 0 <= j < n && FindById(cache, Some(ids[..n][j])).Some?
        && p.rows[k] == CloneRowOf(FindById(cache, Some(ids[..n][j])).value, newIds[..n][j], tg, opts);
      assert ids[..n][j] == ids[j] && newIds[..n][j] == newIds[j];
    } else {
      assert FindById(cache, Some(ids[n])).Some?;
    }
  }

  /** Each listed cached group gets its copy. */
  lemma {:induction false} ClonedGroupRow(s: Store, cache: seq<Group>, ids: seq<string>, newIds: seq<string>, tg: Option<string>, opts: CloneOptions, j: nat)
    requires |newIds| == |ids| && j < |ids| && FindById(cache, Some(ids[j])).Some?
    ensures CloneRowOf(FindById(cache, Some(ids[j])).value, newIds[j], tg, opts) in CloneRun(s, cache, ids, newIds, tg, opts).rows
    decreases |ids|
  {
    var n := |ids| - 1;
    var p := CloneRun(s, cache, ids[..n], newIds[..n], tg, opts);
    var r := CloneRun(s, cache, ids, newIds, tg, opts);
    assert forall x :: x in p.rows ==> x in r.rows;
    if j < n {
      assert ids[..n][j] == ids[j] && newIds[..n][j] == newIds[j];
      ClonedGroupRow(s, cache, ids[..n], newIds[..n], tg, opts, j);
    }
  }

  /** Without history, no attachment row is written. */
  lemma {:induction false} NoHistoryNoAttachments(s: Store, cache: seq<Group>, ids: seq<string>, newIds: seq<string>, tg: Option<string>, opts: CloneOptions)
    requires |newIds| == |ids| && !opts.includeHistory
    ensures CloneRun(s, cache, ids, newIds, tg, opts).attachments == s.attachments
    decreases |ids|
  {
    if |ids| > 0 {
      NoHistoryNoAttachments(s, cache, ids[..|ids| - 1], newIds[..|ids| - 1], tg, opts);
    }
  }

  lemma InPrefix<T>(a: seq<T>, b: seq<T>, x: T)
    requires |a| <= |b| && b[..|a|] == a && x in a
    ensures x in b
  {
    var i :| 0 <= i < |a| && a[i] == x;
    assert b[..|a|][i] == x;
  }

  /** The iteration for an item entry, with history, copies the item's attachments. */
  lemma StepCopies(p: Store, cache: seq<Group>, id: string, newId: string, tg: Option<string>, opts: CloneOptions, a: Attachment)
    requires opts.includeHistory && FindById(cache, Some(id)).None? && id in p.items
    requires a in p.attachments && a.itemId == id
    ensures Attachment(newId, a.binaryHash, a.fileName) in CloneStep(p, cache, id, newId, tg, opts).attachments
  {
    var copies := Rehome(AttachmentsOf(p.attachments, id), newId);
    var i :| 0 <= i < |AttachmentsOf(p.attachments, id)| && AttachmentsOf(p.attachments, id)[i] == a;
    assert copies[i] == Attachment(newId, a.binaryHash, a.fileName);
    assert CloneStep(p, cache, id, newId, tg, opts).attachments == p.attachments + copies;
  }

  /** With history, every attachment of a cloned item is copied onto the copy. */
  lemma {:induction false} HistoryCopied(s: Store, cache: seq<Group>, ids: seq<string>, newIds: seq<string>, tg: Option<string>, opts: CloneOptions, j: nat, a: Attachment)
    requires NewIdsFor(s, ids, newIds) && j < |ids| && opts.includeHistory
    requires FindById(cache, Some(ids[j])).None? && ids[j] in s.items
    requires a in s.attachments && a.itemId == ids[j]
    ensures Attachment(newIds[j], a.binaryHash, a.fileName) in CloneRun(s, cache, ids, newIds, tg, opts).attachments
    decreases |ids|
  {
    var n := |ids| - 1;
    FreshPrefix(s, ids, newIds, n);
    var p := CloneRun(s, cache, ids[..n], newIds[..n], tg, opts);
    var r := CloneRun(s, cache, ids, newIds, tg, opts);
    if j < n {
      assert ids[..n][j] == ids[j] && newIds[..n][j] == newIds[j];
      HistoryCopied(s, cache, ids[..n], newIds[..n], tg, opts, j, a);
      assert newIds[n] !in newIds[..n];
      Untouched(s, cache, ids[..n], newIds[..n], tg, opts, newIds[n]);
      StepOnlyAdds(p, cache, ids[n], newIds[n], tg, opts);
      InPrefix(p.attachments, r.attachments, Attachment(newIds[j], a.binaryHash, a.fileName));
    } else {
      assert ids[j] !in newIds[..n];
      Untouched(s, cache, ids[..n], newIds[..n], tg, opts, ids[j]);
      CloneOnlyAdds(s, cache, ids[..n], newIds[..n], tg, opts);
      InPrefix(s.attachments, p.attachments, a);
      StepCopies(p, cache, ids[j], newIds[j], tg, opts, a);
    }
  }

  /**
   * With reference credentials, the copy's username and password resolve, one
   * level deeper, to exactly what the original's username and password resolve
   * to, and the original is left as it was.
   */
  lemma ClonedCredentialsResolve(s: Store, cache: seq<Group>, ids: seq<string>, newIds: seq<string>, tg: Option<string>, opts: CloneOptions, j: nat, n: nat)
    requires NewIdsFor(s, ids, newIds) && j < |ids| && opts.referenceCredentials
    requires FindById(cache, Some(ids[j])).None? && ids[j] in s.items && IsIdText(ids[j])
    ensures var r := CloneRun(s, cache, ids, newIds, tg, opts);
      var st := Snapshot(r.rows, r.items, r.keyValues);
      newIds[j] in r.items && ids[j] in r.items && r.items[ids[j]] == s.items[ids[j]]
      && Resolve(st, r.items[newIds[j]].username, n + 1) == Resolve(st, r.items[ids[j]].username, n)
      && Resolve(st, r.items[newIds[j]].password, n + 1) == Resolve(st, r.items[ids[j]].password, n)
  {
    var r := CloneRun(s, cache, ids, newIds, tg, opts);
    var st := Snapshot(r.rows, r.items, r.keyValues);
    ClonedItem(s, cache, ids, newIds, tg, opts, j);
    Untouched(s, cache, ids, newIds, tg, opts, ids[j]);
    UsernameReference(st, ids[j], n);
    PasswordReference(st, ids[j], n);
  }
}
