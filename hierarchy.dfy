/**
 * The group tree as the group store reads it: filters by parent, the
 * breadcrumb walk up the `parentId` links, the trash test, and the subtree a
 * cascading delete removes.
 */
module Hierarchy {
  import opened Wrappers
  import opened Records

  // ---------------------------------------------------------------------
  // Filters by parent

  /** The rows whose `parentId` equals `p` (`isNull` when `p` is null), in row order. */
  function WithParent(gs: seq<Group>, p: Option<string>): (r: seq<Group>)
    ensures forall g :: multiset(r)[g] == if g.parentId == p then multiset(gs)[g] else 0
    ensures forall k :: 0 <= k < |r| ==> r[k].parentId == p
  {
    if |gs| == 0 then []
    else
      var rest := WithParent(gs[1..], p);
      assert gs == [gs[0]] + gs[1..];
      if gs[0].parentId == p then [gs[0]] + rest else rest
  }

  /** `readGroupsAsync`: the children of a truthy parent id, otherwise every group; by `order`, nulls last. */
  function ListGroups(gs: seq<Group>, parent: Option<string>): (r: seq<Group>)
    ensures SortedByOrder(r)
    ensures Truthy(parent) ==> multiset(r) == multiset(WithParent(gs, parent))
    ensures Truthy(parent) ==> forall g :: g in r <==> g in gs && g.parentId == parent
    ensures !Truthy(parent) ==> multiset(r) == multiset(gs)
  {
    if Truthy(parent) then
      var c := WithParent(gs, parent);
      assert forall g :: g in c <==> multiset(c)[g] > 0;
      SortByOrder(c)
    else SortByOrder(gs)
  }

  /** `getByParentIdAsync`: the children of a truthy parent id, otherwise the root groups; by `order`, nulls last. */
  function ByParent(gs: seq<Group>, parent: Option<string>): (r: seq<Group>)
    ensures SortedByOrder(r)
    ensures Truthy(parent) ==> multiset(r) == multiset(WithParent(gs, parent))
    ensures !Truthy(parent) ==> multiset(r) == multiset(WithParent(gs, None))
    ensures Truthy(parent) ==> forall g :: g in r <==> g in gs && g.parentId == parent
    ensures !Truthy(parent) ==> forall g :: g in r <==> g in gs && g.parentId.None?
  {
    var p := if Truthy(parent) then parent else None;
    var c := WithParent(gs, p);
    assert forall g :: g in c <==> multiset(c)[g] > 0;
    SortByOrder(c)
  }

  // ---------------------------------------------------------------------
  // Breadcrumbs

  /**
   * `getParentChain(id)`: the group with that id, preceded by its parent, that
   * one's parent and so on, root first, each looked up with `find` in `gs`. The
   * walk has no cycle guard; `None` means it took more than `fuel` steps.
   */
  function ParentChain(gs: seq<Group>, id: Option<string>, fuel: nat): (r: Option<seq<Group>>)
    ensures FindById(gs, id).None? ==> r == Some([])
    ensures r.Some? && FindById(gs, id).Some? ==>
      |r.value| > 0 && r.value[|r.value| - 1] == FindById(gs, id).value
    ensures r.Some? ==> |r.value| <= fuel || r.value == []
    ensures r.Some? && |r.value| > 0 ==> FindById(gs, r.value[0].parentId).None?
    decreases fuel
  {
    match FindById(gs, id)
    case None => Some([])
    case Some(g) =>
      if fuel == 0 then None
      else match ParentChain(gs, g.parentId, fuel - 1)
        case None => None
        case Some(c) => Some(c + [g])
  }

  /** `inTrashGroup`: some group of the breadcrumbs is the trash. */
  function InTrashGroup(gs: seq<Group>, id: Option<string>, fuel: nat): (r: Option<bool>)
    ensures r.Some? <==> ParentChain(gs, id, fuel).Some?
    ensures r == Some(true) <==> (ParentChain(gs, id, fuel).Some? &&
      exists k :: 0 <= k < |ParentChain(gs, id, fuel).value| && ParentChain(gs, id, fuel).value[k].id == TrashId)
  {
    match ParentChain(gs, id, fuel)
    case None => None
    case Some(c) => Some(exists k :: 0 <= k < |c| && c[k].id == TrashId)
  }

  /**
   * A walk that ends consists of stored groups, and each element's parent is
   * the element before it.
   */
  lemma {:induction false} ChainShape(gs: seq<Group>, id: Option<string>, fuel: nat)
    requires ParentChain(gs, id, fuel).Some?
    ensures var c := ParentChain(gs, id, fuel).value;
      (forall k :: 0 <= k < |c| ==> FindById(gs, Some(c[k].id)) == Some(c[k]))
      && forall k :: 0 < k < |c| ==> FindById(gs, c[k].parentId) == Some(c[k - 1])
    decreases fuel
  {
    match FindById(gs, id)
    case None =>
    case Some(g) =>
      var c := ParentChain(gs, g.parentId, fuel - 1).value;
      var r := c + [g];
      ChainShape(gs, g.parentId, fuel - 1);
      assert ParentChain(gs, id, fuel).value == r;
      assert Some(g.id) == id;
      forall k | 0 <= k < |r| ensures FindById(gs, Some(r[k].id)) == Some(r[k]) {
        if k < |c| { assert r[k] == c[k]; }
      }
      forall k | 0 < k < |r| ensures FindById(gs, r[k].parentId) == Some(r[k - 1]) {
        if k < |c| { assert r[k] == c[k] && r[k - 1] == c[k - 1]; }
      }
  }

  /** A chain element's link is a real parent link: `parentId` names the element before it. */
  lemma ChainLinks(gs: seq<Group>, id: Option<string>, fuel: nat)
    requires ParentChain(gs, id, fuel).Some?
    ensures var c := ParentChain(gs, id, fuel).value;
      (forall k :: 0 <= k < |c| ==> c[k] in gs)
      && forall k :: 0 < k < |c| ==> c[k].parentId == Some(c[k - 1].id)
  {
    var c := ParentChain(gs, id, fuel).value;
    ChainShape(gs, id, fuel);
    forall k | 0 <= k < |c| ensures c[k] in gs {
      assert FindById(gs, Some(c[k].id)) == Some(c[k]);
    }
  }

  /** More fuel does not change a walk that ended. */
  lemma ParentChainFuel(gs: seq<Group>, id: Option<string>, n: nat, m: nat)
    requires n <= m && ParentChain(gs, id, n).Some?
    ensures ParentChain(gs, id, m) == ParentChain(gs, id, n)
  {
    ParentChainExact(gs, id, n, m);
  }

  /** Two chain elements with the same id have equal predecessors: going back from `i` and `j` meets the root. */
  lemma {:induction false} ChainNoRepeat(c: seq<Group>, gs: seq<Group>, i: nat, j: nat)
    requires i < j < |c|
    requires forall k :: 0 < k < |c| ==> FindById(gs, c[k].parentId) == Some(c[k - 1])
    requires forall k :: 0 <= k < |c| ==> FindById(gs, Some(c[k].id)) == Some(c[k])
    requires FindById(gs, c[0].parentId).None?
    ensures c[i].id != c[j].id
    decreases i
  {
    if i == 0 {
      assert FindById(gs, c[j].parentId) == Some(c[j - 1]);
    } else {
      ChainNoRepeat(c, gs, i - 1, j - 1);
      assert FindById(gs, c[i].parentId) != FindById(gs, c[j].parentId);
    }
    assert c[i] != c[j];
  }

  /** A walk that ends visits no group twice. */
  lemma ChainDistinct(gs: seq<Group>, id: Option<string>, fuel: nat)
    requires ParentChain(gs, id, fuel).Some?
    ensures var c := ParentChain(gs, id, fuel).value;
      forall i, j :: 0 <= i < j < |c| ==> c[i].id != c[j].id
  {
    var c := ParentChain(gs, id, fuel).value;
    ChainShape(gs, id, fuel);
    forall i, j | 0 <= i < j < |c| ensures c[i].id != c[j].id {
      ChainNoRepeat(c, gs, i, j);
    }
  }

  /** A group that names itself as its parent sends the walk round for ever. */
  lemma {:induction false} SelfParentDiverges(gs: seq<Group>, g: Group, fuel: nat)
    requires FindById(gs, Some(g.id)) == Some(g) && g.parentId == Some(g.id)
    ensures ParentChain(gs, Some(g.id), fuel).None?
    decreases fuel
  {
    if fuel > 0 {
      SelfParentDiverges(gs, g, fuel - 1);
    }
  }

  /** A group whose parent is a trash root lies in the trash. */
  lemma UnderTrashRoot(gs: seq<Group>, g: Group, t: Group, fuel: nat)
    requires FindById(gs, Some(g.id)) == Some(g) && g.parentId == Some(TrashId)
    requires FindById(gs, Some(TrashId)) == Some(t) && FindById(gs, t.parentId).None?
    requires fuel >= 2
    ensures InTrashGroup(gs, Some(g.id), fuel) == Some(true)
  {
    assert ParentChain(gs, t.parentId, fuel - 2) == Some([]);
    assert [] + [t] == [t];
    assert ParentChain(gs, Some(TrashId), fuel - 1) == Some([t]);
    var c := ParentChain(gs, Some(g.id), fuel).value;
    assert c == [t, g];
    assert c[0].id == TrashId;
  }

  lemma {:induction false} SubsetSize<T>(a: set<T>, b: set<T>)
    requires a <= b
    ensures |a| <= |b|
    ensures a < b ==> |a| < |b|
    decreases |a|
  {
    if a != {} {
      var x :| x in a;
      SubsetSize(a - {x}, b - {x});
      assert a == (a - {x}) + {x};
      assert b == (b - {x}) + {x};
    } else if a < b {
      var y :| y in b;
      assert b == (b - {y}) + {y};
    }
  }

  /** Distinct ids drawn from `gs` are no more than `gs` has rows. */
  lemma {:induction false} IdsCount(c: seq<Group>)
    requires forall i, j :: 0 <= i < j < |c| ==> c[i].id != c[j].id
    ensures |Ids(c)| == |c|
    decreases |c|
  {
    if |c| > 0 {
      var p := c[..|c| - 1];
      IdsCount(p);
      assert Ids(c) == Ids(p) + {c[|c| - 1].id} by {
        forall x | x in Ids(c) ensures x in Ids(p) + {c[|c| - 1].id} {
          var k :| 0 <= k < |c| && c[k].id == x;
          if k < |c| - 1 { assert p[k] == c[k]; }
        }
      }
    }
  }

  lemma {:induction false} IdsAtMostRows(gs: seq<Group>)
    ensures |Ids(gs)| <= |gs|
    decreases |gs|
  {
    if |gs| > 0 {
      var p := gs[..|gs| - 1];
      IdsAtMostRows(p);
      var x := gs[|gs| - 1].id;
      if x !in Ids(p) {
        assert |Ids(p) + {x}| == |Ids(p)| + 1;
      } else {
        assert Ids(p) + {x} == Ids(p);
      }
      SubsetSize(Ids(gs), Ids(p) + {x});
      assert Ids(gs) <= Ids(p) + {gs[|gs| - 1].id} by {
        forall x | x in Ids(gs) ensures x in Ids(p) + {gs[|gs| - 1].id} {
          var k :| 0 <= k < |gs| && gs[k].id == x;
          if k < |gs| - 1 { assert p[k] == gs[k]; }
        }
      }
    }
  }

  /** A walk that ends is found again with any fuel at least its length. */
  lemma {:induction false} ParentChainExact(gs: seq<Group>, id: Option<string>, n: nat, m: nat)
    requires ParentChain(gs, id, n).Some? && |ParentChain(gs, id, n).value| <= m
    ensures ParentChain(gs, id, m) == ParentChain(gs, id, n)
    decreases n
  {
    match FindById(gs, id)
    case None =>
    case Some(g) =>
      var c := ParentChain(gs, g.parentId, n - 1).value;
      assert ParentChain(gs, id, n) == Some(c + [g]);
      ParentChainExact(gs, g.parentId, n - 1, m - 1);
  }

  /**
   * The fuel is a modelling device only: whenever the walk ends at all, it ends
   * within as many steps as there are groups.
   */
  lemma ParentChainFuelEnough(gs: seq<Group>, id: Option<string>, n: nat)
    requires ParentChain(gs, id, n).Some?
    ensures ParentChain(gs, id, |gs|) == ParentChain(gs, id, n)
  {
    var c := ParentChain(gs, id, n).value;
    ChainDistinct(gs, id, n);
    ChainLinks(gs, id, n);
    IdsCount(c);
    IdsAtMostRows(gs);
    assert Ids(c) <= Ids(gs);
    SubsetSize(Ids(c), Ids(gs));
    ParentChainExact(gs, id, n, |gs|);
  }

  // ---------------------------------------------------------------------
  // The subtree a cascading delete removes

  /** The ids of the groups whose parent is in `s`. */
  function ChildIds(gs: seq<Group>, s: set<string>): (r: set<string>)
    ensures r <= Ids(gs)
    ensures forall g :: g in gs && g.parentId.Some? && g.parentId.value in s ==> g.id in r
  {
    set g | g in gs && g.parentId.Some? && g.parentId.value in s :: g.id
  }

  /** The least superset of `s` that holds every child of its members. */
  function Closure(gs: seq<Group>, s: set<string>): (r: set<string>)
    ensures s <= r
    ensures ChildIds(gs, r) <= r
    decreases |Ids(gs) - s|
  {
    var next := s + ChildIds(gs, s);
    if next <= s then s
    else
      var x :| x in next && x !in s;
      assert Ids(gs) - next < Ids(gs) - s by {
        assert x in Ids(gs) - s && x !in Ids(gs) - next;
      }
      SubsetSize(Ids(gs) - next, Ids(gs) - s);
      Closure(gs, next)
  }

  lemma {:induction false} ClosureLeast(gs: seq<Group>, s: set<string>, t: set<string>)
    requires s <= t && ChildIds(gs, t) <= t
    ensures Closure(gs, s) <= t
    decreases |Ids(gs) - s|
  {
    var next := s + ChildIds(gs, s);
    if !(next <= s) {
      var x :| x in next && x !in s;
      assert Ids(gs) - next < Ids(gs) - s by {
        assert x in Ids(gs) - s && x !in Ids(gs) - next;
      }
      assert ChildIds(gs, s) <= ChildIds(gs, t);
      SubsetSize(Ids(gs) - next, Ids(gs) - s);
      ClosureLeast(gs, next, t);
    }
  }

  /** The group `id` and all its descendants: what the schema's cascade deletes with it. */
  function Subtree(gs: seq<Group>, id: string): (r: set<string>)
    ensures id in r && ChildIds(gs, r) <= r
  {
    Closure(gs, {id})
  }

  /** No smaller set holds `id` and is closed under taking children. */
  lemma SubtreeLeast(gs: seq<Group>, id: string, t: set<string>)
    requires id in t && ChildIds(gs, t) <= t
    ensures Subtree(gs, id) <= t
  {
    ClosureLeast(gs, {id}, t);
  }

  /** Every group whose breadcrumbs pass through `id` is in the subtree of `id`. */
  lemma BreadcrumbsInSubtree(gs: seq<Group>, x: Option<string>, n: nat, k: nat)
    requires ParentChain(gs, x, n).Some? && k < |ParentChain(gs, x, n).value|
    ensures var c := ParentChain(gs, x, n).value;
      forall j :: k <= j < |c| ==> c[j].id in Subtree(gs, c[k].id)
  {
    var c := ParentChain(gs, x, n).value;
    var d := Subtree(gs, c[k].id);
    ChainLinks(gs, x, n);
    var j := k;
    while j < |c| - 1
      invariant k <= j < |c|
      invariant forall i :: k <= i <= j ==> c[i].id in d
    {
      assert c[j + 1] in gs && c[j + 1].parentId == Some(c[j].id);
      j := j + 1;
    }
  }

  /** The rows that survive the removal of the ids in `d`, in row order. */
  function Without(gs: seq<Group>, d: set<string>): (r: seq<Group>)
    ensures forall g :: multiset(r)[g] == if g.id in d then 0 else multiset(gs)[g]
    ensures forall k :: 0 <= k < |r| ==> r[k].id !in d
  {
    if |gs| == 0 then []
    else
      var rest := Without(gs[1..], d);
      assert gs == [gs[0]] + gs[1..];
      if gs[0].id in d then rest else [gs[0]] + rest
  }

  /** The surviving rows are rows of `gs` outside `d`. */
  lemma WithoutFrom(gs: seq<Group>, d: set<string>)
    ensures forall g :: g in Without(gs, d) ==> g in gs && g.id !in d
  {
    forall g | g in Without(gs, d) ensures g in gs {
      assert multiset(Without(gs, d))[g] > 0;
    }
  }

  lemma ConsUnique(g: Group, rest: seq<Group>)
    requires UniqueIds(rest) && forall k :: 0 <= k < |rest| ==> rest[k].id != g.id
    ensures UniqueIds([g] + rest)
  {
    var r := [g] + rest;
    forall i, j | 0 <= i < j < |r| ensures r[i].id != r[j].id {
      assert r[j] == rest[j - 1];
      if i > 0 {
        assert r[i] == rest[i - 1];
      }
    }
  }

  /** Deleting rows keeps the primary key. */
  lemma {:induction false} WithoutKeepsUnique(gs: seq<Group>, d: set<string>)
    requires UniqueIds(gs)
    ensures UniqueIds(Without(gs, d))
    decreases |gs|
  {
    if |gs| > 0 {
      var rest := Without(gs[1..], d);
      WithoutKeepsUnique(gs[1..], d);
      if gs[0].id !in d {
        var r := [gs[0]] + rest;
        assert Without(gs, d) == r;
        var tail := gs[1..];
        WithoutFrom(tail, d);
        forall k | 0 <= k < |tail| ensures tail[k].id != gs[0].id {
          assert tail[k] == gs[k + 1];
        }
        assert forall g :: g in tail ==> g.id != gs[0].id;
        assert forall k :: 0 <= k < |rest| ==> rest[k] in tail;
        ConsUnique(gs[0], rest);
      }
    }
  }

  /** The memberships left when the groups in `d` are deleted: the schema cascades to them. */
  function DropMemberships(ms: map<string, Option<string>>, d: set<string>): (r: map<string, Option<string>>)
    ensures forall k :: k in r <==> k in ms && !(ms[k].Some? && ms[k].value in d)
    ensures forall k :: k in r ==> r[k] == ms[k]
  {
    map k | k in ms && !(ms[k].Some? && ms[k].value in d) :: ms[k]
  }

  /**
   * The ids a hard delete of `id` removes: none when no group has that id (the
   * `DELETE … WHERE id` matches no row), otherwise its subtree.
   */
  function Doomed(gs: seq<Group>, id: string): (r: set<string>)
    ensures id !in Ids(gs) ==> r == {}
    ensures id in Ids(gs) ==> id in r && ChildIds(gs, r) <= r
  {
    if id in Ids(gs) then Subtree(gs, id) else {}
  }

  /** Removing nothing keeps every row, in order. */
  lemma {:induction false} WithoutNothing(gs: seq<Group>)
    ensures Without(gs, {}) == gs
    decreases |gs|
  {
    if |gs| > 0 {
      var tail := gs[1..];
      assert [gs[0]] + tail == gs;
      WithoutCons(gs[0], tail, {});
      WithoutNothing(tail);
    }
  }

  /** One step of the filter: the first row is kept unless its id is removed. */
  lemma WithoutCons(g: Group, gs: seq<Group>, d: set<string>)
    ensures Without([g] + gs, d) == if g.id in d then Without(gs, d) else [g] + Without(gs, d)
  {
    assert ([g] + gs)[0] == g && ([g] + gs)[1..] == gs;
  }

  /** A hard delete of an id that names no group changes neither table. */
  lemma DeleteAbsentChangesNothing(gs: seq<Group>, ms: map<string, Option<string>>, id: string)
    requires id !in Ids(gs)
    ensures Without(gs, Doomed(gs, id)) == gs
    ensures DropMemberships(ms, Doomed(gs, id)) == ms
  {
    WithoutNothing(gs);
  }

  /** After a cascading delete no surviving group has a deleted parent. */
  lemma CascadeLeavesNoOrphans(gs: seq<Group>, id: string)
    ensures var d := Doomed(gs, id);
      forall g :: g in Without(gs, d) && g.parentId.Some? ==> g.parentId.value !in d
  {
    var d := Doomed(gs, id);
    forall g | g in Without(gs, d) && g.parentId.Some? ensures g.parentId.value !in d {
      assert multiset(Without(gs, d))[g] > 0;
      assert g in gs && g.id !in d;
    }
  }
}
