/**
 * The rows of the password vault's tables and the lookups every operation
 * of the group store shares: `Array.prototype.find` by id and the
 * `ORDER BY order NULLS LAST` of the group queries.
 */
module Records {
  import opened Wrappers

  /** The id of the trash root group. */
  const TrashId: string := "trash"

  /** A row of the groups table; nullable columns are options. */
  datatype Group = Group(
    id: string,
    parentId: Option<string>,
    name: Option<string>,
    description: Option<string>,
    icon: Option<string>,
    color: Option<string>,
    order: Option<int>)

  /** A partial group as handed to `addGroupAsync`: every field may be missing. */
  datatype NewGroup = NewGroup(
    id: Option<string>,
    parentId: Option<string>,
    name: Option<string>,
    description: Option<string>,
    icon: Option<string>,
    color: Option<string>,
    order: Option<int>)

  /** A column of an update: left as it is, or written with a value (possibly null). */
  datatype Update<T> = Keep | Put(value: T)

  /** The argument of `updateAsync`: a group id and the columns to write. */
  datatype GroupUpdate = GroupUpdate(
    id: string,
    parentId: Update<Option<string>>,
    name: Update<Option<string>>,
    description: Update<Option<string>>,
    icon: Update<Option<string>>,
    color: Update<Option<string>>,
    order: Update<Option<int>>)

  /** The details of a password item, as far as references can reach them. */
  datatype Details = Details(
    title: Option<string>,
    username: Option<string>,
    password: Option<string>,
    url: Option<string>,
    note: Option<string>,
    otpSecret: Option<string>,
    tags: Option<string>)

  /** A custom field of an item. */
  datatype KeyValue = KeyValue(key: Option<string>, value: Option<string>)

  /** A row of the item-binaries table (its own random row id is not modelled). */
  datatype Attachment = Attachment(itemId: string, binaryHash: string, fileName: string)

  /** An entry of the item list handed to `insertGroupItemsAsync`. */
  datatype MenuItem = MenuItem(id: string, isGroup: bool)

  /** JavaScript truthiness of an optional string: present and not empty. */
  predicate Truthy(s: Option<string>)
  {
    s.Some? && s.value != ""
  }

  /** JavaScript template interpolation of a nullable string. */
  function Interpolate(s: Option<string>): string
  {
    match s
    case Some(v) => v
    case None => "null"
  }

  /** The index of the first group whose id equals `id` (never for a null id). */
  function FindIndex(gs: seq<Group>, id: Option<string>): (r: Option<nat>)
    ensures r.Some? ==> r.value < |gs| && Some(gs[r.value].id) == id
    ensures r.Some? ==> forall k :: 0 <= k < r.value ==> Some(gs[k].id) != id
    ensures r.None? <==> forall k :: 0 <= k < |gs| ==> Some(gs[k].id) != id
  {
    if |gs| == 0 then None
    else if Some(gs[0].id) == id then Some(0)
    else match FindIndex(gs[1..], id)
      case None => None
      case Some(k) => Some(k + 1)
  }

  /** `gs.find((g) => g.id === id)`. */
  function FindById(gs: seq<Group>, id: Option<string>): (r: Option<Group>)
    ensures r.Some? <==> FindIndex(gs, id).Some?
    ensures r.Some? ==> r.value == gs[FindIndex(gs, id).value]
  {
    match FindIndex(gs, id)
    case None => None
    case Some(k) => Some(gs[k])
  }

  /** The ids of a sequence of groups. */
  function Ids(gs: seq<Group>): (r: set<string>)
    ensures forall g :: g in gs ==> g.id in r
    ensures forall x :: x in r ==> exists k :: 0 <= k < |gs| && gs[k].id == x
  {
    set k | 0 <= k < |gs| :: gs[k].id
  }

  /** No two rows share an id: the primary key of the groups table. */
  predicate UniqueIds(gs: seq<Group>)
  {
    forall i, j :: 0 <= i < j < |gs| ==> gs[i].id != gs[j].id
  }

  lemma FindUnique(gs: seq<Group>, k: nat)
    requires UniqueIds(gs) && k < |gs|
    ensures FindById(gs, Some(gs[k].id)) == Some(gs[k])
  {
  }

  // ---------------------------------------------------------------------
  // ORDER BY order NULLS LAST

  /** `a` may precede `b`: ascending `order`, null orders last. */
  predicate OrderedBefore(a: Group, b: Group)
  {
    match (a.order, b.order)
    case (Some(x), Some(y)) => x <= y
    case (Some(_), None) => true
    case (None, Some(_)) => false
    case (None, None) => true
  }

  predicate SortedByOrder(gs: seq<Group>)
  {
    forall i, j :: 0 <= i < j < |gs| ==> OrderedBefore(gs[i], gs[j])
  }

  lemma OrderedTotal(a: Group, b: Group)
    ensures OrderedBefore(a, b) || OrderedBefore(b, a)
  {
  }

  lemma OrderedTransitive(a: Group, b: Group, c: Group)
    requires OrderedBefore(a, b) && OrderedBefore(b, c)
    ensures OrderedBefore(a, c)
  {
  }

  /** `gs` with `g` placed before the first row that must follow it, so after rows of equal `order`. */
  function InsertByOrder(g: Group, gs: seq<Group>): seq<Group>
  {
    if |gs| == 0 then [g]
    else if !OrderedBefore(gs[0], g) then [g] + gs
    else [gs[0]] + InsertByOrder(g, gs[1..])
  }

  lemma {:induction false} InsertByOrderMultiset(g: Group, gs: seq<Group>)
    ensures multiset(InsertByOrder(g, gs)) == multiset(gs) + multiset{g}
    decreases |gs|
  {
    if |gs| > 0 && OrderedBefore(gs[0], g) {
      InsertByOrderMultiset(g, gs[1..]);
      assert gs == [gs[0]] + gs[1..];
    }
  }

  /** Every row of `gs` sorted after `first`, and `first` before `g`: `first` precedes the insertion. */
  lemma HeadPrecedesInsertion(first: Group, g: Group, gs: seq<Group>)
    requires OrderedBefore(first, g)
    requires forall j :: 0 <= j < |gs| ==> OrderedBefore(first, gs[j])
    ensures forall j :: 0 <= j < |InsertByOrder(g, gs)| ==> OrderedBefore(first, InsertByOrder(g, gs)[j])
  {
    var r := InsertByOrder(g, gs);
    InsertByOrderMultiset(g, gs);
    forall j | 0 <= j < |r| ensures OrderedBefore(first, r[j]) {
      assert r[j] in multiset(r);
      if r[j] != g {
        assert r[j] in multiset(gs);
        var k :| 0 <= k < |gs| && gs[k] == r[j];
      }
    }
  }

  lemma {:induction false} InsertByOrderSorted(g: Group, gs: seq<Group>)
    requires SortedByOrder(gs)
    ensures SortedByOrder(InsertByOrder(g, gs))
    decreases |gs|
  {
    if |gs| == 0 {
    } else if !OrderedBefore(gs[0], g) {
      OrderedTotal(g, gs[0]);
      forall j | 0 <= j < |gs| ensures OrderedBefore(g, gs[j]) {
        if j > 0 { OrderedTransitive(g, gs[0], gs[j]); }
      }
    } else {
      InsertByOrderSorted(g, gs[1..]);
      HeadPrecedesInsertion(gs[0], g, gs[1..]);
    }
  }

  /** The rows in query order: sorted by `order`, nulls last, same rows. */
  function SortByOrder(gs: seq<Group>): (r: seq<Group>)
    ensures SortedByOrder(r)
    ensures multiset(r) == multiset(gs)
  {
    if |gs| == 0 then []
    else
      var rest := SortByOrder(gs[..|gs| - 1]);
      InsertByOrderSorted(gs[|gs| - 1], rest);
      InsertByOrderMultiset(gs[|gs| - 1], rest);
      assert gs == gs[..|gs| - 1] + [gs[|gs| - 1]];
      InsertByOrder(gs[|gs| - 1], rest)
  }

  /** The rows whose `order` is `o`, in row order. */
  function WithOrder(gs: seq<Group>, o: Option<int>): (r: seq<Group>)
    ensures forall k :: 0 <= k < |r| ==> r[k].order == o
  {
    if |gs| == 0 then []
    else (if gs[0].order == o then [gs[0]] else []) + WithOrder(gs[1..], o)
  }

  lemma {:induction false} WithOrderAppend(a: seq<Group>, b: seq<Group>, o: Option<int>)
    ensures WithOrder(a + b, o) == WithOrder(a, o) + WithOrder(b, o)
    decreases |a|
  {
    if |a| == 0 {
      assert a + b == b;
    } else {
      var h := if a[0].order == o then [a[0]] else [];
      var ab := a + b;
      assert ab[0] == a[0] && ab[1..] == a[1..] + b;
      assert WithOrder(ab, o) == h + WithOrder(a[1..] + b, o);
      assert WithOrder(a, o) == h + WithOrder(a[1..], o);
      WithOrderAppend(a[1..], b, o);
      assert h + (WithOrder(a[1..], o) + WithOrder(b, o)) == (h + WithOrder(a[1..], o)) + WithOrder(b, o);
    }
  }

  lemma {:induction false} WithOrderNone(gs: seq<Group>, o: Option<int>)
    requires forall k :: 0 <= k < |gs| ==> gs[k].order != o
    ensures WithOrder(gs, o) == []
    decreases |gs|
  {
    if |gs| > 0 {
      WithOrderNone(gs[1..], o);
    }
  }

  /** When a sorted list must follow `g` from its head on, none of its rows ties with `g`. */
  lemma FollowersDiffer(g: Group, gs: seq<Group>)
    requires SortedByOrder(gs) && |gs| > 0 && !OrderedBefore(gs[0], g)
    ensures forall k :: 0 <= k < |gs| ==> gs[k].order != g.order
  {
    forall k | 0 < k < |gs| ensures gs[k].order != g.order {
      assert OrderedBefore(gs[0], gs[k]);
    }
  }

  /** Inserting a row into a sorted list puts it after the rows of equal `order`. */
  lemma {:induction false} InsertKeepsTieOrder(g: Group, gs: seq<Group>, o: Option<int>)
    requires SortedByOrder(gs)
    ensures WithOrder(InsertByOrder(g, gs), o) == WithOrder(gs, o) + (if g.order == o then [g] else [])
    decreases |gs|
  {
    if |gs| == 0 {
      assert InsertByOrder(g, gs) == [g] && [g][1..] == [];
      assert WithOrder([g], o) == (if g.order == o then [g] else []) + WithOrder([], o);
    } else if !OrderedBefore(gs[0], g) {
      InsertTieAtHead(g, gs, o);
    } else {
      assert SortedByOrder(gs[1..]);
      InsertKeepsTieOrder(g, gs[1..], o);
      InsertTieLater(g, gs, o);
    }
  }

  /** The head case: `g` goes first and no row of `gs` ties with it. */
  lemma InsertTieAtHead(g: Group, gs: seq<Group>, o: Option<int>)
    requires SortedByOrder(gs) && |gs| > 0 && !OrderedBefore(gs[0], g)
    ensures WithOrder(InsertByOrder(g, gs), o) == WithOrder(gs, o) + (if g.order == o then [g] else [])
  {
    var r := [g] + gs;
    assert InsertByOrder(g, gs) == r && r[0] == g && r[1..] == gs;
    assert WithOrder(r, o) == (if g.order == o then [g] else []) + WithOrder(gs, o);
    if g.order == o {
      FollowersDiffer(g, gs);
      WithOrderNone(gs, o);
    }
  }

  /** The later case: the head stays in front of the insertion into the tail. */
  lemma InsertTieLater(g: Group, gs: seq<Group>, o: Option<int>)
    requires |gs| > 0 && OrderedBefore(gs[0], g)
    requires WithOrder(InsertByOrder(g, gs[1..]), o) == WithOrder(gs[1..], o) + (if g.order == o then [g] else [])
    ensures WithOrder(InsertByOrder(g, gs), o) == WithOrder(gs, o) + (if g.order == o then [g] else [])
  {
    var G := if g.order == o then [g] else [];
    var h := if gs[0].order == o then [gs[0]] else [];
    var tail := InsertByOrder(g, gs[1..]);
    var r := [gs[0]] + tail;
    assert InsertByOrder(g, gs) == r && r[0] == gs[0] && r[1..] == tail;
    assert WithOrder(r, o) == h + WithOrder(tail, o);
    assert WithOrder(gs, o) == h + WithOrder(gs[1..], o);
    assert h + (WithOrder(gs[1..], o) + G) == (h + WithOrder(gs[1..], o)) + G;
  }

  /** The sort is stable: rows of equal `order` keep their row order. */
  lemma {:induction false} SortKeepsTieOrder(gs: seq<Group>, o: Option<int>)
    ensures WithOrder(SortByOrder(gs), o) == WithOrder(gs, o)
    decreases |gs|
  {
    if |gs| > 0 {
      var init := gs[..|gs| - 1];
      var last := gs[|gs| - 1];
      var sorted := SortByOrder(init);
      assert gs == init + [last];
      assert SortByOrder(gs) == InsertByOrder(last, sorted);
      SortKeepsTieOrder(init, o);
      InsertKeepsTieOrder(last, sorted, o);
      WithOrderAppend(init, [last], o);
      assert WithOrder([last], o) == if last.order == o then [last] else [];
    }
  }
}
