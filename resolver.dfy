/**
 * `resolveReferenceAsync`: a stored value holding a reference token is replaced
 * by the referenced field of an item, of an item's custom fields, or of a group,
 * and the fetched value is resolved again.
 *
 * The source recurses without any depth or cycle guard. The model counts the
 * recursive calls with `fuel`: `Resolved(v)` means the call returns `v` after at
 * most `fuel` nested calls, `Diverges` that the chain is longer than that (for a
 * reference cycle, longer than any bound: the source never returns).
 */
module Resolver {
  import opened Wrappers
  import opened Text
  import opened Records
  import opened Tokens

  /** What resolution reads: the groups table, the items and their custom fields. */
  datatype Snapshot = Snapshot(
    groups: seq<Group>,
    items: map<string, Details>,
    keyValues: map<string, seq<KeyValue>>)

  /** One level of resolution of a non-empty value: keep it, or go on with a fetched field. */
  datatype Deref = Unresolved | Fetched(value: Option<string>)

  datatype Resolution = Resolved(value: Option<string>) | Diverges

  /** The item field names the switch knows, with their aliases. */
  const ItemFieldNames: set<string> :=
    {"TITLE", "USERNAME", "PASSWORD", "URL", "NOTE", "NOTES", "OTP", "OTPSECRET", "OTP_SECRET", "TAGS"}

  const GroupFieldNames: set<string> := {"NAME", "DESCRIPTION", "ICON", "COLOR"}

  /** The item field an upper-cased field name selects; `None` for an unknown name. */
  function ItemField(d: Details, field: string): (r: Option<Option<string>>)
    ensures r.Some? <==> field in ItemFieldNames
  {
    if field == "TITLE" then Some(d.title)
    else if field == "USERNAME" then Some(d.username)
    else if field == "PASSWORD" then Some(d.password)
    else if field == "URL" then Some(d.url)
    else if field == "NOTE" || field == "NOTES" then Some(d.note)
    else if field == "OTP" || field == "OTPSECRET" || field == "OTP_SECRET" then Some(d.otpSecret)
    else if field == "TAGS" then Some(d.tags)
    else None
  }

  /** The group column an upper-cased field name selects; `None` for an unknown name. */
  function GroupField(g: Group, field: string): (r: Option<Option<string>>)
    ensures r.Some? <==> field in GroupFieldNames
  {
    if field == "NAME" then Some(g.name)
    else if field == "DESCRIPTION" then Some(g.description)
    else if field == "ICON" then Some(g.icon)
    else if field == "COLOR" then Some(g.color)
    else None
  }

  /** The first custom field whose key, upper-cased, equals `field`. */
  function FindKey(kvs: seq<KeyValue>, field: string): (r: Option<KeyValue>)
    ensures r.Some? ==> r.value in kvs && r.value.key.Some? && UpperStr(r.value.key.value) == field
    ensures r.None? <==> forall k :: 0 <= k < |kvs| ==>
      !(kvs[k].key.Some? && UpperStr(kvs[k].key.value) == field)
  {
    if |kvs| == 0 then None
    else if kvs[0].key.Some? && UpperStr(kvs[0].key.value) == field then Some(kvs[0])
    else
      var r := FindKey(kvs[1..], field);
      assert forall k :: 1 <= k < |kvs| ==> kvs[k] == kvs[1..][k - 1];
      r
  }

  /** `readKeyValuesAsync`: the custom fields of an item, none for an unknown item. */
  function KeyValuesOf(st: Snapshot, id: string): seq<KeyValue>
  {
    if id in st.keyValues then st.keyValues[id] else []
  }

  /** What a reference of the given kind, upper-cased field name and id reads. */
  function Lookup(st: Snapshot, kind: RefKind, field: string, id: string): Deref
  {
    match kind
    case ItemRef =>
      if id !in st.items then Unresolved
      else (match ItemField(st.items[id], field)
        case None => Unresolved
        case Some(v) => Fetched(v))
    case ExtraRef =>
      var kvs := KeyValuesOf(st, id);
      if |kvs| == 0 then Unresolved
      else (match FindKey(kvs, field)
        case None => Unresolved
        case Some(kv) => if Truthy(kv.value) then Fetched(kv.value) else Unresolved)
    case GroupRef =>
      match FindById(st.groups, Some(id))
      case None => Unresolved
      case Some(g) =>
        match GroupField(g, field)
        case None => Unresolved
        case Some(v) => Fetched(v)
  }

  /** One level of `resolveReferenceAsync` on a non-empty value: the leftmost token decides. */
  function Dereference(st: Snapshot, s: string): Deref
  {
    match FindToken(s)
    case None => Unresolved
    case Some(m) => Lookup(st, m.token.kind, UpperStr(m.token.field), m.token.id)
  }

  /**
   * `resolveReferenceAsync(value)` with at most `fuel` nested calls. An absent or
   * empty value gives null, and no resolution ever ends in an empty string.
   */
  function Resolve(st: Snapshot, v: Option<string>, fuel: nat): (r: Resolution)
    ensures !Truthy(v) ==> r == Resolved(None)
    ensures r.Resolved? && r.value.Some? ==> r.value.value != ""
    decreases fuel
  {
    if !Truthy(v) then Resolved(None)
    else match Dereference(st, v.value)
      case Unresolved => Resolved(v)
      case Fetched(next) => if fuel == 0 then Diverges else Resolve(st, next, fuel - 1)
  }

  // ---------------------------------------------------------------------
  // Properties

  /** Fuel only bounds the recursion: a resolution that ends keeps its value with more fuel. */
  lemma {:induction false} ResolveFuelMonotone(st: Snapshot, v: Option<string>, n: nat, m: nat)
    requires n <= m && Resolve(st, v, n).Resolved?
    ensures Resolve(st, v, m) == Resolve(st, v, n)
    decreases n
  {
    if Truthy(v) && Dereference(st, v.value).Fetched? {
      var next := Dereference(st, v.value).value;
      assert n > 0 && Resolve(st, v, n) == Resolve(st, next, n - 1);
      ResolveFuelMonotone(st, next, n - 1, m - 1);
      assert Resolve(st, v, m) == Resolve(st, next, m - 1);
    }
  }

  /**
   * The chain of references from `v` reaches, within `k` further fetches, a
   * value that does not dereference: empty, without a token, or with a token
   * that cannot be followed.
   */
  predicate ChainEnds(st: Snapshot, v: Option<string>, k: nat)
    decreases k
  {
    !Truthy(v) ||
      match Dereference(st, v.value)
      case Unresolved => true
      case Fetched(next) => k > 0 && ChainEnds(st, next, k - 1)
  }

  /** Resolution with budget `k` ends exactly when the reference chain ends within `k` fetches. */
  lemma {:induction false} ChainEndsResolves(st: Snapshot, v: Option<string>, k: nat)
    ensures ChainEnds(st, v, k) <==> Resolve(st, v, k).Resolved?
    decreases k
  {
    if Truthy(v) && Dereference(st, v.value).Fetched? && k > 0 {
      ChainEndsResolves(st, Dereference(st, v.value).value, k - 1);
    }
  }

  /** A non-empty value in which the pattern does not occur is returned as it is. */
  lemma LiteralPassthrough(st: Snapshot, s: string, n: nat)
    requires s != ""
    requires forall p: nat, t :: !Occurs(s, p, t)
    ensures Resolve(st, Some(s), n) == Resolved(Some(s))
  {
    FindTokenCorrect(s);
  }

  /**
   * A value whose leftmost token cannot be followed is returned unchanged, never
   * an error: a missing item or group, an unknown field name, or for `ITEM.EXTRA`
   * no custom fields, no key equal ignoring case, or an empty value.
   */
  lemma UnresolvableKeepsValue(st: Snapshot, s: string, p: nat, t: Token, n: nat)
    requires Occurs(s, p, t)
    requires forall q: nat, u :: q < p ==> !Occurs(s, q, u)
    requires var field := UpperStr(t.field);
      match t.kind
      case ItemRef => t.id !in st.items || field !in ItemFieldNames
      case GroupRef => FindById(st.groups, Some(t.id)).None? || field !in GroupFieldNames
      case ExtraRef =>
        var kvs := KeyValuesOf(st, t.id);
        |kvs| == 0 || FindKey(kvs, field).None? || !Truthy(FindKey(kvs, field).value.value)
    ensures Resolve(st, Some(s), n) == Resolved(Some(s))
  {
    LeftmostIsFound(s, p, t);
    RenderLayout(t);
  }

  /**
   * Field names match ignoring case: two values whose leftmost tokens differ only
   * in the letter case of the field read the same field, and when that field is
   * found they resolve alike.
   */
  lemma FieldCaseIrrelevant(st: Snapshot, s1: string, s2: string, n: nat)
    requires FindToken(s1).Some? && FindToken(s2).Some?
    requires var t1 := FindToken(s1).value.token; var t2 := FindToken(s2).value.token;
      SameUpper(t1.field, t2.field) && t1.kind == t2.kind && t1.id == t2.id
    ensures Dereference(st, s1) == Dereference(st, s2)
    ensures Dereference(st, s1).Fetched? ==> Resolve(st, Some(s1), n) == Resolve(st, Some(s2), n)
  {
    FindTokenCorrect(s1);
    FindTokenCorrect(s2);
  }

  /** `NOTE`/`NOTES` and `OTP`/`OTPSECRET`/`OTP_SECRET` name the same item field. */
  lemma ItemFieldAliases(d: Details)
    ensures ItemField(d, "NOTE") == ItemField(d, "NOTES") == Some(d.note)
    ensures ItemField(d, "OTP") == ItemField(d, "OTPSECRET") == ItemField(d, "OTP_SECRET") == Some(d.otpSecret)
  {
  }

  /** The text `{REF:<field>@ITEM:<id>}`. */
  function ItemRefText(field: string, id: string): (r: string)
    ensures r == Render(Token(field, ItemRef, id))
  {
    "{REF:" + field + "@ITEM:" + id + "}"
  }

  predicate IsIdText(id: string)
  {
    |id| > 0 && AllIdChars(id)
  }

  /** The known item field names are spelled in upper case from the field class. */
  lemma ItemFieldNameSpelling(field: string)
    requires field in ItemFieldNames
    ensures |field| > 0 && AllFieldChars(field)
    ensures forall k :: 0 <= k < |field| ==> !('a' <= field[k] <= 'z')
  {
  }

  /** A canonical item reference reads the named field of the named item. */
  lemma DerefItemRef(st: Snapshot, field: string, id: string)
    requires field in ItemFieldNames && IsIdText(id)
    ensures Dereference(st, ItemRefText(field, id)) == Lookup(st, ItemRef, field, id)
  {
    ItemFieldNameSpelling(field);
    RenderRoundTrip(Token(field, ItemRef, id));
    UpperIdentity(field);
  }

  /**
   * A reference to an item field is worth what that field resolves to, one call
   * deeper; a reference to a missing item stays as it is.
   */
  lemma ItemReference(st: Snapshot, field: string, id: string, n: nat)
    requires field in ItemFieldNames && IsIdText(id)
    ensures id in st.items ==>
      Resolve(st, Some(ItemRefText(field, id)), n + 1) == Resolve(st, ItemField(st.items[id], field).value, n)
    ensures id in st.items ==> Resolve(st, Some(ItemRefText(field, id)), 0) == Diverges
    ensures id !in st.items ==>
      Resolve(st, Some(ItemRefText(field, id)), n) == Resolved(Some(ItemRefText(field, id)))
  {
    DerefItemRef(st, field, id);
  }

  /** `{REF:PASSWORD@ITEM:<id>}` stands for the item's password. */
  lemma PasswordReference(st: Snapshot, id: string, n: nat)
    requires IsIdText(id) && id in st.items
    ensures Resolve(st, Some(ItemRefText("PASSWORD", id)), n + 1) == Resolve(st, st.items[id].password, n)
    ensures Resolve(st, Some(ItemRefText("PASSWORD", id)), 0) == Diverges
  {
    assert "PASSWORD" in ItemFieldNames;
    assert ItemField(st.items[id], "PASSWORD") == Some(st.items[id].password);
    ItemReference(st, "PASSWORD", id, n);
  }

  /** `{REF:USERNAME@ITEM:<id>}` stands for the item's username. */
  lemma UsernameReference(st: Snapshot, id: string, n: nat)
    requires IsIdText(id) && id in st.items
    ensures Resolve(st, Some(ItemRefText("USERNAME", id)), n + 1) == Resolve(st, st.items[id].username, n)
    ensures Resolve(st, Some(ItemRefText("USERNAME", id)), 0) == Diverges
  {
    assert "USERNAME" in ItemFieldNames;
    assert ItemField(st.items[id], "USERNAME") == Some(st.items[id].username);
    ItemReference(st, "USERNAME", id, n);
  }

  /** A chain A -> B of password references yields B's literal password. */
  lemma ChainYieldsLiteral(st: Snapshot, a: string, b: string, secret: string, n: nat)
    requires IsIdText(a) && IsIdText(b) && a in st.items && b in st.items
    requires st.items[a].password == Some(ItemRefText("PASSWORD", b))
    requires st.items[b].password == Some(secret)
    requires secret != "" && forall p: nat, t :: !Occurs(secret, p, t)
    ensures Resolve(st, Some(ItemRefText("PASSWORD", a)), n + 2) == Resolved(Some(secret))
  {
    PasswordReference(st, a, n + 1);
    PasswordReference(st, b, n);
    LiteralPassthrough(st, secret, n);
  }

  /** A referenced field that is present but empty resolves to null. */
  lemma EmptyFieldGivesNull(st: Snapshot, field: string, id: string, n: nat)
    requires field in ItemFieldNames && IsIdText(id) && id in st.items
    requires !Truthy(ItemField(st.items[id], field).value)
    ensures Resolve(st, Some(ItemRefText(field, id)), n + 1) == Resolved(None)
  {
    ItemReference(st, field, id, n);
  }

  /** Two items whose passwords reference each other: the source recurses forever. */
  lemma {:induction false} CycleDiverges(st: Snapshot, a: string, b: string, n: nat)
    requires IsIdText(a) && IsIdText(b) && a in st.items && b in st.items
    requires st.items[a].password == Some(ItemRefText("PASSWORD", b))
    requires st.items[b].password == Some(ItemRefText("PASSWORD", a))
    ensures Resolve(st, Some(ItemRefText("PASSWORD", a)), n) == Diverges
    decreases n
  {
    PasswordReference(st, a, if n == 0 then 0 else n - 1);
    if n > 0 {
      CycleDiverges(st, b, a, n - 1);
    }
  }

  /**
   * The token need not be the whole value: the leftmost token anywhere is used
   * and the whole value, surrounding text included, is replaced.
   */
  lemma SurroundingTextReplaced(st: Snapshot, pre: string, field: string, id: string, post: string, n: nat)
    requires forall k :: 0 <= k < |pre| ==> pre[k] != '{'
    requires field in ItemFieldNames && IsIdText(id) && id in st.items
    ensures Resolve(st, Some(pre + ItemRefText(field, id) + post), n + 1)
         == Resolve(st, ItemField(st.items[id], field).value, n)
  {
    var t := Token(field, ItemRef, id);
    var s := pre + ItemRefText(field, id) + post;
    ItemFieldNameSpelling(field);
    assert s[|pre|..|pre| + |Render(t)|] == Render(t);
    assert forall k :: 0 <= k < |pre| ==> s[k] == pre[k];
    TokenInsideText(s, |pre|, t);
    UpperIdentity(field);
  }
}
