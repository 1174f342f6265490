/**
 * The change test of the group store: `areGroupsEqual` and
 * `areObjectsEqual`, over a small model of the JavaScript values they see.
 */
module Equality {

  /** An own enumerable property of an object, in insertion order. */
  datatype Field = Field(key: string, value: JsValue)

  /**
   * A JavaScript value. Objects and arrays carry the reference that `===`
   * compares; numbers are integers (no `NaN`, no `-0`).
   */
  datatype JsValue =
    | Null
    | Undefined
    | Bool(b: bool)
    | Num(n: int)
    | Str(s: string)
    | Obj(ref: nat, fields: seq<Field>)
    | Arr(ref: nat, elems: seq<JsValue>)

  /** `a === b`: primitives by value, objects and arrays by reference. */
  predicate StrictEq(a: JsValue, b: JsValue)
  {
    match (a, b)
    case (Null, Null) => true
    case (Undefined, Undefined) => true
    case (Bool(x), Bool(y)) => x == y
    case (Num(x), Num(y)) => x == y
    case (Str(x), Str(y)) => x == y
    case (Obj(r, _), Obj(q, _)) => r == q
    case (Arr(r, _), Arr(q, _)) => r == q
    case _ => false
  }

  lemma StrictEqReflexive(a: JsValue)
    ensures StrictEq(a, a)
  {
  }

  lemma StrictEqSymmetric(a: JsValue, b: JsValue)
    ensures StrictEq(a, b) == StrictEq(b, a)
  {
  }

  /** `typeof v === 'object'`. */
  predicate IsObjectType(v: JsValue)
  {
    v.Null? || v.Obj? || v.Arr?
  }

  /** The decimal spelling of an array index, as a property key. */
  function IndexKey(i: nat): (s: string)
    ensures |s| > 0
    decreases i
  {
    var d := ['0' + (i % 10) as char];
    if i < 10 then d else IndexKey(i / 10) + d
  }

  /** `Object.keys(v)` for an object or an array. */
  function Keys(v: JsValue): (r: seq<string>)
    requires v.Obj? || v.Arr?
    ensures v.Obj? ==> |r| == |v.fields| && forall k :: 0 <= k < |r| ==> r[k] == v.fields[k].key
    ensures v.Arr? ==> |r| == |v.elems| && forall k :: 0 <= k < |r| ==> r[k] == IndexKey(k)
  {
    if v.Obj? then seq(|v.fields|, k requires 0 <= k < |v.fields| => v.fields[k].key)
    else seq(|v.elems|, k requires 0 <= k < |v.elems| => IndexKey(k))
  }

  /** The value of the first field named `key`, `undefined` without one. */
  function FieldValue(fields: seq<Field>, key: string): (r: JsValue)
    ensures (exists k :: 0 <= k < |fields| && fields[k].key == key) || r == Undefined
  {
    if |fields| == 0 then Undefined
    else if fields[0].key == key then fields[0].value
    else
      var r := FieldValue(fields[1..], key);
      assert forall k :: 0 <= k < |fields| - 1 ==> fields[1..][k] == fields[k + 1];
      r
  }

  /** The element whose index is spelled `key`, from `from` on; `undefined` without one. */
  function ElementValue(elems: seq<JsValue>, key: string, from: nat): JsValue
    decreases |elems| - from
  {
    if from >= |elems| then Undefined
    else if IndexKey(from) == key then elems[from]
    else ElementValue(elems, key, from + 1)
  }

  /** `(v as Record<string, unknown>)[key]` for an object or an array. */
  function Get(v: JsValue, key: string): JsValue
    requires v.Obj? || v.Arr?
  {
    if v.Obj? then FieldValue(v.fields, key) else ElementValue(v.elems, key, 0)
  }

  /**
   * `areObjectsEqual(a, b)`: `a === b`, or two non-null objects with as many
   * keys where every key of `a` holds a value `===` to the one `b` holds under
   * that key. The keys of `b` are only counted, never read.
   */
  predicate AreObjectsEqual(a: JsValue, b: JsValue)
  {
    if StrictEq(a, b) then true
    else if !IsObjectType(a) || !IsObjectType(b) then false
    else if a.Null? || b.Null? then false
    else
      var keysA := Keys(a);
      |keysA| == |Keys(b)| && forall k :: 0 <= k < |keysA| ==> StrictEq(Get(a, keysA[k]), Get(b, keysA[k]))
  }

  /**
   * `areGroupsEqual(groupA, groupB)` as written: two nulls are equal; two
   * arrays are equal when their lengths agree, and otherwise when some element
   * of `groupA` equals itself; anything else goes to `areObjectsEqual`.
   */
  predicate AreGroupsEqual(groupA: JsValue, groupB: JsValue)
  {
    if groupA.Null? && groupB.Null? then true
    else if groupA.Arr? && groupB.Arr? then
      if |groupA.elems| == |groupB.elems| then true
      else exists k :: 0 <= k < |groupA.elems| && AreObjectsEqual(groupA.elems[k], groupA.elems[k])
    else AreObjectsEqual(groupA, groupB)
  }

  // ---------------------------------------------------------------------
  // What the two helpers decide

  /** Every value equals itself. */
  lemma ObjectsReflexive(a: JsValue)
    ensures AreObjectsEqual(a, a)
  {
    StrictEqReflexive(a);
  }

  /** Values that are not both non-null objects are equal exactly when they are `===`. */
  lemma ObjectsOnPrimitives(a: JsValue, b: JsValue)
    requires !(a.Obj? || a.Arr?) || !(b.Obj? || b.Arr?)
    ensures AreObjectsEqual(a, b) <==> StrictEq(a, b)
  {
  }

  /** Two distinct non-null objects or arrays with different key counts differ. */
  lemma ObjectsNeedSameKeyCount(a: JsValue, b: JsValue)
    requires (a.Obj? || a.Arr?) && (b.Obj? || b.Arr?) && !StrictEq(a, b)
    requires |Keys(a)| != |Keys(b)|
    ensures !AreObjectsEqual(a, b)
  {
  }

  /**
   * The comparison is not symmetric: `{x: 1, y: undefined}` equals
   * `{x: 1, z: 2}`, but not the other way round, since only the first
   * argument's keys are looked up.
   */
  lemma ObjectsNotSymmetric()
    ensures var a := Obj(1, [Field("x", Num(1)), Field("y", Undefined)]);
      var b := Obj(2, [Field("x", Num(1)), Field("z", Num(2))]);
      AreObjectsEqual(a, b) && !AreObjectsEqual(b, a)
  {
    var a := Obj(1, [Field("x", Num(1)), Field("y", Undefined)]);
    var b := Obj(2, [Field("x", Num(1)), Field("z", Num(2))]);
    assert Keys(a) == ["x", "y"];
    assert Keys(b) == ["x", "z"];
    assert Get(a, "x") == Num(1) && Get(b, "x") == Num(1);
    assert Get(a, "y") == Undefined && Get(b, "y") == Undefined;
    assert Get(b, "z") == Num(2) && Get(a, "z") == Undefined;
    assert !StrictEq(Get(b, Keys(b)[1]), Get(a, Keys(b)[1]));
  }

  /** Two nulls are equal. */
  lemma GroupsBothNull()
    ensures AreGroupsEqual(Null, Null)
  {
  }

  /** Arrays of the same length are equal whatever they hold. */
  lemma GroupsSameLength(groupA: JsValue, groupB: JsValue)
    requires groupA.Arr? && groupB.Arr? && |groupA.elems| == |groupB.elems|
    ensures AreGroupsEqual(groupA, groupB)
  {
  }

  /** Arrays of different lengths are equal exactly when the first one is not empty. */
  lemma GroupsDifferentLength(groupA: JsValue, groupB: JsValue)
    requires groupA.Arr? && groupB.Arr? && |groupA.elems| != |groupB.elems|
    ensures AreGroupsEqual(groupA, groupB) <==> |groupA.elems| > 0
  {
    if |groupA.elems| > 0 {
      ObjectsReflexive(groupA.elems[0]);
    }
  }

  /** Whenever the two are not both arrays, and not both null, the object comparison decides. */
  lemma GroupsOtherwise(groupA: JsValue, groupB: JsValue)
    requires !(groupA.Arr? && groupB.Arr?) && !(groupA.Null? && groupB.Null?)
    ensures AreGroupsEqual(groupA, groupB) <==> AreObjectsEqual(groupA, groupB)
  {
  }

  /** An array of one element equals the empty array: the element is compared with itself. */
  lemma GroupsSelfComparison()
    ensures AreGroupsEqual(Arr(1, [Obj(2, [])]), Arr(3, []))
  {
    GroupsDifferentLength(Arr(1, [Obj(2, [])]), Arr(3, []));
  }

  // ---------------------------------------------------------------------
  // The comparison the array branch evidently means

  /** Two arrays are equal when their lengths agree and their elements pairwise compare equal. */
  predicate AreGroupsEqualIntended(groupA: JsValue, groupB: JsValue)
  {
    if groupA.Null? && groupB.Null? then true
    else if groupA.Arr? && groupB.Arr? then
      |groupA.elems| == |groupB.elems|
      && forall k :: 0 <= k < |groupA.elems| ==> AreObjectsEqual(groupA.elems[k], groupB.elems[k])
    else AreObjectsEqual(groupA, groupB)
  }

  /** Arrays of different lengths differ, and every value equals itself. */
  lemma IntendedGroupsDecide(groupA: JsValue, groupB: JsValue)
    ensures groupA.Arr? && groupB.Arr? && |groupA.elems| != |groupB.elems| ==> !AreGroupsEqualIntended(groupA, groupB)
    ensures AreGroupsEqualIntended(groupA, groupA)
  {
    if groupA.Arr? {
      forall k | 0 <= k < |groupA.elems| ensures AreObjectsEqual(groupA.elems[k], groupA.elems[k]) {
        ObjectsReflexive(groupA.elems[k]);
      }
    } else {
      ObjectsReflexive(groupA);
    }
  }

  /** Arrays of equal length with an element pair that compares unequal differ. */
  lemma IntendedGroupsCompareElements(groupA: JsValue, groupB: JsValue, k: nat)
    requires groupA.Arr? && groupB.Arr? && k < |groupA.elems| == |groupB.elems|
    requires !AreObjectsEqual(groupA.elems[k], groupB.elems[k])
    ensures !AreGroupsEqualIntended(groupA, groupB)
  {
  }

  /** The counterexample above no longer compares equal. */
  lemma IntendedSelfComparisonFixed()
    ensures !AreGroupsEqualIntended(Arr(1, [Obj(2, [])]), Arr(3, []))
  {
  }
}
