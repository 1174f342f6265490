/**
 * Reference tokens `{REF:<FIELD>@<ITEM|GROUP|ITEM.EXTRA>:<id>}` and the
 * matcher for the pattern `\{REF:([A-Z_]+)@(ITEM|GROUP|ITEM\.EXTRA):([a-f0-9-]+)\}`
 * with the case-insensitive flag and no anchors: `String.prototype.match`
 * returns the leftmost position where the pattern matches.
 */
module Tokens {
  import opened Wrappers
  import opened Text

  datatype RefKind = ItemRef | GroupRef | ExtraRef

  /** The three captures of a match; the type tag is kept upper-cased, field and id verbatim. */
  datatype Token = Token(field: string, kind: RefKind, id: string)

  /** A match inside a value: it covers `value[start..end]`. */
  datatype Match = Match(start: nat, end: nat, token: Token)

  function KindTag(k: RefKind): string
  {
    match k
    case ItemRef => "ITEM"
    case GroupRef => "GROUP"
    case ExtraRef => "ITEM.EXTRA"
  }

  /** The captures the pattern can produce: non-empty runs of its two character classes. */
  predicate WellFormed(t: Token)
  {
    |t.field| > 0 && AllFieldChars(t.field) && |t.id| > 0 && AllIdChars(t.id)
  }

  /** The canonical text of a token, as `cloneGroupItemsAsync` writes it. */
  function Render(t: Token): string
  {
    "{REF:" + t.field + "@" + KindTag(t.kind) + ":" + t.id + "}"
  }

  /** The length of a token's text. */
  function TokenLength(t: Token): (n: nat)
    ensures n == |Render(t)|
  {
    8 + |t.field| + |KindTag(t.kind)| + |t.id|
  }

  /**
   * The pattern occurs in `s` at position `i` and captures `t`: a `{`, `REF:` in
   * any letter case, the field verbatim, `@`, the type tag and `:` in any letter
   * case, the id verbatim and a `}`.
   */
  predicate Occurs(s: string, i: nat, t: Token)
  {
    var f := |t.field|;
    var g := |KindTag(t.kind)|;
    var n := |t.id|;
    WellFormed(t)
    && i + 8 + f + g + n <= |s|
    && s[i] == '{'
    && HasPrefixCI(s, i + 1, "REF:")
    && s[i + 5..i + 5 + f] == t.field
    && s[i + 5 + f] == '@'
    && HasPrefixCI(s, i + 6 + f, KindTag(t.kind) + ":")
    && s[i + 7 + f + g..i + 7 + f + g + n] == t.id
    && s[i + 7 + f + g + n] == '}'
  }

  /** `lit` (upper-case) occurs at `i`, ignoring the case of `s`. */
  predicate HasPrefixCI(s: string, i: nat, lit: string)
  {
    i + |lit| <= |s| && forall k :: 0 <= k < |lit| ==> Upper(s[i + k]) == lit[k]
  }

  // ---------------------------------------------------------------------
  // The matcher

  /** The end of the longest run of field characters starting at `i` (the greedy `[A-Z_]+`). */
  function FieldRunEnd(s: string, i: nat): (j: nat)
    requires i <= |s|
    ensures i <= j <= |s|
    ensures forall k :: i <= k < j ==> IsFieldChar(s[k])
    ensures j == |s| || !IsFieldChar(s[j])
    decreases |s| - i
  {
    if i == |s| || !IsFieldChar(s[i]) then i else FieldRunEnd(s, i + 1)
  }

  /** The end of the longest run of id characters starting at `i` (the greedy `[a-f0-9-]+`). */
  function IdRunEnd(s: string, i: nat): (j: nat)
    requires i <= |s|
    ensures i <= j <= |s|
    ensures forall k :: i <= k < j ==> IsIdChar(s[k])
    ensures j == |s| || !IsIdChar(s[j])
    decreases |s| - i
  {
    if i == |s| || !IsIdChar(s[i]) then i else IdRunEnd(s, i + 1)
  }

  /** The alternation `(ITEM|GROUP|ITEM\.EXTRA)` followed by `:`, tried in that order. */
  function TagAt(s: string, p: nat): (r: Option<RefKind>)
    ensures r.Some? ==> HasPrefixCI(s, p, KindTag(r.value) + ":")
  {
    if HasPrefixCI(s, p, KindTag(ItemRef) + ":") then Some(ItemRef)
    else if HasPrefixCI(s, p, KindTag(GroupRef) + ":") then Some(GroupRef)
    else if HasPrefixCI(s, p, KindTag(ExtraRef) + ":") then Some(ExtraRef)
    else None
  }

  /** Tries the pattern at position `i` only: `{REF:` first, */
  function ParseAt(s: string, i: nat): Option<Match>
  {
    if i < |s| && s[i] == '{' && HasPrefixCI(s, i + 1, "REF:") then ParseField(s, i) else None
  }

  /** then the greedy field run and `@`, */
  function ParseField(s: string, i: nat): Option<Match>
    requires i + 5 <= |s|
  {
    var fe := FieldRunEnd(s, i + 5);
    if fe == i + 5 || fe == |s| || s[fe] != '@' then None else ParseTag(s, i, fe)
  }

  /** then the type tag and `:`, */
  function ParseTag(s: string, i: nat, fe: nat): Option<Match>
    requires i + 5 < fe < |s|
  {
    match TagAt(s, fe + 1)
    case None => None
    case Some(k) => ParseId(s, i, fe, k)
  }

  /** then the greedy id run and `}`. */
  function ParseId(s: string, i: nat, fe: nat, k: RefKind): Option<Match>
    requires i + 5 < fe && fe + 2 + |KindTag(k)| <= |s|
  {
    var q := fe + 2 + |KindTag(k)|;
    var qe := IdRunEnd(s, q);
    if qe == q || qe == |s| || s[qe] != '}' then None
    else Some(Match(i, qe + 1, Token(s[i + 5..fe], k, s[q..qe])))
  }

  /** The leftmost match at or after position `i`. */
  function FindFrom(s: string, i: nat): Option<Match>
    decreases |s| - i
  {
    if i >= |s| then None
    else match ParseAt(s, i)
      case Some(m) => Some(m)
      case None => FindFrom(s, i + 1)
  }

  /** `value.match(refPattern)`. */
  function FindToken(s: string): Option<Match>
  {
    FindFrom(s, 0)
  }

  // ---------------------------------------------------------------------
  // The matcher agrees with the declarative reading of the pattern

  /** A run boundary is unique: a stretch of field characters ending at a non-field character is the run. */
  lemma FieldRunEndAt(s: string, i: nat, j: nat)
    requires i <= j <= |s|
    requires forall k :: i <= k < j ==> IsFieldChar(s[k])
    requires j == |s| || !IsFieldChar(s[j])
    ensures FieldRunEnd(s, i) == j
  {
  }

  lemma IdRunEndAt(s: string, i: nat, j: nat)
    requires i <= j <= |s|
    requires forall k :: i <= k < j ==> IsIdChar(s[k])
    requires j == |s| || !IsIdChar(s[j])
    ensures IdRunEnd(s, i) == j
  {
  }

  lemma ParseIdSound(s: string, i: nat, fe: nat, k: RefKind)
    requires i + 5 < fe && fe + 2 + |KindTag(k)| <= |s|
    requires s[i] == '{' && HasPrefixCI(s, i + 1, "REF:")
    requires forall j :: i + 5 <= j < fe ==> IsFieldChar(s[j])
    requires s[fe] == '@' && HasPrefixCI(s, fe + 1, KindTag(k) + ":")
    requires ParseId(s, i, fe, k).Some?
    ensures var m := ParseId(s, i, fe, k).value;
      m.start == i && m.end == i + TokenLength(m.token) && Occurs(s, i, m.token)
  {
  }

  /** Every match the matcher reports is an occurrence of the pattern. */
  lemma ParseSound(s: string, i: nat)
    requires ParseAt(s, i).Some?
    ensures var m := ParseAt(s, i).value;
      m.start == i && m.end == i + TokenLength(m.token) && Occurs(s, i, m.token)
  {
    assert ParseAt(s, i) == ParseField(s, i);
    var fe := FieldRunEnd(s, i + 5);
    assert ParseField(s, i) == ParseTag(s, i, fe);
    var k := TagAt(s, fe + 1).value;
    assert ParseTag(s, i, fe) == ParseId(s, i, fe, k);
    ParseIdSound(s, i, fe, k);
  }

  /** The alternation picks the tag that is there: `ITEM` is not taken before `.EXTRA`. */
  lemma TagAtKind(s: string, p: nat, k: RefKind)
    requires HasPrefixCI(s, p, KindTag(k) + ":")
    ensures TagAt(s, p) == Some(k)
  {
    var tag := KindTag(k) + ":";
    assert Upper(s[p]) == tag[0];
    match k {
      case ItemRef =>
      case GroupRef =>
        assert tag[0] == 'G' && (KindTag(ItemRef) + ":")[0] == 'I';
      case ExtraRef =>
        assert Upper(s[p + 4]) == tag[4] == '.';
        assert (KindTag(ItemRef) + ":")[4] == ':';
        assert tag[0] == 'I' && (KindTag(GroupRef) + ":")[0] == 'G';
    }
  }

  lemma ParseIdComplete(s: string, i: nat, t: Token)
    requires Occurs(s, i, t)
    ensures ParseId(s, i, i + 5 + |t.field|, t.kind) == Some(Match(i, i + TokenLength(t), t))
  {
    var q := i + 7 + |t.field| + |KindTag(t.kind)|;
    var qe := q + |t.id|;
    assert forall k :: q <= k < qe ==> s[k] == t.id[k - q];
    IdRunEndAt(s, q, qe);
  }

  /** In an occurrence the greedy field run stops exactly at the `@`. */
  lemma FieldRunOfOccurrence(s: string, i: nat, t: Token)
    requires Occurs(s, i, t)
    ensures FieldRunEnd(s, i + 5) == i + 5 + |t.field|
  {
    var fe := i + 5 + |t.field|;
    assert forall k :: i + 5 <= k < fe ==> s[k] == t.field[k - i - 5];
    FieldRunEndAt(s, i + 5, fe);
  }

  lemma ParseTagComplete(s: string, i: nat, t: Token)
    requires Occurs(s, i, t)
    ensures ParseTag(s, i, i + 5 + |t.field|) == Some(Match(i, i + TokenLength(t), t))
  {
    TagAtKind(s, i + 6 + |t.field|, t.kind);
    ParseIdComplete(s, i, t);
  }

  lemma ParseFieldComplete(s: string, i: nat, t: Token)
    requires Occurs(s, i, t)
    ensures ParseField(s, i) == Some(Match(i, i + TokenLength(t), t))
  {
    FieldRunOfOccurrence(s, i, t);
    ParseTagComplete(s, i, t);
  }

  /** Every occurrence of the pattern is found by the matcher at its position. */
  lemma ParseComplete(s: string, i: nat, t: Token)
    requires Occurs(s, i, t)
    ensures ParseAt(s, i) == Some(Match(i, i + TokenLength(t), t))
  {
    ParseFieldComplete(s, i, t);
  }

  /** No occurrence starts at `i` when the matcher fails there. */
  lemma ParseNone(s: string, i: nat)
    requires ParseAt(s, i).None?
    ensures forall t :: !Occurs(s, i, t)
  {
    forall t | Occurs(s, i, t) ensures false {
      ParseComplete(s, i, t);
    }
  }

  /** The scan moves past a position where the matcher fails. */
  lemma FindFromSkip(s: string, i: nat)
    requires i < |s| && ParseAt(s, i).None?
    ensures FindFrom(s, i) == FindFrom(s, i + 1)
  {
  }

  /** The scan stops at a position where the matcher succeeds. */
  lemma FindFromHit(s: string, i: nat)
    requires i < |s| && ParseAt(s, i).Some?
    ensures FindFrom(s, i) == ParseAt(s, i)
  {
  }

  /** What `FindFrom` reports is an occurrence at or after `i`. */
  lemma {:induction false} FindFromSound(s: string, i: nat)
    ensures FindFrom(s, i).Some? ==>
      var m := FindFrom(s, i).value;
      i <= m.start && m.end == m.start + TokenLength(m.token) && Occurs(s, m.start, m.token)
    decreases |s| - i
  {
    if i < |s| {
      if ParseAt(s, i).Some? {
        ParseSound(s, i);
      } else {
        FindFromSound(s, i + 1);
      }
    }
  }

  /** No occurrence lies between `i` and what `FindFrom` reports. */
  lemma {:induction false} FindFromLeftmost(s: string, i: nat)
    ensures FindFrom(s, i).Some? ==>
      forall p: nat, t :: i <= p < FindFrom(s, i).value.start ==> !Occurs(s, p, t)
    decreases |s| - i
  {
    if i < |s| {
      if ParseAt(s, i).Some? {
        ParseSound(s, i);
        assert FindFrom(s, i) == ParseAt(s, i);
      } else {
        FindFromSkip(s, i);
        FindFromLeftmost(s, i + 1);
        ParseNone(s, i);
        if FindFrom(s, i).Some? {
          var e := FindFrom(s, i).value.start;
          forall p: nat, t | i <= p < e ensures !Occurs(s, p, t) {
            if p > i {
              assert i + 1 <= p < FindFrom(s, i + 1).value.start;
            }
          }
        }
      }
    }
  }

  /** When `FindFrom` reports nothing there is no occurrence at or after `i`. */
  lemma {:induction false} FindFromComplete(s: string, i: nat)
    ensures FindFrom(s, i).None? ==> forall p: nat, t :: i <= p ==> !Occurs(s, p, t)
    decreases |s| - i
  {
    if i < |s| && ParseAt(s, i).None? {
      FindFromComplete(s, i + 1);
      ParseNone(s, i);
    }
  }

  /** `match` finds the leftmost occurrence; it finds nothing exactly when there is none. */
  lemma FindTokenCorrect(s: string)
    ensures FindToken(s).Some? ==>
      var m := FindToken(s).value;
      m.end == m.start + TokenLength(m.token) && Occurs(s, m.start, m.token)
      && forall p: nat, t :: p < m.start ==> !Occurs(s, p, t)
    ensures FindToken(s).None? <==> forall p: nat, t :: !Occurs(s, p, t)
  {
    FindFromSound(s, 0);
    FindFromLeftmost(s, 0);
    FindFromComplete(s, 0);
  }

  /** Text spelled exactly as an upper-case literal matches it ignoring case. */
  lemma ExactIsCI(s: string, p: nat, lit: string)
    requires p + |lit| <= |s| && s[p..p + |lit|] == lit
    requires forall k :: 0 <= k < |lit| ==> !('a' <= lit[k] <= 'z')
    ensures HasPrefixCI(s, p, lit)
  {
    forall k | 0 <= k < |lit| ensures Upper(s[p + k]) == lit[k] {
      assert s[p + k] == s[p..p + |lit|][k];
    }
  }

  lemma TagHasNoLowerCase(k: RefKind)
    ensures forall j :: 0 <= j < |KindTag(k) + ":"| ==> !('a' <= (KindTag(k) + ":")[j] <= 'z')
  {
  }

  /** Where each part of a rendered token sits. */
  lemma RenderLayout(t: Token)
    ensures var r := Render(t); var f := |t.field|; var g := |KindTag(t.kind)|; var n := |t.id|;
      |r| == 8 + f + g + n
      && r[..5] == "{REF:"
      && r[5..5 + f] == t.field
      && r[5 + f] == '@'
      && r[6 + f..7 + f + g] == KindTag(t.kind) + ":"
      && r[7 + f + g..7 + f + g + n] == t.id
      && r[7 + f + g + n] == '}'
  {
    var f := |t.field|;
    var g := |KindTag(t.kind)|;
    var a := "{REF:" + t.field;
    var b := a + "@" + KindTag(t.kind) + ":";
    var c := b + t.id;
    assert Render(t) == c + "}";
    assert c[..|b|] == b;
    assert b[..|a|] == a;
    assert b[6 + f..7 + f + g] == KindTag(t.kind) + ":";
  }

  /** Slices of an embedded word are slices of the word. */
  lemma SliceInside(s: string, i: nat, w: string, a: nat, b: nat)
    requires i + |w| <= |s| && s[i..i + |w|] == w
    requires a <= b <= |w|
    ensures s[i + a..i + b] == w[a..b]
  {
    forall k | a <= k < b ensures s[i + k] == w[k] {
      assert s[i..i + |w|][k] == s[i + k];
    }
  }

  lemma CharInside(s: string, i: nat, w: string, k: nat)
    requires i + |w| <= |s| && s[i..i + |w|] == w
    requires k < |w|
    ensures s[i + k] == w[k]
  {
    assert s[i..i + |w|][k] == s[i + k];
  }

  /** The embedded rendering supplies each part of an occurrence. */
  lemma RenderParts(s: string, i: nat, t: Token)
    requires i + |Render(t)| <= |s| && s[i..i + |Render(t)|] == Render(t)
    ensures var f := |t.field|; var g := |KindTag(t.kind)|; var n := |t.id|;
      i + 8 + f + g + n <= |s|
      && s[i..i + 5] == "{REF:"
      && s[i + 5..i + 5 + f] == t.field
      && s[i + 5 + f] == '@'
      && s[i + 6 + f..i + 7 + f + g] == KindTag(t.kind) + ":"
      && s[i + 7 + f + g..i + 7 + f + g + n] == t.id
      && s[i + 7 + f + g + n] == '}'
  {
    var r := Render(t);
    var f := |t.field|;
    var g := |KindTag(t.kind)|;
    var n := |t.id|;
    RenderLayout(t);
    SliceInside(s, i, r, 0, 5);
    SliceInside(s, i, r, 5, 5 + f);
    SliceInside(s, i, r, 6 + f, 7 + f + g);
    SliceInside(s, i, r, 7 + f + g, 7 + f + g + n);
    CharInside(s, i, r, 5 + f);
    CharInside(s, i, r, 7 + f + g + n);
  }

  /** A rendered token is an occurrence of the pattern wherever it is embedded. */
  lemma RenderOccurs(s: string, i: nat, t: Token)
    requires WellFormed(t)
    requires i + |Render(t)| <= |s| && s[i..i + |Render(t)|] == Render(t)
    ensures Occurs(s, i, t)
  {
    var f := |t.field|;
    var g := |KindTag(t.kind)|;
    RenderParts(s, i, t);
    assert s[i] == s[i..i + 5][0];
    assert s[i + 1..i + 5] == s[i..i + 5][1..] == "REF:";
    ExactIsCI(s, i + 1, "REF:");
    TagHasNoLowerCase(t.kind);
    ExactIsCI(s, i + 6 + f, KindTag(t.kind) + ":");
  }

  /**
   * The scan reaches position `n` when no `{` comes before it, so a match there
   * is the leftmost one.
   */
  lemma FindAfterPlainText(s: string, n: nat)
    requires n <= |s| && ParseAt(s, n).Some?
    requires forall k :: 0 <= k < n ==> s[k] != '{'
    ensures FindToken(s) == ParseAt(s, n)
  {
    FindFromHit(s, n);
    var i := 0;
    while i < n
      invariant i <= n
      invariant FindFrom(s, 0) == FindFrom(s, i)
    {
      FindFromSkip(s, i);
      i := i + 1;
    }
  }

  /**
   * The pattern is not anchored: a token is found wherever it sits in the value,
   * provided no `{` comes before it.
   */
  lemma TokenInsideText(s: string, i: nat, t: Token)
    requires WellFormed(t)
    requires i + |Render(t)| <= |s| && s[i..i + |Render(t)|] == Render(t)
    requires forall k :: 0 <= k < i ==> s[k] != '{'
    ensures FindToken(s) == Some(Match(i, i + |Render(t)|, t))
  {
    RenderOccurs(s, i, t);
    ParseComplete(s, i, t);
    FindAfterPlainText(s, i);
  }

  /** A rendered token is read back as itself. */
  lemma RenderRoundTrip(t: Token)
    requires WellFormed(t)
    ensures FindToken(Render(t)) == Some(Match(0, |Render(t)|, t))
  {
    var r := Render(t);
    assert r[0..|r|] == r;
    TokenInsideText(r, 0, t);
  }

  /** At most one token occurs at a position. */
  lemma OccursUnique(s: string, p: nat, t: Token, u: Token)
    requires Occurs(s, p, t) && Occurs(s, p, u)
    ensures t == u
  {
    ParseComplete(s, p, t);
    ParseComplete(s, p, u);
  }

  /** The leftmost occurrence is what `match` returns, capture for capture. */
  lemma LeftmostIsFound(s: string, p: nat, t: Token)
    requires Occurs(s, p, t)
    requires forall q: nat, u :: q < p ==> !Occurs(s, q, u)
    ensures FindToken(s) == Some(Match(p, p + TokenLength(t), t))
  {
    FindFromComplete(s, 0);
    FindFromSound(s, 0);
    FindFromLeftmost(s, 0);
    var m := FindToken(s).value;
    assert m.start == p;
    OccursUnique(s, p, t, m.token);
  }
}
