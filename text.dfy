/**
 * Character-level helpers: ASCII upper-casing (what `toUpperCase` does on the
 * characters a reference token may hold) and the character classes of the
 * reference pattern under the case-insensitive flag.
 */
module Text {

  /** Upper-cases an ASCII letter and leaves every other character alone. */
  function Upper(c: char): (u: char)
    ensures 'A' <= u <= 'Z' <==> ('A' <= c <= 'Z' || 'a' <= c <= 'z')
    ensures !('a' <= c <= 'z') ==> u == c
  {
    if 'a' <= c <= 'z' then (c as int - 32) as char else c
  }

  function UpperStr(s: string): (u: string)
    ensures |u| == |s|
    ensures forall i :: 0 <= i < |s| ==> u[i] == Upper(s[i])
  {
    seq(|s|, i requires 0 <= i < |s| => Upper(s[i]))
  }

  /** Case-insensitive equality, as `a.toUpperCase() === b.toUpperCase()`. */
  predicate SameUpper(a: string, b: string)
  {
    UpperStr(a) == UpperStr(b)
  }

  /** `[A-Z_]` matched with the `i` flag: ASCII letters of either case and underscore. */
  predicate IsFieldChar(c: char)
  {
    'A' <= c <= 'Z' || 'a' <= c <= 'z' || c == '_'
  }

  /** `[a-f0-9-]` matched with the `i` flag. */
  predicate IsIdChar(c: char)
  {
    'a' <= c <= 'f' || 'A' <= c <= 'F' || '0' <= c <= '9' || c == '-'
  }

  predicate AllFieldChars(s: string)
  {
    forall i :: 0 <= i < |s| ==> IsFieldChar(s[i])
  }

  predicate AllIdChars(s: string)
  {
    forall i :: 0 <= i < |s| ==> IsIdChar(s[i])
  }

  /** Both character classes are closed under upper-casing, in both directions. */
  lemma UpperKeepsClasses(c: char)
    ensures IsFieldChar(Upper(c)) <==> IsFieldChar(c)
    ensures IsIdChar(Upper(c)) <==> IsIdChar(c)
  {
  }

  /** Upper-casing leaves text without lower-case letters alone. */
  lemma UpperIdentity(s: string)
    requires forall k :: 0 <= k < |s| ==> !('a' <= s[k] <= 'z')
    ensures UpperStr(s) == s
  {
  }

  lemma UpperSlice(s: string, i: nat, j: nat)
    requires i <= j <= |s|
    ensures UpperStr(s[i..j]) == UpperStr(s)[i..j]
  {
  }

  lemma UpperConcat(a: string, b: string)
    ensures UpperStr(a + b) == UpperStr(a) + UpperStr(b)
  {
  }
}
