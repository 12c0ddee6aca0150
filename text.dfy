/** ASCII character classes and the string operations the staff command relies on. */
module Text {

  /** A character the regular-expression class `[a-z]` matches. */
  predicate IsLower(c: char) {
    'a' <= c <= 'z'
  }

  /** A character the regular-expression class `[A-Z]` matches. */
  predicate IsUpper(c: char) {
    'A' <= c <= 'Z'
  }

  lemma UpperIsNotLower(c: char)
    ensures IsUpper(c) ==> !IsLower(c)
    ensures IsLower(c) ==> !IsUpper(c)
  {
  }

  /** `toUpperCase` of one character, on the ASCII letters. */
  function UpperChar(c: char): (r: char)
    ensures IsLower(c) ==> IsUpper(r) && r as int == c as int - 32
    ensures !IsLower(c) ==> r == c
  {
    if IsLower(c) then (c as int - 'a' as int + 'A' as int) as char else c
  }

  /** `String.prototype.toUpperCase`, on the ASCII letters: same length, each character upper-cased. */
  function Upper(s: string): (r: string)
    ensures |r| == |s|
    ensures forall i :: 0 <= i < |s| ==> r[i] == UpperChar(s[i])
  {
    if s == [] then [] else [UpperChar(s[0])] + Upper(s[1..])
  }

  lemma UpperIdempotent(s: string)
    ensures Upper(Upper(s)) == Upper(s)
    ensures forall i :: 0 <= i < |s| ==> !IsLower(Upper(s)[i])
  {
  }

  /** `String.prototype.startsWith`: `p` is a prefix of `s`. */
  predicate StartsWith(s: string, p: string) {
    |p| <= |s| && s[..|p|] == p
  }

  lemma StartsWithEmpty(s: string)
    ensures StartsWith(s, "")
  {
  }
}
