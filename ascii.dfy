/** ASCII lowercasing, the part of JavaScript's String.prototype.toLowerCase
    that the login lookup relies on. */
module Ascii {

  /** An upper-case ASCII letter. */
  predicate IsUpper(c: char) {
    'A' <= c <= 'Z'
  }

  /** A string with no upper-case ASCII letter in it. */
  predicate NoUpper(s: string) {
    forall i :: 0 <= i < |s| ==> !IsUpper(s[i])
  }

  function LowerChar(c: char): (d: char)
    ensures !IsUpper(d)
    ensures IsUpper(c) ==> d as int == c as int + ('a' as int - 'A' as int)
    ensures !IsUpper(c) ==> d == c
  {
    if IsUpper(c) then (c as int + ('a' as int - 'A' as int)) as char else c
  }

  /** Lowercases every letter of s and leaves every other character alone. */
  function ToLower(s: string): (t: string)
    ensures |t| == |s|
    ensures NoUpper(t)
    ensures forall i :: 0 <= i < |s| ==> t[i] == LowerChar(s[i])
    ensures NoUpper(s) ==> t == s
  {
    if s == [] then [] else [LowerChar(s[0])] + ToLower(s[1..])
  }

  /** Lowercasing twice is lowercasing once. */
  lemma ToLowerIdempotent(s: string)
    ensures ToLower(ToLower(s)) == ToLower(s)
  {
  }

  /** Two strings that differ only in the case of their letters lowercase to the same string. */
  lemma ToLowerIgnoresCase(s: string, u: string)
    requires |s| == |u|
    requires forall i :: 0 <= i < |s| ==> LowerChar(s[i]) == LowerChar(u[i])
    ensures ToLower(s) == ToLower(u)
  {
  }

  /** A string holding an upper-case letter is never the lowercase form of anything. */
  lemma UpperNeverLowered(s: string, i: nat, x: string)
    requires i < |s| && IsUpper(s[i])
    ensures s != ToLower(x)
  {
  }
}
