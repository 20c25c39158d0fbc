/** The string primitives the program takes from JavaScript: JS truthiness of
    a nullable string, `toLowerCase`, `toUpperCase` on one character, and the
    repository's own `capitalize`. Case mapping covers ASCII letters only. */
module Text {
  import opened Wrappers

  /** A nullable string is truthy in JavaScript when it is present and not "". */
  predicate Truthy(s: Option<string>) {
    s.Some? && |s.value| > 0
  }

  function LowerChar(c: char): (r: char)
    ensures 'A' <= c <= 'Z' ==> 'a' <= r <= 'z'
    ensures !('A' <= c <= 'Z') ==> r == c
  {
    if 'A' <= c <= 'Z' then (c as int + 32) as char else c
  }

  function UpperChar(c: char): (r: char)
    ensures 'a' <= c <= 'z' ==> 'A' <= r <= 'Z'
    ensures !('a' <= c <= 'z') ==> r == c
  {
    if 'a' <= c <= 'z' then (c as int - 32) as char else c
  }

  /** `String.prototype.toLowerCase`, character by character. */
  function Lower(s: string): (r: string)
    ensures |r| == |s|
    ensures forall i :: 0 <= i < |s| ==> r[i] == LowerChar(s[i])
  {
    seq(|s|, i requires 0 <= i < |s| => LowerChar(s[i]))
  }

  /** `capitalize` (src/utils/standardize.ts:24-27): the empty string is
      returned as is, otherwise only the first character is upper-cased. */
  function Capitalize(s: string): (r: string)
    ensures |r| == |s|
    ensures |s| == 0 ==> r == s
    ensures |s| > 0 ==> r[0] == UpperChar(s[0]) && r[1..] == s[1..]
  {
    if |s| == 0 then s else [UpperChar(s[0])] + s[1..]
  }

  lemma UpperCharIdempotent(c: char)
    ensures UpperChar(UpperChar(c)) == UpperChar(c)
  {
  }

  /** Capitalizing twice is capitalizing once. */
  lemma CapitalizeIdempotent(s: string)
    ensures Capitalize(Capitalize(s)) == Capitalize(s)
  {
    if |s| > 0 {
      var c := Capitalize(s);
      UpperCharIdempotent(s[0]);
      assert Capitalize(c) == [UpperChar(c[0])] + c[1..];
    }
  }

  /** Lower-casing is idempotent, so the standardizer's comparisons do not
      depend on whether a label was already lower case. */
  lemma LowerIdempotent(s: string)
    ensures Lower(Lower(s)) == Lower(s)
  {
  }
}
