/**
 * ASCII lower-casing and substring search: the string operations the
 * scraper applies to links (`link.lower()` and Python's `in` on strings).
 */
module Ascii {

  /** Lower-case one character; only 'A'..'Z' change. */
  function LowerChar(c: char): (d: char)
    ensures 'A' <= c <= 'Z' ==> 'a' <= d <= 'z' && d as int == c as int + 32
    ensures !('A' <= c <= 'Z') ==> d == c
  {
    if 'A' <= c <= 'Z' then (c as int + 32) as char else c
  }

  /** `s.lower()`, restricted to ASCII case folding. */
  function Lower(s: string): (r: string)
    ensures |r| == |s|
    ensures forall k | 0 <= k < |s| :: r[k] == LowerChar(s[k])
  {
    seq(|s|, k requires 0 <= k < |s| => LowerChar(s[k]))
  }

  /** `sub` occurs in `s` starting at position `i`. */
  predicate OccursAt(s: string, sub: string, i: nat)
  {
    i + |sub| <= |s| && s[i..i + |sub|] == sub
  }

  /** Lower-casing twice changes nothing more. */
  lemma LowerIdempotent(s: string)
    ensures Lower(Lower(s)) == Lower(s)
  {
  }

  /**
   * Python's `sub in s` for strings: `sub` occurs at some position of `s`.
   * Only a string no longer than `s` can occur in it; the empty string and
   * `s` itself always do.
   */
  predicate Contains(s: string, sub: string)
    ensures Contains(s, sub) ==> |sub| <= |s|
    ensures sub == [] ==> Contains(s, sub)
    ensures sub == s ==> Contains(s, sub)
  {
    assert OccursAt(s, [], 0);
    assert OccursAt(s, s, 0);
    exists i: nat | i <= |s| :: OccursAt(s, sub, i)
  }

  /** `any(sub in s for sub in subs)`. */
  predicate ContainsAny(s: string, subs: seq<string>)
  {
    exists k | 0 <= k < |subs| :: Contains(s, subs[k])
  }
}
