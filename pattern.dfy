/**
 * The language of the scraper's URL pattern, matched case-insensitively:
 *
 *   prefix  ::= "http://" | "https://" | "ftp://" | "file://" | "www." | "ftp."
 *   body    ::= [-A-Z0-9+&@#/%=~_|$?!:,.]
 *   term    ::= [A-Z0-9+&@#/%=~_|$]
 *   group   ::= "(" body* ")"
 *   link    ::= prefix (group | body)* (group | term)
 *
 * The grammar is stated on positions of a text `s`: `MatchSpan(s, i, j)`
 * says that `s[i..j]` is a link, and `IsLink(m)` that the whole of `m` is.
 * This module only says which strings are links; UrlScanner finds them and
 * is proved against these definitions.
 */
module UrlPattern {
  import opened Ascii

  predicate IsAsciiLetter(c: char)
  {
    'A' <= c <= 'Z' || 'a' <= c <= 'z'
  }

  predicate IsDigit(c: char)
  {
    '0' <= c <= '9'
  }

  /** `[A-Z0-9+&@#/%=~_|$]` under case-insensitive matching. */
  predicate IsTermChar(c: char)
  {
    IsAsciiLetter(c) || IsDigit(c) ||
    c == '+' || c == '&' || c == '@' || c == '#' || c == '/' || c == '%' ||
    c == '=' || c == '~' || c == '_' || c == '|' || c == '$'
  }

  /** `[-A-Z0-9+&@#/%=~_|$?!:,.]` under case-insensitive matching. */
  predicate IsBodyChar(c: char)
  {
    IsTermChar(c) || c == '-' || c == '?' || c == '!' || c == ':' || c == ',' || c == '.'
  }

  /** The characters a link may contain at all. */
  predicate IsLinkChar(c: char)
  {
    IsBodyChar(c) || c == '(' || c == ')'
  }

  /** The literal alternatives of the prefix, in lower case. */
  const PREFIXES: seq<string> := ["https://", "http://", "ftp://", "file://", "www.", "ftp."]

  /** `p` is the prefix alternative `PREFIXES[j]`, compared case-insensitively. */
  predicate PrefixIndex(p: string, j: int)
  {
    0 <= j < |PREFIXES| && Lower(p) == PREFIXES[j]
  }

  /** `p` is one of the prefixes, compared case-insensitively. */
  ghost predicate IsPrefix(p: string)
  {
    exists j :: PrefixIndex(p, j)
  }

  /** `s[a..b]` is a group `\( body* \)`. */
  predicate GroupAt(s: string, a: int, b: int)
  {
    0 <= a && a + 2 <= b <= |s| && s[a] == '(' && s[b - 1] == ')' &&
    forall k | a < k < b - 1 :: IsBodyChar(s[k])
  }

  /** `s[a..b]` is one repetition of `(group | body)`. */
  predicate UnitAtSpan(s: string, a: int, b: int)
  {
    (0 <= a && b == a + 1 <= |s| && IsBodyChar(s[a])) || GroupAt(s, a, b)
  }

  /** `s[a..b]` is the closing `(group | term)`. */
  predicate TerminalAt(s: string, a: int, b: int)
  {
    (0 <= a && b == a + 1 <= |s| && IsTermChar(s[a])) || GroupAt(s, a, b)
  }

  /** `s[a..b]` is `(group | body)*`: it splits into consecutive units. */
  ghost predicate UnitsSpan(s: string, a: int, b: int)
    decreases if a <= b then b - a else 0, 1
  {
    (0 <= a == b <= |s|) || exists c :: UnitsStep(s, a, c, b)
  }

  /** `s[a..c]` is a unit and `s[c..b]` is units. */
  ghost predicate UnitsStep(s: string, a: int, c: int, b: int)
    decreases if a <= b then b - a else 0, 0
  {
    a < c <= b && UnitAtSpan(s, a, c) && UnitsSpan(s, c, b)
  }

  /** `s[a..b]` is `(group | body)* (group | term)`: what follows the prefix. */
  ghost predicate TailSpan(s: string, a: int, b: int)
  {
    exists q :: TailStep(s, a, q, b)
  }

  /** `s[a..q]` is units and `s[q..b]` the terminal unit. */
  ghost predicate TailStep(s: string, a: int, q: int, b: int)
  {
    a <= q && UnitsSpan(s, a, q) && TerminalAt(s, q, b)
  }

  /** `s[i..j]` is a match of the pattern. */
  ghost predicate MatchSpan(s: string, i: int, j: int)
  {
    exists n :: LinkStep(s, i, n, j)
  }

  /** `s[i..i + n]` is a prefix and `s[i + n..j]` a tail. */
  ghost predicate LinkStep(s: string, i: int, n: int, j: int)
  {
    0 <= i && 0 < n && i + n <= j <= |s| && IsPrefix(s[i..i + n]) && TailSpan(s, i + n, j)
  }

  /** `m` is, as a whole, in the language of the pattern. */
  ghost predicate IsLink(m: string)
  {
    MatchSpan(m, 0, |m|)
  }

  /** A non-empty run of units starts with a unit. */
  lemma FirstUnit(s: string, a: int, b: int) returns (c: int)
    requires UnitsSpan(s, a, b) && a != b
    ensures UnitsStep(s, a, c, b)
  {
    c :| UnitsStep(s, a, c, b);
  }

  // ----- What every link looks like -----

  /** Lower-casing keeps a character in or out of the body class. */
  lemma LowerBodyChar(c: char)
    ensures IsBodyChar(LowerChar(c)) <==> IsBodyChar(c)
  {
  }

  /** Every character of every prefix alternative is a body character. */
  lemma PrefixesAreBody()
    ensures forall p, k | p in PREFIXES && 0 <= k < |p| :: IsBodyChar(p[k])
  {
    forall p, k | p in PREFIXES && 0 <= k < |p|
      ensures IsBodyChar(p[k])
    {
    }
  }

  /** A string matching a prefix case-insensitively consists of body characters. */
  lemma PrefixChars(p: string)
    requires IsPrefix(p)
    ensures forall k | 0 <= k < |p| :: IsBodyChar(p[k])
  {
    PrefixesAreBody();
    var j :| PrefixIndex(p, j);
    assert Lower(p) in PREFIXES;
    forall k | 0 <= k < |p|
      ensures IsBodyChar(p[k])
    {
      assert Lower(p)[k] == LowerChar(p[k]);
      LowerBodyChar(p[k]);
    }
  }

  /** A run of units holds pattern characters only. */
  lemma {:induction false} UnitsChars(s: string, a: int, b: int)
    requires UnitsSpan(s, a, b)
    ensures 0 <= a <= b <= |s|
    ensures forall k | a <= k < b :: IsLinkChar(s[k])
    decreases if a <= b then b - a else 0
  {
    if a != b {
      var c := FirstUnit(s, a, b);
      UnitsChars(s, c, b);
    }
  }

  /** A tail holds pattern characters only and ends with a terminal character or ')'. */
  lemma TailChars(s: string, a: int, b: int)
    requires TailSpan(s, a, b)
    ensures 0 <= a < b <= |s|
    ensures forall k | a <= k < b :: IsLinkChar(s[k])
    ensures IsTermChar(s[b - 1]) || s[b - 1] == ')'
  {
    var q :| TailStep(s, a, q, b);
    UnitsChars(s, a, q);
  }

  /** A newline is not a pattern character. */
  lemma NewlineNotLinkChar()
    ensures !IsLinkChar('\n')
  {
  }

  /**
   * The shape of every match: it starts, case-insensitively, with a prefix;
   * it contains only pattern characters (so no newline); and it ends with a
   * terminal character or a closing parenthesis.
   */
  lemma MatchShape(s: string, i: int, j: int) returns (n: nat)
    requires MatchSpan(s, i, j)
    ensures 0 <= i < j <= |s|
    ensures 0 < n <= j - i && IsPrefix(s[i..i + n])
    ensures forall k | i <= k < j :: IsLinkChar(s[k]) && s[k] != '\n'
    ensures IsTermChar(s[j - 1]) || s[j - 1] == ')'
  {
    n :| LinkStep(s, i, n, j);
    PrefixChars(s[i..i + n]);
    TailChars(s, i + n, j);
    forall k | i <= k < j
      ensures IsLinkChar(s[k])
    {
      if k < i + n {
        assert s[i..i + n][k - i] == s[k];
      }
    }
    NewlineNotLinkChar();
  }

  /** The same shape, for a string that is a link as a whole. */
  lemma LinkShape(m: string)
    requires IsLink(m)
    ensures exists n | 0 < n <= |m| :: IsPrefix(m[..n])
    ensures forall k | 0 <= k < |m| :: IsLinkChar(m[k])
    ensures '\n' !in m
    ensures 0 < |m| && (IsTermChar(m[|m| - 1]) || m[|m| - 1] == ')')
  {
    var n := MatchShape(m, 0, |m|);
    assert m[0..n] == m[..n];
  }

  // ----- Matching inside a text is matching the cut-out substring -----

  lemma UnitShift(s: string, i: nat, j: nat, a: int, b: int)
    requires i <= j <= |s|
    ensures UnitAtSpan(s[i..j], a, b) <==> 0 <= a && b <= j - i && UnitAtSpan(s, i + a, i + b)
    ensures TerminalAt(s[i..j], a, b) <==> 0 <= a && b <= j - i && TerminalAt(s, i + a, i + b)
  {
    var t := s[i..j];
    if 0 <= a && a < b <= j - i {
      assert forall k | a <= k < b :: t[k] == s[i + k];
      if GroupAt(s, i + a, i + b) {
        forall k | a < k < b - 1
          ensures IsBodyChar(t[k])
        {
          assert IsBodyChar(s[i + k]);
        }
      }
      if GroupAt(t, a, b) {
        forall k | i + a < k < i + b - 1
          ensures IsBodyChar(s[k])
        {
          assert IsBodyChar(t[k - i]);
        }
      }
    }
  }

  lemma {:induction false} UnitsShift(s: string, i: nat, j: nat, a: int, b: int)
    requires i <= j <= |s|
    ensures UnitsSpan(s[i..j], a, b) <==> 0 <= a && b <= j - i && UnitsSpan(s, i + a, i + b)
    decreases if a <= b then b - a else 0
  {
    var t := s[i..j];
    if UnitsSpan(t, a, b) && a != b {
      var c := FirstUnit(t, a, b);
      UnitShift(s, i, j, a, c);
      UnitsShift(s, i, j, c, b);
      assert UnitsStep(s, i + a, i + c, i + b);
    }
    if 0 <= a && b <= j - i && UnitsSpan(s, i + a, i + b) && a != b {
      var c := FirstUnit(s, i + a, i + b);
      UnitShift(s, i, j, a, c - i);
      UnitsShift(s, i, j, c - i, b);
      assert UnitsStep(t, a, c - i, b);
    }
  }

  lemma TailShift(s: string, i: nat, j: nat, a: int, b: int)
    requires i <= j <= |s|
    ensures TailSpan(s[i..j], a, b) <==> 0 <= a && b <= j - i && TailSpan(s, i + a, i + b)
  {
    var t := s[i..j];
    if TailSpan(t, a, b) {
      var q :| TailStep(t, a, q, b);
      UnitsShift(s, i, j, a, q);
      UnitShift(s, i, j, q, b);
      assert TailStep(s, i + a, i + q, i + b);
    }
    if 0 <= a && b <= j - i && TailSpan(s, i + a, i + b) {
      var q :| TailStep(s, i + a, q, i + b);
      UnitsChars(s, i + a, q);
      UnitsShift(s, i, j, a, q - i);
      UnitShift(s, i, j, q - i, b);
      assert TailStep(t, a, q - i, b);
    }
  }

  lemma SlicePrefix(s: string, i: nat, j: nat, n: nat)
    requires i + n <= j <= |s|
    ensures s[i..j][0..n] == s[i..i + n]
  {
    assert forall k | 0 <= k < n :: s[i..j][0..n][k] == s[i + k];
  }

  lemma MatchSpanToLink(s: string, i: nat, j: nat)
    requires i <= j <= |s| && MatchSpan(s, i, j)
    ensures IsLink(s[i..j])
  {
    var t := s[i..j];
    var n :| LinkStep(s, i, n, j);
    TailShift(s, i, j, n, j - i);
    SlicePrefix(s, i, j, n);
    assert LinkStep(t, 0, n, |t|);
  }

  lemma LinkToMatchSpan(s: string, i: nat, j: nat)
    requires i <= j <= |s| && IsLink(s[i..j])
    ensures MatchSpan(s, i, j)
  {
    var t := s[i..j];
    var n :| LinkStep(t, 0, n, |t|);
    TailShift(s, i, j, n, j - i);
    SlicePrefix(s, i, j, n);
    assert LinkStep(s, i, n, j);
  }

  /** `s[i..j]` is a match exactly when the substring `s[i..j]` is a link. */
  lemma MatchSpanIsLink(s: string, i: nat, j: nat)
    requires i <= j <= |s|
    ensures MatchSpan(s, i, j) <==> IsLink(s[i..j])
  {
    if MatchSpan(s, i, j) {
      MatchSpanToLink(s, i, j);
    }
    if IsLink(s[i..j]) {
      LinkToMatchSpan(s, i, j);
    }
  }
}
