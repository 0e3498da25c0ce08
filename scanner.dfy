/**
 * `parse_post`: `re.findall(PATTERN, post['Message'], re.I | re.M)` as a
 * hand-written scanner for this one pattern, proved against the declarative
 * grammar of UrlPattern.
 *
 * After a prefix, the repeated `(group | body)` is deterministic. A group
 * starts with '(' and a body character never is '('. A group ends at the
 * first ')', because ')' is not a body character either. So the units after
 * a prefix form one chain. The greedy star takes all of it, and backtracking
 * gives back units until the last one is a terminal unit. The scanner
 * computes that end directly: the end of the last terminal unit of the chain.
 * Neither class contains a newline, so `re.M` changes nothing here.
 */
module UrlScanner {
  import opened Wrappers
  import opened Ascii
  import opened UrlPattern
  import Forum

  /** The position of one match in the scanned text: `text[start..end]`. */
  datatype Span = Span(start: nat, end: nat)

  /** The end of a run of body characters starting at `a`. */
  function BodyRunEnd(s: string, a: nat): (b: nat)
    requires a <= |s|
    ensures a <= b <= |s|
    ensures forall k | a <= k < b :: IsBodyChar(s[k])
    ensures b < |s| ==> !IsBodyChar(s[b])
    decreases |s| - a
  {
    if a < |s| && IsBodyChar(s[a]) then BodyRunEnd(s, a + 1) else a
  }

  /** The end of the unit (a body character or a group) at `p`, if there is one. */
  function UnitAt(s: string, p: nat): (r: Option<nat>)
    requires p <= |s|
    ensures r.Some? ==> p < r.value <= |s| && UnitAtSpan(s, p, r.value)
  {
    if p < |s| && IsBodyChar(s[p]) then Some(p + 1)
    else if p < |s| && s[p] == '(' then
      var q := BodyRunEnd(s, p + 1);
      if q < |s| && s[q] == ')' then Some(q + 1) else None
    else None
  }

  /** A unit at `p` is the one `UnitAt` finds: at most one unit starts at a position. */
  lemma UnitAtComplete(s: string, p: nat, e: nat)
    requires UnitAtSpan(s, p, e)
    ensures UnitAt(s, p) == Some(e)
  {
    if !(e == p + 1 && IsBodyChar(s[p])) {
      assert GroupAt(s, p, e);
      assert !IsBodyChar(s[p]) && !IsBodyChar(s[e - 1]);
      assert BodyRunEnd(s, p + 1) == e - 1;
    }
  }

  /** The prefix alternative `PREFIXES[j]` occurs, in any case, at position `i`. */
  predicate PrefixAt(s: string, i: nat, j: nat)
    requires j < |PREFIXES|
  {
    i + |PREFIXES[j]| <= |s| && PrefixIndex(s[i..i + |PREFIXES[j]|], j)
  }

  /** The first prefix alternative, from index `k` of PREFIXES on, that matches at `i`. */
  function PrefixFrom(s: string, i: nat, k: nat): (r: Option<nat>)
    requires i <= |s| && k <= |PREFIXES|
    ensures r.Some? ==> 0 < r.value && i + r.value <= |s|
    ensures r.None? ==> forall j | k <= j < |PREFIXES| ::
                          !PrefixAt(s, i, j)
    decreases |PREFIXES| - k
  {
    if k == |PREFIXES| then None
    else if PrefixAt(s, i, k) then
      Some(|PREFIXES[k]|)
    else PrefixFrom(s, i, k + 1)
  }

  /** What `PrefixFrom` reports is one of the prefix alternatives. */
  lemma PrefixFromSound(s: string, i: nat, k: nat)
    requires i <= |s| && k <= |PREFIXES| && PrefixFrom(s, i, k).Some?
    ensures IsPrefix(s[i..i + PrefixFrom(s, i, k).value])
    decreases |PREFIXES| - k
  {
    if PrefixAt(s, i, k) {
      var n := |PREFIXES[k]|;
      assert PrefixFrom(s, i, k) == Some(n);
      PrefixIndexIsPrefix(s[i..i + n], k);
    } else {
      assert PrefixFrom(s, i, k) == PrefixFrom(s, i, k + 1);
      PrefixFromSound(s, i, k + 1);
    }
  }

  lemma PrefixIndexIsPrefix(p: string, j: int)
    requires PrefixIndex(p, j)
    ensures IsPrefix(p)
  {
  }

  /** The length of the prefix at `i`, if one is there. */
  function PrefixLen(s: string, i: nat): (r: Option<nat>)
    requires i <= |s|
    ensures r.Some? ==> 0 < r.value && i + r.value <= |s|
  {
    PrefixFrom(s, i, 0)
  }

  /** A prefix `PrefixLen` reports is one of the six alternatives, in any case. */
  lemma PrefixLenSound(s: string, i: nat)
    requires i <= |s| && PrefixLen(s, i).Some?
    ensures IsPrefix(s[i..i + PrefixLen(s, i).value])
  {
    PrefixFromSound(s, i, 0);
  }

  /** No prefix alternative is a prefix of another one. */
  lemma PrefixesPrefixFree(j1: int, j2: int)
    requires 0 <= j1 < |PREFIXES| && 0 <= j2 < |PREFIXES|
    requires |PREFIXES[j1]| <= |PREFIXES[j2]| && PREFIXES[j1] == PREFIXES[j2][..|PREFIXES[j1]|]
    ensures j1 == j2
  {
    var a, b := PREFIXES[j1], PREFIXES[j2];
    assert a[0] == b[0] && a[3] == b[3];
    if |a| > 4 {
      assert a[4] == b[4];
    }
  }

  /** Two prefixes at the same position, one no longer than the other, are the same. */
  lemma PrefixesNested(s: string, i: nat, m: nat, n: nat)
    requires m <= n && i + n <= |s|
    requires IsPrefix(s[i..i + m]) && IsPrefix(s[i..i + n])
    ensures m == n
  {
    var j1 :| PrefixIndex(s[i..i + m], j1);
    var j2 :| PrefixIndex(s[i..i + n], j2);
    var a, b := Lower(s[i..i + m]), Lower(s[i..i + n]);
    assert forall k | 0 <= k < m :: a[k] == LowerChar(s[i + k]) == b[k];
    assert a == b[..|a|];
    PrefixesPrefixFree(j1, j2);
  }

  /** The prefix at a position is unique, and `PrefixLen` finds it. */
  lemma PrefixLenComplete(s: string, i: nat, n: nat)
    requires i + n <= |s| && IsPrefix(s[i..i + n])
    ensures PrefixLen(s, i) == Some(n)
  {
    var j :| PrefixIndex(s[i..i + n], j);
    var r := PrefixLen(s, i);
    assert r.Some?;
    var m := r.value;
    PrefixLenSound(s, i);
    if m <= n {
      PrefixesNested(s, i, m, n);
    } else {
      PrefixesNested(s, i, n, m);
    }
  }

  /**
   * Walk the unit chain from `p`, remembering in `last` the end of the most
   * recent terminal unit; the result is the end of the last one.
   */
  function ScanTail(s: string, p: nat, last: Option<nat>): (r: Option<nat>)
    requires p <= |s|
    requires last.Some? ==> last.value <= p
    ensures r.Some? ==> r.value <= |s|
    ensures r.Some? && last.None? ==> p < r.value
    ensures last.Some? ==> r.Some? && last.value <= r.value
    decreases |s| - p
  {
    match UnitAt(s, p)
    case None => last
    case Some(e) => ScanTail(s, e, if TerminalAt(s, p, e) then Some(e) else last)
  }

  /** The match at `i` once the prefix there is known: the tail scan after the prefix. */
  function MatchAfter(s: string, i: nat, prefix: Option<nat>): (r: Option<nat>)
    requires prefix.Some? ==> 0 < prefix.value && i + prefix.value <= |s|
    ensures r.Some? ==> i < r.value <= |s|
    ensures prefix.Some? ==> r == ScanTail(s, i + prefix.value, None)
  {
    match prefix
    case None => None
    case Some(n) => ScanTail(s, i + n, None)
  }

  /**
   * The match of the pattern that starts exactly at `i`, if any: the prefix,
   * then the tail up to the end of its last terminal unit.
   */
  function MatchAt(s: string, i: nat): (r: Option<nat>)
    requires i <= |s|
    ensures r.Some? ==> i < r.value <= |s|
  {
    MatchAfter(s, i, PrefixLen(s, i))
  }

  /** `re.findall` from position `i`: the leftmost match, then go on after it. */
  function FindAllFrom(s: string, i: nat): (r: seq<Span>)
    requires i <= |s|
    ensures forall k | 0 <= k < |r| :: i <= r[k].start < r[k].end <= |s|
    decreases |s| - i
  {
    if i == |s| then []
    else match MatchAt(s, i)
      case Some(e) => [Span(i, e)] + FindAllFrom(s, e)
      case None => FindAllFrom(s, i + 1)
  }

  function FindAll(s: string): (r: seq<Span>)
    ensures forall k | 0 <= k < |r| :: r[k].start < r[k].end <= |s|
  {
    FindAllFrom(s, 0)
  }

  /**
   * `parse_post`: the matched substrings of the post's message, in order.
   * There is one link per findall span, and each is a non-empty piece of
   * the message occurring where its span starts.
   */
  function ParsePost(post: Forum.Post): (links: seq<string>)
    ensures |links| == |FindAll(post.message)|
    ensures forall k | 0 <= k < |links| ::
              links[k] != [] && OccursAt(post.message, links[k], FindAll(post.message)[k].start)
  {
    var spans := FindAll(post.message);
    seq(|spans|, k requires 0 <= k < |spans| => post.message[spans[k].start..spans[k].end])
  }

  // ----- What findall means for this pattern -----

  /** No match of the pattern starts anywhere in `[a, b)`. */
  ghost predicate NoMatchIn(s: string, a: nat, b: nat)
  {
    forall p, j | a <= p < b :: !MatchSpan(s, p, j)
  }

  /** `s[i..e]` is a match and no longer match starts at `i`. */
  ghost predicate LongestAt(s: string, i: nat, e: nat)
  {
    MatchSpan(s, i, e) && forall j | e < j :: !MatchSpan(s, i, j)
  }

  /**
   * `r` is what findall yields from position `i`: the leftmost match, as
   * long as it goes, then the same again from where it ends. Nothing
   * matches in the gaps or after the last match.
   */
  ghost predicate IsFindAll(s: string, i: nat, r: seq<Span>)
    decreases |r|
  {
    i <= |s| &&
    if r == [] then NoMatchIn(s, i, |s|)
    else
      i <= r[0].start && NoMatchIn(s, i, r[0].start) &&
      LongestAt(s, r[0].start, r[0].end) &&
      IsFindAll(s, r[0].end, r[1..])
  }

  // ----- The scanner is correct -----

  /** Appending a unit to a run of units. */
  lemma {:induction false} UnitsSnoc(s: string, q: nat, p: nat, e: nat)
    requires q <= p && UnitsSpan(s, q, p) && UnitAtSpan(s, p, e)
    ensures UnitsSpan(s, q, e)
    decreases p - q
  {
    if q == p {
      assert UnitsSpan(s, e, e);
      assert UnitsStep(s, p, e, e);
    } else {
      var c := FirstUnit(s, q, p);
      UnitsSnoc(s, c, p, e);
      assert UnitsStep(s, q, c, e);
    }
  }

  /** Every end `ScanTail` reports closes a tail that starts at `q`. */
  lemma {:induction false} ScanTailSound(s: string, q: nat, p: nat, last: Option<nat>)
    requires q <= p <= |s|
    requires UnitsSpan(s, q, p)
    requires last.Some? ==> q < last.value <= p && TailSpan(s, q, last.value)
    ensures ScanTail(s, p, last).Some? ==>
              q < ScanTail(s, p, last).value && TailSpan(s, q, ScanTail(s, p, last).value)
    decreases |s| - p
  {
    match UnitAt(s, p)
    case None =>
    case Some(e) =>
      UnitsSnoc(s, q, p, e);
      if TerminalAt(s, p, e) {
        assert TailStep(s, q, p, e);
      }
      ScanTailSound(s, q, e, if TerminalAt(s, p, e) then Some(e) else last);
  }

  /** A tail `s[p..j]`, units up to `q` and then a terminal unit, is reached by the scan. */
  lemma {:induction false} ScanTailReaches(s: string, p: nat, q: nat, j: nat, last: Option<nat>)
    requires p <= q && UnitsSpan(s, p, q) && TerminalAt(s, q, j) && j <= |s|
    requires last.Some? ==> last.value <= p
    ensures ScanTail(s, p, last).Some? && j <= ScanTail(s, p, last).value
    decreases q - p
  {
    if p == q {
      UnitAtComplete(s, p, j);
    } else {
      var c := FirstUnit(s, p, q);
      UnitAtComplete(s, p, c);
      ScanTailReaches(s, c, q, j, if TerminalAt(s, p, c) then Some(c) else last);
    }
  }

  /** The tail scan after a match's prefix reaches at least the match's end. */
  lemma ScanAfterPrefixReaches(s: string, i: nat, n: nat, j: int)
    requires LinkStep(s, i, n, j)
    ensures ScanTail(s, i + n, None).Some? && j <= ScanTail(s, i + n, None).value
  {
    var q :| TailStep(s, i + n, q, j);
    ScanTailReaches(s, i + n, q, j, None);
  }

  /** Every match starting at `i` ends no later than the one `MatchAt` finds. */
  lemma MatchAtMaximal(s: string, i: nat, j: int)
    requires i <= |s| && MatchSpan(s, i, j)
    ensures MatchAt(s, i).Some? && j <= MatchAt(s, i).value
  {
    var n :| LinkStep(s, i, n, j);
    PrefixLenComplete(s, i, n);
    ScanAfterPrefixReaches(s, i, n, j);
    MatchAtAfterPrefix(s, i, n);
  }

  /** Once the prefix at `i` is known, `MatchAt` is the tail scan after it. */
  lemma MatchAtAfterPrefix(s: string, i: nat, n: nat)
    requires i <= |s| && PrefixLen(s, i) == Some(n)
    ensures MatchAt(s, i) == ScanTail(s, i + n, None)
  {
    assert MatchAt(s, i) == MatchAfter(s, i, Some(n));
  }

  /** What `MatchAt` finds is a match. */
  lemma MatchAtSound(s: string, i: nat)
    requires i <= |s| && MatchAt(s, i).Some?
    ensures MatchSpan(s, i, MatchAt(s, i).value)
  {
    var n := PrefixLen(s, i).value;
    PrefixLenSound(s, i);
    MatchAtAfterPrefix(s, i, n);
    ScanAfterPrefixSound(s, i, n);
  }

  /** A prefix followed by what the tail scan finds is a match. */
  lemma ScanAfterPrefixSound(s: string, i: nat, n: nat)
    requires 0 < n && i + n <= |s| && IsPrefix(s[i..i + n])
    requires ScanTail(s, i + n, None).Some?
    ensures MatchSpan(s, i, ScanTail(s, i + n, None).value)
  {
    assert UnitsSpan(s, i + n, i + n);
    ScanTailSound(s, i + n, i + n, None);
    assert LinkStep(s, i, n, ScanTail(s, i + n, None).value);
  }

  /** `MatchAt` finds the longest match at `i`, and finds none exactly when there is none. */
  lemma MatchAtCorrect(s: string, i: nat)
    requires i <= |s|
    ensures MatchAt(s, i).Some? ==> LongestAt(s, i, MatchAt(s, i).value)
    ensures MatchAt(s, i).None? ==> forall j :: !MatchSpan(s, i, j)
  {
    forall j | MatchSpan(s, i, j)
      ensures MatchAt(s, i).Some? && j <= MatchAt(s, i).value
    {
      MatchAtMaximal(s, i, j);
    }
    if MatchAt(s, i).Some? {
      MatchAtSound(s, i);
    }
  }

  /** A longest match at `i`, followed by findall from its end, is findall from `i`. */
  lemma IsFindAllCons(s: string, i: nat, e: nat, rest: seq<Span>)
    requires i < e && LongestAt(s, i, e) && IsFindAll(s, e, rest)
    ensures IsFindAll(s, i, [Span(i, e)] + rest)
  {
    var r := [Span(i, e)] + rest;
    assert r[0] == Span(i, e) && r[1..] == rest;
    assert NoMatchIn(s, i, i);
  }

  /** Where no match starts at `i`, findall from `i` is findall from `i + 1`. */
  lemma IsFindAllSkip(s: string, i: nat, r: seq<Span>)
    requires i < |s|
    requires forall j :: !MatchSpan(s, i, j)
    requires IsFindAll(s, i + 1, r)
    ensures IsFindAll(s, i, r)
  {
    if r != [] {
      assert NoMatchIn(s, i, r[0].start);
    } else {
      assert NoMatchIn(s, i, |s|);
    }
  }

  /** The scanner yields exactly what findall yields. */
  lemma {:induction false} FindAllFromCorrect(s: string, i: nat)
    requires i <= |s|
    ensures IsFindAll(s, i, FindAllFrom(s, i))
    decreases |s| - i
  {
    if i == |s| {
      assert NoMatchIn(s, i, |s|);
    } else {
      match MatchAt(s, i)
      case Some(e) =>
        FindAllFromCorrect(s, e);
        FindAllFromMatch(s, i, e);
      case None =>
        FindAllFromCorrect(s, i + 1);
        FindAllFromNoMatch(s, i);
    }
  }

  /** Findall from a position where `MatchAt` finds a match. */
  lemma FindAllFromMatch(s: string, i: nat, e: nat)
    requires i < |s| && MatchAt(s, i) == Some(e) && IsFindAll(s, e, FindAllFrom(s, e))
    ensures IsFindAll(s, i, FindAllFrom(s, i))
  {
    MatchAtCorrect(s, i);
    IsFindAllCons(s, i, e, FindAllFrom(s, e));
  }

  /** Findall from a position where `MatchAt` finds no match. */
  lemma FindAllFromNoMatch(s: string, i: nat)
    requires i < |s| && MatchAt(s, i).None? && IsFindAll(s, i + 1, FindAllFrom(s, i + 1))
    ensures IsFindAll(s, i, FindAllFrom(s, i))
  {
    MatchAtCorrect(s, i);
    IsFindAllSkip(s, i, FindAllFrom(s, i + 1));
  }

  lemma FindAllCorrect(s: string)
    ensures IsFindAll(s, 0, FindAll(s))
  {
    FindAllFromCorrect(s, 0);
  }

  /** The findall semantics determines its result: only one sequence satisfies it. */
  lemma {:induction false} FindAllUnique(s: string, i: nat, r1: seq<Span>, r2: seq<Span>)
    requires IsFindAll(s, i, r1) && IsFindAll(s, i, r2)
    ensures r1 == r2
    decreases |r1|
  {
    if r1 == [] || r2 == [] {
      assert r1 == [] && r2 == [];
    } else {
      var a, b := r1[0], r2[0];
      assert a.start == b.start;
      assert a.end == b.end;
      FindAllUnique(s, a.end, r1[1..], r2[1..]);
      assert r1 == [a] + r1[1..];
      assert r2 == [b] + r2[1..];
    }
  }

  /** Findall's matches lie at increasing, non-overlapping positions and are all matches. */
  lemma {:induction false} FindAllOrdered(s: string, i: nat, r: seq<Span>)
    requires IsFindAll(s, i, r)
    ensures forall k | 0 <= k < |r| :: i <= r[k].start && MatchSpan(s, r[k].start, r[k].end)
    ensures forall k | 0 <= k < |r| - 1 :: r[k].end <= r[k + 1].start
    decreases |r|
  {
    if r != [] {
      FindAllOrdered(s, r[0].end, r[1..]);
      assert forall k | 1 <= k < |r| :: r[k] == r[1..][k - 1];
    }
  }

  /**
   * Every link `parse_post` returns is the message's text at a span, the
   * spans increase without overlapping, and every link is in the pattern's
   * language, has no newline and ends with a terminal character or ')'.
   * The result is empty exactly when the message contains no match at all.
   */
  lemma ParsePostLinks(post: Forum.Post)
    ensures var spans := FindAll(post.message);
            var links := ParsePost(post);
            |links| == |spans| &&
            (forall k | 0 <= k < |spans| - 1 :: spans[k].end <= spans[k + 1].start) &&
            forall k | 0 <= k < |links| ::
              links[k] == post.message[spans[k].start..spans[k].end] &&
              IsLink(links[k]) && '\n' !in links[k] &&
              (IsTermChar(links[k][|links[k]| - 1]) || links[k][|links[k]| - 1] == ')')
    ensures ParsePost(post) == [] <==> NoMatchIn(post.message, 0, |post.message|)
  {
    var s := post.message;
    var spans := FindAll(s);
    FindAllCorrect(s);
    FindAllOrdered(s, 0, spans);
    var links := ParsePost(post);
    forall k | 0 <= k < |links|
      ensures IsLink(links[k]) && '\n' !in links[k]
      ensures IsTermChar(links[k][|links[k]| - 1]) || links[k][|links[k]| - 1] == ')'
    {
      SpanIsLink(s, spans[k]);
    }
  }

  /** The text at a span that is a match is a word of the language, of the right shape. */
  lemma SpanIsLink(s: string, sp: Span)
    requires sp.start <= sp.end <= |s| && MatchSpan(s, sp.start, sp.end)
    ensures var m := s[sp.start..sp.end];
            IsLink(m) && '\n' !in m && 0 < |m| && (IsTermChar(m[|m| - 1]) || m[|m| - 1] == ')')
  {
    MatchSpanToLink(s, sp.start, sp.end);
    LinkShape(s[sp.start..sp.end]);
  }
}
