/**
 * The three exclusion checks the scraper applies to every link before
 * writing it, and the filter they induce on a sequence of links.
 */
module LinkFilter {
  import opened Wrappers
  import opened Ascii

  /** File extensions (really: substrings) whose links are dropped. */
  const EXCLUDE_EXT: seq<string> :=
    [".png", ".jpg", ".jpeg", ".mp4", ".webm", ".avi", ".bmp", ".htm", ".gif", ".dll", ".bms", ".aspx"]

  /** Domains (again substrings of the whole link) whose links are dropped. */
  const EXCLUDE_DOM: seq<string> :=
    ["imgur.com", "youtube.com", "steamusercontent.com", "wikia.com", "gyazo.com", "tinypic.com",
     "howtogeek.com", "files.facepunch.com", "imgbox.com", "youtu.be"]

  /** The text of the one exclusion pattern, `http://www$`, without its anchor. */
  const EXCLUDE_PAT_TEXT: string := "http://www"

  /**
   * `any(ext in link.lower() for ext in EXCLUDE_EXT)`. The shortest entry
   * has four characters, so only a link of at least four is dropped.
   */
  predicate ExtExcluded(link: string)
    ensures ExtExcluded(link) ==> 4 <= |link|
  {
    assert forall k | 0 <= k < |EXCLUDE_EXT| :: 4 <= |EXCLUDE_EXT[k]|;
    ContainsAny(Lower(link), EXCLUDE_EXT)
  }

  /**
   * `any(domain in link.lower() for domain in EXCLUDE_DOM)`. The shortest
   * entry, `youtu.be`, has eight characters.
   */
  predicate DomExcluded(link: string)
    ensures DomExcluded(link) ==> 8 <= |link|
  {
    assert forall k | 0 <= k < |EXCLUDE_DOM| :: 8 <= |EXCLUDE_DOM[k]|;
    ContainsAny(Lower(link), EXCLUDE_DOM)
  }

  /**
   * `re.match(r'http://www$', link, re.I)`: anchored at the start, the
   * literal text case-insensitively, then the end of the string, where
   * `$` also accepts a single newline that ends the string.
   */
  predicate PatExcluded(link: string)
    ensures PatExcluded(link) ==>
              (|link| == 10 || (|link| == 11 && link[10] == '\n')) &&
              Lower(link)[..10] == EXCLUDE_PAT_TEXT
  {
    Lower(link) == EXCLUDE_PAT_TEXT || Lower(link) == EXCLUDE_PAT_TEXT + "\n"
  }

  /**
   * A link is written when none of the three checks rejects it: links
   * shorter than four characters always are, `http://www` never is.
   */
  predicate Keep(link: string)
    ensures |link| < 4 ==> Keep(link)
    ensures Lower(link) == EXCLUDE_PAT_TEXT ==> !Keep(link)
  {
    !ExtExcluded(link) && !DomExcluded(link) && !PatExcluded(link)
  }

  /** All three checks look only at the lower-cased link, so case never matters. */
  lemma KeepIgnoresCase(link: string)
    ensures Keep(Lower(link)) <==> Keep(link)
  {
    LowerIdempotent(link);
  }

  // ----- The checks as the loop runs them, one `continue` after another -----

  datatype Check = ExtCheck | DomCheck | PatCheck

  /** The order in which the loop body runs the checks. */
  const SOURCE_ORDER: seq<Check> := [ExtCheck, DomCheck, PatCheck]

  predicate Rejects(c: Check, link: string)
  {
    match c
    case ExtCheck => ExtExcluded(link)
    case DomCheck => DomExcluded(link)
    case PatCheck => PatExcluded(link)
  }

  /** Run the checks in `order`; the first one that rejects the link ends the iteration. */
  function FirstRejection(link: string, order: seq<Check>): (r: Option<Check>)
    ensures r.Some? ==> r.value in order && Rejects(r.value, link)
    ensures r.None? <==> forall k | 0 <= k < |order| :: !Rejects(order[k], link)
  {
    if order == [] then None
    else if Rejects(order[0], link) then Some(order[0])
    else
      var r := FirstRejection(link, order[1..]);
      assert forall k | 1 <= k < |order| :: order[k] == order[1..][k - 1];
      r
  }

  /** Whatever the order of the checks, a link gets through all of them exactly when `Keep` holds. */
  lemma CheckOrderIrrelevant(link: string, order: seq<Check>)
    requires ExtCheck in order && DomCheck in order && PatCheck in order
    ensures FirstRejection(link, order).None? <==> Keep(link)
  {
    if FirstRejection(link, order).None? {
      assert Rejects(ExtCheck, link) ==> false;
      assert Rejects(DomCheck, link) ==> false;
      assert Rejects(PatCheck, link) ==> false;
    }
  }

  /** The loop's own order is one such order. */
  lemma SourceOrderKeeps(link: string)
    ensures FirstRejection(link, SOURCE_ORDER).None? <==> Keep(link)
  {
    CheckOrderIrrelevant(link, SOURCE_ORDER);
  }

  /**
   * The pattern check only ever rejects the bare text `http://www`, in any
   * case; the scanner's links never hold a newline, so the `$`-before-newline
   * case never arises for them.
   */
  lemma PatExcludedNoNewline(link: string)
    requires '\n' !in link
    ensures PatExcluded(link) <==> Lower(link) == EXCLUDE_PAT_TEXT
  {
    assert Lower(link) != EXCLUDE_PAT_TEXT + "\n" by {
      if |link| == 11 {
        assert Lower(link)[10] == LowerChar(link[10]);
        assert link[10] != '\n';
      }
    }
  }

  /**
   * Every excluded extension and domain contains a dot, so a link without
   * one is dropped only by the pattern check.
   */
  lemma KeepWithoutDot(link: string)
    requires '.' !in link
    ensures Keep(link) <==> !PatExcluded(link)
  {
    var l := Lower(link);
    assert '.' !in l;
    assert forall sub | sub in EXCLUDE_EXT || sub in EXCLUDE_DOM :: '.' in sub;
    forall sub | sub in EXCLUDE_EXT || sub in EXCLUDE_DOM
      ensures !Contains(l, sub)
    {
      var d :| 0 <= d < |sub| && sub[d] == '.';
      forall i: nat | i <= |l|
        ensures !OccursAt(l, sub, i)
      {
        if i + |sub| <= |l| {
          assert l[i..i + |sub|][d] == l[i + d] != '.';
        }
      }
    }
  }

  /** The `.htm` entry also drops every `.html` page. */
  lemma HtmlDropped(link: string)
    requires Contains(Lower(link), ".html")
    ensures !Keep(link)
  {
    var l := Lower(link);
    var i: nat :| i <= |l| && OccursAt(l, ".html", i);
    assert l[i..i + 4] == l[i..i + 5][..4];
    assert OccursAt(l, EXCLUDE_EXT[7], i);
  }

  /** The pattern check ignores case. */
  lemma BareWwwDropped()
    ensures !Keep("HTTP://WWW")
  {
  }

  // ----- The filter on a sequence of links -----

  /** The links the loop writes, out of `links`, in their order. */
  function KeepAll(links: seq<string>): (r: seq<string>)
    ensures |r| <= |links|
    ensures forall k | 0 <= k < |r| :: Keep(r[k])
  {
    if links == [] then []
    else KeepAll(links[..|links| - 1]) + (if Keep(links[|links| - 1]) then [links[|links| - 1]] else [])
  }

  lemma {:induction false} KeepAllAppend(a: seq<string>, b: seq<string>)
    ensures KeepAll(a + b) == KeepAll(a) + KeepAll(b)
    decreases |b|
  {
    if b != [] {
      var b' := b[..|b| - 1];
      assert (a + b)[..|a + b| - 1] == a + b';
      KeepAllAppend(a, b');
    } else {
      assert a + b == a;
    }
  }

  /** A link is written exactly when it is among the links and passes the checks. */
  lemma {:induction false} KeepAllMembership(links: seq<string>, x: string)
    ensures x in KeepAll(links) <==> x in links && Keep(x)
  {
    if links != [] {
      var init := links[..|links| - 1];
      KeepAllMembership(init, x);
      assert links == init + [links[|links| - 1]];
    }
  }

  /** Duplicates are kept: each kept link is written as often as it occurs. */
  lemma {:induction false} KeepAllCounts(links: seq<string>, x: string)
    ensures multiset(KeepAll(links))[x] == if Keep(x) then multiset(links)[x] else 0
  {
    if links != [] {
      var init := links[..|links| - 1];
      KeepAllCounts(init, x);
      SnocSplit(links);
      CountSnoc(init, links[|links| - 1], x);
      if Keep(links[|links| - 1]) {
        CountSnoc(KeepAll(init), links[|links| - 1], x);
      }
    }
  }

  /** A non-empty sequence is its front followed by its last element. */
  lemma SnocSplit(s: seq<string>)
    requires s != []
    ensures s == s[..|s| - 1] + [s[|s| - 1]]
  {
  }

  /** Appending one element adds one to its count and nothing to any other. */
  lemma CountSnoc(s: seq<string>, y: string, x: string)
    ensures multiset(s + [y])[x] == multiset(s)[x] + if y == x then 1 else 0
  {
    assert multiset(s + [y]) == multiset(s) + multiset{y};
  }

  /** `a` is `b` with some elements left out, the rest in their order. */
  ghost predicate IsSubsequence(a: seq<string>, b: seq<string>)
    decreases |b|
  {
    if a == [] then true
    else if b == [] then false
    else (a[|a| - 1] == b[|b| - 1] && IsSubsequence(a[..|a| - 1], b[..|b| - 1]))
         || IsSubsequence(a, b[..|b| - 1])
  }

  /** The written links keep the order in which they were found. */
  lemma {:induction false} KeepAllSubsequence(links: seq<string>)
    ensures IsSubsequence(KeepAll(links), links)
  {
    if links != [] {
      var init := links[..|links| - 1];
      var last := links[|links| - 1];
      KeepAllSubsequence(init);
      var r := KeepAll(links);
      if Keep(last) {
        assert r[..|r| - 1] == KeepAll(init);
      } else {
        assert r == KeepAll(init);
      }
    }
  }

  /** Filtering twice drops nothing more. */
  lemma {:induction false} KeepAllIdempotent(links: seq<string>)
    ensures KeepAll(KeepAll(links)) == KeepAll(links)
  {
    if links != [] {
      var init := links[..|links| - 1];
      var last := links[|links| - 1];
      KeepAllIdempotent(init);
      assert links[..|links| - 1] == init;
      if Keep(last) {
        assert KeepAll(links) == KeepAll(init) + [last];
        KeepAllAppend(KeepAll(init), [last]);
        assert [last][..0] == [];
        assert KeepAll([last]) == [last];
      } else {
        assert KeepAll(links) == KeepAll(init);
      }
    }
  }
}
