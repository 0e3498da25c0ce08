/**
 * The scraper's main loop: parse every post of every fetched page, drop
 * the excluded links, and write the rest to `links.txt`, one per line,
 * while counting them.
 */
module LinkWriter {
  import opened Wrappers
  import opened LinkFilter
  import Forum
  import UrlScanner
  import UrlPattern

  /** The links of every present entry of `parsed`, entry after entry; absent entries add nothing. */
  function AllLinks(parsed: seq<Option<seq<string>>>): seq<string>
  {
    if parsed == [] then []
    else
      AllLinks(parsed[..|parsed| - 1]) +
      match parsed[|parsed| - 1]
      case None => []
      case Some(links) => links
  }

  /** No link is visited exactly when every entry is absent or empty. */
  lemma {:induction false} AllLinksEmpty(parsed: seq<Option<seq<string>>>)
    ensures AllLinks(parsed) == [] <==>
            forall k | 0 <= k < |parsed| :: parsed[k].None? || parsed[k].value == []
  {
    if parsed != [] {
      var init := parsed[..|parsed| - 1];
      AllLinksEmpty(init);
      assert forall k | 0 <= k < |init| :: init[k] == parsed[k];
    }
  }

  lemma {:induction false} AllLinksAppend(a: seq<Option<seq<string>>>, b: seq<Option<seq<string>>>)
    ensures AllLinks(a + b) == AllLinks(a) + AllLinks(b)
    decreases |b|
  {
    if b == [] {
      assert a + b == a;
    } else {
      assert (a + b)[..|a + b| - 1] == a + b[..|b| - 1];
      AllLinksAppend(a, b[..|b| - 1]);
    }
  }

  /** An absent entry is skipped: it contributes nothing wherever it stands. */
  lemma AllLinksSkipsNone(a: seq<Option<seq<string>>>, b: seq<Option<seq<string>>>)
    ensures AllLinks(a + [None] + b) == AllLinks(a + b)
  {
    var none: seq<Option<seq<string>>> := [None];
    AllLinksAppend(a + none, b);
    AllLinksAppend(a, none);
    AllLinksAppend(a, b);
    assert none[..0] == [];
  }

  /** A link is among all links exactly when some present entry holds it. */
  lemma {:induction false} AllLinksMembership(parsed: seq<Option<seq<string>>>, x: string)
    ensures x in AllLinks(parsed) <==>
            exists k | 0 <= k < |parsed| :: parsed[k].Some? && x in parsed[k].value
  {
    if parsed != [] {
      var init := parsed[..|parsed| - 1];
      AllLinksMembership(init, x);
      assert forall k | 0 <= k < |init| :: init[k] == parsed[k];
      if x in AllLinks(parsed) && x !in AllLinks(init) {
        assert parsed[|parsed| - 1].Some? && x in parsed[|parsed| - 1].value;
      }
    }
  }

  /** What `f.write(f'{link}\n')` leaves in the file, one call per written link. */
  function FileText(lines: seq<string>): string
  {
    if lines == [] then "" else FileText(lines[..|lines| - 1]) + lines[|lines| - 1] + "\n"
  }

  /**
   * The file is empty exactly when nothing was written, and otherwise ends
   * with a newline; each written link adds at least one character.
   */
  lemma {:induction false} FileTextShape(lines: seq<string>)
    ensures |FileText(lines)| >= |lines|
    ensures FileText(lines) == [] <==> lines == []
    ensures lines != [] ==> FileText(lines)[|FileText(lines)| - 1] == '\n'
  {
    if lines != [] {
      FileTextShape(lines[..|lines| - 1]);
    }
  }

  /** With newline-free links, the file holds exactly one line per written link. */
  lemma {:induction false} FileTextLines(lines: seq<string>)
    requires forall k | 0 <= k < |lines| :: '\n' !in lines[k]
    ensures multiset(FileText(lines))['\n'] == |lines|
  {
    if lines != [] {
      var init := lines[..|lines| - 1];
      var last := lines[|lines| - 1];
      FileTextLines(init);
      assert multiset(last)['\n'] == 0;
      assert multiset(FileText(init) + last + "\n") ==
             multiset(FileText(init)) + multiset(last) + multiset("\n");
    }
  }

  /**
   * `main`'s loop over the parsed posts, writing to `links.txt`. `lines` is the links in
   * the order they are written, `text` the file's contents and `count` the
   * counter printed at the end.
   */
  method WriteLinks(parsed: seq<Option<seq<string>>>) returns (lines: seq<string>, text: string, count: int)
    ensures lines == KeepAll(AllLinks(parsed))
    ensures text == FileText(lines)
    ensures count == |lines| <= |AllLinks(parsed)|
  {
    lines, text, count := [], "", 0;
    for i := 0 to |parsed|
      invariant lines == KeepAll(AllLinks(parsed[..i]))
      invariant text == FileText(lines)
      invariant count == |lines|
    {
      AllLinksSnoc(parsed, i);
      var thread := parsed[i];
      if thread.None? {
        assert AllLinks(parsed[..i]) + [] == AllLinks(parsed[..i]);
        continue;
      }
      var links := thread.value;
      ghost var before := lines;
      for j := 0 to |links|
        invariant lines == before + KeepAll(links[..j])
        invariant text == FileText(lines)
        invariant count == |lines|
      {
        var link := links[j];
        if ExtExcluded(link) {
          KeepAllSnocDropped(links, j);
          continue;
        }
        if DomExcluded(link) {
          KeepAllSnocDropped(links, j);
          continue;
        }
        if PatExcluded(link) {
          KeepAllSnocDropped(links, j);
          continue;
        }
        KeepAllSnocKept(links, j);
        FileTextSnoc(lines, link);
        lines := lines + [link];
        text := text + link + "\n";
        count := count + 1;
      }
      assert links[..|links|] == links;
      KeepAllAppend(AllLinks(parsed[..i]), links);
    }
    assert parsed[..|parsed|] == parsed;
  }

  lemma FileTextSnoc(lines: seq<string>, link: string)
    ensures FileText(lines + [link]) == FileText(lines) + link + "\n"
  {
    assert (lines + [link])[..|lines|] == lines;
  }

  lemma AllLinksSnoc(parsed: seq<Option<seq<string>>>, i: nat)
    requires i < |parsed|
    ensures AllLinks(parsed[..i + 1]) ==
            AllLinks(parsed[..i]) + match parsed[i] case None => [] case Some(links) => links
  {
    assert parsed[..i + 1][..i] == parsed[..i];
  }

  lemma KeepAllSnocKept(links: seq<string>, j: nat)
    requires j < |links| && Keep(links[j])
    ensures KeepAll(links[..j + 1]) == KeepAll(links[..j]) + [links[j]]
  {
    assert links[..j + 1][..j] == links[..j];
  }

  lemma KeepAllSnocDropped(links: seq<string>, j: nat)
    requires j < |links| && !Keep(links[j])
    ensures KeepAll(links[..j + 1]) == KeepAll(links[..j])
  {
    assert links[..j + 1][..j] == links[..j];
  }

  /**
   * The comprehension in `main` that parses every post: one entry per post,
   * in the order threads, pages and posts were fetched, none of them absent.
   */
  function Parsed(threads: seq<seq<Forum.Page>>): (parsed: seq<Option<seq<string>>>)
    ensures |parsed| == |Forum.Flatten(threads)|
    ensures forall k | 0 <= k < |parsed| :: parsed[k].Some?
  {
    var posts := Forum.Flatten(threads);
    seq(|posts|, k requires 0 <= k < |posts| => Some(UrlScanner.ParsePost(posts[k])))
  }

  /**
   * What the scraper writes for the fetched `threads`: no more links than
   * were parsed, each passing the checks.
   */
  function Output(threads: seq<seq<Forum.Page>>): (out: seq<string>)
    ensures |out| <= |AllLinks(Parsed(threads))|
    ensures forall k | 0 <= k < |out| :: Keep(out[k])
  {
    KeepAll(AllLinks(Parsed(threads)))
  }

  /** The body of `main` after the fetch: parse all posts, then run the loop. */
  method Run(threads: seq<seq<Forum.Page>>) returns (lines: seq<string>, text: string, count: int)
    ensures lines == Output(threads)
    ensures text == FileText(lines)
    ensures count == |lines|
  {
    var parsed := Parsed(threads);
    lines, text, count := WriteLinks(parsed);
  }

  /**
   * A link is written exactly when some fetched post contains it as a match
   * and it passes the exclusion checks.
   */
  lemma OutputMembership(threads: seq<seq<Forum.Page>>, x: string)
    ensures x in Output(threads) <==>
            Keep(x) && exists post | post in Forum.Flatten(threads) :: x in UrlScanner.ParsePost(post)
  {
    var parsed := Parsed(threads);
    KeepAllMembership(AllLinks(parsed), x);
    AllLinksMembership(parsed, x);
    ParsedMembership(threads, x);
  }

  /** A link is in some entry of `Parsed(threads)` exactly when some post's matches hold it. */
  lemma ParsedMembership(threads: seq<seq<Forum.Page>>, x: string)
    ensures (exists k | 0 <= k < |Parsed(threads)| :: Parsed(threads)[k].Some? && x in Parsed(threads)[k].value) <==>
            exists post | post in Forum.Flatten(threads) :: x in UrlScanner.ParsePost(post)
  {
    var posts := Forum.Flatten(threads);
    var parsed := Parsed(threads);
    assert forall k | 0 <= k < |parsed| :: parsed[k] == Some(UrlScanner.ParsePost(posts[k]));
    if exists post | post in posts :: x in UrlScanner.ParsePost(post) {
      var post :| post in posts && x in UrlScanner.ParsePost(post);
      var k :| 0 <= k < |posts| && posts[k] == post;
      assert parsed[k].Some? && x in parsed[k].value;
    }
  }

  /**
   * Every written link is in the pattern's language and holds no newline,
   * so the file has one line per link and the printed count is that number
   * of lines.
   */
  lemma OutputLines(threads: seq<seq<Forum.Page>>)
    ensures forall x | x in Output(threads) :: UrlPattern.IsLink(x) && '\n' !in x && Keep(x)
    ensures multiset(FileText(Output(threads)))['\n'] == |Output(threads)|
  {
    var out := Output(threads);
    forall x | x in out
      ensures UrlPattern.IsLink(x) && '\n' !in x && Keep(x)
    {
      OutputMembership(threads, x);
      var post :| post in Forum.Flatten(threads) && x in UrlScanner.ParsePost(post);
      UrlScanner.ParsePostLinks(post);
    }
    FileTextLines(out);
  }

  /**
   * `main` as a whole: gather the pages of every thread in `THREADS`, then
   * parse and write. `total` and `fetchPage` stand for the network reads.
   */
  method Scrape(total: string -> int, fetchPage: (string, int) -> Forum.Page)
    returns (lines: seq<string>, text: string, count: int)
    ensures lines == Output(Forum.FetchAll(Forum.THREADS, total, fetchPage))
    ensures text == FileText(lines)
    ensures count == |lines|
  {
    var threads := Forum.FetchAll(Forum.THREADS, total, fetchPage);
    lines, text, count := Run(threads);
  }

  /**
   * A link is written exactly when it passes the checks and is a match in a
   * post of some page `1..PageCount` of some thread of `THREADS`.
   */
  lemma ScrapeMembership(total: string -> int, fetchPage: (string, int) -> Forum.Page, x: string)
    ensures x in Output(Forum.FetchAll(Forum.THREADS, total, fetchPage)) <==>
            Keep(x) &&
            exists t, p, post | 0 <= t < |Forum.THREADS| && 1 <= p <= Forum.PageCount(total(Forum.THREADS[t])) &&
                                post in fetchPage(Forum.THREADS[t], p).posts ::
              x in UrlScanner.ParsePost(post)
  {
    var threads := Forum.FetchAll(Forum.THREADS, total, fetchPage);
    OutputMembership(threads, x);
    forall post
      ensures post in Forum.Flatten(threads) <==>
              exists t, p | 0 <= t < |Forum.THREADS| && 1 <= p <= Forum.PageCount(total(Forum.THREADS[t])) ::
                post in fetchPage(Forum.THREADS[t], p).posts
    {
      Forum.FetchAllMembership(Forum.THREADS, total, fetchPage, post);
    }
  }
}
