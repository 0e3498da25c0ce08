# Facepunch link scraper, modelled in Dafny

`link_scrapper.py` fetches seven Facepunch forum threads, one JSON page of
30 items at a time. It extracts every URL from every post with one regular
expression, drops links to images, videos and a list of media domains, and
writes the remaining links to `links.txt`, one per line, counting them as it
goes.

This project models the deterministic core of that script:

- `Forum` (`forum.dfy`) holds the page count `ceil(Total / 30)` of
  `thread_count` and the page numbers `1..count` that `fetch_thread`
  requests. It also holds the order in which `asyncio.gather` returns
  results: the order of its arguments, whatever order the requests
  complete in. Last, it flattens threads, pages and posts.
- `UrlPattern` (`pattern.dfy`) defines the language of the URL pattern
  declaratively, as positions in the text. A match is a prefix, then any
  number of units, then one terminal unit.
  - The prefixes are `http://`, `https://`, `ftp://`, `file://`, `www.` and
    `ftp.`, in any case.
  - A unit is a body character or a parenthesised run of body characters.
  - A terminal unit is a terminal character or such a group.
- `UrlScanner` (`scanner.dfy`) holds `parse_post`, a hand-written scanner
  for `re.findall` with this pattern. It is proved equal to the findall
  semantics: the leftmost match, the longest one at its start, then the
  same again after its end, with no match in the gaps. That semantics is
  proved to have only one solution.
- `LinkFilter` (`filter.dfy`) holds the three exclusion checks, the proof
  that their order does not matter, and the order-preserving filter they
  induce.
- `LinkWriter` (`writer.dfy`) holds the loop of `main`. It is an imperative
  method with a counter, the sequence of written links and the file text.
  It is proved equal to the filter applied to all parsed links. It also
  holds the end-to-end statement: a link is written exactly when some
  fetched post contains it as a match and it passes the checks.
- `Ascii` (`ascii.dfy`) holds lower-casing and Python's substring `in`.
- `Wrappers` (`wrappers.dfy`) holds the `Option` type for the entries that
  `main` skips when they are `None`.

`re.findall` returns whole matches here, because the pattern has only
non-capturing groups. `re.M` changes nothing, because the pattern has no
`^` or `$`. Neither character class contains a newline.

The network is not modelled. The total item count and the page fetch are
parameters of `Forum.FetchThread`, `Forum.FetchAll` and
`LinkWriter.Scrape`; `LinkWriter.Run` takes the fetched threads as its input.

## Model

| member | source | states |
|---|---|---|
| Forum.PageCount | link_scrapper.py:26 | 30 pages of items cover the total, and one page fewer would not: the ceiling of `Total / 30` |
| Forum.PageCountLeast | link_scrapper.py:26 | the page count is the least `n` with `30 * n >= Total` |
| Forum.PageCountExamples | link_scrapper.py:26 | 0 items give 0 pages, 30 give 1, 31 give 2 (and 1, 35 and 60 give 1, 2 and 2) |
| Forum.PageNumbers | link_scrapper.py:44 | `range(1, count + 1)`: `count` numbers (none for `count <= 0`), position `k` holds `k + 1`, strictly increasing |
| Forum.PageNumbersExact | link_scrapper.py:44 | a page is requested exactly when `1 <= p <= count` |
| Forum.FetchThread | link_scrapper.py:40-46 | one result per page number, in request order: position `k` is page `k + 1` |
| Forum.FetchAll | link_scrapper.py:56 | one result per thread id, in argument order; each holds that thread's pages in page order |
| Forum.ThreadPosts | link_scrapper.py:58 | every post of every page of a thread is in its post list, as often as the page holds it |
| Forum.Flatten | link_scrapper.py:58 | every post of every page of every thread is in the flat list, as often as the page holds it |
| Forum.FlattenAppend | link_scrapper.py:58 | flattening distributes over concatenation of thread lists, so threads stay in order |
| Forum.FlattenLength | link_scrapper.py:58 | the flat list has one entry per post of every page of every thread |
| Forum.FlattenMembership | link_scrapper.py:58 | a post is in the flat list exactly when some page of some thread holds it |
| Forum.FetchAllMembership | link_scrapper.py:56-58 | a post is gathered exactly when it is on one of the requested pages `1..count` of one of the threads |
| Ascii.Lower | link_scrapper.py:67 | lower-casing keeps the length and changes exactly the letters `A`-`Z`, each to its lower-case letter |
| Ascii.Contains | link_scrapper.py:67 | a contained string is no longer than the text; the empty string and the text itself are always contained |
| UrlPattern.LinkShape | link_scrapper.py:14 | every word of the pattern's language starts with a prefix, holds only pattern characters and no newline, and ends with a terminal character or `)` |
| UrlPattern.MatchSpanIsLink | link_scrapper.py:14 | a match at positions `i..j` of a text is exactly a word of the language sliced out of it |
| UrlScanner.BodyRunEnd | link_scrapper.py:14 | the end of the longest run of body characters from a position |
| UrlScanner.UnitAt | link_scrapper.py:14 | any unit it reports (a body character or a parenthesised group) is one of the pattern's units |
| UrlScanner.UnitAtComplete | link_scrapper.py:14 | at most one unit starts at a position, and `UnitAt` finds it |
| UrlScanner.PrefixLen | link_scrapper.py:14 | a prefix length it reports is positive and stays inside the text |
| UrlScanner.PrefixLenSound | link_scrapper.py:14 | a prefix it reports is one of the six alternatives, in any case |
| UrlScanner.PrefixesPrefixFree | link_scrapper.py:14 | no prefix alternative begins another, so the alternation's order does not matter |
| UrlScanner.PrefixLenComplete | link_scrapper.py:14 | the prefix at a position is unique, and `PrefixLen` finds it |
| UrlScanner.ScanTail | link_scrapper.py:14 | the scan stays inside the text and never ends before the last terminal unit seen |
| UrlScanner.MatchAt | link_scrapper.py:14 | a match it reports is non-empty and inside the text |
| UrlScanner.MatchAtCorrect | link_scrapper.py:14 | `MatchAt` gives the longest match at a position, what greedy matching with backtracking yields; it gives none exactly when no match starts there |
| UrlScanner.FindAllFrom | link_scrapper.py:50 | every reported span is non-empty, inside the text and starts after the scan's start |
| UrlScanner.FindAllFromCorrect | link_scrapper.py:50 | the scanner's result satisfies the findall semantics: leftmost, longest, non-overlapping, nothing matched in the gaps |
| UrlScanner.FindAllCorrect | link_scrapper.py:50 | the same from the start of the message |
| UrlScanner.FindAllUnique | link_scrapper.py:50 | only one list of spans satisfies the findall semantics |
| UrlScanner.FindAllOrdered | link_scrapper.py:50 | findall's spans are matches at increasing, non-overlapping positions |
| UrlScanner.ParsePost | link_scrapper.py:48-52 | one link per findall span, each non-empty and occurring in the message where its span starts |
| UrlScanner.ParsePostLinks | link_scrapper.py:48-52 | each link is the message's text at its span, and the spans do not overlap. Each link is in the pattern's language, holds no newline and ends with a terminal character or `)`. The result is empty exactly when the message has no match |
| LinkFilter.ExtExcluded | link_scrapper.py:67 | the extension check drops only links of at least four characters, the length of the shortest entry |
| LinkFilter.DomExcluded | link_scrapper.py:69 | the domain check drops only links of at least eight characters, the length of `youtu.be` |
| LinkFilter.PatExcluded | link_scrapper.py:72 | the pattern check drops only a link of ten characters, or of eleven ending in a newline (where `$` also matches), whose first ten characters are `http://www` in some case |
| LinkFilter.Keep | link_scrapper.py:67-73 | a link shorter than four characters is always written; `http://www`, in any case, never is |
| LinkFilter.KeepIgnoresCase | link_scrapper.py:67-72 | a link and its lower-cased form are written alike |
| LinkFilter.FirstRejection | link_scrapper.py:67-73 | the check it stops at is in the order and rejects the link; it stops at none exactly when no check rejects |
| LinkFilter.CheckOrderIrrelevant | link_scrapper.py:67-73 | in any order that runs all three checks, a link gets through exactly when it passes all three |
| LinkFilter.SourceOrderKeeps | link_scrapper.py:67-73 | the loop's order (extension, domain, pattern) writes exactly the links that pass all three |
| LinkFilter.PatExcludedNoNewline | link_scrapper.py:18 | for a newline-free link, `re.match('http://www$', link, re.I)` holds exactly when the link is `http://www` in some case |
| LinkFilter.KeepWithoutDot | link_scrapper.py:16-17 | every excluded extension and domain holds a dot, so a link without one is dropped only by the pattern check |
| LinkFilter.HtmlDropped | link_scrapper.py:16 | every link containing `.html`, in any case, is dropped, by the `.htm` entry |
| LinkFilter.KeepAll | link_scrapper.py:66-76 | the written links are no more than the links given, and each passes all three checks |
| LinkFilter.KeepAllAppend | link_scrapper.py:66-76 | filtering distributes over concatenation, so the result does not depend on how links are grouped into posts |
| LinkFilter.KeepAllMembership | link_scrapper.py:66-76 | a link is written exactly when it is among the links and passes the checks |
| LinkFilter.KeepAllCounts | link_scrapper.py:66-76 | duplicates are kept: a link that passes is written as often as it occurs |
| LinkFilter.KeepAllSubsequence | link_scrapper.py:66-76 | the written links keep the order in which they were found |
| LinkFilter.KeepAllIdempotent | link_scrapper.py:66-76 | filtering the written links again removes nothing |
| LinkWriter.AllLinksAppend | link_scrapper.py:63-66 | the links of a concatenation of parse results are the concatenated links |
| LinkWriter.AllLinksSkipsNone | link_scrapper.py:63-65 | a `None` entry contributes nothing, wherever it stands |
| LinkWriter.AllLinksMembership | link_scrapper.py:63-66 | a link is visited exactly when some present entry holds it |
| LinkWriter.AllLinksEmpty | link_scrapper.py:63-66 | no link is visited exactly when every entry is absent or empty |
| LinkWriter.FileTextShape | link_scrapper.py:75 | the file is empty exactly when nothing was written, otherwise it ends with a newline, and each link adds at least one character |
| LinkWriter.FileTextLines | link_scrapper.py:75 | with newline-free links, the file holds exactly one newline per written link |
| LinkWriter.WriteLinks | link_scrapper.py:60-76 | the written links are the filter applied to all links of the present entries. The file text is those links, each followed by a newline. The counter equals the number of written links, which is at most the number of links visited |
| LinkWriter.Parsed | link_scrapper.py:58 | one entry per flattened post, and none of them is absent |
| LinkWriter.Output | link_scrapper.py:58-76 | the written links are no more than the parsed links, and each passes the three checks |
| LinkWriter.Run | link_scrapper.py:58-76 | parsing every flattened post and running the loop writes exactly `Output(threads)`, with the counter equal to its length |
| LinkWriter.ParsedMembership | link_scrapper.py:58 | a link is in some entry of the parse list exactly when some flattened post's matches hold it |
| LinkWriter.OutputMembership | link_scrapper.py:58-76 | a link is written exactly when some fetched post has it among its matches and it passes the three checks |
| LinkWriter.OutputLines | link_scrapper.py:58-78 | every written link is in the pattern's language, holds no newline and passes the checks; the file has as many lines as the printed count |
| LinkWriter.Scrape | link_scrapper.py:54-78 | gathering the pages of the seven threads and running the loop writes `Output` of the gathered threads, with the counter equal to its length |
| LinkWriter.ScrapeMembership | link_scrapper.py:54-76 | a link is written exactly when it passes the checks and is a match in a post on a requested page of one of the seven threads |

## Left out

- HTTP, JSON decoding and the `aiohttp` session (lines 23-24, 35-36) are not modelled. The total item count and the page fetch are function parameters. A response without `Thread.Name` or `Page.Total` raises in the source; the model has no such error.
- The `ContentTypeError` fallback of `fetch_page` (lines 37-38) is not modelled. Its effect, a page with no posts, is one of the pages the fetch parameter may return.
- `asyncio.gather` and the event loop (lines 44, 56, 80-87) are modelled only by the order of results, which is argument order. Concurrency is not modelled.
- The progress and final `print` calls (lines 28, 78) and opening `links.txt` (line 62) are not modelled. The file contents are the `text` result of `LinkWriter.WriteLinks`, and the printed number is its `count`.
- Forum.PageCount: computes the exact integer ceiling. Python's `Total / 30` is a float division, which could round the wrong way only for totals above 2^53; such totals are not modelled.
- Ascii.Lower and the case-insensitive prefix match fold only ASCII `A`-`Z`. Python's `str.lower()` and `re.I` also fold a few non-ASCII characters, for example the Kelvin sign, which `re.I` also lets into `[A-Z]`. Those characters are not modelled.
- `re.findall` is modelled only for this one pattern, not as a general regular-expression engine.
- `parse_post` always returns a list, so the `if thread is None` check (lines 64-65) never fires in the script: `LinkWriter.Parsed` has no absent entry. `LinkWriter.WriteLinks` still models the check, over entries that may be absent.
- `parse_post` is annotated `-> int` although it returns a list of strings. The model uses the returned type.
