/**
 * The forum data the scraper consumes and the way it is gathered:
 * the page count of a thread (`thread_count`), the pages requested for it
 * (`fetch_thread`), the order in which `asyncio.gather` hands results back,
 * and the flattening of threads, pages and posts in `main`.
 */
module Forum {

  /** A post; `Message` is the only field the scraper reads. */
  datatype Post = Post(message: string)

  /** A decoded page payload; `Posts` is the only field the scraper reads. */
  datatype Page = Page(posts: seq<Post>)

  /** The fixed items-per-page of the forum API. */
  const PAGE_SIZE: int := 30

  /** The thread identifiers the run scrapes, in this order. */
  const THREADS: seq<string> := ["qlfg", "ocfc", "qwjo", "qxmo", "bszzx", "buacb", "bvaty"]

  /**
   * `ceil(Total / 30)`: the ceiling of the total divided by the page size,
   * computed on integers (Dafny's `/` floors for a positive divisor).
   * The two bounds say `n` is the least integer with `30 * n >= total`.
   */
  function PageCount(total: int): (n: int)
    ensures PAGE_SIZE * n >= total
    ensures PAGE_SIZE * (n - 1) < total
  {
    (total + PAGE_SIZE - 1) / PAGE_SIZE
  }

  /** No other integer satisfies both ceiling bounds. */
  lemma PageCountLeast(total: int, m: int)
    requires PAGE_SIZE * m >= total
    ensures PageCount(total) <= m
  {
  }

  /** A thread with no items has no pages; 30 items fill one page; 31 need two. */
  lemma PageCountExamples()
    ensures PageCount(0) == 0 && PageCount(1) == 1 && PageCount(30) == 1
    ensures PageCount(31) == 2 && PageCount(35) == 2 && PageCount(60) == 2
  {
  }

  /**
   * `range(1, count + 1)`: the page numbers requested for a thread.
   * They are exactly 1..count, strictly increasing, so each occurs once.
   */
  function PageNumbers(count: int): (r: seq<int>)
    ensures |r| == if count > 0 then count else 0
    ensures forall k | 0 <= k < |r| :: r[k] == k + 1
    ensures forall a, b | 0 <= a < b < |r| :: r[a] < r[b]
  {
    seq(if count > 0 then count else 0, k => k + 1)
  }

  /** Every page from 1 to `count` is requested, and no other. */
  lemma PageNumbersExact(count: int)
    ensures forall p :: p in PageNumbers(count) <==> 1 <= p <= count
  {
    var r := PageNumbers(count);
    forall p | 1 <= p <= count
      ensures p in r
    {
      assert r[p - 1] == p;
    }
  }

  /**
   * `fetch_thread`: one page fetch per page number, gathered in argument
   * order, so position `k` holds page `k + 1` of the thread. `fetchPage`
   * stands for the network fetch of one page of this thread.
   */
  function FetchThread(total: int, fetchPage: int -> Page): (pages: seq<Page>)
    ensures |pages| == |PageNumbers(PageCount(total))|
    ensures forall k | 0 <= k < |pages| :: pages[k] == fetchPage(k + 1)
  {
    var numbers := PageNumbers(PageCount(total));
    seq(|numbers|, k requires 0 <= k < |numbers| => fetchPage(numbers[k]))
  }

  /**
   * The top-level gather over thread identifiers: position `t` holds the
   * pages of `ids[t]`, and within it position `k` holds page `k + 1`.
   * `total` and `fetchPage` stand for the network reads.
   */
  function FetchAll(ids: seq<string>, total: string -> int, fetchPage: (string, int) -> Page)
    : (threads: seq<seq<Page>>)
    ensures |threads| == |ids|
    ensures forall t | 0 <= t < |ids| :: |threads[t]| == |PageNumbers(PageCount(total(ids[t])))|
    ensures forall t, k | 0 <= t < |ids| && 0 <= k < |threads[t]| ::
              threads[t][k] == fetchPage(ids[t], k + 1)
  {
    seq(|ids|, t requires 0 <= t < |ids| => FetchThread(total(ids[t]), p => fetchPage(ids[t], p)))
  }

  /**
   * The posts of one thread: page after page, each page's posts in order.
   * Every post of every page is there, as often as the page holds it.
   */
  function ThreadPosts(pages: seq<Page>): (r: seq<Post>)
    ensures forall g | 0 <= g < |pages| :: multiset(pages[g].posts) <= multiset(r)
  {
    if pages == [] then []
    else
      var rest := ThreadPosts(pages[1..]);
      assert forall g | 1 <= g < |pages| :: pages[g] == pages[1..][g - 1];
      pages[0].posts + rest
  }

  /**
   * `[post for thread in threads for page in thread for post in page['Posts']]`
   * (without the per-post parse): thread after thread. Every post of every
   * page of every thread is there, as often as the page holds it.
   */
  function Flatten(threads: seq<seq<Page>>): (r: seq<Post>)
    ensures forall t, g | 0 <= t < |threads| && 0 <= g < |threads[t]| ::
              multiset(threads[t][g].posts) <= multiset(r)
  {
    if threads == [] then []
    else
      var rest := Flatten(threads[1..]);
      assert forall t | 1 <= t < |threads| :: threads[t] == threads[1..][t - 1];
      ThreadPosts(threads[0]) + rest
  }

  lemma {:induction false} ThreadPostsAppend(a: seq<Page>, b: seq<Page>)
    ensures ThreadPosts(a + b) == ThreadPosts(a) + ThreadPosts(b)
  {
    if a == [] {
      assert a + b == b;
    } else {
      assert (a + b)[1..] == a[1..] + b;
      ThreadPostsAppend(a[1..], b);
    }
  }

  /** Flattening a concatenation of thread lists concatenates their flattenings. */
  lemma {:induction false} FlattenAppend(a: seq<seq<Page>>, b: seq<seq<Page>>)
    ensures Flatten(a + b) == Flatten(a) + Flatten(b)
  {
    if a == [] {
      assert a + b == b;
    } else {
      assert (a + b)[1..] == a[1..] + b;
      FlattenAppend(a[1..], b);
    }
  }

  /** The flattened length is the sum of the per-page post counts. */
  function PostCount(threads: seq<seq<Page>>): nat
  {
    if threads == [] then 0 else PagePostCount(threads[0]) + PostCount(threads[1..])
  }

  function PagePostCount(pages: seq<Page>): nat
  {
    if pages == [] then 0 else |pages[0].posts| + PagePostCount(pages[1..])
  }

  lemma {:induction false} FlattenLength(threads: seq<seq<Page>>)
    ensures |Flatten(threads)| == PostCount(threads)
  {
    if threads != [] {
      ThreadPostsLength(threads[0]);
      FlattenLength(threads[1..]);
    }
  }

  lemma {:induction false} ThreadPostsLength(pages: seq<Page>)
    ensures |ThreadPosts(pages)| == PagePostCount(pages)
  {
    if pages != [] {
      ThreadPostsLength(pages[1..]);
    }
  }

  /** A post is in the flattened sequence exactly when some page of some thread holds it. */
  lemma {:induction false} ThreadPostsMembership(pages: seq<Page>, post: Post)
    ensures post in ThreadPosts(pages) <==> exists g | 0 <= g < |pages| :: post in pages[g].posts
  {
    if pages != [] {
      ThreadPostsMembership(pages[1..], post);
      if post in ThreadPosts(pages[1..]) {
        var g :| 0 <= g < |pages[1..]| && post in pages[1..][g].posts;
        assert post in pages[g + 1].posts;
      }
      if exists g | 0 <= g < |pages| :: post in pages[g].posts {
        var g :| 0 <= g < |pages| && post in pages[g].posts;
        if g > 0 {
          assert post in pages[1..][g - 1].posts;
        }
      }
    }
  }

  lemma {:induction false} FlattenMembership(threads: seq<seq<Page>>, post: Post)
    ensures post in Flatten(threads) <==>
              exists t, g | 0 <= t < |threads| && 0 <= g < |threads[t]| :: post in threads[t][g].posts
  {
    if threads != [] {
      FlattenMembership(threads[1..], post);
      ThreadPostsMembership(threads[0], post);
      if post in Flatten(threads[1..]) {
        var t, g :| 0 <= t < |threads[1..]| && 0 <= g < |threads[1..][t]| && post in threads[1..][t][g].posts;
        assert post in threads[t + 1][g].posts;
      }
      if post in ThreadPosts(threads[0]) {
        var g :| 0 <= g < |threads[0]| && post in threads[0][g].posts;
        assert post in threads[0][g].posts;
      }
      if exists t, g | 0 <= t < |threads| && 0 <= g < |threads[t]| :: post in threads[t][g].posts {
        var t, g :| 0 <= t < |threads| && 0 <= g < |threads[t]| && post in threads[t][g].posts;
        if t > 0 {
          assert post in threads[1..][t - 1][g].posts;
        } else {
          assert post in threads[0][g].posts;
        }
      }
    }
  }

  /**
   * A post is among the gathered posts exactly when it is on one of the
   * requested pages `1..PageCount` of one of the threads.
   */
  lemma FetchAllMembership(ids: seq<string>, total: string -> int, fetchPage: (string, int) -> Page, post: Post)
    ensures post in Flatten(FetchAll(ids, total, fetchPage)) <==>
            exists t, p | 0 <= t < |ids| && 1 <= p <= PageCount(total(ids[t])) ::
              post in fetchPage(ids[t], p).posts
  {
    var threads := FetchAll(ids, total, fetchPage);
    FlattenMembership(threads, post);
    if post in Flatten(threads) {
      var t, g :| 0 <= t < |threads| && 0 <= g < |threads[t]| && post in threads[t][g].posts;
      assert threads[t][g] == fetchPage(ids[t], g + 1);
    }
    if exists t, p | 0 <= t < |ids| && 1 <= p <= PageCount(total(ids[t])) :: post in fetchPage(ids[t], p).posts {
      var t, p :| 0 <= t < |ids| && 1 <= p <= PageCount(total(ids[t])) && post in fetchPage(ids[t], p).posts;
      assert threads[t][p - 1] == fetchPage(ids[t], p);
    }
  }
}
