/**
 * The page walk of `get_ptt_articles(board, cutoff)` (ptt_monitor.py): start
 * at the board's newest page, gather each page's articles, and go one page
 * older while some article on the page is at or after the cutoff. The first
 * older page is the one the newest page's "‹ 上頁" link names; after it the
 * page number read off that link is decremented, down to 0.
 *
 * The network is an input: `listing(url)(k)` is the outcome of the k-th
 * request for the listing page at `url`, and `pages` answers the article
 * page requests. The walk as a function takes the article times those
 * pages yield, `Lookup(pages)`, so that its lemmas hold whatever the
 * lookups return. A timestamp and the cutoff are seconds of UTC+8 time.
 */
module Walker {
  import opened Wrappers
  import opened Listing
  import Retry

  /** `listing(url)(k)`: the outcome of the k-th request for the listing page at `url`. */
  type Listings = string -> nat -> Option<IndexPage>

  /** What the walk returns (the articles) and the listing URLs it requested, in order. */
  datatype Crawl = Crawl(articles: seq<Article>, requested: seq<string>)

  /** `fetch_ptt_page_with_retry(url)` for a listing page. */
  function FetchPage(listing: Listings, url: string): Option<IndexPage>
  {
    Retry.RetryResult(listing(url), Retry.ListingRetries)
  }

  // ---------------------------------------------------------------------------
  // The time test
  // ---------------------------------------------------------------------------

  /** `max(parsed_dates)`: the latest looked-up time among the articles, if any was looked up. */
  function NewestTime(arts: seq<Article>): (r: Option<int>)
    ensures r.None? <==> forall i :: 0 <= i < |arts| ==> arts[i].datetime.None?
    ensures r.Some? ==> exists i :: 0 <= i < |arts| && arts[i].datetime == r
    ensures r.Some? ==> forall i :: 0 <= i < |arts| && arts[i].datetime.Some? ==> arts[i].datetime.value <= r.value
  {
    if arts == [] then None
    else
      var rest := NewestTime(arts[1..]);
      assert forall i :: 1 <= i < |arts| ==> arts[i] == arts[1..][i - 1];
      match arts[0].datetime
      case None => rest
      case Some(d) => if rest.Some? && rest.value > d then rest else Some(d)
  }

  /** The walk goes on past a page whose newest looked-up time is at or after the cutoff. */
  predicate Continues(arts: seq<Article>, cutoff: int)
  {
    NewestTime(arts).Some? && NewestTime(arts).value >= cutoff
  }

  /** It goes on exactly when some article on the page was looked up at or after the cutoff. */
  lemma ContinuesIff(arts: seq<Article>, cutoff: int)
    ensures Continues(arts, cutoff) <==>
      exists i :: 0 <= i < |arts| && arts[i].datetime.Some? && arts[i].datetime.value >= cutoff
  {
    if i :| 0 <= i < |arts| && arts[i].datetime.Some? && arts[i].datetime.value >= cutoff {
      assert NewestTime(arts).Some?;
    }
  }

  // ---------------------------------------------------------------------------
  // The walk
  // ---------------------------------------------------------------------------

  /**
   * The first older page, after the newest: the one the "‹ 上頁" link names,
   * with the number the link carries; none when the link is missing, has no
   * `href`, or its number does not parse.
   */
  function PrevLinkPage(page: IndexPage): Option<(string, int)>
  {
    match page.prevLink
    case None => None
    case Some(href) =>
      if href == "" then None
      else
        match ParsePrevIndex(href)
        case None => None
        case Some(n) => Some((Host + href, n))
  }

  /** Every later page: `index{idx-1}`, with that number, unless it would be below 0. */
  function LowerPage(board: string, idx: int): (r: Option<(string, int)>)
    ensures r.Some? <==> idx >= 1
    ensures r.Some? ==> r.value == (IndexUrl(board, idx - 1), idx - 1) && r.value.1 >= 0
  {
    var n := idx - 1;
    if n < 0 then None else Some((IndexUrl(board, n), n))
  }

  /**
   * The next page to request after `page`, and the page number from then
   * on, when the walk goes on; `idx` is `current_index_num`.
   */
  function NextPage(board: string, page: IndexPage, idx: Option<int>): (r: Option<(string, int)>)
    ensures idx.None? ==> r == PrevLinkPage(page)
    ensures idx.Some? ==> (r.Some? <==> idx.value >= 1)
    ensures r.Some? && idx.Some? ==> r.value == (IndexUrl(board, idx.value - 1), idx.value - 1) && r.value.1 >= 0
  {
    if idx.None? then PrevLinkPage(page) else LowerPage(board, idx.value)
  }

  /** The walk from the page at `url`, with page number `idx`. */
  function WalkFrom(board: string, cutoff: Option<int>, listing: Listings, lookup: Lookups,
                    url: string, idx: Option<int>): Crawl
    decreases if idx.None? then 1 else 0, if idx.Some? && idx.value > 0 then idx.value else 0
  {
    match FetchPage(listing, url)
    case None => Crawl([], [url])
    case Some(page) =>
      var arts := PageArticles(page.entries, cutoff.Some?, lookup);
      if cutoff.None? || !Continues(arts, cutoff.value) then Crawl(arts, [url])
      else
        match NextPage(board, page, idx)
        case None => Crawl(arts, [url])
        case Some(next) =>
          var rest := WalkFrom(board, cutoff, listing, lookup, next.0, Some(next.1));
          Crawl(arts + rest.articles, [url] + rest.requested)
  }

  /** `get_ptt_articles(board, cutoff)`. */
  function Walk(board: string, cutoff: Option<int>, listing: Listings, lookup: Lookups): Crawl
  {
    WalkFrom(board, cutoff, listing, lookup, NewestUrl(board), None)
  }

  /** The articles a request for `url` contributes: none when the fetch fails. */
  function FetchedArticles(listing: Listings, lookup: Lookups, resolve: bool, url: string): seq<Article>
  {
    match FetchPage(listing, url)
    case None => []
    case Some(page) => PageArticles(page.entries, resolve, lookup)
  }

  /** The articles of the pages at `urls`, concatenated in order. */
  function Gathered(listing: Listings, lookup: Lookups, resolve: bool, urls: seq<string>): seq<Article>
  {
    if urls == [] then []
    else FetchedArticles(listing, lookup, resolve, urls[0]) + Gathered(listing, lookup, resolve, urls[1..])
  }

  /**
   * The result is the concatenation, in request order, of the articles of
   * every page requested (a failed request adds none); every request but
   * the last fetched its page, and that page's times let the walk go on.
   */
  lemma {:induction false} WalkFromGathers(board: string, cutoff: Option<int>, listing: Listings, lookup: Lookups,
                                           url: string, idx: Option<int>)
    ensures var c := WalkFrom(board, cutoff, listing, lookup, url, idx);
      && |c.requested| >= 1 && c.requested[0] == url
      && c.articles == Gathered(listing, lookup, cutoff.Some?, c.requested)
      && forall k :: 0 <= k < |c.requested| - 1 ==>
           && FetchPage(listing, c.requested[k]).Some? && cutoff.Some?
           && Continues(FetchedArticles(listing, lookup, true, c.requested[k]), cutoff.value)
    decreases if idx.None? then 1 else 0, if idx.Some? && idx.value > 0 then idx.value else 0
  {
    var c := WalkFrom(board, cutoff, listing, lookup, url, idx);
    match FetchPage(listing, url)
    case None =>
    case Some(page) =>
      var arts := PageArticles(page.entries, cutoff.Some?, lookup);
      if cutoff.Some? && Continues(arts, cutoff.value) {
        match NextPage(board, page, idx)
        case None =>
        case Some(next) =>
          WalkFromGathers(board, cutoff, listing, lookup, next.0, Some(next.1));
          var rest := WalkFrom(board, cutoff, listing, lookup, next.0, Some(next.1));
          assert c.requested == [url] + rest.requested;
          assert c.requested[1..] == rest.requested;
          forall k | 1 <= k < |c.requested| - 1
            ensures FetchPage(listing, c.requested[k]).Some?
            ensures Continues(FetchedArticles(listing, lookup, true, c.requested[k]), cutoff.value)
          {
            assert c.requested[k] == rest.requested[k - 1];
          }
      }
  }

  /**
   * A request for `url` ends the walk there, whatever the page number: the
   * fetch failed, there is no cutoff, or no article on the page is at or
   * after the cutoff.
   */
  predicate EndsAt(listing: Listings, lookup: Lookups, cutoff: Option<int>, url: string)
  {
    || FetchPage(listing, url).None? || cutoff.None?
    || !Continues(FetchedArticles(listing, lookup, true, url), cutoff.value)
  }

  /** The URLs of pages `v - 1`, `v - 2`, ..., `v - m`. */
  function Countdown(board: string, v: int, m: nat): (r: seq<string>)
    requires m == 0 || m <= v
    ensures |r| == m
    decreases m
  {
    if m == 0 then [] else [IndexUrl(board, v - 1)] + Countdown(board, v - 1, m - 1)
  }

  /** The countdown from `v` starts with page `v - 1`. */
  lemma CountdownFirst(board: string, v: int, m: nat)
    requires 1 <= m <= v
    ensures Countdown(board, v, m) == [IndexUrl(board, v - 1)] + Countdown(board, v - 1, m - 1)
  {
  }

  /**
   * From page number `v` on, the walk requests `index{v-1}`, `index{v-2}`,
   * ..., never a negative page, and so makes at most `v + 1` requests.
   */
  lemma {:induction false} WalkFromIndexed(board: string, cutoff: Option<int>, listing: Listings, lookup: Lookups,
                                           url: string, v: int)
    ensures var r := WalkFrom(board, cutoff, listing, lookup, url, Some(v)).requested;
      && 1 <= |r| <= (if v > 0 then v else 0) + 1
      && r == [url] + Countdown(board, v, |r| - 1)
    decreases if v > 0 then v else 0
  {
    var r := WalkFrom(board, cutoff, listing, lookup, url, Some(v)).requested;
    IndexedStep(board, cutoff, listing, lookup, url, v);
    if |r| > 1 {
      var next := IndexUrl(board, v - 1);
      WalkFromIndexed(board, cutoff, listing, lookup, next, v - 1);
      var rest := WalkFrom(board, cutoff, listing, lookup, next, Some(v - 1)).requested;
      IndexedSteps(board, url, v, r, rest);
    }
  }

  /** From page number `v`, the walk stops at `url` or goes on to page `v - 1`. */
  lemma IndexedStep(board: string, cutoff: Option<int>, listing: Listings, lookup: Lookups,
                    url: string, v: int)
    ensures var r := WalkFrom(board, cutoff, listing, lookup, url, Some(v)).requested;
      && (|r| <= 1 ==> r == [url] && (EndsAt(listing, lookup, cutoff, url) || v < 1))
      && (|r| > 1 ==>
            v >= 1 && r == [url] + WalkFrom(board, cutoff, listing, lookup, IndexUrl(board, v - 1), Some(v - 1)).requested)
  {
    match FetchPage(listing, url)
    case None =>
    case Some(page) =>
      WalkFromStep(board, cutoff, listing, lookup, url, Some(v), page);
  }

  /**
   * From page number `v` on, the walk stops only where it has to: at its
   * last request, page `v - (|r| - 1)`, the request ends the walk, or there
   * is no lower page.
   */
  lemma {:induction false} IndexedStops(board: string, cutoff: Option<int>, listing: Listings, lookup: Lookups,
                                        url: string, v: int, r: seq<string>)
    requires r == WalkFrom(board, cutoff, listing, lookup, url, Some(v)).requested
    ensures |r| >= 1 && (EndsAt(listing, lookup, cutoff, r[|r| - 1]) || v - (|r| - 1) < 1)
    decreases if v > 0 then v else 0
  {
    IndexedStep(board, cutoff, listing, lookup, url, v);
    if |r| > 1 {
      var next := IndexUrl(board, v - 1);
      var rest := WalkFrom(board, cutoff, listing, lookup, next, Some(v - 1)).requested;
      IndexedStops(board, cutoff, listing, lookup, next, v - 1, rest);
      StopsSteps(listing, lookup, cutoff, url, v - 1, r, rest);
    }
  }

  /**
   * One request in front of a walk that stops where it has to: the last
   * request stays the same, and the page number counts one further.
   */
  lemma StopsSteps(listing: Listings, lookup: Lookups, cutoff: Option<int>, url: string, v: int,
                   r: seq<string>, rest: seq<string>)
    requires |rest| >= 1
    requires EndsAt(listing, lookup, cutoff, rest[|rest| - 1]) || v - (|rest| - 1) < 1
    requires r == [url] + rest
    ensures |r| >= 2 && (EndsAt(listing, lookup, cutoff, r[|r| - 1]) || v - (|r| - 2) < 1)
  {
    assert r[|r| - 1] == rest[|rest| - 1];
  }

  /** The countdown from `v - 1`, after page `v`'s own request, is the countdown from `v`. */
  lemma IndexedSteps(board: string, url: string, v: int, r: seq<string>, rest: seq<string>)
    requires v >= 1
    requires 1 <= |rest| <= (if v - 1 > 0 then v - 1 else 0) + 1
    requires rest == [IndexUrl(board, v - 1)] + Countdown(board, v - 1, |rest| - 1)
    requires r == [url] + rest
    ensures 1 <= |r| <= v + 1 && r == [url] + Countdown(board, v, |r| - 1)
  {
    CountdownFirst(board, v, |rest|);
  }

  /** The first older page is named by a link that has an `href` whose number parses. */
  lemma PrevLinkPageIff(page: IndexPage, url: string, n: int)
    ensures PrevLinkPage(page) == Some((url, n)) <==>
      exists href :: page.prevLink == Some(href) && href != "" && ParsePrevIndex(href) == Some(n) && url == Host + href
  {
    if PrevLinkPage(page) == Some((url, n)) {
      var href := page.prevLink.value;
      assert page.prevLink == Some(href) && href != "" && ParsePrevIndex(href) == Some(n) && url == Host + href;
    }
  }

  /**
   * The order of requests: `index.html`; then the page the newest page's
   * "‹ 上頁" link names, whose number N that link carries; then `index{N-1}`,
   * `index{N-2}`, ... down to `index0` at the lowest. So at most N + 2
   * pages are requested.
   */
  lemma WalkRequestOrder(board: string, cutoff: Option<int>, listing: Listings, lookup: Lookups)
    ensures var r := Walk(board, cutoff, listing, lookup).requested;
      && |r| >= 1 && r[0] == NewestUrl(board)
      && (|r| > 1 ==>
           && FetchPage(listing, NewestUrl(board)).Some?
           && var next := PrevLinkPage(FetchPage(listing, NewestUrl(board)).value);
           && next.Some?
           && |r| <= (if next.value.1 > 0 then next.value.1 else 0) + 2
           && r == [NewestUrl(board), next.value.0] + Countdown(board, next.value.1, |r| - 2))
  {
    var r := Walk(board, cutoff, listing, lookup).requested;
    NewestStep(board, cutoff, listing, lookup);
    if |r| > 1 {
      var next := PrevLinkPage(FetchPage(listing, NewestUrl(board)).value).value;
      var rest := WalkFrom(board, cutoff, listing, lookup, next.0, Some(next.1)).requested;
      WalkFromIndexed(board, cutoff, listing, lookup, next.0, next.1);
      RequestOrderSteps(board, NewestUrl(board), next.0, next.1, r, rest);
    }
  }

  /**
   * A walk that goes past the newest page stops only where it has to: the
   * last request ends the walk, or it is page 0, since the last page is
   * numbered N - (|r| - 2), where N is the number the "‹ 上頁" link carries.
   */
  lemma WalkStops(board: string, cutoff: Option<int>, listing: Listings, lookup: Lookups, r: seq<string>)
    requires r == Walk(board, cutoff, listing, lookup).requested
    ensures |r| >= 2 ==>
      && FetchPage(listing, NewestUrl(board)).Some?
      && var next := PrevLinkPage(FetchPage(listing, NewestUrl(board)).value);
      && next.Some?
      && (EndsAt(listing, lookup, cutoff, r[|r| - 1]) || next.value.1 - (|r| - 2) < 1)
  {
    NewestStep(board, cutoff, listing, lookup);
    if |r| >= 2 {
      var next := PrevLinkPage(FetchPage(listing, NewestUrl(board)).value).value;
      StopsAfterNewest(board, cutoff, listing, lookup, next, r);
    }
  }

  /** After the newest page, the walk from the first older page stops where it has to. */
  lemma StopsAfterNewest(board: string, cutoff: Option<int>, listing: Listings, lookup: Lookups,
                         next: (string, int), r: seq<string>)
    requires r == [NewestUrl(board)] + WalkFrom(board, cutoff, listing, lookup, next.0, Some(next.1)).requested
    ensures |r| >= 2 && (EndsAt(listing, lookup, cutoff, r[|r| - 1]) || next.1 - (|r| - 2) < 1)
  {
    var rest := WalkFrom(board, cutoff, listing, lookup, next.0, Some(next.1)).requested;
    IndexedStops(board, cutoff, listing, lookup, next.0, next.1, rest);
    StopsSteps(listing, lookup, cutoff, NewestUrl(board), next.1, r, rest);
  }

  /**
   * The walk requests the newest page first. It stops there only when that
   * request ends the walk or the page has no usable "‹ 上頁" link, and
   * otherwise goes on to the page that link names.
   */
  lemma NewestStep(board: string, cutoff: Option<int>, listing: Listings, lookup: Lookups)
    ensures var r := Walk(board, cutoff, listing, lookup).requested;
      && |r| >= 1 && r[0] == NewestUrl(board)
      && (|r| == 1 ==>
            || EndsAt(listing, lookup, cutoff, NewestUrl(board))
            || PrevLinkPage(FetchPage(listing, NewestUrl(board)).value).None?)
      && (|r| > 1 ==>
           && FetchPage(listing, NewestUrl(board)).Some?
           && var next := PrevLinkPage(FetchPage(listing, NewestUrl(board)).value);
           && next.Some?
           && r == [NewestUrl(board)] + WalkFrom(board, cutoff, listing, lookup, next.value.0, Some(next.value.1)).requested)
  {
    var url := NewestUrl(board);
    match FetchPage(listing, url)
    case None =>
    case Some(page) =>
      WalkFromStep(board, cutoff, listing, lookup, url, None, page);
  }

  /** The request order, as sequences: the newest page, then the walk from the first older page. */
  lemma RequestOrderSteps(board: string, url: string, next: string, n: int, r: seq<string>, rest: seq<string>)
    requires 1 <= |rest| <= (if n > 0 then n else 0) + 1
    requires rest == [next] + Countdown(board, n, |rest| - 1)
    requires r == [url] + rest
    ensures |r| <= (if n > 0 then n else 0) + 2
    ensures r == [url, next] + Countdown(board, n, |r| - 2)
  {
  }

  /** Without a cutoff exactly one page is requested, and its articles are the result. */
  lemma WalkWithoutCutoff(board: string, listing: Listings, lookup: Lookups)
    ensures Walk(board, None, listing, lookup) ==
      Crawl(FetchedArticles(listing, lookup, false, NewestUrl(board)), [NewestUrl(board)])
  {
  }

  /**
   * With a cutoff, a newest page without a usable "‹ 上頁" link (missing,
   * without `href`, or without a number) ends the walk there, whatever its
   * times.
   */
  lemma NoPrevLinkOnePage(board: string, cutoff: Option<int>, listing: Listings, lookup: Lookups)
    requires FetchPage(listing, NewestUrl(board)).Some?
    requires var prev := FetchPage(listing, NewestUrl(board)).value.prevLink;
      prev.None? || prev.value == "" || ParsePrevIndex(prev.value).None?
    ensures Walk(board, cutoff, listing, lookup).requested == [NewestUrl(board)]
  {
  }

  /**
   * The page that ends the walk by its times still contributes its
   * articles: a walk that stops at its first page returns that page's
   * articles.
   */
  lemma StoppingPageKept(board: string, cutoff: int, listing: Listings, lookup: Lookups)
    requires FetchPage(listing, NewestUrl(board)).Some?
    requires !Continues(FetchedArticles(listing, lookup, true, NewestUrl(board)), cutoff)
    ensures Walk(board, Some(cutoff), listing, lookup) ==
      Crawl(FetchedArticles(listing, lookup, true, NewestUrl(board)), [NewestUrl(board)])
  {
  }

  // ---------------------------------------------------------------------------
  // The loop
  // ---------------------------------------------------------------------------

  /** One step of the walk, once the page at `url` has been fetched. */
  lemma WalkFromStep(board: string, cutoff: Option<int>, listing: Listings, lookup: Lookups,
                     url: string, idx: Option<int>, page: IndexPage)
    requires FetchPage(listing, url) == Some(page)
    ensures var arts := PageArticles(page.entries, cutoff.Some?, lookup);
      var next := NextPage(board, page, idx);
      if cutoff.None? || !Continues(arts, cutoff.value) || next.None? then
        WalkFrom(board, cutoff, listing, lookup, url, idx) == Crawl(arts, [url])
      else
        var rest := WalkFrom(board, cutoff, listing, lookup, next.value.0, Some(next.value.1));
        WalkFrom(board, cutoff, listing, lookup, url, idx) == Crawl(arts + rest.articles, [url] + rest.requested)
  {
  }

  /**
   * The end of the loop body: from the newest page, follow its "‹ 上頁" link
   * and take up the number it carries; from any later page, decrement the
   * number and stop below 0.
   */
  method NextRequest(board: string, page: IndexPage, currentIndexNum: Option<int>)
    returns (next: Option<(string, int)>)
    ensures next == NextPage(board, page, currentIndexNum)
  {
    if currentIndexNum.None? {
      if page.prevLink.Some? && page.prevLink.value != "" {
        var href := page.prevLink.value;
        var indexNum := ParsePrevIndex(href);
        if indexNum.None? {
          return None;
        }
        return Some((Host + href, indexNum.value));
      } else {
        return None;
      }
    } else {
      var indexNum := currentIndexNum.value - 1;
      if indexNum < 0 {
        return None;
      }
      return Some((IndexUrl(board, indexNum), indexNum));
    }
  }

  /**
   * The `while True` loop of `get_ptt_articles`; `requested` records each
   * listing URL as it is fetched.
   */
  method GetPttArticles(board: string, cutoff: Option<int>, listing: Listings, pages: ArticlePages)
    returns (articles: seq<Article>, requested: seq<string>)
    ensures Crawl(articles, requested) == Walk(board, cutoff, listing, Lookup(pages))
  {
    ghost var walk := Walk(board, cutoff, listing, Lookup(pages));
    articles, requested := [], [];
    var currentUrl := NewestUrl(board);
    var currentIndexNum: Option<int> := None;
    var done := false;
    ghost var remaining := walk;
    while !done
      invariant articles + remaining.articles == walk.articles
      invariant requested + remaining.requested == walk.requested
      invariant !done ==> remaining == WalkFrom(board, cutoff, listing, Lookup(pages), currentUrl, currentIndexNum)
      invariant done ==> remaining == Crawl([], [])
      decreases if done then 0 else 1, if currentIndexNum.None? then 1 else 0,
        if currentIndexNum.Some? && currentIndexNum.value > 0 then currentIndexNum.value else 0
    {
      var response, _, _ := Retry.FetchWithRetry(listing(currentUrl), Retry.ListingRetries);
      if response.None? {
        assert remaining == Crawl([], [currentUrl]);
        requested := requested + [currentUrl];
        remaining := Crawl([], []);
        done := true;
      } else {
        var page := response.value;
        WalkFromStep(board, cutoff, listing, Lookup(pages), currentUrl, currentIndexNum, page);
        var pageArticles := ParseEntries(page.entries, cutoff.Some?, pages);
        var next: Option<(string, int)> := None;
        if cutoff.Some? {
          var newest := NewestTime(pageArticles);
          if newest.Some? && newest.value >= cutoff.value {
            next := NextRequest(board, page, currentIndexNum);
          }
        }
        ghost var before := Crawl(articles, requested);
        articles := articles + pageArticles;
        requested := requested + [currentUrl];
        if next.None? {
          assert remaining == Crawl(pageArticles, [currentUrl]);
          remaining := Crawl([], []);
          done := true;
        } else {
          currentUrl, currentIndexNum := next.value.0, Some(next.value.1);
          ghost var rest := WalkFrom(board, cutoff, listing, Lookup(pages), currentUrl, currentIndexNum);
          ContinueStep(before, pageArticles, requested[|requested| - 1], remaining, rest, walk);
          remaining := rest;
        }
      }
    }
  }

  /** The bookkeeping of one step of the loop that goes on. */
  lemma ContinueStep(before: Crawl, pageArticles: seq<Article>, url: string, remaining: Crawl, rest: Crawl, walk: Crawl)
    requires before.articles + remaining.articles == walk.articles
    requires before.requested + remaining.requested == walk.requested
    requires remaining == Crawl(pageArticles + rest.articles, [url] + rest.requested)
    ensures (before.articles + pageArticles) + rest.articles == walk.articles
    ensures (before.requested + [url]) + rest.requested == walk.requested
  {
  }
}
