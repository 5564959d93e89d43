/**
 * One board index page as `get_ptt_articles` (ptt_monitor.py) reads it:
 * the `div.r-ent` entries turned into articles, the article-id rule, the
 * index URLs, and the page number read off the "‹ 上頁" link.
 *
 * A page arrives already split: each entry says whether it has a title div,
 * whether that div holds a link (with the link's text and `href`, an absent
 * attribute reading as `''`), and the text of its date div if there is one;
 * the page says which `href` its first "‹ 上頁" link carries, if it has one.
 */
module Listing {
  import opened Wrappers
  import opened PyStrings
  import ArticleMeta
  import Retry

  const Host: string := "https://www.ptt.cc"

  /** The title div of an entry: missing, without a link, or with a link's text and `href`. */
  datatype TitleDiv = NoTitleDiv | TitleWithoutLink | TitleLink(text: string, href: string)

  /** One `div.r-ent`; `dateText` is the date div's `get_text(strip=True)`, if the div exists. */
  datatype Entry = Entry(title: TitleDiv, dateText: Option<string>)

  /**
   * A listing page. `prevLink` is `None` when there is no "‹ 上頁" link and
   * `Some(href)` otherwise, `href` being `''` when the link has none.
   */
  datatype IndexPage = IndexPage(entries: seq<Entry>, prevLink: Option<string>)

  /** `pages(url)(k)`: the outcome of the k-th request for the article page at `url`. */
  type ArticlePages = string -> nat -> Option<ArticleMeta.ArticlePage>

  /** `lookup(url)`: the time `fetch_article_datetime(url)` returns, seconds of UTC+8 time. */
  type Lookups = string -> Option<int>

  /** An article dictionary; `datetime` is `None` when it was not looked up or could not be read. */
  datatype Article = Article(id: string, title: string, url: string, listDate: string, datetime: Option<int>)

  // ---------------------------------------------------------------------------
  // URLs
  // ---------------------------------------------------------------------------

  /** The board's newest page, where the walk starts. */
  function NewestUrl(board: string): string
  {
    Host + "/bbs/" + board + "/index.html"
  }

  /** The path of page `n` of the board, as PTT links it. */
  function IndexHref(board: string, n: nat): string
  {
    "/bbs/" + board + "/index" + NatToStr(n) + ".html"
  }

  /** The URL of page `n`, as the walk builds it from the decremented index. */
  function IndexUrl(board: string, n: nat): string
  {
    Host + IndexHref(board, n)
  }

  // ---------------------------------------------------------------------------
  // Article ids
  // ---------------------------------------------------------------------------

  /** The last `/`-segment of the link with every `.html` removed; `''` for an empty link. */
  function ArticleId(href: string): string
  {
    if href == "" then "" else RemoveAll(LastSegment(href, '/'), ".html")
  }

  /** An id never contains `/`. */
  lemma ArticleIdNoSlash(href: string)
    ensures '/' !in ArticleId(href)
  {
    if href != "" {
      var seg := LastSegment(href, '/');
      var id := RemoveAll(seg, ".html");
      RemoveAllChars(seg, ".html");
      assert forall i :: 0 <= i < |id| ==> id[i] in seg;
    }
  }

  /**
   * The link PTT writes for article `id` on `board` yields `id` back, for
   * ids without `/` and `h` (PTT's ids, like `M.1707000000.A.1B3`, have
   * neither).
   */
  lemma ArticleIdRoundTrip(board: string, id: string)
    requires '/' !in id && 'h' !in id
    ensures ArticleId("/bbs/" + board + "/" + id + ".html") == id
  {
    var href := "/bbs/" + board + "/" + id + ".html";
    assert href == ("/bbs/" + board) + ['/'] + (id + ".html");
    LastSegmentAfter("/bbs/" + board, id + ".html", '/');
    RemoveAllTrailing(id, ".html");
  }

  // ---------------------------------------------------------------------------
  // Entries
  // ---------------------------------------------------------------------------

  function ListDate(e: Entry): string
  {
    match e.dateText
    case None => ""
    case Some(d) => d
  }

  /** The time `fetch_article_datetime(url)` returns. */
  function LookedUp(pages: ArticlePages, url: string): Option<int>
  {
    ArticleMeta.ArticleDatetime(Retry.RetryResult(pages(url), Retry.ArticleRetries))
  }

  /** The lookups the article pages answer. */
  function Lookup(pages: ArticlePages): Lookups
  {
    url => LookedUp(pages, url)
  }

  /** The article an entry yields, if any; its time is looked up only when `resolve` (a cutoff was given). */
  function ToArticle(e: Entry, resolve: bool, lookup: Lookups): Option<Article>
  {
    match e.title
    case NoTitleDiv => None
    case TitleWithoutLink => None
    case TitleLink(text, href) =>
      var id := ArticleId(href);
      if id == "" then None
      else
        var url := Host + href;
        Some(Article(id, Strip(text), url, ListDate(e), if resolve then lookup(url) else None))
  }

  /** The page's articles, in entry order. */
  function PageArticles(entries: seq<Entry>, resolve: bool, lookup: Lookups): seq<Article>
  {
    if entries == [] then []
    else
      var rest := PageArticles(entries[1..], resolve, lookup);
      match ToArticle(entries[0], resolve, lookup)
      case None => rest
      case Some(a) => [a] + rest
  }

  /** An entry is kept exactly when it has a title div with a link whose id is not empty. */
  lemma ToArticleKept(e: Entry, resolve: bool, lookup: Lookups)
    ensures ToArticle(e, resolve, lookup).Some? <==> e.title.TitleLink? && ArticleId(e.title.href) != ""
    ensures ToArticle(e, resolve, lookup).Some? ==>
      var a := ToArticle(e, resolve, lookup).value;
      && a.id == ArticleId(e.title.href) && '/' !in a.id
      && a.title == Strip(e.title.text) && a.url == Host + e.title.href && a.listDate == ListDate(e)
      && a.datetime == (if resolve then lookup(a.url) else None)
  {
    if e.title.TitleLink? {
      ArticleIdNoSlash(e.title.href);
    }
  }

  /** The articles of consecutive runs of entries are the runs' articles, in order. */
  lemma {:induction false} PageArticlesAppend(xs: seq<Entry>, ys: seq<Entry>, resolve: bool,
                                              lookup: Lookups)
    ensures PageArticles(xs + ys, resolve, lookup) == PageArticles(xs, resolve, lookup) + PageArticles(ys, resolve, lookup)
    decreases |xs|
  {
    if xs == [] {
      assert xs + ys == ys;
    } else {
      assert (xs + ys)[1..] == xs[1..] + ys;
      PageArticlesAppend(xs[1..], ys, resolve, lookup);
    }
  }

  /** Every article comes from some entry of the page, and there are no more articles than entries. */
  lemma {:induction false} PageArticlesFromEntries(entries: seq<Entry>, resolve: bool,
                                                   lookup: Lookups)
    ensures |PageArticles(entries, resolve, lookup)| <= |entries|
    ensures forall a :: a in PageArticles(entries, resolve, lookup) ==>
      exists i :: 0 <= i < |entries| && ToArticle(entries[i], resolve, lookup) == Some(a)
    decreases |entries|
  {
    if entries != [] {
      PageArticlesFromEntries(entries[1..], resolve, lookup);
      forall a | a in PageArticles(entries[1..], resolve, lookup)
        ensures exists i :: 0 <= i < |entries| && ToArticle(entries[i], resolve, lookup) == Some(a)
      {
        var i :| 0 <= i < |entries[1..]| && ToArticle(entries[1..][i], resolve, lookup) == Some(a);
        assert entries[1..][i] == entries[i + 1];
      }
    }
  }

  /** Without a cutoff no article page is requested. */
  lemma {:induction false} UnresolvedWithoutCutoff(entries: seq<Entry>, lookup: Lookups)
    ensures forall a :: a in PageArticles(entries, false, lookup) ==> a.datetime.None?
    decreases |entries|
  {
    if entries != [] {
      UnresolvedWithoutCutoff(entries[1..], lookup);
    }
  }

  /** The `for entry in soup.find_all('div', class_='r-ent')` loop. */
  method ParseEntries(entries: seq<Entry>, resolve: bool, pages: ArticlePages)
    returns (pageArticles: seq<Article>)
    ensures pageArticles == PageArticles(entries, resolve, Lookup(pages))
  {
    pageArticles := [];
    var i := 0;
    while i < |entries|
      invariant i <= |entries|
      invariant pageArticles == PageArticles(entries[..i], resolve, Lookup(pages))
    {
      var entry := entries[i];
      PageArticlesSnoc(entries, i, resolve, Lookup(pages));
      i := i + 1;
      match entry.title
      case NoTitleDiv =>
      case TitleWithoutLink =>
      case TitleLink(text, href) =>
        var articleId := ArticleId(href);
        if articleId != "" {
          var url := Host + href;
          var datetime := None;
          if resolve {
            datetime := ArticleMeta.FetchArticleDatetime(pages(url));
          }
          pageArticles := pageArticles + [Article(articleId, Strip(text), url, ListDate(entry), datetime)];
        }
    }
    assert entries[..i] == entries;
  }

  /** One more entry adds the article it yields, if any. */
  lemma PageArticlesSnoc(entries: seq<Entry>, i: nat, resolve: bool, lookup: Lookups)
    requires i < |entries|
    ensures PageArticles(entries[..i + 1], resolve, lookup) ==
      PageArticles(entries[..i], resolve, lookup) +
      (match ToArticle(entries[i], resolve, lookup) case None => [] case Some(a) => [a])
  {
    assert entries[..i + 1] == entries[..i] + [entries[i]];
    PageArticlesAppend(entries[..i], [entries[i]], resolve, lookup);
    assert [entries[i]][1..] == [];
  }

  // ---------------------------------------------------------------------------
  // The previous-page link
  // ---------------------------------------------------------------------------

  /**
   * `int(href.split('/')[-1].replace('index', '').replace('.html', ''))`,
   * `None` where `int` raises `ValueError`.
   */
  function ParsePrevIndex(href: string): Option<int>
  {
    ParseInt(RemoveAll(RemoveAll(LastSegment(href, '/'), "index"), ".html"))
  }

  /** The link to page `n` yields `n`. */
  lemma ParsePrevIndexRoundTrip(board: string, n: nat)
    ensures ParsePrevIndex(IndexHref(board, n)) == Some(n)
  {
    var digits := NatToStr(n);
    IndexFileName(board, n);
    DropIndexWord(digits);
    RemoveAllTrailing(digits, ".html") by {
      assert forall i :: 0 <= i < |digits| ==> IsDigit(digits[i]);
    }
    ParsePrevIndexSteps(IndexHref(board, n), "index" + digits + ".html", digits + ".html", digits);
    ParseIntNatToStr(n);
  }

  lemma ParsePrevIndexSteps(href: string, file: string, number: string, digits: string)
    requires LastSegment(href, '/') == file
    requires RemoveAll(file, "index") == number
    requires RemoveAll(number, ".html") == digits
    ensures ParsePrevIndex(href) == ParseInt(digits)
  {
  }

  /** The file name of page `n`'s link. */
  lemma IndexFileName(board: string, n: nat)
    ensures LastSegment(IndexHref(board, n), '/') == "index" + NatToStr(n) + ".html"
  {
    var digits := NatToStr(n);
    var file := "index" + digits + ".html";
    assert IndexHref(board, n) == ("/bbs/" + board) + ['/'] + file;
    assert '/' !in file by {
      assert forall i :: 0 <= i < |digits| ==> IsDigit(digits[i]);
    }
    LastSegmentAfter("/bbs/" + board, file, '/');
  }

  /** Removing `index` from `index{digits}.html` leaves `{digits}.html`. */
  lemma DropIndexWord(digits: string)
    requires AllDigits(digits)
    ensures RemoveAll("index" + digits + ".html", "index") == digits + ".html"
  {
    assert "index" + digits + ".html" == "index" + (digits + ".html");
    RemoveAllLeading("index", digits + ".html");
    assert 'i' !in digits + ".html" by {
      assert forall i :: 0 <= i < |digits| ==> IsDigit(digits[i]);
    }
    RemoveAllAbsent(digits + ".html", "index");
  }

  /** The newest page's own name carries no number, and yields none. */
  lemma ParsePrevIndexNoNumber(board: string)
    ensures ParsePrevIndex("/bbs/" + board + "/index.html") == None
  {
    var href := "/bbs/" + board + "/index.html";
    var file := "index.html";
    assert href == ("/bbs/" + board) + ['/'] + file;
    LastSegmentAfter("/bbs/" + board, file, '/');
    assert RemoveAll(file, "index") == ".html" by {
      assert file == "index" + ".html";
      RemoveAllLeading("index", ".html");
      RemoveAllAbsent(".html", "index");
    }
    assert RemoveAll(".html", ".html") == [] by {
      assert ".html" == [] + ".html";
      RemoveAllTrailing([], ".html");
    }
    ParsePrevIndexSteps(href, file, ".html", []);
    ParseIntBlank([]);
  }
}
