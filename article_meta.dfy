/**
 * `fetch_article_datetime` (utils.py): fetch an article page with two
 * attempts, walk its header's tag/value pairs and read the first `時間`
 * value as a PTT timestamp. An article page is reduced to the texts of its
 * `span.article-meta-tag` and `span.article-meta-value` elements, in
 * document order, each as `get_text(strip=True)` yields it; the pairs are
 * formed as `zip` forms them.
 */
module ArticleMeta {
  import opened Wrappers
  import opened ArticleTime
  import Retry

  datatype ArticlePage = ArticlePage(metaTags: seq<string>, metaValues: seq<string>)

  /** The label of the header line that holds the posting time. */
  const TimeLabel: string := "時間"

  /** `zip` stops at the shorter of the two lists. */
  function PairCount(p: ArticlePage): (n: nat)
    ensures n <= |p.metaTags| && n <= |p.metaValues|
    ensures n == |p.metaTags| || n == |p.metaValues|
  {
    if |p.metaTags| <= |p.metaValues| then |p.metaTags| else |p.metaValues|
  }

  /** Pair `i` is the time line: its tag text is `時間`. */
  predicate IsTimeTag(p: ArticlePage, i: nat)
    requires i < PairCount(p)
  {
    p.metaTags[i] == TimeLabel
  }

  /** The first time line among the pairs from `from` on. */
  function TimeIndexFrom(p: ArticlePage, from: nat): (r: Option<nat>)
    ensures r.Some? ==> from <= r.value < PairCount(p) && IsTimeTag(p, r.value)
    ensures r.Some? ==> forall j :: from <= j < r.value ==> !IsTimeTag(p, j)
    ensures r.None? ==> forall j :: from <= j < PairCount(p) ==> !IsTimeTag(p, j)
    decreases PairCount(p) - from
  {
    if from >= PairCount(p) then None
    else if IsTimeTag(p, from) then Some(from)
    else TimeIndexFrom(p, from + 1)
  }

  /**
   * The posting time a page declares: the first time line decides, whether
   * or not its value parses; without one there is none.
   */
  function PostedAt(p: ArticlePage): (r: Option<CivilTime>)
    ensures r.Some? ==> Valid(r.value)
  {
    match TimeIndexFrom(p, 0)
    case None => None
    case Some(i) => ParseTimestamp(p.metaValues[i])
  }

  /** The loop over the pairs, returning at the first time line. */
  method ScanMeta(p: ArticlePage) returns (t: Option<CivilTime>)
    ensures t == PostedAt(p)
  {
    var tags, values := p.metaTags, p.metaValues;
    var i := 0;
    while i < |tags| && i < |values|
      invariant i <= PairCount(p)
      invariant TimeIndexFrom(p, i) == TimeIndexFrom(p, 0)
    {
      if tags[i] == TimeLabel {
        t := ParseTimestamp(values[i]);
        return;
      }
      i := i + 1;
    }
    t := None;
  }

  /** A page without a time line declares no time. */
  lemma NoTimeLineNoTime(p: ArticlePage)
    requires forall j :: 0 <= j < PairCount(p) ==> p.metaTags[j] != TimeLabel
    ensures PostedAt(p) == None
  {
    NoTimeIndexFrom(p, 0);
  }

  lemma {:induction false} NoTimeIndexFrom(p: ArticlePage, from: nat)
    requires forall j :: from <= j < PairCount(p) ==> !IsTimeTag(p, j)
    ensures TimeIndexFrom(p, from) == None
    decreases PairCount(p) - from
  {
    if from < PairCount(p) {
      NoTimeIndexFrom(p, from + 1);
    }
  }

  /** The first time line decides, and only it. */
  lemma FirstTimeLineDecides(p: ArticlePage, i: nat)
    requires i < PairCount(p) && IsTimeTag(p, i)
    requires forall j :: 0 <= j < i ==> !IsTimeTag(p, j)
    ensures PostedAt(p) == ParseTimestamp(p.metaValues[i])
  {
    FirstTimeIndexFrom(p, 0, i);
  }

  lemma {:induction false} FirstTimeIndexFrom(p: ArticlePage, from: nat, i: nat)
    requires from <= i < PairCount(p) && IsTimeTag(p, i)
    requires forall j :: from <= j < i ==> !IsTimeTag(p, j)
    ensures TimeIndexFrom(p, from) == Some(i)
    decreases i - from
  {
    if from < i {
      FirstTimeIndexFrom(p, from + 1, i);
    }
  }

  /** Pairs after the first time line do not matter. */
  lemma LaterPairsIgnored(p: ArticlePage, q: ArticlePage, i: nat)
    requires i < PairCount(p) && IsTimeTag(p, i)
    requires forall j :: 0 <= j < i ==> !IsTimeTag(p, j)
    requires i < PairCount(q)
    requires q.metaTags[..i + 1] == p.metaTags[..i + 1] && q.metaValues[..i + 1] == p.metaValues[..i + 1]
    ensures PostedAt(q) == PostedAt(p)
  {
    assert q.metaTags[i] == q.metaTags[..i + 1][i];
    assert p.metaTags[i] == p.metaTags[..i + 1][i];
    assert q.metaValues[i] == q.metaValues[..i + 1][i];
    assert p.metaValues[i] == p.metaValues[..i + 1][i];
    forall j | 0 <= j < i
      ensures !IsTimeTag(q, j)
    {
      assert q.metaTags[j] == q.metaTags[..i + 1][j];
      assert p.metaTags[j] == p.metaTags[..i + 1][j];
      assert !IsTimeTag(p, j);
    }
    FirstTimeLineDecides(p, i);
    FirstTimeLineDecides(q, i);
  }

  /** A tag without a value to pair with is never looked at. */
  lemma UnpairedTagIgnored(p: ArticlePage, extra: string)
    requires |p.metaTags| >= |p.metaValues|
    ensures PostedAt(ArticlePage(p.metaTags + [extra], p.metaValues)) == PostedAt(p)
  {
    var q := ArticlePage(p.metaTags + [extra], p.metaValues);
    assert PairCount(q) == PairCount(p);
    forall j | 0 <= j < PairCount(p)
      ensures q.metaTags[j] == p.metaTags[j]
    {
    }
    SameTimeIndex(p, q, 0);
  }

  lemma {:induction false} SameTimeIndex(p: ArticlePage, q: ArticlePage, from: nat)
    requires PairCount(q) == PairCount(p)
    requires forall j :: 0 <= j < PairCount(p) ==> q.metaTags[j] == p.metaTags[j] && q.metaValues[j] == p.metaValues[j]
    ensures TimeIndexFrom(q, from) == TimeIndexFrom(p, from)
    decreases PairCount(p) - from
  {
    if from < PairCount(p) {
      SameTimeIndex(p, q, from + 1);
    }
  }

  /** What `fetch_article_datetime` returns, given the result of fetching the page. */
  function ArticleDatetime(response: Option<ArticlePage>): (r: Option<int>)
  {
    match response
    case None => None
    case Some(p) =>
      match PostedAt(p)
      case None => None
      case Some(t) => Some(ToSeconds(t))
  }

  /**
   * The looked-up time, as seconds of Taipei local time, orders articles as
   * their header times do.
   */
  lemma ArticleDatetimeOrder(p: ArticlePage, q: ArticlePage)
    requires PostedAt(p).Some? && PostedAt(q).Some?
    ensures ArticleDatetime(Some(p)).Some? && ArticleDatetime(Some(q)).Some?
    ensures ArticleDatetime(Some(p)).value < ArticleDatetime(Some(q)).value <==>
      Before(PostedAt(p).value, PostedAt(q).value)
  {
    ToSecondsOrder(PostedAt(p).value, PostedAt(q).value);
  }

  /** An unreachable page has no time. */
  lemma UnreachableNoTime(attempt: nat -> Option<ArticlePage>)
    requires attempt(0).None? && attempt(1).None?
    ensures ArticleDatetime(Retry.RetryResult(attempt, Retry.ArticleRetries)) == None
  {
    Retry.RetryResultCharacterized(attempt, Retry.ArticleRetries);
  }

  /**
   * `fetch_article_datetime(url)`: `attempt(k)` is the outcome of the k-th
   * request for the article's page.
   */
  method FetchArticleDatetime(attempt: nat -> Option<ArticlePage>) returns (dt: Option<int>)
    ensures dt == ArticleDatetime(Retry.RetryResult(attempt, Retry.ArticleRetries))
  {
    var response, _, _ := Retry.FetchWithRetry(attempt, Retry.ArticleRetries);
    if response.None? {
      return None;
    }
    var t := ScanMeta(response.value);
    if t.None? {
      return None;
    }
    return Some(ToSeconds(t.value));
  }
}
