/**
 * `main` and `send_discord_notification` (ptt_monitor.py): read the
 * configuration from the environment, walk the board back to the cutoff,
 * and post one Discord message for every article that is recent enough and
 * whose title holds a keyword, ignoring case.
 *
 * The environment is given as the values `os.environ.get` returns, the
 * current Taipei time `now` as seconds of UTC+8 time, and the article pages
 * that `main` requests again (for articles whose time the walk could not
 * read) as their own oracle `refetch`, since a second request may be answered
 * differently from the first.
 */
module Monitor {
  import opened Wrappers
  import opened PyStrings
  import opened Listing
  import ArticleMeta
  import Walker

  const SecondsPerDay: int := 86400

  /** What a message says in place of an empty list date. */
  const UnknownDate: string := "未知"

  // ---------------------------------------------------------------------------
  // Configuration
  // ---------------------------------------------------------------------------

  /** `os.environ.get` of `PTT_BOARD`, `PTT_KEYWORDS`, `DISCORD_WEBHOOK` and `PTT_DAYS`. */
  datatype Environment = Environment(board: Option<string>, keywords: Option<string>,
                                     webhook: Option<string>, days: Option<string>)

  /** The reasons `main` stops with exit status 1, in the order it checks them. */
  datatype ConfigError = DaysNotInteger | DaysNegative | MissingBoard | MissingKeywords
                       | MissingWebhook | NoValidKeywords

  datatype Config = Config(board: string, keywords: seq<string>, webhook: string, days: int)

  /** `not value`: the variable is unset or empty. */
  predicate Unset(v: Option<string>)
  {
    v.None? || v.value == ""
  }

  /** `PTT_DAYS` with its default `'1'`. */
  function DaysText(env: Environment): string
  {
    if env.days.None? then "1" else env.days.value
  }

  /** The pieces, stripped, that are not blank, in order. */
  function KeepKeywords(pieces: seq<string>): (ks: seq<string>)
    ensures |ks| <= |pieces|
  {
    if pieces == [] then []
    else
      var k := Strip(pieces[0]);
      var rest := KeepKeywords(pieces[1..]);
      if k != "" then [k] + rest else rest
  }

  /** `[k.strip() for k in keywords_str.split(',') if k.strip()]`. */
  function ParseKeywords(s: string): (ks: seq<string>)
    ensures forall i :: 0 <= i < |ks| ==> ks[i] != "" && Trimmed(ks[i]) && ',' !in ks[i]
  {
    var pieces := Split(s, ',');
    SplitPieces(s, ',');
    KeepKeywordsTrimmed(pieces);
    KeepKeywordsWithout(pieces, ',');
    KeepKeywords(pieces)
  }

  /** Every keyword kept is non-empty and has no whitespace at either end. */
  lemma {:induction false} KeepKeywordsTrimmed(pieces: seq<string>)
    ensures forall i :: 0 <= i < |KeepKeywords(pieces)| ==>
      KeepKeywords(pieces)[i] != "" && Trimmed(KeepKeywords(pieces)[i])
    decreases |pieces|
  {
    if pieces != [] {
      KeepKeywordsTrimmed(pieces[1..]);
    }
  }

  /** A strip holds no character its argument lacks. */
  lemma StripWithin(s: string, c: char)
    requires c !in s
    ensures c !in Strip(s)
  {
    var r := Strip(s);
    var a := LeadingSpaces(s);
    forall k | 0 <= k < |r|
      ensures r[k] != c
    {
      assert r[k] == s[a + k];
    }
  }

  /** A character absent from every piece is absent from every keyword. */
  lemma {:induction false} KeepKeywordsWithout(pieces: seq<string>, c: char)
    requires forall j :: 0 <= j < |pieces| ==> c !in pieces[j]
    ensures forall i :: 0 <= i < |KeepKeywords(pieces)| ==> c !in KeepKeywords(pieces)[i]
    decreases |pieces|
  {
    if pieces != [] {
      assert forall j :: 0 <= j < |pieces[1..]| ==> pieces[1..][j] == pieces[j + 1];
      KeepKeywordsWithout(pieces[1..], c);
      StripWithin(pieces[0], c);
    }
  }

  /** Pieces that are already stripped and not blank are all kept. */
  lemma {:induction false} KeepKeywordsKeepsAll(pieces: seq<string>)
    requires forall i :: 0 <= i < |pieces| ==> pieces[i] != "" && Trimmed(pieces[i])
    ensures KeepKeywords(pieces) == pieces
    decreases |pieces|
  {
    if pieces != [] {
      assert forall i :: 0 <= i < |pieces[1..]| ==> pieces[1..][i] == pieces[i + 1];
      KeepKeywordsKeepsAll(pieces[1..]);
      StripTrimmed(pieces[0]);
    }
  }

  /** `p` is whitespace only. */
  predicate Blank(p: string)
  {
    forall k :: 0 <= k < |p| ==> IsSpace(p[k])
  }

  /** A piece strips to nothing exactly when it is whitespace only. */
  lemma StripBlank(p: string)
    ensures Strip(p) == "" <==> Blank(p)
  {
    if Blank(p) {
      assert LeadingSpaces(p) == |p|;
    }
  }

  /** Nothing is kept exactly when every piece is blank. */
  lemma {:induction false} KeepKeywordsNone(pieces: seq<string>)
    ensures KeepKeywords(pieces) == [] <==> forall j :: 0 <= j < |pieces| ==> Blank(pieces[j])
    decreases |pieces|
  {
    if pieces != [] {
      KeepKeywordsNone(pieces[1..]);
      StripBlank(pieces[0]);
      if forall j :: 0 <= j < |pieces[1..]| ==> Blank(pieces[1..][j]) {
        forall j | 0 < j < |pieces|
          ensures Blank(pieces[j])
        {
          assert pieces[j] == pieces[1..][j - 1];
        }
      } else {
        var j :| 0 <= j < |pieces[1..]| && !Blank(pieces[1..][j]);
        assert pieces[1..][j] == pieces[j + 1];
      }
    }
  }

  /** A keyword list written out with commas reads back as itself. */
  lemma KeywordsRoundTrip(ks: seq<string>)
    requires |ks| >= 1
    requires forall i :: 0 <= i < |ks| ==> ks[i] != "" && Trimmed(ks[i]) && ',' !in ks[i]
    ensures ParseKeywords(Join(ks, ',')) == ks
  {
    SplitJoin(ks, ',');
    KeepKeywordsKeepsAll(ks);
  }

  /** There is no valid keyword exactly when every comma-separated piece is whitespace only. */
  lemma NoKeywordsIff(s: string)
    ensures ParseKeywords(s) == [] <==> forall j :: 0 <= j < |Split(s, ',')| ==> Blank(Split(s, ',')[j])
  {
    var pieces := Split(s, ',');
    assert ParseKeywords(s) == KeepKeywords(pieces);
    KeepKeywordsNone(pieces);
    assert pieces == Split(s, ',');
    assert |pieces| == |Split(s, ',')|;
    assert forall j :: 0 <= j < |pieces| ==> pieces[j] == Split(s, ',')[j];
  }

  /**
   * The checks of `main` before it starts, in its order: the first that
   * fails decides the error.
   */
  function LoadConfig(env: Environment): (r: Result<Config, ConfigError>)
    ensures r.Success? ==>
      && r.value.days >= 0 && r.value.board != "" && r.value.webhook != "" && |r.value.keywords| >= 1
      && forall i :: 0 <= i < |r.value.keywords| ==>
           r.value.keywords[i] != "" && Trimmed(r.value.keywords[i]) && ',' !in r.value.keywords[i]
  {
    var days := ParseInt(DaysText(env));
    if days.None? then Failure(DaysNotInteger)
    else if days.value < 0 then Failure(DaysNegative)
    else if Unset(env.board) then Failure(MissingBoard)
    else if Unset(env.keywords) then Failure(MissingKeywords)
    else if Unset(env.webhook) then Failure(MissingWebhook)
    else
      var keywords := ParseKeywords(env.keywords.value);
      if keywords == [] then Failure(NoValidKeywords)
      else Success(Config(env.board.value, keywords, env.webhook.value, days.value))
  }

  /** The configuration is accepted exactly when every check passes, and then it holds what was given. */
  lemma LoadConfigAccepts(env: Environment)
    ensures LoadConfig(env).Success? <==>
      && ParseInt(DaysText(env)).Some? && ParseInt(DaysText(env)).value >= 0
      && !Unset(env.board) && !Unset(env.keywords) && !Unset(env.webhook)
      && ParseKeywords(env.keywords.value) != []
    ensures LoadConfig(env).Success? ==>
      LoadConfig(env).value == Config(env.board.value, ParseKeywords(env.keywords.value), env.webhook.value,
                                      ParseInt(DaysText(env)).value)
  {
  }

  /**
   * A bad `PTT_DAYS` is reported before anything else is looked at, and a
   * missing board before the keywords and the webhook.
   */
  lemma LoadConfigOrder(env: Environment)
    ensures ParseInt(DaysText(env)).None? ==> LoadConfig(env) == Failure(DaysNotInteger)
    ensures ParseInt(DaysText(env)).Some? && ParseInt(DaysText(env)).value < 0 ==>
      LoadConfig(env) == Failure(DaysNegative)
    ensures ParseInt(DaysText(env)).Some? && ParseInt(DaysText(env)).value >= 0 && Unset(env.board) ==>
      LoadConfig(env) == Failure(MissingBoard)
  {
  }

  /** Without `PTT_DAYS` the window is one day. */
  lemma DefaultDays(env: Environment)
    requires env.days.None? && LoadConfig(env).Success?
    ensures LoadConfig(env).value.days == 1
  {
    assert NatToStr(1) == "1";
    ParseIntNatToStr(1);
  }

  /** `PTT_DAYS` set to the empty string is not an integer (it is not the default). */
  lemma EmptyDaysRejected(env: Environment)
    requires env.days == Some("")
    ensures LoadConfig(env) == Failure(DaysNotInteger)
  {
    ParseIntBlank("");
  }

  /** Keywords that are all blank leave nothing to watch for. */
  lemma BlankKeywordsRejected(env: Environment)
    requires ParseInt(DaysText(env)).Some? && ParseInt(DaysText(env)).value >= 0
    requires !Unset(env.board) && !Unset(env.webhook)
    requires env.keywords == Some(" , ")
    ensures LoadConfig(env) == Failure(NoValidKeywords)
  {
    BlankPiecesNoKeywords();
  }

  lemma BlankPiecesNoKeywords()
    ensures ParseKeywords(" , ") == []
  {
    var pieces := [" ", " "];
    assert " , " == " " + [','] + " ";
    SplitAround(" ", " ", ',');
    SplitNoSeparator(" ", ',');
    assert Split(" , ", ',') == pieces;
    assert ParseKeywords(" , ") == KeepKeywords(pieces);
    assert Blank(pieces[0]) && Blank(pieces[1]);
    KeepKeywordsNone(pieces);
  }

  // ---------------------------------------------------------------------------
  // Matching
  // ---------------------------------------------------------------------------

  /** `any(keyword.lower() in title.lower() for keyword in keywords)`. */
  predicate TitleMatches(title: string, keywords: seq<string>)
  {
    exists i :: 0 <= i < |keywords| && Contains(Lower(title), Lower(keywords[i]))
  }

  /** The loop behind `any`, stopping at the first keyword found. */
  method MatchAny(title: string, keywords: seq<string>) returns (matched: bool)
    ensures matched == TitleMatches(title, keywords)
  {
    var lowered := Lower(title);
    var i := 0;
    while i < |keywords|
      invariant i <= |keywords|
      invariant forall j :: 0 <= j < i ==> !Contains(lowered, Lower(keywords[j]))
    {
      if Contains(lowered, Lower(keywords[i])) {
        return true;
      }
      i := i + 1;
    }
    return false;
  }

  /** Matching ignores the case of the title. */
  lemma MatchIgnoresTitleCase(title: string, keywords: seq<string>)
    ensures TitleMatches(Lower(title), keywords) == TitleMatches(title, keywords)
  {
    LowerIdempotent(title);
  }

  /** Matching ignores the case of the keywords. */
  lemma MatchIgnoresKeywordCase(title: string, keywords: seq<string>)
    ensures TitleMatches(title, seq(|keywords|, i requires 0 <= i < |keywords| => Lower(keywords[i]))) ==
            TitleMatches(title, keywords)
  {
    var lowered := seq(|keywords|, i requires 0 <= i < |keywords| => Lower(keywords[i]));
    forall i | 0 <= i < |keywords|
      ensures Lower(lowered[i]) == Lower(keywords[i])
    {
      LowerIdempotent(keywords[i]);
    }
  }

  /** A title that holds a keyword matches. */
  lemma KeywordInTitle(before: string, keyword: string, after: string, keywords: seq<string>)
    requires keyword in keywords
    ensures TitleMatches(before + keyword + after, keywords)
  {
    var i :| 0 <= i < |keywords| && keywords[i] == keyword;
    LowerConcat(before, keyword);
    LowerConcat(before + keyword, after);
    assert OccursAt(Lower(keyword), Lower(keyword), 0);
    ContainedInLarger(Lower(before), Lower(keyword), Lower(after), Lower(keyword));
  }

  /** A title that shares no first character with any keyword does not match. */
  lemma NoKeywordHeadInTitle(title: string, keywords: seq<string>)
    requires forall i :: 0 <= i < |keywords| ==> keywords[i] != [] && LowerChar(keywords[i][0]) !in Lower(title)
    ensures !TitleMatches(title, keywords)
  {
    forall i | 0 <= i < |keywords|
      ensures !Contains(Lower(title), Lower(keywords[i]))
    {
      AbsentHeadNotContained(Lower(title), Lower(keywords[i]));
    }
  }

  /** The keywords of the matching examples. */
  const ExampleKeywords: seq<string> := ["地震", "颱風", "停電"]

  /** Titles ending with, starting with or holding a keyword match. */
  lemma KeywordExamples()
    ensures TitleMatches("台灣發生地震", ExampleKeywords)
    ensures TitleMatches("颱風即將來襲", ExampleKeywords)
    ensures TitleMatches("突然停電了", ExampleKeywords)
    ensures TitleMatches("地震來了", ExampleKeywords)
  {
    var ks := ExampleKeywords;
    assert ks[0] == "地震" && ks[1] == "颱風" && ks[2] == "停電";
    KeywordInTitle("台灣發生", "地震", "", ks);
    assert "台灣發生" + "地震" + "" == "台灣發生地震";
    KeywordInTitle("", "颱風", "即將來襲", ks);
    assert "" + "颱風" + "即將來襲" == "颱風即將來襲";
    KeywordInTitle("突然", "停電", "了", ks);
    assert "突然" + "停電" + "了" == "突然停電了";
    KeywordInTitle("", "地震", "來了", ks);
    assert "" + "地震" + "來了" == "地震來了";
  }

  /** A title holding no keyword does not match. */
  lemma QuietTitleExample()
    ensures !TitleMatches("今天天氣很好", ExampleKeywords)
  {
    var quiet := "今天天氣很好";
    assert Lower(quiet) == quiet;
    NoKeywordHeadInTitle(quiet, ExampleKeywords);
  }

  // ---------------------------------------------------------------------------
  // Which articles are announced
  // ---------------------------------------------------------------------------

  /** `now - timedelta(days=days)`. */
  function Cutoff(now: int, days: int): (c: int)
    ensures days >= 0 ==> c <= now
    ensures now - c == days * SecondsPerDay
  {
    now - days * SecondsPerDay
  }

  /** `article.get('datetime') or fetch_article_datetime(article['url'])`: the page is asked again only when the walk found no time. */
  function EffectiveTime(a: Article, refetch: Lookups): Option<int>
  {
    if a.datetime.Some? then a.datetime else refetch(a.url)
  }

  /** An article is announced when its time is known, not before the cutoff, and its title matches. */
  predicate Announced(a: Article, cutoff: int, keywords: seq<string>, refetch: Lookups)
  {
    var t := EffectiveTime(a, refetch);
    t.Some? && t.value >= cutoff && TitleMatches(a.title, keywords)
  }

  /** The announced articles, in the order of the walk. */
  function AnnouncedArticles(articles: seq<Article>, cutoff: int, keywords: seq<string>,
                             refetch: Lookups): seq<Article>
  {
    if articles == [] then []
    else
      var rest := AnnouncedArticles(articles[1..], cutoff, keywords, refetch);
      if Announced(articles[0], cutoff, keywords, refetch) then [articles[0]] + rest else rest
  }

  /** The article pages `main` requests again: those of the articles the walk found no time for. */
  function Refetched(articles: seq<Article>): seq<string>
  {
    if articles == [] then []
    else
      var rest := Refetched(articles[1..]);
      if articles[0].datetime.None? then [articles[0].url] + rest else rest
  }

  /** Exactly the articles satisfying the condition are announced. */
  lemma {:induction false} AnnouncedMembers(articles: seq<Article>, cutoff: int, keywords: seq<string>,
                                            refetch: Lookups)
    ensures forall a :: a in AnnouncedArticles(articles, cutoff, keywords, refetch) <==>
      a in articles && Announced(a, cutoff, keywords, refetch)
    ensures |AnnouncedArticles(articles, cutoff, keywords, refetch)| <= |articles|
    decreases |articles|
  {
    if articles != [] {
      AnnouncedMembers(articles[1..], cutoff, keywords, refetch);
      assert articles == [articles[0]] + articles[1..];
    }
  }

  lemma {:induction false} AnnouncedAppend(xs: seq<Article>, ys: seq<Article>, cutoff: int,
                                           keywords: seq<string>, refetch: Lookups)
    ensures AnnouncedArticles(xs + ys, cutoff, keywords, refetch) ==
      AnnouncedArticles(xs, cutoff, keywords, refetch) + AnnouncedArticles(ys, cutoff, keywords, refetch)
    decreases |xs|
  {
    if xs == [] {
      assert xs + ys == ys;
    } else {
      assert (xs + ys)[1..] == xs[1..] + ys;
      AnnouncedAppend(xs[1..], ys, cutoff, keywords, refetch);
    }
  }

  lemma {:induction false} RefetchedAppend(xs: seq<Article>, ys: seq<Article>)
    ensures Refetched(xs + ys) == Refetched(xs) + Refetched(ys)
    decreases |xs|
  {
    if xs == [] {
      assert xs + ys == ys;
    } else {
      assert (xs + ys)[1..] == xs[1..] + ys;
      RefetchedAppend(xs[1..], ys);
    }
  }

  /**
   * A later cutoff announces the articles an earlier one announces that are
   * recent enough for it, and no others.
   */
  lemma {:induction false} LaterCutoffNarrows(articles: seq<Article>, early: int, late: int,
                                              keywords: seq<string>, refetch: Lookups)
    requires early <= late
    ensures AnnouncedArticles(AnnouncedArticles(articles, early, keywords, refetch), late, keywords, refetch) ==
      AnnouncedArticles(articles, late, keywords, refetch)
    decreases |articles|
  {
    if articles != [] {
      LaterCutoffNarrows(articles[1..], early, late, keywords, refetch);
    }
  }

  /** Articles whose time the walk read are decided without a request. */
  lemma {:induction false} ResolvedNeedsNoRefetch(articles: seq<Article>, cutoff: int, keywords: seq<string>,
                                                  refetch: Lookups, other: Lookups)
    requires forall i :: 0 <= i < |articles| ==> articles[i].datetime.Some?
    ensures Refetched(articles) == []
    ensures AnnouncedArticles(articles, cutoff, keywords, refetch) ==
      AnnouncedArticles(articles, cutoff, keywords, other)
    decreases |articles|
  {
    if articles != [] {
      assert forall i :: 0 <= i < |articles[1..]| ==> articles[1..][i] == articles[i + 1];
      ResolvedNeedsNoRefetch(articles[1..], cutoff, keywords, refetch, other);
    }
  }

  /** A page is asked for again exactly when it belongs to an article the walk found no time for. */
  lemma {:induction false} RefetchedUnresolved(articles: seq<Article>)
    ensures forall u :: u in Refetched(articles) <==>
      exists i :: 0 <= i < |articles| && articles[i].datetime.None? && articles[i].url == u
    decreases |articles|
  {
    if articles != [] {
      var tail := articles[1..];
      RefetchedUnresolved(tail);
      forall u | u in Refetched(tail)
        ensures exists i :: 0 <= i < |articles| && articles[i].datetime.None? && articles[i].url == u
      {
        var i :| 0 <= i < |tail| && tail[i].datetime.None? && tail[i].url == u;
        assert tail[i] == articles[i + 1];
      }
      forall i | 0 < i < |articles| && articles[i].datetime.None?
        ensures articles[i].url in Refetched(tail)
      {
        assert tail[i - 1] == articles[i];
      }
    }
  }

  // ---------------------------------------------------------------------------
  // Messages
  // ---------------------------------------------------------------------------

  /** One `requests.post(webhook_url, json={'content': content})`. */
  datatype Post = Post(webhook: string, content: string)

  /** The message text: `f"{list_date} | {title} {url}".strip()`, `未知` standing in for an empty date. */
  function NotificationContent(a: Article): string
  {
    var listDate := if a.listDate == "" then UnknownDate else a.listDate;
    Strip(listDate + " | " + a.title + " " + a.url)
  }

  /** A date that does not start with space and a URL that does not end with space are printed as they are. */
  lemma NotificationLayout(a: Article)
    requires a.listDate == "" || !IsSpace(a.listDate[0])
    requires a.url != "" && !IsSpace(a.url[|a.url| - 1])
    ensures NotificationContent(a) ==
      (if a.listDate == "" then UnknownDate else a.listDate) + " | " + a.title + " " + a.url
  {
    var listDate := if a.listDate == "" then UnknownDate else a.listDate;
    var s := listDate + " | " + a.title + " " + a.url;
    assert s[0] == listDate[0] by {
      assert s == listDate + (" | " + a.title + " " + a.url);
    }
    assert s[|s| - 1] == a.url[|a.url| - 1];
    StripTrimmed(s);
  }

  /** An article listed without a date is announced as of unknown date. */
  lemma UnknownDateShown(a: Article)
    requires a.listDate == ""
    requires a.url != "" && !IsSpace(a.url[|a.url| - 1])
    ensures StartsWith(NotificationContent(a), "未知 | ")
  {
    NotificationLayout(a);
    var rest := a.title + " " + a.url;
    assert UnknownDate + " | " + a.title + " " + a.url == "未知 | " + rest;
  }

  /** `send_discord_notification(webhook_url, article)` as a value. */
  function PostFor(webhook: string, a: Article): Post
  {
    Post(webhook, NotificationContent(a))
  }

  // ---------------------------------------------------------------------------
  // The run
  // ---------------------------------------------------------------------------

  /** The messages for the announced articles, one each, in order. */
  function Posted(webhook: string, announced: seq<Article>): (ps: seq<Post>)
    ensures |ps| == |announced|
    ensures forall j :: 0 <= j < |ps| ==> ps[j] == PostFor(webhook, announced[j])
  {
    if announced == [] then [] else [PostFor(webhook, announced[0])] + Posted(webhook, announced[1..])
  }

  lemma {:induction false} PostedAppend(webhook: string, xs: seq<Article>, ys: seq<Article>)
    ensures Posted(webhook, xs + ys) == Posted(webhook, xs) + Posted(webhook, ys)
  {
    var l, r := Posted(webhook, xs + ys), Posted(webhook, xs) + Posted(webhook, ys);
    assert |l| == |r|;
    forall j | 0 <= j < |l|
      ensures l[j] == r[j]
    {
      if j < |xs| {
        assert (xs + ys)[j] == xs[j];
      } else {
        assert (xs + ys)[j] == ys[j - |xs|];
      }
    }
  }

  /**
   * One article in the loop of `main`: the page it asks for again, if any,
   * and the message it posts, if any.
   */
  method ClassifyOne(article: Article, cutoff: int, keywords: seq<string>, webhook: string,
                     refetch: ArticlePages)
    returns (post: seq<Post>, asked: seq<string>)
    ensures post == Posted(webhook, AnnouncedArticles([article], cutoff, keywords, Lookup(refetch)))
    ensures asked == Refetched([article])
  {
    post, asked := [], [];
    var postDt := article.datetime;
    if postDt.None? {
      postDt := ArticleMeta.FetchArticleDatetime(refetch(article.url));
      asked := [article.url];
    }
    assert postDt == EffectiveTime(article, Lookup(refetch));
    if postDt.None? || postDt.value < cutoff {
      ClassifiedOne(webhook, article, cutoff, keywords, Lookup(refetch), postDt, false, post);
      return;
    }
    var matched := MatchAny(article.title, keywords);
    if matched {
      post := [PostFor(webhook, article)];
    }
    ClassifiedOne(webhook, article, cutoff, keywords, Lookup(refetch), postDt, matched, post);
  }

  /** One article posts its message exactly when it has a recent enough time and a matching title. */
  lemma ClassifiedOne(webhook: string, article: Article, cutoff: int, keywords: seq<string>, refetch: Lookups,
                      t: Option<int>, matched: bool, post: seq<Post>)
    requires t == EffectiveTime(article, refetch)
    requires t.Some? && t.value >= cutoff ==> matched == TitleMatches(article.title, keywords)
    requires post == if t.Some? && t.value >= cutoff && matched then [PostFor(webhook, article)] else []
    ensures post == Posted(webhook, AnnouncedArticles([article], cutoff, keywords, refetch))
  {
    assert [article][1..] == [];
  }

  /**
   * The loop of `main` over the articles: look the time up again where it
   * is missing, skip what has no time or is too old, and post what matches.
   */
  method Classify(articles: seq<Article>, cutoff: int, keywords: seq<string>, webhook: string,
                  refetch: ArticlePages)
    returns (posts: seq<Post>, newMatches: nat, lookups: seq<string>)
    ensures posts == Posted(webhook, AnnouncedArticles(articles, cutoff, keywords, Lookup(refetch)))
    ensures newMatches == |posts|
    ensures lookups == Refetched(articles)
  {
    posts, newMatches, lookups := [], 0, [];
    for i := 0 to |articles|
      invariant posts == Posted(webhook, AnnouncedArticles(articles[..i], cutoff, keywords, Lookup(refetch)))
      invariant newMatches == |posts|
      invariant lookups == Refetched(articles[..i])
    {
      var article := articles[i];
      var post, asked := ClassifyOne(article, cutoff, keywords, webhook, refetch);
      ClassifySnoc(articles, i, cutoff, keywords, webhook, Lookup(refetch));
      lookups := lookups + asked;
      posts := posts + post;
      newMatches := newMatches + |post|;
    }
    assert articles[..|articles|] == articles;
  }

  /** One more article adds its own message and its own request, if any. */
  lemma ClassifySnoc(articles: seq<Article>, i: nat, cutoff: int, keywords: seq<string>, webhook: string,
                     refetch: Lookups)
    requires i < |articles|
    ensures Posted(webhook, AnnouncedArticles(articles[..i + 1], cutoff, keywords, refetch)) ==
      Posted(webhook, AnnouncedArticles(articles[..i], cutoff, keywords, refetch)) +
      Posted(webhook, AnnouncedArticles([articles[i]], cutoff, keywords, refetch))
    ensures Refetched(articles[..i + 1]) == Refetched(articles[..i]) + Refetched([articles[i]])
  {
    assert articles[..i + 1] == articles[..i] + [articles[i]];
    AnnouncedAppend(articles[..i], [articles[i]], cutoff, keywords, refetch);
    PostedAppend(webhook, AnnouncedArticles(articles[..i], cutoff, keywords, refetch),
                 AnnouncedArticles([articles[i]], cutoff, keywords, refetch));
    RefetchedAppend(articles[..i], [articles[i]]);
  }

  /** How a run of `main` ends. */
  datatype Outcome =
    | Rejected(error: ConfigError)
    | NoArticles(requested: seq<string>)
    | Finished(requested: seq<string>, refetched: seq<string>, announced: seq<Article>)

  /** What a run of `main` does, given the environment, the clock and the site's answers. */
  function MonitorOutcome(env: Environment, now: int, listing: Walker.Listings, lookup: Lookups,
                          refetch: Lookups): Outcome
  {
    match LoadConfig(env)
    case Failure(e) => Rejected(e)
    case Success(config) =>
      var cutoff := Cutoff(now, config.days);
      var walk := Walker.Walk(config.board, Some(cutoff), listing, lookup);
      if walk.articles == [] then NoArticles(walk.requested)
      else Finished(walk.requested, Refetched(walk.articles),
                    AnnouncedArticles(walk.articles, cutoff, config.keywords, refetch))
  }

  /** `main`, returning how it ended and the messages it posted. */
  method RunMonitor(env: Environment, now: int, listing: Walker.Listings, pages: ArticlePages,
                    refetch: ArticlePages)
    returns (outcome: Outcome, posts: seq<Post>, newMatches: nat)
    ensures outcome == MonitorOutcome(env, now, listing, Lookup(pages), Lookup(refetch))
    ensures outcome.Finished? ==> posts == Posted(LoadConfig(env).value.webhook, outcome.announced)
    ensures newMatches == |posts|
    ensures !outcome.Finished? ==> posts == [] && newMatches == 0
  {
    posts, newMatches := [], 0;
    var loaded := LoadConfig(env);
    if loaded.Failure? {
      return Rejected(loaded.error), posts, newMatches;
    }
    var config := loaded.value;
    var cutoff := Cutoff(now, config.days);
    var articles, requested := Walker.GetPttArticles(config.board, Some(cutoff), listing, pages);
    if articles == [] {
      return NoArticles(requested), posts, newMatches;
    }
    var lookups;
    posts, newMatches, lookups := Classify(articles, cutoff, config.keywords, config.webhook, refetch);
    outcome := Finished(requested, lookups, AnnouncedArticles(articles, cutoff, config.keywords, Lookup(refetch)));
  }

  /**
   * A run that gets going starts at the board's newest page, and every article
   * it announces was gathered by the walk, is recent enough and matches a keyword.
   */
  lemma AnnouncedAreRecentMatches(env: Environment, now: int, listing: Walker.Listings, lookup: Lookups,
                                  refetch: Lookups)
    requires MonitorOutcome(env, now, listing, lookup, refetch).Finished?
    ensures var o := MonitorOutcome(env, now, listing, lookup, refetch);
      var config := LoadConfig(env).value;
      var walk := Walker.Walk(config.board, Some(Cutoff(now, config.days)), listing, lookup);
      && o.requested[0] == NewestUrl(config.board)
      && |o.announced| <= |walk.articles|
      && forall a :: a in o.announced ==>
           && a in walk.articles
           && EffectiveTime(a, refetch).Some?
           && now - EffectiveTime(a, refetch).value <= config.days * SecondsPerDay
           && TitleMatches(a.title, config.keywords)
  {
    var config := LoadConfig(env).value;
    var cutoff := Cutoff(now, config.days);
    Walker.WalkRequestOrder(config.board, Some(cutoff), listing, lookup);
    AnnouncedMembers(Walker.Walk(config.board, Some(cutoff), listing, lookup).articles, cutoff,
                     config.keywords, refetch);
  }

  /** A rejected configuration makes no request and posts nothing. */
  lemma RejectedMakesNoRequest(env: Environment, now: int, listing: Walker.Listings, lookup: Lookups,
                               refetch: Lookups)
    ensures MonitorOutcome(env, now, listing, lookup, refetch).Rejected? <==> LoadConfig(env).Failure?
    ensures LoadConfig(env).Failure? ==>
      MonitorOutcome(env, now, listing, lookup, refetch) == Rejected(LoadConfig(env).error)
  {
  }
}
