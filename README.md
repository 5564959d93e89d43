# PTT monitor, modelled in Dafny

The PTT monitor watches one board of the PTT bulletin board system
(`https://www.ptt.cc`). It does one run per invocation:

- It reads its configuration from the environment: board, comma-separated keywords, Discord webhook, and a window in days.
- It walks the board's index pages from the newest back in time. For every listed article it looks up the posting time from the article page's header.
- It stops at the first page whose newest resolved time is older than the cutoff, `now - days`.
- For every gathered article that is at or after the cutoff and whose title contains a keyword (ignoring case), it posts a Discord message `"{list date} | {title} {url}"`.

The model follows the program's structure, one module per concern:

| file | module | models |
|---|---|---|
| `wrappers.dfy` | `Wrappers` | `Option` and `Result` |
| `py_strings.dfy` | `PyStrings` | the Python `str` operations the program relies on: `strip`, `split`, `'sep'.join`, `replace(x, '')`, `lower`, `in`, `int()` and `str()` of integers |
| `retry.dfy` | `Retry` | `fetch_ptt_page_with_retry` (utils.py): the attempt loop, its budget and its backoff schedule |
| `article_time.dfy` | `ArticleTime` | `datetime.strptime(s, '%a %b %d %H:%M:%S %Y')` and timestamps as seconds of UTC+8 civil time |
| `article_meta.dfy` | `ArticleMeta` | `fetch_article_datetime` (utils.py): the header scan and the time it returns |
| `listing.dfy` | `Listing` | one index page in `get_ptt_articles` (ptt_monitor.py): entries to articles, the article-id rule, index URLs, the page number in the "‹ 上頁" link |
| `walker.dfy` | `Walker` | the page walk of `get_ptt_articles`: which pages are requested, in which order, and which articles come back |
| `monitor.dfy` | `Monitor` | `main` and `send_discord_notification`: configuration checks, keyword parsing and matching, the cutoff, which articles are announced, the message text |

The outside world is modelled as inputs:

- Every HTTP request is an oracle: `listing(url)(k)` and `pages(url)(k)` give the outcome of the k-th attempt of any fetch of `url`; every fetch starts again at attempt 0. `None` is a request error; `Some(page)` is a page already reduced to what BeautifulSoup extracts from it.
- The current time `now` is a parameter.
- The environment is the four values `os.environ.get` returns.
- The article pages that `main` requests a second time come from their own oracle, `refetch`.
- The walk and the announcement rule, as functions, take the article times as a lookup `url -> time`. `Listing.Lookup(pages)` is the lookup the article pages answer through `fetch_article_datetime`, and the loop methods that fetch article pages are proved against the functions applied to that lookup.

The loops of the program are Dafny methods with loop invariants. Each is proved equal to a specification function:

- `Retry.FetchWithRetry`
- `ArticleMeta.ScanMeta`
- `Listing.ParseEntries`
- `Walker.GetPttArticles`
- `Monitor.MatchAny`
- `Monitor.Classify`

The lemmas state the program's properties about those functions.

## Model

| member | source | states |
|---|---|---|
| PyStrings.Strip | ptt_monitor.py:62 | `s.strip()` is the infix of `s` left once the leading and trailing whitespace are removed, and neither of its ends is whitespace |
| PyStrings.StripTrimmed | ptt_monitor.py:173 | a string with no whitespace at either end is its own strip |
| PyStrings.StripIdempotent | ptt_monitor.py:173 | stripping twice is stripping once |
| PyStrings.Split | ptt_monitor.py:173 | `str.split(sep)` yields at least one piece; see PyStrings.SplitPieces, JoinSplit and SplitJoin |
| PyStrings.SplitPieces | ptt_monitor.py:173 | no piece of `s.split(sep)` contains the separator |
| PyStrings.JoinSplit | ptt_monitor.py:68 | joining the pieces of `s.split(sep)` with `sep` gives back `s` |
| PyStrings.SplitJoin | ptt_monitor.py:173 | splitting a join of separator-free parts gives back the parts |
| PyStrings.LastSegment | ptt_monitor.py:68 | `s.split(sep)[-1]` contains no separator |
| PyStrings.LastSegmentAfter | ptt_monitor.py:101 | the last segment of `x + sep + y` is `y` when `y` has no separator |
| PyStrings.Contains | ptt_monitor.py:207 | `needle in hay` holds exactly when the needle occurs at some position of `hay` |
| PyStrings.AbsentHeadNotContained | ptt_monitor.py:207 | a needle whose first character is not in `hay` does not occur in it |
| PyStrings.ContainedInLarger | ptt_monitor.py:207 | a string that occurs in `hay` occurs in any extension `a + hay + b` |
| PyStrings.RemoveAll | ptt_monitor.py:68 | `s.replace(pat, '')` is no longer than `s`; see PyStrings.RemoveAllChars |
| PyStrings.RemoveAllOnePass | ptt_monitor.py:102 | removal is a single left-to-right pass: `'inindexdex'.replace('index', '')` is `index`, an occurrence that the removal itself forms is kept |
| PyStrings.RemoveAllChars | ptt_monitor.py:68 | every character of `s.replace(pat, '')` is a character of `s` |
| PyStrings.RemoveAllAbsent | ptt_monitor.py:102 | removing a pattern whose first character is absent changes nothing |
| PyStrings.RemoveAllTrailing | ptt_monitor.py:68 | removing `.html` from `x + '.html'` gives `x` when `x` has no `h` |
| PyStrings.RemoveAllLeading | ptt_monitor.py:102 | removing `index` from `'index' + y` is removing it from `y` |
| PyStrings.Lower | ptt_monitor.py:207 | definition of `s.lower()`, position by position; see PyStrings.LowerCases, LowerIdempotent and LowerConcat |
| PyStrings.LowerCases | ptt_monitor.py:207 | a lowered string holds no ASCII capital: each capital becomes its small letter, and small letters, digits and CJK ideographs are kept |
| PyStrings.LowerIdempotent | ptt_monitor.py:207 | lowering twice is lowering once |
| PyStrings.LowerConcat | ptt_monitor.py:207 | the model's lowering distributes over concatenation (Python's does not at a final capital sigma; see "## Left out") |
| PyStrings.NatToStr | ptt_monitor.py:121 | `str(n)` is a non-empty run of digits without a leading zero |
| PyStrings.NatToStrValue | ptt_monitor.py:121 | the decimal value of `str(n)` is `n` |
| PyStrings.ParseInt | ptt_monitor.py:154 | definition of `int(s)` on text (also used at ptt_monitor.py:103): surrounding whitespace, an optional sign, then ASCII digits with single underscores between them, otherwise `ValueError`. Whitespace is what `int()` skips, and the information separators U+001C to U+001F anywhere in the text make it fail; see PyStrings.ParseIntNatToStr, ParseIntNegative, ParseIntBlank and ParseIntInfoSeparator |
| PyStrings.ParseIntNatToStr | ptt_monitor.py:103 | `int(str(n)) == n` |
| PyStrings.ParseIntNegative | ptt_monitor.py:154 | `int('-' + str(n)) == -n` |
| PyStrings.ParseIntBlank | ptt_monitor.py:151-154 | `int` of empty or whitespace-only text is a `ValueError` |
| PyStrings.HasInfoSeparatorIff | ptt_monitor.py:154 | a text holds an information separator exactly when one of its positions is U+001C to U+001F |
| PyStrings.ParseIntInfoSeparator | ptt_monitor.py:154 | `int` of text holding U+001C to U+001F at any position is a `ValueError` |
| PyStrings.InfoSeparatorExample | ptt_monitor.py:154 | `"\x1c7".strip()` is `7`, yet `int("\x1c7")` is a `ValueError` |
| Retry.BackoffIncreasing | utils.py:47-48 | the backoff base strictly grows from one retry to any later one |
| Retry.BackoffDoubles | utils.py:47-48 | each retry's backoff base is twice the previous one's |
| Retry.RetryResult | utils.py:30-67 | definition of the retry loop's result; see Retry.RetryFromCharacterized, RetryResultCharacterized and NoBudgetNoResponse |
| Retry.RetryFromCharacterized | utils.py:37-67 | from any attempt on, the loop fails exactly when every attempt within the budget fails, and otherwise returns the response of the first successful attempt |
| Retry.RetryResultCharacterized | utils.py:30-67 | `fetch_ptt_page_with_retry(url, max_retries)` is `None` exactly when all of the first `max_retries` attempts fail, and otherwise is the first successful attempt's response |
| Retry.NoBudgetNoResponse | utils.py:37-67 | with `max_retries <= 0` no attempt is made and the result is `None` |
| Retry.FetchWithRetry | utils.py:30-67 | the loop returns that result; it makes at most `max_retries` attempts, sleeps the first-request pause and then backoffs of `2^k` seconds, stops at the first success, and exhausts the budget only on failure |
| ArticleTime.ToSeconds | utils.py:90 | definition of a parsed time as seconds of UTC+8 civil time since 0001-01-01; see ArticleTime.ToSecondsOrder |
| ArticleTime.ToSecondsOrder | utils.py:90 | two valid times compare as their seconds since 0001-01-01 at UTC+8 compare, and are equal exactly when their seconds are |
| ArticleTime.NameIndex | utils.py:90 | `%a`/`%b` find the first name equal to the text ignoring case, or report that none is |
| ArticleTime.ParseTimestamp | utils.py:90-91 | whatever `strptime` accepts is a valid `datetime` (real day of the month, second below 60, year 1 to 9999) |
| ArticleTime.ParseFromDay | utils.py:90 | the rest of the format after the month keeps the month parsed and yields only valid times |
| ArticleTime.ParseFormatted | utils.py:87-90 | the header text PTT writes for a time (space-padded day, zero-padded clock, four-digit year) reads back as that time exactly when it is a real date and time, and as `ValueError` otherwise |
| ArticleTime.ParsesHeaderExample | utils.py:88-90 | `Mon Feb  3 12:34:56 2026` reads as 2026-02-03 12:34:56 |
| ArticleTime.RejectsFebruary30 | utils.py:90-99 | `Mon Feb 30 12:34:56 2026` passes the directives but is no date, so no time is returned |
| ArticleTime.RejectsSecond60 | utils.py:90-99 | second 60 passes `%S` but not `datetime`, so no time is returned |
| ArticleMeta.PairCount | utils.py:85 | `zip` pairs as many tags and values as the shorter list holds |
| ArticleMeta.TimeIndexFrom | utils.py:85-86 | finds the first pair whose tag reads `時間`, or reports that none does |
| ArticleMeta.PostedAt | utils.py:85-91 | the page's declared time is valid whenever there is one |
| ArticleMeta.ScanMeta | utils.py:83-101 | the scan over the `zip` pairs returns at the first `時間` tag with that value's parsed time, and returns no time when there is no such tag |
| ArticleMeta.NoTimeLineNoTime | utils.py:101-102 | a page without a `時間` tag among the pairs gives no time |
| ArticleMeta.FirstTimeLineDecides | utils.py:85-99 | the first `時間` pair decides the result, whether or not its value parses |
| ArticleMeta.LaterPairsIgnored | utils.py:85-90 | pairs after the first `時間` pair do not affect the result |
| ArticleMeta.UnpairedTagIgnored | utils.py:85 | a tag without a value to pair with is never looked at |
| ArticleMeta.ArticleDatetimeOrder | utils.py:90 | returned times order articles as their header times do |
| ArticleMeta.UnreachableNoTime | utils.py:75-78 | when both attempts to fetch the page fail there is no time |
| ArticleMeta.FetchArticleDatetime | utils.py:70-102 | `fetch_article_datetime` is two attempts to fetch the page, then the header scan, then the conversion to seconds; any failure gives `None` |
| Listing.ArticleId | ptt_monitor.py:68 | definition of `href.split('/')[-1].replace('.html', '') if href else ''`; see Listing.ArticleIdNoSlash and ArticleIdRoundTrip |
| Listing.ArticleIdNoSlash | ptt_monitor.py:68 | an article id never contains `/` |
| Listing.ArticleIdRoundTrip | ptt_monitor.py:68 | the link `/bbs/{board}/{id}.html` yields the id back, for ids without `/` and `h` |
| Listing.ToArticle | ptt_monitor.py:53-79 | definition of one entry's article, if any; see Listing.ToArticleKept and UnresolvedWithoutCutoff |
| Listing.ToArticleKept | ptt_monitor.py:54-79 | an entry becomes an article exactly when it has a title div with a link whose id is not empty. The article has that id, the stripped link text, `https://www.ptt.cc` + href, the list date, and the looked-up time exactly when a cutoff was given |
| Listing.PageArticlesAppend | ptt_monitor.py:53-79 | the articles of consecutive runs of entries are each run's articles, in order |
| Listing.PageArticlesFromEntries | ptt_monitor.py:53-79 | every article comes from an entry of the page, and there are no more articles than entries |
| Listing.UnresolvedWithoutCutoff | ptt_monitor.py:77-78 | without a cutoff no time is looked up |
| Listing.ParseEntries | ptt_monitor.py:52-79 | the loop over the `div.r-ent` entries yields the page's articles in entry order |
| Listing.ParsePrevIndex | ptt_monitor.py:101-103 | definition of the page number read from the "‹ 上頁" `href`; see Listing.ParsePrevIndexRoundTrip and ParsePrevIndexNoNumber |
| Listing.ParsePrevIndexRoundTrip | ptt_monitor.py:99-103 | the "‹ 上頁" link `/bbs/{board}/index{N}.html` yields the page number `N` |
| Listing.ParsePrevIndexNoNumber | ptt_monitor.py:100-105 | the link `/bbs/{board}/index.html` carries no number, so `int('')` fails |
| Walker.NewestTime | ptt_monitor.py:86-90 | `max(parsed_dates)` is absent exactly when no article has a time; otherwise it is one of the times and no time exceeds it |
| Walker.ContinuesIff | ptt_monitor.py:86-91 | the walk goes past a page exactly when some article on it has a time at or after the cutoff |
| Walker.LowerPage | ptt_monitor.py:115-121 | after the first older page, there is a next page exactly when the current number is at least 1, and it is `index{idx-1}` with number `idx - 1` |
| Walker.NextPage | ptt_monitor.py:93-121 | from the newest page the next page is the one its "‹ 上頁" link names; once a page number `idx` is known, there is a next page exactly when `idx >= 1`, and it is `index{idx-1}` with number `idx - 1` |
| Walker.PrevLinkPage | ptt_monitor.py:94-114 | definition of the first older page named by the newest page; see Walker.PrevLinkPageIff and NoPrevLinkOnePage |
| Walker.PrevLinkPageIff | ptt_monitor.py:94-114 | the first older page is named exactly when the newest page's "‹ 上頁" link has an `href` whose number parses; the URL is built from that `href` |
| Walker.WalkFrom | ptt_monitor.py:35-125 | definition of the walk from a given URL and page number: the requests made and the articles gathered; see Walker.WalkFromGathers, WalkFromIndexed and StoppingPageKept |
| Walker.Walk | ptt_monitor.py:35-125 | definition of `get_ptt_articles` as the walk from `index.html`; see Walker.WalkRequestOrder, WalkWithoutCutoff and GetPttArticles |
| Walker.WalkFromGathers | ptt_monitor.py:35-125 | the walk's articles are the fetched pages' articles, in request order. The first request is the starting page. Every page except the last was fetched, a cutoff was given, and the page had a time at or after it |
| Walker.WalkFromIndexed | ptt_monitor.py:115-121 | from page number `v` on, the requests are `index{v-1}`, `index{v-2}`, … with none below 0, so at most `v + 1` requests are made |
| Walker.WalkFromStep | ptt_monitor.py:81-121 | the unfolding of the walk that the loop proof in Walker.GetPttArticles uses, one step from a fetched page: it stops there, keeping that page's articles, when there is no cutoff, no time at or after it, or no next page; otherwise it appends the walk from the next page |
| Walker.IndexedStops | ptt_monitor.py:81-121 | from page number `v` on, the walk stops only where it has to: its last request was not fetched, had no cutoff, or had no time at or after the cutoff, or that page is numbered below 1 |
| Walker.StopsSteps | ptt_monitor.py:115-121 | one more request in front keeps the last request and counts the page number one further |
| Walker.NewestStep | ptt_monitor.py:81-114 | the walk requests `index.html` first. It stops there only when that request ends the walk or the page has no usable "‹ 上頁" link; otherwise it goes on to the page that link names |
| Walker.StopsAfterNewest | ptt_monitor.py:93-121 | after the newest page, the walk from the first older page, numbered `N`, stops where it has to: the last request ends the walk or it is page `N - (|r| - 2)`, below 1 |
| Walker.WalkStops | ptt_monitor.py:81-121 | a walk past the newest page stops only where it has to: its last request ends the walk, or that page's number is below 1, so no lower page exists |
| Walker.WalkRequestOrder | ptt_monitor.py:36-121 | the walk requests `index.html` first. Then the page its "‹ 上頁" link names, with number `N`. Then `index{N-1}`, `index{N-2}`, … down to at most `index0`. That is at most `N + 2` requests |
| Walker.WalkWithoutCutoff | ptt_monitor.py:83-84 | without a cutoff only the newest page is requested and its articles are returned |
| Walker.NoPrevLinkOnePage | ptt_monitor.py:94-112 | when the newest page's "‹ 上頁" link is missing, lacks an `href` or has no number, the walk stops at the newest page |
| Walker.StoppingPageKept | ptt_monitor.py:81-91 | the page that stops the walk by its times still contributes its articles |
| Walker.NextRequest | ptt_monitor.py:93-121 | the branch that computes the next URL and page number agrees with the specification of the next page |
| Walker.GetPttArticles | ptt_monitor.py:18-125 | the loop of `get_ptt_articles` returns the walk's articles and makes the walk's requests, in order |
| Monitor.KeepKeywords | ptt_monitor.py:173 | definition of the comprehension's filter and strip; see Monitor.KeepKeywordsTrimmed, KeepKeywordsKeepsAll and KeepKeywordsNone |
| Monitor.ParseKeywords | ptt_monitor.py:173 | every keyword is non-empty, has no whitespace at either end and contains no comma |
| Monitor.KeepKeywordsTrimmed | ptt_monitor.py:173 | the kept pieces are non-empty and stripped |
| Monitor.KeepKeywordsKeepsAll | ptt_monitor.py:173 | pieces that are already stripped and non-blank are all kept, in order |
| Monitor.StripBlank | ptt_monitor.py:173 | a piece strips to nothing exactly when it is whitespace only |
| Monitor.KeepKeywordsNone | ptt_monitor.py:173-176 | no keyword is kept exactly when every piece is whitespace only |
| Monitor.KeywordsRoundTrip | ptt_monitor.py:173 | a list of stripped, non-empty, comma-free keywords joined with commas parses back to itself |
| Monitor.NoKeywordsIff | ptt_monitor.py:173-176 | `PTT_KEYWORDS` yields no keyword exactly when every comma-separated piece is whitespace only |
| Monitor.LoadConfig | ptt_monitor.py:149-176 | an accepted configuration has a non-negative day count, a board, a webhook and at least one keyword, each keyword non-empty, stripped and comma-free |
| Monitor.LoadConfigAccepts | ptt_monitor.py:149-176 | the configuration is accepted exactly when every check passes, and then it holds the board, the parsed keywords, the webhook and the day count given |
| Monitor.LoadConfigOrder | ptt_monitor.py:149-165 | a bad `PTT_DAYS` is reported before anything else, a negative one before a missing board, and a missing board before the keywords and the webhook |
| Monitor.DefaultDays | ptt_monitor.py:152 | without `PTT_DAYS` the window is one day |
| Monitor.EmptyDaysRejected | ptt_monitor.py:149-154 | `PTT_DAYS` set to the empty string is not the default; it is rejected as not an integer |
| Monitor.BlankKeywordsRejected | ptt_monitor.py:166-176 | keywords `" , "` leave no valid keyword and are rejected |
| Monitor.TitleMatches | ptt_monitor.py:207 | definition of `any(keyword.lower() in title.lower() …)`; see Monitor.MatchAny, MatchIgnoresTitleCase, MatchIgnoresKeywordCase, KeywordInTitle and NoKeywordHeadInTitle |
| Monitor.MatchAny | ptt_monitor.py:207 | the `any(...)` loop finds a match exactly when some keyword, lowered, occurs in the lowered title |
| Monitor.MatchIgnoresTitleCase | ptt_monitor.py:207 | lowering the title first does not change whether it matches |
| Monitor.MatchIgnoresKeywordCase | ptt_monitor.py:207 | lowering the keywords first does not change whether a title matches |
| Monitor.KeywordInTitle | ptt_monitor.py:207 | a title that contains a keyword matches |
| Monitor.NoKeywordHeadInTitle | ptt_monitor.py:207 | a title that holds no keyword's first character (lowered) does not match |
| Monitor.KeywordExamples | test_ptt_monitor.py:56-62 | with keywords 地震, 颱風 and 停電, the titles 台灣發生地震, 颱風即將來襲, 突然停電了 and 地震來了 match |
| Monitor.QuietTitleExample | test_ptt_monitor.py:56-61 | with the same keywords the title 今天天氣很好 does not match |
| Monitor.Cutoff | ptt_monitor.py:178-179 | the cutoff lies `days` whole days before now, and never after now for a non-negative day count |
| Monitor.EffectiveTime | ptt_monitor.py:198 | definition of the walk's time, or else the time looked up again; see Monitor.ResolvedNeedsNoRefetch and RefetchedUnresolved |
| Monitor.Announced | ptt_monitor.py:193-211 | definition of the condition for one article to be announced; see Monitor.AnnouncedMembers and ClassifiedOne |
| Monitor.AnnouncedArticles | ptt_monitor.py:193-211 | definition of the announced articles, in order; see Monitor.AnnouncedMembers, AnnouncedAppend and LaterCutoffNarrows |
| Monitor.AnnouncedMembers | ptt_monitor.py:193-211 | an article is announced exactly when it was gathered, its time is known and not before the cutoff, and its title matches. No more articles are announced than were gathered |
| Monitor.AnnouncedAppend | ptt_monitor.py:193-211 | announcements follow the order of the gathered articles |
| Monitor.RefetchedAppend | ptt_monitor.py:198 | pages are asked for again in the order of the gathered articles |
| Monitor.LaterCutoffNarrows | ptt_monitor.py:203-205 | a later cutoff announces exactly those articles an earlier cutoff announces that are also recent enough for it |
| Monitor.ResolvedNeedsNoRefetch | ptt_monitor.py:198 | articles whose time the walk read are decided without asking for their page again |
| Monitor.RefetchedUnresolved | ptt_monitor.py:198 | a page is asked for again exactly when it belongs to an article the walk found no time for |
| Monitor.NotificationContent | ptt_monitor.py:130-133 | definition of the message text; see Monitor.NotificationLayout and UnknownDateShown |
| Monitor.NotificationLayout | ptt_monitor.py:130-133 | with a date that does not start with whitespace and a URL that does not end with it, the message is `"{date} \| {title} {url}"` with `未知` for an empty date |
| Monitor.UnknownDateShown | ptt_monitor.py:130-133 | an article listed without a date is announced as `未知 \| …` |
| Monitor.Posted | ptt_monitor.py:128-135 | one message per announced article, in order, each the article's text sent to the webhook |
| Monitor.PostedAppend | ptt_monitor.py:193-211 | the messages of consecutive runs of articles are each run's messages, in order |
| Monitor.ClassifyOne | ptt_monitor.py:194-211 | one pass of the loop asks for the page again only when the walk found no time, and posts exactly when the article is announced |
| Monitor.ClassifiedOne | ptt_monitor.py:198-211 | one article posts its message exactly when its time, the walk's or the one looked up again, is known and not before the cutoff, and its title matches |
| Monitor.Classify | ptt_monitor.py:193-212 | the loop posts the announced articles' messages in order, counts them in `new_matches`, and asks again for exactly the pages without a time |
| Monitor.MonitorOutcome | ptt_monitor.py:146-212 | definition of the outcome of one run of `main`; see Monitor.RunMonitor, AnnouncedAreRecentMatches and RejectedMakesNoRequest |
| Monitor.RunMonitor | ptt_monitor.py:146-212 | `main` ends as the outcome specifies. A rejected configuration posts nothing. A walk without articles posts nothing. Otherwise one message is posted per announced article |
| Monitor.AnnouncedAreRecentMatches | ptt_monitor.py:178-211 | a run that gets going starts at `index.html`, and every article it announces was gathered, lies within `days` days of now, and matches a keyword |
| Monitor.RejectedMakesNoRequest | ptt_monitor.py:149-176 | a run is rejected exactly when the configuration is, and then with the configuration's error and no request |

## Left out

- HTTP, HTML parsing and Discord are inputs, not modelled:
  - HTTP requests, headers, the `over18` cookie, the random user agent, timeouts and `raise_for_status` are folded into each request's outcome. Any error other than `requests.RequestException` (which would end the run) is not modelled.
  - BeautifulSoup is not modelled. A page is given as what the program reads from it:
    - an index page: the entries' title and date divs, and the "‹ 上頁" link's `href`;
    - an article page: the `get_text(strip=True)` texts of the meta tags and values.
  - The Discord request and its error handling are not modelled. A post is the payload and the webhook it goes to, and a failed post is counted like a successful one.
- Sleeping, randomness, the clock and output are parameters or dropped:
  - `time.sleep` and `random.uniform` are not modelled. The model records which delay precedes each attempt, and only the `2^k` base of a backoff.
  - `datetime.now(TAIPEI_TZ)` is the parameter `now`, in whole seconds. `datetime.now` also carries microseconds, while header times are whole seconds. The model agrees with the program when `now` is the Taipei time rounded up to the next whole second: then `post_dt < cutoff` compares the same way for every whole-second `post_dt`.
  - Every `print` is dropped, including the progress counter `page_num`, which only feeds printing.
  - `sys.exit(1)` is the `Rejected` outcome.
- Every fetch of one URL within a run answers alike. The oracles are functions of the URL, and each fetch restarts from attempt 0. In the program a second fetch of the same URL is a new request and may answer differently, as when an article listed on two index pages (a pinned one, say) has its page fetched twice.
- Monitor.Cutoff: does not model the `OverflowError` that `timedelta(days=days)` or the subtraction raises for day counts beyond what `datetime` can represent; there the model gives a cutoff before year 1.
- PyStrings.Lower: lowers ASCII, Latin-1, Greek, Cyrillic and full-width Latin capitals only, one character at a time. Other case mappings (and the multi-character one of `İ`) are not modelled, and all other characters count as their own lower case. Python's `lower()` also depends on context: a capital sigma `Σ` at the end of a word becomes the final form `ς`, not `σ`. The model always gives `σ`. So with keyword `ΑΣ` and title `ΑΣΑ` the model finds a match (`ασ` in `ασα`) and Python does not (`ας` is not in `ασα`).
- PyStrings.LowerConcat: holds of the model's character-by-character lowering only. Python's `lower()` does not distribute over concatenation: `"Σ".lower()` is `σ`, yet `"ΑΣ".lower()` ends in `ς`.
- PyStrings.ParseInt: accepts only ASCII digits. `int()` also accepts other Unicode decimal digits, such as full-width ones; those are not modelled. The limit of Python 3.11 and later on the length of a decimal text (4300 digits by default, configurable, absent before 3.11) is not modelled either: there `int()` raises `ValueError`, so the program rejects such a `PTT_DAYS` (ptt_monitor.py:154) and stops the walk at such a "‹ 上頁" number (ptt_monitor.py:103), while the model accepts any length.
- ArticleTime.ParseTimestamp: `strptime`'s fallback with `%e` is modelled as always failing, since `%e` is not a directive Python's `strptime` knows and so it always raises `ValueError`. Locale-dependent names are modelled in the C locale only. Digits are read as ASCII only: `strptime` reads fields with the Unicode `\d`, which also accepts other decimal digits such as full-width ones (`２０２６` as a year). Those texts are rejected by the model.
- Listing.ArticleIdRoundTrip: the round trip is stated for ids without `h`. An id containing `.html` would lose it, which is what the program does too.
- There is no deduplication store. The comment in the loop speaks of marking articles as processed, but `main` keeps no state between runs, so the model keeps none.
- ptt_monitor.py is modelled as written. `test_ptt_monitor.py` also exercises `load_processed_ids` and `save_processed_ids`, which ptt_monitor.py does not define. They are not part of this model.
