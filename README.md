# weekly-digest, modelled in Dafny

weekly-digest builds a weekly HTML e-mail of popular posts from two kinds of
source:

- **Reddit.** Seven subreddits are read. `src/reddit.ts` reads them through
  the OAuth API, using a cached access token. `script.ts` instead scrapes the
  old-Reddit listing page.
- **Hacker News.** The hckrnews.com page is scrolled until its last day
  section is at least eight days old. The visible posts of the last seven
  days are then grouped by day.

Both results are rendered by two HTML formatters, in a fixed order, into one
document.

This project models that logic once the browser, the network and the clock
are turned into inputs:

| file | module | what it models |
|---|---|---|
| `wrappers.dfy` | `Wrappers` | `Option` and `Result` |
| `constants.dfy` | `Constants` | `Post`; the filter enum; the subreddit lists (`src/constants.ts`). A count is `Int(n)` or `NaN`, because `parseInt` can give NaN. |
| `jstext.dfy` | `JsText` | The JavaScript primitives the collectors use: `trim`, `parseInt(s, 10)` and `parseInt(s)` (which reads a "0x" prefix as hexadecimal), number-to-string in template literals, and `<`/`<=` on strings |
| `calendar.dfy` | `Calendar` | ECMAScript day numbers (`MakeDay`); `new Date(y, m, d)` and its 0..99 → 19xx rule; the `YYYYMMDD` section keys |
| `seqs.dfy` | `Seqs` | `ConcatMap`: the "each input contributes a run of outputs, in order" shape. Every `forEach`+`push`, `.map().filter()` chain and `+=` loop of the program has this shape. |
| `reddit.dfy` | `Reddit` | The token cache, as a class `TokenCache` with fields `token`/`expiry`, and the API collector |
| `hacker_news.dfy` | `HackerNews` | The scroll loop, the extraction loops, and the in-place sort on an array. Over page snapshots. |
| `old_reddit.dfy` | `OldReddit` | The old-Reddit listing scrape, pure. Includes the title regex `\s*\(self\.[^)]+\)`. |
| `formatters.dfy` | `Formatters` | `formatRedditPosts` and `formatHackerNewsPosts`. These are `+=` loops, each proved equal to a function that gives the text as a concatenation. |
| `digest.dfy` | `Digest` | `generateWeeklyTopPostsHTML`, with both collectors passed in as functions |

Inputs that replace I/O:

- **Hacker News page.** `page(selector)` is the sequence of page snapshots
  after 0, 1, 2, … scrolls, once the filter control `selector` has been
  clicked. It is `None` when navigation or a wait throws.
- **Old-Reddit page.** `page(url)` is the listing entries that the page
  script sees.
- **Environment.** The five `REDDIT_*` variables are a `Credentials` value.
- **Token exchange.** It is a function from credentials to an optional
  response.
- **Listing request.** It is a function from (url, token) to a
  `ListingResponse`.
- **Clock.** `Date.now()` before and after the token exchange are the
  parameters `now` and `receivedAt`. For Hacker News, "today" is a day number
  `today`, and the eight-days-ago key is a string `targetKey`.
- **Date text.** The date text that `toDateString` gives a day group is the
  function parameter `dayLabel`.

Three behaviours of the code a reader might not expect:

- **A listing entry without `data`.** In `src/reddit.ts:76-83` such an entry
  makes the `.map` throw. The `catch` then returns no posts for the whole
  subreddit, not just without that entry. The model has this as
  `Reddit.SomeChildLacksData`.
- **Sort order.** The code's sort (`src/hacker-news.ts:113-115`) is only
  non-strict when two sections carry the same day. The model proves
  non-strict order in general, and strict order when section days are
  distinct (`HackerNews.StrictlyDescendingWhenDistinct`).
- **Token expiry.** The expiry counts from `Date.now()` taken after the
  response arrived (`src/reddit.ts:46`), not from the request time. That is
  the parameter `receivedAt`.

## Model

| member | source | states |
|---|---|---|
| JsText.TrimStartSpec | src/hacker-news.ts:72-75 | trim's left cut removes exactly the leading white-space run (WhiteSpace and LineTerminator characters) and no more |
| JsText.TrimEndSpec | src/hacker-news.ts:72-75 | trim's right cut removes exactly the trailing white-space run and no more |
| JsText.TrimIdempotent | script.ts:54-56 | trimming an already trimmed text changes nothing |
| JsText.DigitPrefixSpec | src/hacker-news.ts:80-84 | parseInt reads the longest all-digit prefix: it is all digits and the next character is not a digit |
| JsText.NatToStringSpec | src/formatters.ts:14 | the decimal text the model prints for a count (exact, below 10^21 as JavaScript prints it) is all digits, has no leading zero and denotes the number |
| JsText.ParseIntOfIntToString | src/hacker-news.ts:80-90 | parseInt reads back the printed text of every integer of the model (exact integers, see Left out), negative ones included |
| JsText.ParseIntOfDigits | src/hacker-news.ts:57-61 | parseInt of a non-empty digit string is its decimal value |
| JsText.ParseIntNoRadixOfDigits | src/hacker-news.ts:58-60 | parseInt without a radix reads a digit string as its decimal value, as parseInt(s, 10) does |
| JsText.HexPrefixOfHexDigits | src/hacker-news.ts:58-60 | a string of hexadecimal digits is read whole: its longest hexadecimal prefix is all of it |
| JsText.ParseIntNoRadixOfHexDigits | src/hacker-news.ts:58-60 | parseInt without a radix reads "0x" followed by any non-empty run of hexadecimal digits as the value of those digits |
| JsText.ParseIntNoRadixHex | src/hacker-news.ts:58-60 | two fixed cases of the radix-less parse: "0x1F" is 31, and "0x" alone is NaN |
| JsText.CountOfMissing | src/hacker-news.ts:80-90 | a missing count element reads as the text '0' and so counts as 0 |
| JsText.DigitsValueAppend | src/hacker-news.ts:31-34 | the value of two digit strings written one after the other is the first shifted by the second's length plus the second |
| JsText.LexOrderIsNumericOrder | src/hacker-news.ts:40 | on digit strings of one length, JavaScript's string `<` and `<=` agree with numeric `<` and `<=` (both directions) |
| Calendar.Slice | src/hacker-news.ts:57-61 | `slice(i, j)` clamps to the string: at most j - i characters, and exactly the characters i to j - 1 when both bounds are inside the string |
| Calendar.EncodeKey | src/hacker-news.ts:31-34 | the key of a date is eight characters |
| Calendar.EncodeKeyDigits | src/hacker-news.ts:31-34 | a date's key is all digits |
| Calendar.DecodeDigitKey | src/hacker-news.ts:57-61 | an 8-digit id is read as year = characters 0-3, month = characters 4-5 minus one (zero-based), day = characters 6-7, passed to the date constructor |
| Calendar.DecodeHexYear | src/hacker-news.ts:57-61 | a section id "0x1F0101" names 1 January 1931: the year field reads as hex 31, which the date constructor maps into 19xx |
| Calendar.TwoDigitYear | src/hacker-news.ts:61 | `new Date(y, m, d)` with y from 0 to 99 counts the year as 1900 + y |
| Calendar.DecodeEncodeKey | src/hacker-news.ts:57-61 | reading a date's key back gives that date's day number |
| Calendar.KeyFields | src/hacker-news.ts:57-61 | the three fields of a date's key spell its year, month and day |
| Calendar.DateConstructorOfValid | src/hacker-news.ts:61 | `new Date(y, m - 1, d)` of a valid date with a year of 100 or later is its day number (no 19xx remapping, no month carry) |
| Calendar.DayFromYearStep | src/hacker-news.ts:61 | consecutive years start 365 or 366 days apart, as the leap-year rule says |
| Calendar.DayFromYearMonotone | src/hacker-news.ts:61 | a later year starts at least a whole year later |
| Calendar.DayOfParts | src/hacker-news.ts:61 | a valid date's day number is its year start plus the days before its month plus its day minus one; it stays inside its month and its year |
| Calendar.DaysBeforeMonthMonotone | src/hacker-news.ts:61 | a later month never starts earlier in the year, and a strictly later month starts strictly later |
| Calendar.DayOfStrictlyMonotone | src/hacker-news.ts:61-64 | a later calendar date (by year, then month, then day) has a strictly larger day number |
| Calendar.EncodeKeyValue | src/hacker-news.ts:31-34 | a key's numeric value is year * 10000 + month * 100 + day |
| Calendar.KeyOrderIsNumberOrder | src/hacker-news.ts:40 | comparing two keys as strings is comparing the numbers they spell |
| Calendar.NumberOrderIsDateOrder | src/hacker-news.ts:40 | for valid dates the spelled numbers are ordered as the day numbers (both directions) |
| Calendar.KeyOrderIsDateOrder | src/hacker-news.ts:40 | for valid dates, `keyA <= keyB` as strings holds exactly when date A is not after date B |
| HackerNews.FilterSelectorInjective | src/hacker-news.ts:12-22 | the three filters click three distinct controls: equal selectors exactly when equal filters |
| HackerNews.ScrollUntilLoaded | src/hacker-news.ts:36-46 | the loop stops at the first snapshot whose last section's id is `<=` the target key; before that it scrolls on; when no snapshot passes, failure |
| HackerNews.StopMeansWeekLoaded | src/hacker-news.ts:29-46 | with a target eight days before today, the exit test holds exactly when the last loaded section is at least eight days old, hence older than every day of `[today - 7, today)` |
| HackerNews.RowPost | src/hacker-news.ts:72-90 | a missing title or url becomes "", a missing points or comments element counts 0 |
| HackerNews.CollectVisiblePosts | src/hacker-news.ts:66-98 | the inner forEach pushes one post per visible row, in page order (equals VisiblePosts) |
| HackerNews.HiddenRowAddsNothing | src/hacker-news.ts:68-70 | a row with `display: none` contributes nothing wherever it stands |
| HackerNews.VisiblePostsLength | src/hacker-news.ts:66-98 | at most one post per row; no posts exactly when every row is hidden |
| HackerNews.VisiblePostsMembership | src/hacker-news.ts:66-98 | a post is collected exactly when some visible row yields it |
| HackerNews.ExtractGroups | src/hacker-news.ts:56-107 | the outer forEach pushes one group per section in the window with a visible row, in page order (equals ExpectedGroups) |
| HackerNews.ExpectedGroupsMembership | src/hacker-news.ts:57-105 | a group is emitted exactly when a section of its day lies in `[today - 7, today)` and has visible posts, which are the group's posts; so every group is in the window and non-empty |
| HackerNews.ExpectedGroupsLength | src/hacker-news.ts:56-107 | at most one group per section |
| HackerNews.Days | src/hacker-news.ts:52-54 | the set of days lo .. hi - 1 has hi - lo elements |
| HackerNews.DatesOfDistinctDays | src/hacker-news.ts:100-105 | when no two sections share a day, no two groups share a date |
| HackerNews.AtMostSevenGroups | src/hacker-news.ts:52-64 | when no two sections share a day, at most seven groups come out |
| HackerNews.Swap | src/hacker-news.ts:113-115 | one exchange of the sort: entries i and j change places, every other entry is unchanged, and the multiset is kept |
| HackerNews.SortByDateDescending | src/hacker-news.ts:113-115 | the in-place sort leaves the groups in non-increasing date order and is a permutation |
| HackerNews.InsertNext | src/hacker-news.ts:113-115 | one insertion step of the sort: the first i + 1 entries end in non-increasing date order, the entries after i keep their values, and the whole array is a permutation of the old one |
| HackerNews.SortedPrefixPairs | src/hacker-news.ts:113-115 | a sorted prefix of the array, read off the whole sequence: every earlier entry of the first i is at least as recent as every later one |
| HackerNews.InsertionDone | src/hacker-news.ts:113-115 | once the moving entry stops below an entry at least as recent, or at the front, the first i + 1 entries are in non-increasing date order |
| HackerNews.RepeatedDateShrinksDates | src/hacker-news.ts:113-115 | two groups of one date give fewer distinct dates than groups |
| HackerNews.DatesBound | src/hacker-news.ts:113-115 | there are no more distinct dates than groups |
| HackerNews.StrictlyDescendingWhenDistinct | src/hacker-news.ts:113-115 | with distinct section days, the sorted result is strictly newest first |
| HackerNews.FirstStop | src/hacker-news.ts:36-46 | the snapshot the scroll loop stops at, if any, passes the exit test |
| HackerNews.FirstStopUnique | src/hacker-news.ts:36-46 | the loop's stopping point is unique: the first snapshot passing the test, or none |
| HackerNews.GetTopPostsOfTheWeekForHackerNews | src/hacker-news.ts:4-120 | a failed load or scroll gives []; otherwise the result is the extracted groups of the stopping snapshot, as a permutation, sorted newest first |
| HackerNews.SortedResultGroups | src/hacker-news.ts:100-115 | every group the collector returns is in the window and non-empty, and none is lost |
| Reddit.CacheHit | src/reddit.ts:7-9 | a non-empty token before its expiry is returned as is, with no exchange, and the cache unchanged |
| Reddit.RefreshExactlyWhenInvalid | src/reddit.ts:7-48 | the token is replaced exactly when it is empty or the clock has reached the expiry (strict `<`) |
| Reddit.FailureKeepsCache | src/reddit.ts:11-43 | every failure leaves token and expiry as they were; a call fails exactly when the cache is invalid and credentials are missing, the exchange throws, or it returns no access_token |
| Reddit.FailureReasons | src/reddit.ts:17-43 | missing credentials, a thrown request and a missing access_token each give their own error, checked in that order, credentials first |
| Reddit.RefreshStoresToken | src/reddit.ts:45-48 | a fresh token is stored, with expiry `Date.now() + expires_in * 1000`, and the call returns exactly the stored token |
| Reddit.SuccessThenHit | src/reddit.ts:7-48 | after any successful call the cache holds a non-empty token equal to what was returned, and any call before its expiry returns it again and changes nothing |
| Reddit.RefreshThenImmediateHit | src/reddit.ts:7-48 | after a refresh with a positive `expires_in`, a second call at the same instant is a cache hit |
| Reddit.TokenCache.constructor | src/reddit.ts:3-4 | the cache starts empty: token "" and expiry 0 |
| Reddit.TokenCache.GetToken | src/reddit.ts:6-49 | the new token and expiry and the result are those of TokenStep applied to the old token and expiry |
| Reddit.ListingPostsMembership | src/reddit.ts:75-85 | a post is returned exactly when some entry has a non-empty title and url; it copies title, url, `ups` and `num_comments` |
| Reddit.ListingPostsNonEmpty | src/reddit.ts:75-85 | every returned post has a non-empty title and url |
| Reddit.ListingPostsLength | src/reddit.ts:70-96 | no more posts than entries; none from a response missing `data` or `children`, from a failed request, or when any entry lacks `data` (the map throws and the catch returns []) |
| Reddit.ListingPostsInOrder | src/reddit.ts:75-85 | entries keep their listing order: the posts of a split listing are the posts of each part, concatenated |
| Reddit.GetTopPostsOfTheWeekForSubredditAPI | src/reddit.ts:51-97 | a token failure gives [] and otherwise the posts of the listing fetched with that token at `.../top?t=week&limit=<limit>`; the cache moves as one token call says |
| OldReddit.WhiteRunSpec | script.ts:56 | the regex's greedy `\s*` takes exactly the maximal white-space run |
| OldReddit.OpenRunOf | script.ts:56 | the greedy `[^)]+` runs up to the first ')' |
| OldReddit.FirstMatch | script.ts:56 | a match found starts at or after the search position and ends inside the string |
| OldReddit.FirstMatchSkip | script.ts:56 | positions where the pattern does not match are passed over, so the match is the leftmost |
| OldReddit.NoMatchInside | script.ts:56 | no match starts inside text that has no '(' and does not end in white space |
| OldReddit.MatchOfSelfMarker | script.ts:56 | an appended " (self.<sub>)" matches from its blank to the end |
| OldReddit.RemoveSelfMarkerOfSuffix | script.ts:56 | the non-global replace removes exactly an appended " (self.<sub>)" |
| OldReddit.RowTitleStripsSelfMarker | script.ts:54-56 | a trimmed title without '(' gets back exactly what it was before " (self.<subreddit>)" was appended |
| OldReddit.RowTitleWithoutMarker | script.ts:54-56 | a title with no match is only trimmed |
| OldReddit.RowTitleTrimmed | script.ts:54-56 | the cleaned title is always trimmed |
| OldReddit.RowPost | script.ts:58-77 | an entry is skipped exactly when its score or comment count parses to NaN; otherwise the post carries the parsed counts, with a missing element counting as '0' |
| OldReddit.AbsoluteUrl | script.ts:86-88 | the resulting url never starts with '/' |
| OldReddit.AbsoluteUrlIdempotent | script.ts:86-88 | making a url absolute twice is making it absolute once |
| OldReddit.AbsoluteUrlKeepsPath | script.ts:86-88 | a url starting with '/' gets `https://www.reddit.com` in front; any other url is unchanged |
| OldReddit.ListingPostsLength | script.ts:47-89 | at most `limit` posts and at most one per entry |
| OldReddit.ListingPostsMembership | script.ts:47-89 | a post is returned exactly when one of the first `limit` entries is not an ad and yields it, with its url made absolute |
| OldReddit.ListingPostsWellFormed | script.ts:68-88 | no returned url is site-relative and no count is NaN |
| OldReddit.ListingPostsInOrder | script.ts:82-89 | within the limit, entries keep their page order |
| OldReddit.ListingPostsIgnoresTail | script.ts:47 | entries after the first `limit` are never read |
| OldReddit.ListingPostsMembershipAll | script.ts:47-89 | the membership statement for every post at once |
| OldReddit.GetTopPostsOfTheWeekForSubreddit | script.ts:22-94 | a failed load of `old.reddit.com/r/<sub>/top/?sort=top&t=week` gives []; in every case at most `limit` posts, none with a site-relative url or a NaN count; after a load, a post is returned exactly when one of the first `limit` entries is not an ad and yields it with its url made absolute |
| Formatters.AppendItems | src/formatters.ts:9-18 | the `posts.forEach(... html += ...)` loop appends every post's item, in order |
| Formatters.ItemsAppend | src/formatters.ts:9-18 | the items of two post lists are the items of the first, then of the second |
| Formatters.ItemsSingle | src/formatters.ts:10-17 | one post gives exactly its own item |
| Formatters.ItemShowsPost | src/formatters.ts:11-14 | an item holds the url in `href`, then the title verbatim, then the upvote and comment counts, each right after its fixed text |
| Formatters.ListSectionGrows | src/formatters.ts:4-20 | an empty list is its opening immediately followed by its closing; each further post adds its item just before the closing |
| Formatters.ListSectionAppend | src/formatters.ts:4-20 | formatting `ps1 ++ ps2` is opening, items of ps1, items of ps2, closing |
| Formatters.ListSectionFrame | src/formatters.ts:4-20 | the text begins with its opening and ends with its closing |
| Formatters.FormatRedditPosts | src/formatters.ts:3-21 | the loop's text is the header, then the items of the posts in order, then `</ul></div>` |
| Formatters.RedditHeadingNamesSubreddit | src/formatters.ts:6 | the header contains "Top 25 posts from /r/" immediately followed by the subreddit name |
| Formatters.FormatHackerNewsPosts | src/formatters.ts:23-49 | the nested loops give the header, then per day group its `<h3>` date heading, the items and `</ul>`, in order, then `</div>` |
| Formatters.DayBlocksAppend | src/formatters.ts:30-46 | the blocks of two group lists are the blocks of the first, then of the second |
| Formatters.HackerNewsSectionGrows | src/formatters.ts:26-48 | no groups give the header followed by `</div>`; each further group adds its block just before `</div>` |
| Digest.GenerateWeeklyTopPostsHTML | src/main.ts:9-51 | the document is the head, then one Reddit section per SUBREDDITS entry in declared order, then the Hacker News section from the Top10 collector result, then the tail |
| Digest.RedditPartSections | src/main.ts:23-26 | the Reddit part is exactly seven sections: experienceddevs, node, reactjs, then entrepreneur, startups, saas, sideproject, each present even when its posts are [] |
| Digest.WeeklyDigestFrame | src/main.ts:10-48 | the document begins with the fixed html/head/h1 text and ends with the closing body/html text |
| Digest.WeeklyDigestReadsOnly | src/main.ts:22-43 | only the seven subreddits and the Top10 Hacker News result are read: collectors that agree on them give the same document |
| JsText.Trim | src/hacker-news.ts:72-75 | definition of String.prototype.trim; its properties are TrimStartSpec, TrimEndSpec and TrimIdempotent |
| JsText.TrimmedOr | src/hacker-news.ts:72-75 | definition of the trimmed text of an optional element, with a fallback when it is missing or empty (`?.trim()` then logical or) |
| JsText.ParseInt | src/hacker-news.ts:80-90 | definition of parseInt(s, 10): white space, one sign, the longest digit run, NaN without one; its properties are DigitPrefixSpec, ParseIntOfDigits and ParseIntOfIntToString |
| JsText.ParseIntNoRadix | src/hacker-news.ts:58-60 | definition of parseInt(s): as parseInt(s, 10), except a "0x"/"0X" prefix after the sign reads hexadecimal |
| JsText.CountOf | src/hacker-news.ts:80-90 | definition of a count read from an optional element: its trimmed text, or '0' when missing or empty, through parseInt(s, 10) |
| JsText.LexLessOrEqual | src/hacker-news.ts:40 | definition of `<=` on strings; its property is LexOrderIsNumericOrder |
| Calendar.MakeDay | src/hacker-news.ts:61 | definition of ECMAScript MakeDay, months outside 0..11 carried into the year |
| Calendar.DateConstructor | src/hacker-news.ts:61 | definition of `new Date(year, month, day)` as a day number, years 0..99 meaning 19xx |
| Calendar.DecodeKey | src/hacker-news.ts:57-61 | definition of the id decoding; None for a NaN field; its properties are DecodeDigitKey, DecodeEncodeKey and DecodeHexYear |
| HackerNews.FilterSelector | src/hacker-news.ts:12-22 | definition of the filter switch; its property is FilterSelectorInjective |
| HackerNews.ShouldStopScrolling | src/hacker-news.ts:37-42 | definition of the loop's exit test; its property is StopMeansWeekLoaded |
| HackerNews.VisiblePosts | src/hacker-news.ts:66-98 | definition of the row loop's result; specifies CollectVisiblePosts |
| HackerNews.InWindow | src/hacker-news.ts:52-64 | definition of `postDate >= oneWeekAgo && postDate < today` on day numbers |
| HackerNews.ExpectedGroups | src/hacker-news.ts:56-107 | definition of the section loop's result; specifies ExtractGroups; its properties are ExpectedGroupsMembership, ExpectedGroupsLength and AtMostSevenGroups |
| Reddit.TokenStep | src/reddit.ts:6-49 | definition of one getRedditOAuthToken call on the cache; specifies TokenCache.GetToken; its properties are CacheHit through RefreshThenImmediateHit |
| Reddit.ChildOutput | src/reddit.ts:75-85 | definition of the map and filter for one entry |
| Reddit.SomeChildLacksData | src/reddit.ts:76-83 | definition of the case in which the map reads a field of undefined and throws |
| Reddit.ListingPosts | src/reddit.ts:70-96 | definition of the posts returned for a listing response; its properties are the ListingPosts lemmas |
| OldReddit.MatchEndAt | script.ts:56 | definition of a match of `\s*\(self\.[^)]+\)` at one position |
| OldReddit.RemoveSelfMarker | script.ts:56 | definition of the non-global replace; its property is RemoveSelfMarkerOfSuffix |
| OldReddit.RowTitle | script.ts:54-56 | definition of the title clean-up; its properties are the RowTitle lemmas |
| OldReddit.ListingPosts | script.ts:47-89 | definition of slice, map, filter and url map; its properties are the ListingPosts lemmas |
| OldReddit.ListingUrl | script.ts:29-32 | definition of the listing URL |
| Formatters.Item | src/formatters.ts:10-17 | definition of one list item; its property is ItemShowsPost |
| Formatters.RedditSection | src/formatters.ts:3-21 | definition of formatRedditPosts' text; specifies FormatRedditPosts |
| Formatters.HackerNewsSection | src/formatters.ts:23-49 | definition of formatHackerNewsPosts' text; specifies FormatHackerNewsPosts |
| Digest.WeeklyDigest | src/main.ts:9-51 | definition of the document; specifies GenerateWeeklyTopPostsHTML |
| Reddit.CredentialsMissing | src/reddit.ts:17 | definition of the test that one of the five credentials is empty; its properties are FailureKeepsCache and FailureReasons |
| Reddit.HasAccessToken | src/reddit.ts:38 | definition of a truthy `access_token`; its properties are FailureKeepsCache, FailureReasons and RefreshStoresToken |
| Reddit.CacheValid | src/reddit.ts:7 | definition of the cache test, a non-empty token before its expiry; its properties are CacheHit and RefreshExactlyWhenInvalid |
| Reddit.ApiUrl | src/reddit.ts:58 | definition of the API listing URL; GetTopPostsOfTheWeekForSubredditAPI states that the listing is fetched there |
| JsText.CountToString | src/formatters.ts:14 | definition of a count in a template literal, "NaN" for NaN; for an integer its property is ParseIntOfIntToString, and in an item ItemShowsPost |
| HackerNews.RowOutput | src/hacker-news.ts:66-98 | definition of what one row pushes, nothing when it is hidden; its properties are HiddenRowAddsNothing, VisiblePostsLength and VisiblePostsMembership |
| HackerNews.SectionGroup | src/hacker-news.ts:56-106 | definition of what one day list pushes; its properties are ExpectedGroupsMembership and ExpectedGroupsLength |
| OldReddit.RowOutput | script.ts:48-89 | definition of what one entry contributes after the null filter and the url map; its properties are ListingPostsMembership and ListingPostsWellFormed |
| Formatters.RedditHeader | src/formatters.ts:4-8 | definition of the opening of a subreddit section; its property is RedditHeadingNamesSubreddit |
| Formatters.DayBlock | src/formatters.ts:30-46 | definition of one day group's heading, items and closing tag; its properties are DayBlocksAppend and HackerNewsSectionGrows |
| Digest.SectionFor | src/main.ts:23-26 | definition of the section the loop appends for one subreddit; its properties are RedditPartSections and WeeklyDigestReadsOnly |

## Left out

- HackerNews.GetTopPostsOfTheWeekForHackerNews: the page comparison in
  `today.setHours(0, 0, 0, 0)` and `today.getTime() - 7 * 24 * 60 * 60 * 1000`
  is not modelled. Times of day, time zones and daylight saving are
  abstracted: a date is its day number. So a DST week, where "seven times 24
  hours" is not seven calendar days, is not captured.
- HackerNews.StopMeansWeekLoaded: the target key is taken as the key of the
  day eight days before `today`. The source builds it with local `setDate`
  but UTC `toISOString`, and the two can be a day apart near midnight. That
  mismatch is not modelled.
- HackerNews.ScrollUntilLoaded: the source's `while (true)` waits forever
  when the week never loads. The model sees a finite sequence of page
  snapshots, and running out of them is a failure, so it cannot express
  waiting forever. The one-second pause between scrolls is left out.
- HackerNews.SortByDateDescending: the source sorts by re-parsing
  `toDateString()` texts. The model sorts the day numbers directly. The
  sort's stability, and the order among groups of one day, are not stated.
- HackerNews.DayGroup: the `date` field holds the day number, not the
  `toDateString()` text. The text is the `dayLabel` parameter of the
  formatters.
- Reddit.TokenCache.GetToken: `Date.now()` is the parameter `now`, and the
  value after the exchange is `receivedAt`. `btoa`, `URLSearchParams` and the
  request headers are library calls and are not modelled. A non-numeric
  `expires_in` (NaN expiry) is not modelled: the lifetime is an integer.
- Reddit.GetTopPostsOfTheWeekForSubredditAPI:
  - `limit` is a natural number, so a negative or fractional `limit` is not
    modelled. The default argument of 25 is not modelled: callers pass
    `limit`.
  - `ups` and `num_comments` are integers; other JSON values are not
    modelled.
  - The `User-Agent` fallback header is not modelled.
  - An entry of `children` that is not an object is not modelled.
  - Two callers racing for the first token are not modelled.
- Digest.GenerateWeeklyTopPostsHTML: the collectors are pure function
  parameters. The token cache state carried from one subreddit call to the
  next is therefore not threaded through the document loop. The browser
  launch and close are left out.
- JsText.ParseInt: characters are Unicode scalar values, not UTF-16 code
  units. Fractional numbers cannot arise from `parseInt`. The value is an
  exact integer: a digit run above 2^53, which JavaScript rounds to the
  nearest double, is not modelled.
- JsText.IntToString: counts are printed as exact integers. JavaScript
  numbers are doubles, so above 2^53 the printed value is rounded, and from
  10^21 on a template literal prints exponent form ("1e+21"); neither is
  modelled.
- HackerNews.ShouldStopScrolling: the last section of the snapshot stands
  for `document.querySelector('ul.entries.unstyled:last-child')`. That query
  gives the first such list that is its parent's last child, and null when
  other elements follow the day sections. Pages with another layout are not
  modelled.
- OldReddit.GetTopPostsOfTheWeekForSubreddit:
  - `limit` is a natural number, so a negative or fractional `limit` is not
    modelled.
  - The default argument of 25 is not modelled: callers pass `limit`.
  - The `waitForSelector` timeout and the five-second delay are left out.
- Environment variables: an unset variable is the empty string. Both are
  falsy in the source's check, so they are treated alike.
- `src/email-service.ts`, `sendEmail` in `script.ts`, `src/auth-test.ts` and
  `test.ts` are I/O only and are not part of this model.
- Console logging, `runWeeklyTopPosts` and the `import.meta.main` entry
  points are not part of this model.
