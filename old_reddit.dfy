/** The old-Reddit collector (getTopPostsOfTheWeekForSubreddit in
    script.ts): read the first `limit` listing entries of the weekly top
    page, clean their titles, skip ads (entries whose counts do not parse),
    and make site-relative links absolute. */
module OldReddit {
  import opened Wrappers
  import opened Constants
  import opened JsText
  import opened Seqs

  /** One `div[data-context="listing"]` entry: the text of `p.title`, the
      href of `a.title`, and the texts of `div.score.unvoted` and
      `a[data-event-action="comments"]`, each None when the element is
      missing. */
  datatype ListingRow = ListingRow(titleText: Option<string>, href: Option<string>,
                                   scoreText: Option<string>, commentsText: Option<string>)

  // ----- the title clean-up: title.replace(/\s*\(self\.[^)]+\)/, '').trim() -----

  /** The end of the run of white space starting at i. */
  function WhiteRun(s: string, i: nat): (r: nat)
    requires i <= |s|
    ensures i <= r <= |s|
    decreases |s| - i
  {
    if i < |s| && IsWhiteSpace(s[i]) then WhiteRun(s, i + 1) else i
  }

  lemma {:induction false} WhiteRunSpec(s: string, i: nat)
    requires i <= |s|
    ensures forall k :: i <= k < WhiteRun(s, i) ==> IsWhiteSpace(s[k])
    ensures WhiteRun(s, i) == |s| || !IsWhiteSpace(s[WhiteRun(s, i)])
    decreases |s| - i
  {
    if i < |s| && IsWhiteSpace(s[i]) {
      WhiteRunSpec(s, i + 1);
    }
  }

  /** The end of the run of characters other than ')' starting at i. */
  function OpenRun(s: string, i: nat): (r: nat)
    requires i <= |s|
    ensures i <= r <= |s|
    decreases |s| - i
  {
    if i < |s| && s[i] != ')' then OpenRun(s, i + 1) else i
  }

  lemma {:induction false} OpenRunOf(s: string, i: nat, n: nat)
    requires i <= n <= |s|
    requires forall k :: i <= k < n ==> s[k] != ')'
    requires n == |s| || s[n] == ')'
    ensures OpenRun(s, i) == n
    decreases |s| - i
  {
    if i < n {
      OpenRunOf(s, i + 1, n);
    }
  }

  const SelfMarker: string := "(self."

  /** Where a match of the pattern starting at i ends, if one does.  The
      greedy `\s*` takes the whole white-space run (giving some back cannot
      reach a '('), and the greedy `[^)]+` runs up to the first ')'. */
  function MatchEndAt(s: string, i: nat): Option<nat>
    requires i <= |s|
  {
    var j := WhiteRun(s, i);
    if !OccursAt(s, j, SelfMarker) then None
    else
      var k := OpenRun(s, j + |SelfMarker|);
      if j + |SelfMarker| < k < |s| then Some(k + 1) else None
  }

  /** The leftmost match at or after i, as (start, end). */
  function FirstMatch(s: string, i: nat): (r: Option<(nat, nat)>)
    requires i <= |s|
    ensures r.Some? ==> i <= r.value.0 < r.value.1 <= |s| && MatchEndAt(s, r.value.0) == Some(r.value.1)
    decreases |s| - i
  {
    match MatchEndAt(s, i)
    case Some(e) => Some((i, e))
    case None => if i == |s| then None else FirstMatch(s, i + 1)
  }

  /** Positions where no match starts are skipped. */
  lemma {:induction false} FirstMatchSkip(s: string, i: nat, n: nat)
    requires i <= n <= |s|
    requires forall k :: i <= k < n ==> MatchEndAt(s, k).None?
    ensures FirstMatch(s, i) == FirstMatch(s, n)
    decreases n - i
  {
    if i < n {
      FirstMatchSkip(s, i + 1, n);
    }
  }

  /** `replace` with a non-global pattern: only the leftmost match goes. */
  function RemoveSelfMarker(s: string): string {
    match FirstMatch(s, 0)
    case None => s
    case Some((a, e)) => s[..a] + s[e..]
  }

  /** The title of an entry, as the page script computes it. */
  function RowTitle(r: ListingRow): string {
    Trim(RemoveSelfMarker(TrimmedOr(r.titleText, "")))
  }

  /** The text " (self.<sub>)" appended to t. */
  function WithSelfMarker(t: string, sub: string): string {
    t + " " + SelfMarker + sub + ")"
  }

  /** No match starts inside a text that has no '(' and does not end in
      white space, whatever follows it. */
  lemma NoMatchInside(s: string, n: nat, k: nat)
    requires 0 <= k < n <= |s| && !IsWhiteSpace(s[n - 1])
    requires forall i :: 0 <= i < n ==> s[i] != '('
    ensures MatchEndAt(s, k).None?
  {
    WhiteRunSpec(s, k);
    var j := WhiteRun(s, k);
    assert j < n;
  }

  /** The match of the appended marker starts at its blank and runs to the end. */
  lemma MatchOfSelfMarker(t: string, sub: string)
    requires sub != [] && forall k :: 0 <= k < |sub| ==> sub[k] != ')'
    ensures MatchEndAt(WithSelfMarker(t, sub), |t|) == Some(|WithSelfMarker(t, sub)|)
  {
    var s := WithSelfMarker(t, sub);
    var n := |t|;
    var m := n + 1 + |SelfMarker|;
    assert s[n] == ' ' && s[n + 1] == '(';
    assert WhiteRun(s, n + 1) == n + 1;
    assert WhiteRun(s, n) == n + 1;
    assert s[n + 1..m] == SelfMarker;
    forall k | m <= k < m + |sub| ensures s[k] != ')' {
      assert s[k] == sub[k - m];
    }
    OpenRunOf(s, m, m + |sub|);
  }

  /** The replace removes exactly the appended marker. */
  lemma RemoveSelfMarkerOfSuffix(t: string, sub: string)
    requires t != [] && !IsWhiteSpace(t[|t| - 1])
    requires forall k :: 0 <= k < |t| ==> t[k] != '('
    requires sub != [] && forall k :: 0 <= k < |sub| ==> sub[k] != ')'
    ensures RemoveSelfMarker(WithSelfMarker(t, sub)) == t
  {
    var s := WithSelfMarker(t, sub);
    var n := |t|;
    assert s[..n] == t;
    forall k | 0 <= k < n ensures MatchEndAt(s, k).None? {
      assert s[n - 1] == t[n - 1];
      assert forall i :: 0 <= i < n ==> s[i] == t[i];
      NoMatchInside(s, n, k);
    }
    FirstMatchSkip(s, 0, n);
    MatchOfSelfMarker(t, sub);
  }

  /** A title without parentheses and without surrounding white space gets
      back exactly what it was before " (self.<subreddit>)" was appended. */
  lemma RowTitleStripsSelfMarker(t: string, sub: string)
    requires t != [] && !IsWhiteSpace(t[0]) && !IsWhiteSpace(t[|t| - 1])
    requires forall k :: 0 <= k < |t| ==> t[k] != '('
    requires sub != [] && forall k :: 0 <= k < |sub| ==> sub[k] != ')'
    ensures RowTitle(ListingRow(Some(WithSelfMarker(t, sub)), None, None, None)) == t
  {
    var s := WithSelfMarker(t, sub);
    assert s[0] == t[0];
    assert TrimStart(s) == s;
    assert TrimEnd(s) == s;
    RemoveSelfMarkerOfSuffix(t, sub);
    assert TrimStart(t) == t;
    assert TrimEnd(t) == t;
  }

  /** A title holding no marker is only trimmed. */
  lemma RowTitleWithoutMarker(r: ListingRow)
    requires var t := TrimmedOr(r.titleText, ""); FirstMatch(t, 0).None?
    ensures RowTitle(r) == Trim(TrimmedOr(r.titleText, ""))
  {
  }

  /** The title is always trimmed. */
  lemma RowTitleTrimmed(r: ListingRow)
    ensures Trim(RowTitle(r)) == RowTitle(r)
  {
    TrimIdempotent(RemoveSelfMarker(TrimmedOr(r.titleText, "")));
  }

  // ----- one entry -----

  /** The entry's post before links are made absolute, or None for an ad:
      an entry whose score or comment count does not parse. */
  function RowPost(r: ListingRow): (p: Option<Post>)
    ensures p.None? <==> CountOf(r.scoreText).NaN? || CountOf(r.commentsText).NaN?
    ensures p.Some? ==> p.value.numberOfUpvotes == CountOf(r.scoreText) &&
                        p.value.numberOfComments == CountOf(r.commentsText)
  {
    var upvotes := CountOf(r.scoreText);
    var comments := CountOf(r.commentsText);
    if upvotes.NaN? || comments.NaN? then None
    else Some(Post(RowTitle(r), r.href.GetOr(""), upvotes, comments))
  }

  /** A site-relative link, one starting with '/', gets the site in front. */
  function AbsoluteUrl(url: string): (r: string)
    ensures r == [] || r[0] != '/'
  {
    if |url| > 0 && url[0] == '/' then "https://www.reddit.com" + url else url
  }

  /** Making a link absolute twice is making it absolute once. */
  lemma AbsoluteUrlIdempotent(url: string)
    ensures AbsoluteUrl(AbsoluteUrl(url)) == AbsoluteUrl(url)
  {
  }

  /** Absolute links are kept as they are; relative ones keep their path. */
  lemma AbsoluteUrlKeepsPath(url: string)
    ensures |url| > 0 && url[0] == '/' ==> AbsoluteUrl(url) == "https://www.reddit.com" + url
    ensures !(|url| > 0 && url[0] == '/') ==> AbsoluteUrl(url) == url
  {
  }

  /** What one entry contributes to the result. */
  function RowOutput(r: ListingRow): seq<Post> {
    match RowPost(r)
    case None => []
    case Some(p) => [p.(url := AbsoluteUrl(p.url))]
  }

  // ----- the listing -----

  /** `postElements.slice(0, limit).map(...)`, then the null filter and the
      url map, in page order. */
  function ListingPosts(rows: seq<ListingRow>, limit: nat): seq<Post> {
    var n := if limit < |rows| then limit else |rows|;
    ConcatMap(rows[..n], RowOutput)
  }

  /** At most `limit` posts and at most one per entry. */
  lemma ListingPostsLength(rows: seq<ListingRow>, limit: nat)
    ensures |ListingPosts(rows, limit)| <= limit && |ListingPosts(rows, limit)| <= |rows|
  {
    var n := if limit < |rows| then limit else |rows|;
    ConcatMapLength(rows[..n], RowOutput);
  }

  /** A post is returned exactly when one of the first `limit` entries is
      not an ad and yields it, with its link made absolute. */
  lemma ListingPostsMembership(rows: seq<ListingRow>, limit: nat, p: Post)
    ensures p in ListingPosts(rows, limit) <==>
      exists i :: 0 <= i < limit && i < |rows| && RowPost(rows[i]).Some? &&
        p == RowPost(rows[i]).value.(url := AbsoluteUrl(RowPost(rows[i]).value.url))
  {
    var n := if limit < |rows| then limit else |rows|;
    ConcatMapMembership(rows[..n], RowOutput, p);
    assert forall i :: 0 <= i < n ==> rows[..n][i] == rows[i];
  }

  /** ListingPostsMembership, for every post at once. */
  lemma ListingPostsMembershipAll(rows: seq<ListingRow>, limit: nat)
    ensures forall p :: p in ListingPosts(rows, limit) <==>
      exists i :: 0 <= i < limit && i < |rows| && RowPost(rows[i]).Some? &&
        p == RowPost(rows[i]).value.(url := AbsoluteUrl(RowPost(rows[i]).value.url))
  {
    forall p {
      ListingPostsMembership(rows, limit, p);
    }
  }

  /** No returned link is site-relative, and no count is NaN. */
  lemma ListingPostsWellFormed(rows: seq<ListingRow>, limit: nat)
    ensures forall p :: p in ListingPosts(rows, limit) ==>
      (p.url == [] || p.url[0] != '/') && p.numberOfUpvotes.Int? && p.numberOfComments.Int?
  {
    forall p | p in ListingPosts(rows, limit)
      ensures (p.url == [] || p.url[0] != '/') && p.numberOfUpvotes.Int? && p.numberOfComments.Int?
    {
      ListingPostsMembership(rows, limit, p);
    }
  }

  /** Page order is kept: with enough room, the entries of a listing split
      in two give the posts of the first part followed by those of the
      second. */
  lemma ListingPostsInOrder(a: seq<ListingRow>, b: seq<ListingRow>, limit: nat)
    requires |a| + |b| <= limit
    ensures ListingPosts(a + b, limit) == ListingPosts(a, limit) + ListingPosts(b, limit)
  {
    assert (a + b)[..|a + b|] == a + b;
    assert a[..|a|] == a;
    assert b[..|b|] == b;
    ConcatMapAppend(a, b, RowOutput);
  }

  /** Entries after the first `limit` are never read. */
  lemma ListingPostsIgnoresTail(rows: seq<ListingRow>, more: seq<ListingRow>, limit: nat)
    requires limit <= |rows|
    ensures ListingPosts(rows + more, limit) == ListingPosts(rows, limit)
  {
    assert (rows + more)[..limit] == rows[..limit];
  }

  /** The listing page of a subreddit. */
  function ListingUrl(subreddit: string): string {
    "https://old.reddit.com/r/" + subreddit + "/top/?sort=top&t=week"
  }

  /** getTopPostsOfTheWeekForSubreddit.  `page(url)` is the listing entries
      after the page at `url` loads, or None when navigation, the waits or
      the page script throw; any failure yields no posts. */
  function GetTopPostsOfTheWeekForSubreddit(page: string -> Option<seq<ListingRow>>,
      subreddit: string, limit: nat): (posts: seq<Post>)
    ensures page(ListingUrl(subreddit)).None? ==> posts == []
    ensures |posts| <= limit
    ensures forall p :: p in posts ==>
      (p.url == [] || p.url[0] != '/') && p.numberOfUpvotes.Int? && p.numberOfComments.Int?
    ensures page(ListingUrl(subreddit)).Some? ==> var rows := page(ListingUrl(subreddit)).value;
      forall p :: p in posts <==>
        exists i :: 0 <= i < limit && i < |rows| && RowPost(rows[i]).Some? &&
          p == RowPost(rows[i]).value.(url := AbsoluteUrl(RowPost(rows[i]).value.url))
  {
    match page(ListingUrl(subreddit))
    case None => []
    case Some(rows) =>
      ListingPostsLength(rows, limit);
      ListingPostsWellFormed(rows, limit);
      ListingPostsMembershipAll(rows, limit);
      ListingPosts(rows, limit)
  }
}
