/** The digest document (generateWeeklyTopPostsHTML in src/main.ts and in
    script.ts): a fixed head, one Reddit section per subreddit in the order
    of SUBREDDITS, the Hacker News section with the top-10 filter, and a
    fixed tail.  The collectors are parameters: `reddit(s)` is what the
    subreddit collector returns for s, `hackerNews(f)` what the Hacker News
    collector returns for filter f. */
module Digest {
  import opened Constants
  import opened Seqs
  import opened HackerNews
  import opened Formatters

  /** The document head, its style sheet and the title "Weekly Top Posts". */
  const DOCUMENT_HEAD: string := "\n    <html>\n      <head>\n        "
    + "<style>\n          body { "
    + "font-family: Arial, sans-serif; "
    + "line-height: 1.6; color: #333; }"
    + "\n          h1 { color: #2c3e50; "
    + "text-align: center; }\n        "
    + "</style>\n      </head>\n      <body>"
    + "\n        <h1>Weekly Top Posts</h1>"
    + "\n  "
  const DOCUMENT_TAIL: string := "\n      </body>\n    </html>\n  "

  function SectionFor(reddit: string -> seq<Post>): string -> string {
    s => RedditSection(s, reddit(s))
  }

  /** The Reddit part of the document. */
  function RedditPart(subreddits: seq<string>, reddit: string -> seq<Post>): string {
    ConcatMap(subreddits, SectionFor(reddit))
  }

  /** generateWeeklyTopPostsHTML, as a value. */
  function WeeklyDigest(reddit: string -> seq<Post>, hackerNews: HckrNewsPostFilter -> seq<DayGroup>,
      dayLabel: int -> string): string
  {
    DOCUMENT_HEAD + RedditPart(SUBREDDITS, reddit) + HackerNewsSection(hackerNews(Top10), dayLabel)
    + DOCUMENT_TAIL
  }

  /** generateWeeklyTopPostsHTML. */
  method GenerateWeeklyTopPostsHTML(reddit: string -> seq<Post>,
      hackerNews: HckrNewsPostFilter -> seq<DayGroup>, dayLabel: int -> string)
    returns (emailContent: string)
    ensures emailContent == WeeklyDigest(reddit, hackerNews, dayLabel)
  {
    emailContent := DOCUMENT_HEAD;
    var i := 0;
    assert SUBREDDITS[..0] == [];
    while i < |SUBREDDITS|
      invariant 0 <= i <= |SUBREDDITS|
      invariant emailContent == DOCUMENT_HEAD + ConcatMap(SUBREDDITS[..i], SectionFor(reddit))
    {
      var subreddit := SUBREDDITS[i];
      var posts := reddit(subreddit);
      var section := FormatRedditPosts(subreddit, posts);
      ConcatMapExtend(DOCUMENT_HEAD, SUBREDDITS, i, SectionFor(reddit));
      emailContent := emailContent + section;
      i := i + 1;
    }
    ConcatMapAll(SUBREDDITS, SectionFor(reddit));
    var groups := hackerNews(Top10);
    var hn := FormatHackerNewsPosts(groups, dayLabel);
    emailContent := emailContent + hn;
    emailContent := emailContent + DOCUMENT_TAIL;
  }

  /** The Reddit part is one section per subreddit, in the order
      experienceddevs, node, reactjs, entrepreneur, startups, saas,
      sideproject. */
  lemma RedditPartSections(reddit: string -> seq<Post>)
    ensures RedditPart(SUBREDDITS, reddit) ==
      RedditSection("experienceddevs", reddit("experienceddevs"))
      + RedditSection("node", reddit("node"))
      + RedditSection("reactjs", reddit("reactjs"))
      + RedditSection("entrepreneur", reddit("entrepreneur"))
      + RedditSection("startups", reddit("startups"))
      + RedditSection("saas", reddit("saas"))
      + RedditSection("sideproject", reddit("sideproject"))
  {
    assert SUBREDDITS == ["experienceddevs", "node", "reactjs", "entrepreneur", "startups", "saas", "sideproject"];
    ConcatMapSeven("experienceddevs", "node", "reactjs", "entrepreneur", "startups", "saas", "sideproject",
                   SectionFor(reddit));
  }

  /** The document starts with the head and ends with the tail. */
  lemma WeeklyDigestFrame(reddit: string -> seq<Post>,
      hackerNews: HckrNewsPostFilter -> seq<DayGroup>, dayLabel: int -> string)
    ensures var doc := WeeklyDigest(reddit, hackerNews, dayLabel);
      |doc| >= |DOCUMENT_HEAD| + |DOCUMENT_TAIL| &&
      doc[..|DOCUMENT_HEAD|] == DOCUMENT_HEAD && doc[|doc| - |DOCUMENT_TAIL|..] == DOCUMENT_TAIL
  {
    FramedBy(DOCUMENT_HEAD, RedditPart(SUBREDDITS, reddit), HackerNewsSection(hackerNews(Top10), dayLabel),
             DOCUMENT_TAIL);
  }

  /** Only the subreddits of SUBREDDITS and the top-10 Hacker News result
      are read: collectors that agree on them give the same document. */
  lemma WeeklyDigestReadsOnly(reddit: string -> seq<Post>, reddit': string -> seq<Post>,
      hackerNews: HckrNewsPostFilter -> seq<DayGroup>, hackerNews': HckrNewsPostFilter -> seq<DayGroup>,
      dayLabel: int -> string)
    requires forall i :: 0 <= i < |SUBREDDITS| ==> reddit(SUBREDDITS[i]) == reddit'(SUBREDDITS[i])
    requires hackerNews(Top10) == hackerNews'(Top10)
    ensures WeeklyDigest(reddit, hackerNews, dayLabel) == WeeklyDigest(reddit', hackerNews', dayLabel)
  {
    ConcatMapCongruent(SUBREDDITS, SectionFor(reddit), SectionFor(reddit'));
  }
}
