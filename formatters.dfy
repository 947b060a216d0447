/** The HTML formatters (src/formatters.ts, repeated in script.ts).  Each
    builds its text with `+=` in forEach loops; each method is proved equal
    to a function that states the text as a concatenation.  The fixed text
    of each template literal is kept as a constant, split into short pieces;
    the layout is stated once for any such text. */
module Formatters {
  import opened Constants
  import opened JsText
  import opened Seqs
  import opened HackerNews

  // ----- list items -----

  /** The fixed text of an item template around its four interpolations:
      `${post.url}`, `${post.title}`, `${post.numberOfUpvotes}` and
      `${post.numberOfComments}`. */
  datatype ItemTexts = ItemTexts(beforeUrl: string, beforeTitle: string,
                                 beforeUpvotes: string, beforeComments: string, after: string)

  /** One list item: the title as a link to the url, then the two counts. */
  function Item(t: ItemTexts, p: Post): string {
    t.beforeUrl + p.url + t.beforeTitle + p.title
    + t.beforeUpvotes + CountToString(p.numberOfUpvotes)
    + t.beforeComments + CountToString(p.numberOfComments) + t.after
  }

  function ItemOf(t: ItemTexts): Post -> string {
    p => Item(t, p)
  }

  /** The items of a list of posts, in order. */
  function Items(t: ItemTexts, posts: seq<Post>): string {
    ConcatMap(posts, ItemOf(t))
  }

  /** `posts.forEach((post) => { html += `...` })`. */
  method AppendItems(html: string, t: ItemTexts, posts: seq<Post>) returns (r: string)
    ensures r == html + Items(t, posts)
  {
    r := html;
    var i := 0;
    assert posts[..0] == [];
    while i < |posts|
      invariant 0 <= i <= |posts|
      invariant r == html + ConcatMap(posts[..i], ItemOf(t))
    {
      ConcatMapExtend(html, posts, i, ItemOf(t));
      r := r + Item(t, posts[i]);
      i := i + 1;
    }
    ConcatMapAll(posts, ItemOf(t));
  }

  /** Every post contributes exactly its own item, in order. */
  lemma ItemsAppend(t: ItemTexts, a: seq<Post>, b: seq<Post>)
    ensures Items(t, a + b) == Items(t, a) + Items(t, b)
  {
    ConcatMapAppend(a, b, ItemOf(t));
  }

  lemma ItemsSingle(t: ItemTexts, p: Post)
    ensures Items(t, [p]) == Item(t, p)
  {
    ConcatMapSingle(p, ItemOf(t));
  }

  /** An item shows the url, the title and both counts, each right after
      the fixed text that precedes it. */
  lemma ItemShowsPost(t: ItemTexts, p: Post)
    ensures var item := Item(t, p);
      var up, com := CountToString(p.numberOfUpvotes), CountToString(p.numberOfComments);
      && OccursAt(item, |t.beforeUrl|, p.url)
      && OccursAt(item, |t.beforeUrl + p.url + t.beforeTitle|, p.title)
      && OccursAt(item, |t.beforeUrl + p.url + t.beforeTitle + p.title + t.beforeUpvotes|, up)
      && OccursAt(item, |t.beforeUrl + p.url + t.beforeTitle + p.title + t.beforeUpvotes + up
                        + t.beforeComments|, com)
  {
    var up, com := CountToString(p.numberOfUpvotes), CountToString(p.numberOfComments);
    var s1 := t.beforeUrl + p.url;
    var s2 := s1 + t.beforeTitle;
    var s3 := s2 + p.title;
    var s4 := s3 + t.beforeUpvotes;
    var s5 := s4 + up;
    var s6 := s5 + t.beforeComments;
    var s7 := s6 + com;
    OccursAtEnd(t.beforeUrl, p.url);
    OccursAtEnd(s2, p.title);
    OccursAtEnd(s4, up);
    OccursAtEnd(s6, com);
    OccursAtExtend(s1, |t.beforeUrl|, p.url, t.beforeTitle);
    OccursAtExtend(s2, |t.beforeUrl|, p.url, p.title);
    OccursAtExtend(s3, |t.beforeUrl|, p.url, t.beforeUpvotes);
    OccursAtExtend(s3, |s2|, p.title, t.beforeUpvotes);
    OccursAtExtend(s4, |t.beforeUrl|, p.url, up);
    OccursAtExtend(s4, |s2|, p.title, up);
    OccursAtExtend(s5, |t.beforeUrl|, p.url, t.beforeComments);
    OccursAtExtend(s5, |s2|, p.title, t.beforeComments);
    OccursAtExtend(s5, |s4|, up, t.beforeComments);
    OccursAtExtend(s6, |t.beforeUrl|, p.url, com);
    OccursAtExtend(s6, |s2|, p.title, com);
    OccursAtExtend(s6, |s4|, up, com);
    OccursAtExtend(s7, |t.beforeUrl|, p.url, t.after);
    OccursAtExtend(s7, |s2|, p.title, t.after);
    OccursAtExtend(s7, |s4|, up, t.after);
    OccursAtExtend(s7, |s6|, com, t.after);
  }

  // ----- a list -----

  /** An opening, the items of the posts, and a closing text. */
  function ListSection(open: string, t: ItemTexts, posts: seq<Post>, close: string): string {
    open + Items(t, posts) + close
  }

  /** A list with no posts is its opening and closing, and each further
      post adds its own item just before the closing. */
  lemma ListSectionGrows(open: string, t: ItemTexts, posts: seq<Post>, p: Post, close: string)
    ensures ListSection(open, t, [], close) == open + close
    ensures ListSection(open, t, posts + [p], close) == open + Items(t, posts) + Item(t, p) + close
  {
    ConcatMapEmptyWithin(open, close, ItemOf(t));
    ConcatMapSnocWithin(open, posts, p, close, ItemOf(t));
  }

  /** The items of two lists of posts, one after the other, inside one
      opening and closing. */
  lemma ListSectionAppend(open: string, t: ItemTexts, a: seq<Post>, b: seq<Post>, close: string)
    ensures ListSection(open, t, a + b, close) == open + Items(t, a) + Items(t, b) + close
  {
    ItemsAppend(t, a, b);
    AppendThree(open, Items(t, a), Items(t, b), close);
  }

  /** The list begins with its opening and ends with its closing. */
  lemma ListSectionFrame(open: string, t: ItemTexts, posts: seq<Post>, close: string)
    ensures var s := ListSection(open, t, posts, close);
      |s| >= |open| + |close| && s[..|open|] == open && s[|s| - |close|..] == close
  {
  }

  // ----- Reddit -----

  /** The card and heading up to the subreddit name. */
  const REDDIT_CARD_START: string := "\n    <div style=\"margin-bottom: "
      + "30px; background-color: #f8f9fa; "
      + "border-radius: 8px; padding: 20px;\">"
      + "\n      <h2 style=\"color: #1a1a1b; "
      + "font-family: Arial, sans-serif; "
      + "border-bottom: 2px solid #ff4500; "
      + "padding-bottom: 10px;\">"
  const REDDIT_HEADING: string := "Top 25 posts from /r/"
  /** The end of the heading and the opening of the list. */
  const REDDIT_HEADING_END: string := "</h2>\n      <ul "
      + "style=\"list-style-type: none; "
      + "padding: 0;\">\n  "
  const REDDIT_CLOSE: string := "</ul></div>"

  const REDDIT_ITEM: ItemTexts := ItemTexts(
    "\n      <li style=\"margin-bottom: "
      + "15px; padding: 10px; "
      + "background-color: white; "
      + "border-radius: 4px; box-shadow: 0 "
      + "1px 3px rgba(0,0,0,0.12);\">\n        "
      + "<a href=\"",
    "\" style=\"color: #0079d3; "
      + "text-decoration: none; font-weight: "
      + "bold; font-size: 16px;\">",
    "</a>\n        <div style=\"color: "
      + "#7c7c7c; font-size: 12px; "
      + "margin-top: 5px;\">\n          ",
    " upvotes | ",
    " comments\n        </div>\n      </li>"
      + "\n    ")

  /** The opening of a subreddit section: the card, the heading
      "Top 25 posts from /r/<subreddit>", and an open list. */
  function RedditHeader(subreddit: string): string {
    REDDIT_CARD_START + REDDIT_HEADING + subreddit + REDDIT_HEADING_END
  }

  /** formatRedditPosts, as a value. */
  function RedditSection(subreddit: string, posts: seq<Post>): string {
    ListSection(RedditHeader(subreddit), REDDIT_ITEM, posts, REDDIT_CLOSE)
  }

  /** formatRedditPosts. */
  method FormatRedditPosts(subreddit: string, posts: seq<Post>) returns (html: string)
    ensures html == RedditSection(subreddit, posts)
  {
    html := RedditHeader(subreddit);
    html := AppendItems(html, REDDIT_ITEM, posts);
    html := html + REDDIT_CLOSE;
  }

  /** The heading names the subreddit. */
  lemma RedditHeadingNamesSubreddit(subreddit: string, posts: seq<Post>)
    ensures OccursAt(RedditSection(subreddit, posts), |REDDIT_CARD_START|, REDDIT_HEADING)
    ensures OccursAt(RedditSection(subreddit, posts), |REDDIT_CARD_START + REDDIT_HEADING|, subreddit)
  {
    var s1 := REDDIT_CARD_START + REDDIT_HEADING;
    var s2 := s1 + subreddit;
    var s3 := s2 + REDDIT_HEADING_END;
    var s4 := s3 + Items(REDDIT_ITEM, posts);
    OccursAtEnd(REDDIT_CARD_START, REDDIT_HEADING);
    OccursAtEnd(s1, subreddit);
    OccursAtExtend(s1, |REDDIT_CARD_START|, REDDIT_HEADING, subreddit);
    OccursAtExtend(s2, |REDDIT_CARD_START|, REDDIT_HEADING, REDDIT_HEADING_END);
    OccursAtExtend(s2, |s1|, subreddit, REDDIT_HEADING_END);
    OccursAtExtend(s3, |REDDIT_CARD_START|, REDDIT_HEADING, Items(REDDIT_ITEM, posts));
    OccursAtExtend(s3, |s1|, subreddit, Items(REDDIT_ITEM, posts));
    OccursAtExtend(s4, |REDDIT_CARD_START|, REDDIT_HEADING, REDDIT_CLOSE);
    OccursAtExtend(s4, |s1|, subreddit, REDDIT_CLOSE);
  }

  // ----- Hacker News -----

  /** The card and its heading "Top 10 posts from Hacker News". */
  const HN_HEADER: string := "\n    <div style=\"margin-bottom: "
      + "30px; background-color: #f6f6ef; "
      + "border-radius: 8px; padding: 20px;\">"
      + "\n      <h2 style=\"color: #ff6600; "
      + "font-family: Verdana, Geneva, "
      + "sans-serif; border-bottom: 2px solid"
      + " #ff6600; padding-bottom: 10px;\">Top"
      + " 10 posts from Hacker News</h2>\n  "
  const HN_CLOSE: string := "</div>"
  /** The day heading before the date text, and after it the opening of
      the day's list. */
  const DAY_HEADING_START: string := "\n      <h3 style=\"color: #828282; "
      + "font-size: 18px; margin-top: 20px;\">"
  const DAY_HEADING_END: string := "</h3>\n      <ul "
      + "style=\"list-style-type: none; "
      + "padding: 0;\">\n    "
  const DAY_CLOSE: string := "</ul>"

  const HN_ITEM: ItemTexts := ItemTexts(
    "\n        <li style=\"margin-bottom: "
      + "15px; padding: 10px; "
      + "background-color: white; "
      + "border-radius: 4px; box-shadow: 0 "
      + "1px 3px rgba(0,0,0,0.12);\">"
      + "\n          <a href=\"",
    "\" style=\"color: #000000; "
      + "text-decoration: none; font-weight: "
      + "bold; font-size: 16px;\">",
    "</a>\n          <div style=\"color: "
      + "#828282; font-size: 12px; "
      + "margin-top: 5px;\">\n            ",
    " points | ",
    " comments\n          </div>\n        "
      + "</li>\n      ")

  /** The heading of a day group and the opening of its list. */
  function DayHeading(date: string): string {
    DAY_HEADING_START + date + DAY_HEADING_END
  }

  /** One day: its heading (the day's date text), its items, the closing tag. */
  function DayBlock(g: DayGroup, dayLabel: int -> string): string {
    ListSection(DayHeading(dayLabel(g.date)), HN_ITEM, g.posts, DAY_CLOSE)
  }

  function DayBlockWith(dayLabel: int -> string): DayGroup -> string {
    g => DayBlock(g, dayLabel)
  }

  function DayBlocks(groups: seq<DayGroup>, dayLabel: int -> string): string {
    ConcatMap(groups, DayBlockWith(dayLabel))
  }

  /** formatHackerNewsPosts, as a value.  `dayLabel` gives the date text of
      a day group (toDateString of its date). */
  function HackerNewsSection(groups: seq<DayGroup>, dayLabel: int -> string): string {
    HN_HEADER + DayBlocks(groups, dayLabel) + HN_CLOSE
  }

  /** formatHackerNewsPosts: the outer forEach over day groups, the inner
      one over their posts. */
  method FormatHackerNewsPosts(groups: seq<DayGroup>, dayLabel: int -> string) returns (html: string)
    ensures html == HackerNewsSection(groups, dayLabel)
  {
    html := HN_HEADER;
    var i := 0;
    assert groups[..0] == [];
    while i < |groups|
      invariant 0 <= i <= |groups|
      invariant html == HN_HEADER + ConcatMap(groups[..i], DayBlockWith(dayLabel))
    {
      var g := groups[i];
      ghost var before := html;
      html := html + DayHeading(dayLabel(g.date));
      html := AppendItems(html, HN_ITEM, g.posts);
      html := html + DAY_CLOSE;
      AppendThree(before, DayHeading(dayLabel(g.date)), Items(HN_ITEM, g.posts), DAY_CLOSE);
      ConcatMapExtend(HN_HEADER, groups, i, DayBlockWith(dayLabel));
      i := i + 1;
    }
    ConcatMapAll(groups, DayBlockWith(dayLabel));
    html := html + HN_CLOSE;
  }

  lemma AppendThree<T>(a: seq<T>, b: seq<T>, c: seq<T>, d: seq<T>)
    ensures a + b + c + d == a + (b + c + d)
  {
  }

  /** Every day group contributes exactly its own block, in order. */
  lemma DayBlocksAppend(a: seq<DayGroup>, b: seq<DayGroup>, dayLabel: int -> string)
    ensures DayBlocks(a + b, dayLabel) == DayBlocks(a, dayLabel) + DayBlocks(b, dayLabel)
  {
    ConcatMapAppend(a, b, DayBlockWith(dayLabel));
  }

  /** With no groups (the collector failed) only the heading and the closing
      tag remain; each further day adds its block before the closing tag. */
  lemma HackerNewsSectionGrows(groups: seq<DayGroup>, g: DayGroup, dayLabel: int -> string)
    ensures HackerNewsSection([], dayLabel) == HN_HEADER + HN_CLOSE
    ensures HackerNewsSection(groups + [g], dayLabel) ==
      HN_HEADER + DayBlocks(groups, dayLabel) + DayBlock(g, dayLabel) + HN_CLOSE
  {
    ConcatMapEmptyWithin(HN_HEADER, HN_CLOSE, DayBlockWith(dayLabel));
    ConcatMapSnocWithin(HN_HEADER, groups, g, HN_CLOSE, DayBlockWith(dayLabel));
  }
}
