/** The shared definitions of the digest: the post record, the Hacker News
    per-day filter and the configured subreddits. */
module Constants {

  /** A JavaScript number as the collectors can produce it: an integer or
      NaN (parseInt of non-numeric text). */
  datatype Count = Int(n: int) | NaN

  /** One ranked post, as rendered into the digest. */
  datatype Post = Post(title: string, url: string, numberOfUpvotes: Count, numberOfComments: Count)

  /** The three per-day filters of the Hacker News page (the source's enum
      values are 10, 20 and 0.5). */
  datatype HckrNewsPostFilter = Top10 | Top20 | Top50Percent

  const TECH_SUBREDDITS: seq<string> := ["experienceddevs", "node", "reactjs"]
  const BUSINESS_SUBREDDITS: seq<string> := ["entrepreneur", "startups", "saas", "sideproject"]
  const SUBREDDITS: seq<string> := TECH_SUBREDDITS + BUSINESS_SUBREDDITS
}
