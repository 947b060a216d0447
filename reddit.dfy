/** The Reddit API collector (src/reddit.ts): an OAuth token cached in two
    module-level variables, and the weekly top listing of a subreddit turned
    into posts.  The environment, the clock and the two HTTP exchanges are
    parameters: `now` and `receivedAt` are the values of Date.now() before
    and after the token request, and the responses are given as values. */
module Reddit {
  import opened Wrappers
  import opened Constants
  import opened JsText
  import opened Seqs

  // ----- the OAuth token -----

  /** The five REDDIT_* environment variables; an unset variable is "". */
  datatype Credentials = Credentials(clientId: string, clientSecret: string,
                                     username: string, password: string, userAgent: string)

  /** The JSON body of the token endpoint: `access_token` (None when absent)
      and `expires_in`, in seconds. */
  datatype TokenResponse = TokenResponse(accessToken: Option<string>, expiresIn: int)

  /** Why getRedditOAuthToken throws: the two errors it raises itself, and
      a token request that throws. */
  datatype TokenError = MissingCredentials | TokenExchangeFailed | RequestThrew

  /** The cache after a call, and what the call returned. */
  datatype TokenOutcome = TokenOutcome(token: string, expiry: int, result: Result<string, TokenError>)

  /** `!clientId || !clientSecret || !username || !password || !userAgent`. */
  predicate CredentialsMissing(c: Credentials) {
    c.clientId == "" || c.clientSecret == "" || c.username == "" || c.password == "" || c.userAgent == ""
  }

  /** A truthy `access_token`. */
  predicate HasAccessToken(r: TokenResponse) {
    r.accessToken.Some? && r.accessToken.value != ""
  }

  /** The cached token is reused when it is non-empty and not yet expired. */
  predicate CacheValid(token: string, expiry: int, now: int) {
    token != "" && now < expiry
  }

  /** One call of getRedditOAuthToken, as a function of the cache before it.
      `exchange` is None when the fetch or the JSON decoding throws. */
  function TokenStep(token: string, expiry: int, now: int, creds: Credentials,
      exchange: Credentials -> Option<TokenResponse>, receivedAt: int): TokenOutcome
  {
    if CacheValid(token, expiry, now) then TokenOutcome(token, expiry, Success(token))
    else if CredentialsMissing(creds) then TokenOutcome(token, expiry, Failure(MissingCredentials))
    else match exchange(creds)
      case None => TokenOutcome(token, expiry, Failure(RequestThrew))
      case Some(resp) =>
        if !HasAccessToken(resp) then TokenOutcome(token, expiry, Failure(TokenExchangeFailed))
        else TokenOutcome(resp.accessToken.value, receivedAt + resp.expiresIn * 1000,
                          Success(resp.accessToken.value))
  }

  /** A valid cached token is returned as is, and the cache is untouched. */
  lemma CacheHit(token: string, expiry: int, now: int, creds: Credentials,
      exchange: Credentials -> Option<TokenResponse>, receivedAt: int)
    requires token != "" && now < expiry
    ensures TokenStep(token, expiry, now, creds, exchange, receivedAt) == TokenOutcome(token, expiry, Success(token))
  {
  }

  /** The token is requested again exactly when the cache is empty or the
      clock has reached the expiry (the test is strict). */
  lemma RefreshExactlyWhenInvalid(token: string, expiry: int, now: int, creds: Credentials,
      exchange: Credentials -> Option<TokenResponse>, receivedAt: int)
    requires !CredentialsMissing(creds) && exchange(creds).Some? && HasAccessToken(exchange(creds).value)
    requires exchange(creds).value.accessToken.value != token
    ensures TokenStep(token, expiry, now, creds, exchange, receivedAt).token != token <==>
      (token == "" || now >= expiry)
  {
  }

  /** Every failure leaves the cache as it was and the result is an error. */
  lemma FailureKeepsCache(token: string, expiry: int, now: int, creds: Credentials,
      exchange: Credentials -> Option<TokenResponse>, receivedAt: int)
    ensures var o := TokenStep(token, expiry, now, creds, exchange, receivedAt);
      o.result.Failure? ==> o.token == token && o.expiry == expiry
    ensures var o := TokenStep(token, expiry, now, creds, exchange, receivedAt);
      o.result.Failure? <==> (!CacheValid(token, expiry, now) &&
        (CredentialsMissing(creds) || exchange(creds).None? || !HasAccessToken(exchange(creds).value)))
  {
  }

  /** The error names the first check that failed. */
  lemma FailureReasons(token: string, expiry: int, now: int, creds: Credentials,
      exchange: Credentials -> Option<TokenResponse>, receivedAt: int)
    requires !CacheValid(token, expiry, now)
    ensures var o := TokenStep(token, expiry, now, creds, exchange, receivedAt);
      && (CredentialsMissing(creds) ==> o.result == Failure(MissingCredentials))
      && (!CredentialsMissing(creds) && exchange(creds).None? ==> o.result == Failure(RequestThrew))
      && (!CredentialsMissing(creds) && exchange(creds).Some? && !HasAccessToken(exchange(creds).value) ==>
            o.result == Failure(TokenExchangeFailed))
  {
  }

  /** A fresh token is stored with its expiry `expires_in` seconds after the
      response arrived, and is what the call returns. */
  lemma RefreshStoresToken(token: string, expiry: int, now: int, creds: Credentials,
      exchange: Credentials -> Option<TokenResponse>, receivedAt: int)
    requires !CacheValid(token, expiry, now) && !CredentialsMissing(creds)
    requires exchange(creds).Some? && HasAccessToken(exchange(creds).value)
    ensures var o := TokenStep(token, expiry, now, creds, exchange, receivedAt);
      var resp := exchange(creds).value;
      o.token == resp.accessToken.value && o.expiry == receivedAt + resp.expiresIn * 1000 &&
      o.result == Success(resp.accessToken.value)
  {
  }

  /** Any successful call leaves a non-empty token in the cache and returns
      it; a second call before its expiry returns it again without another
      request. */
  lemma SuccessThenHit(token: string, expiry: int, now: int, creds: Credentials,
      exchange: Credentials -> Option<TokenResponse>, receivedAt: int,
      later: int, creds': Credentials, exchange': Credentials -> Option<TokenResponse>, receivedAt': int)
    requires TokenStep(token, expiry, now, creds, exchange, receivedAt).result.Success?
    requires later < TokenStep(token, expiry, now, creds, exchange, receivedAt).expiry
    ensures var o := TokenStep(token, expiry, now, creds, exchange, receivedAt);
      o.result == Success(o.token) && o.token != "" &&
      TokenStep(o.token, o.expiry, later, creds', exchange', receivedAt') == o
  {
  }

  /** A token fetched with a positive lifetime is still valid at the instant
      its response arrived, so an immediate second call reuses it. */
  lemma RefreshThenImmediateHit(token: string, expiry: int, now: int, creds: Credentials,
      exchange: Credentials -> Option<TokenResponse>, receivedAt: int,
      creds': Credentials, exchange': Credentials -> Option<TokenResponse>, receivedAt': int)
    requires !CacheValid(token, expiry, now) && !CredentialsMissing(creds)
    requires exchange(creds).Some? && HasAccessToken(exchange(creds).value)
    requires exchange(creds).value.expiresIn > 0
    ensures var o := TokenStep(token, expiry, now, creds, exchange, receivedAt);
      TokenStep(o.token, o.expiry, receivedAt, creds', exchange', receivedAt') == o
  {
    RefreshStoresToken(token, expiry, now, creds, exchange, receivedAt);
  }

  /** The module-level `redditAccessToken` and `tokenExpirationTime`. */
  class TokenCache {
    var token: string
    var expiry: int

    constructor ()
      ensures token == "" && expiry == 0
    {
      token := "";
      expiry := 0;
    }

    /** getRedditOAuthToken. */
    method GetToken(now: int, creds: Credentials, exchange: Credentials -> Option<TokenResponse>,
        receivedAt: int) returns (r: Result<string, TokenError>)
      modifies this
      ensures TokenOutcome(token, expiry, r) == TokenStep(old(token), old(expiry), now, creds, exchange, receivedAt)
    {
      if token != "" && now < expiry {
        return Success(token);
      }
      if CredentialsMissing(creds) {
        return Failure(MissingCredentials);
      }
      var response := exchange(creds);
      if response.None? {
        return Failure(RequestThrew);
      }
      var data := response.value;
      if !HasAccessToken(data) {
        return Failure(TokenExchangeFailed);
      }
      token := data.accessToken.value;
      expiry := receivedAt + data.expiresIn * 1000;
      return Success(token);
    }
  }

  // ----- the weekly listing -----

  /** `child.data` of one listing entry: title and url are None when absent. */
  datatype RawPost = RawPost(title: Option<string>, url: Option<string>, ups: int, numComments: int)

  /** One entry of `data.children`; `data` is None when the entry has none. */
  datatype Child = Child(data: Option<RawPost>)

  /** The body of the listing request. */
  datatype ListingResponse =
    | RequestFailed              // fetch or response.json() threw
    | MissingData                // `!data.data`
    | MissingChildren            // `!data.data.children`
    | Children(children: seq<Child>)

  /** The listing URL the collector fetches. */
  function ApiUrl(subreddit: string, limit: nat): string {
    "https://oauth.reddit.com/r/" + subreddit + "/top?t=week&limit=" + NatToString(limit)
  }

  /** The `.filter(post => post.title && post.url)` test. */
  predicate Keeps(p: RawPost) {
    p.title.Some? && p.title.value != "" && p.url.Some? && p.url.value != ""
  }

  /** The `.map` to a Post followed by the filter, for one entry. */
  function ChildOutput(c: Child): seq<Post> {
    match c.data
    case None => []
    case Some(p) =>
      if Keeps(p) then [Post(p.title.value, p.url.value, Int(p.ups), Int(p.numComments))] else []
  }

  /** An entry without `data` makes the map throw (reading `post.title` of
      undefined), and the collector then returns no posts. */
  predicate SomeChildLacksData(children: seq<Child>) {
    exists i :: 0 <= i < |children| && children[i].data.None?
  }

  /** The posts the collector returns for a listing response. */
  function ListingPosts(r: ListingResponse): seq<Post> {
    match r
    case Children(children) =>
      if SomeChildLacksData(children) then [] else ConcatMap(children, ChildOutput)
    case _ => []
  }

  /** A post is returned exactly when some entry carries it with a truthy
      title and url; its counts are the entry's `ups` and `num_comments`. */
  lemma ListingPostsMembership(children: seq<Child>, p: Post)
    requires !SomeChildLacksData(children)
    ensures p in ListingPosts(Children(children)) <==>
      exists i :: 0 <= i < |children| && Keeps(children[i].data.value) &&
        p == Post(children[i].data.value.title.value, children[i].data.value.url.value,
                  Int(children[i].data.value.ups), Int(children[i].data.value.numComments))
  {
    ConcatMapMembership(children, ChildOutput, p);
  }

  /** Every returned post has a non-empty title and url. */
  lemma ListingPostsNonEmpty(r: ListingResponse)
    ensures forall p :: p in ListingPosts(r) ==> p.title != "" && p.url != ""
  {
    if r.Children? && !SomeChildLacksData(r.children) {
      forall p | p in ListingPosts(r) ensures p.title != "" && p.url != "" {
        ListingPostsMembership(r.children, p);
      }
    }
  }

  /** No more posts than entries, none from a malformed response, and none
      at all when some entry has no `data`. */
  lemma ListingPostsLength(r: ListingResponse)
    ensures r.Children? ==> |ListingPosts(r)| <= |r.children|
    ensures !r.Children? ==> ListingPosts(r) == []
    ensures r.Children? && SomeChildLacksData(r.children) ==> ListingPosts(r) == []
  {
    if r.Children? && !SomeChildLacksData(r.children) {
      ConcatMapLength(r.children, ChildOutput);
    }
  }

  /** The entries are kept in listing order: the posts of a listing split in
      two are the posts of the first part followed by those of the second. */
  lemma ListingPostsInOrder(a: seq<Child>, b: seq<Child>)
    requires !SomeChildLacksData(a + b)
    ensures ListingPosts(Children(a + b)) ==
      ListingPosts(Children(a)) + ListingPosts(Children(b))
  {
    assert !SomeChildLacksData(a) by {
      forall i | 0 <= i < |a| ensures a[i].data.Some? {
        assert (a + b)[i] == a[i];
      }
    }
    assert !SomeChildLacksData(b) by {
      forall i | 0 <= i < |b| ensures b[i].data.Some? {
        assert (a + b)[|a| + i] == b[i];
      }
    }
    ConcatMapAppend(a, b, ChildOutput);
  }

  /** getTopPostsOfTheWeekForSubredditAPI.  `api(url, token)` is the body
      the listing request returns.  A token failure, a failed request and a
      malformed body all yield no posts. */
  method GetTopPostsOfTheWeekForSubredditAPI(cache: TokenCache, subreddit: string, limit: nat,
      now: int, creds: Credentials, exchange: Credentials -> Option<TokenResponse>, receivedAt: int,
      api: (string, string) -> ListingResponse)
    returns (posts: seq<Post>)
    modifies cache
    ensures var o := TokenStep(old(cache.token), old(cache.expiry), now, creds, exchange, receivedAt);
      && cache.token == o.token && cache.expiry == o.expiry
      && (o.result.Failure? ==> posts == [])
      && (o.result.Success? ==> posts == ListingPosts(api(ApiUrl(subreddit, limit), o.result.value)))
  {
    var token := cache.GetToken(now, creds, exchange, receivedAt);
    if token.Failure? {
      return [];
    }
    var response := api(ApiUrl(subreddit, limit), token.value);
    posts := ListingPosts(response);
  }
}
