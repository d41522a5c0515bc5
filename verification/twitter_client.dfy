/** The message client: token selection, and the limit-bounded walk over
    result pages done by search_tweets and user_tweets. The paginator and
    the network are not modelled: the pages arrive as a sequence. */
module TwitterClient {
  import opened Wrappers
  import opened Text
  import opened Records

  /** make_client's token: an explicit, non-empty token wins over the
      environment's; with neither, the client is not built. */
  function ChooseToken(explicit: Option<string>, env: Option<string>): (r: Result<string, string>)
    ensures r.Success? ==> r.value != ""
    ensures explicit.Some? && explicit.value != "" ==> r == Success(explicit.value)
    ensures (explicit.None? || explicit.value == "") && env.Some? && env.value != "" ==> r == Success(env.value)
    ensures r.Failure? <==> (explicit.None? || explicit.value == "") && (env.None? || env.value == "")
  {
    var token := if explicit.Some? && explicit.value != "" then explicit else env;
    if token.None? || token.value == "" then Failure(MissingToken) else Success(token.value)
  }

  const MissingToken := "Missing Twitter bearer token. Provide via --bearer-token or TWITTER_BEARER_TOKEN in .env"

  /** One page of results: the "users" expansion (empty when the page has
      none), the tweets (empty when the page has no data), and whether the
      page's meta carries a next_token. */
  datatype Page = Page(users: seq<User>, data: seq<Tweet>, hasNext: bool)

  /** The number of pages the loop may reach: up to and including the first
      page without a next token. */
  function ReadablePages(pages: seq<Page>): (n: nat)
    ensures n <= |pages|
    ensures forall j :: 0 <= j < n - 1 ==> pages[j].hasNext
    ensures n < |pages| ==> n > 0 && !pages[n - 1].hasNext
    ensures n == 0 ==> |pages| == 0
  {
    if |pages| == 0 then 0 else if !pages[0].hasNext then 1 else 1 + ReadablePages(pages[1..])
  }

  /** The tweets of all pages, in page order. */
  function AllData(pages: seq<Page>): seq<Tweet> {
    if |pages| == 0 then [] else pages[0].data + AllData(pages[1..])
  }

  lemma {:induction false} AllDataAppend(a: seq<Page>, b: seq<Page>)
    ensures AllData(a + b) == AllData(a) + AllData(b)
  {
    if |a| == 0 {
      assert a + b == b;
    } else {
      assert (a + b)[1..] == a[1..] + b;
      AllDataAppend(a[1..], b);
    }
  }

  /** The number of tweets the loop keeps: the limit, except that a limit
      below 1 still keeps the first tweet, because the check follows the
      append. */
  function Cap(limit: int): (c: nat)
    ensures c >= 1 && c >= limit
    ensures limit >= 1 ==> c == limit
    ensures limit < 1 ==> c == 1
  {
    if limit < 1 then 1 else limit
  }

  /** The tweets a collection returns: the first Cap(limit) tweets of the
      readable pages, or all of them when there are fewer. */
  function Collected(pages: seq<Page>, limit: int): (r: seq<Tweet>)
    ensures r <= AllData(pages[..ReadablePages(pages)])
    ensures r <= AllData(pages)
    ensures var readable := |AllData(pages[..ReadablePages(pages)])|;
      |r| == if readable < Cap(limit) then readable else Cap(limit)
  {
    var n := ReadablePages(pages);
    var all := AllData(pages[..n]);
    assert pages == pages[..n] + pages[n..];
    AllDataAppend(pages[..n], pages[n..]);
    if |all| < Cap(limit) then all else all[..Cap(limit)]
  }

  /** The number of pages the loop processes when it needs `need` tweets:
      it stops inside the first page that brings the count to `need`. */
  function PagesUsed(pages: seq<Page>, need: int): (n: nat)
    requires need >= 1
    ensures n <= |pages|
    ensures n == 0 <==> |pages| == 0
  {
    if |pages| == 0 then 0
    else if |pages[0].data| >= need then 1
    else 1 + PagesUsed(pages[1..], need - |pages[0].data|)
  }

  /** The pages processed hold fewer than `need` tweets without their last
      page, and at least `need` with it unless every page was processed. */
  lemma {:induction false} PagesUsedIsFirst(pages: seq<Page>, need: int)
    requires need >= 1
    ensures var n := PagesUsed(pages, need);
      (n < |pages| ==> |AllData(pages[..n])| >= need) &&
      (n > 0 ==> |AllData(pages[..n - 1])| < need)
  {
    if |pages| > 0 {
      assert pages[..1] == [pages[0]];
      assert AllData([pages[0]]) == pages[0].data + AllData([]);
      if |pages[0].data| < need {
        var rest := pages[1..];
        var need' := need - |pages[0].data|;
        var m := PagesUsed(rest, need');
        PagesUsedIsFirst(rest, need');
        assert pages[..m + 1] == [pages[0]] + rest[..m];
        AllDataAppend([pages[0]], rest[..m]);
        if m > 0 {
          assert pages[..m] == [pages[0]] + rest[..m - 1];
          AllDataAppend([pages[0]], rest[..m - 1]);
        }
      }
    }
  }

  /** PagesUsed is the first page at which the running count reaches `need`. */
  lemma {:induction false} PagesUsedAt(pages: seq<Page>, need: int, k: nat)
    requires need >= 1
    requires 1 <= k <= |pages|
    requires |AllData(pages[..k - 1])| < need <= |AllData(pages[..k])|
    ensures PagesUsed(pages, need) == k
  {
    assert AllData([pages[0]]) == pages[0].data + AllData([]);
    assert pages[..1] == [pages[0]];
    if k > 1 {
      assert pages[..k] == [pages[0]] + pages[1..][..k - 1];
      assert pages[..k - 1] == [pages[0]] + pages[1..][..k - 2];
      AllDataAppend([pages[0]], pages[1..][..k - 1]);
      AllDataAppend([pages[0]], pages[1..][..k - 2]);
      assert |pages[0].data| < need by {
        assert pages[..k - 1] == pages[..1] + pages[1..k - 1];
        AllDataAppend(pages[..1], pages[1..k - 1]);
      }
      PagesUsedAt(pages[1..], need - |pages[0].data|, k - 1);
    }
  }

  /** When all of the pages together fall short, every page is processed. */
  lemma {:induction false} PagesUsedAll(pages: seq<Page>, need: int)
    requires need >= 1
    requires |AllData(pages)| < need
    ensures PagesUsed(pages, need) == |pages|
  {
    if |pages| > 0 {
      assert pages == [pages[0]] + pages[1..];
      AllDataAppend([pages[0]], pages[1..]);
      assert AllData([pages[0]]) == pages[0].data + AllData([]);
      PagesUsedAll(pages[1..], need - |pages[0].data|);
    }
  }

  /** The key search_tweets files a user under: the decimal form of the user's id. */
  function UserKey(u: User): string {
    NatToString(u.id)
  }

  /** Each user, in order, files its username under the decimal form of its id,
      replacing any earlier entry for that id. */
  function MergeUsers(m: map<string, string>, users: seq<User>): (r: map<string, string>)
    ensures r.Keys == m.Keys + (set u | u in users :: UserKey(u))
  {
    if |users| == 0 then m
    else
      var last := users[|users| - 1];
      assert users == users[..|users| - 1] + [last];
      MergeUsers(m, users[..|users| - 1])[UserKey(last) := last.username]
  }

  /** Each user's entry holds the username of the last user in `users`
      with that id; keys no user touches keep their old value. */
  lemma {:induction false} MergeUsersLastWins(m: map<string, string>, users: seq<User>)
    ensures forall i :: 0 <= i < |users| && (forall j :: i < j < |users| ==> users[j].id != users[i].id) ==>
              MergeUsers(m, users)[UserKey(users[i])] == users[i].username
    ensures forall k :: k in m && (forall u :: u in users ==> UserKey(u) != k) ==> MergeUsers(m, users)[k] == m[k]
  {
    if |users| > 0 {
      var init := users[..|users| - 1];
      var last := users[|users| - 1];
      MergeUsersLastWins(m, init);
      forall i | 0 <= i < |users| && (forall j :: i < j < |users| ==> users[j].id != users[i].id)
        ensures MergeUsers(m, users)[UserKey(users[i])] == users[i].username
      {
        if i < |users| - 1 {
          assert init[i] == users[i];
          if UserKey(last) == UserKey(users[i]) {
            NatToStringInjective(last.id, users[i].id);
          }
        }
      }
      forall k | k in m && (forall u :: u in users ==> UserKey(u) != k)
        ensures MergeUsers(m, users)[k] == m[k]
      {
        assert last in users;
        assert forall u :: u in init ==> u in users;
      }
    }
  }

  /** The author map after processing `pages`. */
  function UsersSeen(pages: seq<Page>): (r: map<string, string>)
    ensures forall k :: k in r ==> forall c :: c in k ==> '0' <= c <= '9'
  {
    if |pages| == 0 then map[]
    else MergeUsers(UsersSeen(pages[..|pages| - 1]), pages[|pages| - 1].users)
  }

  lemma UsersSeenSnoc(pages: seq<Page>, p: nat)
    requires p < |pages|
    ensures UsersSeen(pages[..p + 1]) == MergeUsers(UsersSeen(pages[..p]), pages[p].users)
  {
    assert pages[..p + 1][..p] == pages[..p];
  }

  /** The author map holds exactly the keys of the users of the pages. */
  lemma {:induction false} UsersSeenKeys(pages: seq<Page>)
    ensures UsersSeen(pages).Keys == set i, u | 0 <= i < |pages| && u in pages[i].users :: UserKey(u)
  {
    if |pages| > 0 {
      var init := pages[..|pages| - 1];
      var last := pages[|pages| - 1];
      UsersSeenKeys(init);
      var all := set i, u | 0 <= i < |pages| && u in pages[i].users :: UserKey(u);
      forall k | k in all
        ensures k in UsersSeen(pages)
      {
        var i, u :| 0 <= i < |pages| && u in pages[i].users && k == UserKey(u);
        if i < |pages| - 1 {
          assert init[i] == pages[i];
        }
      }
      forall k | k in UsersSeen(pages)
        ensures k in all
      {
        if k !in UsersSeen(init) {
          var u :| u in last.users && k == UserKey(u);
          assert 0 <= |pages| - 1 < |pages| && u in pages[|pages| - 1].users;
        } else {
          var i, u :| 0 <= i < |init| && u in init[i].users && k == UserKey(u);
          assert pages[i] == init[i];
        }
      }
    }
  }

  /** The author map search_tweets returns: the users of every processed
      page, the page where the limit is hit included. */
  function AuthorsSeen(pages: seq<Page>, limit: int): map<string, string> {
    var n := ReadablePages(pages);
    UsersSeen(pages[..PagesUsed(pages[..n], Cap(limit))])
  }

  /** A page before a page without a next token is readable. */
  lemma ReadableCovers(pages: seq<Page>, p: nat)
    requires p < |pages|
    requires forall j :: 0 <= j < p ==> pages[j].hasNext
    ensures p < ReadablePages(pages)
  {
  }

  /** The readable tweets split at the end of page `p`. */
  lemma {:induction false} SplitAfter(pages: seq<Page>, n: nat, p: nat)
    requires p < n <= |pages|
    ensures AllData(pages[..n]) == AllData(pages[..p]) + pages[p].data + AllData(pages[p + 1..n])
    ensures pages[..n][..p] == pages[..p] && pages[..n][..p + 1] == pages[..p + 1]
  {
    assert pages[..n] == pages[..p + 1] + pages[p + 1..n];
    AllDataAppend(pages[..p + 1], pages[p + 1..n]);
    AllDataSnoc(pages, p);
  }

  lemma PrefixOfJoin(x: seq<Tweet>, y: seq<Tweet>, z: seq<Tweet>, k: nat)
    requires k <= |y|
    ensures (x + y + z)[..|x| + k] == x + y[..k]
  {
  }

  /** The state at the return inside the loop: the limit was reached at
      tweet `d` of page `p`. */
  lemma LimitReached(pages: seq<Page>, limit: int, p: nat, d: nat)
    requires p < |pages|
    requires forall j :: 0 <= j < p ==> pages[j].hasNext
    requires d < |pages[p].data|
    requires |AllData(pages[..p])| + d < Cap(limit)
    requires |AllData(pages[..p])| + d + 1 >= limit
    ensures AllData(pages[..p]) + pages[p].data[..d + 1] == Collected(pages, limit)
    ensures AuthorsSeen(pages, limit) == UsersSeen(pages[..p + 1])
  {
    var n := ReadablePages(pages);
    ReadableCovers(pages, p);
    SplitAfter(pages, n, p);
    AllDataSnoc(pages, p);
    PrefixOfJoin(AllData(pages[..p]), pages[p].data, AllData(pages[p + 1..n]), d + 1);
    LimitReachedAuthors(pages, limit, p, n);
  }

  lemma LimitReachedAuthors(pages: seq<Page>, limit: int, p: nat, n: nat)
    requires p < n == ReadablePages(pages)
    requires |AllData(pages[..p])| < Cap(limit) <= |AllData(pages[..p + 1])|
    ensures AuthorsSeen(pages, limit) == UsersSeen(pages[..p + 1])
  {
    assert pages[..n][..p] == pages[..p];
    assert pages[..n][..p + 1] == pages[..p + 1];
    PagesUsedAt(pages[..n], Cap(limit), p + 1);
  }

  /** The state at the break: page `p` has no next token and the limit was
      not reached. */
  lemma LastPageRead(pages: seq<Page>, limit: int, p: nat)
    requires p < |pages|
    requires forall j :: 0 <= j < p ==> pages[j].hasNext
    requires !pages[p].hasNext
    requires |AllData(pages[..p + 1])| < Cap(limit)
    ensures AllData(pages[..p + 1]) == Collected(pages, limit)
    ensures PagesUsed(pages[..ReadablePages(pages)], Cap(limit)) == p + 1
    ensures ReadablePages(pages) == p + 1
    ensures AuthorsSeen(pages, limit) == UsersSeen(pages[..p + 1])
  {
    var n := ReadablePages(pages);
    assert n == p + 1;
    PagesUsedAll(pages[..n], Cap(limit));
  }

  /** The state after the last page: every page had a next token and the
      limit was not reached. */
  lemma AllPagesRead(pages: seq<Page>, limit: int)
    requires forall j :: 0 <= j < |pages| ==> pages[j].hasNext
    requires |AllData(pages)| < Cap(limit)
    ensures AllData(pages) == Collected(pages, limit)
    ensures PagesUsed(pages[..ReadablePages(pages)], Cap(limit)) == |pages|
    ensures ReadablePages(pages) == |pages|
    ensures AuthorsSeen(pages, limit) == UsersSeen(pages)
  {
    var n := ReadablePages(pages);
    assert n == |pages|;
    assert pages[..n] == pages;
    PagesUsedAll(pages, Cap(limit));
  }

  /** One page's data appended to what came before. */
  lemma AllDataSnoc(pages: seq<Page>, p: nat)
    requires p < |pages|
    ensures AllData(pages[..p + 1]) == AllData(pages[..p]) + pages[p].data
  {
    assert pages[..p + 1] == pages[..p] + [pages[p]];
    AllDataAppend(pages[..p], [pages[p]]);
    assert AllData([pages[p]]) == pages[p].data + AllData([]);
  }

  /** The inner loop of both collectors: append a page's tweets one at a
      time and stop as soon as the count reaches `limit`. */
  method TakeTweets(tweets: seq<Tweet>, data: seq<Tweet>, limit: int) returns (out: seq<Tweet>, reached: bool)
    requires |tweets| < Cap(limit)
    ensures !reached ==> out == tweets + data && |out| < Cap(limit)
    ensures reached ==> |tweets| < |out| <= |tweets| + |data| && out == tweets + data[..|out| - |tweets|]
    ensures reached ==> limit <= |out| <= Cap(limit)
  {
    out := tweets;
    var d := 0;
    while d < |data|
      invariant d <= |data|
      invariant out == tweets + data[..d]
      invariant |out| < Cap(limit)
    {
      assert data[..d + 1] == data[..d] + [data[d]];
      out := out + [data[d]];
      if |out| >= limit {
        return out, true;
      }
      d := d + 1;
    }
    assert data[..d] == data;
    reached := false;
  }

  /** The users loop of search_tweets: file each user of a page under its
      id, a later user overwriting an earlier one. */
  method RecordUsers(authors: map<string, string>, users: seq<User>) returns (r: map<string, string>)
    ensures r == MergeUsers(authors, users)
  {
    r := authors;
    var u := 0;
    while u < |users|
      invariant u <= |users|
      invariant r == MergeUsers(authors, users[..u])
    {
      assert users[..u + 1][..u] == users[..u];
      r := r[UserKey(users[u]) := users[u].username];
      u := u + 1;
    }
    assert users[..u] == users;
  }

  /** One page of either collector after its users are recorded: take its
      tweets up to the limit, then stop if the limit was reached or the page
      has no next token. */
  method ReadPage(pages: seq<Page>, limit: int, p: nat, tweets: seq<Tweet>) returns (out: seq<Tweet>, done: bool)
    requires p < |pages|
    requires forall j :: 0 <= j < p ==> pages[j].hasNext
    requires tweets == AllData(pages[..p]) && |tweets| < Cap(limit)
    ensures done ==> out == Collected(pages, limit) && AuthorsSeen(pages, limit) == UsersSeen(pages[..p + 1])
    ensures !done ==> out == AllData(pages[..p + 1]) && |out| < Cap(limit) && pages[p].hasNext
  {
    var reached;
    out, reached := TakeTweets(tweets, pages[p].data, limit);
    if reached {
      LimitReached(pages, limit, p, |out| - |tweets| - 1);
      return out, true;
    }
    AllDataSnoc(pages, p);
    if !pages[p].hasNext {
      LastPageRead(pages, limit, p);
      return out, true;
    }
    done := false;
  }

  /** search_tweets: walk the pages, recording every page's users, until
      the limit is reached or a page has no next token. */
  method SearchTweets(pages: seq<Page>, limit: int) returns (tweets: seq<Tweet>, authors: map<string, string>)
    ensures tweets == Collected(pages, limit)
    ensures authors == AuthorsSeen(pages, limit)
  {
    tweets := [];
    authors := map[];
    var p := 0;
    while p < |pages|
      invariant p <= |pages|
      invariant forall j :: 0 <= j < p ==> pages[j].hasNext
      invariant tweets == AllData(pages[..p])
      invariant |tweets| < Cap(limit)
      invariant authors == UsersSeen(pages[..p])
    {
      authors := RecordUsers(authors, pages[p].users);
      UsersSeenSnoc(pages, p);
      var done;
      tweets, done := ReadPage(pages, limit, p, tweets);
      if done {
        return;
      }
      p := p + 1;
    }
    assert pages[..p] == pages;
    AllPagesRead(pages, limit);
  }

  /** user_tweets: no tweets when the user lookup has no data; otherwise
      the same walk over the user's pages, without the author map. */
  method UserTweets(lookup: Option<User>, pages: seq<Page>, limit: int) returns (tweets: seq<Tweet>)
    ensures lookup.None? ==> tweets == []
    ensures lookup.Some? ==> tweets == Collected(pages, limit)
  {
    if lookup.None? {
      return [];
    }
    tweets := [];
    var p := 0;
    while p < |pages|
      invariant p <= |pages|
      invariant forall j :: 0 <= j < p ==> pages[j].hasNext
      invariant tweets == AllData(pages[..p])
      invariant |tweets| < Cap(limit)
    {
      var done;
      tweets, done := ReadPage(pages, limit, p, tweets);
      if done {
        return;
      }
      p := p + 1;
    }
    assert pages[..p] == pages;
    AllPagesRead(pages, limit);
  }

  /** With a limit below 1 the collection still keeps the first tweet. */
  lemma NonPositiveLimitKeepsOne(pages: seq<Page>, limit: int)
    requires limit < 1
    requires |AllData(pages[..ReadablePages(pages)])| > 0
    ensures Collected(pages, limit) == [AllData(pages[..ReadablePages(pages)])[0]]
  {
  }

  /** Pages after one without a next token are never reached. */
  lemma {:induction false} ReadableStopsAtLastPage(pages: seq<Page>, more: seq<Page>)
    requires |pages| > 0 && !pages[|pages| - 1].hasNext
    ensures ReadablePages(pages + more) == ReadablePages(pages)
  {
    if pages[0].hasNext {
      assert |pages| > 1;
      assert (pages + more)[1..] == pages[1..] + more;
      ReadableStopsAtLastPage(pages[1..], more);
    }
  }

  /** What follows a page without a next token changes neither the tweets
      collected nor the author map. */
  lemma NothingAfterLastPage(pages: seq<Page>, more: seq<Page>, limit: int)
    requires |pages| > 0 && !pages[|pages| - 1].hasNext
    ensures Collected(pages + more, limit) == Collected(pages, limit)
    ensures AuthorsSeen(pages + more, limit) == AuthorsSeen(pages, limit)
  {
    ReadableStopsAtLastPage(pages, more);
    var n := ReadablePages(pages);
    assert (pages + more)[..n] == pages[..n];
    var m := PagesUsed(pages[..n], Cap(limit));
    assert (pages + more)[..m] == pages[..m];
  }
}
