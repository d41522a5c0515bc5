/** The message front-end: one row per message collected by a search or
    from a user's timeline, and the summary of the run. */
module TwitterMain {
  import opened Wrappers
  import opened Text
  import opened Sentiment
  import opened Records
  import opened Aggregation
  import opened TwitterClient

  const StatusHost := "https://x.com/"
  const FallbackStatusPath := "i/web/status/"

  /** The decimal form of the message id, or the empty default when the
      message has no id. */
  function TweetId(t: Tweet): (s: string)
    ensures t.id.Some? ==> s == NatToString(t.id.value) && s != ""
    ensures t.id.None? ==> s == ""
  {
    if t.id.Some? then NatToString(t.id.value) else ""
  }

  /** The text a message is both scored on and stored as: "\r\n" pairs
      turned into "\n", then stripped. */
  function TweetText(t: Tweet): string {
    Strip(ReplaceCrLf(t.text.GetOr("")))
  }

  /** The status link: under the author's name when one is known and
      non-empty, otherwise the anonymous web path. */
  function StatusUrl(username: Option<string>, tid: string): (u: string)
    ensures username.Some? && username.value != "" ==> u == StatusHost + username.value + "/status/" + tid
    ensures username.None? || username.value == "" ==> u == StatusHost + FallbackStatusPath + tid
  {
    if username.Some? && username.value != "" then StatusHost + username.value + "/status/" + tid
    else StatusHost + FallbackStatusPath + tid
  }

  /** _tweet_to_row. */
  function TweetRowOf(analyzer: Analyzer, t: Tweet, username: Option<string>): Row {
    var text := TweetText(t);
    var tid := TweetId(t);
    TweetRow(tid, t.createdAt, username.GetOr(""), text, StatusUrl(username, tid), ScoreText(analyzer, Some(text)))
  }

  /** A message's row: the normalised text both scored and stored, the
      author's username or "", and the creation time passed through. */
  lemma TweetRowFields(analyzer: Analyzer, t: Tweet, username: Option<string>)
    ensures var r := TweetRowOf(analyzer, t, username);
      && r.TweetRow? && r.id == TweetId(t) && r.createdAt == t.createdAt
      && r.author == username.GetOr("")
      && r.text == TweetText(t)
      && r.scores == ScoreText(analyzer, Some(r.text))
  {
  }

  /** A message row's link carries its author when one is known, and the
      anonymous path when none is. */
  lemma TweetUrlNamesAuthor(analyzer: Analyzer, t: Tweet, username: Option<string>)
    ensures var r := TweetRowOf(analyzer, t, username);
      (r.author == "" ==> r.url == StatusHost + FallbackStatusPath + r.id) &&
      (r.author != "" ==> r.url == StatusHost + r.author + "/status/" + r.id)
  {
  }

  /** A message body with a "\r\n" line break is scored and stored with a
      plain "\n" line break. */
  lemma TweetTextJoinsLines(t: Tweet, a: string, b: string)
    requires t.text == Some(a + "\r\n" + b)
    requires '\r' !in a && '\r' !in b
    ensures TweetText(t) == Strip(a + "\n" + b)
  {
    ReplaceCrLfJoin(a, b);
  }

  /** Outer whitespace never reaches a message row. */
  lemma TweetTextTrimmed(analyzer: Analyzer, t: Tweet, username: Option<string>)
    ensures var r := TweetRowOf(analyzer, t, username);
      r.text == [] || (!IsSpace(r.text[0]) && !IsSpace(r.text[|r.text| - 1]))
    ensures TweetText(TweetWithText(t, TweetText(t))) == TweetText(t) || '\r' in TweetText(t)
  {
    var s := TweetText(t);
    if '\r' !in s {
      ReplaceCrLfWithoutPairs(s);
      StripIdempotent(ReplaceCrLf(t.text.GetOr("")));
    }
  }

  function TweetWithText(t: Tweet, s: string): Tweet {
    t.(text := Some(s))
  }

  /** The key a message's author is looked up under: the decimal form of its
      author id, or "None" (the text form of a missing value) without one. */
  function AuthorKey(t: Tweet): string {
    if t.authorId.Some? then NatToString(t.authorId.value) else "None"
  }

  /** The author map's username under `key`, or None when the key is absent. */
  function Lookup(authors: map<string, string>, key: string): (u: Option<string>)
    ensures u.Some? <==> key in authors
    ensures u.Some? ==> u.value == authors[key]
  {
    if key in authors then Some(authors[key]) else None
  }

  /** A message without an author id never finds its author: "None" is not
      a decimal id. */
  lemma MissingAuthorIdFindsNobody(pages: seq<Page>, limit: int, t: Tweet)
    requires t.authorId.None?
    ensures Lookup(AuthorsSeen(pages, limit), AuthorKey(t)).None?
  {
    assert 'N' in "None";
  }

  /** The row analyze_query builds for one collected message. */
  function QueryRow(analyzer: Analyzer, authors: map<string, string>, t: Tweet): Row {
    TweetRowOf(analyzer, t, Lookup(authors, AuthorKey(t)))
  }

  /** In a search, a message whose author id is not in the author map gets
      no author and the anonymous link; one whose id is there gets that
      username. */
  lemma QueryRowAuthor(analyzer: Analyzer, authors: map<string, string>, t: Tweet)
    ensures AuthorKey(t) !in authors ==>
      var r := QueryRow(analyzer, authors, t);
      r.author == "" && r.url == StatusHost + FallbackStatusPath + TweetId(t)
    ensures AuthorKey(t) in authors ==> QueryRow(analyzer, authors, t).author == authors[AuthorKey(t)]
  {
  }

  function QueryBuilder(analyzer: Analyzer, authors: map<string, string>): Tweet -> Row {
    t => QueryRow(analyzer, authors, t)
  }

  function UserBuilder(analyzer: Analyzer, username: string): Tweet -> Row {
    t => TweetRowOf(analyzer, t, Some(username))
  }

  /** analyze_query: collect a search's messages and author map, then one
      row per message with its author looked up, and the summary. */
  method AnalyzeQuery(analyzer: Analyzer, round4: Rounding, pages: seq<Page>, limit: int)
    returns (rows: seq<Row>, summary: Summary)
    ensures var tweets := Collected(pages, limit);
      |rows| == |tweets| <= Cap(limit) &&
      forall i :: 0 <= i < |tweets| ==> rows[i] == QueryRow(analyzer, AuthorsSeen(pages, limit), tweets[i])
    ensures summary == Summarize(rows, round4)
  {
    var tweets, authors := SearchTweets(pages, limit);
    var build := QueryBuilder(analyzer, authors);
    rows, summary := AnalyzeItems(build, tweets, round4);
    forall i | 0 <= i < |tweets|
      ensures rows[i] == QueryRow(analyzer, authors, tweets[i])
    {
      BuildRowsAt(build, tweets, i);
    }
  }

  /** analyze_user: collect the user's messages, then one row per message
      under the requested username, and the summary. */
  method AnalyzeUser(analyzer: Analyzer, round4: Rounding, lookup: Option<User>, pages: seq<Page>, username: string, limit: int)
    returns (rows: seq<Row>, summary: Summary)
    ensures lookup.None? ==> rows == [] && summary == Summary(0, round4(0.0), 0, 0, 0)
    ensures var tweets := if lookup.None? then [] else Collected(pages, limit);
      |rows| == |tweets| <= Cap(limit) &&
      forall i :: 0 <= i < |tweets| ==> rows[i] == TweetRowOf(analyzer, tweets[i], Some(username))
    ensures forall i :: 0 <= i < |rows| ==> rows[i].author == username
    ensures summary == Summarize(rows, round4)
  {
    var tweets := UserTweets(lookup, pages, limit);
    var build := UserBuilder(analyzer, username);
    rows, summary := AnalyzeItems(build, tweets, round4);
    forall i | 0 <= i < |tweets|
      ensures rows[i] == TweetRowOf(analyzer, tweets[i], Some(username))
    {
      BuildRowsAt(build, tweets, i);
    }
  }
}
