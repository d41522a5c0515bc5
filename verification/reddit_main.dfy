/** The forum front-end: one row per submission or comment, and the
    summary of the run. The forum client is not modelled: its items arrive
    as a sequence. */
module RedditMain {
  import opened Wrappers
  import opened Text
  import opened Sentiment
  import opened Records
  import opened Utils
  import opened Aggregation

  const PermalinkHost := "https://reddit.com"

  /** The text a submission is scored on: the title and the body joined by
      a blank line, then stripped. */
  function PostText(p: RawPost): string {
    Strip(p.title.GetOr("") + "\n\n" + p.selftext.GetOr(""))
  }

  /** The row analyze_posts builds for one submission. */
  function PostRow(analyzer: Analyzer, format: TimestampFormatter, p: RawPost, subreddit: string): Row {
    RedditRow(Submission, p.id, ToUtcIso(format, p.createdUtc), p.authorName.GetOr(""), subreddit,
      p.title.GetOr(""), p.selftext.GetOr(""), PermalinkHost + p.permalink,
      ScoreText(analyzer, Some(PostText(p))))
  }

  /** A submission's row: its title and its raw body with None read as "",
      the author's name or "", the caller's subreddit, the permalink under
      the forum host, and the scores of the joined and stripped text. */
  lemma PostRowFields(analyzer: Analyzer, format: TimestampFormatter, p: RawPost, subreddit: string)
    ensures var r := PostRow(analyzer, format, p, subreddit);
      && r.RedditRow? && r.kind == Submission && r.id == p.id && r.subreddit == subreddit
      && r.title == p.title.GetOr("")
      && r.text == p.selftext.GetOr("")
      && r.author == p.authorName.GetOr("")
      && r.createdUtc == ToUtcIso(format, p.createdUtc)
      && PermalinkHost <= r.permalink && r.permalink[|PermalinkHost|..] == p.permalink
      && r.scores == ScoreText(analyzer, Some(PostText(p)))
  {
  }

  /** The row analyze_comments builds for one comment. */
  function CommentRow(analyzer: Analyzer, format: TimestampFormatter, c: RawComment, subreddit: string): Row {
    var body := c.body.GetOr("");
    RedditRow(Comment, c.id, ToUtcIso(format, c.createdUtc), c.authorName.GetOr(""), subreddit,
      "", body, PermalinkHost + c.permalink, ScoreText(analyzer, Some(body)))
  }

  /** A comment's row: no title, and the body (None read as "") both
      scored and stored as it is. */
  lemma CommentRowFields(analyzer: Analyzer, format: TimestampFormatter, c: RawComment, subreddit: string)
    ensures var r := CommentRow(analyzer, format, c, subreddit);
      && r.RedditRow? && r.kind == Comment && r.id == c.id && r.subreddit == subreddit
      && r.title == ""
      && r.text == c.body.GetOr("")
      && r.author == c.authorName.GetOr("")
      && r.createdUtc == ToUtcIso(format, c.createdUtc)
      && PermalinkHost <= r.permalink && r.permalink[|PermalinkHost|..] == c.permalink
      && r.scores == ScoreText(analyzer, Some(r.text))
  {
  }

  /** A submission without a title is scored on its stripped body alone:
      the blank line in front of the body is stripped away. */
  lemma UntitledPostScoresBody(p: RawPost)
    requires p.title.None? || p.title.value == ""
    ensures PostText(p) == Strip(p.selftext.GetOr(""))
  {
    var body := p.selftext.GetOr("");
    assert p.title.GetOr("") + "\n\n" + body == "\n\n" + body;
    StripSpacePrefix("\n\n", body);
  }

  /** A submission's stored text is the raw body, which differs from the
      scored text whenever the body carries surrounding whitespace. */
  lemma PostStoresRawBody(analyzer: Analyzer, format: TimestampFormatter, p: RawPost, subreddit: string)
    requires p.title.None? || p.title.value == ""
    requires p.selftext.Some? && |p.selftext.value| > 0 && IsSpace(p.selftext.value[0])
    ensures PostRow(analyzer, format, p, subreddit).text != PostText(p)
  {
    UntitledPostScoresBody(p);
  }

  /** A submission's and a comment's rows fit the forum schema, and their
      label agrees with their compound score. */
  lemma ForumRowsFitSchema(analyzer: Analyzer, format: TimestampFormatter, p: RawPost, c: RawComment, subreddit: string)
    ensures PostRow(analyzer, format, p, subreddit).Header() == RedditHeader
    ensures CommentRow(analyzer, format, c, subreddit).Header() == RedditHeader
    ensures var s := PostRow(analyzer, format, p, subreddit).scores;
      s.category == Classify(s.compound)
    ensures var s := CommentRow(analyzer, format, c, subreddit).scores;
      s.category == Classify(s.compound)
  {
  }

  function PostBuilder(analyzer: Analyzer, format: TimestampFormatter, subreddit: string): RawPost -> Row {
    p => PostRow(analyzer, format, p, subreddit)
  }

  function CommentBuilder(analyzer: Analyzer, format: TimestampFormatter, subreddit: string): RawComment -> Row {
    c => CommentRow(analyzer, format, c, subreddit)
  }

  /** analyze_posts: one row per submission, in arrival order, and the
      summary of those rows. */
  method AnalyzePosts(analyzer: Analyzer, format: TimestampFormatter, round4: Rounding, subreddit: string, posts: seq<RawPost>)
    returns (rows: seq<Row>, summary: Summary)
    ensures |rows| == |posts|
    ensures forall i :: 0 <= i < |posts| ==> rows[i] == PostRow(analyzer, format, posts[i], subreddit)
    ensures summary == Summarize(rows, round4)
  {
    var build := PostBuilder(analyzer, format, subreddit);
    rows, summary := AnalyzeItems(build, posts, round4);
    forall i | 0 <= i < |posts|
      ensures rows[i] == PostRow(analyzer, format, posts[i], subreddit)
    {
      BuildRowsAt(build, posts, i);
    }
  }

  /** analyze_comments: one row per comment, in arrival order, and the
      summary of those rows. */
  method AnalyzeComments(analyzer: Analyzer, format: TimestampFormatter, round4: Rounding, subreddit: string, comments: seq<RawComment>)
    returns (rows: seq<Row>, summary: Summary)
    ensures |rows| == |comments|
    ensures forall i :: 0 <= i < |comments| ==> rows[i] == CommentRow(analyzer, format, comments[i], subreddit)
    ensures summary == Summarize(rows, round4)
  {
    var build := CommentBuilder(analyzer, format, subreddit);
    rows, summary := AnalyzeItems(build, comments, round4);
    forall i | 0 <= i < |comments|
      ensures rows[i] == CommentRow(analyzer, format, comments[i], subreddit)
    {
      BuildRowsAt(build, comments, i);
    }
  }
}
