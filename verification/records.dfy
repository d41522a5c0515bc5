/** The raw items the platform clients yield and the normalised row every
    front-end produces from them. */
module Records {
  import opened Wrappers
  import opened Sentiment

  /** A forum submission as the forum client yields it. `authorName` is
      None when the author account is deleted. */
  datatype RawPost = RawPost(
    id: string,
    title: Option<string>,
    selftext: Option<string>,
    createdUtc: Option<real>,
    authorName: Option<string>,
    permalink: string)

  /** A forum comment as the forum client yields it. */
  datatype RawComment = RawComment(
    id: string,
    body: Option<string>,
    createdUtc: Option<real>,
    authorName: Option<string>,
    permalink: string)

  /** A short message as the message client yields it. `createdAt` holds the
      already formatted ISO-8601 time when the message carries one. */
  datatype Tweet = Tweet(
    id: Option<nat>,
    text: Option<string>,
    createdAt: Option<string>,
    authorId: Option<nat>)

  /** An account from a page's "users" expansion. */
  datatype User = User(id: nat, username: string)

  /** One value of a row as written to the table: a string, a score, or None. */
  datatype Cell = Str(s: string) | Num(x: real) | Null

  datatype RedditKind = Submission | Comment

  /** The normalised row. Forum rows and message rows have different
      schemas, as in the source. */
  datatype Row =
    | RedditRow(
        kind: RedditKind,
        id: string,
        createdUtc: string,
        author: string,
        subreddit: string,
        title: string,
        text: string,
        permalink: string,
        scores: Scores)
    | TweetRow(
        id: string,
        createdAt: Option<string>,
        author: string,
        text: string,
        url: string,
        scores: Scores)
  {
    /** The row as the ordered dictionary the source builds. */
    function Fields(): (f: seq<(string, Cell)>)
      ensures |f| == |Header()|
      ensures forall i :: 0 <= i < |f| ==> f[i].0 == Header()[i]
    {
      var tail := [
        ("compound", Num(scores.compound)),
        ("pos", Num(scores.pos)),
        ("neu", Num(scores.neu)),
        ("neg", Num(scores.neg)),
        ("label", Str(LabelName(scores.category)))];
      match this
      case RedditRow(kind, id, createdUtc, author, subreddit, title, text, permalink, _) =>
        [("type", Str(if kind == Submission then "submission" else "comment")),
         ("id", Str(id)),
         ("created_utc", Str(createdUtc)),
         ("author", Str(author)),
         ("subreddit", Str(subreddit)),
         ("title", Str(title)),
         ("text", Str(text)),
         ("permalink", Str(permalink))] + tail
      case TweetRow(id, createdAt, author, text, url, _) =>
        [("type", Str("tweet")),
         ("id", Str(id)),
         ("created_at", if createdAt.Some? then Str(createdAt.value) else Null),
         ("author", Str(author)),
         ("text", Str(text)),
         ("url", Str(url))] + tail
    }

    /** The field names of this row's schema, in order. */
    function Header(): seq<string> {
      if RedditRow? then RedditHeader else TweetHeader
    }
  }

  const RedditHeader: seq<string> :=
    ["type", "id", "created_utc", "author", "subreddit", "title", "text", "permalink",
     "compound", "pos", "neu", "neg", "label"]

  const TweetHeader: seq<string> :=
    ["type", "id", "created_at", "author", "text", "url",
     "compound", "pos", "neu", "neg", "label"]
}
