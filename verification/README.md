# MoodMonitor sentiment pipeline, in Dafny

MoodMonitor is a pair of command-line bots that score social-media text for
sentiment. The forum bot (`reddit_bot`) reads a subreddit's submissions or
comments. The message bot (`twitter_bot`) reads the results of a search, or a
user's timeline. Both share a scorer and a table writer, and both run the
same pipeline:

1. Turn each raw item into a normalised row. This covers text joining,
   `"\r\n"` normalisation and stripping, `""` defaults, and the permalink or
   status URL.
2. Score the item's text with a lexicon analyzer and label it positive,
   neutral or negative at ±0.05. The text scored is:
   - for a submission, the title and body joined by a blank line and
     stripped (the row stores the raw body);
   - for a comment, its body, which is also what the row stores;
   - for a message, its normalised text, which is also what the row stores.
3. Fold the rows into a summary. The summary holds three label counters, the
   row count, and the average compound score over `len(rows) or 1`.
4. Either print the three most negative and three most positive rows, or
   write all rows to a CSV table.

On the message side, tweets are collected page by page. Collection stops when
the limit is reached or when a page has no next token. A search also builds a
map from author id to username.

The model is functional. Raw items, tweets, pages, rows, cells and summaries
are immutable datatypes. Scores are `real`. The three collaborators the bots
call into are parameters, not code:

- the analyzer (`Sentiment.Analyzer`, text to score dictionary);
- the timestamp formatter (`Utils.TimestampFormatter`: `None` where
  `datetime.fromtimestamp` raises);
- `round(x, 4)` (`Aggregation.Rounding`).

The paginator's output is a `seq<Page>`. Each page has its users, its tweets,
and whether it carries a next token. The file system is a map from path to
table lines.

Modules follow the source:

| module | source |
|---|---|
| `Sentiment` | `score_text` |
| `Utils` | `to_utc_iso`, `write_csv` |
| `RedditMain` | `analyze_posts`, `analyze_comments` |
| `TwitterMain` | `_tweet_to_row`, `analyze_query`, `analyze_user` |
| `TwitterClient` | `make_client`, `search_tweets`, `user_tweets` |
| `Extremes` | the worst/best selection in both `main()`s |

Shared pieces:

- `Text`: Python's `str.strip`, `str.replace("\r\n", "\n")` and `str()` of an integer.
- `Records`: the items and the row schemas.
- `Aggregation`: the one fold behind the four copy-pasted loops, and the one
  generic loop method that all four front-end operations run.
- `StableSort`: Python's stable `sorted`, with and without `reverse=True`.

## Model

| member | source | states |
|---|---|---|
| `Sentiment.Classify` | reddit_bot/sentiment.py:14-19 | exactly one label: positive iff compound >= 0.05, negative iff <= -0.05, neutral iff strictly between |
| `Sentiment.ClassifyMonotone` | reddit_bot/sentiment.py:14-19 | the label's rank (negative < neutral < positive) never decreases as the compound grows |
| `Sentiment.ClassifyBoundaries` | reddit_bot/sentiment.py:14-19 | 0.05 is positive, -0.05 is negative, 0.0 is neutral |
| `Sentiment.ScoreOr0` | reddit_bot/sentiment.py:13 | a score read from the analyzer's dictionary is the stored value, or 0.0 when the key is missing |
| `Sentiment.ScoreText` | reddit_bot/sentiment.py:11-26 | the four scores are the analyzer's values for the text (None scored as "") unchanged, 0.0 when missing; a missing compound gives neutral; the label agrees with the thresholds |
| `Sentiment.NoTextScoredAsEmpty` | reddit_bot/sentiment.py:12 | a missing text gets the same scores as "" |
| `Text.Strip` | reddit_bot/main.py:30 | stripping never lengthens the text, leaves no whitespace at either end, and leaves already-trimmed text unchanged |
| `Text.StripIsTrimmedSlice` | twitter_bot/main.py:22 | strip returns exactly the slice between the outer runs of whitespace |
| `Text.StripSpacePrefix` | reddit_bot/main.py:30 | whitespace put in front of a text does not survive stripping |
| `Text.StripIdempotent` | twitter_bot/main.py:22 | stripping twice is stripping once |
| `Text.ReplaceCrLfOnlyDropsCr` | twitter_bot/main.py:22 | the "\r\n" replacement only deletes carriage returns; every other character is kept in order |
| `Text.ReplaceCrLfWithoutPairs` | twitter_bot/main.py:22 | text with no "\r\n" pair is left unchanged |
| `Text.ReplaceCrLfUndoesToCrLf` | twitter_bot/main.py:22 | the replacement inverts writing every line feed as "\r\n" (for text without carriage returns) |
| `Text.ReplaceCrLfJoin` | twitter_bot/main.py:22 | two lines joined by "\r\n" come out joined by "\n" |
| `Text.NatToString` | twitter_bot/main.py:28 | str() of an id is a non-empty string of digits with no leading zero |
| `Text.ParseNatToString` | twitter_bot/main.py:28 | reading the decimal form back gives the number |
| `Text.NatToStringInjective` | twitter_bot/twitter_client.py:39 | different ids get different keys |
| `Utils.ToUtcIso` | reddit_bot/utils.py:8-14 | "" for a missing or zero timestamp and whenever the conversion fails; the formatted time otherwise; a non-empty result always comes from a successful conversion |
| `Records.Row.Fields` | reddit_bot/main.py:41-55 | a row's dictionary has exactly its schema's keys, in the order the row builders write them (the message row likewise, twitter_bot/main.py:26-38), which becomes the table header |
| `Utils.GetStored` | reddit_bot/utils.py:27-28 | for keys that are distinct, the writer's lookup of a key returns the value stored under it |
| `Utils.DataLines` | reddit_bot/utils.py:27-28 | one line per row, in order, each the row's values in header order (restval "" for absent keys), until the first row with a key outside the header, which is reported |
| `Utils.WriteCsv` | reddit_bot/utils.py:17-28 | no rows give an empty file with no header; otherwise the header is the first row's keys in order, then one line per row in input order; it fails exactly when some row has a key outside the header, and then it reports the first such row, with the header and the lines of the rows before it already written; other files are untouched |
| `Utils.WriteCsvOverwrites` | reddit_bot/utils.py:21-24 | what the path held before makes no difference to what it holds after |
| `Utils.RowLine` | reddit_bot/utils.py:27-28 | a row written under its own schema's header has every key in the header and its line holds its values in schema order |
| `Utils.WriteRowsOfOneSchema` | reddit_bot/utils.py:23-28 | rows of one schema are written without error: the header is the schema and line i+1 holds row i's values |
| `RedditMain.PostRowFields` | reddit_bot/main.py:29-55 | a submission's row has type submission and the caller's subreddit; title and body are ""-defaulted and stored raw; author is "" when missing; the permalink is the forum host followed by the item's permalink; scores come from the stripped title + "\n\n" + body |
| `RedditMain.CommentRowFields` | reddit_bot/main.py:76-101 | a comment's row has an empty title, the ""-defaulted body both stored and scored, author "" when missing, and the caller's subreddit and host-prefixed permalink |
| `RedditMain.UntitledPostScoresBody` | reddit_bot/main.py:29-30 | without a title, a submission is scored on its stripped body alone |
| `RedditMain.PostStoresRawBody` | reddit_bot/main.py:30 | the stored text differs from the scored text when an untitled body starts with whitespace |
| `RedditMain.ForumRowsFitSchema` | reddit_bot/main.py:40-56 | submission and comment rows share the forum schema, and their label agrees with their compound |
| `RedditMain.AnalyzePosts` | reddit_bot/main.py:22-66 | one row per submission in fetch order, row i built from submission i, and the summary of exactly those rows |
| `RedditMain.AnalyzeComments` | reddit_bot/main.py:69-112 | one row per comment in fetch order, row i built from comment i, and the summary of exactly those rows |
| `Aggregation.AggregateCounts` | reddit_bot/main.py:32-39 | the fold's counters are the numbers of rows carrying each label, its total is the sum of the compounds, and the counters add up to the row count |
| `Aggregation.AggregateAppend` | reddit_bot/main.py:28-39 | folding a concatenation combines the folds of its parts |
| `Aggregation.AggregatePermutation` | reddit_bot/main.py:28-39 | the fold does not depend on the order of the rows |
| `Aggregation.Denominator` | reddit_bot/main.py:58 | the average's denominator is exactly 1 when there are no rows and the row count otherwise |
| `Aggregation.Summarize` | reddit_bot/main.py:58-65 | count is the number of rows; each counter counts its label; the counters sum to count; avg is round4(total / max(count,1)); no rows give count 0, zero counters and round4(0) |
| `Aggregation.SummarizePermutation` | twitter_bot/main.py:58-65 | reordering the rows leaves the summary unchanged |
| `Aggregation.BuildRowsAt` | reddit_bot/main.py:28-56 | row i is built from item i |
| `Aggregation.AnalyzeItems` | twitter_bot/main.py:46-65 | the loop builds one row per item in order, and its counters and running total give the summary of those rows |
| `StableSort.SortPermutes` | reddit_bot/main.py:166-167 | the sort is a permutation of its input |
| `StableSort.SortIsStable` | reddit_bot/main.py:166-167 | the sort is ordered by key (ascending, or descending with reverse) and keeps each group of equal keys in arrival order |
| `StableSort.StableSortUnique` | reddit_bot/main.py:166-167 | two sequences sorted by key with the same equal-key groups are equal, so the stable sort is unique |
| `StableSort.InsertKeepsStable` | reddit_bot/main.py:166-167 | inserting the next item into a stable sort of the items before it gives a stable sort of all of them |
| `Extremes.Top` | reddit_bot/main.py:166-167 | the first min(k, n) rows of the stable sort: ordered by compound, drawn from the rows, every row left out ranks no better than each one shown, and equal scores keep arrival order |
| `Extremes.TopIsPrefixOfAnyStableSort` | twitter_bot/main.py:130-131 | the selection is the first k of any stable sort by compound |
| `Extremes.ExtremesSection` | reddit_bot/main.py:165-167 | extremes are shown iff there are rows: the first 3 (or fewer) of the ascending and of the descending stable sort |
| `Extremes.ExtremesExample` | twitter_bot/main.py:129-131 | for scores 0.9, -0.9, 0.0, 0.5, -0.2 the worst are -0.9, -0.2, 0.0 and the best 0.9, 0.5, 0.0 |
| `TwitterMain.TweetId` | twitter_bot/main.py:25-28 | the row id is the decimal form of the tweet id, or "" when there is none |
| `TwitterMain.StatusUrl` | twitter_bot/main.py:32 | the link is host + username + "/status/" + id for a non-empty username, else host + "i/web/status/" + id |
| `TwitterMain.TweetRowFields` | twitter_bot/main.py:21-38 | a tweet's row has the tweet's id and creation time, author = username or "", and the normalised text both stored and scored |
| `TwitterMain.TweetUrlNamesAuthor` | twitter_bot/main.py:30-32 | an author-less row links the anonymous path; a row with an author links under that author |
| `TwitterMain.TweetTextJoinsLines` | twitter_bot/main.py:22 | a body with a "\r\n" line break is stored and scored with "\n" |
| `TwitterMain.TweetTextTrimmed` | twitter_bot/main.py:22 | a row's text has no whitespace at either end, and normalising an already normalised text without carriage returns changes nothing |
| `TwitterMain.Lookup` | twitter_bot/main.py:47 | `dict.get`: a username exactly when the key is in the map, and then the stored one |
| `TwitterMain.MissingAuthorIdFindsNobody` | twitter_bot/main.py:47 | a tweet without an author id is looked up under "None", which no user id produces |
| `TwitterMain.QueryRowAuthor` | twitter_bot/main.py:47-48 | an unknown author id gives author "" and the anonymous link; a known one gives the mapped username |
| `TwitterMain.AnalyzeQuery` | twitter_bot/main.py:41-66 | one row per collected tweet in order, each with its author looked up in the collected map, no more rows than the effective limit, and the summary of those rows |
| `TwitterMain.AnalyzeUser` | twitter_bot/main.py:69-93 | no rows and the empty summary for an unknown user; otherwise one row per collected tweet, every row carrying the requested username, and the summary of those rows |
| `TwitterClient.ChooseToken` | twitter_bot/twitter_client.py:12-16 | a non-empty explicit token wins over the environment's; the client is refused exactly when both are missing or empty; a chosen token is never empty |
| `TwitterClient.ReadablePages` | twitter_bot/twitter_client.py:45-46 | the walk can reach the pages up to and including the first one without a next token |
| `TwitterClient.Cap` | twitter_bot/twitter_client.py:42-44 | the effective limit is the limit when it is at least 1, and exactly 1 otherwise |
| `TwitterClient.Collected` | twitter_bot/twitter_client.py:36-47 | the tweets are a prefix of the data of the readable pages in page order; there are exactly as many as the effective limit when the readable pages hold enough, and otherwise all of the readable tweets |
| `TwitterClient.ReadPage` | twitter_bot/twitter_client.py:40-46 | one page after its users are recorded: either the walk stops with exactly the collected tweets and the author map of the pages so far, or it goes on with all tweets up to this page, still below the limit, and this page has a next token |
| `TwitterClient.PagesUsedIsFirst` | twitter_bot/twitter_client.py:40-44 | the walk stops in the first page that brings the count to the limit |
| `TwitterClient.MergeUsers` | twitter_bot/twitter_client.py:38-39 | the map gains exactly the keys of the page's users |
| `TwitterClient.MergeUsersLastWins` | twitter_bot/twitter_client.py:38-39 | each id maps to the username of its last occurrence, and keys no user touches keep their old value |
| `TwitterClient.UsersSeenKeys` | twitter_bot/twitter_client.py:37-39 | the author map holds exactly the ids of the users of the processed pages |
| `TwitterClient.LimitReached` | twitter_bot/twitter_client.py:42-44 | at the early return, the tweets are the collection and the author map includes the page where the limit was hit |
| `TwitterClient.TakeTweets` | twitter_bot/twitter_client.py:41-44 | a page's tweets are appended one at a time until the limit is reached, and the tweets kept are a prefix of that page |
| `TwitterClient.RecordUsers` | twitter_bot/twitter_client.py:37-39 | the users loop produces the merged author map |
| `TwitterClient.SearchTweets` | twitter_bot/twitter_client.py:20-47 | the loop returns exactly the collected tweets and the users of every processed page |
| `TwitterClient.UserTweets` | twitter_bot/twitter_client.py:50-74 | [] when the user lookup has no data, otherwise exactly the collected tweets |
| `TwitterClient.NonPositiveLimitKeepsOne` | twitter_bot/twitter_client.py:42-44 | a limit below 1 still returns the first tweet, because the check follows the append |
| `TwitterClient.ReadableStopsAtLastPage` | twitter_bot/twitter_client.py:45-46 | pages after one without a next token are never reached |
| `TwitterClient.NothingAfterLastPage` | twitter_bot/twitter_client.py:45-46 | what follows a page without a next token changes neither the tweets nor the author map |

## Left out

- reddit_bot/reddit_client.py (`make_client`, `fetch_posts`, `fetch_comments`) is not part of this model. It only wraps the praw library and reads the environment. Submissions and comments arrive as sequences.
- The paginators and network calls: pages arrive as a `seq<Page>`, and the user lookup as an `Option<User>`. `wait_on_rate_limit` and the client object itself are not modelled. `ChooseToken` models only the choice of token.
- dotenv and `os.getenv`: the environment's token is a parameter of `ChooseToken`.
- The VADER analyzer: an arbitrary function from text to score dictionary.
- Floating point: scores and totals are exact reals, so `float +=` rounding error is absent. `round(x, 4)` is an abstract function.
- `datetime.fromtimestamp(...).isoformat()` and `created_at.isoformat()`: the first is an abstract formatter that may fail. The second is taken as the tweet's already formatted `createdAt` (None when absent, written as an empty cell). Timestamps that are NaN are not modelled.
- CSV quoting, escaping, line endings and the rendering of numbers: a table is a sequence of lines of cells.
- `print_summary`, the console layout of the extremes (`:>8`, `:>6`), `parse_args`, `main`'s dispatch between targets and outputs, and the import fallbacks.
- Tweet ids are non-negative integers. A tweet without an id gets the `getattr` default, so its row id is "". An id of None (which would print as "None") is not modelled.
- A tweet without an author id is looked up under "None", which is `str(None)`. The `getattr` default "" applies only when the attribute does not exist at all, and is not modelled separately: it is also a key no user id produces.
- TwitterMain.TweetUrlNamesAuthor: states two implications rather than an if-and-only-if. A username such as "i/web" makes an authored link equal to the anonymous one, so the link alone cannot tell whether an author was known.
- Extremes.ExtremesSection: models the selection only. Which row fields are printed is left to the console layout, which is not modelled.
