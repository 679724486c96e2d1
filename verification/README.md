# CodeChef weekly tracker, modelled in Dafny

The system keeps one SQLite table per class of students. A row holds
`s_no`, `user_name`, `roll_no`, `previous_week`, `recent_week` and
`count`. A POST to `/update/<class_name>` does four things:

1. It reads the class's usernames.
2. It scrapes each student's CodeChef profile for the number shown under
   the "Problems Solved" heading.
3. It folds the `(username, new_score)` pairs over the table. Each pair
   moves the stored recent score to `previous_week`, stores the new score
   as `recent_week`, and stores the difference as `count`.
4. It commits only if the whole loop succeeded.

The model covers two pieces of pure logic inside that glue.

- **Count extraction** (`scraper.dfy`, module `Scraper`).
  - A fetched profile page is the list of its `h3` tags in document order.
    Each tag carries its `.string` and its `.text`. `.string` is `None` for
    a tag without a single string.
  - The first tag whose `.string` is non-empty and contains
    `Problems Solved` is chosen. Its `.text` is read.
  - That text is stripped and split on whitespace. With at least three
    tokens, the last token is parsed with Python's `int`.
  - Every miss yields 0. Only a failed request yields `None`.
  - The batch driver `scrape_multiple_users` and its alias `count` issue
    one request per username, in order, duplicates included.
  - The Python string and integer operations this relies on are modelled
    as CPython defines them:
    - `pytext.dfy` models `str.isspace`, `in`, `strip()`, `split()` and
      `" ".join` as the partner of `split`.
    - `pyint.dfy` models `int(token)`, with the decimal text of an integer
      (`ShowInt`, as a profile page prints a count) as its partner. `int`
      refuses a decimal literal of more than 4300 digits, the default limit
      of CPython since 3.11 and of the 3.7-3.10 security releases.
    - `int` skips less whitespace than `strip()` does. The ASCII
      separators U+001C..U+001F count as whitespace for `str.isspace`, but
      `int` refuses them wherever they stand (`PyInt.IsSeparator`).
- **The weekly update** (`app.dfy`, module `App`).
  - The database is a map from table name to that table's rows, in rowid
    order.
  - SQLite matches table names ignoring the case of ASCII letters. So the
    map is keyed by the lower-cased name (`TableKey`), and `/update/cse_a`
    reaches the table created as `CSE_A`. Two names reach the same table
    exactly when they differ only in the case of ASCII letters
    (`TableKeySameIff`).
  - `UpdateScores` returns the JSON reply together with the database as
    committed.
  - `ApplyPair` is one loop iteration; `ApplyPairs` is the left fold over
    `zip(usernames, new_scores)`.
  - The fold fails in these cases:
    - `fetchone()` returned no row (`MissingRow`).
    - `int(None)` on a failed scrape (`NullScore`).
    - `int(None)` on a NULL `recent_week` (`NullRecent`).
    - A value outside SQLite's signed 64-bit range was bound
      (`IntegerOverflow`).
  - A class whose table is missing, under any spelling, is a 500. An empty
    class is a 404.
  - Any failure leaves the database as it was.

`update_scores` calls the scraper's `count`. `UpdateScores` therefore takes
the batch scraper as a parameter. `App.Scraped(web)` is the real one, built
from `Scraper.ScrapeResults`. The remote site is a parameter too:
`web(k, name)` is the answer to the k-th request of a batch, made for
`name`. So two requests for the same name may get different answers.

The docstring of `scrape_codechef_problems_solved` (scraper.py:34) says the
result is None when the count is not found. The code returns 0 in every
such case and None only when the request fails. The model follows the code
(`Scraper.ProblemsSolved`, `Scraper.MissingLabelYieldsZero`).

## Model

| member | source | states |
|---|---|---|
| Scraper.ProblemsSolved | scraper.py:48-77 | the result is None exactly when the request failed; every fetched page yields a number, read from the page's `h3` strings |
| Scraper.IsLabelTag | scraper.py:59 | the filter matches exactly the tags whose `.string` has `Problems Solved` somewhere in it |
| Scraper.CountFromText | scraper.py:63-73 | a non-zero count comes only from a stripped text of three or more tokens whose last token `int` reads as that count; conversely, with three or more tokens, a last token `int` reads as v gives v |
| Scraper.CountFromParts | scraper.py:66-73 | fewer than three tokens give 0; a non-zero count is what `int` reads from the last token, and with three or more tokens whatever `int` reads from the last token is the count |
| Scraper.CountFromPage | scraper.py:59-73 | a page with no tag whose string is non-empty and contains `Problems Solved` yields 0 |
| Scraper.FirstLabelTagDecides | scraper.py:59-63 | only the first matching `h3` is read, through its `.text`: non-matching tags before it and every tag after it, matching or not, have no effect |
| Scraper.EmptyTextLabelYieldsZero | scraper.py:59-73 | a first matching tag whose `.text` is empty, as for an `h3` holding only a comment, yields 0 whatever its `.string` says |
| Scraper.ExampleCommentOnly | scraper.py:59-73 | `<h3><!--Problems Solved: 42--></h3>` passes the filter and yields 0 |
| Scraper.MissingLabelYieldsZero | scraper.py:61-73 | a fetched page without a matching tag yields `Some(0)`, not None |
| Scraper.CountFromTokens | scraper.py:63-66 | the count depends only on the whitespace tokens of the tag's text; the `strip()` does not change them |
| Scraper.ShortLabelYieldsZero | scraper.py:66-73 | a text of fewer than three tokens yields 0 |
| Scraper.NonIntegerYieldsZero | scraper.py:67-71 | with three or more tokens, a last token that `int` rejects yields 0 |
| Scraper.TrailingNumberIsRead | scraper.py:66-71 | two or more words followed by the decimal form of any integer n, negative ones included, yield n; past `int`'s digit limit they yield 0 |
| Scraper.LastTokenIsRead | scraper.py:67-71 | three or more tokens ending in the decimal form of n yield n, or 0 past the digit limit |
| Scraper.RenderedCountRoundTrip | scraper.py:56-71 | a page whose first matching tag reads `Problems Solved: n` scrapes to n, or to 0 past the digit limit, whatever follows it |
| Scraper.ExampleFortyTwo | scraper.py:63-69 | `Problems Solved: 42` yields 42 |
| Scraper.ExampleLabelOnly | scraper.py:63-73 | a bare `Problems Solved` has two tokens and yields 0 |
| Scraper.ScrapeMultipleUsers | scraper.py:92-102 | one result per username, in input order; slot k is the outcome of the k-th request, made for `usernames[k]` |
| Scraper.Count | scraper.py:121-123 | `count` returns exactly the batch result: aligned with its input, and None in a slot exactly when that request failed |
| Seqs.FindFirst | scraper.py:59 | the index of the first element satisfying the filter, with no earlier element satisfying it; None exactly when none does |
| Seqs.FindFirstAgrees | app.py:59-60 | two searches whose filters agree element by element find the same index |
| Seqs.Zip | app.py:57 | `zip` stops at the shorter input; pair i is made of the i-th elements |
| PyText.ContainsIffOccurs | scraper.py:59 | the substring test holds exactly when the needle occurs at some offset |
| PyText.Strip | scraper.py:63 | the result is the input minus whitespace runs at both ends, and neither end of the result is whitespace |
| PyText.StripNoSpace | scraper.py:63 | a string without whitespace is its own strip |
| PyText.Split | scraper.py:66 | every token is non-empty and free of whitespace; with `SplitWordThenSpace`, tokens break at every whitespace run |
| PyText.SplitKeepsCharacters | scraper.py:66 | the tokens, concatenated, are the input's non-whitespace characters in order |
| PyText.SplitSkipsLeadingSpace | scraper.py:66 | leading whitespace never changes the tokens |
| PyText.SplitSkipsTrailingSpace | scraper.py:66 | trailing whitespace never changes the tokens |
| PyText.SplitIgnoresStrip | scraper.py:63-66 | splitting the stripped text gives the same tokens as splitting the text |
| PyText.SplitJoinSpaced | scraper.py:66 | splitting words joined by single spaces gives the words back |
| PyText.SplitWordThenSpace | scraper.py:66 | a word followed by any non-empty whitespace run (newline, tab, several spaces) is one token, followed by the tokens of the rest |
| PyText.SplitWord | scraper.py:66 | a single word splits into itself alone |
| PyText.ExampleSplitNewline | scraper.py:66 | `"ab\n  cd".split()` is `["ab", "cd"]` |
| PyInt.ParseInt | scraper.py:69 | `int` accepts at most one token surrounded by whitespace that holds no U+001C..U+001F separator, and yields a negative value only for a leading `-` |
| PyInt.ExampleSeparator | scraper.py:69 | `int("\x1c5")` raises `ValueError`, while `int(" 5")` is 5 |
| PyInt.PlusKeeps | scraper.py:69 | a leading `+` leaves the value of an unsigned literal unchanged, within the digit limit and past it |
| PyInt.ParseStripped | scraper.py:69 | on stripped text, a value comes only from a single whitespace-free token, a negative one only from a leading `-` |
| PyInt.ParseIntAlphabet | scraper.py:69 | `int` accepts only text made of whitespace, ASCII digits, signs and underscores |
| PyInt.ShowNat | scraper.py:69 | the decimal digits of n denote n and have no leading zero |
| PyInt.ParseShowRoundTrip | scraper.py:69 | `int` reads the decimal text of n back as n for every integer n of at most 4300 digits, and refuses longer text |
| PyInt.UnsignedRunParses | scraper.py:69 | an unsigned literal body parses to the value of its digits when it has at most 4300 of them, underscores not counted, and is refused otherwise |
| PyInt.LongLiteralRejected | scraper.py:68-71 | more than 4300 digits are refused, whatever their value, leading zeros included |
| PyInt.MinusNegates | scraper.py:69 | a leading `-` negates the value of an unsigned literal and does not count towards the digit limit |
| PyInt.UnderscoreGrouping | scraper.py:69 | an underscore between two digit runs does not change the value |
| PyInt.DropUnderscores | scraper.py:69 | removing the underscores of a digit-or-underscore string leaves only digits, and leaves a string without underscores unchanged |
| App.TableKey | app.py:48 | the key of a table name has no upper-case ASCII letter and the name's length |
| App.TableKeySameIff | app.py:48 | two names get the same key exactly when, position by position, they differ only in the case of ASCII letters |
| App.ClassNameCaseIgnored | app.py:48-78 | names differing only in ASCII case commit the same database and fail or succeed alike, failures with the same reply |
| App.ExampleTableNameCase | app.py:48 | `/update/cse_a` finds the table created as `CSE_A` |
| App.FetchRecent | app.py:59-60 | `fetchone()` finds nothing exactly when no row has the username |
| App.SetScores | app.py:66-71 | the `UPDATE` writes the three scores into every row of the user and nothing else: row count, identities and other users' rows unchanged |
| App.ApplyPair | app.py:59-71 | the error cases in source order, each pinned: no row, then a None score, then a NULL `recent_week`, then a value outside 64 bits; success exactly when the row exists, both scores are present and all three bound values fit 64 bits; rows of other users unchanged; identities kept; every row of the user gets previous = the first row's old recent, recent = the new score, and `count == recent - previous` |
| App.ApplyPairs | app.py:57-71 | no pairs leaves the table as it is; the fold fails only with an error an iteration can raise |
| App.UpdateScores | app.py:42-78 | a table missing under every case spelling is a 500 and empty class a 404; every failure commits nothing; a missing row is never the cause; success carries the class's message, changes only that class, keeps row identities, and leaves every row consistent when the scraper is aligned |
| App.ClassPairs | app.py:48-57 | the pairs are as many as the shorter of usernames and scores, pair i being row i's username with score i |
| App.ClassPairsCover | app.py:49-57 | every pair names a row; with an aligned scraper every row is named by a pair |
| App.ClassRunFacts | app.py:57-71 | a run's fold never hits a missing row; on success it keeps identities and, aligned, leaves every row consistent |
| App.ScrapedAligned | app.py:54 | the real scraper returns one score per username, slot k being the k-th request's outcome |
| App.ApplyPairsKeepsIdentity | app.py:66-71 | `s_no`, `user_name`, `roll_no` are never written and no row is added or removed |
| App.ApplyPairsUntouched | app.py:66-71 | rows whose username no pair names are left exactly as they were |
| App.ApplyPairsConsistent | app.py:63-71 | after a successful fold, every row named by a pair, or already consistent, satisfies `count == recent - previous` |
| App.ApplyPairsSplit | app.py:57-71 | a successful fold is a successful fold of a prefix followed by one of the suffix, at any index |
| App.ApplyPairsOtherUsers | app.py:59-71 | a fold that never names u does not change what `fetchone()` reads for u |
| App.FetchRecentUnchanged | app.py:59-60 | `fetchone()` for u reads the same while no row of u changes |
| App.FetchRecentAfterWrite | app.py:59-71 | right after the pair (u, s) is applied, `fetchone()` reads s for u |
| App.ApplyPairsFirstWrite | app.py:59-71 | when no later pair names the first pair's user, that user's rows end with previous = the value read before the run, recent = the pair's score, and consistent |
| App.ApplyPairsLastWrite | app.py:57-71 | the last pair for a user decides the final recent of all that user's rows, which end consistent |
| App.ApplyPairsSingleWrite | app.py:59-71 | a user named by exactly one pair exists in the table and ends with previous = what `fetchone()` read before the run |
| App.ApplyPairsRewrite | app.py:57-71 | when the first pair's user is named exactly once more, that user's rows end with previous = the first pair's score, the value the second `fetchone()` read |
| App.ApplyPairsSeesEarlierWrite | app.py:57-71 | for a duplicated username, the rows end with previous = the earlier occurrence's new score |
| App.ApplyPairsNullScoreFails | app.py:63 | a None score anywhere in the pairs makes the fold fail |
| App.ApplyPairsNullRecentFails | app.py:59-63 | a pair for a user whose `recent_week` reads NULL before the run fails the fold, wherever that pair stands |
| App.ApplyPairsNeverMissing | app.py:49-60 | when every pair names a row, `fetchone()` never comes back empty, since no update removes or renames a row |
| App.ApplyPairsSucceeds | app.py:57-71 | with every pair naming a row and all stored and new scores between 0 and the largest 64-bit integer, the fold succeeds |
| App.EmptyClassNeedsNoScrape | app.py:48-51 | an empty class answers 404 whatever the scraper would answer, so no scrape matters |
| App.NullScoreAbortsRun | app.py:63-78 | a None among the new scores makes the run answer 500 and commit nothing |
| App.FailedFetchAbortsRun | app.py:54-78 | one failed request anywhere in the batch makes the run answer 500 and commit nothing |
| App.FetchRecentFirstRow | app.py:59-60 | `fetchone()` reads the first row that has the username |
| App.NullRecentAbortsRun | app.py:59-78 | a NULL `recent_week` in the first row of a user whose score was scraped makes the run answer 500 and commit nothing |
| App.SaneRunSucceeds | app.py:57-75 | with an aligned scraper and sane stored and new scores, a non-empty class is updated with the success message |
| App.FetchRecentDistinct | app.py:59-60 | with distinct usernames, `fetchone()` reads the row itself |
| App.ApplyPairsRowWise | app.py:57-71 | with distinct usernames and one pair per row, row i ends with previous = its old recent, recent = pair i's score, consistent |
| App.UpdatedClassTable | app.py:73-75 | a successful run commits exactly the folded class table and nothing else |
| App.DistinctClassRows | app.py:57-71 | a run's fold over distinct usernames with an aligned scraper updates every row from its own score |
| App.DistinctClassUpdate | app.py:57-75 | with distinct usernames, a successful run moves each row's old recent to previous, stores its new score as recent, and keeps it consistent |
| App.ScrapedClassUpdate | app.py:54-75 | with the real scraper and distinct usernames, each row's new recent is the count scraped by that row's own request |
| App.WorkedExample | app.py:48-75 | for any class, user, serial and roll number: a one-student class at previous 10, recent 15, count 5 whose scrape returns 20 is answered with the success message and ends at 15, 20, 5, the database holding nothing else |
| App.ScrapedRenderedPage | scraper.py:59-71 | a profile whose only `h3` reads `Problems Solved: n` gives the batch `[Some(n)]`, or `[Some(0)]` past the digit limit |
| App.RenderedPageReads | scraper.py:59-71 | a page whose only `h3` reads `Problems Solved: n` scrapes to n, or to 0 past the digit limit |

## Left out

- The HTTP session, retry and backoff configuration, headers, timeout and `raise_for_status` (scraper.py:9-23, 37-53). A request is either `RequestFailed` or the fetched page.
- HTML parsing. A page is the list of its `h3` tags, each given by its `.string` and its `.text` as BeautifulSoup computes them. How those two are derived from the markup is not modelled.
- `time.sleep(random.uniform(...))` and every `print` (scraper.py:76, 96, 100; app.py:55). They are timing and logging, with no effect on results.
- Exceptions other than `RequestException` escaping the scraper. A page that makes the HTML parser raise is not modelled.
- Flask routing, `jsonify` beyond a status and a message or cause, `render_template`, `home`, `show_scores`, `init_db`, `get_classes` and the `__main__` blocks. These are web and SQL plumbing.
- The text of `str(e)` in a 500 reply. A reply carries the kind of failure, not the message.
- The interpolation of `class_name` into SQL and the injection it allows. A class name is taken to be a plain table name, looked up by `TableKey`.
- App.TableKey: folds only ASCII letters, as SQLite does for identifiers; a quoted name or a name that is an SQL keyword is not modelled.
- A NULL `user_name`. Usernames are strings. In SQLite such a row would match no `WHERE user_name = ?`.
- REAL or TEXT values stored in the INTEGER columns. Stored scores are integers or NULL.
- Row order. `SELECT` without `ORDER BY` is taken to return rows in rowid order, the order of the table sequence.
- Concurrency between overlapping update requests.
- PyInt.ParseInt: does not accept non-ASCII Unicode decimal digits, which Python's `int` also accepts. Profile counts are ASCII.
- PyInt.ShowInt: the decimal text of n, defined for every n. CPython's `str(n)` raises `ValueError` past 4300 digits, so `ShowInt` is `str(n)` only within that limit; the scraper never calls `str`, and the text comes from the page.
- PyInt.MaxStrDigits: fixed at CPython's default of 4300. A limit changed through `sys.set_int_max_str_digits`, `PYTHONINTMAXSTRDIGITS` or `-X int_max_str_digits` is not modelled, and neither is an older interpreter without any limit.
- PyText.IsSpace: covers the whitespace characters of CPython's `str.isspace`, which `strip()` and `split()` use. It is a fixed table, not a lookup in the Unicode database.
