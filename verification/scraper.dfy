/** The parse path of `scrape_codechef_problems_solved` and the batch driver
    `scrape_multiple_users` / `count` (scraper.py).

    The HTTP exchange is abstract: a `Web` answers the k-th request of a
    batch, for a given username, either with a request failure or with the
    fetched profile page, represented by its `h3` tags in document order. */
module Scraper {
  import opened Wrappers
  import PyText
  import PyInt
  import Seqs

  /** The label that identifies the statistic on a profile page. */
  const Label: string := "Problems Solved"

  /** One `h3` tag, as BeautifulSoup shows it: `str` is its `.string` (None
      when the tag does not have exactly one string inside), `text` its
      `.text`, the concatenation of its text strings. They differ for a tag
      holding only a comment: `.string` is the comment, `.text` is empty. */
  datatype Heading = Heading(str: Option<string>, text: string)

  /** Result of one `session.get` plus `raise_for_status`: either a
      `RequestException`, or the page's `h3` tags. */
  datatype Fetch = RequestFailed | Fetched(h3s: seq<Heading>)

  /** The remote site: the answer to the k-th request of a batch, made for
      a given username. Two requests for the same name may get different
      answers. */
  type Web = (nat, string) -> Fetch

  /** The `string=` filter of `soup.find`, applied to a tag's `.string`: it
      matches exactly the tags whose string has the label somewhere in it. */
  predicate IsLabelTag(tag: Heading): (b: bool)
    ensures b <==> tag.str.Some? && exists i :: PyText.OccursAt(tag.str.value, Label, i)
  {
    if tag.str.None? then false
    else
      PyText.ContainsIffOccurs(tag.str.value, Label);
      tag.str.value != "" && PyText.Contains(tag.str.value, Label)
  }

  /** The number read from the matched tag's text: the last whitespace token
      when there are at least three tokens, 0 when there are fewer or when
      `int` refuses the last token. */
  function CountFromText(text: string): (n: int)
    ensures n != 0 ==>
      var parts := PyText.Split(PyText.Strip(text));
      |parts| >= 3 && PyInt.ParseInt(parts[|parts| - 1]) == Some(n)
    ensures
      var parts := PyText.Split(PyText.Strip(text));
      |parts| >= 3 && PyInt.ParseInt(parts[|parts| - 1]).Some? ==>
        n == PyInt.ParseInt(parts[|parts| - 1]).value
  {
    CountFromParts(PyText.Split(PyText.Strip(text)))
  }

  /** The `len(parts) >= 3` test and the parse of `parts[-1]`: a non-zero
      count comes only from a last token `int` reads as that count, and a
      last token `int` reads is the count whenever there are three tokens
      or more. */
  function CountFromParts(parts: seq<string>): (n: int)
    ensures n != 0 ==> |parts| >= 3 && PyInt.ParseInt(parts[|parts| - 1]) == Some(n)
    ensures |parts| >= 3 && PyInt.ParseInt(parts[|parts| - 1]).Some? ==>
      n == PyInt.ParseInt(parts[|parts| - 1]).value
  {
    if |parts| < 3 then 0
    else
      match PyInt.ParseInt(parts[|parts| - 1])
      case None => 0
      case Some(v) => v
  }

  /** The count a successfully fetched page yields. */
  function CountFromPage(h3s: seq<Heading>): (n: int)
    ensures (forall i :: 0 <= i < |h3s| ==> !IsLabelTag(h3s[i])) ==> n == 0
  {
    match Seqs.FindFirst(h3s, IsLabelTag)
    case None => 0
    case Some(k) => CountFromText(h3s[k].text)
  }

  /** `scrape_codechef_problems_solved`: None exactly when the request
      failed; every fetched page yields a number. */
  function ProblemsSolved(fetch: Fetch): (r: Option<int>)
    ensures r.None? <==> fetch.RequestFailed?
    ensures fetch.Fetched? ==> r == Some(CountFromPage(fetch.h3s))
  {
    match fetch
    case RequestFailed => None
    case Fetched(h3s) => Some(CountFromPage(h3s))
  }

  // ---------------------------------------------------------------------
  // Properties of the parse path
  // ---------------------------------------------------------------------

  /** Only the first label tag is read: tags before it that do not match,
      and anything after it (other label tags included), do not matter. */
  lemma FirstLabelTagDecides(before: seq<Heading>, tag: Heading, after: seq<Heading>)
    requires forall i :: 0 <= i < |before| ==> !IsLabelTag(before[i])
    requires IsLabelTag(tag)
    ensures CountFromPage(before + [tag] + after) == CountFromText(tag.text)
  {
    var page := before + [tag] + after;
    assert page[|before|] == tag;
    assert forall j :: 0 <= j < |before| ==> page[j] == before[j];
    var r := Seqs.FindFirst(page, IsLabelTag);
    assert r == Some(|before|);
  }

  /** The count is read from the tokens of the text; the `strip()` before
      `split()` has no effect on them. */
  lemma CountFromTokens(text: string)
    ensures CountFromText(text) == CountFromParts(PyText.Split(text))
  {
    PyText.SplitIgnoresStrip(text);
  }

  /** A label text with fewer than three tokens yields 0. */
  lemma ShortLabelYieldsZero(text: string)
    requires |PyText.Split(text)| < 3
    ensures CountFromText(text) == 0
  {
    CountFromTokens(text);
  }

  /** A label text whose last token is not an integer literal yields 0. */
  lemma NonIntegerYieldsZero(text: string)
    requires |PyText.Split(text)| >= 3
    requires PyInt.ParseInt(PyText.Split(text)[|PyText.Split(text)| - 1]).None?
    ensures CountFromText(text) == 0
  {
    CountFromTokens(text);
  }

  /** What the scraper reads back from the decimal form of `n`: `n` itself,
      or 0 when `int` refuses that many digits. */
  function DecimalReading(n: int): int {
    if PyInt.Representable(n) then n else 0
  }

  /** A label text of at least two words followed by a number printed in
      decimal yields that number, negative ones included, as far as `int`'s
      digit limit allows. */
  lemma TrailingNumberIsRead(words: seq<string>, n: int)
    requires |words| >= 2
    requires forall i :: 0 <= i < |words| ==> PyText.IsWord(words[i])
    ensures CountFromText(PyText.JoinSpaced(words + [PyInt.ShowInt(n)])) == DecimalReading(n)
  {
    var tokens := words + [PyInt.ShowInt(n)];
    var text := PyText.JoinSpaced(tokens);
    WordsThenNumber(words, n);
    PyText.SplitJoinSpaced(tokens);
    CountFromTokens(text);
    assert CountFromText(text) == CountFromParts(tokens);
    LastTokenIsRead(tokens, n);
  }

  lemma WordsThenNumber(words: seq<string>, n: int)
    requires forall i :: 0 <= i < |words| ==> PyText.IsWord(words[i])
    ensures forall i :: 0 <= i < |words| + 1 ==> PyText.IsWord((words + [PyInt.ShowInt(n)])[i])
  {
    var tokens := words + [PyInt.ShowInt(n)];
    PyInt.NoSpaceInShowInt(n);
    forall i | 0 <= i < |tokens|
      ensures PyText.IsWord(tokens[i])
    {
      if i < |words| {
        assert tokens[i] == words[i];
      }
    }
  }

  /** Three or more tokens ending in the decimal form of `n` read as `n`. */
  lemma LastTokenIsRead(parts: seq<string>, n: int)
    requires |parts| >= 3 && parts[|parts| - 1] == PyInt.ShowInt(n)
    ensures CountFromParts(parts) == DecimalReading(n)
  {
    PyInt.ParseShowRoundTrip(n);
  }

  /** The rendered form `Problems Solved: n`. */
  function RenderedLabel(n: int): string {
    Label + ": " + PyInt.ShowInt(n)
  }

  /** A plain-text `h3` reading `Problems Solved: n`: its string and its text
      are the same. */
  function RenderedHeading(n: int): Heading {
    Heading(Some(RenderedLabel(n)), RenderedLabel(n))
  }

  /** Render-then-scrape round trip: a page whose first label tag reads
      `Problems Solved: n` scrapes to `n` (within `int`'s digit limit),
      whatever follows it. */
  lemma RenderedCountRoundTrip(before: seq<Heading>, n: int, after: seq<Heading>)
    requires forall i :: 0 <= i < |before| ==> !IsLabelTag(before[i])
    ensures ProblemsSolved(Fetched(before + [RenderedHeading(n)] + after)) == Some(DecimalReading(n))
  {
    RenderedLabelIsLabelTag(n, RenderedLabel(n));
    RenderedLabelReads(n);
    FirstLabelTagDecides(before, RenderedHeading(n), after);
  }

  lemma RenderedLabelIsLabelTag(n: int, text: string)
    ensures IsLabelTag(Heading(Some(RenderedLabel(n)), text))
  {
    var s := RenderedLabel(n);
    assert s[..|Label|] == Label;
    assert PyText.OccursAt(s, Label, 0);
  }

  lemma RenderedLabelReads(n: int)
    ensures CountFromText(RenderedLabel(n)) == DecimalReading(n)
  {
    var a, b := "Problems", "Solved:";
    LabelWords();
    RenderedLabelSpelled(n);
    ReadThreeTokens(a, b, n, RenderedLabel(n));
  }

  lemma LabelWords()
    ensures PyText.IsWord("Problems") && PyText.IsWord("Solved:")
  {
  }

  lemma RenderedLabelSpelled(n: int)
    ensures RenderedLabel(n) == "Problems" + " " + "Solved:" + " " + PyInt.ShowInt(n)
  {
  }

  /** Two words and a number, separated by single spaces, read as the number. */
  lemma ReadThreeTokens(a: string, b: string, n: int, text: string)
    requires PyText.IsWord(a) && PyText.IsWord(b)
    requires text == a + " " + b + " " + PyInt.ShowInt(n)
    ensures CountFromText(text) == DecimalReading(n)
  {
    assert [a, b] + [PyInt.ShowInt(n)] == [a, b, PyInt.ShowInt(n)];
    PyText.JoinSpacedThree(a, b, PyInt.ShowInt(n));
    TrailingNumberIsRead([a, b], n);
  }

  /** A fetched page without any label tag yields 0, not None. */
  lemma MissingLabelYieldsZero(h3s: seq<Heading>)
    requires forall i :: 0 <= i < |h3s| ==> !IsLabelTag(h3s[i])
    ensures ProblemsSolved(Fetched(h3s)) == Some(0)
  {
  }

  /** The tag is chosen by its `.string` but read through its `.text`: a
      first label tag whose text is empty, as for an `h3` holding only a
      comment, yields 0 whatever its string says. */
  lemma EmptyTextLabelYieldsZero(before: seq<Heading>, str: string, after: seq<Heading>)
    requires forall i :: 0 <= i < |before| ==> !IsLabelTag(before[i])
    requires IsLabelTag(Heading(Some(str), ""))
    ensures ProblemsSolved(Fetched(before + [Heading(Some(str), "")] + after)) == Some(0)
  {
    FirstLabelTagDecides(before, Heading(Some(str), ""), after);
  }

  /** `<h3><!--Problems Solved: 42--></h3>` matches the filter but reads 0. */
  lemma ExampleCommentOnly()
    ensures IsLabelTag(Heading(Some("Problems Solved: 42"), ""))
    ensures ProblemsSolved(Fetched([Heading(Some("Problems Solved: 42"), "")])) == Some(0)
  {
    var str := RenderedLabel(42);
    assert PyInt.ShowInt(42) == "42";
    assert str == "Problems Solved: 42";
    RenderedLabelIsLabelTag(42, "");
    EmptyTextReadsZero();
  }

  lemma EmptyTextReadsZero()
    ensures CountFromText("") == 0
  {
    assert PyText.Split("") == [];
  }

  /** `Problems Solved: 42` reads 42. */
  lemma ExampleFortyTwo()
    ensures CountFromText("Problems Solved: 42") == 42
  {
    assert PyInt.ShowInt(42) == "42";
    ReadThreeTokens("Problems", "Solved:", 42, "Problems Solved: 42");
  }

  /** A bare `Problems Solved` has two tokens and reads 0. */
  lemma ExampleLabelOnly()
    ensures CountFromText("Problems Solved") == 0
  {
    PyText.SplitJoinSpaced(["Problems", "Solved"]);
    assert ["Problems", "Solved"][1..] == ["Solved"];
    assert PyText.JoinSpaced(["Problems", "Solved"]) == "Problems Solved";
    ShortLabelYieldsZero("Problems Solved");
  }

  // ---------------------------------------------------------------------
  // Batch driver
  // ---------------------------------------------------------------------

  /** What `scrape_multiple_users(usernames)` returns: slot k holds the
      outcome of the k-th request, made for `usernames[k]`. */
  function ScrapeResults(usernames: seq<string>, web: Web): seq<Option<int>> {
    seq(|usernames|, k requires 0 <= k < |usernames| => ProblemsSolved(web(k, usernames[k])))
  }

  /** `scrape_multiple_users`: one request per input slot, in order,
      duplicates included, results appended in the same order; a failed
      request leaves None in its slot and does not stop the batch. */
  method ScrapeMultipleUsers(usernames: seq<string>, web: Web) returns (results: seq<Option<int>>)
    ensures |results| == |usernames|
    ensures forall k :: 0 <= k < |usernames| ==>
      results[k] == ProblemsSolved(web(k, usernames[k]))
  {
    results := [];
    var k := 0;
    while k < |usernames|
      invariant k <= |usernames|
      invariant |results| == k
      invariant forall j :: 0 <= j < k ==> results[j] == ProblemsSolved(web(j, usernames[j]))
    {
      var problemsSolved := ProblemsSolved(web(k, usernames[k]));
      results := results + [problemsSolved];
      k := k + 1;
    }
  }

  /** `count(users)`: exactly the batch result, positionally aligned with
      `users`. */
  method Count(users: seq<string>, web: Web) returns (results: seq<Option<int>>)
    ensures results == ScrapeResults(users, web)
    ensures |results| == |users|
    ensures forall k :: 0 <= k < |users| ==>
      (results[k].None? <==> web(k, users[k]).RequestFailed?)
  {
    results := ScrapeMultipleUsers(users, web);
  }
}
