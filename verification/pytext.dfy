/** The Python string operations the scraper applies to a tag's text:
    `str.isspace`, the `in` operator, `str.strip()` and `str.split()` (both
    with no argument), and `" ".join` as the partner of `split`. */
module PyText {

  /** CPython's whitespace class for `str` (what `isspace`, `strip()` and
      `split()` use): bidirectional classes WS, B and S plus category Zs. */
  predicate IsSpace(c: char) {
    || ('\U{9}' <= c <= '\U{D}')
    || ('\U{1C}' <= c <= ' ')
    || c == '\U{85}' || c == '\U{A0}' || c == '\U{1680}'
    || ('\U{2000}' <= c <= '\U{200A}')
    || c == '\U{2028}' || c == '\U{2029}' || c == '\U{202F}'
    || c == '\U{205F}' || c == '\U{3000}'
  }

  predicate AllSpace(s: string) {
    forall i :: 0 <= i < |s| ==> IsSpace(s[i])
  }

  predicate NoSpace(s: string) {
    forall i :: 0 <= i < |s| ==> !IsSpace(s[i])
  }

  /** A token `split()` can produce: non-empty and free of whitespace. */
  predicate IsWord(s: string) {
    |s| > 0 && NoSpace(s)
  }

  // ---------------------------------------------------------------------
  // Substring test
  // ---------------------------------------------------------------------

  /** `sub` occurs in `s` starting at offset `i`. */
  predicate OccursAt(s: string, sub: string, i: int) {
    0 <= i && i + |sub| <= |s| && s[i..i + |sub|] == sub
  }

  /** Python's `sub in s`, as a left-to-right scan of candidate offsets. */
  predicate Contains(s: string, sub: string)
    decreases |s|
  {
    (|sub| <= |s| && s[..|sub|] == sub) || (|s| > 0 && Contains(s[1..], sub))
  }

  /** The scan finds `sub` exactly when `sub` occurs at some offset. */
  lemma {:induction false} ContainsIffOccurs(s: string, sub: string)
    ensures Contains(s, sub) <==> exists i :: OccursAt(s, sub, i)
    decreases |s|
  {
    if |sub| <= |s| && s[..|sub|] == sub {
      assert OccursAt(s, sub, 0);
    }
    if |s| > 0 {
      ContainsIffOccurs(s[1..], sub);
      if Contains(s[1..], sub) {
        var i :| OccursAt(s[1..], sub, i);
        assert s[i + 1..i + 1 + |sub|] == s[1..][i..i + |sub|];
        assert OccursAt(s, sub, i + 1);
      }
      if exists i :: OccursAt(s, sub, i) {
        var i :| OccursAt(s, sub, i);
        if i > 0 {
          assert s[1..][i - 1..i - 1 + |sub|] == s[i..i + |sub|];
          assert OccursAt(s[1..], sub, i - 1);
        } else {
          assert s[..|sub|] == sub;
        }
      }
    }
  }

  // ---------------------------------------------------------------------
  // strip()
  // ---------------------------------------------------------------------

  /** Index of the first non-whitespace character of `s` at or after `i`
      (or `|s|`). */
  function SkipSpaces(s: string, i: nat): (j: nat)
    requires i <= |s|
    ensures i <= j <= |s|
    ensures forall k :: i <= k < j ==> IsSpace(s[k])
    ensures j < |s| ==> !IsSpace(s[j])
    decreases |s| - i
  {
    if i == |s| || !IsSpace(s[i]) then i else SkipSpaces(s, i + 1)
  }

  /** End of `s[..j]` once its trailing whitespace is removed. */
  function TrimEnd(s: string, j: nat): (e: nat)
    requires j <= |s|
    ensures e <= j
    ensures forall k :: e <= k < j ==> IsSpace(s[k])
    ensures e > 0 ==> !IsSpace(s[e - 1])
    decreases j
  {
    if j == 0 || !IsSpace(s[j - 1]) then j else TrimEnd(s, j - 1)
  }

  /** `r` is `s` with the whitespace `s[..i]` before it and the whitespace
      after it removed. */
  predicate Padded(s: string, r: string, i: int) {
    OccursAt(s, r, i) && AllSpace(s[..i]) && AllSpace(s[i + |r|..])
  }

  /** Python's `s.strip()`: `s` without its leading and trailing whitespace. */
  function Strip(s: string): (r: string)
    ensures exists i :: Padded(s, r, i)
    ensures |r| > 0 ==> !IsSpace(r[0]) && !IsSpace(r[|r| - 1])
  {
    var a := SkipSpaces(s, 0);
    if a == |s| then
      assert Padded(s, "", |s|);
      ""
    else
      var e := TrimEnd(s, |s|);
      assert a < e;
      assert Padded(s, s[a..e], a);
      s[a..e]
  }

  /** A string with no whitespace at all is its own strip. */
  lemma StripNoSpace(s: string)
    requires NoSpace(s)
    ensures Strip(s) == s
  {
    var r := Strip(s);
    var i :| Padded(s, r, i);
    assert s[0..|s|] == s;
  }

  // ---------------------------------------------------------------------
  // split() and " ".join
  // ---------------------------------------------------------------------

  /** Length of the leading run of non-whitespace characters. */
  function WordLength(s: string): (n: nat)
    ensures n <= |s| && NoSpace(s[..n])
    ensures n < |s| ==> IsSpace(s[n])
    decreases |s|
  {
    if |s| == 0 || IsSpace(s[0]) then 0
    else
      var m := WordLength(s[1..]);
      1 + m
  }

  /** The characterising property of `WordLength` pins it down. */
  lemma {:induction false} WordLengthUnique(s: string, n: nat)
    requires n <= |s| && NoSpace(s[..n])
    requires n < |s| ==> IsSpace(s[n])
    ensures WordLength(s) == n
    decreases n
  {
    if n > 0 {
      assert !IsSpace(s[..n][0]);
      assert s[1..][..n - 1] == s[..n][1..];
      WordLengthUnique(s[1..], n - 1);
    }
  }

  function Concat(parts: seq<string>): string
    decreases |parts|
  {
    if |parts| == 0 then "" else parts[0] + Concat(parts[1..])
  }

  /** The characters of `s` that are not whitespace, in order. */
  function RemoveSpaces(s: string): string
    decreases |s|
  {
    if |s| == 0 then ""
    else (if IsSpace(s[0]) then "" else [s[0]]) + RemoveSpaces(s[1..])
  }

  lemma {:induction false} RemoveSpacesAppend(a: string, b: string)
    ensures RemoveSpaces(a + b) == RemoveSpaces(a) + RemoveSpaces(b)
    decreases |a|
  {
    if |a| > 0 {
      assert (a + b)[1..] == a[1..] + b;
      RemoveSpacesAppend(a[1..], b);
    } else {
      assert a + b == b;
    }
  }

  lemma {:induction false} RemoveSpacesOfWord(w: string)
    requires NoSpace(w)
    ensures RemoveSpaces(w) == w
    decreases |w|
  {
    if |w| > 0 {
      RemoveSpacesOfWord(w[1..]);
      assert w == [w[0]] + w[1..];
    }
  }

  /** Python's `s.split()`: the maximal runs of non-whitespace characters of
      `s`, in order. */
  function Split(s: string): (parts: seq<string>)
    ensures forall i :: 0 <= i < |parts| ==> IsWord(parts[i])
    decreases |s|
  {
    if |s| == 0 then []
    else if IsSpace(s[0]) then Split(s[1..])
    else
      var n := WordLength(s);
      [s[..n]] + Split(s[n..])
  }

  /** The tokens hold every non-whitespace character of `s`, in order, and
      nothing else. */
  lemma {:induction false} SplitKeepsCharacters(s: string)
    ensures Concat(Split(s)) == RemoveSpaces(s)
    decreases |s|
  {
    if |s| > 0 {
      if IsSpace(s[0]) {
        SplitKeepsCharacters(s[1..]);
      } else {
        var n := WordLength(s);
        assert s == s[..n] + s[n..];
        RemoveSpacesAppend(s[..n], s[n..]);
        RemoveSpacesOfWord(s[..n]);
        SplitKeepsCharacters(s[n..]);
        assert ([s[..n]] + Split(s[n..]))[1..] == Split(s[n..]);
      }
    }
  }

  /** Leading whitespace never changes the tokens. */
  lemma {:induction false} SplitSkipsLeadingSpace(p: string, s: string)
    requires AllSpace(p)
    ensures Split(p + s) == Split(s)
    decreases |p|
  {
    if |p| > 0 {
      assert (p + s)[1..] == p[1..] + s;
      SplitSkipsLeadingSpace(p[1..], s);
    } else {
      assert p + s == s;
    }
  }

  /** Trailing whitespace never changes the tokens. */
  lemma {:induction false} SplitSkipsTrailingSpace(s: string, q: string)
    requires AllSpace(q)
    ensures Split(s + q) == Split(s)
    decreases |s|
  {
    if |s| == 0 {
      assert q + "" == q && s + q == q;
      SplitSkipsLeadingSpace(q, "");
    } else if IsSpace(s[0]) {
      assert (s + q)[1..] == s[1..] + q;
      SplitSkipsTrailingSpace(s[1..], q);
    } else {
      var n := WordLength(s);
      assert (s + q)[..n] == s[..n];
      WordLengthUnique(s + q, n);
      assert (s + q)[n..] == s[n..] + q;
      SplitSkipsTrailingSpace(s[n..], q);
    }
  }

  /** A word followed by any non-empty run of whitespace (a newline, a tab,
      several spaces) is one token, and the tokens of the rest follow it. */
  lemma SplitWordThenSpace(w: string, sp: string, s: string)
    requires IsWord(w) && |sp| > 0 && AllSpace(sp)
    ensures Split(w + sp + s) == [w] + Split(s)
  {
    var t := w + sp + s;
    assert t[..|w|] == w;
    assert t[|w|] == sp[0];
    WordLengthUnique(t, |w|);
    assert t[|w|..] == sp + s;
    SplitSkipsLeadingSpace(sp, s);
  }

  /** A single word is its own only token. */
  lemma SplitWord(w: string)
    requires IsWord(w)
    ensures Split(w) == [w]
  {
    WordLengthUnique(w, |w|);
    assert w[..|w|] == w;
    assert w[|w|..] == [];
  }

  /** Tokens spread over a newline and indentation are separated there:
      `"ab\n  cd".split()` is `["ab", "cd"]`. */
  lemma ExampleSplitNewline()
    ensures Split("ab\n  cd") == ["ab", "cd"]
  {
    var w, sp, rest := "ab", "\n  ", "cd";
    assert IsWord(w) && IsWord(rest) && AllSpace(sp);
    assert "ab\n  cd" == w + sp + rest;
    SplitWordThenSpace(w, sp, rest);
    SplitWord(rest);
  }

  /** `strip()` before `split()` is redundant. */
  lemma SplitIgnoresStrip(s: string)
    ensures Split(Strip(s)) == Split(s)
  {
    var r := Strip(s);
    var i :| Padded(s, r, i);
    SplitOfPadded(s, r, i);
  }

  /** Whitespace around `r` does not change its tokens. */
  lemma SplitOfPadded(s: string, r: string, i: int)
    requires Padded(s, r, i)
    ensures Split(s) == Split(r)
  {
    var pre, post := s[..i], s[i + |r|..];
    assert s == pre + (r + post);
    SplitSkipsLeadingSpace(pre, r + post);
    SplitSkipsTrailingSpace(r, post);
  }

  /** Python's `" ".join(words)`. */
  function JoinSpaced(words: seq<string>): string
    decreases |words|
  {
    if |words| == 0 then ""
    else if |words| == 1 then words[0]
    else words[0] + " " + JoinSpaced(words[1..])
  }

  lemma JoinSpacedThree(a: string, b: string, c: string)
    ensures JoinSpaced([a, b, c]) == a + " " + b + " " + c
  {
    assert [a, b, c][1..] == [b, c];
    assert [b, c][1..] == [c];
    assert JoinSpaced([b, c]) == b + " " + c;
    assert a + " " + (b + " " + c) == a + " " + b + " " + c;
  }

  /** Splitting words joined by single spaces gives the words back. */
  lemma {:induction false} SplitJoinSpaced(words: seq<string>)
    requires forall i :: 0 <= i < |words| ==> IsWord(words[i])
    ensures Split(JoinSpaced(words)) == words
    decreases |words|
  {
    if |words| == 1 {
      var w := words[0];
      assert w[..|w|] == w && w[|w|..] == "";
      WordLengthUnique(w, |w|);
    } else if |words| > 1 {
      var w, rest := words[0], JoinSpaced(words[1..]);
      var s := w + " " + rest;
      assert s[..|w|] == w;
      WordLengthUnique(s, |w|);
      assert s[|w|..] == " " + rest;
      assert (" " + rest)[1..] == rest;
      SplitJoinSpaced(words[1..]);
      assert words == [w] + words[1..];
    }
  }
}
