/** Python's `int(token)` for base-10 text, the way the scraper uses it, and
    the decimal text of an integer as its partner. Accepted: surrounding whitespace other than the
    separators U+001C..U+001F, an optional `+` or `-`, then ASCII digits
    with single underscores allowed between two digits, at most
    `MaxStrDigits` digits in all. Everything else is a `ValueError`,
    modelled as `None`. */
module PyInt {
  import opened Wrappers
  import PyText

  predicate IsDigit(c: char) {
    '0' <= c <= '9'
  }

  predicate AllDigits(s: string) {
    forall i :: 0 <= i < |s| ==> IsDigit(s[i])
  }

  function DigitValue(c: char): nat
    requires IsDigit(c)
  {
    (c as int) - ('0' as int)
  }

  /** Unsigned body of a literal: digits, no leading, trailing or doubled
      underscore. */
  predicate IsDigitRun(s: string) {
    && |s| > 0
    && s[0] != '_'
    && s[|s| - 1] != '_'
    && (forall i :: 0 <= i < |s| ==> IsDigit(s[i]) || s[i] == '_')
    && !PyText.Contains(s, "__")
  }

  /** `s` without its underscores. */
  function DropUnderscores(s: string): (d: string)
    ensures |d| <= |s|
    ensures (forall i :: 0 <= i < |s| ==> IsDigit(s[i]) || s[i] == '_') ==> AllDigits(d)
    ensures (forall i :: 0 <= i < |s| ==> s[i] != '_') ==> d == s
    decreases |s|
  {
    if |s| == 0 then ""
    else
      var rest := DropUnderscores(s[1..]);
      if s[0] == '_' then rest else [s[0]] + rest
  }

  /** The number a string of digits denotes in base 10. */
  function DigitsValue(d: string): nat
    requires AllDigits(d)
    decreases |d|
  {
    if |d| == 0 then 0
    else 10 * DigitsValue(d[..|d| - 1]) + DigitValue(d[|d| - 1])
  }

  /** CPython's default `sys.get_int_max_str_digits()`: `int` refuses a
      decimal literal with more digits than this (underscores not counted). */
  const MaxStrDigits: nat := 4300

  /** A literal body short enough for `int` to convert. */
  predicate WithinDigitLimit(body: string) {
    |DropUnderscores(body)| <= MaxStrDigits
  }

  /** `int` on text that has already been stripped of whitespace: it accepts
      one whitespace-free token at most, and gives a negative value only for
      a leading `-`. */
  function ParseStripped(t: string): (r: Option<int>)
    ensures r.Some? ==> PyText.IsWord(t)
    ensures r.Some? && r.value < 0 ==> t[0] == '-'
  {
    if |t| > 0 && (t[0] == '+' || t[0] == '-') then
      var body := t[1..];
      if IsDigitRun(body) && WithinDigitLimit(body) then
        DigitRunHasNoSpace(body);
        assert forall i :: 1 <= i < |t| ==> t[i] == body[i - 1];
        var v: int := DigitsValue(DropUnderscores(body));
        Some(if t[0] == '-' then -v else v)
      else None
    else if IsDigitRun(t) && WithinDigitLimit(t) then
      DigitRunHasNoSpace(t);
      Some(DigitsValue(DropUnderscores(t)))
    else None
  }

  /** The ASCII information separators U+001C..U+001F. `str.isspace` counts
      them as whitespace, but `int` skips only the six ASCII spaces among
      ASCII characters (non-ASCII whitespace it first turns into a space),
      so a separator is refused wherever it stands. */
  predicate IsSeparator(c: char) {
    '\U{1C}' <= c <= '\U{1F}'
  }

  predicate NoSeparator(s: string) {
    forall i :: 0 <= i < |s| ==> !IsSeparator(s[i])
  }

  /** Python's `int(s)`; None stands for the `ValueError` it raises. Only one
      token, surrounded by whitespace at most, is accepted, and none of that
      whitespace is a separator. */
  function ParseInt(s: string): (r: Option<int>)
    ensures r.Some? ==> PyText.IsWord(PyText.Strip(s)) && NoSeparator(s)
    ensures r.Some? && r.value < 0 ==> PyText.Strip(s)[0] == '-'
  {
    if NoSeparator(s) then ParseStripped(PyText.Strip(s)) else None
  }

  /** A separator anywhere, even in the surrounding whitespace, makes `int`
      refuse: `int("\x1c5")` raises, while `int(" 5")` is 5. */
  lemma ExampleSeparator()
    ensures ParseInt("\U{1C}5").None?
    ensures ParseInt(" 5") == Some(5)
  {
    assert !NoSeparator("\U{1C}5") by {
      assert IsSeparator("\U{1C}5"[0]);
    }
    var t := PyText.Strip(" 5");
    var k :| PyText.Padded(" 5", t, k);
    assert t == "5";
    assert ParseStripped("5") == Some(5);
  }

  /** A leading `+` leaves the value of an unsigned literal unchanged, and
      does not count towards the digit limit. */
  lemma PlusKeeps(d: string)
    requires IsDigitRun(d)
    ensures ParseInt("+" + d) == ParseInt(d)
  {
    var s := "+" + d;
    PlusRunHasNoSpace(d);
    PyText.StripNoSpace(s);
    assert s[0] == '+' && s[1..] == d;
    assert ParseInt(s) == ParseStripped(s);
    UnsignedRunParses(d);
  }

  /** `int` accepts only whitespace, ASCII digits, signs and underscores. */
  lemma ParseIntAlphabet(s: string)
    ensures ParseInt(s).Some? ==> forall i :: 0 <= i < |s| ==>
      PyText.IsSpace(s[i]) || IsDigit(s[i]) || s[i] in "+-_"
  {
    var t := PyText.Strip(s);
    var k :| PyText.Padded(s, t, k);
    if ParseInt(s).Some? {
      forall i | 0 <= i < |s|
        ensures PyText.IsSpace(s[i]) || IsDigit(s[i]) || s[i] in "+-_"
      {
        if i < k {
          assert s[..k][i] == s[i];
        } else if i >= k + |t| {
          assert s[k + |t|..][i - k - |t|] == s[i];
        } else {
          assert s[i] == t[i - k];
          if i > k && |t| > 0 && (t[0] == '+' || t[0] == '-') {
            assert t[i - k] == t[1..][i - k - 1];
          }
        }
      }
    }
  }

  function DigitChar(d: nat): (c: char)
    requires d < 10
    ensures IsDigit(c) && DigitValue(c) == d
  {
    ('0' as int + d) as char
  }

  /** The shortest decimal digits of a non-negative `n`. */
  function ShowNat(n: nat): (s: string)
    ensures |s| > 0 && AllDigits(s)
    ensures DigitsValue(s) == n
    ensures s[0] == '0' ==> n == 0
    decreases n
  {
    if n < 10 then [DigitChar(n)]
    else
      var p := ShowNat(n / 10);
      var s := p + [DigitChar(n % 10)];
      assert s[..|s| - 1] == p;
      s
  }

  /** The decimal text of n, as a profile page prints a count. Python's
      `str(n)` gives the same text for n of at most `MaxStrDigits` digits
      and raises past that; this text exists for every n. */
  function ShowInt(n: int): string {
    if n < 0 then "-" + ShowNat(-n) else ShowNat(n)
  }

  /** The number of decimal digits of `n`. */
  function DigitCount(n: int): nat {
    |ShowNat(if n < 0 then -n else n)|
  }

  /** `int` converts the decimal form of `n`: its digits are within the limit. */
  predicate Representable(n: int) {
    DigitCount(n) <= MaxStrDigits
  }

  /** A run of digits is a valid literal body. */
  lemma DigitsAreDigitRun(s: string)
    requires |s| > 0 && AllDigits(s)
    ensures IsDigitRun(s)
  {
    forall i | 0 <= i && i + 2 <= |s|
      ensures !PyText.OccursAt(s, "__", i)
    {
      assert s[i..i + 2][0] == s[i];
    }
    PyText.ContainsIffOccurs(s, "__");
  }

  lemma NoSpaceInShowInt(n: int)
    ensures PyText.NoSpace(ShowInt(n))
  {
  }

  /** `int` reads the decimal text of n back as n when it has at most
      `MaxStrDigits` digits, and refuses longer text. */
  lemma ParseShowRoundTrip(n: int)
    ensures ParseInt(ShowInt(n)) == if Representable(n) then Some(n) else None
  {
    var s := ShowInt(n);
    NoSpaceInShowInt(n);
    PyText.StripNoSpace(s);
    var digits := ShowNat(if n < 0 then -n else n);
    DigitsAreDigitRun(digits);
    if n < 0 {
      assert s[1..] == digits;
    }
  }

  /** Two digit runs joined by one underscore form a literal body. */
  lemma GroupedDigitRun(a: string, b: string)
    requires |a| > 0 && AllDigits(a) && |b| > 0 && AllDigits(b)
    ensures IsDigitRun(a + "_" + b)
  {
    var s := a + "_" + b;
    forall i | 0 <= i < |s|
      ensures IsDigit(s[i]) || s[i] == '_'
    {
      if i < |a| {
        assert s[i] == a[i];
      } else if i > |a| {
        assert s[i] == b[i - |a| - 1];
      }
    }
    forall i | 0 <= i && i + 2 <= |s|
      ensures !PyText.OccursAt(s, "__", i)
    {
      if i < |a| {
        assert s[i..i + 2][0] == a[i];
      } else {
        assert s[i..i + 2][1] == b[i - |a|];
      }
    }
    PyText.ContainsIffOccurs(s, "__");
  }

  /** Underscores between digits do not change the value: `int("1_000")`
      is `int("1000")`. */
  lemma UnderscoreGrouping(a: string, b: string)
    requires |a| > 0 && AllDigits(a) && |b| > 0 && AllDigits(b)
    ensures ParseInt(a + "_" + b) == ParseInt(a + b)
  {
    var s, t := a + "_" + b, a + b;
    DropUnderscoresGrouped(a, b);
    DigitsAreDigitRun(t);
    GroupedDigitRun(a, b);
    UnsignedRunParses(s);
    UnsignedRunParses(t);
  }

  lemma DropUnderscoresGrouped(a: string, b: string)
    ensures DropUnderscores(a + "_" + b) == DropUnderscores(a + b)
  {
    DropUnderscoresAppend(a, "_" + b);
    DropUnderscoresAppend(a, b);
    assert a + "_" + b == a + ("_" + b);
    assert ("_" + b)[1..] == b;
  }

  /** A string of digits and underscores holds no whitespace. */
  lemma DigitRunHasNoSpace(s: string)
    requires forall i :: 0 <= i < |s| ==> IsDigit(s[i]) || s[i] == '_'
    ensures PyText.NoSpace(s)
  {
  }

  /** An unsigned literal body parses to the value of its digits, unless it
      has too many of them. */
  lemma UnsignedRunParses(s: string)
    requires IsDigitRun(s)
    ensures ParseInt(s) ==
      if WithinDigitLimit(s) then Some(DigitsValue(DropUnderscores(s))) else None
  {
    DigitRunHasNoSpace(s);
    PyText.StripNoSpace(s);
    assert ParseInt(s) == ParseStripped(s);
    assert IsDigit(s[0]);
    assert !(s[0] == '+' || s[0] == '-');
  }

  lemma {:induction false} DropUnderscoresAppend(a: string, b: string)
    ensures DropUnderscores(a + b) == DropUnderscores(a) + DropUnderscores(b)
    decreases |a|
  {
    if |a| == 0 {
      assert a + b == b;
    } else {
      assert (a + b)[1..] == a[1..] + b;
      DropUnderscoresAppend(a[1..], b);
    }
  }

  /** A run of more than `MaxStrDigits` digits is refused, however small
      its value (leading zeros count). */
  lemma LongLiteralRejected(d: string)
    requires AllDigits(d) && |d| > MaxStrDigits
    ensures ParseInt(d).None?
  {
    DigitsAreDigitRun(d);
    UnsignedRunParses(d);
  }

  /** A leading `-` negates the value of an unsigned literal, and does not
      count towards the digit limit. */
  lemma MinusNegates(d: string)
    requires IsDigitRun(d)
    ensures ParseInt("-" + d) ==
      if WithinDigitLimit(d) then Some(0 - DigitsValue(DropUnderscores(d))) else None
  {
    var s := "-" + d;
    SignedRunHasNoSpace(d);
    PyText.StripNoSpace(s);
    assert s[0] == '-' && s[1..] == d;
    assert ParseInt(s) == ParseStripped(s);
  }

  lemma PlusRunHasNoSpace(d: string)
    requires IsDigitRun(d)
    ensures PyText.NoSpace("+" + d)
  {
    var s := "+" + d;
    DigitRunHasNoSpace(d);
    forall i | 0 < i < |s|
      ensures !PyText.IsSpace(s[i])
    {
      assert s[i] == d[i - 1];
    }
  }

  lemma SignedRunHasNoSpace(d: string)
    requires IsDigitRun(d)
    ensures PyText.NoSpace("-" + d)
  {
    var s := "-" + d;
    DigitRunHasNoSpace(d);
    forall i | 0 < i < |s|
      ensures !PyText.IsSpace(s[i])
    {
      assert s[i] == d[i - 1];
    }
  }
}
