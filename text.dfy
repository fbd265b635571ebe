/**
 * The few pieces of .NET string behaviour the core relies on:
 * `string.Join`, `string.IsNullOrWhiteSpace` and the decimal rendering of
 * a non-negative `int`.
 */
module Text {
  import opened Wrappers

  /** `string.Join(sep, xs)`: the elements with `sep` between neighbours. */
  function Join(sep: string, xs: seq<string>): (j: string)
    ensures |xs| >= 1 ==> |j| >= |xs[0]| && j[..|xs[0]|] == xs[0]
    decreases |xs|
  {
    if |xs| == 0 then ""
    else if |xs| == 1 then xs[0]
    else xs[0] + sep + Join(sep, xs[1..])
  }

  /** A join of two or more elements starts with the first two and the separator between them. */
  lemma JoinStartsWithTwo(sep: string, xs: seq<string>)
    requires |xs| >= 2
    ensures var n := |xs[0]| + |sep| + |xs[1]|; |Join(sep, xs)| >= n && Join(sep, xs)[..n] == xs[0] + sep + xs[1]
  {
    var rest := Join(sep, xs[1..]);
    assert Join(sep, xs) == xs[0] + sep + rest;
    assert rest[..|xs[1]|] == xs[1];
  }

  /** Splits at every ", ": the inverse of `Join(", ", _)` (see SplitJoin). */
  function Split(s: string): (parts: seq<string>)
    ensures |parts| >= 1
    decreases |s|
  {
    if s == [] then [""]
    else if |s| >= 2 && s[0] == ',' && s[1] == ' ' then [""] + Split(s[2..])
    else
      var rest := Split(s[1..]);
      [[s[0]] + rest[0]] + rest[1..]
  }

  lemma {:induction false} SplitPrefix(x: string, t: string)
    requires ',' !in x
    ensures Split(x + t) == [x + Split(t)[0]] + Split(t)[1..]
    decreases |x|
  {
    if x == [] {
      assert x + t == t && x + Split(t)[0] == Split(t)[0];
    } else {
      assert (x + t)[0] == x[0];
      assert (x + t)[1..] == x[1..] + t;
      SplitPrefix(x[1..], t);
      assert [x[0]] + (x[1..] + Split(t)[0]) == x + Split(t)[0];
    }
  }

  /** Joining with ", " and splitting again gives back the entries, provided none contains a comma. */
  lemma {:induction false} SplitJoin(xs: seq<string>)
    requires |xs| >= 1
    requires forall i :: 0 <= i < |xs| ==> ',' !in xs[i]
    ensures Split(Join(", ", xs)) == xs
    decreases |xs|
  {
    if |xs| == 1 {
      SplitPrefix(xs[0], "");
      assert xs[0] + "" == xs[0];
    } else {
      var t := ", " + Join(", ", xs[1..]);
      assert Join(", ", xs) == xs[0] + t;
      SplitPrefix(xs[0], t);
      assert t[2..] == Join(", ", xs[1..]);
      SplitJoin(xs[1..]);
      assert Split(t) == [""] + xs[1..];
      assert xs[0] + "" == xs[0];
    }
  }

  /** `char.IsWhiteSpace`: the Unicode white-space characters. */
  predicate IsWhiteSpace(c: char) {
    ('\U{0009}' <= c <= '\U{000D}') || c == ' ' || c == '\U{0085}' || c == '\U{00A0}'
    || c == '\U{1680}' || ('\U{2000}' <= c <= '\U{200A}') || c == '\U{2028}' || c == '\U{2029}'
    || c == '\U{202F}' || c == '\U{205F}' || c == '\U{3000}'
  }

  /** `string.IsNullOrWhiteSpace`: null, empty, or white space throughout. */
  predicate IsNullOrWhiteSpace(s: Option<string>)
    ensures s == None || s == Some("") ==> IsNullOrWhiteSpace(s)
    ensures !IsNullOrWhiteSpace(s) ==> s.Some? && exists i :: 0 <= i < |s.value| && !IsWhiteSpace(s.value[i])
  {
    s.None? || forall i :: 0 <= i < |s.value| ==> IsWhiteSpace(s.value[i])
  }

  /** A string whose first character is not white space is never null or white space. */
  lemma NotWhiteSpaceAt(s: string, i: nat)
    requires i < |s| && !IsWhiteSpace(s[i])
    ensures !IsNullOrWhiteSpace(Some(s))
  {
  }

  function DigitChar(d: nat): char
    requires d < 10
  {
    "0123456789"[d]
  }

  function DigitValue(c: char): nat {
    if '0' <= c <= '9' then (c as int - '0' as int) as nat else 0
  }

  /** `n.ToString()` for a non-negative `int`: its decimal digits, no sign, no leading zero. */
  function DecimalText(n: nat): (s: string)
    ensures |s| >= 1
    ensures forall i :: 0 <= i < |s| ==> '0' <= s[i] <= '9'
    ensures |s| > 1 ==> s[0] != '0'
  {
    if n < 10 then [DigitChar(n)] else DecimalText(n / 10) + [DigitChar(n % 10)]
  }

  /** Reads decimal digits back into the number they denote. */
  function ParseDecimal(s: string): nat
    decreases |s|
  {
    if s == [] then 0 else ParseDecimal(s[..|s| - 1]) * 10 + DigitValue(s[|s| - 1])
  }

  /** The rendered digits denote the number: the text determines the value. */
  lemma {:induction false} DecimalRoundTrip(n: nat)
    ensures ParseDecimal(DecimalText(n)) == n
  {
    var s := DecimalText(n);
    if n < 10 {
      assert s[..|s| - 1] == [];
    } else {
      DecimalRoundTrip(n / 10);
      assert s[..|s| - 1] == DecimalText(n / 10);
    }
  }

  lemma DecimalTextInjective(m: nat, n: nat)
    ensures DecimalText(m) == DecimalText(n) <==> m == n
  {
    if DecimalText(m) == DecimalText(n) {
      DecimalRoundTrip(m);
      DecimalRoundTrip(n);
    }
  }
}
