/**
 * The text the JavaScript scripts emit: decimal rendering of a number (what `toString()`
 * gives for a non-negative integer) and `Array.prototype.join`.  A small reader for
 * comma-separated decimal lists stands for whoever parses the emitted Rust source: it
 * shows that the byte lists written by the scripts can be read back exactly.
 */
module JsText {

  predicate IsDigit(c: char)
  {
    '0' <= c <= '9'
  }

  predicate AllDigits(s: string)
  {
    forall i :: 0 <= i < |s| ==> IsDigit(s[i])
  }

  function DigitChar(d: nat): (c: char)
    requires d < 10
    ensures IsDigit(c)
  {
    (('0' as int) + d) as char
  }

  function DigitValue(c: char): nat
    requires IsDigit(c)
  {
    (c as int) - ('0' as int)
  }

  /** The number a string of decimal digits denotes. */
  function DigitsValue(s: string): nat
    requires AllDigits(s)
  {
    if s == [] then 0 else DigitsValue(s[..|s| - 1]) * 10 + DigitValue(s[|s| - 1])
  }

  /** `n.toString()`: decimal digits, most significant first, no leading zero except for 0 itself. */
  function Decimal(n: nat): (s: string)
    ensures s != [] && AllDigits(s) && DigitsValue(s) == n
    ensures s[0] == '0' <==> n == 0
    decreases n
  {
    if n < 10 then [DigitChar(n)]
    else
      var init := Decimal(n / 10);
      var s := init + [DigitChar(n % 10)];
      assert s[..|s| - 1] == init;
      s
  }

  /** `xs.join(sep)` on an array of numbers. */
  function Join(xs: seq<nat>, sep: string): string
  {
    if xs == [] then ""
    else if |xs| == 1 then Decimal(xs[0])
    else Decimal(xs[0]) + sep + Join(xs[1..], sep)
  }

  predicate StartsWith(s: string, prefix: string)
  {
    |prefix| <= |s| && s[..|prefix|] == prefix
  }

  /** The digits at the front of `s`. */
  function LeadingDigits(s: string): (d: string)
    ensures |d| <= |s| && d == s[..|d|] && AllDigits(d)
    ensures |d| < |s| ==> !IsDigit(s[|d|])
  {
    if s != [] && IsDigit(s[0]) then [s[0]] + LeadingDigits(s[1..]) else ""
  }

  /**
   * Read a `sep`-separated list of decimal numbers from the front of `s`; returns the
   * numbers and the text after the list.
   */
  function ParseList(s: string, sep: string): (seq<nat>, string)
    requires sep != []
    decreases |s|
  {
    var d := LeadingDigits(s);
    if d == [] then ([], s)
    else
      var rest := s[|d|..];
      if StartsWith(rest, sep) then
        var (tail, after) := ParseList(rest[|sep|..], sep);
        ([DigitsValue(d)] + tail, after)
      else ([DigitsValue(d)], rest)
  }

  lemma {:induction false} LeadingDigitsOfDigits(a: string, b: string)
    requires AllDigits(a) && (b == [] || !IsDigit(b[0]))
    ensures LeadingDigits(a + b) == a
  {
    if a != [] {
      assert (a + b)[1..] == a[1..] + b;
      LeadingDigitsOfDigits(a[1..], b);
    } else {
      assert a + b == b;
    }
  }

  /** One number, then text that neither continues it nor starts with the separator. */
  lemma ParseLast(d: string, rest: string, sep: string)
    requires sep != [] && d != [] && AllDigits(d)
    requires (rest == [] || !IsDigit(rest[0])) && !StartsWith(rest, sep)
    ensures ParseList(d + rest, sep) == ([DigitsValue(d)], rest)
  {
    LeadingDigitsOfDigits(d, rest);
    assert (d + rest)[|d|..] == rest;
  }

  /** One number, then the separator: the rest of the list is read after the separator. */
  lemma ParseNext(d: string, after: string, sep: string)
    requires sep != [] && !IsDigit(sep[0]) && d != [] && AllDigits(d)
    requires StartsWith(after, sep)
    ensures var (tail, rest) := ParseList(after[|sep|..], sep);
      ParseList(d + after, sep) == ([DigitsValue(d)] + tail, rest)
  {
    LeadingDigitsOfDigits(d, after);
    assert (d + after)[|d|..] == after;
  }

  /**
   * Joined numbers read back: whatever follows the list, as long as it does not begin with
   * a digit or with the separator, `ParseList` recovers the numbers and leaves the rest.
   */
  lemma {:induction false} ParseJoin(xs: seq<nat>, sep: string, rest: string)
    requires sep != [] && !IsDigit(sep[0])
    requires (rest == [] || !IsDigit(rest[0])) && !StartsWith(rest, sep)
    ensures ParseList(Join(xs, sep) + rest, sep) == (xs, rest)
  {
    if xs == [] {
      assert Join(xs, sep) + rest == rest;
      if rest != [] {
        assert LeadingDigits(rest) == "";
      }
    } else if |xs| == 1 {
      assert Join(xs, sep) == Decimal(xs[0]);
      ParseLast(Decimal(xs[0]), rest, sep);
      assert xs == [xs[0]];
    } else {
      ParseJoin(xs[1..], sep, rest);
      ParseJoinCons(xs[0], xs[1..], sep, rest);
      assert [xs[0]] + xs[1..] == xs;
    }
  }

  /** The inductive step of `ParseJoin`: one more number in front of a list that reads back. */
  lemma ParseJoinCons(x: nat, tail: seq<nat>, sep: string, rest: string)
    requires sep != [] && !IsDigit(sep[0]) && tail != []
    requires ParseList(Join(tail, sep) + rest, sep) == (tail, rest)
    ensures ParseList(Join([x] + tail, sep) + rest, sep) == ([x] + tail, rest)
  {
    var d, j := Decimal(x), Join(tail, sep);
    JoinCons(x, tail, sep);
    Regroup(d, sep, j, rest);
    AfterPrefix(sep, j + rest);
    ParseNext(d, sep + (j + rest), sep);
  }

  lemma JoinCons(x: nat, tail: seq<nat>, sep: string)
    requires tail != []
    ensures Join([x] + tail, sep) == Decimal(x) + sep + Join(tail, sep)
  {
    var xs := [x] + tail;
    assert xs[0] == x && xs[1..] == tail;
  }

  lemma Regroup(a: string, b: string, c: string, d: string)
    ensures a + b + c + d == a + (b + (c + d))
  {
  }

  /** After a prefix comes what was appended to it. */
  lemma AfterPrefix(head: string, tail: string)
    ensures StartsWith(head + tail, head) && (head + tail)[|head|..] == tail
  {
    assert (head + tail)[..|head|] == head;
  }

  lemma FirstOfAppend(a: string, b: string)
    requires a != []
    ensures (a + b)[0] == a[0]
  {
  }
}
