/**
 * Array-index range expressions and their expansion.
 *
 * An expression is a comma-separated list of tokens, each a single index `N`
 * or a dashed pair `A-B`. Expansion concatenates the tokens' expansions left
 * to right: `N` gives `[N]`, `A-B` gives `A, A+1, ..., B`, and an inverted
 * pair (`A > B`) gives nothing while still counting as valid. Nothing is
 * sorted or de-duplicated.
 */
module RangeExpander {
  import opened Values

  datatype Token = Single(index: nat) | Span(first: nat, last: nat)

  /**
   * A parsed expression: its tokens and the parser's verdict on the text it
   * came from (the parser itself is not part of this model).
   */
  datatype Range = Range(tokens: seq<Token>, valid: bool)

  /** The ascending inclusive run `a, a+1, ..., b`; empty when `a > b`. */
  function Interval(a: int, b: int): (r: seq<int>)
    decreases b - a
    ensures |r| == if a <= b then b - a + 1 else 0
    ensures forall i :: 0 <= i < |r| ==> r[i] == a + i
  {
    if a > b then [] else [a] + Interval(a + 1, b)
  }

  function TokenExpansion(t: Token): seq<int> {
    match t
    case Single(n) => [n]
    case Span(a, b) => Interval(a, b)
  }

  /** The number of indices a token stands for. */
  function TokenLength(t: Token): nat {
    match t
    case Single(_) => 1
    case Span(a, b) => if a <= b then b - a + 1 else 0
  }

  /** Whether index `x` is one of those token `t` stands for. */
  predicate Covers(t: Token, x: int) {
    match t
    case Single(n) => x == n
    case Span(a, b) => a <= x <= b
  }

  function ExpandTokens(ts: seq<Token>): seq<int> {
    if |ts| == 0 then [] else TokenExpansion(ts[0]) + ExpandTokens(ts[1..])
  }

  /** `RangeExpander#expand`. */
  function Expand(r: Range): seq<int> {
    ExpandTokens(r.tokens)
  }

  function SumLengths(ts: seq<Token>): nat {
    if |ts| == 0 then 0 else TokenLength(ts[0]) + SumLengths(ts[1..])
  }

  /** The expansion of a token has as many elements as the token stands for. */
  lemma TokenExpansionLength(t: Token)
    ensures |TokenExpansion(t)| == TokenLength(t)
  {
  }

  /** The expansion length is the sum of the per-token lengths. */
  lemma {:induction false} ExpandLength(ts: seq<Token>)
    ensures |ExpandTokens(ts)| == SumLengths(ts)
  {
    if |ts| > 0 {
      TokenExpansionLength(ts[0]);
      ExpandLength(ts[1..]);
    }
  }

  /** Expanding a concatenation of token lists concatenates the expansions. */
  lemma {:induction false} ExpandAppend(xs: seq<Token>, ys: seq<Token>)
    ensures ExpandTokens(xs + ys) == ExpandTokens(xs) + ExpandTokens(ys)
  {
    if |xs| == 0 {
      assert xs + ys == ys;
    } else {
      assert (xs + ys)[1..] == xs[1..] + ys;
      ExpandAppend(xs[1..], ys);
    }
  }

  /** A token's expansion holds exactly the indices the token covers. */
  lemma TokenExpansionMembers(t: Token, x: int)
    ensures x in TokenExpansion(t) <==> Covers(t, x)
  {
    if t.Span? && t.first <= x <= t.last {
      assert TokenExpansion(t)[x - t.first] == x;
    }
  }

  /** An index occurs in the expansion exactly when some token covers it. */
  lemma {:induction false} ExpandMembers(ts: seq<Token>, x: int)
    ensures x in ExpandTokens(ts) <==> exists i :: 0 <= i < |ts| && Covers(ts[i], x)
  {
    if |ts| > 0 {
      TokenExpansionMembers(ts[0], x);
      ExpandMembers(ts[1..], x);
      if exists i :: 1 <= i < |ts| && Covers(ts[i], x) {
        var i :| 1 <= i < |ts| && Covers(ts[i], x);
        assert Covers(ts[1..][i - 1], x);
      }
    }
  }

  /** A one-token list expands to that token's expansion. */
  lemma ExpandOne(t: Token)
    ensures ExpandTokens([t]) == TokenExpansion(t)
  {
    assert [t][1..] == [];
  }

  /** The token list `N1,N2,...` of single indices. */
  function Singles(xs: seq<nat>): (r: seq<Token>)
    ensures |r| == |xs|
  {
    if |xs| == 0 then [] else [Single(xs[0])] + Singles(xs[1..])
  }

  /** A list of single indices expands to exactly those indices, in order. */
  lemma {:induction false} ExpandSingles(xs: seq<nat>)
    ensures ExpandTokens(Singles(xs)) == xs
  {
    if |xs| > 0 {
      ExpandSingles(xs[1..]);
      assert Singles(xs)[1..] == Singles(xs[1..]);
      assert xs == [xs[0]] + xs[1..];
    }
  }

  /** An inverted pair is valid and expands to nothing. */
  lemma InvertedSpanIsEmpty(a: nat, b: nat)
    requires a > b
    ensures Expand(Range([Span(a, b)], true)) == []
  {
    ExpandOne(Span(a, b));
  }

  /** The expression text a token list stands for (for reading the examples). */
  function Format(ts: seq<Token>): string {
    if |ts| == 0 then ""
    else if |ts| == 1 then FormatToken(ts[0])
    else FormatToken(ts[0]) + "," + Format(ts[1..])
  }

  function FormatToken(t: Token): string {
    match t
    case Single(n) => Digits(n)
    case Span(a, b) => Digits(a) + "-" + Digits(b)
  }

  // The expansion examples of the range expander's tests. Each gives the
  // expression text and the exact expansion, which fixes the multiset the tests compare.

  lemma ExampleSingle()
    ensures Format([Single(1)]) == "1"
    ensures Expand(Range([Single(1)], true)) == [1]
  {
    ExpandOne(Single(1));
  }

  /** A token put before a non-empty list prints before a comma and the list's text. */
  lemma FormatPrefix(t: Token, rest: seq<Token>, text: string)
    requires |rest| > 0 && Format(rest) == text
    ensures Format([t] + rest) == FormatToken(t) + "," + text
  {
    assert ([t] + rest)[1..] == rest;
  }

  /** Single indices put before a non-empty list print before a comma and the list's text. */
  lemma FormatSinglesPrefix(x: nat, xs: seq<nat>, text: string)
    requires |xs| > 0 && Format(Singles(xs)) == text
    ensures Format(Singles([x] + xs)) == Digits(x) + "," + text
  {
    assert ([x] + xs)[1..] == xs;
    assert Singles([x] + xs) == [Single(x)] + Singles(xs);
    FormatPrefix(Single(x), Singles(xs), text);
  }

  /** Eight single indices print as their decimal texts joined by commas. */
  lemma FormatEightSingles(a: nat, b: nat, c: nat, d: nat, e: nat, f: nat, g: nat, h: nat)
    ensures Format(Singles([a, b, c, d, e, f, g, h])) == Digits(a) + "," + (Digits(b) + "," + (Digits(c) + ","
      + (Digits(d) + "," + (Digits(e) + "," + (Digits(f) + "," + (Digits(g) + "," + Digits(h)))))))
  {
    var s7 := [h];
    assert Singles(s7) == [Single(h)];
    var t7 := Digits(h);
    FormatSinglesPrefix(g, s7, t7);
    var s6, t6 := [g] + s7, Digits(g) + "," + t7;
    FormatSinglesPrefix(f, s6, t6);
    var s5, t5 := [f] + s6, Digits(f) + "," + t6;
    FormatSinglesPrefix(e, s5, t5);
    var s4, t4 := [e] + s5, Digits(e) + "," + t5;
    FormatSinglesPrefix(d, s4, t4);
    var s3, t3 := [d] + s4, Digits(d) + "," + t4;
    FormatSinglesPrefix(c, s3, t3);
    var s2, t2 := [c] + s3, Digits(c) + "," + t3;
    FormatSinglesPrefix(b, s2, t2);
    var s1, t1 := [b] + s2, Digits(b) + "," + t2;
    FormatSinglesPrefix(a, s1, t1);
    assert [a] + s1 == [a, b, c, d, e, f, g, h];
  }

  /** The decimal texts of the list example's indices. */
  lemma ExampleListIndexTexts()
    ensures Digits(1) == "1" && Digits(2) == "2" && Digits(3) == "3" && Digits(6) == "6"
    ensures Digits(7) == "7" && Digits(10) == "10" && Digits(12) == "12" && Digits(4) == "4"
  {
    assert Digits(10) == Digits(1) + "0";
    assert Digits(12) == Digits(1) + "2";
  }

  /** The decimal texts of the list example, joined by commas, are the test's text. */
  lemma ExampleListDigits()
    ensures Digits(1) + "," + (Digits(2) + "," + (Digits(3) + "," + (Digits(6) + ","
      + (Digits(7) + "," + (Digits(10) + "," + (Digits(12) + "," + Digits(4))))))) == "1,2,3,6,7,10,12,4"
  {
    ExampleListIndexTexts();
    assert "1" + "," + ("2" + "," + ("3" + "," + ("6" + "," + ("7" + "," + ("10" + "," + ("12" + "," + "4"))))))
      == "1,2,3,6,7,10,12,4";
  }

  lemma ExampleList()
    ensures Format(Singles([1, 2, 3, 6, 7, 10, 12, 4])) == "1,2,3,6,7,10,12,4"
    ensures Expand(Range(Singles([1, 2, 3, 6, 7, 10, 12, 4]), true)) == [1, 2, 3, 6, 7, 10, 12, 4]
  {
    FormatEightSingles(1, 2, 3, 6, 7, 10, 12, 4);
    ExampleListDigits();
    ExpandSingles([1, 2, 3, 6, 7, 10, 12, 4]);
  }

  lemma ExampleSpan()
    ensures Format([Span(1, 10)]) == "1-10"
    ensures Expand(Range([Span(1, 10)], true)) == [1, 2, 3, 4, 5, 6, 7, 8, 9, 10]
  {
    assert Digits(10) == "10";
    ExpandOne(Span(1, 10));
    var e := Interval(1, 10);
    assert |e| == 10;
  }

  lemma ExampleInverted()
    ensures Format([Span(10, 1)]) == "10-1"
    ensures Expand(Range([Span(10, 1)], true)) == []
  {
    assert Digits(10) == "10";
    InvertedSpanIsEmpty(10, 1);
  }

  lemma ExampleTwoSpansText()
    ensures Format([Span(8, 10), Span(1, 4)]) == "8-10,1-4"
  {
    var ts := [Span(8, 10), Span(1, 4)];
    assert Digits(10) == "10";
    assert ts[1..] == [Span(1, 4)];
    assert Format([Span(1, 4)]) == "1-4";
    assert FormatToken(Span(8, 10)) == "8-10";
  }

  lemma ExampleTwoSpans()
    ensures Expand(Range([Span(8, 10), Span(1, 4)], true)) == [8, 9, 10, 1, 2, 3, 4]
  {
    var ts := [Span(8, 10), Span(1, 4)];
    assert ts == [Span(8, 10)] + [Span(1, 4)];
    ExpandAppend([Span(8, 10)], [Span(1, 4)]);
    ExpandOne(Span(8, 10));
    ExpandOne(Span(1, 4));
    var high := Interval(8, 10);
    assert |high| == 3 && high[0] == 8 && high[1] == 9 && high[2] == 10;
    var low := Interval(1, 4);
    assert |low| == 4 && low[0] == 1 && low[1] == 2 && low[2] == 3 && low[3] == 4;
  }
}
