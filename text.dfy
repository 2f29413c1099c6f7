/**
 * The pieces of Python's `str` that the core relies on: the whitespace class
 * shared by `str.split()`, `str.strip()` and the regex class `\s`, word
 * splitting, stripping, `splitlines` (with `\n` as the only line break),
 * `sep.join`, ASCII `lower`, `startswith` and the decimal rendering of an int.
 */
module Text {

  /** Python's `str.isspace()`; `str.split()`, `str.strip()` and `\s` use the same set. */
  predicate IsSpace(c: char) {
    || c == ' '
    || ('\t' <= c <= '\r')
    || ('\U{1C}' <= c <= '\U{1F}')
    || c == '\U{85}' || c == '\U{A0}' || c == '\U{1680}'
    || ('\U{2000}' <= c <= '\U{200A}')
    || c == '\U{2028}' || c == '\U{2029}' || c == '\U{202F}' || c == '\U{205F}' || c == '\U{3000}'
  }

  predicate NotSpace(c: char) { !IsSpace(c) }

  predicate NotNewline(c: char) { c != '\n' }

  predicate AllSpace(s: string) {
    forall i :: 0 <= i < |s| ==> IsSpace(s[i])
  }

  predicate NoSpace(s: string) {
    forall i :: 0 <= i < |s| ==> !IsSpace(s[i])
  }

  predicate StartsWith(s: string, prefix: string) {
    |prefix| <= |s| && s[..|prefix|] == prefix
  }

  /** The characters of `s` that are not whitespace, in order. */
  function NonSpace(s: string): string {
    if s == [] then [] else (if IsSpace(s[0]) then [] else [s[0]]) + NonSpace(s[1..])
  }

  lemma AppendAssoc<T>(a: seq<T>, b: seq<T>, c: seq<T>)
    ensures (a + b) + c == a + (b + c)
  {
  }

  lemma SplitAt<T>(s: seq<T>, i: nat)
    requires i <= |s|
    ensures s[..i] + s[i..] == s
  {
  }

  /** Dropping the last element of `a + b`, for a non-empty `b`, drops the last element of `b`. */
  lemma DropLastOfAppend<T>(a: seq<T>, b: seq<T>)
    requires b != []
    ensures (a + b)[..|a + b| - 1] == a + b[..|b| - 1]
    ensures (a + b)[|a + b| - 1] == b[|b| - 1]
  {
  }

  lemma {:induction false} NonSpaceAppend(a: string, b: string)
    ensures NonSpace(a + b) == NonSpace(a) + NonSpace(b)
  {
    if a == [] {
      assert a + b == b;
    } else {
      var ab := a + b;
      assert ab[0] == a[0] && ab[1..] == a[1..] + b;
      NonSpaceAppend(a[1..], b);
      var head := if IsSpace(a[0]) then [] else [a[0]];
      assert NonSpace(ab) == head + NonSpace(a[1..] + b);
      assert NonSpace(a) == head + NonSpace(a[1..]);
      AppendAssoc(head, NonSpace(a[1..]), NonSpace(b));
    }
  }

  lemma {:induction false} NonSpaceOfAllSpace(s: string)
    requires AllSpace(s)
    ensures NonSpace(s) == []
  {
    if s != [] {
      NonSpaceOfAllSpace(s[1..]);
    }
  }

  lemma {:induction false} NonSpaceOfNoSpace(s: string)
    requires NoSpace(s)
    ensures NonSpace(s) == s
  {
    if s != [] {
      NonSpaceOfNoSpace(s[1..]);
    }
  }

  /** Length of the longest prefix of `s` whose characters all satisfy `p`. */
  function Span(s: string, p: char -> bool): (n: nat)
    ensures n <= |s|
    ensures forall i :: 0 <= i < n ==> p(s[i])
    ensures n < |s| ==> !p(s[n])
  {
    if s == [] || !p(s[0]) then 0 else 1 + Span(s[1..], p)
  }

  /** The span is the first position whose character fails `p`. */
  lemma SpanIs(s: string, p: char -> bool, n: nat)
    requires n <= |s| && forall i :: 0 <= i < n ==> p(s[i])
    requires n < |s| ==> !p(s[n])
    ensures Span(s, p) == n
  {
  }

  /** Length of the longest suffix of `s` whose characters all satisfy `p`. */
  function SpanEnd(s: string, p: char -> bool): (n: nat)
    ensures n <= |s|
    ensures forall i :: |s| - n <= i < |s| ==> p(s[i])
    ensures n < |s| ==> !p(s[|s| - n - 1])
  {
    if s == [] || !p(s[|s| - 1]) then 0 else 1 + SpanEnd(s[..|s| - 1], p)
  }

  /** `s.lstrip()` */
  function TrimStart(s: string): (r: string)
    ensures |r| <= |s| && r == s[|s| - |r|..]
    ensures AllSpace(s[..|s| - |r|])
    ensures r == [] || !IsSpace(r[0])
  {
    s[Span(s, IsSpace)..]
  }

  /** `s.rstrip()` */
  function TrimEnd(s: string): (r: string)
    ensures |r| <= |s| && r == s[..|r|]
    ensures AllSpace(s[|r|..])
    ensures r == [] || !IsSpace(r[|r| - 1])
  {
    s[..|s| - SpanEnd(s, IsSpace)]
  }

  /**
   * `s.strip()`: the text between the leading and the trailing whitespace runs. It is empty
   * exactly when `s` is all whitespace, and otherwise starts and ends with non-whitespace.
   */
  function Strip(s: string): (r: string)
    ensures r == [] <==> AllSpace(s)
    ensures r != [] ==> !IsSpace(r[0]) && !IsSpace(r[|r| - 1])
  {
    TrimBoth(s);
    TrimEnd(TrimStart(s))
  }

  /**
   * Where the stripped text sits in `s`: right after the leading whitespace run, with only
   * whitespace after it.
   */
  lemma StripIsSlice(s: string)
    ensures var r, k := Strip(s), |s| - |TrimStart(s)|;
      && k + |r| <= |s| && r == s[k..k + |r|]
      && AllSpace(s[..k]) && AllSpace(s[k + |r|..])
  {
    var t, r := TrimStart(s), Strip(s);
    assert r == TrimEnd(t);
    SliceOfSlice(s, |s| - |t|, t, r);
  }

  lemma TrimBoth(s: string)
    ensures var r := TrimEnd(TrimStart(s));
      && (r == [] <==> AllSpace(s))
      && (r != [] ==> !IsSpace(r[0]) && !IsSpace(r[|r| - 1]))
  {
    var t := TrimStart(s);
    var r := TrimEnd(t);
    if r == [] {
      assert t == [] by { assert t[|r|..] == t; }
      forall i | 0 <= i < |s| ensures IsSpace(s[i]) {
        assert s[i] == s[..|s| - |t|][i];
      }
    } else {
      assert t[0] == r[0];
    }
  }

  /** A slice of a suffix of `s` is a slice of `s`. */
  lemma SliceOfSlice(s: string, k: nat, t: string, r: string)
    requires k <= |s| && t == s[k..]
    requires |r| <= |t| && r == t[..|r|] && AllSpace(t[|r|..])
    ensures k + |r| <= |s| && r == s[k..k + |r|] && AllSpace(s[k + |r|..])
  {
    assert t[|r|..] == s[k + |r|..];
  }

  /** Stripping a string already bounded by non-whitespace changes nothing. */
  lemma StripKeeps(s: string)
    requires s != [] && !IsSpace(s[0]) && !IsSpace(s[|s| - 1])
    ensures Strip(s) == s
  {
    assert Span(s, IsSpace) == 0;
    assert TrimStart(s) == s;
    assert SpanEnd(s, IsSpace) == 0;
  }

  /** `sep.join(xs)` */
  function Join(sep: string, xs: seq<string>): string {
    if |xs| == 0 then "" else if |xs| == 1 then xs[0] else xs[0] + sep + Join(sep, xs[1..])
  }

  lemma JoinCons(sep: string, x: string, xs: seq<string>)
    requires xs != []
    ensures Join(sep, [x] + xs) == x + sep + Join(sep, xs)
  {
    assert ([x] + xs)[1..] == xs;
  }

  /** With a non-empty separator, the join is empty exactly for no parts or one empty part. */
  lemma {:induction false} JoinEmptyIff(sep: string, xs: seq<string>)
    requires sep != []
    ensures Join(sep, xs) == "" <==> xs == [] || (|xs| == 1 && xs[0] == "")
  {
  }

  /** A character found in neither the separator nor any part is not in the join. */
  lemma {:induction false} JoinAvoids(sep: string, xs: seq<string>, c: char)
    requires c !in sep && forall i :: 0 <= i < |xs| ==> c !in xs[i]
    ensures c !in Join(sep, xs)
  {
    if |xs| > 1 {
      assert forall i :: 0 <= i < |xs| - 1 ==> xs[1..][i] == xs[i + 1];
      JoinAvoids(sep, xs[1..], c);
    }
  }

  /** The concatenation of all parts. */
  function Concat(xs: seq<string>): string {
    if xs == [] then "" else xs[0] + Concat(xs[1..])
  }

  /** `s.split()`: the maximal runs of non-whitespace characters, in order. */
  function Words(s: string): (ws: seq<string>)
    ensures forall i :: 0 <= i < |ws| ==> ws[i] != [] && NoSpace(ws[i])
    decreases |s|
  {
    if s == [] then []
    else if IsSpace(s[0]) then Words(s[1..])
    else
      var n := Span(s, NotSpace);
      [s[..n]] + Words(s[n..])
  }

  /** Splitting on whitespace keeps every non-whitespace character, in order. */
  lemma {:induction false} WordsKeepNonSpace(s: string)
    ensures Concat(Words(s)) == NonSpace(s)
    decreases |s|
  {
    if s == [] {
    } else if IsSpace(s[0]) {
      WordsKeepNonSpace(s[1..]);
    } else {
      var n := Span(s, NotSpace);
      var ws := Words(s[n..]);
      assert Words(s) == [s[..n]] + ws;
      assert ([s[..n]] + ws)[1..] == ws;
      WordsKeepNonSpace(s[n..]);
      assert NoSpace(s[..n]);
      NonSpaceOfNoSpace(s[..n]);
      assert s == s[..n] + s[n..];
      NonSpaceAppend(s[..n], s[n..]);
    }
  }

  /** `s.split()` is empty exactly for an all-whitespace string. */
  lemma {:induction false} WordsEmptyIff(s: string)
    ensures Words(s) == [] <==> AllSpace(s)
    decreases |s|
  {
    if s != [] && IsSpace(s[0]) {
      WordsEmptyIff(s[1..]);
      assert AllSpace(s) <==> AllSpace(s[1..]) by {
        if AllSpace(s[1..]) {
          forall i | 0 <= i < |s| ensures IsSpace(s[i]) {
            if i > 0 { assert s[i] == s[1..][i - 1]; }
          }
        }
      }
    }
  }

  /** `s.splitlines()` with `\n` as the only line break: a final empty line is dropped. */
  function SplitLines(s: string): (lines: seq<string>)
    ensures forall i :: 0 <= i < |lines| ==> '\n' !in lines[i]
    decreases |s|
  {
    if s == [] then []
    else
      var n := Span(s, NotNewline);
      assert forall i :: 0 <= i < n ==> s[..n][i] != '\n';
      if n == |s| then [s] else [s[..n]] + SplitLines(s[n + 1..])
  }

  predicate EndsWithNewline(s: string) {
    |s| > 0 && s[|s| - 1] == '\n'
  }

  /** Joining the lines again gives back the text, less one trailing line break. */
  lemma {:induction false} JoinSplitLines(s: string)
    ensures Join("\n", SplitLines(s)) == if EndsWithNewline(s) then s[..|s| - 1] else s
    decreases |s|
  {
    if s != [] {
      var n := Span(s, NotNewline);
      if n == |s| {
        assert SplitLines(s) == [s];
        assert !EndsWithNewline(s);
      } else {
        var first, rest := s[..n], s[n + 1..];
        assert s == first + "\n" + rest by { assert s[n] == '\n'; }
        assert '\n' !in first by {
          forall k | 0 <= k < n ensures first[k] != '\n' { assert first[k] == s[k]; }
        }
        JoinSplitLines(rest);
        JoinSplitStep(first, rest);
      }
    }
  }

  /** One line and a break in front of a text whose lines join back to it. */
  lemma JoinSplitStep(first: string, rest: string)
    requires '\n' !in first
    requires Join("\n", SplitLines(rest)) == if EndsWithNewline(rest) then rest[..|rest| - 1] else rest
    ensures var s := first + "\n" + rest;
      Join("\n", SplitLines(s)) == if EndsWithNewline(s) then s[..|s| - 1] else s
  {
    var s := first + "\n" + rest;
    SplitLinesCons(first, rest);
    var lines := SplitLines(rest);
    if rest == [] {
      assert SplitLines(s) == [first];
      assert s[..|s| - 1] == first;
    } else {
      JoinCons("\n", first, lines);
      LastOfJoin(first, rest);
    }
  }

  lemma LastOfJoin(first: string, rest: string)
    requires rest != []
    ensures var s := first + "\n" + rest;
      && EndsWithNewline(s) == EndsWithNewline(rest)
      && (EndsWithNewline(rest) ==> s[..|s| - 1] == first + "\n" + rest[..|rest| - 1])
  {
    var s := first + "\n" + rest;
    assert s[|s| - 1] == rest[|rest| - 1];
  }

  /** Splitting a join of newline-free lines gives back the lines, unless the last one is empty. */
  lemma {:induction false} SplitLinesJoin(xs: seq<string>)
    requires forall i :: 0 <= i < |xs| ==> '\n' !in xs[i]
    requires xs == [] || xs[|xs| - 1] != ""
    ensures SplitLines(Join("\n", xs)) == xs
  {
    if |xs| == 1 {
      var s := xs[0];
      forall i | 0 <= i < |s| ensures NotNewline(s[i]) { assert s[i] in s; }
      SpanIs(s, NotNewline, |s|);
    } else if |xs| > 1 {
      SplitLinesJoin(xs[1..]);
      SplitLinesJoinCons(xs);
    }
  }

  lemma SplitLinesJoinCons(xs: seq<string>)
    requires |xs| > 1 && '\n' !in xs[0]
    requires SplitLines(Join("\n", xs[1..])) == xs[1..]
    ensures SplitLines(Join("\n", xs)) == xs
  {
    assert Join("\n", xs) == xs[0] + "\n" + Join("\n", xs[1..]);
    SplitLinesCons(xs[0], Join("\n", xs[1..]));
    assert xs == [xs[0]] + xs[1..];
  }

  /** A line without a line break, a break, and the rest: that line, then the lines of the rest. */
  lemma SplitLinesCons(x: string, rest: string)
    requires '\n' !in x
    ensures SplitLines(x + "\n" + rest) == [x] + SplitLines(rest)
  {
    var s := x + "\n" + rest;
    forall i | 0 <= i < |x| ensures NotNewline(s[i]) {
      assert s[i] == x[i];
      assert x[i] in x;
    }
    assert s[|x|] == '\n';
    SpanIs(s, NotNewline, |x|);
    assert s[..|x|] == x;
    assert s[|x| + 1..] == rest;
  }

  /** ASCII case folding, as `str.lower()` does on ASCII letters. */
  function LowerChar(c: char): char {
    if 'A' <= c <= 'Z' then (c as int + 32) as char else c
  }

  /** `s.lower()` restricted to ASCII letters: each character is folded where it stands. */
  function Lower(s: string): (r: string)
    ensures |r| == |s|
    ensures forall i :: 0 <= i < |s| ==> r[i] == LowerChar(s[i])
  {
    if s == [] then [] else [LowerChar(s[0])] + Lower(s[1..])
  }

  /** A string without upper-case ASCII letters is its own folding. */
  lemma LowerFixed(s: string)
    requires forall i :: 0 <= i < |s| ==> !('A' <= s[i] <= 'Z')
    ensures Lower(s) == s
  {
    var r := Lower(s);
    assert forall i :: 0 <= i < |s| ==> r[i] == s[i];
  }

  /** Folding twice is folding once. */
  lemma LowerIdempotent(s: string)
    ensures Lower(Lower(s)) == Lower(s)
  {
  }

  function DigitChar(d: nat): char
    requires d < 10
  {
    ('0' as int + d) as char
  }

  /** `str(n)` for a non-negative int: its decimal digits, most significant first. */
  function Decimal(n: nat): (r: string)
    ensures r != []
    ensures forall i :: 0 <= i < |r| ==> '0' <= r[i] <= '9'
  {
    if n < 10 then [DigitChar(n)] else Decimal(n / 10) + [DigitChar(n % 10)]
  }

  /** The number a string of decimal digits denotes. */
  function DigitsValue(s: string): nat
    requires forall i :: 0 <= i < |s| ==> '0' <= s[i] <= '9'
  {
    if s == [] then 0 else 10 * DigitsValue(s[..|s| - 1]) + (s[|s| - 1] as int - '0' as int)
  }

  /** The decimal rendering names the number exactly. */
  lemma {:induction false} DecimalRoundTrip(n: nat)
    ensures DigitsValue(Decimal(n)) == n
  {
    if n >= 10 {
      var r := Decimal(n);
      assert r[..|r| - 1] == Decimal(n / 10);
      DecimalRoundTrip(n / 10);
    }
  }
}
