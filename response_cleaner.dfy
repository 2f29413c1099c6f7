/**
 * The response post-processor: `clean_response`, a two-stage whitespace and
 * Markdown-heading normaliser, and `refactor_response`, a second model call
 * that asks for the cleaned text to be rewritten as a structured report.
 *
 * Stage one splits the text into lines, collapses every whitespace run on a
 * line to one space (trimming both ends) and rejoins the lines with `\n`.
 * Stage two is `re.sub(r'^(#+)\s*', r'\1 ', text, flags=re.MULTILINE)`:
 * at the start of the text and after every `\n`, a run of `#` and the
 * whitespace after it (line breaks included) become the run and one space.
 */
module ResponseCleaner {
  import opened Wrappers
  import opened Text
  import opened External
  import opened LlmProvider

  // ---------------------------------------------------------------- stage one

  /** `" ".join(line.split())` */
  function CollapseLine(line: string): string {
    Join(" ", Words(line))
  }

  function CollapseEach(lines: seq<string>): (r: seq<string>)
    ensures |r| == |lines|
    ensures forall i :: 0 <= i < |lines| ==> r[i] == CollapseLine(lines[i])
  {
    seq(|lines|, i requires 0 <= i < |lines| => CollapseLine(lines[i]))
  }

  /** Stage one: the collapsed lines of `text.splitlines()`, joined with `\n`. */
  function CollapseText(text: string): string {
    Join("\n", CollapseEach(SplitLines(text)))
  }

  /** The whitespace character at `i`, if any, is a line break or a space with no whitespace on either side. */
  predicate SpaceOk(s: string, i: nat)
    requires i < |s|
  {
    IsSpace(s[i]) ==>
      s[i] == '\n' || (s[i] == ' ' && (0 < i ==> NotSpace(s[i - 1])) && (i + 1 < |s| ==> NotSpace(s[i + 1])))
  }

  /** Every whitespace character is a line break, or a space with no whitespace on either side. */
  predicate SpaceRule(s: string) {
    forall i: nat :: i < |s| ==> SpaceOk(s, i)
  }

  /** What stage one produces: the space rule, and no space at either end. */
  predicate Normalized(s: string) {
    SpaceRule(s) && (s != [] ==> s[0] != ' ' && s[|s| - 1] != ' ')
  }

  /** What a collapsed line looks like: normalised, and a single line. */
  predicate CollapsedLine(s: string) {
    Normalized(s) && '\n' !in s
  }

  lemma SpaceRuleSlice(s: string, lo: nat, hi: nat)
    requires SpaceRule(s) && lo <= hi <= |s|
    ensures SpaceRule(s[lo..hi])
  {
    var t := s[lo..hi];
    forall i: nat | i < |t| ensures SpaceOk(t, i) {
      assert SpaceOk(s, lo + i);
      assert t[i] == s[lo + i];
      if 0 < i { assert t[i - 1] == s[lo + i - 1]; }
      if i + 1 < |t| { assert t[i + 1] == s[lo + i + 1]; }
    }
  }

  /** Two texts that keep the space rule, glued where no space touches other whitespace. */
  lemma SpaceRuleConcat(a: string, b: string)
    requires SpaceRule(a) && SpaceRule(b)
    requires a != [] && b != [] ==> !(a[|a| - 1] == ' ' && IsSpace(b[0])) && !(IsSpace(a[|a| - 1]) && b[0] == ' ')
    ensures SpaceRule(a + b)
  {
    var s := a + b;
    forall i: nat | i < |s| ensures SpaceOk(s, i) {
      if i < |a| {
        assert SpaceOk(a, i);
        assert s[i] == a[i];
        if 0 < i { assert s[i - 1] == a[i - 1]; }
        if i + 1 < |a| { assert s[i + 1] == a[i + 1]; }
        if i + 1 == |a| && i + 1 < |s| { assert s[i + 1] == b[0]; }
      } else {
        var j := i - |a|;
        assert SpaceOk(b, j);
        assert s[i] == b[j];
        if 0 < j { assert s[i - 1] == b[j - 1]; }
        if j == 0 && 0 < i { assert s[i - 1] == a[|a| - 1]; }
        if i + 1 < |s| { assert s[i + 1] == b[j + 1]; }
      }
    }
  }

  /** A text whose only whitespace is line breaks keeps the space rule. */
  lemma OnlyLineBreaks(s: string)
    requires forall i :: 0 <= i < |s| ==> s[i] == '\n' || NotSpace(s[i])
    ensures SpaceRule(s)
  {
    forall i: nat | i < |s| ensures SpaceOk(s, i) {
      assert s[i] == '\n' || NotSpace(s[i]);
    }
  }

  /** Joining words with single spaces gives a collapsed line holding exactly the words' characters. */
  lemma {:induction false} JoinWords(ws: seq<string>)
    requires forall i :: 0 <= i < |ws| ==> ws[i] != [] && NoSpace(ws[i])
    ensures CollapsedLine(Join(" ", ws))
    ensures NonSpace(Join(" ", ws)) == Concat(ws)
    ensures Join(" ", ws) == [] <==> ws == []
  {
    if |ws| == 1 {
      NonSpaceOfNoSpace(ws[0]);
      OnlyLineBreaks(ws[0]);
      assert Concat(ws) == ws[0] + Concat([]);
      forall k | 0 <= k < |ws[0]| ensures ws[0][k] != '\n' {
        assert !IsSpace(ws[0][k]);
      }
    } else if |ws| > 1 {
      JoinWords(ws[1..]);
      assert ws[1..] != [] && Join(" ", ws[1..]) != [];
      assert ws[0] != [] && NoSpace(ws[0]);
      JoinWordCons(ws[0], Join(" ", ws[1..]));
      assert Concat(ws) == ws[0] + Concat(ws[1..]) by { assert ws == [ws[0]] + ws[1..]; }
    }
  }

  /** A word, one space and a non-empty collapsed line make a collapsed line. */
  lemma JoinWordCons(w: string, rest: string)
    requires w != [] && NoSpace(w) && rest != [] && CollapsedLine(rest)
    ensures CollapsedLine(w + " " + rest)
    ensures NonSpace(w + " " + rest) == w + NonSpace(rest)
  {
    var s := w + " " + rest;
    assert Normalized(s) by {
      OnlyLineBreaks(w);
      assert SpaceOk(" ", 0);
      assert !IsSpace(w[|w| - 1]);
      SpaceRuleConcat(w, " ");
      assert NotSpace(rest[0]) by { assert SpaceOk(rest, 0); assert rest[0] in rest; }
      assert (w + " ")[|w|] == ' ';
      SpaceRuleConcat(w + " ", rest);
      assert s[0] == w[0];
      assert s[|s| - 1] == rest[|rest| - 1];
    }
    assert '\n' !in s by {
      forall k | 0 <= k < |s| ensures s[k] != '\n' {
        if k < |w| { assert s[k] == w[k]; assert !IsSpace(w[k]); }
        else if k > |w| { assert s[k] == rest[k - |w| - 1]; assert rest[k - |w| - 1] in rest; }
      }
    }
    assert NonSpace(s) == w + NonSpace(rest) by {
      NonSpaceAppend(w + " ", rest);
      NonSpaceAppend(w, " ");
      NonSpaceOfNoSpace(w);
      assert NonSpace(" ") == [] by { assert " "[1..] == []; }
      assert w + [] == w;
    }
  }

  /** `split()` undoes a join with single spaces of words without whitespace. */
  lemma {:induction false} WordsOfJoin(ws: seq<string>)
    requires forall i :: 0 <= i < |ws| ==> ws[i] != [] && NoSpace(ws[i])
    ensures Words(Join(" ", ws)) == ws
  {
    if |ws| == 1 {
      WordsFirst(ws[0], []);
      assert ws[0] + [] == ws[0];
    } else if |ws| > 1 {
      WordsOfJoin(ws[1..]);
      WordThenSpace(ws[0], Join(" ", ws[1..]));
      assert ws == [ws[0]] + ws[1..];
    }
  }

  /** A collapsed line is non-empty exactly when the line holds a non-whitespace character, and keeps all of them. */
  lemma CollapseLineShape(line: string)
    ensures CollapsedLine(CollapseLine(line))
    ensures NonSpace(CollapseLine(line)) == NonSpace(line)
    ensures CollapseLine(line) == [] <==> AllSpace(line)
    ensures Words(CollapseLine(line)) == Words(line)
  {
    JoinWords(Words(line));
    WordsOfJoin(Words(line));
    WordsKeepNonSpace(line);
    WordsEmptyIff(line);
  }

  /** Collapsing an already collapsed line changes nothing. */
  lemma {:induction false} CollapseLineKeeps(line: string)
    requires CollapsedLine(line)
    ensures CollapseLine(line) == line
    decreases |line|
  {
    if line != [] {
      var n := CollapsedFirstWord(line);
      if n < |line| {
        var rest := line[n + 1..];
        CollapseLineKeeps(rest);
        JoinCons(" ", line[..n], Words(rest));
      }
    }
  }

  /** A non-empty collapsed line is its first word, alone or followed by one space and a non-empty collapsed line. */
  lemma CollapsedFirstWord(line: string) returns (n: nat)
    requires CollapsedLine(line) && line != []
    ensures 0 < n <= |line|
    ensures n == |line| ==> Words(line) == [line]
    ensures n < |line| ==>
      && CollapsedLine(line[n + 1..])
      && Words(line) == [line[..n]] + Words(line[n + 1..])
      && Words(line[n + 1..]) != []
      && line == line[..n] + " " + line[n + 1..]
  {
    n := Span(line, NotSpace);
    assert NotSpace(line[0]) by {
      assert SpaceOk(line, 0);
      assert line[0] != '\n' by { assert line[0] in line; }
    }
    var w := line[..n];
    assert NoSpace(w);
    if n < |line| {
      CollapsedWordThenRest(line, n);
    } else {
      assert w == line;
      WordsFirst(w, []);
      assert w + [] == line;
    }
  }

  /** A first word that stops before the end is followed by one space and the words of a collapsed rest. */
  lemma CollapsedWordThenRest(line: string, n: nat)
    requires CollapsedLine(line) && 0 < n < |line|
    requires NoSpace(line[..n]) && IsSpace(line[n])
    ensures CollapsedLine(line[n + 1..])
    ensures Words(line) == [line[..n]] + Words(line[n + 1..])
    ensures Words(line[n + 1..]) != []
    ensures line == line[..n] + " " + line[n + 1..]
  {
    var w, rest := line[..n], line[n + 1..];
    CollapsedTail(line, n);
    assert line == w + " " + rest by {
      assert line == w + line[n..];
      assert line[n..] == " " + rest;
    }
    WordThenSpace(w, rest);
    CollapsedHasWords(rest);
  }

  /** A word and one space: the word, then the words of what follows. */
  lemma WordThenSpace(w: string, rest: string)
    requires w != [] && NoSpace(w)
    ensures Words(w + " " + rest) == [w] + Words(rest)
  {
    AppendAssoc(w, " ", rest);
    WordsFirst(w, " " + rest);
    WordsSkipSpace(" ", rest);
  }

  /** A non-empty collapsed line has a word. */
  lemma CollapsedHasWords(line: string)
    requires CollapsedLine(line) && line != []
    ensures Words(line) != []
  {
    assert NotSpace(line[0]) by {
      assert SpaceOk(line, 0);
      assert line[0] != '\n' by { assert line[0] in line; }
    }
    WordsEmptyIff(line);
  }

  /** After a whitespace character inside a collapsed line: a single space, then a collapsed line. */
  lemma CollapsedTail(line: string, n: nat)
    requires CollapsedLine(line) && n < |line| && IsSpace(line[n])
    ensures line[n] == ' ' && n + 1 < |line|
    ensures CollapsedLine(line[n + 1..])
  {
    assert SpaceOk(line, n);
    assert line[n] != '\n' by { assert line[n] in line; }
    var rest := line[n + 1..];
    SpaceRuleSlice(line, n + 1, |line|);
    assert line[n + 1..|line|] == rest;
    assert rest[0] == line[n + 1];
    assert rest[|rest| - 1] == line[|line| - 1];
    assert '\n' !in rest by {
      forall k | 0 <= k < |rest| ensures rest[k] != '\n' {
        assert rest[k] == line[n + 1 + k];
      }
    }
  }

  /** Joining collapsed lines with `\n` gives a normalised text. */
  lemma {:induction false} JoinLinesNormalized(lines: seq<string>)
    requires forall i :: 0 <= i < |lines| ==> CollapsedLine(lines[i])
    ensures Normalized(Join("\n", lines))
  {
    if |lines| > 1 {
      var l := lines[0];
      var rest := Join("\n", lines[1..]);
      JoinLinesNormalized(lines[1..]);
      var s := l + "\n" + rest;
      assert Join("\n", lines) == s;
      SpaceRuleConcat(l, "\n");
      SpaceRuleConcat(l + "\n", rest);
      if l != [] { assert s[0] == l[0]; } else { assert s[0] == '\n'; }
      if rest != [] { assert s[|s| - 1] == rest[|rest| - 1]; }
    }
  }

  /** Every line of a normalised text is a collapsed line. */
  lemma {:induction false} LinesOfNormalized(u: string)
    requires Normalized(u)
    ensures forall i :: 0 <= i < |SplitLines(u)| ==> CollapsedLine(SplitLines(u)[i])
    decreases |u|
  {
    if u != [] {
      var n := Span(u, NotNewline);
      FirstLineCollapsed(u, n);
      if n < |u| {
        var rest := u[n + 1..];
        RestNormalized(u, n);
        LinesOfNormalized(rest);
        var lines, tail := SplitLines(u), SplitLines(rest);
        assert lines == [u[..n]] + tail;
        forall i | 0 <= i < |lines| ensures CollapsedLine(lines[i]) {
          if i > 0 { assert lines[i] == tail[i - 1]; }
        }
      } else {
        assert SplitLines(u) == [u];
        assert u[..n] == u;
      }
    }
  }

  /** The first line of a normalised text is a collapsed line. */
  lemma FirstLineCollapsed(u: string, n: nat)
    requires Normalized(u) && u != [] && n == Span(u, NotNewline)
    ensures CollapsedLine(u[..n])
  {
    var l := u[..n];
    SpaceRuleSlice(u, 0, n);
    assert u[0..n] == l;
    assert forall k :: 0 <= k < n ==> l[k] == u[k];
    if l != [] && n < |u| {
      assert u[n] == '\n';
      assert SpaceOk(u, n - 1);
    }
  }

  /** After the first line break of a normalised text comes a normalised text. */
  lemma RestNormalized(u: string, n: nat)
    requires Normalized(u) && n < |u| && u[n] == '\n'
    ensures Normalized(u[n + 1..])
  {
    var rest := u[n + 1..];
    SpaceRuleSlice(u, n + 1, |u|);
    assert u[n + 1..|u|] == rest;
    if rest != [] {
      assert SpaceOk(u, n + 1);
      assert rest[0] == u[n + 1];
      assert rest[|rest| - 1] == u[|u| - 1];
    }
  }

  /** Stage one leaves a normalised text alone, except that it drops one trailing line break. */
  lemma CollapseTextOfNormalized(u: string)
    requires Normalized(u)
    ensures CollapseText(u) == if EndsWithNewline(u) then u[..|u| - 1] else u
  {
    var lines := SplitLines(u);
    LinesOfNormalized(u);
    forall i | 0 <= i < |lines| ensures CollapseLine(lines[i]) == lines[i] {
      CollapseLineKeeps(lines[i]);
    }
    assert CollapseEach(lines) == lines;
    JoinSplitLines(u);
  }

  /** Stage one keeps the non-whitespace characters of every line. */
  lemma {:induction false} CollapseEachKeepsNonSpace(lines: seq<string>)
    ensures NonSpace(Join("\n", CollapseEach(lines))) == NonSpace(Join("\n", lines))
  {
    if |lines| == 1 {
      CollapseLineShape(lines[0]);
    } else if |lines| > 1 {
      var c := CollapseEach(lines);
      CollapseLineShape(lines[0]);
      CollapseEachKeepsNonSpace(lines[1..]);
      assert c[1..] == CollapseEach(lines[1..]);
      NonSpaceAppend(c[0] + "\n", Join("\n", c[1..]));
      NonSpaceAppend(c[0], "\n");
      NonSpaceAppend(lines[0] + "\n", Join("\n", lines[1..]));
      NonSpaceAppend(lines[0], "\n");
    }
  }

  /** The words of each line, one line after the other. */
  function LinesWords(lines: seq<string>): seq<string> {
    if lines == [] then [] else Words(lines[0]) + LinesWords(lines[1..])
  }

  /** A line break separates words, so the words of joined lines are the lines' words in order. */
  lemma {:induction false} WordsOfLines(lines: seq<string>)
    ensures Words(Join("\n", lines)) == LinesWords(lines)
  {
    if |lines| == 1 {
      assert lines[1..] == [];
      assert Words(lines[0]) + [] == Words(lines[0]);
    } else if |lines| > 1 {
      WordsOfLines(lines[1..]);
      assert "\n" == ['\n'];
      WordsAround(lines[0], '\n', Join("\n", lines[1..]));
    }
  }

  lemma {:induction false} CollapseEachKeepsWords(lines: seq<string>)
    ensures LinesWords(CollapseEach(lines)) == LinesWords(lines)
  {
    if lines != [] {
      var c := CollapseEach(lines);
      assert c[1..] == CollapseEach(lines[1..]);
      CollapseEachKeepsWords(lines[1..]);
      CollapseLineShape(lines[0]);
    }
  }

  /**
   * Stage one keeps the words of the text, in order: it only shortens the whitespace
   * between them, so no word is split and no two words are glued.
   */
  lemma StageOneKeepsWords(text: string)
    ensures Words(CollapseText(text)) == Words(text)
  {
    var lines := SplitLines(text);
    WordsOfLines(CollapseEach(lines));
    CollapseEachKeepsWords(lines);
    WordsOfLines(lines);
    JoinSplitLines(text);
    if EndsWithNewline(text) {
      WordsDropBreak(text);
    }
  }

  /** A trailing line break adds no word. */
  lemma WordsDropBreak(text: string)
    requires EndsWithNewline(text)
    ensures Words(text[..|text| - 1]) == Words(text)
  {
    var t := text[..|text| - 1];
    assert text == t + ['\n'] + [];
    WordsAround(t, '\n', []);
    assert Words(t) + [] == Words(t);
  }

  /**
   * Stage one, line by line: one collapsed line per input line, each without whitespace at
   * either end and without a run of spaces, empty exactly when the input line is blank, and
   * holding that line's non-whitespace characters. The lines can be read back from the
   * joined text, blank interior lines included, unless the last one is blank.
   */
  lemma CollapseTextLines(text: string)
    ensures var lines := SplitLines(text);
      var collapsed := CollapseEach(lines);
      && CollapseText(text) == Join("\n", collapsed)
      && |collapsed| == |lines|
      && (forall i :: 0 <= i < |lines| ==>
            && CollapsedLine(collapsed[i])
            && NonSpace(collapsed[i]) == NonSpace(lines[i])
            && (collapsed[i] == [] <==> AllSpace(lines[i])))
      && (collapsed == [] || collapsed[|collapsed| - 1] != [] ==> SplitLines(CollapseText(text)) == collapsed)
  {
    var lines := SplitLines(text);
    var collapsed := CollapseEach(lines);
    assert CollapseText(text) == Join("\n", collapsed);
    CollapseEachShape(lines);
    if collapsed == [] || collapsed[|collapsed| - 1] != [] {
      SplitCollapsedLines(collapsed);
    }
  }

  /** Collapsed lines, the last one not empty, can be split back out of their join. */
  lemma SplitCollapsedLines(lines: seq<string>)
    requires forall i :: 0 <= i < |lines| ==> CollapsedLine(lines[i])
    requires lines == [] || lines[|lines| - 1] != []
    ensures SplitLines(Join("\n", lines)) == lines
  {
    forall i | 0 <= i < |lines| ensures '\n' !in lines[i] {
      assert CollapsedLine(lines[i]);
    }
    SplitLinesJoin(lines);
  }

  lemma CollapseEachShape(lines: seq<string>)
    ensures forall i :: 0 <= i < |lines| ==>
      && CollapsedLine(CollapseEach(lines)[i])
      && NonSpace(CollapseEach(lines)[i]) == NonSpace(lines[i])
      && (CollapseEach(lines)[i] == [] <==> AllSpace(lines[i]))
  {
    var collapsed := CollapseEach(lines);
    forall i | 0 <= i < |lines|
      ensures CollapsedLine(collapsed[i]) && NonSpace(collapsed[i]) == NonSpace(lines[i])
      ensures collapsed[i] == [] <==> AllSpace(lines[i])
    {
      CollapseLineShape(lines[i]);
    }
  }

  // ---------------------------------------------------------------- stage two

  predicate IsHash(c: char) { c == '#' }

  /** Length of the run of `#` that starts `s`. */
  function HashEnd(s: string): (h: nat)
    ensures h <= |s|
  {
    Span(s, IsHash)
  }

  /** Where a match that starts at `s[0]` ends: after the run of `#` and all the whitespace that follows it. */
  function MatchEnd(s: string): (e: nat)
    ensures HashEnd(s) <= e <= |s|
  {
    HashEnd(s) + Span(s[HashEnd(s)..], IsSpace)
  }

  /** The match consumed whitespace ending in `\n`, so `^` holds right after it. */
  predicate MatchEndsLine(s: string) {
    MatchEnd(s) > HashEnd(s) && s[MatchEnd(s) - 1] == '\n'
  }

  /**
   * `re.sub(r'^(#+)\s*', r'\1 ', s, flags=re.MULTILINE)`, scanning `s` from the left;
   * `atLineStart` says whether `^` holds at the current position, that is, whether the
   * character before it in the original text is `\n` (or there is none).
   */
  function HeadingSub(s: string, atLineStart: bool): (r: string)
    ensures s == [] ==> r == []
    ensures s != [] ==> r != [] && r[0] == s[0]
    decreases |s|
  {
    if s == [] then []
    else if atLineStart && s[0] == '#' then
      s[..HashEnd(s)] + " " + HeadingSub(s[MatchEnd(s)..], MatchEndsLine(s))
    else
      [s[0]] + HeadingSub(s[1..], s[0] == '\n')
  }

  /** A run of `#` at a line start, the whitespace after it and what follows: the run, one space, and the rest. */
  lemma HeadingAtLineStart(hashes: string, ws: string, rest: string)
    requires hashes != [] && forall i :: 0 <= i < |hashes| ==> hashes[i] == '#'
    requires AllSpace(ws)
    requires rest == [] || !IsSpace(rest[0])
    requires ws == [] ==> rest == [] || rest[0] != '#'
    ensures HeadingSub(hashes + ws + rest, true) == hashes + " " + HeadingSub(rest, ws != [] && ws[|ws| - 1] == '\n')
  {
    var s := hashes + ws + rest;
    var h := |hashes|;
    HashEndAt(hashes, ws, rest);
    MatchEndAt(hashes, ws, rest);
    assert s[..h] == hashes && s[h + |ws|..] == rest;
    assert MatchEndsLine(s) == (ws != [] && ws[|ws| - 1] == '\n') by {
      if ws != [] { assert s[h + |ws| - 1] == ws[|ws| - 1]; }
    }
    assert s[0] == '#';
    MatchUnfold(s);
  }

  lemma HashEndAt(hashes: string, ws: string, rest: string)
    requires forall i :: 0 <= i < |hashes| ==> hashes[i] == '#'
    requires ws != [] ==> IsSpace(ws[0])
    requires rest == [] || !IsSpace(rest[0])
    requires ws == [] ==> rest == [] || rest[0] != '#'
    ensures HashEnd(hashes + ws + rest) == |hashes|
  {
    var s, h := hashes + ws + rest, |hashes|;
    forall i | 0 <= i < h ensures IsHash(s[i]) { assert s[i] == hashes[i]; }
    if h < |s| {
      if ws != [] { assert s[h] == ws[0]; } else { assert s[h] == rest[0]; }
    }
    SpanIs(s, IsHash, h);
  }

  lemma MatchEndAt(hashes: string, ws: string, rest: string)
    requires HashEnd(hashes + ws + rest) == |hashes|
    requires AllSpace(ws)
    requires rest == [] || !IsSpace(rest[0])
    ensures MatchEnd(hashes + ws + rest) == |hashes| + |ws|
  {
    var s := hashes + ws + rest;
    var t := s[|hashes|..];
    assert t == ws + rest;
    forall i | 0 <= i < |ws| ensures IsSpace(t[i]) { assert t[i] == ws[i]; }
    if |ws| < |t| { assert t[|ws|] == rest[0]; }
    SpanIs(t, IsSpace, |ws|);
  }

  /** With no `#` at any line start, stage two changes nothing. */
  lemma {:induction false} NoHeadingUnchanged(s: string, atLineStart: bool)
    requires atLineStart && s != [] ==> s[0] != '#'
    requires forall i :: 0 < i < |s| && s[i - 1] == '\n' ==> s[i] != '#'
    ensures HeadingSub(s, atLineStart) == s
    decreases |s|
  {
    if s != [] {
      var t := s[1..];
      forall i | 0 < i < |t| && t[i - 1] == '\n' ensures t[i] != '#' {
        assert t[i - 1] == s[i] && t[i] == s[i + 1];
      }
      if s[0] == '\n' && t != [] { assert t[0] == s[1]; }
      NoHeadingUnchanged(t, s[0] == '\n');
    }
  }

  /** A match at a line start: the run of `#`, the whitespace after it, and what follows. */
  lemma HeadingMatch(s: string) returns (h: nat, w: nat)
    requires s != [] && s[0] == '#'
    ensures h == HashEnd(s) && h + w == MatchEnd(s)
    ensures 0 < h && h + w <= |s|
    ensures forall i :: 0 <= i < h ==> s[..h][i] == '#'
    ensures NoSpace(s[..h]) && AllSpace(s[h..h + w])
    ensures s[h + w..] == [] || NotSpace(s[h + w..][0])
    ensures MatchEndsLine(s) == (w > 0 && s[h..h + w][w - 1] == '\n')
    ensures HeadingSub(s, true) == s[..h] + " " + HeadingSub(s[h + w..], MatchEndsLine(s))
  {
    h := Span(s, IsHash);
    w := Span(s[h..], IsSpace);
    MatchShape(s, h, w);
    MatchUnfold(s);
  }

  /** The parts of a match: a non-empty run of `#`, a maximal run of whitespace, and a rest starting with non-whitespace. */
  lemma MatchShape(s: string, h: nat, w: nat)
    requires s != [] && s[0] == '#'
    requires h == Span(s, IsHash) && w == Span(s[h..], IsSpace)
    ensures 0 < h && h + w <= |s|
    ensures forall i :: 0 <= i < h ==> s[..h][i] == '#'
    ensures NoSpace(s[..h]) && AllSpace(s[h..h + w])
    ensures s[h + w..] == [] || NotSpace(s[h + w..][0])
    ensures w > 0 ==> s[h..h + w][w - 1] == s[h + w - 1]
  {
    HashPart(s, h);
    var t := s[h..];
    GapPart(t, w);
    assert s[h..h + w] == t[..w] && s[h + w..] == t[w..];
    if w > 0 { assert t[..w][w - 1] == s[h + w - 1]; }
  }

  lemma HashPart(s: string, h: nat)
    requires s != [] && s[0] == '#' && h == Span(s, IsHash)
    ensures 0 < h <= |s|
    ensures forall i :: 0 <= i < h ==> s[..h][i] == '#'
    ensures NoSpace(s[..h])
  {
    assert forall i :: 0 <= i < h ==> s[..h][i] == s[i];
  }

  lemma GapPart(t: string, w: nat)
    requires w == Span(t, IsSpace)
    ensures w <= |t| && AllSpace(t[..w])
    ensures t[w..] == [] || NotSpace(t[w..][0])
  {
    assert forall i :: 0 <= i < w ==> t[..w][i] == t[i];
    if w < |t| { assert t[w..][0] == t[w]; }
  }

  /** One step of stage two at a line start that holds `#`. */
  lemma MatchUnfold(s: string)
    requires s != [] && s[0] == '#'
    ensures HeadingSub(s, true) == s[..HashEnd(s)] + " " + HeadingSub(s[MatchEnd(s)..], MatchEndsLine(s))
  {
  }

  lemma NonSpaceSplit(s: string, i: nat)
    requires i <= |s|
    ensures NonSpace(s) == NonSpace(s[..i]) + NonSpace(s[i..])
  {
    SplitAt(s, i);
    NonSpaceAppend(s[..i], s[i..]);
  }

  /** Stage two only rewrites whitespace. */
  lemma {:induction false} HeadingSubKeepsNonSpace(s: string, atLineStart: bool)
    ensures NonSpace(HeadingSub(s, atLineStart)) == NonSpace(s)
    decreases |s|
  {
    if s == [] {
    } else if atLineStart && s[0] == '#' {
      var h, w := HeadingMatch(s);
      var rest := s[h + w..];
      var flag := MatchEndsLine(s);
      HeadingSubKeepsNonSpace(rest, flag);
      HeadingMatchKeepsNonSpace(s, h, w, HeadingSub(rest, flag));
    } else {
      var y := HeadingSub(s[1..], s[0] == '\n');
      HeadingSubKeepsNonSpace(s[1..], s[0] == '\n');
      NonSpaceSplit(s, 1);
      assert s[..1] == [s[0]];
      NonSpaceAppend([s[0]], y);
    }
  }

  /** The text written for a match keeps the non-whitespace characters of the text matched. */
  lemma HeadingMatchKeepsNonSpace(s: string, h: nat, w: nat, y: string)
    requires h + w <= |s|
    requires NoSpace(s[..h]) && AllSpace(s[h..h + w])
    requires NonSpace(y) == NonSpace(s[h + w..])
    ensures NonSpace(s[..h] + " " + y) == NonSpace(s)
  {
    var hashes, t := s[..h], s[h..];
    var gap, rest := t[..w], t[w..];
    assert gap == s[h..h + w] && rest == s[h + w..];
    assert NonSpace(t) == NonSpace(rest) by {
      NonSpaceSplit(t, w);
      NonSpaceOfAllSpace(gap);
    }
    assert NonSpace(s) == hashes + NonSpace(t) by {
      NonSpaceSplit(s, h);
      NonSpaceOfNoSpace(hashes);
    }
    assert NonSpace(hashes + " ") == hashes by {
      NonSpaceAppend(hashes, " ");
      NonSpaceOfNoSpace(hashes);
      NonSpaceOfAllSpace(" ");
      assert hashes + [] == hashes;
    }
    NonSpaceAppend(hashes + " ", y);
  }

  /** The text stage two writes for a match keeps the space rule. */
  lemma SpaceRuleHeading(hashes: string, y: string)
    requires hashes != [] && forall i :: 0 <= i < |hashes| ==> hashes[i] == '#'
    requires SpaceRule(y) && (y == [] || NotSpace(y[0]))
    ensures SpaceRule(hashes + " " + y)
  {
    OnlyLineBreaks(hashes);
    assert SpaceOk(" ", 0);
    assert hashes[|hashes| - 1] == '#';
    SpaceRuleConcat(hashes, " ");
    SpaceRuleConcat(hashes + " ", y);
  }

  /** Copying the first character in front of a rewritten tail keeps the space rule. */
  lemma SpaceRuleCopy(s: string, y: string)
    requires s != [] && SpaceRule(s) && SpaceRule(y)
    requires y != [] ==> |s| > 1 && y[0] == s[1]
    ensures SpaceRule([s[0]] + y)
  {
    assert SpaceOk(s, 0);
    if |s| > 1 { assert SpaceOk(s, 1); }
    assert SpaceOk([s[0]], 0);
    SpaceRuleConcat([s[0]], y);
  }

  /** Stage two keeps the space rule: the one space it writes has no whitespace beside it. */
  lemma {:induction false} HeadingSubSpaceRule(s: string, atLineStart: bool)
    requires SpaceRule(s)
    ensures SpaceRule(HeadingSub(s, atLineStart))
    decreases |s|
  {
    if s != [] {
      if atLineStart && s[0] == '#' {
        var h, w := HeadingMatch(s);
        var rest, flag := s[h + w..], MatchEndsLine(s);
        SpaceRuleDrop(s, h + w);
        HeadingSubSpaceRule(rest, flag);
        SpaceRuleHeading(s[..h], HeadingSub(rest, flag));
      } else {
        SpaceRuleDrop(s, 1);
        HeadingSubSpaceRule(s[1..], s[0] == '\n');
        SpaceRuleCopy(s, HeadingSub(s[1..], s[0] == '\n'));
      }
    }
  }

  lemma SpaceRuleDrop(s: string, k: nat)
    requires SpaceRule(s) && k <= |s|
    ensures SpaceRule(s[k..])
  {
    SpaceRuleSlice(s, k, |s|);
    assert s[k..|s|] == s[k..];
  }

  /** Copying characters other than `\n` while not at a line start. */
  lemma {:induction false} CopyPrefix(p: string, z: string)
    requires '\n' !in p
    ensures HeadingSub(p + z, false) == p + HeadingSub(z, false)
  {
    if p != [] {
      var s := p + z;
      assert s[0] == p[0];
      assert s[1..] == p[1..] + z;
      assert p[0] != '\n' by { assert p[0] in p; }
      assert '\n' !in p[1..] by {
        forall k | 0 <= k < |p[1..]| ensures p[1..][k] != '\n' { assert p[1..][k] in p; }
      }
      CopyPrefix(p[1..], z);
      assert HeadingSub(s, false) == [p[0]] + HeadingSub(p[1..] + z, false);
      assert [p[0]] + (p[1..] + HeadingSub(z, false)) == ([p[0]] + p[1..]) + HeadingSub(z, false);
      assert p == [p[0]] + p[1..];
    } else {
      assert p + z == z;
    }
  }

  /** Stage two is idempotent: its output has nothing left to rewrite. */
  lemma {:induction false} HeadingSubIdempotent(s: string, first: bool, second: bool)
    requires second ==> first
    ensures HeadingSub(HeadingSub(s, first), second) == HeadingSub(s, first)
    decreases |s|
  {
    if s == [] {
    } else if first && s[0] == '#' {
      var h, w := HeadingMatch(s);
      var hashes, rest := s[..h], s[h + w..];
      var flag := MatchEndsLine(s);
      var y := HeadingSub(rest, flag);
      HeadingSubIdempotent(rest, flag, false);
      if second {
        HeadingAtLineStart(hashes, " ", y);
      } else {
        assert '\n' !in hashes + " " by {
          forall k | 0 <= k < |hashes + " "| ensures (hashes + " ")[k] != '\n' {
            if k < h { assert (hashes + " ")[k] == hashes[k]; }
          }
        }
        CopyPrefix(hashes + " ", y);
      }
    } else {
      var flag := s[0] == '\n';
      var y := HeadingSub(s[1..], flag);
      HeadingSubIdempotent(s[1..], flag, flag);
      var x := [s[0]] + y;
      assert HeadingSub(s, first) == x;
      assert x[0] == s[0] && x[1..] == y;
      assert HeadingSub(x, second) == [s[0]] + HeadingSub(y, flag);
    }
  }

  // ---------------------------------------------------------------- clean_response

  /** `clean_response`: stage one, then stage two from the start of the text. */
  function Clean(text: string): string {
    HeadingSub(CollapseText(text), true)
  }

  /** Cleaning only rewrites whitespace: the non-whitespace characters survive, in order. */
  lemma CleanKeepsNonSpace(text: string)
    ensures NonSpace(Clean(text)) == NonSpace(text)
  {
    HeadingSubKeepsNonSpace(CollapseText(text), true);
    CollapseEachKeepsNonSpace(SplitLines(text));
    JoinSplitLines(text);
    if EndsWithNewline(text) {
      assert text == text[..|text| - 1] + "\n";
      NonSpaceAppend(text[..|text| - 1], "\n");
    }
  }

  /**
   * When no word of the text starts with `#`, cleaning keeps the words, in order: the
   * whitespace between two words becomes one space or line breaks, and no word is split or glued.
   */
  lemma CleanKeepsWords(text: string)
    requires forall i :: 0 <= i < |Words(text)| ==> Words(text)[i][0] != '#'
    ensures Words(Clean(text)) == Words(text)
  {
    var u := CollapseText(text);
    StageOneKeepsWords(text);
    NoMarkerAtLineStart(u);
    NoHeadingUnchanged(u, true);
  }

  /** When no word starts with `#`, no line starts with `#`. */
  lemma NoMarkerAtLineStart(u: string)
    requires forall j :: 0 <= j < |Words(u)| ==> Words(u)[j][0] != '#'
    ensures u != [] ==> u[0] != '#'
    ensures forall i :: 0 < i < |u| && u[i - 1] == '\n' ==> u[i] != '#'
  {
    if u != [] && NotSpace(u[0]) {
      var j := WordStart(u, 0);
    }
    forall i | 0 < i < |u| && u[i - 1] == '\n' ensures u[i] != '#' {
      if NotSpace(u[i]) {
        assert IsSpace(u[i - 1]);
        var j := WordStart(u, i);
      }
    }
  }

  /**
   * The cleaned text holds no whitespace but `\n` and single spaces: no tab, no run of
   * spaces, no space beside a line break, and no leading space.
   */
  lemma CleanIsTidy(text: string)
    ensures var u := Clean(text);
      && SpaceRule(u)
      && (forall i :: 0 <= i < |u| && IsSpace(u[i]) ==> u[i] == ' ' || u[i] == '\n')
      && (forall i :: 0 <= i < |u| - 1 ==> !(u[i] == ' ' && u[i + 1] == ' '))
      && (u != [] ==> u[0] != ' ')
  {
    var s := CollapseText(text);
    StageOneNormalized(text);
    HeadingSubSpaceRule(s, true);
    var u := Clean(text);
    forall i | 0 <= i < |u| && IsSpace(u[i]) ensures u[i] == ' ' || u[i] == '\n' {
      assert SpaceOk(u, i);
    }
    forall i | 0 <= i < |u| - 1 ensures !(u[i] == ' ' && u[i + 1] == ' ') {
      assert SpaceOk(u, i);
    }
  }

  lemma StageOneNormalized(text: string)
    ensures Normalized(CollapseText(text))
  {
    var lines := CollapseEach(SplitLines(text));
    forall i | 0 <= i < |lines| ensures CollapsedLine(lines[i]) {
      CollapseLineShape(SplitLines(text)[i]);
    }
    JoinLinesNormalized(lines);
  }

  /**
   * Cleaning twice is cleaning once when the cleaned text ends in neither a space nor a
   * line break. Both exceptions are real: see the two counterexamples below.
   */
  lemma CleanIdempotent(text: string)
    requires var u := Clean(text); u == [] || (u[|u| - 1] != ' ' && u[|u| - 1] != '\n')
    ensures Clean(Clean(text)) == Clean(text)
  {
    var s := CollapseText(text);
    var u := Clean(text);
    StageOneNormalized(text);
    HeadingSubSpaceRule(s, true);
    assert Normalized(u);
    CollapseTextOfNormalized(u);
    HeadingSubIdempotent(s, true, true);
  }

  /** Stage one on a text whose only whitespace is line breaks: it only drops a trailing line break. */
  lemma LineBreaksOnly(u: string)
    requires forall i :: 0 <= i < |u| ==> u[i] == '\n' || NotSpace(u[i])
    ensures CollapseText(u) == if EndsWithNewline(u) then u[..|u| - 1] else u
  {
    OnlyLineBreaks(u);
    if u != [] {
      assert u[0] == '\n' || NotSpace(u[0]);
      assert u[|u| - 1] == '\n' || NotSpace(u[|u| - 1]);
    }
    CollapseTextOfNormalized(u);
  }

  /** Stage one on a single line is that line collapsed. */
  lemma OneLine(s: string)
    requires s != [] && '\n' !in s
    ensures CollapseText(s) == CollapseLine(s)
  {
    assert forall i :: 0 <= i < |s| ==> NotNewline(s[i]) by {
      forall i | 0 <= i < |s| ensures NotNewline(s[i]) { assert s[i] in s; }
    }
    assert Span(s, NotNewline) == |s|;
    assert SplitLines(s) == [s];
    assert CollapseEach([s]) == [CollapseLine(s)];
  }

  lemma {:induction false} WordsSkipSpace(gap: string, rest: string)
    requires AllSpace(gap)
    ensures Words(gap + rest) == Words(rest)
    decreases |gap|
  {
    if gap == [] {
      assert gap + rest == rest;
    } else {
      assert (gap + rest)[0] == gap[0];
      assert (gap + rest)[1..] == gap[1..] + rest;
      WordsSkipSpace(gap[1..], rest);
    }
  }

  lemma WordsFirst(w: string, rest: string)
    requires w != [] && NoSpace(w) && (rest == [] || IsSpace(rest[0]))
    ensures Words(w + rest) == [w] + Words(rest)
  {
    var s := w + rest;
    assert s[0] == w[0];
    assert forall i :: 0 <= i < |w| ==> s[i] == w[i];
    if rest != [] { assert s[|w|] == rest[0]; }
    assert Span(s, NotSpace) == |w|;
    assert s[..|w|] == w && s[|w|..] == rest;
  }

  /** A whitespace character separates words: the words before it, then the words after it. */
  lemma {:induction false} WordsAround(a: string, c: char, b: string)
    requires IsSpace(c)
    ensures Words(a + [c] + b) == Words(a) + Words(b)
    decreases |a|
  {
    var s := a + [c] + b;
    if a == [] {
      assert s[0] == c && s[1..] == b;
    } else if IsSpace(a[0]) {
      assert s[0] == a[0] && s[1..] == a[1..] + [c] + b;
      WordsAround(a[1..], c, b);
    } else {
      var n := Span(a, NotSpace);
      WordsAroundWord(a, c, b, n);
      WordsAround(a[n..], c, b);
      AppendAssoc([a[..n]], Words(a[n..]), Words(b));
    }
  }

  lemma WordsAroundWord(a: string, c: char, b: string, n: nat)
    requires IsSpace(c) && a != [] && NotSpace(a[0]) && n == Span(a, NotSpace)
    ensures Words(a) == [a[..n]] + Words(a[n..])
    ensures Words(a + [c] + b) == [a[..n]] + Words(a[n..] + [c] + b)
  {
    var s := a + [c] + b;
    forall i | 0 <= i < n ensures NotSpace(s[i]) { assert s[i] == a[i]; }
    if n < |a| { assert s[n] == a[n]; } else { assert s[n] == c; }
    SpanIs(s, NotSpace, n);
    assert s[0] == a[0];
    assert s[..n] == a[..n];
    assert s[n..] == a[n..] + [c] + b;
  }

  /** A non-whitespace character at the start of the text or right after whitespace begins a word. */
  lemma {:induction false} WordStart(s: string, i: nat) returns (j: nat)
    requires i < |s| && NotSpace(s[i]) && (i == 0 || IsSpace(s[i - 1]))
    ensures j < |Words(s)| && Words(s)[j][0] == s[i]
    decreases |s|
  {
    if IsSpace(s[0]) {
      assert s[1..][i - 1] == s[i];
      if i > 1 { assert s[1..][i - 2] == s[i - 1]; }
      j := WordStart(s[1..], i - 1);
    } else {
      var n := Span(s, NotSpace);
      var t := s[n..];
      assert Words(s) == [s[..n]] + Words(t);
      if i == 0 {
        j := 0;
        assert s[..n][0] == s[0];
      } else {
        assert n < i;
        assert t[i - n] == s[i] && t[i - n - 1] == s[i - 1];
        var k := WordStart(t, i - n);
        j := k + 1;
        assert Words(s)[j] == Words(t)[k];
      }
    }
  }

  /** A non-empty run of `#`. */
  predicate HashRun(s: string) {
    s != [] && forall i :: 0 <= i < |s| ==> s[i] == '#'
  }

  /** A heading title that stage two leaves alone: a collapsed line not starting with `#`. */
  predicate Title(s: string) {
    s != [] && CollapsedLine(s) && s[0] != '#'
  }

  lemma TitleStart(title: string)
    requires Title(title)
    ensures NotSpace(title[0]) && NotSpace(title[|title| - 1])
    ensures HeadingSub(title, false) == title && HeadingSub(title, true) == title
  {
    assert SpaceOk(title, 0) && SpaceOk(title, |title| - 1);
    assert title[0] in title && title[|title| - 1] in title;
    assert forall i :: 0 <= i < |title| ==> title[i] != '\n';
    NoHeadingUnchanged(title, false);
    NoHeadingUnchanged(title, true);
  }

  lemma HashRunShape(hashes: string)
    requires HashRun(hashes)
    ensures SpaceRule(hashes) && NoSpace(hashes) && '\n' !in hashes
    ensures hashes[0] == '#' && hashes[|hashes| - 1] == '#'
  {
    OnlyLineBreaks(hashes);
  }

  /** `##Title` becomes `## Title`: a heading gets the space it lacks. */
  lemma HeadingGetsSpace(hashes: string, title: string)
    requires HashRun(hashes) && Title(title)
    ensures Clean(hashes + title) == hashes + " " + title
  {
    var s := hashes + title;
    HashRunShape(hashes);
    TitleStart(title);
    SpaceRuleConcat(hashes, title);
    assert s[0] == '#' && s[|s| - 1] == title[|title| - 1];
    assert '\n' !in s;
    OneLine(s);
    CollapseLineKeeps(s);
    assert hashes + [] + title == s;
    HeadingAtLineStart(hashes, [], title);
  }

  /** `#    Title` becomes `# Title`: the blanks after the hashes shrink to one space. */
  lemma HeadingSpacesShrink(hashes: string, gap: string, title: string)
    requires HashRun(hashes) && Title(title)
    requires gap != [] && AllSpace(gap) && '\n' !in gap
    ensures Clean(hashes + gap + title) == hashes + " " + title
  {
    var s := hashes + gap + title;
    HashRunShape(hashes);
    TitleStart(title);
    assert s == hashes + (gap + title);
    assert (gap + title)[0] == gap[0];
    WordsFirst(hashes, gap + title);
    WordsSkipSpace(gap, title);
    WordsEmptyIff(title);
    JoinCons(" ", hashes, Words(title));
    CollapseLineKeeps(title);
    assert '\n' !in s;
    OneLine(s);
    assert CollapseText(s) == hashes + " " + title;
    assert AllSpace(" ");
    HeadingAtLineStart(hashes, " ", title);
  }

  /** `#\n\nfoo` becomes `# foo`: `\s*` runs across line breaks and pulls the next line up. */
  lemma HeadingJoinsNextLine(hashes: string, breaks: string, title: string)
    requires HashRun(hashes) && Title(title)
    requires breaks != [] && forall i :: 0 <= i < |breaks| ==> breaks[i] == '\n'
    ensures Clean(hashes + breaks + title) == hashes + " " + title
  {
    var head := hashes + breaks;
    var s := head + title;
    HashRunShape(hashes);
    TitleStart(title);
    assert forall i :: 0 <= i < |head| ==> head[i] == '\n' || NotSpace(head[i]);
    OnlyLineBreaks(head);
    assert head[|head| - 1] == '\n';
    SpaceRuleConcat(head, title);
    assert s[0] == '#' && s[|s| - 1] == title[|title| - 1];
    CollapseTextOfNormalized(s);
    assert AllSpace(breaks);
    HeadingAtLineStart(hashes, breaks, title);
  }

  /** Stage two leaves a text alone when it is a title followed by line breaks. */
  lemma TitleThenBreaks(line: string, breaks: string)
    requires Title(line)
    requires forall i :: 0 <= i < |breaks| ==> breaks[i] == '\n'
    ensures Normalized(line + breaks)
    ensures HeadingSub(line + breaks, true) == line + breaks
  {
    var s := line + breaks;
    TitleStart(line);
    assert Normalized(s) by {
      OnlyLineBreaks(breaks);
      SpaceRuleConcat(line, breaks);
      assert s[0] == line[0];
      if breaks == [] { assert s == line; } else { assert s[|s| - 1] == '\n'; }
    }
    assert forall j :: 0 <= j < |line| ==> s[j] != '\n' by {
      forall j | 0 <= j < |line| ensures s[j] != '\n' {
        assert s[j] == line[j];
        assert line[j] in line;
      }
    }
    assert forall i :: |line| < i < |s| ==> s[i] == '\n' by {
      forall i | |line| < i < |s| ensures s[i] == '\n' {
        assert s[i] == breaks[i - |line|];
      }
    }
    assert s[0] == line[0];
    NoHeadingUnchanged(s, true);
  }

  /** A title followed by line breaks cleans to the title and one break fewer. */
  lemma CleanTitleThenBreaks(line: string, breaks: string)
    requires Title(line)
    requires breaks != [] && forall i :: 0 <= i < |breaks| ==> breaks[i] == '\n'
    ensures Clean(line + breaks) == line + breaks[..|breaks| - 1]
  {
    CollapseTitleThenBreaks(line, breaks);
    TitleThenBreaks(line, breaks[..|breaks| - 1]);
  }

  /** Stage one drops the last of the line breaks after a title and leaves the rest alone. */
  lemma CollapseTitleThenBreaks(line: string, breaks: string)
    requires Title(line)
    requires breaks != [] && forall i :: 0 <= i < |breaks| ==> breaks[i] == '\n'
    ensures CollapseText(line + breaks) == line + breaks[..|breaks| - 1]
  {
    var s := line + breaks;
    TitleThenBreaks(line, breaks);
    CollapseTextOfNormalized(s);
    DropLastOfAppend(line, breaks);
  }

  /** A trailing line break is lost: `a\n\n` cleans to `a\n`, which cleans to `a`. */
  lemma TrailingBreakDropped(line: string)
    requires Title(line)
    ensures Clean(line + "\n\n") == line + "\n"
    ensures Clean(line + "\n") == line
    ensures Clean(Clean(line + "\n\n")) != Clean(line + "\n\n")
  {
    CleanTitleThenBreaks(line, "\n\n");
    assert "\n\n"[..1] == "\n";
    CleanTitleThenBreaks(line, "\n");
    assert line + "\n"[..0] == line;
    assert |line + "\n"| != |line|;
  }

  /**
   * A bare heading line before another heading: `#\n#` cleans to `# # `. The first match
   * swallows the line break, the second run is still at a line start of the original text
   * and gets a space of its own.
   */
  lemma StackedHeadings(first: string, second: string)
    requires HashRun(first) && HashRun(second)
    ensures Clean(first + "\n" + second) == first + " " + second + " "
  {
    var s := first + "\n" + second;
    StackedStageOne(first, second);
    HeadingAtLineStart(first, "\n", second);
    HashRunAlone(second);
    assert first + " " + (second + " ") == first + " " + second + " ";
  }

  lemma StackedStageOne(first: string, second: string)
    requires HashRun(first) && HashRun(second)
    ensures CollapseText(first + "\n" + second) == first + "\n" + second
  {
    HashRunShape(first);
    HashRunShape(second);
    var s := first + "\n" + second;
    forall i | 0 <= i < |s| ensures s[i] == '\n' || NotSpace(s[i]) {
      if i < |first| { assert s[i] == first[i]; }
      else if i > |first| { assert s[i] == second[i - |first| - 1]; }
    }
    assert s[|s| - 1] == '#';
    LineBreaksOnly(s);
  }

  /** A line that is only a run of `#` gets a trailing space. */
  lemma HashRunAlone(hashes: string)
    requires HashRun(hashes)
    ensures HeadingSub(hashes, true) == hashes + " "
  {
    HashRunShape(hashes);
    assert hashes == hashes + [] + [];
    HeadingAtLineStart(hashes, [], []);
  }

  /** Two runs of `#` separated and followed by a space clean to the runs separated by a space. */
  lemma SpacedHashRuns(first: string, second: string)
    requires HashRun(first) && HashRun(second)
    ensures Clean(first + " " + second + " ") == first + " " + second
  {
    var t := first + " " + second + " ";
    assert CollapseText(t) == first + " " + second by {
      SpacedHashWords(first, second);
      assert [first, second][1..] == [second];
      assert Join(" ", [first, second]) == first + " " + second;
      assert '\n' !in t by { HashRunShape(first); HashRunShape(second); }
      OneLine(t);
    }
    HashRunShape(second);
    HeadingAtLineStart(first, " ", second);
    NoHeadingUnchanged(second, false);
  }

  lemma SpacedHashWords(first: string, second: string)
    requires HashRun(first) && HashRun(second)
    ensures Words(first + " " + second + " ") == [first, second]
  {
    HashRunShape(first);
    HashRunShape(second);
    var t := first + " " + second + " ";
    assert t == first + (" " + (second + " "));
    WordsFirst(first, " " + (second + " "));
    WordsSkipSpace(" ", second + " ");
    WordsFirst(second, " ");
    assert " " == " " + [];
    WordsSkipSpace(" ", []);
  }

  /** So cleaning `#\n#` twice differs from cleaning it once. */
  lemma StackedHeadingsNotIdempotent(first: string, second: string)
    requires HashRun(first) && HashRun(second)
    ensures Clean(Clean(first + "\n" + second)) != Clean(first + "\n" + second)
  {
    StackedHeadings(first, second);
    SpacedHashRuns(first, second);
    assert |first + " " + second| != |first + " " + second + " "|;
  }

  /**
   * `clean_response` as the source writes it: a loop appending each collapsed line to a
   * list, a join, then the heading substitution on the joined text.
   */
  method CleanResponse(text: string) returns (cleaned: string)
    ensures cleaned == Clean(text)
    ensures NonSpace(cleaned) == NonSpace(text)
    ensures (forall i :: 0 <= i < |Words(text)| ==> Words(text)[i][0] != '#') ==> Words(cleaned) == Words(text)
    ensures SpaceRule(cleaned) && (cleaned != [] ==> cleaned[0] != ' ')
  {
    var lines := SplitLines(text);
    var cleanedLines: seq<string> := [];
    var i := 0;
    while i < |lines|
      invariant 0 <= i <= |lines|
      invariant |cleanedLines| == i
      invariant forall k :: 0 <= k < i ==> cleanedLines[k] == CollapseLine(lines[k])
    {
      cleanedLines := cleanedLines + [CollapseLine(lines[i])];
      i := i + 1;
    }
    assert cleanedLines == CollapseEach(lines);
    cleaned := Join("\n", cleanedLines);
    cleaned := HeadingSub(cleaned, true);
    CleanKeepsNonSpace(text);
    CleanIsTidy(text);
    if forall i :: 0 <= i < |Words(text)| ==> Words(text)[i][0] != '#' {
      CleanKeepsWords(text);
    }
  }

  // ---------------------------------------------------------------- refactor_response

  /** The instruction of the second model call; the source's adjacent literals run "paragraphs." into "Fix". */
  const RefactorInstruction := "Please refactor the following text into a well-structured report with appropriate headings, bullet points, and paragraphs.Fix any grammatical errors and unusual spaces:\n\n"

  /** `refactor_response`: choose the provider, send the instruction and the text, with the text as context too. */
  function RefactorResponse(choice: string, apiKey: Credential, model: string, cleanedText: string, w: World): Run<Option<string>> {
    var provider := ProviderFor(choice, apiKey).value;
    MapResult(provider.SendPrompt(model, RefactorInstruction + cleanedText, cleanedText, w))
  }

  /** The `try`/`except` around the call: an exception becomes `None`, and the calls made stay as they were. */
  function MapResult(run: Run<Result<string, Exception>>): Run<Option<string>> {
    Run(ToOption(run.result), run.calls)
  }

  /**
   * One model call: to the local service at its default address, without a key, unless the
   * choice is exactly "OpenAI"; the prompt is the instruction followed by the text, and the
   * text is the additional context. `None` exactly when that call fails, its text otherwise.
   */
  lemma RefactorDispatch(choice: string, apiKey: Credential, model: string, cleanedText: string, w: World)
    ensures var run := RefactorResponse(choice, apiKey, model, cleanedText, w);
      var prompt := RefactorInstruction + cleanedText;
      && |run.calls| == 1
      && (run.calls[0].Post? <==> choice != "OpenAI")
      && (choice != "OpenAI" ==>
            var request := run.calls[0].request;
            && request == OllamaRequestFor(DefaultApiUrl, None, model, prompt, cleanedText)
            && run.result == ToOption(OllamaReply(w.post(request), w.parseJson)))
      && (choice == "OpenAI" ==> run == MapResult(OpenAISend(apiKey, model, prompt, cleanedText, w)))
  {
  }

}
