/**
 * String operations the hosts editors rely on: literal substring search
 * (Rust's `str::find` / `str::contains`), the newline trims used by the
 * block splice, line splitting as `BufRead::lines` does it, `join`, and
 * the whitespace test behind `str::trim`.
 */
module Text {
  import opened Wrappers

  /** `pat` occurs in `s` starting at index `i`. */
  predicate OccursAt(s: string, pat: string, i: nat)
  {
    i + |pat| <= |s| && s[i..i + |pat|] == pat
  }

  /** `pat` is a substring of `s`. */
  ghost predicate Contains(s: string, pat: string)
  {
    exists i: nat :: OccursAt(s, pat, i)
  }

  /** `pat` occurs in `s` at index `p` and nowhere else. */
  ghost predicate OnlyAt(s: string, pat: string, p: nat)
  {
    forall i: nat :: OccursAt(s, pat, i) <==> i == p
  }

  /** Leftmost occurrence of `pat` in `s` at or after `from`. */
  function FindFrom(s: string, pat: string, from: nat): (r: Option<nat>)
    decreases |s| - from
    ensures r.Some? ==> from <= r.value && OccursAt(s, pat, r.value)
    ensures r.Some? ==> forall j: nat :: from <= j < r.value ==> !OccursAt(s, pat, j)
    ensures r.None? ==> forall j: nat :: from <= j ==> !OccursAt(s, pat, j)
  {
    if from + |pat| > |s| then None
    else if s[from..from + |pat|] == pat then Some(from)
    else FindFrom(s, pat, from + 1)
  }

  /** Rust's `str::find`: the index of the leftmost occurrence of `pat`, if any. */
  function Find(s: string, pat: string): (r: Option<nat>)
    ensures r.Some? <==> Contains(s, pat)
    ensures r.Some? ==> OccursAt(s, pat, r.value)
    ensures r.Some? ==> forall j: nat :: j < r.value ==> !OccursAt(s, pat, j)
  {
    FindFrom(s, pat, 0)
  }

  /** `Find` returns the only occurrence when there is exactly one. */
  lemma FindOnly(s: string, pat: string, p: nat)
    requires OnlyAt(s, pat, p)
    ensures Find(s, pat) == Some(p)
  {
    assert OccursAt(s, pat, p);
    var r := Find(s, pat);
    assert r.Some? && OccursAt(s, pat, r.value);
  }

  /**
   * No occurrence of `pat` can straddle the seam between `a` and `b` when
   * one of the two characters at the seam does not appear in `pat`.
   */
  predicate SeamBlocks(a: string, b: string, pat: string)
  {
    |a| == 0 || |b| == 0 || a[|a| - 1] !in pat || b[0] !in pat
  }

  /** Occurrences in a concatenation are those of either side, when the seam blocks straddling. */
  lemma OccursInConcat(a: string, b: string, pat: string, i: nat)
    requires SeamBlocks(a, b, pat)
    ensures OccursAt(a + b, pat, i) <==> OccursAt(a, pat, i) || (|a| <= i && OccursAt(b, pat, i - |a|))
  {
    var s := a + b;
    if i + |pat| <= |a| {
      assert s[i..i + |pat|] == a[i..i + |pat|];
      if |a| <= i && i + |pat| <= |s| {
        assert s[i..i + |pat|] == b[i - |a|..i - |a| + |pat|];
      }
    } else if |a| <= i {
      if i + |pat| <= |s| {
        assert s[i..i + |pat|] == b[i - |a|..i - |a| + |pat|];
      }
    } else if i + |pat| <= |s| {
      // the window covers both a[|a| - 1] and b[0]
      var w := s[i..i + |pat|];
      assert w[|a| - 1 - i] == a[|a| - 1];
      assert w[|a| - i] == b[0];
    }
  }

  /** `Contains` distributes over a concatenation whose seam blocks straddling. */
  lemma ContainsConcat(a: string, b: string, pat: string)
    requires SeamBlocks(a, b, pat)
    ensures Contains(a + b, pat) <==> Contains(a, pat) || Contains(b, pat)
  {
    if Contains(a + b, pat) {
      var i: nat :| OccursAt(a + b, pat, i);
      OccursInConcat(a, b, pat, i);
    }
    if Contains(a, pat) {
      var i: nat :| OccursAt(a, pat, i);
      OccursInConcat(a, b, pat, i);
    }
    if Contains(b, pat) {
      var i: nat :| OccursAt(b, pat, i);
      OccursInConcat(a, b, pat, i + |a|);
    }
  }

  /** Appending to text without the pattern a part where it occurs once puts the first occurrence there. */
  lemma FindAppended(a: string, b: string, pat: string, p: nat)
    requires |b| > 0 && b[0] !in pat && !Contains(a, pat) && OnlyAt(b, pat, p)
    ensures Find(a + b, pat) == Some(|a| + p)
  {
    OnlyAtConcatRight(a, b, pat, p);
    FindOnly(a + b, pat, |a| + p);
  }

  /** A unique occurrence on the left survives appending text that does not contain the pattern. */
  lemma OnlyAtConcatLeft(a: string, b: string, pat: string, p: nat)
    requires SeamBlocks(a, b, pat) && OnlyAt(a, pat, p) && !Contains(b, pat)
    ensures OnlyAt(a + b, pat, p)
  {
    forall i: nat
      ensures OccursAt(a + b, pat, i) <==> i == p
    {
      OccursInConcat(a, b, pat, i);
      if |a| <= i && OccursAt(b, pat, i - |a|) {
        assert Contains(b, pat);
      }
    }
  }

  /** A unique occurrence on the right is shifted by the length of a pattern-free left part. */
  lemma OnlyAtConcatRight(a: string, b: string, pat: string, p: nat)
    requires SeamBlocks(a, b, pat) && !Contains(a, pat) && OnlyAt(b, pat, p)
    ensures OnlyAt(a + b, pat, |a| + p)
  {
    forall i: nat
      ensures OccursAt(a + b, pat, i) <==> i == |a| + p
    {
      OccursInConcat(a, b, pat, i);
      if OccursAt(a, pat, i) {
        assert Contains(a, pat);
      }
    }
  }

  /** A pattern whose first character does not appear in `s` does not occur in `s`. */
  lemma AbsentWhenHeadMissing(s: string, pat: string)
    requires |pat| > 0 && pat[0] !in s
    ensures !Contains(s, pat)
  {
    forall i: nat
      ensures !OccursAt(s, pat, i)
    {
      if i + |pat| <= |s| {
        assert s[i..i + |pat|][0] == s[i];
      }
    }
  }

  /** A pattern does not occur in a text shorter than itself. */
  lemma AbsentWhenShorter(s: string, pat: string)
    requires |s| < |pat|
    ensures !Contains(s, pat)
  {
  }

  /** An occurrence in a prefix is an occurrence in the whole. */
  lemma ContainsPrefix(s: string, n: nat, pat: string)
    requires n <= |s| && Contains(s[..n], pat)
    ensures Contains(s, pat)
  {
    var i: nat :| OccursAt(s[..n], pat, i);
    assert s[..n][i..i + |pat|] == s[i..i + |pat|];
    assert OccursAt(s, pat, i);
  }

  /** Rust's `trim_end_matches('\n')`: the longest prefix not ending in a newline. */
  function TrimEndNewlines(s: string): (r: string)
    ensures |r| <= |s| && r == s[..|r|]
    ensures forall k :: |r| <= k < |s| ==> s[k] == '\n'
    ensures |r| == 0 || r[|r| - 1] != '\n'
  {
    if |s| > 0 && s[|s| - 1] == '\n' then TrimEndNewlines(s[..|s| - 1]) else s
  }

  /** Rust's `trim_start_matches('\n')`: the longest suffix not starting with a newline. */
  function TrimStartNewlines(s: string): (r: string)
    ensures |r| <= |s| && r == s[|s| - |r|..]
    ensures forall k :: 0 <= k < |s| - |r| ==> s[k] == '\n'
    ensures |r| == 0 || r[0] != '\n'
  {
    if |s| > 0 && s[0] == '\n' then TrimStartNewlines(s[1..]) else s
  }

  /** Trailing newlines do not change the trimmed text. */
  lemma TrimEndNewlinesAppend(c: string)
    ensures TrimEndNewlines(c + "\n") == TrimEndNewlines(c)
  {
    assert (c + "\n")[..|c|] == c;
  }

  /** Trimming leading line breaks ignores one more line break in front. */
  lemma TrimStartNewlinesPrepend(c: string)
    ensures TrimStartNewlines("\n" + c) == TrimStartNewlines(c)
  {
    assert ("\n" + c)[1..] == c;
  }

  /** A single line break trims to nothing. */
  lemma TrimStartNewlinesLineBreak()
    ensures TrimStartNewlines("\n") == ""
  {
    assert "\n"[1..] == "";
  }

  /** `char::is_whitespace`: the Unicode White_Space property. */
  predicate IsWhitespace(c: char)
  {
    || ('\U{0009}' <= c <= '\U{000D}')
    || c == ' '
    || c == '\U{0085}'
    || c == '\U{00A0}'
    || c == '\U{1680}'
    || ('\U{2000}' <= c <= '\U{200A}')
    || c == '\U{2028}'
    || c == '\U{2029}'
    || c == '\U{202F}'
    || c == '\U{205F}'
    || c == '\U{3000}'
  }

  /** `line.trim().is_empty()`: the line holds only whitespace. */
  predicate IsBlank(line: string)
  {
    forall k :: 0 <= k < |line| ==> IsWhitespace(line[k])
  }

  /** Drops one carriage return that ends a line, as `BufRead::lines` does for CRLF endings. */
  function StripCarriageReturn(line: string): string
  {
    if |line| > 0 && line[|line| - 1] == '\r' then line[..|line| - 1] else line
  }

  /** The index of the first `'\n'` at or after `i`, or the end of the text when there is none. */
  function LineEndFrom(text: string, i: nat): (k: nat)
    requires i <= |text|
    ensures i <= k <= |text|
    decreases |text| - i
  {
    if i == |text| || text[i] == '\n' then i else LineEndFrom(text, i + 1)
  }

  /** The length of the first line: the index of the first `'\n'`, or the whole text when there is none. */
  function LineEnd(text: string): (k: nat)
    ensures k <= |text|
  {
    LineEndFrom(text, 0)
  }

  /** `LineEndFrom` stops at the first line break at or after `i`, or at the end of a text without one. */
  lemma {:induction false} LineEndFromSpec(text: string, i: nat)
    requires i <= |text|
    ensures forall j :: i <= j < LineEndFrom(text, i) ==> text[j] != '\n'
    ensures LineEndFrom(text, i) < |text| ==> text[LineEndFrom(text, i)] == '\n'
    decreases |text| - i
  {
    if i < |text| && text[i] != '\n' {
      LineEndFromSpec(text, i + 1);
    }
  }

  /** `LineEnd` stops at the first line break, or at the end of a text without one. */
  lemma LineEndSpec(text: string)
    ensures forall j :: 0 <= j < LineEnd(text) ==> text[j] != '\n'
    ensures LineEnd(text) < |text| ==> text[LineEnd(text)] == '\n'
  {
    LineEndFromSpec(text, 0);
  }

  /** A position holding a line break with none before it is where `LineEnd` stops. */
  lemma LineEndAt(text: string, k: nat)
    requires k < |text| && text[k] == '\n'
    requires forall j :: 0 <= j < k ==> text[j] != '\n'
    ensures LineEnd(text) == k
  {
    LineEndSpec(text);
  }

  /**
   * `BufRead::lines`: the text split at each `'\n'`, a `'\r'` right before
   * the `'\n'` removed, and no empty line produced after a final `'\n'`.
   */
  function ReadLines(text: string): seq<string>
    decreases |text|
  {
    if |text| == 0 then []
    else
      var k := LineEnd(text);
      if k == |text| then [text]
      else [StripCarriageReturn(text[..k])] + ReadLines(text[k + 1..])
  }

  /** No line holds a line break. */
  lemma {:induction false} ReadLinesBreakFree(text: string)
    ensures forall i :: 0 <= i < |ReadLines(text)| ==> '\n' !in ReadLines(text)[i]
    decreases |text|
  {
    var k := LineEnd(text);
    LineEndSpec(text);
    if |text| > 0 && k < |text| {
      var line := StripCarriageReturn(text[..k]);
      assert '\n' !in text[..k];
      assert '\n' !in line;
      ReadLinesBreakFree(text[k + 1..]);
    }
  }

  /** A line without line breaks, closed by one, reads as that line (when it does not end in a carriage return). */
  lemma ReadLinesOneLine(line: string)
    requires '\n' !in line && (|line| == 0 || line[|line| - 1] != '\r')
    ensures ReadLines(line + "\n") == [line]
  {
    var s := line + "\n";
    var n := |line|;
    assert LineEnd(s) == n by {
      assert s[n] == '\n';
      assert forall j :: 0 <= j < n ==> s[j] == line[j];
      LineEndAt(s, n);
    }
    assert s[..n] == line;
    assert s[n + 1..] == "";
  }

  /** Appending to text that holds a line break leaves its first line where it was. */
  lemma LineEndAppend(x: string, u: string)
    requires LineEnd(x) < |x|
    ensures LineEnd(x + u) == LineEnd(x)
  {
    var s := x + u;
    var k := LineEnd(x);
    LineEndSpec(x);
    assert forall j :: 0 <= j <= k ==> s[j] == x[j];
    LineEndAt(s, k);
  }

  /** Appending to text that holds a line break splits off the same first line. */
  lemma ReadLinesAppendStep(x: string, u: string)
    requires LineEnd(x) < |x|
    ensures ReadLines(x + u)
      == [StripCarriageReturn(x[..LineEnd(x)])] + ReadLines(x[LineEnd(x) + 1..] + u)
  {
    var k := LineEnd(x);
    LineEndAppend(x, u);
    assert (x + u)[..k] == x[..k];
    assert (x + u)[k + 1..] == x[k + 1..] + u;
    assert ReadLines(x + u) == [StripCarriageReturn(x[..k])] + ReadLines(x[k + 1..] + u);
  }

  /** Text closed by a line break splits off its first line before the end. */
  lemma ReadLinesClosed(x: string)
    requires |x| > 0 && x[|x| - 1] == '\n'
    ensures LineEnd(x) < |x|
    ensures ReadLines(x) == [StripCarriageReturn(x[..LineEnd(x)])] + ReadLines(x[LineEnd(x) + 1..])
  {
    var k := LineEnd(x);
    assert k < |x| by {
      LineEndSpec(x);
    }
    assert ReadLines(x) == [StripCarriageReturn(x[..k])] + ReadLines(x[k + 1..]);
  }

  /** Prepending one line is associative with concatenation. */
  lemma ConsAssoc(line: string, r: seq<string>, v: seq<string>)
    ensures [line] + (r + v) == ([line] + r) + v
  {
  }

  /** Text that is empty or closed by a line break reads as its own lines followed by those of what comes after. */
  lemma {:induction false} ReadLinesConcat(x: string, u: string)
    requires |x| == 0 || x[|x| - 1] == '\n'
    ensures ReadLines(x + u) == ReadLines(x) + ReadLines(u)
    decreases |x|
  {
    if |x| == 0 {
      assert x + u == u;
      assert ReadLines(x) == [];
    } else {
      ReadLinesClosed(x);
      ReadLinesAppendStep(x, u);
      var rest := x[LineEnd(x) + 1..];
      if |rest| > 0 {
        assert rest[|rest| - 1] == x[|x| - 1];
      }
      ReadLinesConcat(rest, u);
      ConsAssoc(StripCarriageReturn(x[..LineEnd(x)]), ReadLines(rest), ReadLines(u));
    }
  }

  /** Rust's `join`: the elements separated by `sep`. */
  function Join(lines: seq<string>, sep: string): string
  {
    if |lines| == 0 then ""
    else if |lines| == 1 then lines[0]
    else lines[0] + sep + Join(lines[1..], sep)
  }

  /** Some line contains `pat`. */
  ghost predicate SomeLineContains(lines: seq<string>, pat: string)
  {
    exists i :: 0 <= i < |lines| && Contains(lines[i], pat)
  }

  /** A pattern without carriage returns occurs in a line exactly when it occurs in the line stripped of its carriage return. */
  lemma StripKeepsContains(a: string, pat: string)
    requires |pat| > 0 && '\r' !in pat
    ensures Contains(StripCarriageReturn(a), pat) <==> Contains(a, pat)
  {
    var line := StripCarriageReturn(a);
    if line != a {
      assert a == line + "\r";
      ContainsConcat(line, "\r", pat);
      AbsentWhenHeadMissing("\r", pat);
    }
  }

  /** A pattern without line breaks occurs around a line break only on one of its sides. */
  lemma ContainsAroundBreak(a: string, b: string, pat: string)
    requires |pat| > 0 && '\n' !in pat
    ensures Contains(a + ("\n" + b), pat) <==> Contains(a, pat) || Contains(b, pat)
  {
    ContainsConcat(a, "\n" + b, pat);
    ContainsConcat("\n", b, pat);
    AbsentWhenHeadMissing("\n", pat);
  }

  /** Some line of `[line] + rest` contains the pattern exactly when `line` or a line of `rest` does. */
  lemma SomeLineContainsCons(line: string, rest: seq<string>, pat: string)
    ensures SomeLineContains([line] + rest, pat) <==> Contains(line, pat) || SomeLineContains(rest, pat)
  {
    var lines := [line] + rest;
    if SomeLineContains(lines, pat) {
      var i :| 0 <= i < |lines| && Contains(lines[i], pat);
      if i > 0 {
        assert lines[i] == rest[i - 1];
      }
    }
    if SomeLineContains(rest, pat) {
      var i :| 0 <= i < |rest| && Contains(rest[i], pat);
      assert lines[i + 1] == rest[i];
    }
    if Contains(line, pat) {
      assert lines[0] == line;
    }
  }

  /** A text is what comes before a line break in it, the break, and what comes after. */
  lemma BreakAt(text: string, k: nat)
    requires k < |text| && text[k] == '\n'
    ensures text == text[..k] + ("\n" + text[k + 1..])
  {
    assert text[k..] == [text[k]] + text[k + 1..];
    assert text == text[..k] + text[k..];
  }

  /** A text with a line break is its first line, the break, and the rest; it reads as the first line and the rest's lines. */
  lemma SplitFirstLine(text: string, k: nat)
    requires 0 < |text| && k == LineEnd(text) && k < |text|
    ensures text == text[..k] + ("\n" + text[k + 1..])
    ensures ReadLines(text) == [StripCarriageReturn(text[..k])] + ReadLines(text[k + 1..])
  {
    assert text[k] == '\n' by {
      LineEndSpec(text);
    }
    BreakAt(text, k);
  }

  /** The first-line step of `ReadLinesContains`: the property carries over from the rest of the text to the whole. */
  lemma ContainsFirstLine(text: string, k: nat, pat: string)
    requires |pat| > 0 && '\n' !in pat && '\r' !in pat
    requires 0 < |text| && k == LineEnd(text) && k < |text|
    requires SomeLineContains(ReadLines(text[k + 1..]), pat) <==> Contains(text[k + 1..], pat)
    ensures SomeLineContains(ReadLines(text), pat) <==> Contains(text, pat)
  {
    var a, b := text[..k], text[k + 1..];
    SplitFirstLine(text, k);
    SomeLineContainsCons(StripCarriageReturn(a), ReadLines(b), pat);
    StripKeepsContains(a, pat);
    ContainsAroundBreak(a, b, pat);
  }

  /**
   * A pattern free of line breaks occurs in a text exactly when it occurs
   * in one of the text's lines: splitting into lines neither hides nor
   * creates an occurrence.
   */
  lemma {:induction false} ReadLinesContains(text: string, pat: string)
    requires |pat| > 0 && '\n' !in pat && '\r' !in pat
    ensures SomeLineContains(ReadLines(text), pat) <==> Contains(text, pat)
    decreases |text|
  {
    var k := LineEnd(text);
    if |text| == 0 {
      AbsentWhenShorter(text, pat);
    } else if k == |text| {
      assert ReadLines(text) == [text] + [];
      SomeLineContainsCons(text, [], pat);
    } else {
      ReadLinesContains(text[k + 1..], pat);
      ContainsFirstLine(text, k, pat);
    }
  }

  /** Joining pattern-free lines with newlines creates no occurrence of a newline-free pattern. */
  lemma {:induction false} JoinAbsent(lines: seq<string>, pat: string)
    requires |pat| > 0 && '\n' !in pat
    requires forall i :: 0 <= i < |lines| ==> !Contains(lines[i], pat)
    ensures !Contains(Join(lines, "\n"), pat)
  {
    if |lines| > 1 {
      JoinAbsent(lines[1..], pat);
      var tail := Join(lines[1..], "\n");
      assert Join(lines, "\n") == lines[0] + ("\n" + tail);
      ContainsConcat(lines[0], "\n" + tail, pat);
      ContainsConcat("\n", tail, pat);
      AbsentWhenHeadMissing("\n", pat);
    }
  }
}
