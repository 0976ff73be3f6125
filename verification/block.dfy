/**
 * The managed block the desktop build appends to the hosts file: a blank
 * line, the start marker, an optional comment line, one `ip domain` line
 * per pair, and the end marker, each line newline-terminated. The lemmas
 * here locate the two markers inside a block, which is what the editor's
 * detection and splice depend on.
 */
module HostsBlock {
  import opened Wrappers
  import opened Text
  import opened Registry

  /** The line that opens the managed block. */
  const MarkerStart: string := "# === FREE_TO_GITHUB START ==="

  /** The line that closes the managed block. */
  const MarkerEnd: string := "# === FREE_TO_GITHUB END ==="

  /** The comment line the optimized block carries after the start marker. */
  const OptimizedHeader: string := "# Auto-optimized by Free to GitHub\n"

  /** The characters of a string other than its first are not `'#'`. */
  ghost predicate HashOnlyFirst(s: string)
  {
    forall k :: 1 <= k < |s| ==> s[k] != '#'
  }

  /** The character facts about the markers the occurrence proofs use. */
  lemma MarkerFacts()
    ensures |MarkerStart| == 30 && |MarkerEnd| == 28
    ensures MarkerStart[0] == '#' && MarkerEnd[0] == '#'
    ensures MarkerStart[2] == '=' && MarkerEnd[2] == '='
    ensures '\n' !in MarkerStart && '\n' !in MarkerEnd
    ensures HashOnlyFirst(MarkerStart) && HashOnlyFirst(MarkerEnd)
    ensures MarkerStart[21] != MarkerEnd[21]
  {
  }

  /** Neither marker holds a carriage return, so line splitting never cuts into one. */
  lemma MarkersSingleLine()
    ensures '\r' !in MarkerStart && '\r' !in MarkerEnd
    ensures |MarkerStart| > 0 && '\n' !in MarkerStart && '\n' !in MarkerEnd
  {
  }

  /** The character facts about the comment line the occurrence proofs use. */
  lemma HeaderFacts()
    ensures |OptimizedHeader| == 35 && OptimizedHeader[0] == '#' && OptimizedHeader[2] != '='
    ensures OptimizedHeader[34] == '\n'
    ensures HashOnlyFirst(OptimizedHeader)
  {
  }

  /** A pattern that starts with `'#'` can occur in such a string only at its start. */
  lemma HashPatternAtStart(s: string, pat: string)
    requires HashOnlyFirst(s) && |pat| > 0 && pat[0] == '#'
    ensures forall i: nat :: OccursAt(s, pat, i) ==> i == 0
  {
    forall i: nat | 0 < i
      ensures !OccursAt(s, pat, i)
    {
      if i + |pat| <= |s| {
        assert s[i..i + |pat|][0] == s[i];
      }
    }
  }

  /** Neither marker contains the other, and the comment line contains neither. */
  lemma MarkersApart()
    ensures !Contains(MarkerStart, MarkerEnd)
    ensures !Contains(MarkerEnd, MarkerStart)
    ensures !Contains(OptimizedHeader, MarkerStart)
    ensures !Contains(OptimizedHeader, MarkerEnd)
  {
    MarkerFacts();
    HeaderFacts();
    AbsentWhenShorter(MarkerEnd, MarkerStart);
    HashPatternAtStart(MarkerStart, MarkerEnd);
    HashPatternAtStart(OptimizedHeader, MarkerStart);
    HashPatternAtStart(OptimizedHeader, MarkerEnd);
    forall i: nat
      ensures !OccursAt(MarkerStart, MarkerEnd, i)
      ensures !OccursAt(OptimizedHeader, MarkerStart, i)
      ensures !OccursAt(OptimizedHeader, MarkerEnd, i)
    {
      if i == 0 {
        assert MarkerStart[0..|MarkerEnd|][21] == MarkerStart[21];
        assert OptimizedHeader[0..|MarkerStart|][2] == OptimizedHeader[2];
        assert OptimizedHeader[0..|MarkerEnd|][2] == OptimizedHeader[2];
      }
    }
  }

  /** The header of a block: none (the default block) or the optimized comment line. */
  predicate IsHeader(header: string)
  {
    header == "" || header == OptimizedHeader
  }

  /** Every pair is an address and a domain, both host tokens. */
  ghost predicate PairsAreTokens(pairs: seq<(string, string)>)
  {
    forall k :: 0 <= k < |pairs| ==> IsHostToken(pairs[k].0) && IsHostToken(pairs[k].1)
  }

  /** The host tokens of two lists are those of their concatenation. */
  lemma PairsAreTokensConcat(a: seq<(string, string)>, b: seq<(string, string)>)
    requires PairsAreTokens(a) && PairsAreTokens(b)
    ensures PairsAreTokens(a + b)
  {
    forall k | 0 <= k < |a + b|
      ensures IsHostToken((a + b)[k].0) && IsHostToken((a + b)[k].1)
    {
      if k >= |a| {
        assert (a + b)[k] == b[k - |a|];
      }
    }
  }

  /** One hosts line: `ip domain`, newline-terminated. */
  function HostLine(ip: string, domain: string): string
  {
    ip + " " + domain + "\n"
  }

  /** The hosts lines of `pairs`, in order. */
  function HostLines(pairs: seq<(string, string)>): (r: string)
    ensures |r| == 0 <==> |pairs| == 0
    ensures |r| > 0 ==> r[|r| - 1] == '\n'
  {
    if |pairs| == 0 then ""
    else HostLine(pairs[0].0, pairs[0].1) + HostLines(pairs[1..])
  }

  /** Lines built from host tokens contain no `'#'`, so neither marker occurs in them. */
  lemma {:induction false} HostLinesHashFree(pairs: seq<(string, string)>)
    requires PairsAreTokens(pairs)
    ensures '#' !in HostLines(pairs)
    ensures !Contains(HostLines(pairs), MarkerStart) && !Contains(HostLines(pairs), MarkerEnd)
  {
    if |pairs| > 0 {
      HostLinesHashFree(pairs[1..]);
      var ip := pairs[0].0;
      var domain := pairs[0].1;
      assert IsHostToken(ip) && IsHostToken(domain);
      assert '#' !in ip && '#' !in domain;
      assert '#' !in HostLine(ip, domain);
    }
    MarkerFacts();
    AbsentWhenHeadMissing(HostLines(pairs), MarkerStart);
    AbsentWhenHeadMissing(HostLines(pairs), MarkerEnd);
  }

  /** The managed block with the given header and pairs. */
  function Block(header: string, pairs: seq<(string, string)>): string
  {
    "\n" + MarkerStart + "\n" + header + HostLines(pairs) + MarkerEnd + "\n"
  }

  /**
   * `s` opens with a line break, the start marker line and `header`, and
   * closes with the end marker line.
   */
  predicate IsFramed(s: string, header: string)
  {
    && |s| >= |MarkerStart| + |MarkerEnd| + 3 + |header|
    && s[..|MarkerStart| + 2 + |header|] == "\n" + MarkerStart + "\n" + header
    && s[|s| - |MarkerEnd| - 1..] == MarkerEnd + "\n"
  }

  /** Every block has the frame of its header, whatever its pairs. */
  lemma BlockFrame(header: string, pairs: seq<(string, string)>)
    ensures IsFramed(Block(header, pairs), header)
  {
    var open := "\n" + MarkerStart + "\n" + header;
    var close := MarkerEnd + "\n";
    var b := Block(header, pairs);
    assert b == open + (HostLines(pairs) + close);
    assert b[..|open|] == open;
    assert b == (open + HostLines(pairs)) + close;
    assert b[|b| - |close|..] == close;
  }

  /** A framed text starts with a line break followed by the start marker, and ends with a line break. */
  lemma FramedStart(s: string, header: string)
    requires IsFramed(s, header)
    ensures |s| > 0 && s[0] == '\n' && s[|s| - 1] == '\n' && OccursAt(s, MarkerStart, 1)
  {
    assert s[|s| - |MarkerEnd| - 1..][|MarkerEnd|] == s[|s| - 1];
    var open := "\n" + MarkerStart + "\n" + header;
    var pre := s[..|open|];
    assert pre[1..1 + |MarkerStart|] == MarkerStart;
    assert forall k :: 1 <= k < 1 + |MarkerStart| ==> s[k] == pre[k];
    assert s[1..1 + |MarkerStart|] == pre[1..1 + |MarkerStart|];
  }

  /** The part of a block between the start marker and the end marker, both line breaks included. */
  function Inner(header: string, pairs: seq<(string, string)>): (r: string)
    requires IsHeader(header)
    ensures |r| > 0 && r[0] == '\n' && r[|r| - 1] == '\n'
  {
    HeaderFacts();
    "\n" + header + HostLines(pairs)
  }

  /** Neither marker occurs between the markers. */
  lemma InnerMarkerFree(header: string, pairs: seq<(string, string)>)
    requires IsHeader(header) && PairsAreTokens(pairs)
    ensures !Contains(Inner(header, pairs), MarkerStart)
    ensures !Contains(Inner(header, pairs), MarkerEnd)
  {
    MarkerFacts();
    MarkersApart();
    HostLinesHashFree(pairs);
    var nl := "\n";
    AbsentWhenShorter(nl, MarkerStart);
    AbsentWhenShorter(nl, MarkerEnd);
    assert !Contains(header, MarkerStart) && !Contains(header, MarkerEnd) by {
      if header == "" {
        AbsentWhenShorter(header, MarkerStart);
        AbsentWhenShorter(header, MarkerEnd);
      }
    }
    ContainsConcat(nl, header, MarkerStart);
    ContainsConcat(nl, header, MarkerEnd);
    var h := nl + header;
    assert h[|h| - 1] == '\n' by {
      HeaderFacts();
    }
    ContainsConcat(h, HostLines(pairs), MarkerStart);
    ContainsConcat(h, HostLines(pairs), MarkerEnd);
    assert Inner(header, pairs) == h + HostLines(pairs);
  }

  /** In a frame `"\n" + open + inner + close + "\n"`, the opening line occurs only at 1. */
  lemma FrameOpenOnly(open: string, inner: string, close: string)
    requires |open| > 0 && '\n' !in open && |close| + 1 < |open|
    requires |inner| > 0 && inner[0] == '\n' && inner[|inner| - 1] == '\n'
    requires !Contains(inner, open)
    ensures OnlyAt("\n" + open + inner + close + "\n", open, 1)
  {
    var nl := "\n";
    var last := close + nl;
    var tail := inner + last;
    AbsentWhenShorter(nl, open);
    AbsentWhenShorter(last, open);
    ContainsConcat(inner, last, open);
    assert OnlyAt(open, open, 0);
    OnlyAtConcatLeft(open, tail, open, 0);
    OnlyAtConcatRight(nl, open + tail, open, 0);
    assert nl + open + inner + close + nl == nl + (open + tail);
  }

  /**
   * In a frame `"\n" + open + inner + close + "\n"` whose inner part starts
   * and ends with a line break, the closing line occurs only right before
   * the final line break.
   */
  lemma FrameCloseOnly(open: string, inner: string, close: string)
    requires |close| > 0 && '\n' !in close
    requires |inner| > 0 && inner[0] == '\n' && inner[|inner| - 1] == '\n'
    requires !Contains(open, close) && !Contains(inner, close)
    ensures OnlyAt("\n" + open + inner + close + "\n", close, |open| + |inner| + 1)
  {
    var nl := "\n";
    AbsentWhenHeadMissing(nl, close);
    var head := nl + open;
    ContainsConcat(nl, open, close);
    ContainsConcat(head, inner, close);
    var front := head + inner;
    var last := close + nl;
    assert OnlyAt(last, close, 0) by {
      forall i: nat
        ensures OccursAt(last, close, i) <==> i == 0
      {
        assert last[0..|close|] == close;
      }
    }
    OnlyAtConcatRight(front, last, close, 0);
    assert nl + open + inner + close + nl == front + last;
  }

  /** The block is the frame of the two markers around its inner part. */
  lemma BlockIsFrame(header: string, pairs: seq<(string, string)>)
    requires IsHeader(header)
    ensures Block(header, pairs) == "\n" + MarkerStart + Inner(header, pairs) + MarkerEnd + "\n"
  {
  }

  /** The start marker occurs exactly once in a block, right after the leading line break. */
  lemma BlockStartMarker(header: string, pairs: seq<(string, string)>)
    requires IsHeader(header) && PairsAreTokens(pairs)
    ensures OnlyAt(Block(header, pairs), MarkerStart, 1)
  {
    MarkerFacts();
    InnerMarkerFree(header, pairs);
    BlockIsFrame(header, pairs);
    FrameOpenOnly(MarkerStart, Inner(header, pairs), MarkerEnd);
  }

  /** The end marker occurs exactly once in a block, right before the final line break. */
  lemma BlockEndMarker(header: string, pairs: seq<(string, string)>)
    requires IsHeader(header) && PairsAreTokens(pairs)
    ensures OnlyAt(Block(header, pairs), MarkerEnd, |Block(header, pairs)| - |MarkerEnd| - 1)
  {
    MarkerFacts();
    MarkersApart();
    InnerMarkerFree(header, pairs);
    BlockIsFrame(header, pairs);
    FrameCloseOnly(MarkerStart, Inner(header, pairs), MarkerEnd);
  }
}
