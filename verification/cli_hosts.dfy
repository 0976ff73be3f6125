/**
 * The command-line build's hosts editor. Unlike the desktop build it works
 * on the file's lines: a file is enabled when some line holds the start
 * marker, enabling appends the block only when the file is not enabled,
 * and disabling filters the lines with a skip flag, drops trailing blank
 * lines and joins the rest with line breaks. The list of `ip domain`
 * pairs the block carries is a parameter; `GithubHosts` is the program's.
 */
module CliHosts {
  import opened Wrappers
  import opened Text
  import opened HostsBlock
  import opened Registry

  /** `line.contains(MARKER_START)`. */
  predicate HasStart(line: string)
  {
    Find(line, MarkerStart).Some?
  }

  /** `line.contains(MARKER_END)`. */
  predicate HasEnd(line: string)
  {
    Find(line, MarkerEnd).Some?
  }

  /** The lines' `any(|line| line.contains(MARKER_START))`. */
  function AnyStart(lines: seq<string>): (b: bool)
    ensures b <==> SomeLineContains(lines, MarkerStart)
  {
    if |lines| == 0 then false
    else
      var rest := AnyStart(lines[1..]);
      assert SomeLineContains(lines, MarkerStart)
        <==> Contains(lines[0], MarkerStart) || SomeLineContains(lines[1..], MarkerStart) by {
        if SomeLineContains(lines[1..], MarkerStart) {
          var i :| 0 <= i < |lines[1..]| && Contains(lines[1..][i], MarkerStart);
          assert lines[i + 1] == lines[1..][i];
        }
        if SomeLineContains(lines, MarkerStart) && !Contains(lines[0], MarkerStart) {
          var i :| 0 <= i < |lines| && Contains(lines[i], MarkerStart);
          assert lines[1..][i - 1] == lines[i];
        }
      }
      HasStart(lines[0]) || rest
  }

  /** `is_enabled`: whether some line of the file holds the start marker; a missing file is an error. */
  function IsEnabled(file: HostsFile): (r: Result<bool>)
    ensures file.Missing? ==> r == Err(NotFound)
    ensures file.Unreadable? ==> r == Err(PermissionDenied)
    ensures file.Present? ==> r.Ok? && (r.value <==> SomeLineContains(ReadLines(file.text), MarkerStart))
  {
    match file
    case Missing => Err(NotFound)
    case Unreadable => Err(PermissionDenied)
    case Present(text) => Ok(AnyStart(ReadLines(text)))
  }

  /** Reading by lines loses no occurrence of the start marker and invents none. */
  lemma IsEnabledIffContains(text: string)
    ensures IsEnabled(Present(text)) == Ok(Contains(text, MarkerStart))
  {
    MarkersSingleLine();
    ReadLinesContains(text, MarkerStart);
  }

  // ---------------------------------------------------------------------
  // Enable.
  // ---------------------------------------------------------------------

  /**
   * `enable`: `Ok(None)` when the file is already enabled (nothing is
   * written), otherwise the file's text with the block of `hosts`
   * appended: a blank line, the start marker, one line per pair, the end
   * marker.
   */
  function Enable(file: HostsFile, hosts: seq<(string, string)>): (r: Result<Option<string>>)
    ensures !file.Present? ==> r == Err(IsEnabled(file).error)
    ensures file.Present? && IsEnabled(file) == Ok(true) ==> r == Ok(None)
    ensures file.Present? && IsEnabled(file) == Ok(false) ==> r == Ok(Some(file.text + Block("", hosts)))
  {
    match file
    case Missing => Err(NotFound)
    case Unreadable => Err(PermissionDenied)
    case Present(text) =>
      if AnyStart(ReadLines(text)) then Ok(None) else Ok(Some(text + Block("", hosts)))
  }

  /** After a write by `enable` the file reads as enabled. */
  lemma EnableEnables(text: string, hosts: seq<(string, string)>)
    requires Enable(Present(text), hosts).Ok? && Enable(Present(text), hosts).value.Some?
    ensures IsEnabled(Present(Enable(Present(text), hosts).value.value)) == Ok(true)
  {
    var b := Block("", hosts);
    var t := text + b;
    assert Enable(Present(text), hosts).value.value == t;
    BlockFrame("", hosts);
    FramedStart(b, "");
    MarkersSingleLine();
    OccursInConcat(text, b, MarkerStart, |text| + 1);
    IsEnabledIffContains(t);
  }

  /** A second `enable` writes nothing: the block is appended at most once. */
  lemma EnableTwiceWritesOnce(text: string, hosts: seq<(string, string)>)
    requires Enable(Present(text), hosts).Ok? && Enable(Present(text), hosts).value.Some?
    ensures Enable(Present(Enable(Present(text), hosts).value.value), hosts) == Ok(None)
  {
    EnableEnables(text, hosts);
  }

  // ---------------------------------------------------------------------
  // Disable.
  // ---------------------------------------------------------------------

  /**
   * The skip-flag loop of `disable` over `lines`, entered with flag
   * `skip`: a start-marker line raises the flag, an end-marker line lowers
   * it, both are dropped, and any other line is kept while the flag is down.
   */
  function FilterFrom(lines: seq<string>, skip: bool): (r: seq<string>)
    ensures |r| <= |lines|
    ensures forall k :: 0 <= k < |r| ==> !HasStart(r[k]) && !HasEnd(r[k])
  {
    if |lines| == 0 then []
    else
      var line := lines[0];
      if HasStart(line) then FilterFrom(lines[1..], true)
      else if HasEnd(line) then FilterFrom(lines[1..], false)
      else if !skip then [line] + FilterFrom(lines[1..], skip)
      else FilterFrom(lines[1..], skip)
  }

  /** The lines `disable` keeps, the flag starting down. */
  function FilterLines(lines: seq<string>): seq<string>
  {
    FilterFrom(lines, false)
  }

  /** `while last().trim().is_empty() { pop() }`: the lines without their blank tail. */
  function DropTrailingBlank(lines: seq<string>): (r: seq<string>)
    ensures |r| <= |lines| && r == lines[..|r|]
    ensures forall k :: |r| <= k < |lines| ==> IsBlank(lines[k])
    ensures |r| == 0 || !IsBlank(r[|r| - 1])
  {
    if |lines| > 0 && IsBlank(lines[|lines| - 1]) then DropTrailingBlank(lines[..|lines| - 1]) else lines
  }

  /** The text `disable` writes for the file's lines: the kept lines without blank tail, joined by line breaks. */
  function DisableLines(lines: seq<string>): string
  {
    Join(DropTrailingBlank(FilterLines(lines)), "\n")
  }

  /**
   * `disable`: `Ok(None)` when the file is not enabled (nothing is
   * written), otherwise the new text of the file.
   */
  function Disable(file: HostsFile): (r: Result<Option<string>>)
    ensures !file.Present? ==> r == Err(IsEnabled(file).error)
    ensures file.Present? && IsEnabled(file) == Ok(false) ==> r == Ok(None)
    ensures file.Present? && IsEnabled(file) == Ok(true) ==> r == Ok(Some(DisableLines(ReadLines(file.text))))
  {
    match file
    case Missing => Err(NotFound)
    case Unreadable => Err(PermissionDenied)
    case Present(text) =>
      var lines := ReadLines(text);
      if !AnyStart(lines) then Ok(None) else Ok(Some(DisableLines(lines)))
  }

  /** After a write by `disable` the file no longer reads as enabled. */
  lemma DisableDisables(text: string)
    requires Disable(Present(text)).Ok? && Disable(Present(text)).value.Some?
    ensures IsEnabled(Present(Disable(Present(text)).value.value)) == Ok(false)
  {
    var kept := DropTrailingBlank(FilterLines(ReadLines(text)));
    var t := Join(kept, "\n");
    assert Disable(Present(text)).value.value == t;
    forall i | 0 <= i < |kept|
      ensures !Contains(kept[i], MarkerStart)
    {
      assert !HasStart(kept[i]);
    }
    MarkersSingleLine();
    JoinAbsent(kept, MarkerStart);
    IsEnabledIffContains(t);
  }

  // ---------------------------------------------------------------------
  // Enable, then disable.
  // ---------------------------------------------------------------------

  /** Neither marker is in `s`. */
  ghost predicate MarkerFree(s: string)
  {
    !Contains(s, MarkerStart) && !Contains(s, MarkerEnd)
  }

  /** No line holds a marker. */
  ghost predicate PlainLines(lines: seq<string>)
  {
    forall k :: 0 <= k < |lines| ==> !HasStart(lines[k]) && !HasEnd(lines[k])
  }

  /** While the flag is down, lines holding no marker pass the filter unchanged. */
  lemma {:induction false} FilterFromPlain(a: seq<string>, b: seq<string>)
    requires PlainLines(a)
    ensures FilterFrom(a + b, false) == a + FilterFrom(b, false)
    decreases |a|
  {
    if |a| == 0 {
      assert a + b == b;
    } else {
      var line := a[0];
      assert (a + b)[0] == line && !HasStart(line) && !HasEnd(line);
      assert (a + b)[1..] == a[1..] + b;
      assert FilterFrom(a + b, false) == [line] + FilterFrom(a[1..] + b, false);
      FilterFromPlain(a[1..], b);
      assert a == [line] + a[1..];
    }
  }

  /** While the flag is up, lines holding no marker are dropped. */
  lemma {:induction false} FilterFromSkipped(h: seq<string>, b: seq<string>)
    requires PlainLines(h)
    ensures FilterFrom(h + b, true) == FilterFrom(b, true)
    decreases |h|
  {
    if |h| == 0 {
      assert h + b == b;
    } else {
      assert (h + b)[0] == h[0];
      assert (h + b)[1..] == h[1..] + b;
      FilterFromSkipped(h[1..], b);
    }
  }

  /** A text holding neither marker splits into lines holding neither. */
  lemma MarkerFreeLines(text: string)
    requires MarkerFree(text)
    ensures PlainLines(ReadLines(text))
  {
    MarkersSingleLine();
    ReadLinesContains(text, MarkerStart);
    ReadLinesContains(text, MarkerEnd);
  }

  /** Closing a marker-free text with a line break keeps it marker-free. */
  lemma MarkerFreeClosed(text: string)
    requires MarkerFree(text)
    ensures MarkerFree(text + "\n")
  {
    MarkersSingleLine();
    ContainsConcat(text, "\n", MarkerStart);
    ContainsConcat(text, "\n", MarkerEnd);
    AbsentWhenShorter("\n", MarkerStart);
    AbsentWhenShorter("\n", MarkerEnd);
  }

  /** The lines of the appended block after its opening line break: the start marker, the host lines, the end marker. */
  lemma ReadLinesBlockBody(hosts: seq<(string, string)>)
    ensures ReadLines((MarkerStart + "\n") + (HostLines(hosts) + (MarkerEnd + "\n")))
      == [MarkerStart] + (ReadLines(HostLines(hosts)) + [MarkerEnd])
  {
    var hl := HostLines(hosts);
    MarkersSingleLine();
    ReadLinesConcat(MarkerStart + "\n", hl + (MarkerEnd + "\n"));
    ReadLinesConcat(hl, MarkerEnd + "\n");
    ReadLinesOneLine(MarkerStart);
    ReadLinesOneLine(MarkerEnd);
  }

  /** Regrouping the pieces of an appended block at its line breaks. */
  lemma BlockRegroup(text: string, start: string, lines: string, end: string)
    ensures text + ("\n" + start + "\n" + "" + lines + end + "\n")
      == (text + "\n") + ((start + "\n") + (lines + (end + "\n")))
  {
  }

  /** The lines of an enabled text: the text's own lines, the start marker, the host lines, the end marker. */
  lemma ReadLinesEnabled(text: string, hosts: seq<(string, string)>)
    ensures ReadLines(text + Block("", hosts))
      == ReadLines(text + "\n") + ([MarkerStart] + (ReadLines(HostLines(hosts)) + [MarkerEnd]))
  {
    var body := (MarkerStart + "\n") + (HostLines(hosts) + (MarkerEnd + "\n"));
    BlockRegroup(text, MarkerStart, HostLines(hosts), MarkerEnd);
    ReadLinesConcat(text + "\n", body);
    ReadLinesBlockBody(hosts);
  }

  /** The filter drops the whole appended block and keeps the lines before it. */
  lemma FilterEnabled(a: seq<string>, h: seq<string>)
    requires PlainLines(a) && PlainLines(h)
    ensures FilterLines(a + ([MarkerStart] + (h + [MarkerEnd]))) == a
  {
    MarkerFacts();
    MarkersApart();
    assert OccursAt(MarkerStart, MarkerStart, 0) by {
      assert MarkerStart[0..|MarkerStart|] == MarkerStart;
    }
    assert OccursAt(MarkerEnd, MarkerEnd, 0) by {
      assert MarkerEnd[0..|MarkerEnd|] == MarkerEnd;
    }
    assert HasStart(MarkerStart) && HasEnd(MarkerEnd) && !HasStart(MarkerEnd);
    var rest := [MarkerStart] + (h + [MarkerEnd]);
    FilterFromPlain(a, rest);
    assert rest[0] == MarkerStart && rest[1..] == h + [MarkerEnd];
    FilterFromSkipped(h, [MarkerEnd]);
    assert [MarkerEnd][1..] == [];
    assert a + [] == a;
  }

  /**
   * The command-line round trip: a file holding neither marker is
   * enabled by appending the block, and disabling the result writes the
   * file's own lines back, joined by line breaks, without blank lines at
   * the end (so a final line break of the original is not restored).
   */
  lemma EnableThenDisable(text: string, hosts: seq<(string, string)>)
    requires PairsAreTokens(hosts) && MarkerFree(text)
    ensures Enable(Present(text), hosts) == Ok(Some(text + Block("", hosts)))
    ensures Disable(Present(text + Block("", hosts)))
      == Ok(Some(Join(DropTrailingBlank(ReadLines(text + "\n")), "\n")))
  {
    IsEnabledIffContains(text);
    EnableEnables(text, hosts);
    var a := ReadLines(text + "\n");
    var h := ReadLines(HostLines(hosts));
    ReadLinesEnabled(text, hosts);
    MarkerFreeClosed(text);
    MarkerFreeLines(text + "\n");
    HostLinesHashFree(hosts);
    MarkerFreeLines(HostLines(hosts));
    FilterEnabled(a, h);
  }

  /** A one-line file holding neither marker comes back exactly from enabling and then disabling. */
  lemma EnableThenDisableOneLine(line: string, hosts: seq<(string, string)>)
    requires PairsAreTokens(hosts) && MarkerFree(line)
    requires '\n' !in line && '\r' !in line && !IsBlank(line)
    ensures Disable(Present(line + Block("", hosts))) == Ok(Some(line))
  {
    EnableThenDisable(line, hosts);
    ReadLinesOneLine(line);
  }

  // ---------------------------------------------------------------------
  // The reference definition of the lines `disable` keeps.
  // ---------------------------------------------------------------------

  /** How the filter sees a line; a line holding both markers counts as a start line. */
  datatype LineKind = StartLine | EndLine | PlainLine

  /** The kind of `line`. */
  function Kind(line: string): LineKind
  {
    if HasStart(line) then StartLine else if HasEnd(line) then EndLine else PlainLine
  }

  /** The kinds of `lines`, one per line. */
  function Kinds(lines: seq<string>): (r: seq<LineKind>)
    ensures |r| == |lines|
    ensures forall k :: 0 <= k < |lines| ==> r[k] == Kind(lines[k])
  {
    seq(|lines|, k requires 0 <= k < |lines| => Kind(lines[k]))
  }

  /**
   * Position `i` of a run of line kinds lies inside a block: the closest
   * non-plain line before it is a start line.
   */
  ghost predicate InsideAt(kinds: seq<LineKind>, i: int)
  {
    exists j :: 0 <= j < i <= |kinds| && kinds[j] == StartLine
      && forall k :: j < k < i ==> kinds[k] == PlainLine
  }

  /** Line `i` lies inside a block. */
  ghost predicate InsideBlock(lines: seq<string>, i: int)
  {
    InsideAt(Kinds(lines), i)
  }

  /** Line `i` survives the filter: it holds no marker and lies outside every block. */
  ghost predicate Kept(lines: seq<string>, i: int)
  {
    0 <= i < |lines| && Kind(lines[i]) == PlainLine && !InsideBlock(lines, i)
  }

  /** The kept lines from index `i` on, in order. */
  ghost function KeptFrom(lines: seq<string>, i: nat): seq<string>
    requires i <= |lines|
    decreases |lines| - i
  {
    if i == |lines| then []
    else (if Kept(lines, i) then [lines[i]] else []) + KeptFrom(lines, i + 1)
  }

  /** Whether position `i + 1` is inside a block follows from position `i` alone. */
  lemma InsideAtStep(kinds: seq<LineKind>, i: nat)
    requires i < |kinds|
    ensures InsideAt(kinds, i + 1) <==>
      kinds[i] == StartLine || (kinds[i] == PlainLine && InsideAt(kinds, i))
  {
    if kinds[i] == StartLine {
      assert InsideAt(kinds, i + 1);
    } else if kinds[i] == EndLine {
      OutsideAfterEnd(kinds, i);
    } else {
      if InsideAt(kinds, i + 1) {
        InsideBeforePlain(kinds, i);
      }
      if InsideAt(kinds, i) {
        InsideAfterPlain(kinds, i);
      }
    }
  }

  /** An end line closes the block. */
  lemma OutsideAfterEnd(kinds: seq<LineKind>, i: nat)
    requires i < |kinds| && kinds[i] == EndLine
    ensures !InsideAt(kinds, i + 1)
  {
    forall j | 0 <= j < i + 1 && kinds[j] == StartLine
      ensures exists k :: j < k < i + 1 && kinds[k] != PlainLine
    {
      assert j < i && kinds[i] != PlainLine;
    }
  }

  /** Inside a block after a plain line means inside it before that line. */
  lemma InsideBeforePlain(kinds: seq<LineKind>, i: nat)
    requires i < |kinds| && kinds[i] == PlainLine && InsideAt(kinds, i + 1)
    ensures InsideAt(kinds, i)
  {
    var j :| 0 <= j < i + 1 <= |kinds| && kinds[j] == StartLine
      && forall k :: j < k < i + 1 ==> kinds[k] == PlainLine;
    assert j < i;
  }

  /** Inside a block before a plain line means inside it after that line. */
  lemma InsideAfterPlain(kinds: seq<LineKind>, i: nat)
    requires i < |kinds| && kinds[i] == PlainLine && InsideAt(kinds, i)
    ensures InsideAt(kinds, i + 1)
  {
    var j :| 0 <= j < i <= |kinds| && kinds[j] == StartLine
      && forall k :: j < k < i ==> kinds[k] == PlainLine;
    assert forall k :: j < k < i + 1 ==> kinds[k] == PlainLine;
  }

  /**
   * Whether line `i + 1` is inside a block follows from line `i` alone: a
   * start line opens the block, an end line closes it, a plain line
   * leaves it as it was.
   */
  lemma InsideBlockStep(lines: seq<string>, i: nat)
    requires i < |lines|
    ensures InsideBlock(lines, i + 1) <==>
      HasStart(lines[i]) || (!HasEnd(lines[i]) && InsideBlock(lines, i))
  {
    InsideAtStep(Kinds(lines), i);
  }

  /** The loop from line `i` on, with the flag it has reached there, keeps exactly the kept lines. */
  lemma {:induction false} FilterFromMatchesKept(lines: seq<string>, i: nat)
    requires i <= |lines|
    ensures FilterFrom(lines[i..], InsideBlock(lines, i)) == KeptFrom(lines, i)
    decreases |lines| - i
  {
    if i < |lines| {
      FilterFromMatchesKept(lines, i + 1);
      InsideBlockStep(lines, i);
      assert lines[i..][1..] == lines[i + 1..];
      assert lines[i..][0] == lines[i];
    }
  }

  /**
   * `disable`'s filter keeps exactly the lines that hold no marker and
   * lie outside every block, in their original order.
   */
  lemma FilterLinesMatchesKept(lines: seq<string>)
    ensures FilterLines(lines) == KeptFrom(lines, 0)
  {
    FilterFromMatchesKept(lines, 0);
    assert lines[0..] == lines;
    assert !InsideBlock(lines, 0);
  }

  /** After a start line with no end line following it, every position is inside the block. */
  lemma OpenToTheEnd(kinds: seq<LineKind>, i: nat)
    requires i < |kinds| && kinds[i] == StartLine
    requires forall k :: i < k < |kinds| ==> kinds[k] != EndLine
    ensures forall k :: i < k <= |kinds| ==> InsideAt(kinds, k)
  {
    forall k | i < k <= |kinds|
      ensures InsideAt(kinds, k)
    {
      var j := k - 1;
      while kinds[j] != StartLine
        invariant i <= j < k
        invariant forall m :: j < m < k ==> kinds[m] == PlainLine
        decreases j
      {
        j := j - 1;
      }
    }
  }

  /** A start marker with no end-marker line after it drops every line that follows. */
  lemma UnmatchedStartDropsRest(lines: seq<string>, i: nat)
    requires i < |lines| && HasStart(lines[i])
    requires forall k :: i < k < |lines| ==> !HasEnd(lines[k]) || HasStart(lines[k])
    ensures forall k :: i <= k < |lines| ==> !Kept(lines, k)
  {
    OpenToTheEnd(Kinds(lines), i);
  }

  /** `GITHUB_HOSTS`: the pairs the command-line block lists, several addresses per domain, in order. */
  function GithubHosts(): (r: seq<(string, string)>)
    ensures |r| == 24 && r[0] == ("140.82.113.4", "github.com")
  {
    GithubHostsA() + GithubHostsB() + GithubHostsC() + GithubHostsD()
      + GithubHostsE() + GithubHostsF() + GithubHostsG() + GithubHostsH()
  }

  /** The command-line pairs of the main site, the gist host and the first asset CDN address. */
  function GithubHostsA(): (r: seq<(string, string)>)
    ensures |r| == 3 && PairsAreTokens(r)
  {
    HostTokenOfLength("140.82.113.4", 12);
    HostTokenOfLength("github.com", 10);
    HostTokenOfLength("140.82.114.4", 12);
    HostTokenOfLength("gist.github.com", 15);
    HostTokenOfLength("185.199.108.153", 15);
    HostTokenOfLength("assets-cdn.github.com", 21);
    [
      ("140.82.113.4", "github.com"),
      ("140.82.114.4", "gist.github.com"),
      ("185.199.108.153", "assets-cdn.github.com")
    ]
  }

  /** The command-line pairs of the remaining asset CDN addresses. */
  function GithubHostsB(): (r: seq<(string, string)>)
    ensures |r| == 3 && PairsAreTokens(r)
  {
    HostTokenOfLength("185.199.109.153", 15);
    HostTokenOfLength("assets-cdn.github.com", 21);
    HostTokenOfLength("185.199.110.153", 15);
    HostTokenOfLength("185.199.111.153", 15);
    [
      ("185.199.109.153", "assets-cdn.github.com"),
      ("185.199.110.153", "assets-cdn.github.com"),
      ("185.199.111.153", "assets-cdn.github.com")
    ]
  }

  /** The command-line pairs of the Fastly edge and the first raw-content addresses. */
  function GithubHostsC(): (r: seq<(string, string)>)
    ensures |r| == 3 && PairsAreTokens(r)
  {
    HostTokenOfLength("199.232.69.194", 14);
    HostTokenOfLength("github.global.ssl.fastly.net", 28);
    HostTokenOfLength("185.199.108.133", 15);
    HostTokenOfLength("raw.githubusercontent.com", 25);
    HostTokenOfLength("185.199.109.133", 15);
    [
      ("199.232.69.194", "github.global.ssl.fastly.net"),
      ("185.199.108.133", "raw.githubusercontent.com"),
      ("185.199.109.133", "raw.githubusercontent.com")
    ]
  }

  /** The command-line pairs of the remaining raw-content addresses and the first static-asset address. */
  function GithubHostsD(): (r: seq<(string, string)>)
    ensures |r| == 3 && PairsAreTokens(r)
  {
    HostTokenOfLength("185.199.110.133", 15);
    HostTokenOfLength("raw.githubusercontent.com", 25);
    HostTokenOfLength("185.199.111.133", 15);
    HostTokenOfLength("185.199.108.154", 15);
    HostTokenOfLength("github.githubassets.com", 23);
    [
      ("185.199.110.133", "raw.githubusercontent.com"),
      ("185.199.111.133", "raw.githubusercontent.com"),
      ("185.199.108.154", "github.githubassets.com")
    ]
  }

  /** The command-line pairs of the remaining static-asset addresses. */
  function GithubHostsE(): (r: seq<(string, string)>)
    ensures |r| == 3 && PairsAreTokens(r)
  {
    HostTokenOfLength("185.199.109.154", 15);
    HostTokenOfLength("github.githubassets.com", 23);
    HostTokenOfLength("185.199.110.154", 15);
    HostTokenOfLength("185.199.111.154", 15);
    [
      ("185.199.109.154", "github.githubassets.com"),
      ("185.199.110.154", "github.githubassets.com"),
      ("185.199.111.154", "github.githubassets.com")
    ]
  }

  /** The command-line pairs of the code download hosts and the first cloud-content address. */
  function GithubHostsF(): (r: seq<(string, string)>)
    ensures |r| == 3 && PairsAreTokens(r)
  {
    HostTokenOfLength("140.82.113.10", 13);
    HostTokenOfLength("codeload.github.com", 19);
    HostTokenOfLength("140.82.114.10", 13);
    HostTokenOfLength("185.199.108.133", 15);
    HostTokenOfLength("cloud.githubusercontent.com", 27);
    [
      ("140.82.113.10", "codeload.github.com"),
      ("140.82.114.10", "codeload.github.com"),
      ("185.199.108.133", "cloud.githubusercontent.com")
    ]
  }

  /** The command-line pairs of the remaining cloud-content addresses. */
  function GithubHostsG(): (r: seq<(string, string)>)
    ensures |r| == 3 && PairsAreTokens(r)
  {
    HostTokenOfLength("185.199.109.133", 15);
    HostTokenOfLength("cloud.githubusercontent.com", 27);
    HostTokenOfLength("185.199.110.133", 15);
    HostTokenOfLength("185.199.111.133", 15);
    [
      ("185.199.109.133", "cloud.githubusercontent.com"),
      ("185.199.110.133", "cloud.githubusercontent.com"),
      ("185.199.111.133", "cloud.githubusercontent.com")
    ]
  }

  /** The command-line pairs of the status page and the API hosts. */
  function GithubHostsH(): (r: seq<(string, string)>)
    ensures |r| == 3 && PairsAreTokens(r)
  {
    HostTokenOfLength("185.199.108.153", 15);
    HostTokenOfLength("githubstatus.com", 16);
    HostTokenOfLength("140.82.113.18", 13);
    HostTokenOfLength("api.github.com", 14);
    HostTokenOfLength("140.82.114.18", 13);
    [
      ("185.199.108.153", "githubstatus.com"),
      ("140.82.113.18", "api.github.com"),
      ("140.82.114.18", "api.github.com")
    ]
  }

  /** Every command-line pair is an address and a domain that are host tokens. */
  lemma GithubHostsTokens()
    ensures PairsAreTokens(GithubHosts())
  {
    var a, b, c, d := GithubHostsA(), GithubHostsB(), GithubHostsC(), GithubHostsD();
    var e, f, g, h := GithubHostsE(), GithubHostsF(), GithubHostsG(), GithubHostsH();
    PairsAreTokensConcat(a, b);
    PairsAreTokensConcat(a + b, c);
    PairsAreTokensConcat(a + b + c, d);
    PairsAreTokensConcat(a + b + c + d, e);
    PairsAreTokensConcat(a + b + c + d + e, f);
    PairsAreTokensConcat(a + b + c + d + e + f, g);
    PairsAreTokensConcat(a + b + c + d + e + f + g, h);
  }

  /** Enabling the program's own pairs and then disabling gives back a one-line file. */
  lemma GithubHostsRoundTrip(line: string)
    requires '\n' !in line && '\r' !in line && !IsBlank(line) && MarkerFree(line)
    ensures Disable(Present(line + Block("", GithubHosts()))) == Ok(Some(line))
  {
    GithubHostsTokens();
    EnableThenDisableOneLine(line, GithubHosts());
  }
}
