/**
 * The best-IP selector: probe every candidate address of one domain in
 * order and keep the strictly fastest successful one. The TCP probe is a
 * parameter: it maps an address to its measured latency in milliseconds,
 * or to `None` when the connection attempt fails or times out.
 */
module Selector {
  import opened Wrappers
  import opened Registry

  /** A latency probe: the measured connect time of an address, if it answered. */
  type Probe = string -> Option<nat>

  /** The outcome of probing one address for one domain. */
  datatype LatencyResult = LatencyResult(
    ip: string,
    domain: string,
    latencyMs: Option<nat>,
    success: bool)

  /** What the selector hands back: its result and the entry as it leaves it. */
  datatype Selection = Selection(best: Option<LatencyResult>, entry: DomainEntry)

  // ---------------------------------------------------------------------
  // The reference definition of the winner, independent of the loop.
  // ---------------------------------------------------------------------

  /** Candidate `k` answered the probe. */
  ghost predicate Answers(ips: seq<string>, probe: Probe, k: int)
  {
    0 <= k < |ips| && probe(ips[k]).Some?
  }

  /** No candidate answered the probe. */
  ghost predicate NoneAnswers(ips: seq<string>, probe: Probe)
  {
    forall k :: 0 <= k < |ips| ==> probe(ips[k]).None?
  }

  /**
   * Candidate `k` is the winner: it answered, no answering candidate is
   * faster, and every answering candidate before it is strictly slower
   * (so among equally fast candidates the earliest wins).
   */
  ghost predicate IsWinner(ips: seq<string>, probe: Probe, k: int)
  {
    && Answers(ips, probe, k)
    && (forall j :: Answers(ips, probe, j) ==> probe(ips[k]).value <= probe(ips[j]).value)
    && (forall j :: 0 <= j < k && Answers(ips, probe, j) ==> probe(ips[k]).value < probe(ips[j]).value)
  }

  /** The successful result the selector builds for candidate `k`. */
  function ResultAt(domain: string, ips: seq<string>, probe: Probe, k: nat): (r: LatencyResult)
    requires k < |ips| && probe(ips[k]).Some?
    ensures r.success && r.latencyMs.Some? && r.ip in ips && r.domain == domain
  {
    LatencyResult(ips[k], domain, probe(ips[k]), true)
  }

  // ---------------------------------------------------------------------
  // The selector's loop, as written.
  // ---------------------------------------------------------------------

  /**
   * One iteration of the loop over the candidates: a successful probe of
   * `ip` becomes the best result when there is none yet, or when it is
   * strictly faster than the current best; a failed probe changes nothing.
   */
  function Step(best: Option<LatencyResult>, domain: string, ip: string, probe: Probe): Option<LatencyResult>
  {
    match probe(ip)
    case None => best
    case Some(latency) =>
      var result := LatencyResult(ip, domain, Some(latency), true);
      match best
      case None => Some(result)
      case Some(current) =>
        match current.latencyMs
        case Some(currentLatency) => if latency < currentLatency then Some(result) else best
        case None => best
  }

  /** The best result after the loop has visited the candidates `ips` in order. */
  function BestOf(domain: string, ips: seq<string>, probe: Probe): (r: Option<LatencyResult>)
    ensures r.Some? ==> r.value.success && r.value.latencyMs.Some?
    ensures r.Some? ==> r.value.ip in ips && r.value.domain == domain
    decreases |ips|
  {
    if |ips| == 0 then None
    else Step(BestOf(domain, ips[..|ips| - 1], probe), domain, ips[|ips| - 1], probe)
  }

  /** The candidates of `ips + [x]` that answer and come before `x` are those of `ips`. */
  lemma AnswersExtend(ips: seq<string>, x: string, probe: Probe)
    ensures forall j :: 0 <= j < |ips| ==> (ips + [x])[j] == ips[j]
    ensures forall j :: Answers(ips + [x], probe, j) && j < |ips| <==> Answers(ips, probe, j)
  {
    var ext := ips + [x];
    assert forall j :: 0 <= j < |ips| ==> ext[j] == ips[j];
  }

  /** Extending the candidates with a failing address keeps every winner. */
  lemma WinnerExtendFailing(ips: seq<string>, x: string, probe: Probe, k: int)
    requires probe(x).None?
    requires IsWinner(ips, probe, k)
    ensures IsWinner(ips + [x], probe, k)
  {
    AnswersExtend(ips, x, probe);
  }

  /** Extending the candidates with an address no faster than the winner keeps the winner. */
  lemma WinnerExtendSlower(ips: seq<string>, x: string, probe: Probe, k: int)
    requires probe(x).Some?
    requires IsWinner(ips, probe, k) && probe(ips[k]).value <= probe(x).value
    ensures IsWinner(ips + [x], probe, k)
  {
    AnswersExtend(ips, x, probe);
  }

  /** Extending the candidates with an address strictly faster than the winner makes it the winner. */
  lemma WinnerExtendFaster(ips: seq<string>, x: string, probe: Probe, k: int)
    requires probe(x).Some?
    requires IsWinner(ips, probe, k) && probe(x).value < probe(ips[k]).value
    ensures IsWinner(ips + [x], probe, |ips|)
  {
    AnswersExtend(ips, x, probe);
  }

  /** When no earlier candidate answered, an answering address is the winner. */
  lemma WinnerExtendFirst(ips: seq<string>, x: string, probe: Probe)
    requires probe(x).Some? && NoneAnswers(ips, probe)
    ensures IsWinner(ips + [x], probe, |ips|)
  {
    AnswersExtend(ips, x, probe);
  }

  /** The loop result is exactly the reference winner, and it is absent only when every probe fails. */
  lemma {:induction false} BestOfIsWinner(domain: string, ips: seq<string>, probe: Probe)
    ensures BestOf(domain, ips, probe).None? <==> NoneAnswers(ips, probe)
    ensures BestOf(domain, ips, probe).Some? ==>
      exists k :: IsWinner(ips, probe, k) && BestOf(domain, ips, probe).value == ResultAt(domain, ips, probe, k)
    decreases |ips|
  {
    if |ips| == 0 {
      return;
    }
    var pre := ips[..|ips| - 1];
    var x := ips[|ips| - 1];
    assert ips == pre + [x];
    BestOfIsWinner(domain, pre, probe);
    AnswersExtend(pre, x, probe);
    var prev := BestOf(domain, pre, probe);
    var n := |pre|;
    assert BestOf(domain, ips, probe) == Step(prev, domain, x, probe);
    match probe(x)
    case None =>
      if prev.Some? {
        var k :| IsWinner(pre, probe, k) && prev.value == ResultAt(domain, pre, probe, k);
        WinnerExtendFailing(pre, x, probe, k);
        assert prev.value == ResultAt(domain, ips, probe, k);
      } else {
        assert NoneAnswers(ips, probe);
      }
    case Some(latency) =>
      assert Answers(ips, probe, n);
      if prev.None? {
        WinnerExtendFirst(pre, x, probe);
        assert BestOf(domain, ips, probe).value == ResultAt(domain, ips, probe, n);
      } else {
        var k :| IsWinner(pre, probe, k) && prev.value == ResultAt(domain, pre, probe, k);
        assert prev.value.latencyMs == Some(probe(pre[k]).value);
        if latency < probe(pre[k]).value {
          WinnerExtendFaster(pre, x, probe, k);
          assert BestOf(domain, ips, probe).value == ResultAt(domain, ips, probe, n);
        } else {
          WinnerExtendSlower(pre, x, probe, k);
          assert BestOf(domain, ips, probe).value == ResultAt(domain, ips, probe, k);
        }
      }
  }

  /** There is at most one winner. */
  lemma WinnerUnique(ips: seq<string>, probe: Probe, k1: int, k2: int)
    requires IsWinner(ips, probe, k1) && IsWinner(ips, probe, k2)
    ensures k1 == k2
  {
  }

  /**
   * `find_best_ip_for_domain`: probe the entry's candidates in order, keep
   * the strictly fastest, and record it in the entry. The result is absent
   * exactly when no candidate answers, and then the entry is unchanged;
   * otherwise it is the reference winner and only the entry's best fields
   * change, to the winner's address and latency.
   */
  function FindBestIpForDomain(entry: DomainEntry, probe: Probe): (r: Selection)
    ensures r.best.None? <==> NoneAnswers(entry.candidateIps, probe)
    ensures r.best.None? ==> r.entry == entry
    ensures r.best.Some? ==>
      exists k :: IsWinner(entry.candidateIps, probe, k)
        && r.best.value == ResultAt(entry.domain, entry.candidateIps, probe, k)
    ensures r.best.Some? ==>
      && r.best.value.ip in entry.candidateIps
      && r.best.value.domain == entry.domain
      && r.best.value.success
      && r.best.value.latencyMs.Some?
    ensures r.best.Some? ==>
      r.entry == entry.(bestIp := Some(r.best.value.ip), bestLatencyMs := r.best.value.latencyMs)
  {
    var best := BestOf(entry.domain, entry.candidateIps, probe);
    BestOfIsWinner(entry.domain, entry.candidateIps, probe);
    match best
    case None => Selection(None, entry)
    case Some(result) =>
      Selection(best, entry.(bestIp := Some(result.ip), bestLatencyMs := result.latencyMs))
  }

  /** The winner's latency is no greater than that of any answering candidate. */
  lemma SelectedIsFastest(entry: DomainEntry, probe: Probe, j: nat)
    requires j < |entry.candidateIps| && probe(entry.candidateIps[j]).Some?
    ensures FindBestIpForDomain(entry, probe).best.Some?
    ensures FindBestIpForDomain(entry, probe).best.value.latencyMs.value <= probe(entry.candidateIps[j]).value
  {
    var r := FindBestIpForDomain(entry, probe);
    assert !NoneAnswers(entry.candidateIps, probe);
    var k :| IsWinner(entry.candidateIps, probe, k)
      && r.best.value == ResultAt(entry.domain, entry.candidateIps, probe, k);
    assert Answers(entry.candidateIps, probe, j);
  }

  /**
   * Tie-break: when the first two candidates answer equally fast and no
   * candidate is faster, the first one is selected.
   */
  lemma TieGoesToFirst(entry: DomainEntry, probe: Probe)
    requires |entry.candidateIps| >= 2
    requires probe(entry.candidateIps[0]).Some? && probe(entry.candidateIps[1]) == probe(entry.candidateIps[0])
    requires forall j :: 0 <= j < |entry.candidateIps| && probe(entry.candidateIps[j]).Some? ==>
      probe(entry.candidateIps[0]).value <= probe(entry.candidateIps[j]).value
    ensures FindBestIpForDomain(entry, probe).entry.bestIp == Some(entry.candidateIps[0])
  {
    var ips := entry.candidateIps;
    var r := FindBestIpForDomain(entry, probe);
    assert Answers(ips, probe, 0);
    assert IsWinner(ips, probe, 0);
    var k :| IsWinner(ips, probe, k) && r.best.value == ResultAt(entry.domain, ips, probe, k);
    WinnerUnique(ips, probe, 0, k);
  }

  /** A probe under which "1.1.1.1" answers in 40 ms and every other address times out. */
  function ExampleProbe(ip: string): (r: Option<nat>)
    ensures r.Some? <==> ip == "1.1.1.1"
  {
    if ip == "1.1.1.1" then Some(40) else None
  }

  /** The worked example: of "1.1.1.1" (40 ms) and "2.2.2.2" (timeout), the first is selected at 40 ms. */
  lemma ExampleSelection()
    ensures
      var entry := DomainEntry("github.com", ["1.1.1.1", "2.2.2.2"], None, None);
      FindBestIpForDomain(entry, ExampleProbe).best
        == Some(LatencyResult("1.1.1.1", "github.com", Some(40), true))
  {
    var entry := DomainEntry("github.com", ["1.1.1.1", "2.2.2.2"], None, None);
    var ips := entry.candidateIps;
    assert ips[1] != "1.1.1.1" by { assert ips[1][0] == '2'; }
    var r := FindBestIpForDomain(entry, ExampleProbe);
    assert Answers(ips, ExampleProbe, 0);
    var k :| IsWinner(ips, ExampleProbe, k) && r.best.value == ResultAt(entry.domain, ips, ExampleProbe, k);
    assert k == 0;
  }
}
