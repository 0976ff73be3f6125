/**
 * The scan orchestrator with its threads taken out: one worker per
 * registry domain, each running the selector and contributing
 * `domain -> (ip, latency)` when some candidate answered, then bumping the
 * shared completion counter and reporting progress. The order in which the
 * workers finish is the scheduler's choice, so it is a parameter: a
 * permutation of the registry indices.
 */
module Scan {
  import opened Wrappers
  import opened Registry
  import opened Selector

  /** The scan result: each contributing domain with its chosen address and latency. */
  type ScanResult = map<string, (string, nat)>

  /** One progress report `(completed, total, domain)` handed to the callback. */
  datatype Progress = Progress(completed: nat, total: nat, domain: string)

  /** The shared state of the workers: the result map, the counter and the reports so far. */
  datatype ScanState = ScanState(results: ScanResult, completed: nat, events: seq<Progress>)

  /** `order` lists every registry index exactly once: the order in which the workers finish. */
  ghost predicate IsCompletionOrder(reg: seq<DomainEntry>, order: seq<nat>)
  {
    && |order| == |reg|
    && (forall m :: 0 <= m < |order| ==> order[m] < |reg|)
    && (forall m1, m2 :: 0 <= m1 < m2 < |order| ==> order[m1] != order[m2])
    && (forall i :: 0 <= i < |reg| ==> i in order)
  }

  /** Some candidate of `entry` answers the probe, so the domain contributes to the result. */
  ghost predicate Contributes(entry: DomainEntry, probe: Probe)
  {
    !NoneAnswers(entry.candidateIps, probe)
  }

  /** `v` is the winner's address and latency for `entry`, in the sense of the reference definition. */
  ghost predicate IsWinnerPair(entry: DomainEntry, probe: Probe, v: (string, nat))
  {
    exists k :: IsWinner(entry.candidateIps, probe, k)
      && v == (entry.candidateIps[k], probe(entry.candidateIps[k]).value)
  }

  /**
   * The body of one worker thread: select the best address of `entry`,
   * insert it into the result map when it has a latency, then increment the
   * counter and report the new count with the entry's domain.
   */
  function Worker(st: ScanState, entry: DomainEntry, total: nat, probe: Probe): (r: ScanState)
    ensures r.completed == st.completed + 1
    ensures r.events == st.events + [Progress(st.completed + 1, total, entry.domain)]
    ensures Contributes(entry, probe) ==>
      entry.domain in r.results && IsWinnerPair(entry, probe, r.results[entry.domain])
    ensures !Contributes(entry, probe) ==> r.results == st.results
    ensures r.results.Keys <= st.results.Keys + {entry.domain}
    ensures forall d :: d in st.results && d != entry.domain ==> d in r.results && r.results[d] == st.results[d]
  {
    var sel := FindBestIpForDomain(entry, probe);
    var results :=
      match sel.best
      case Some(best) =>
        (match best.latencyMs
         case Some(latency) => st.results[best.domain := (best.ip, latency)]
         case None => st.results)
      case None => st.results;
    var count := st.completed + 1;
    ScanState(results, count, st.events + [Progress(count, total, entry.domain)])
  }

  /** The shared state after the first `n` workers in completion order have finished. */
  function RunWorkers(reg: seq<DomainEntry>, probe: Probe, order: seq<nat>, n: nat): ScanState
    requires n <= |order|
    requires forall m :: 0 <= m < |order| ==> order[m] < |reg|
  {
    if n == 0 then ScanState(map[], 0, [])
    else Worker(RunWorkers(reg, probe, order, n - 1), reg[order[n - 1]], |reg|, probe)
  }

  /** The domains of the first `n` finished workers that contribute. */
  ghost function FinishedContributors(reg: seq<DomainEntry>, probe: Probe, order: seq<nat>, n: nat): set<string>
    requires n <= |order|
    requires forall m :: 0 <= m < |order| ==> order[m] < |reg|
  {
    set m | 0 <= m < n && Contributes(reg[order[m]], probe) :: reg[order[m]].domain
  }

  /** After the first `n` workers, the result's keys are the contributing domains among them. */
  lemma {:induction false} RunWorkersKeys(reg: seq<DomainEntry>, probe: Probe, order: seq<nat>, n: nat)
    requires n <= |order|
    requires forall m :: 0 <= m < |order| ==> order[m] < |reg|
    ensures RunWorkers(reg, probe, order, n).results.Keys == FinishedContributors(reg, probe, order, n)
  {
    if n > 0 {
      RunWorkersKeys(reg, probe, order, n - 1);
      var entry := reg[order[n - 1]];
      if Contributes(entry, probe) {
        assert FinishedContributors(reg, probe, order, n)
          == FinishedContributors(reg, probe, order, n - 1) + {entry.domain};
      } else {
        assert FinishedContributors(reg, probe, order, n) == FinishedContributors(reg, probe, order, n - 1);
      }
    }
  }

  /**
   * After the first `n` workers, each contributing domain among them maps to
   * its winner: no later worker overwrites it, because domains are distinct
   * and every index finishes once.
   */
  lemma {:induction false} RunWorkersValues(reg: seq<DomainEntry>, probe: Probe, order: seq<nat>, n: nat)
    requires DistinctDomains(reg)
    requires n <= |order|
    requires forall m :: 0 <= m < |order| ==> order[m] < |reg|
    requires forall m1, m2 :: 0 <= m1 < m2 < |order| ==> order[m1] != order[m2]
    ensures forall m :: 0 <= m < n && Contributes(reg[order[m]], probe) ==>
      reg[order[m]].domain in RunWorkers(reg, probe, order, n).results
      && IsWinnerPair(reg[order[m]], probe, RunWorkers(reg, probe, order, n).results[reg[order[m]].domain])
  {
    if n > 0 {
      RunWorkersValues(reg, probe, order, n - 1);
      var prev := RunWorkers(reg, probe, order, n - 1);
      var st := RunWorkers(reg, probe, order, n);
      var entry := reg[order[n - 1]];
      forall m | 0 <= m < n && Contributes(reg[order[m]], probe)
        ensures reg[order[m]].domain in st.results
        ensures IsWinnerPair(reg[order[m]], probe, st.results[reg[order[m]].domain])
      {
        if m < n - 1 {
          assert order[m] != order[n - 1];
          assert reg[order[m]].domain != entry.domain;
        }
      }
    }
  }

  /** After the first `n` workers, the k-th report names the k-th finished domain with count k + 1. */
  lemma {:induction false} RunWorkersEvents(reg: seq<DomainEntry>, probe: Probe, order: seq<nat>, n: nat)
    requires n <= |order|
    requires forall m :: 0 <= m < |order| ==> order[m] < |reg|
    ensures |RunWorkers(reg, probe, order, n).events| == n
    ensures forall k :: 0 <= k < n ==>
      RunWorkers(reg, probe, order, n).events[k] == Progress(k + 1, |reg|, reg[order[k]].domain)
  {
    if n > 0 {
      RunWorkersEvents(reg, probe, order, n - 1);
      CounterCounts(reg, probe, order, n - 1);
    }
  }

  /**
   * `test_all_domains_parallel` over a registry: every worker runs once, in
   * the completion order given.
   */
  function ScanRegistry(reg: seq<DomainEntry>, probe: Probe, order: seq<nat>): (r: ScanState)
    requires IsCompletionOrder(reg, order)
    ensures r.completed == |reg| && |r.events| == |reg|
  {
    CounterCounts(reg, probe, order, |order|);
    RunWorkers(reg, probe, order, |order|)
  }

  /** After `n` workers the counter is `n` and there are `n` reports. */
  lemma {:induction false} CounterCounts(reg: seq<DomainEntry>, probe: Probe, order: seq<nat>, n: nat)
    requires n <= |order|
    requires forall m :: 0 <= m < |order| ==> order[m] < |reg|
    ensures RunWorkers(reg, probe, order, n).completed == n
    ensures |RunWorkers(reg, probe, order, n).events| == n
  {
    if n > 0 {
      CounterCounts(reg, probe, order, n - 1);
    }
  }

  /**
   * The scan's result and its reports: the keys are exactly the registry
   * domains with an answering candidate, each mapped to that domain's
   * winner; the k-th report carries the count k + 1, the registry size and
   * the domain of the k-th finished worker, so the counter rises by one per
   * domain and reaches the total exactly once, at the last report.
   */
  lemma ScanSpec(reg: seq<DomainEntry>, probe: Probe, order: seq<nat>)
    requires DistinctDomains(reg)
    requires IsCompletionOrder(reg, order)
    ensures ScanRegistry(reg, probe, order).results.Keys
      == set i | 0 <= i < |reg| && Contributes(reg[i], probe) :: reg[i].domain
    ensures forall i :: 0 <= i < |reg| && Contributes(reg[i], probe) ==>
      IsWinnerPair(reg[i], probe, ScanRegistry(reg, probe, order).results[reg[i].domain])
    ensures forall k :: 0 <= k < |reg| ==>
      ScanRegistry(reg, probe, order).events[k] == Progress(k + 1, |reg|, reg[order[k]].domain)
  {
    var n := |order|;
    RunWorkersKeys(reg, probe, order, n);
    RunWorkersValues(reg, probe, order, n);
    RunWorkersEvents(reg, probe, order, n);
    var st := ScanRegistry(reg, probe, order);
    var want := set i | 0 <= i < |reg| && Contributes(reg[i], probe) :: reg[i].domain;
    forall d | d in want
      ensures d in st.results.Keys
    {
      var i :| 0 <= i < |reg| && Contributes(reg[i], probe) && reg[i].domain == d;
      assert i in order;
      var m :| 0 <= m < |order| && order[m] == i;
      assert reg[order[m]].domain in FinishedContributors(reg, probe, order, n);
    }
    forall i | 0 <= i < |reg| && Contributes(reg[i], probe)
      ensures IsWinnerPair(reg[i], probe, st.results[reg[i].domain])
    {
      assert i in order;
      var m :| 0 <= m < |order| && order[m] == i;
      assert reg[order[m]] == reg[i];
    }
  }

  /**
   * The reports in the order the callback receives them. A worker releases
   * the counter's lock before it calls back, so a worker holding a smaller
   * count may call back later: `delivery` lists, for each call, which
   * report (by position in `events`) it carries.
   */
  function Deliver(events: seq<Progress>, delivery: seq<nat>): (r: seq<Progress>)
    requires forall k :: 0 <= k < |delivery| ==> delivery[k] < |events|
    ensures |r| == |delivery|
    ensures forall k :: 0 <= k < |r| ==> r[k] in events
  {
    seq(|delivery|, k requires 0 <= k < |delivery| => events[delivery[k]])
  }

  /** Some call of `d` carries the count `c`. */
  ghost predicate CountReported(d: seq<Progress>, c: nat)
  {
    exists k :: 0 <= k < |d| && d[k].completed == c
  }

  /** Some call of `d` names `domain`. */
  ghost predicate DomainReported(d: seq<Progress>, domain: string)
  {
    exists k :: 0 <= k < |d| && d[k].domain == domain
  }

  /** The reports the workers make, in counter order: the m-th carries count m + 1 and the m-th finished domain. */
  ghost predicate CounterReports(reg: seq<DomainEntry>, order: seq<nat>, events: seq<Progress>)
    requires IsCompletionOrder(reg, order)
  {
    |events| == |reg|
    && forall m :: 0 <= m < |events| ==> events[m] == Progress(m + 1, |reg|, reg[order[m]].domain)
  }

  /** Delivering counter-ordered reports in any order keeps each count once and each domain. */
  lemma DeliverPermuted(reg: seq<DomainEntry>, order: seq<nat>, events: seq<Progress>, delivery: seq<nat>)
    requires IsCompletionOrder(reg, order)
    requires IsCompletionOrder(reg, delivery)
    requires CounterReports(reg, order, events)
    ensures forall k :: 0 <= k < |reg| ==>
      Deliver(events, delivery)[k].total == |reg| && 1 <= Deliver(events, delivery)[k].completed <= |reg|
    ensures forall k1, k2 :: 0 <= k1 < k2 < |reg| ==>
      Deliver(events, delivery)[k1].completed != Deliver(events, delivery)[k2].completed
    ensures forall c :: 1 <= c <= |reg| ==> CountReported(Deliver(events, delivery), c)
    ensures forall i :: 0 <= i < |reg| ==> DomainReported(Deliver(events, delivery), reg[i].domain)
  {
    var d := Deliver(events, delivery);
    assert forall k :: 0 <= k < |reg| ==> d[k] == events[delivery[k]];
    forall c | 1 <= c <= |reg|
      ensures CountReported(d, c)
    {
      DeliverCount(reg, order, events, delivery, c);
    }
    forall i | 0 <= i < |reg|
      ensures DomainReported(d, reg[i].domain)
    {
      DeliverDomain(reg, order, events, delivery, i);
    }
  }

  /** The call carrying the report at position `c - 1` carries the count `c`. */
  lemma DeliverCount(reg: seq<DomainEntry>, order: seq<nat>, events: seq<Progress>, delivery: seq<nat>, c: nat)
    requires IsCompletionOrder(reg, order) && IsCompletionOrder(reg, delivery)
    requires CounterReports(reg, order, events)
    requires 1 <= c <= |reg|
    ensures CountReported(Deliver(events, delivery), c)
  {
    assert c - 1 in delivery;
    var k :| 0 <= k < |delivery| && delivery[k] == c - 1;
    assert Deliver(events, delivery)[k].completed == c;
  }

  /** The call carrying the report of the worker for entry `i` names its domain. */
  lemma DeliverDomain(reg: seq<DomainEntry>, order: seq<nat>, events: seq<Progress>, delivery: seq<nat>, i: nat)
    requires IsCompletionOrder(reg, order) && IsCompletionOrder(reg, delivery)
    requires CounterReports(reg, order, events)
    requires i < |reg|
    ensures DomainReported(Deliver(events, delivery), reg[i].domain)
  {
    assert i in order;
    var m :| 0 <= m < |order| && order[m] == i;
    assert m in delivery;
    var k :| 0 <= k < |delivery| && delivery[k] == m;
    assert Deliver(events, delivery)[k].domain == reg[i].domain;
  }

  /**
   * Whatever the delivery order, the callback is called once per domain,
   * receives each count from 1 to the registry size exactly once, always
   * with the registry size as total, and every registry domain is named by
   * some call.
   */
  lemma DeliveredReports(reg: seq<DomainEntry>, probe: Probe, order: seq<nat>, delivery: seq<nat>)
    requires IsCompletionOrder(reg, order)
    requires IsCompletionOrder(reg, delivery)
    ensures var d := Deliver(ScanRegistry(reg, probe, order).events, delivery);
      |d| == |reg|
    ensures var d := Deliver(ScanRegistry(reg, probe, order).events, delivery);
      forall k :: 0 <= k < |d| ==> d[k].total == |reg| && 1 <= d[k].completed <= |reg|
    ensures var d := Deliver(ScanRegistry(reg, probe, order).events, delivery);
      forall k1, k2 :: 0 <= k1 < k2 < |d| ==> d[k1].completed != d[k2].completed
    ensures var d := Deliver(ScanRegistry(reg, probe, order).events, delivery);
      forall c :: 1 <= c <= |reg| ==> CountReported(d, c)
    ensures var d := Deliver(ScanRegistry(reg, probe, order).events, delivery);
      forall i :: 0 <= i < |reg| ==> DomainReported(d, reg[i].domain)
  {
    var ev := ScanRegistry(reg, probe, order).events;
    RunWorkersEvents(reg, probe, order, |order|);
    assert CounterReports(reg, order, ev);
    DeliverPermuted(reg, order, ev, delivery);
  }

  /** `test_all_domains_parallel` of the command-line build: the shipped registry, with progress reports. */
  function TestAllDomainsParallel(probe: Probe, order: seq<nat>): (r: ScanState)
    requires IsCompletionOrder(Candidates(), order)
    ensures r.completed == |Candidates()| && |r.events| == |Candidates()|
  {
    ScanRegistry(Candidates(), probe, order)
  }

  /**
   * `test_all_domains_parallel` of the desktop build: the same scan,
   * without progress reports. Its keys are exactly the shipped domains
   * with an answering candidate, each mapped to that domain's winner.
   */
  function TestAllDomainsParallelDesktop(probe: Probe, order: seq<nat>): (r: ScanResult)
    requires IsCompletionOrder(Candidates(), order)
    ensures forall d :: d in r ==> exists i :: 0 <= i < |Candidates()| && Candidates()[i].domain == d
    ensures r.Keys == set i | 0 <= i < |Candidates()| && Contributes(Candidates()[i], probe) :: Candidates()[i].domain
    ensures forall i :: 0 <= i < |Candidates()| && Contributes(Candidates()[i], probe) ==>
      IsWinnerPair(Candidates()[i], probe, r[Candidates()[i].domain])
  {
    CandidateDomainsDistinct();
    ScanSpec(Candidates(), probe, order);
    ScanRegistry(Candidates(), probe, order).results
  }

  /** The worked example: a one-domain registry scanned with `ExampleProbe` maps "github.com" to ("1.1.1.1", 40). */
  lemma ExampleScan()
    ensures
      var reg := [DomainEntry("github.com", ["1.1.1.1", "2.2.2.2"], None, None)];
      ScanRegistry(reg, ExampleProbe, [0]).results == map["github.com" := ("1.1.1.1", 40)]
  {
    var reg := [DomainEntry("github.com", ["1.1.1.1", "2.2.2.2"], None, None)];
    ExampleSelection();
    assert IsCompletionOrder(reg, [0]) by { assert 0 in [0]; }
    assert RunWorkers(reg, ExampleProbe, [0], 1) == Worker(RunWorkers(reg, ExampleProbe, [0], 0), reg[0], 1, ExampleProbe);
  }

  // ---------------------------------------------------------------------
  // The quick test of the key domains.
  // ---------------------------------------------------------------------

  /** The domains the quick test looks at. */
  const KeyDomains: seq<string> := ["github.com", "api.github.com", "raw.githubusercontent.com"]

  /**
   * The report for one key domain: the selector's result when some
   * candidate answered, otherwise a failure naming the first candidate
   * (or the empty string when there is none).
   */
  ghost predicate KeyReport(entry: DomainEntry, probe: Probe, res: LatencyResult)
  {
    if NoneAnswers(entry.candidateIps, probe) then
      res == LatencyResult(if |entry.candidateIps| > 0 then entry.candidateIps[0] else "", entry.domain, None, false)
    else
      exists k :: IsWinner(entry.candidateIps, probe, k)
        && res == ResultAt(entry.domain, entry.candidateIps, probe, k)
  }

  /** The quick test's report for one entry. */
  function KeyOutcome(entry: DomainEntry, probe: Probe): (r: LatencyResult)
    ensures KeyReport(entry, probe, r)
    ensures r.domain == entry.domain
    ensures r.success <==> r.latencyMs.Some?
  {
    var sel := FindBestIpForDomain(entry, probe);
    match sel.best
    case Some(result) => result
    case None =>
      LatencyResult(if |entry.candidateIps| > 0 then entry.candidateIps[0] else "", entry.domain, None, false)
  }

  /** The quick test over the registry `reg`: one report per key-domain entry, in registry order (see `KeyResultsInOrder`). */
  function KeyResults(reg: seq<DomainEntry>, probe: Probe): (r: seq<LatencyResult>)
    ensures |r| <= |reg|
    ensures forall k :: 0 <= k < |r| ==> r[k].domain in KeyDomains
    ensures forall k :: 0 <= k < |r| ==> (r[k].success <==> r[k].latencyMs.Some?)
    ensures forall k :: 0 <= k < |r| ==>
      exists i :: 0 <= i < |reg| && reg[i].domain == r[k].domain && r[k] == KeyOutcome(reg[i], probe)
    decreases |reg|
  {
    if |reg| == 0 then []
    else
      var pre := reg[..|reg| - 1];
      var entry := reg[|reg| - 1];
      var rest := KeyResults(pre, probe);
      assert forall i :: 0 <= i < |pre| ==> pre[i] == reg[i];
      if entry.domain in KeyDomains then rest + [KeyOutcome(entry, probe)] else rest
  }

  /** Every key-domain entry of the registry gets a report. */
  lemma {:induction false} KeyResultsComplete(reg: seq<DomainEntry>, probe: Probe, i: nat)
    requires i < |reg| && reg[i].domain in KeyDomains
    ensures KeyOutcome(reg[i], probe) in KeyResults(reg, probe)
    decreases |reg|
  {
    var pre := reg[..|reg| - 1];
    if i < |reg| - 1 {
      assert pre[i] == reg[i];
      KeyResultsComplete(pre, probe, i);
    }
  }

  /** `idx` lists, in increasing order, exactly the positions of the key-domain entries of `reg`. */
  ghost predicate KeyPositions(reg: seq<DomainEntry>, idx: seq<nat>)
  {
    && (forall k :: 0 <= k < |idx| ==> idx[k] < |reg| && reg[idx[k]].domain in KeyDomains)
    && (forall k1, k2 :: 0 <= k1 < k2 < |idx| ==> idx[k1] < idx[k2])
    && (forall i :: 0 <= i < |reg| && reg[i].domain in KeyDomains ==> i in idx)
  }

  /** Appending a key entry appends its position. */
  lemma KeyPositionsExtendKey(reg: seq<DomainEntry>, idx: seq<nat>)
    requires |reg| > 0 && reg[|reg| - 1].domain in KeyDomains
    requires KeyPositions(reg[..|reg| - 1], idx)
    ensures KeyPositions(reg, idx + [|reg| - 1])
  {
    var n := |reg| - 1;
    var pre := reg[..n];
    var idx2 := idx + [n];
    assert forall i :: 0 <= i < |pre| ==> pre[i] == reg[i];
    assert idx2[|idx|] == n;
    forall i | 0 <= i < |reg| && reg[i].domain in KeyDomains
      ensures i in idx2
    {
      if i < n {
        assert pre[i] == reg[i];
        var k :| 0 <= k < |idx| && idx[k] == i;
        assert idx2[k] == i;
      }
    }
  }

  /** Appending any other entry keeps the positions. */
  lemma KeyPositionsExtendOther(reg: seq<DomainEntry>, idx: seq<nat>)
    requires |reg| > 0 && reg[|reg| - 1].domain !in KeyDomains
    requires KeyPositions(reg[..|reg| - 1], idx)
    ensures KeyPositions(reg, idx)
  {
    var pre := reg[..|reg| - 1];
    assert forall i :: 0 <= i < |pre| ==> pre[i] == reg[i];
  }

  /** The reports of `reg` are, in order, the outcomes of the entries at the key positions `idx`. */
  ghost predicate ReportsAt(reg: seq<DomainEntry>, probe: Probe, idx: seq<nat>)
  {
    && KeyPositions(reg, idx)
    && |idx| == |KeyResults(reg, probe)|
    && (forall k :: 0 <= k < |idx| ==> KeyResults(reg, probe)[k] == KeyOutcome(reg[idx[k]], probe))
  }

  /** The step of `KeyResultsInOrder` for a last entry of a key domain: its position is appended. */
  lemma ReportsAtStepKey(reg: seq<DomainEntry>, probe: Probe, idx: seq<nat>)
    requires |reg| > 0 && reg[|reg| - 1].domain in KeyDomains
    requires ReportsAt(reg[..|reg| - 1], probe, idx)
    ensures ReportsAt(reg, probe, idx + [|reg| - 1])
  {
    var n := |reg| - 1;
    var pre := reg[..n];
    var rest := KeyResults(pre, probe);
    var r := KeyResults(reg, probe);
    var idx2 := idx + [n];
    assert r == rest + [KeyOutcome(reg[n], probe)];
    KeyPositionsExtendKey(reg, idx);
    forall k | 0 <= k < |idx2|
      ensures r[k] == KeyOutcome(reg[idx2[k]], probe)
    {
      if k < |idx| {
        assert pre[idx[k]] == reg[idx[k]];
        assert r[k] == rest[k];
      }
    }
  }

  /** The step of `KeyResultsInOrder` for a last entry of any other domain: the positions stay. */
  lemma ReportsAtStepOther(reg: seq<DomainEntry>, probe: Probe, idx: seq<nat>)
    requires |reg| > 0 && reg[|reg| - 1].domain !in KeyDomains
    requires ReportsAt(reg[..|reg| - 1], probe, idx)
    ensures ReportsAt(reg, probe, idx)
  {
    var pre := reg[..|reg| - 1];
    assert KeyResults(reg, probe) == KeyResults(pre, probe);
    KeyPositionsExtendOther(reg, idx);
    assert forall k :: 0 <= k < |idx| ==> pre[idx[k]] == reg[idx[k]];
  }

  /**
   * The quick test reports every key-domain entry exactly once, in
   * registry order: the k-th report is the outcome of the k-th key entry.
   */
  lemma {:induction false} KeyResultsInOrder(reg: seq<DomainEntry>, probe: Probe)
    ensures exists idx :: ReportsAt(reg, probe, idx)
    decreases |reg|
  {
    if |reg| == 0 {
      assert ReportsAt(reg, probe, []);
    } else {
      KeyResultsInOrder(reg[..|reg| - 1], probe);
      var idx :| ReportsAt(reg[..|reg| - 1], probe, idx);
      if reg[|reg| - 1].domain in KeyDomains {
        ReportsAtStepKey(reg, probe, idx);
      } else {
        ReportsAtStepOther(reg, probe, idx);
      }
    }
  }

  /** The reports of two registries one after the other are the reports of each, one after the other. */
  lemma {:induction false} KeyResultsConcat(a: seq<DomainEntry>, b: seq<DomainEntry>, probe: Probe)
    ensures KeyResults(a + b, probe) == KeyResults(a, probe) + KeyResults(b, probe)
    decreases |b|
  {
    if |b| == 0 {
      assert a + b == a;
    } else {
      var b0 := b[..|b| - 1];
      assert (a + b)[..|a + b| - 1] == a + b0;
      assert (a + b)[|a + b| - 1] == b[|b| - 1];
      KeyResultsConcat(a, b0, probe);
    }
  }

  /** No entry of `reg` is about a key domain. */
  ghost predicate NoKeyDomains(reg: seq<DomainEntry>)
  {
    forall i :: 0 <= i < |reg| ==> reg[i].domain !in KeyDomains
  }

  /** A registry without key domains gets no reports. */
  lemma NoKeyNoReports(reg: seq<DomainEntry>, probe: Probe)
    requires NoKeyDomains(reg)
    ensures KeyResults(reg, probe) == []
  {
  }

  /** The shipped registry lists github.com, api.github.com and raw.githubusercontent.com at positions 0, 1 and 3, and no other key domain. */
  lemma ShippedKeyPositions()
    ensures |Candidates()| == 13
    ensures Candidates()[0] == EntryGithubCom() && Candidates()[0].domain == "github.com"
    ensures Candidates()[1] == EntryApiGithubCom() && Candidates()[1].domain == "api.github.com"
    ensures Candidates()[2].domain !in KeyDomains
    ensures Candidates()[3] == EntryRawGithubusercontentCom() && Candidates()[3].domain == "raw.githubusercontent.com"
    ensures NoKeyDomains(Candidates()[4..])
  {
    var reg := Candidates();
    forall i | 0 <= i < 9
      ensures reg[4..][i].domain !in KeyDomains
    {
      assert |reg[i + 4].domain| !in {10, 14, 25};
    }
  }

  /** The reports of a four-entry registry whose key entries are the first, second and fourth. */
  lemma KeyResultsOfFour(s: seq<DomainEntry>, probe: Probe)
    requires |s| == 4
    requires s[0].domain in KeyDomains && s[1].domain in KeyDomains
    requires s[2].domain !in KeyDomains && s[3].domain in KeyDomains
    ensures KeyResults(s, probe) == [KeyOutcome(s[0], probe), KeyOutcome(s[1], probe), KeyOutcome(s[3], probe)]
  {
    var s1, s2, s3 := s[..1], s[..2], s[..3];
    assert s1[..0] == [] && s1[0] == s[0];
    assert KeyResults(s1, probe) == [KeyOutcome(s[0], probe)];
    assert s2[..1] == s1 && s2[1] == s[1];
    assert KeyResults(s2, probe) == [KeyOutcome(s[0], probe), KeyOutcome(s[1], probe)];
    assert s3[..2] == s2 && s3[2] == s[2];
    assert KeyResults(s3, probe) == [KeyOutcome(s[0], probe), KeyOutcome(s[1], probe)];
    assert s[..3] == s3;
  }

  /** A registry whose key entries sit at positions 0, 1 and 3 gets those three reports, in order. */
  lemma KeyResultsAt013(reg: seq<DomainEntry>, probe: Probe)
    requires |reg| >= 4
    requires reg[0].domain in KeyDomains && reg[1].domain in KeyDomains
    requires reg[2].domain !in KeyDomains && reg[3].domain in KeyDomains
    requires NoKeyDomains(reg[4..])
    ensures KeyResults(reg, probe) == [KeyOutcome(reg[0], probe), KeyOutcome(reg[1], probe), KeyOutcome(reg[3], probe)]
  {
    var head, tail := reg[..4], reg[4..];
    assert reg == head + tail;
    KeyResultsConcat(head, tail, probe);
    KeyResultsOfFour(head, probe);
    NoKeyNoReports(tail, probe);
  }

  /** The quick test over the shipped registry reports its three key entries, in registry order. */
  lemma ShippedKeyResults(probe: Probe)
    ensures KeyResults(Candidates(), probe)
      == [KeyOutcome(EntryGithubCom(), probe), KeyOutcome(EntryApiGithubCom(), probe), KeyOutcome(EntryRawGithubusercontentCom(), probe)]
  {
    var reg := Candidates();
    ShippedKeyPositions();
    KeyResultsAt013(reg, probe);
    assert KeyResults(reg, probe) == [KeyOutcome(reg[0], probe), KeyOutcome(reg[1], probe), KeyOutcome(reg[3], probe)];
  }

  /**
   * `test_key_domains`: the quick test over the shipped registry. It makes
   * exactly three reports: the outcomes for github.com, api.github.com and
   * raw.githubusercontent.com, in that order.
   */
  function TestKeyDomains(probe: Probe): (r: seq<LatencyResult>)
    ensures r == [KeyOutcome(EntryGithubCom(), probe), KeyOutcome(EntryApiGithubCom(), probe), KeyOutcome(EntryRawGithubusercontentCom(), probe)]
  {
    ShippedKeyResults(probe);
    KeyResults(Candidates(), probe)
  }

  /** The three reports name the three key domains in order, each successful exactly when it has a latency. */
  lemma TestKeyDomainsReports(probe: Probe)
    ensures var r := TestKeyDomains(probe);
      && |r| == 3
      && r[0].domain == "github.com" && r[1].domain == "api.github.com" && r[2].domain == "raw.githubusercontent.com"
      && forall k :: 0 <= k < |r| ==> (r[k].success <==> r[k].latencyMs.Some?)
  {
  }
}
