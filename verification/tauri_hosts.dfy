/**
 * The desktop build's hosts editor: the optimized-IP store, the two block
 * builders, marker detection, and enable/disable as transformations of the
 * hosts file's text. The store is a plain map value handed to each
 * operation; the hosts file is its text, or the reason it cannot be read.
 * The two fixed tables the builders read, the domain registry and the
 * default pairs, are handed in as a `Tables` value, so that every property
 * is stated for any tables of host tokens; `ShippedTables` are the ones the
 * program carries.
 */
module TauriHosts {
  import opened Wrappers
  import opened Text
  import opened Registry
  import opened Selector
  import opened Scan
  import opened HostsBlock

  // ---------------------------------------------------------------------
  // The optimized-IP store.
  // ---------------------------------------------------------------------

  /** The optimized-IP store: each domain with the address chosen for it by the last scan. */
  type Store = map<string, string>

  /**
   * `set_optimized_ips`: the store is replaced by the scan result's
   * addresses; the latencies are dropped and no earlier entry survives.
   */
  function SetOptimizedIps(store: Store, results: ScanResult): (r: Store)
    ensures r.Keys == results.Keys
    ensures forall d :: d in results ==> r[d] == results[d].0
    ensures forall d :: d in store && d !in results ==> d !in r
  {
    map d | d in results :: results[d].0
  }

  /** `has_optimized_ips`: the store holds at least one entry. */
  function HasOptimizedIps(store: Store): (b: bool)
    ensures b <==> exists d :: d in store
  {
    assert forall d :: d in store ==> |store| > 0 by {
      forall d | d in store
        ensures |store| > 0
      {
        assert d in store.Keys;
      }
    }
    |store| > 0
  }

  /** `get_optimized_ip`: the address stored for `domain`, if any. */
  function GetOptimizedIp(store: Store, domain: string): (r: Option<string>)
    ensures r.Some? <==> domain in store
    ensures r.Some? ==> r.value == store[domain]
  {
    if domain in store then Some(store[domain]) else None
  }

  /** `clear_optimized_ips`: afterwards nothing is stored and there is no optimized data. */
  function ClearOptimizedIps(store: Store): (r: Store)
    ensures !HasOptimizedIps(r)
    ensures forall d :: GetOptimizedIp(r, d).None?
  {
    map[]
  }

  /** A store set from scan results and then read back gives each scanned domain's address. */
  lemma SetThenGet(store: Store, results: ScanResult, domain: string)
    ensures GetOptimizedIp(SetOptimizedIps(store, results), domain)
      == if domain in results then Some(results[domain].0) else None
    ensures HasOptimizedIps(SetOptimizedIps(store, results)) <==> |results| > 0
  {
    var r := SetOptimizedIps(store, results);
    assert |r| == |r.Keys| == |results.Keys| == |results|;
  }

  /** Every stored address is a host token. */
  ghost predicate StoreTokens(store: Store)
  {
    forall d :: d in store ==> IsHostToken(store[d])
  }

  /**
   * A store set from a scan holds only candidate addresses of the scanned
   * registry, so with a registry of host tokens its addresses are host tokens.
   */
  lemma ScanStoreTokens(store: Store, reg: seq<DomainEntry>, probe: Probe, order: seq<nat>)
    requires DistinctDomains(reg) && forall i :: 0 <= i < |reg| ==> EntryTokens(reg[i])
    requires IsCompletionOrder(reg, order)
    ensures StoreTokens(SetOptimizedIps(store, ScanRegistry(reg, probe, order).results))
  {
    var results := ScanRegistry(reg, probe, order).results;
    var r := SetOptimizedIps(store, results);
    ScanSpec(reg, probe, order);
    forall d | d in r
      ensures IsHostToken(r[d])
    {
      var i :| 0 <= i < |reg| && Contributes(reg[i], probe) && reg[i].domain == d;
      var k :| IsWinner(reg[i].candidateIps, probe, k)
        && results[d] == (reg[i].candidateIps[k], probe(reg[i].candidateIps[k]).value);
      assert EntryTokens(reg[i]);
    }
  }

  // ---------------------------------------------------------------------
  // The tables and the block builders.
  // ---------------------------------------------------------------------

  /** The two fixed tables the builders read: the domain registry and the default pairs. */
  datatype Tables = Tables(registry: seq<DomainEntry>, defaults: seq<(string, string)>)

  /** Every registry entry has a candidate, and every name and address in both tables is a host token. */
  ghost predicate TablesTokens(t: Tables)
  {
    && (forall i :: 0 <= i < |t.registry| ==> |t.registry[i].candidateIps| > 0 && EntryTokens(t.registry[i]))
    && PairsAreTokens(t.defaults)
  }

  /** The address the optimized block uses for an entry: the stored one, else the first candidate, else none. */
  function ChosenIp(store: Store, entry: DomainEntry): (ip: string)
    ensures GetOptimizedIp(store, entry.domain).Some? ==> ip == GetOptimizedIp(store, entry.domain).value
    ensures GetOptimizedIp(store, entry.domain).None? && |entry.candidateIps| > 0 ==> ip == entry.candidateIps[0]
    ensures GetOptimizedIp(store, entry.domain).None? && |entry.candidateIps| == 0 ==> ip == ""
  {
    if entry.domain in store then store[entry.domain]
    else if |entry.candidateIps| > 0 then entry.candidateIps[0]
    else ""
  }

  /** The pair `p` is the chosen address and the domain of some registry entry. */
  ghost predicate PairFromRegistry(store: Store, reg: seq<DomainEntry>, p: (string, string))
  {
    exists i :: 0 <= i < |reg| && p == (ChosenIp(store, reg[i]), reg[i].domain)
  }

  /**
   * The `ip domain` pairs of the optimized block: one per registry entry,
   * in registry order, skipping entries whose chosen address is empty.
   */
  function OptimizedPairs(store: Store, reg: seq<DomainEntry>): (pairs: seq<(string, string)>)
    ensures |pairs| <= |reg|
    ensures forall k :: 0 <= k < |pairs| ==> |pairs[k].0| > 0
    ensures forall k :: 0 <= k < |pairs| ==> PairFromRegistry(store, reg, pairs[k])
  {
    if |reg| == 0 then []
    else
      var ip := ChosenIp(store, reg[0]);
      var rest := OptimizedPairs(store, reg[1..]);
      assert forall k :: 0 <= k < |rest| ==> PairFromRegistry(store, reg, rest[k]) by {
        forall k | 0 <= k < |rest|
          ensures PairFromRegistry(store, reg, rest[k])
        {
          var i :| 0 <= i < |reg[1..]| && rest[k] == (ChosenIp(store, reg[1..][i]), reg[1..][i].domain);
          assert reg[1..][i] == reg[i + 1];
        }
      }
      assert PairFromRegistry(store, reg, (ip, reg[0].domain));
      if |ip| > 0 then [(ip, reg[0].domain)] + rest else rest
  }

  /** When every entry has an address, the optimized block has exactly one pair per entry, in order. */
  lemma {:induction false} OptimizedPairsFull(store: Store, reg: seq<DomainEntry>)
    requires forall i :: 0 <= i < |reg| ==> |ChosenIp(store, reg[i])| > 0
    ensures |OptimizedPairs(store, reg)| == |reg|
    ensures forall i :: 0 <= i < |reg| ==> OptimizedPairs(store, reg)[i] == (ChosenIp(store, reg[i]), reg[i].domain)
    decreases |reg|
  {
    if |reg| > 0 {
      var tail := reg[1..];
      assert forall i :: 0 <= i < |tail| ==> tail[i] == reg[i + 1];
      OptimizedPairsFull(store, tail);
      var head := (ChosenIp(store, reg[0]), reg[0].domain);
      assert OptimizedPairs(store, reg) == [head] + OptimizedPairs(store, tail);
    }
  }

  /** Every position moved one place on. */
  function Shift(idx: seq<nat>): (r: seq<nat>)
    ensures |r| == |idx|
    ensures forall k :: 0 <= k < |r| ==> r[k] == idx[k] + 1
  {
    seq(|idx|, k requires 0 <= k < |idx| => idx[k] + 1)
  }

  /** The positions strictly increase. */
  ghost predicate Increasing(idx: seq<nat>)
  {
    forall k1, k2 :: 0 <= k1 < k2 < |idx| ==> idx[k1] < idx[k2]
  }

  /** Moving increasing positions one place on, with or without 0 in front, keeps them increasing. */
  lemma ShiftIncreasing(idx: seq<nat>)
    requires Increasing(idx)
    ensures Increasing(Shift(idx)) && Increasing([0] + Shift(idx))
  {
    var sh := Shift(idx);
    var idx2 := [0] + sh;
    forall k1, k2 | 0 <= k1 < k2 < |idx2|
      ensures idx2[k1] < idx2[k2]
    {
      assert idx2[k2] == sh[k2 - 1] == idx[k2 - 1] + 1;
      if k1 > 0 {
        assert idx2[k1] == sh[k1 - 1] == idx[k1 - 1] + 1;
      }
    }
  }

  /** The optimized block lists `entry`: its chosen address is not empty. */
  ghost predicate Listed(store: Store, entry: DomainEntry)
  {
    |ChosenIp(store, entry)| > 0
  }

  /** Every position in `idx` is that of a listed entry of `reg`. */
  ghost predicate PositionsListed(store: Store, reg: seq<DomainEntry>, idx: seq<nat>)
  {
    forall k :: 0 <= k < |idx| ==> idx[k] < |reg| && Listed(store, reg[idx[k]])
  }

  /** The position of every listed entry of `reg` is in `idx`. */
  ghost predicate PositionsComplete(store: Store, reg: seq<DomainEntry>, idx: seq<nat>)
  {
    forall i :: 0 <= i < |reg| && Listed(store, reg[i]) ==> i in idx
  }

  /** `idx` lists, in increasing order, exactly the positions of the entries of `reg` with a non-empty chosen address. */
  ghost predicate ChosenPositions(store: Store, reg: seq<DomainEntry>, idx: seq<nat>)
  {
    PositionsListed(store, reg, idx) && Increasing(idx) && PositionsComplete(store, reg, idx)
  }

  /** The k-th optimized pair is the chosen address and domain of the entry at position `idx[k]`. */
  ghost predicate PairsRead(store: Store, reg: seq<DomainEntry>, idx: seq<nat>)
  {
    && |idx| == |OptimizedPairs(store, reg)|
    && (forall k :: 0 <= k < |idx| ==>
          idx[k] < |reg| && OptimizedPairs(store, reg)[k] == (ChosenIp(store, reg[idx[k]]), reg[idx[k]].domain))
  }

  /** The optimized pairs are read, in order, at exactly the positions of the listed entries. */
  ghost predicate PairsAt(store: Store, reg: seq<DomainEntry>, idx: seq<nat>)
  {
    ChosenPositions(store, reg, idx) && PairsRead(store, reg, idx)
  }

  /** The listed positions of the registry without its first entry, moved one place on, are listed positions of the registry. */
  lemma ListedShift(store: Store, reg: seq<DomainEntry>, idx: seq<nat>)
    requires |reg| > 0 && PositionsListed(store, reg[1..], idx)
    ensures PositionsListed(store, reg, Shift(idx))
  {
    var tail := reg[1..];
    assert forall k :: 0 <= k < |idx| ==> tail[idx[k]] == reg[Shift(idx)[k]];
  }

  /** Every listed entry of the registry after the first has its position, moved one place on, in the shifted list. */
  lemma CompleteShift(store: Store, reg: seq<DomainEntry>, idx: seq<nat>)
    requires |reg| > 0 && PositionsComplete(store, reg[1..], idx)
    ensures forall i :: 1 <= i < |reg| && Listed(store, reg[i]) ==> i in Shift(idx)
  {
    var tail := reg[1..];
    var sh := Shift(idx);
    forall i | 1 <= i < |reg| && Listed(store, reg[i])
      ensures i in sh
    {
      assert tail[i - 1] == reg[i];
      var k :| 0 <= k < |idx| && idx[k] == i - 1;
      assert sh[k] == i;
    }
  }

  /** Putting a skipped entry in front moves the positions of the rest one place on. */
  lemma ChosenPositionsSkip(store: Store, reg: seq<DomainEntry>, idx: seq<nat>)
    requires |reg| > 0 && !Listed(store, reg[0])
    requires ChosenPositions(store, reg[1..], idx)
    ensures ChosenPositions(store, reg, Shift(idx))
  {
    assert PositionsListed(store, reg, Shift(idx)) by {
      ListedShift(store, reg, idx);
    }
    assert Increasing(Shift(idx)) by {
      ShiftIncreasing(idx);
    }
    assert PositionsComplete(store, reg, Shift(idx)) by {
      CompleteShift(store, reg, idx);
    }
  }

  /** Putting a listed entry in front adds position 0 and moves the rest one place on. */
  lemma ChosenPositionsKeep(store: Store, reg: seq<DomainEntry>, idx: seq<nat>)
    requires |reg| > 0 && Listed(store, reg[0])
    requires ChosenPositions(store, reg[1..], idx)
    ensures ChosenPositions(store, reg, [0] + Shift(idx))
  {
    var sh := Shift(idx);
    var idx2 := [0] + sh;
    assert PositionsListed(store, reg, idx2) by {
      ListedShift(store, reg, idx);
      assert forall k :: 0 < k < |idx2| ==> idx2[k] == sh[k - 1];
    }
    assert Increasing(idx2) by {
      ShiftIncreasing(idx);
    }
    assert PositionsComplete(store, reg, idx2) by {
      CompleteShift(store, reg, idx);
    }
  }

  /** The pairs of the registry without its first entry, read at positions moved one place on. */
  lemma PairsShifted(store: Store, reg: seq<DomainEntry>, idx: seq<nat>)
    requires |reg| > 0 && PairsRead(store, reg[1..], idx)
    ensures forall k :: 0 <= k < |idx| ==>
      Shift(idx)[k] < |reg|
      && OptimizedPairs(store, reg[1..])[k] == (ChosenIp(store, reg[Shift(idx)[k]]), reg[Shift(idx)[k]].domain)
  {
    var tail := reg[1..];
    assert forall k :: 0 <= k < |idx| ==> tail[idx[k]] == reg[Shift(idx)[k]];
  }

  /** One pair of the registry without its first entry, read at its position moved one place on. */
  lemma PairShiftedAt(store: Store, reg: seq<DomainEntry>, idx: seq<nat>, j: nat)
    requires |reg| > 0 && PairsRead(store, reg[1..], idx) && j < |idx|
    ensures Shift(idx)[j] < |reg|
    ensures OptimizedPairs(store, reg[1..])[j] == (ChosenIp(store, reg[Shift(idx)[j]]), reg[Shift(idx)[j]].domain)
  {
    assert reg[1..][idx[j]] == reg[Shift(idx)[j]];
  }

  /** The pairs of a registry whose first entry is listed: that entry's pair, then the pairs of the rest. */
  lemma OptimizedPairsCons(store: Store, reg: seq<DomainEntry>)
    requires |reg| > 0 && |ChosenIp(store, reg[0])| > 0
    ensures OptimizedPairs(store, reg) == [(ChosenIp(store, reg[0]), reg[0].domain)] + OptimizedPairs(store, reg[1..])
  {
  }

  /** Skipping a first entry with an empty chosen address reads the rest one place on. */
  lemma PairsReadSkip(store: Store, reg: seq<DomainEntry>, idx: seq<nat>)
    requires |reg| > 0 && |ChosenIp(store, reg[0])| == 0
    requires PairsRead(store, reg[1..], idx)
    ensures PairsRead(store, reg, Shift(idx))
  {
    assert OptimizedPairs(store, reg) == OptimizedPairs(store, reg[1..]);
    PairsShifted(store, reg, idx);
  }

  /** Listing a first entry reads it at position 0 and the rest one place on. */
  lemma PairsReadKeep(store: Store, reg: seq<DomainEntry>, idx: seq<nat>)
    requires |reg| > 0 && |ChosenIp(store, reg[0])| > 0
    requires PairsRead(store, reg[1..], idx)
    ensures PairsRead(store, reg, [0] + Shift(idx))
  {
    var sh := Shift(idx);
    var idx2 := [0] + sh;
    var rest := OptimizedPairs(store, reg[1..]);
    var pairs := OptimizedPairs(store, reg);
    assert pairs == [(ChosenIp(store, reg[0]), reg[0].domain)] + rest by {
      OptimizedPairsCons(store, reg);
    }
    forall k | 0 <= k < |idx2|
      ensures idx2[k] < |reg| && pairs[k] == (ChosenIp(store, reg[idx2[k]]), reg[idx2[k]].domain)
    {
      if k > 0 {
        assert pairs[k] == rest[k - 1] && idx2[k] == sh[k - 1];
        PairShiftedAt(store, reg, idx, k - 1);
      }
    }
  }

  /** The step of `OptimizedPairsInOrder` for a first entry with an empty chosen address. */
  lemma PairsAtSkip(store: Store, reg: seq<DomainEntry>, idx: seq<nat>)
    requires |reg| > 0 && !Listed(store, reg[0])
    requires PairsAt(store, reg[1..], idx)
    ensures PairsAt(store, reg, Shift(idx))
  {
    assert ChosenPositions(store, reg, Shift(idx)) by {
      ChosenPositionsSkip(store, reg, idx);
    }
    assert PairsRead(store, reg, Shift(idx)) by {
      PairsReadSkip(store, reg, idx);
    }
  }

  /** The step of `OptimizedPairsInOrder` for a first entry with a non-empty chosen address. */
  lemma PairsAtKeep(store: Store, reg: seq<DomainEntry>, idx: seq<nat>)
    requires |reg| > 0 && Listed(store, reg[0])
    requires PairsAt(store, reg[1..], idx)
    ensures PairsAt(store, reg, [0] + Shift(idx))
  {
    assert ChosenPositions(store, reg, [0] + Shift(idx)) by {
      ChosenPositionsKeep(store, reg, idx);
    }
    assert PairsRead(store, reg, [0] + Shift(idx)) by {
      PairsReadKeep(store, reg, idx);
    }
  }

  /**
   * The optimized pairs are, in registry order, exactly the entries whose
   * chosen address is non-empty: the k-th pair belongs to the k-th such
   * entry, and no such entry is left out.
   */
  lemma {:induction false} OptimizedPairsInOrder(store: Store, reg: seq<DomainEntry>)
    ensures exists idx :: PairsAt(store, reg, idx)
    decreases |reg|
  {
    if |reg| == 0 {
      assert PairsAt(store, reg, []);
    } else {
      OptimizedPairsInOrder(store, reg[1..]);
      var idx :| PairsAt(store, reg[1..], idx);
      if Listed(store, reg[0]) {
        PairsAtKeep(store, reg, idx);
      } else {
        PairsAtSkip(store, reg, idx);
      }
    }
  }

  /**
   * With a store and tables of host tokens no entry is skipped: the
   * optimized block lists every registry domain, in order, with its stored
   * address, or its first candidate when the store has none for it.
   */
  lemma OptimizedListsEveryDomain(store: Store, t: Tables)
    requires StoreTokens(store) && TablesTokens(t)
    ensures |OptimizedPairs(store, t.registry)| == |t.registry|
    ensures forall i :: 0 <= i < |t.registry| ==>
      OptimizedPairs(store, t.registry)[i] == (ChosenIp(store, t.registry[i]), t.registry[i].domain)
  {
    var reg := t.registry;
    forall i | 0 <= i < |reg|
      ensures |ChosenIp(store, reg[i])| > 0
    {
      assert EntryTokens(reg[i]);
      if reg[i].domain !in store {
        assert IsHostToken(reg[i].candidateIps[0]);
      }
    }
    OptimizedPairsFull(store, reg);
  }

  /** With a store and a registry of host tokens, the optimized pairs are host tokens. */
  lemma OptimizedPairsTokens(store: Store, reg: seq<DomainEntry>)
    requires StoreTokens(store)
    requires forall i :: 0 <= i < |reg| ==> EntryTokens(reg[i])
    ensures PairsAreTokens(OptimizedPairs(store, reg))
  {
    var pairs := OptimizedPairs(store, reg);
    forall k | 0 <= k < |pairs|
      ensures IsHostToken(pairs[k].0) && IsHostToken(pairs[k].1)
    {
      assert PairFromRegistry(store, reg, pairs[k]);
      var i :| 0 <= i < |reg| && pairs[k] == (ChosenIp(store, reg[i]), reg[i].domain);
      assert EntryTokens(reg[i]);
    }
  }

  /**
   * `build_hosts_content`: a blank line, the start marker, the comment
   * line, the optimized pairs of the registry, and the end marker.
   */
  function BuildHostsContent(store: Store, reg: seq<DomainEntry>): (r: string)
    ensures IsFramed(r, OptimizedHeader)
  {
    BlockFrame(OptimizedHeader, OptimizedPairs(store, reg));
    Block(OptimizedHeader, OptimizedPairs(store, reg))
  }

  /** With a store and a registry of host tokens, the optimized block has each marker exactly once, at its frame position. */
  lemma BuiltBlockMarkers(store: Store, reg: seq<DomainEntry>)
    requires StoreTokens(store)
    requires forall i :: 0 <= i < |reg| ==> EntryTokens(reg[i])
    ensures var b := BuildHostsContent(store, reg);
      OnlyAt(b, MarkerStart, 1) && OnlyAt(b, MarkerEnd, |b| - |MarkerEnd| - 1)
  {
    var pairs := OptimizedPairs(store, reg);
    OptimizedPairsTokens(store, reg);
    BlockStartMarker(OptimizedHeader, pairs);
    BlockEndMarker(OptimizedHeader, pairs);
  }

  /** `build_default_hosts_content`: the block without comment line, listing the default pairs. */
  function BuildDefaultHostsContent(defaults: seq<(string, string)>): (r: string)
    ensures IsFramed(r, "")
  {
    BlockFrame("", defaults);
    Block("", defaults)
  }

  /** With default pairs of host tokens, the default block has each marker exactly once, at its frame position. */
  lemma DefaultBlockMarkers(defaults: seq<(string, string)>)
    requires PairsAreTokens(defaults)
    ensures var b := BuildDefaultHostsContent(defaults);
      OnlyAt(b, MarkerStart, 1) && OnlyAt(b, MarkerEnd, |b| - |MarkerEnd| - 1)
  {
    BlockStartMarker("", defaults);
    BlockEndMarker("", defaults);
  }

  /** The block `enable_with_ips` appends: the optimized one only when asked for and the store has data. */
  function ChooseBlock(store: Store, useOptimized: bool, t: Tables): (r: string)
    ensures useOptimized && HasOptimizedIps(store) ==> r == BuildHostsContent(store, t.registry)
    ensures !(useOptimized && HasOptimizedIps(store)) ==> r == BuildDefaultHostsContent(t.defaults)
  {
    if useOptimized && HasOptimizedIps(store) then BuildHostsContent(store, t.registry)
    else BuildDefaultHostsContent(t.defaults)
  }

  /** Either block has its start marker only after its leading line break, and its end marker only before its final one. */
  lemma ChosenBlockMarkers(store: Store, useOptimized: bool, t: Tables)
    requires StoreTokens(store) && TablesTokens(t)
    ensures var b := ChooseBlock(store, useOptimized, t);
      && |b| > 0 && b[0] == '\n' && b[|b| - 1] == '\n'
      && OnlyAt(b, MarkerStart, 1)
      && OnlyAt(b, MarkerEnd, |b| - |MarkerEnd| - 1)
  {
    if useOptimized && HasOptimizedIps(store) {
      BuiltBlockMarkers(store, t.registry);
      FramedStart(BuildHostsContent(store, t.registry), OptimizedHeader);
    } else {
      DefaultBlockMarkers(t.defaults);
      FramedStart(BuildDefaultHostsContent(t.defaults), "");
    }
  }

  // ---------------------------------------------------------------------
  // Detection, disable and enable.
  // ---------------------------------------------------------------------

  /** `is_enabled`: whether the start marker occurs in the file; a missing file counts as not enabled. */
  function IsEnabled(file: HostsFile): (r: Result<bool>)
    ensures file.Missing? ==> r == Ok(false)
    ensures file.Unreadable? ==> r.Err?
    ensures file.Present? ==> r.Ok? && (r.value <==> Contains(file.text, MarkerStart))
  {
    match file
    case Missing => Ok(false)
    case Unreadable => Err(PermissionDenied)
    case Present(content) => Ok(Find(content, MarkerStart).Some?)
  }

  /**
   * The new text `disable` writes: the text before the first start marker
   * with its trailing line breaks removed, then, when anything follows the
   * first end marker once its leading line breaks are removed, a line break
   * and that rest. Without both markers the text is unchanged.
   */
  function DisableText(c: string): (r: string)
    ensures Find(c, MarkerStart).None? || Find(c, MarkerEnd).None? ==> r == c
    ensures Find(c, MarkerStart).Some? && Find(c, MarkerEnd).Some? ==>
      TrimEndNewlines(c[..Find(c, MarkerStart).value]) <= r
  {
    match (Find(c, MarkerStart), Find(c, MarkerEnd))
    case (Some(startPos), Some(end)) => SpliceOut(c, startPos, end + |MarkerEnd|)
    case _ => c
  }

  /**
   * The splice itself: the text before `startPos` without its trailing
   * line breaks, then, when the text from `endPos` on is not only line
   * breaks, a line break and that text without its leading line breaks.
   * The two positions are used as they come, in either order.
   */
  function SpliceOut(c: string, startPos: nat, endPos: nat): (r: string)
    requires startPos <= |c| && endPos <= |c|
    ensures TrimEndNewlines(c[..startPos]) <= r
    ensures r == TrimEndNewlines(c[..startPos]) <==> forall k :: endPos <= k < |c| ==> c[k] == '\n'
    ensures |r| <= startPos + 1 + (|c| - endPos)
  {
    var before := TrimEndNewlines(c[..startPos]);
    var after := TrimStartNewlines(c[endPos..]);
    if |after| > 0 then before + "\n" + after else before
  }

  /**
   * Splicing from just after a line break at `n - 1` up to the final line
   * break leaves the text before `n - 1` without its trailing line breaks.
   */
  lemma SpliceOutToLastLine(s: string, n: nat)
    requires 0 < n < |s| && s[n - 1] == '\n' && s[|s| - 1] == '\n'
    ensures SpliceOut(s, n, |s| - 1) == TrimEndNewlines(s[..n - 1])
  {
    var c := s[..n - 1];
    assert s[..n] == c + "\n";
    TrimEndNewlinesAppend(c);
    assert s[|s| - 1..] == "\n";
    TrimStartNewlinesLineBreak();
  }

  /**
   * Splicing with the end position before the start position keeps the
   * text between them twice: once before the start and once after the end.
   */
  lemma SpliceOutOverlap(a: string, x: string, m: string)
    requires |x| > 0 && x[0] != '\n' && x[|x| - 1] != '\n'
    ensures SpliceOut(a + x + m, |a| + |x|, |a|) == a + x + "\n" + x + m
  {
    var c := a + x + m;
    assert c[..|a| + |x|] == a + x;
    assert c[|a|..] == x + m;
    assert TrimEndNewlines(a + x) == a + x;
    assert TrimStartNewlines(x + m) == x + m;
  }

  /** With both markers present, `disable` splices at the first start marker and after the first end marker. */
  lemma DisableTextAt(s: string, startPos: nat, end: nat)
    requires Find(s, MarkerStart) == Some(startPos) && Find(s, MarkerEnd) == Some(end)
    ensures startPos <= |s| && end + |MarkerEnd| <= |s|
    ensures DisableText(s) == SpliceOut(s, startPos, end + |MarkerEnd|)
  {
  }

  /** Without both markers the splice does not happen and the text is unchanged. */
  lemma DisableNeedsBothMarkers(c: string)
    ensures !Contains(c, MarkerStart) || !Contains(c, MarkerEnd) ==> DisableText(c) == c
  {
  }

  /**
   * `disable`: `Ok(None)` when either marker is missing (nothing is
   * written), otherwise the text written back, or the error reading the
   * file.
   */
  function Disable(file: HostsFile): (r: Result<Option<string>>)
    ensures file.Missing? ==> r == Err(NotFound)
    ensures file.Unreadable? ==> r == Err(PermissionDenied)
    ensures file.Present? && (!Contains(file.text, MarkerStart) || !Contains(file.text, MarkerEnd)) ==>
      r == Ok(None)
    ensures file.Present? && Contains(file.text, MarkerStart) && Contains(file.text, MarkerEnd) ==>
      r.Ok? && r.value.Some? && r.value.value == DisableText(file.text)
  {
    match file
    case Missing => Err(NotFound)
    case Unreadable => Err(PermissionDenied)
    case Present(content) =>
      match (Find(content, MarkerStart), Find(content, MarkerEnd))
      case (Some(_), Some(_)) => Ok(Some(DisableText(content)))
      case _ => Ok(None)
  }

  /** The new text `enable_with_ips` leaves: an existing block is disabled first, then the chosen block is appended. */
  function EnableText(c: string, store: Store, useOptimized: bool, t: Tables): (r: string)
    ensures Contains(c, MarkerStart) ==> r == DisableText(c) + ChooseBlock(store, useOptimized, t)
    ensures !Contains(c, MarkerStart) ==> r == c + ChooseBlock(store, useOptimized, t)
  {
    var base := if Find(c, MarkerStart).Some? then DisableText(c) else c;
    base + ChooseBlock(store, useOptimized, t)
  }

  /** `enable_with_ips`: the file's new text, or the error reading it. */
  function EnableWithIps(file: HostsFile, store: Store, useOptimized: bool, t: Tables): (r: Result<string>)
    ensures file.Missing? ==> r == Err(NotFound)
    ensures file.Unreadable? ==> r == Err(PermissionDenied)
    ensures file.Present? ==> r == Ok(EnableText(file.text, store, useOptimized, t))
  {
    match file
    case Missing => Err(NotFound)
    case Unreadable => Err(PermissionDenied)
    case Present(content) => Ok(EnableText(content, store, useOptimized, t))
  }

  /** A text with neither marker. */
  ghost predicate MarkerFree(c: string)
  {
    !Contains(c, MarkerStart) && !Contains(c, MarkerEnd)
  }

  /** A prefix of a marker-free text is marker-free. */
  lemma MarkerFreePrefix(c: string, n: nat)
    requires MarkerFree(c) && n <= |c|
    ensures MarkerFree(c[..n])
  {
    if Contains(c[..n], MarkerStart) {
      ContainsPrefix(c, n, MarkerStart);
    }
    if Contains(c[..n], MarkerEnd) {
      ContainsPrefix(c, n, MarkerEnd);
    }
  }

  /** Appending a block to marker-free text puts the first start marker right after the text. */
  lemma AppendedStartMarker(c: string, store: Store, useOptimized: bool, t: Tables)
    requires MarkerFree(c) && StoreTokens(store) && TablesTokens(t)
    ensures Find(c + ChooseBlock(store, useOptimized, t), MarkerStart) == Some(|c| + 1)
  {
    var b := ChooseBlock(store, useOptimized, t);
    ChosenBlockMarkers(store, useOptimized, t);
    MarkersSingleLine();
    FindAppended(c, b, MarkerStart, 1);
  }

  /** Appending a block to marker-free text puts the first end marker right before the final line break. */
  lemma AppendedEndMarker(c: string, store: Store, useOptimized: bool, t: Tables)
    requires MarkerFree(c) && StoreTokens(store) && TablesTokens(t)
    ensures var s := c + ChooseBlock(store, useOptimized, t);
      Find(s, MarkerEnd) == Some(|s| - |MarkerEnd| - 1)
  {
    var b := ChooseBlock(store, useOptimized, t);
    ChosenBlockMarkers(store, useOptimized, t);
    MarkersSingleLine();
    var p := |b| - |MarkerEnd| - 1;
    FindAppended(c, b, MarkerEnd, p);
    assert |c + b| - |MarkerEnd| - 1 == |c| + p;
  }

  /** Disabling text that ends with an appended block leaves the text without its trailing line breaks. */
  lemma DisableAppended(c: string, store: Store, useOptimized: bool, t: Tables)
    requires MarkerFree(c) && StoreTokens(store) && TablesTokens(t)
    ensures DisableText(c + ChooseBlock(store, useOptimized, t)) == TrimEndNewlines(c)
  {
    var b := ChooseBlock(store, useOptimized, t);
    var s := c + b;
    AppendedStartMarker(c, store, useOptimized, t);
    AppendedEndMarker(c, store, useOptimized, t);
    ChosenBlockMarkers(store, useOptimized, t);
    SpliceAppended(s, |c| + 1);
    assert s[..|c|] == c;
  }

  /** A block between two marker-free texts holds the first start marker and the first end marker. */
  lemma BlockBetweenMarkers(a: string, b: string, store: Store, useOptimized: bool, t: Tables)
    requires MarkerFree(a) && MarkerFree(b) && StoreTokens(store) && TablesTokens(t)
    ensures var blk := ChooseBlock(store, useOptimized, t);
      && |blk| > |MarkerEnd| && blk[0] == '\n' && blk[|blk| - 1] == '\n'
      && Find(a + blk + b, MarkerStart) == Some(|a| + 1)
      && Find(a + blk + b, MarkerEnd) == Some(|a| + |blk| - |MarkerEnd| - 1)
  {
    var blk := ChooseBlock(store, useOptimized, t);
    ChosenBlockMarkers(store, useOptimized, t);
    MarkersSingleLine();
    var e := |blk| - |MarkerEnd| - 1;
    var s1 := a + blk;
    OnlyAtConcatRight(a, blk, MarkerStart, 1);
    OnlyAtConcatRight(a, blk, MarkerEnd, e);
    assert s1[|s1| - 1] == '\n';
    OnlyAtConcatLeft(s1, b, MarkerStart, |a| + 1);
    OnlyAtConcatLeft(s1, b, MarkerEnd, |a| + e);
    FindOnly(s1 + b, MarkerStart, |a| + 1);
    FindOnly(s1 + b, MarkerEnd, |a| + e);
  }

  /** Cutting a part that starts and ends with a line break out of the middle of `a + blk + b`, keeping one line break. */
  lemma SpliceBetween(a: string, blk: string, b: string)
    requires |blk| >= 2 && blk[0] == '\n' && blk[|blk| - 1] == '\n'
    ensures var rest := TrimStartNewlines(b);
      SpliceOut(a + blk + b, |a| + 1, |a| + |blk| - 1)
      == if |rest| > 0 then TrimEndNewlines(a) + "\n" + rest else TrimEndNewlines(a)
  {
    var s := a + blk + b;
    assert s[..|a| + 1] == a + "\n";
    TrimEndNewlinesAppend(a);
    var tail := s[|a| + |blk| - 1..];
    assert tail == "\n" + b;
    TrimStartNewlinesPrepend(b);
    assert TrimStartNewlines(tail) == TrimStartNewlines(b);
    assert TrimEndNewlines(s[..|a| + 1]) == TrimEndNewlines(a);
  }

  /**
   * Disabling a block that sits between two marker-free texts removes the
   * block and the line breaks around it: what is left is the text before
   * without its trailing line breaks, then, unless the text after is only
   * line breaks, one line break and the text after without its leading
   * line breaks.
   */
  lemma DisableBlockBetween(a: string, b: string, store: Store, useOptimized: bool, t: Tables)
    requires MarkerFree(a) && MarkerFree(b) && StoreTokens(store) && TablesTokens(t)
    ensures var rest := TrimStartNewlines(b);
      DisableText(a + ChooseBlock(store, useOptimized, t) + b)
      == if |rest| > 0 then TrimEndNewlines(a) + "\n" + rest else TrimEndNewlines(a)
  {
    var blk := ChooseBlock(store, useOptimized, t);
    BlockBetweenMarkers(a, b, store, useOptimized, t);
    MarkerFacts();
    SpliceBetween(a, blk, b);
  }

  /**
   * When the first start marker follows a line break and the first end
   * marker sits right before the final line break, `disable` cuts from
   * that line break to the end.
   */
  lemma SpliceAppended(s: string, n: nat)
    requires 0 < n < |s| && s[n - 1] == '\n' && s[|s| - 1] == '\n'
    requires Find(s, MarkerStart) == Some(n)
    requires Find(s, MarkerEnd) == Some(|s| - |MarkerEnd| - 1)
    ensures DisableText(s) == TrimEndNewlines(s[..n - 1])
  {
    DisableTextAt(s, n, |s| - |MarkerEnd| - 1);
    SpliceOutToLastLine(s, n);
  }

  /**
   * Round trip: enabling marker-free text and then disabling gives the text
   * back without its trailing line breaks.
   */
  lemma EnableThenDisable(c: string, store: Store, useOptimized: bool, t: Tables)
    requires MarkerFree(c) && StoreTokens(store) && TablesTokens(t)
    ensures DisableText(EnableText(c, store, useOptimized, t)) == TrimEndNewlines(c)
  {
    DisableAppended(c, store, useOptimized, t);
  }

  /**
   * Enabling twice leaves exactly one block, the one the second call
   * chose: the text is the original without its trailing line breaks
   * followed by that block, and each marker occurs in it exactly once.
   */
  lemma EnableTwice(c: string, store1: Store, use1: bool, store2: Store, use2: bool, t: Tables)
    requires MarkerFree(c) && StoreTokens(store1) && StoreTokens(store2) && TablesTokens(t)
    ensures var s := EnableText(EnableText(c, store1, use1, t), store2, use2, t);
      && s == TrimEndNewlines(c) + ChooseBlock(store2, use2, t)
      && OnlyAt(s, MarkerStart, |TrimEndNewlines(c)| + 1)
      && OnlyAt(s, MarkerEnd, |s| - |MarkerEnd| - 1)
  {
    var once := EnableText(c, store1, use1, t);
    var b2 := ChooseBlock(store2, use2, t);
    AppendedStartMarker(c, store1, use1, t);
    DisableAppended(c, store1, use1, t);
    assert Contains(once, MarkerStart);
    var base := TrimEndNewlines(c);
    MarkerFreePrefix(c, |base|);
    ChosenBlockMarkers(store2, use2, t);
    MarkerFacts();
    OnlyAtConcatRight(base, b2, MarkerStart, 1);
    OnlyAtConcatRight(base, b2, MarkerEnd, |b2| - |MarkerEnd| - 1);
  }

  /** After enabling, whatever the text was, the file is detected as enabled. */
  lemma EnableEnables(c: string, store: Store, useOptimized: bool, t: Tables)
    ensures IsEnabled(Present(EnableText(c, store, useOptimized, t))) == Ok(true)
  {
    var base := if Contains(c, MarkerStart) then DisableText(c) else c;
    var b := ChooseBlock(store, useOptimized, t);
    var s := base + b;
    assert s == EnableText(c, store, useOptimized, t);
    if useOptimized && HasOptimizedIps(store) {
      FramedStart(b, OptimizedHeader);
    } else {
      FramedStart(b, "");
    }
    MarkerFacts();
    OccursInConcat(base, b, MarkerStart, |base| + 1);
  }

  /**
   * The first-occurrence splice as written: when the first end marker
   * comes before the first start marker, the text between the two is kept
   * twice, once before the cut and once after it, and the start marker
   * survives, so the file still reads as enabled.
   */
  lemma DisableEndBeforeStart(s: string, startPos: nat, end: nat)
    requires Find(s, MarkerStart) == Some(startPos) && Find(s, MarkerEnd) == Some(end)
    requires end + |MarkerEnd| < startPos
    requires s[startPos - 1] != '\n' && s[end + |MarkerEnd|] != '\n'
    ensures DisableText(s) == s[..startPos] + "\n" + s[end + |MarkerEnd|..]
    ensures |DisableText(s)| == |s| + 1 + (startPos - end - |MarkerEnd|)
    ensures IsEnabled(Present(DisableText(s))) == Ok(true)
  {
    var endPos := end + |MarkerEnd|;
    DisableTextAt(s, startPos, end);
    SpliceOutKeepsBoth(s, startPos, endPos);
    var r := s[..startPos] + "\n" + s[endPos..];
    assert DisableText(s) == r;
    OccursAfterCut(s, startPos, endPos, MarkerStart);
    assert Contains(r, MarkerStart);
  }

  /** A cut that starts and ends beside characters other than line breaks trims nothing. */
  lemma SpliceOutKeepsBoth(s: string, startPos: nat, endPos: nat)
    requires endPos < startPos <= |s|
    requires s[startPos - 1] != '\n' && s[endPos] != '\n'
    ensures SpliceOut(s, startPos, endPos) == s[..startPos] + "\n" + s[endPos..]
  {
    var before := s[..startPos];
    var after := s[endPos..];
    assert before[|before| - 1] == s[startPos - 1];
    assert after[0] == s[endPos];
    assert TrimEndNewlines(before) == before;
    assert TrimStartNewlines(after) == after;
  }

  /** An occurrence at or after the point where the kept tail starts is still there after the cut. */
  lemma OccursAfterCut(s: string, startPos: nat, endPos: nat, pat: string)
    requires endPos <= startPos && OccursAt(s, pat, startPos)
    ensures OccursAt(s[..startPos] + "\n" + s[endPos..], pat, startPos + 1 + (startPos - endPos))
  {
    var r := s[..startPos] + "\n" + s[endPos..];
    var after := s[endPos..];
    var q := startPos + 1 + (startPos - endPos);
    assert r[q..q + |pat|] == after[startPos - endPos..startPos - endPos + |pat|];
    assert after[startPos - endPos..startPos - endPos + |pat|] == s[startPos..startPos + |pat|];
  }

  /** Disabling text without a block writes nothing, and the file reads as not enabled. */
  lemma DisableWithoutBlock(c: string)
    requires !Contains(c, MarkerStart)
    ensures Disable(Present(c)) == Ok(None)
    ensures IsEnabled(Present(c)) == Ok(false)
  {
  }

  // ---------------------------------------------------------------------
  // The tables the program carries.
  // ---------------------------------------------------------------------

  /** `DEFAULT_GITHUB_HOSTS`: the fallback address of each domain, in the order the default block lists them. */
  function DefaultHosts(): (r: seq<(string, string)>)
    ensures |r| == 13 && r[0] == ("140.82.113.4", "github.com")
  {
    DefaultHostsA() + DefaultHostsB() + DefaultHostsC() + DefaultHostsD() + DefaultHostsE()
  }

  /** The default pairs of the main site and its API and gist hosts. */
  function DefaultHostsA(): (r: seq<(string, string)>)
    ensures |r| == 3 && PairsAreTokens(r)
  {
    HostTokenOfLength("140.82.113.4", 12);
    HostTokenOfLength("github.com", 10);
    HostTokenOfLength("140.82.113.6", 12);
    HostTokenOfLength("api.github.com", 14);
    HostTokenOfLength("140.82.114.4", 12);
    HostTokenOfLength("gist.github.com", 15);
    [
      ("140.82.113.4", "github.com"),
      ("140.82.113.6", "api.github.com"),
      ("140.82.114.4", "gist.github.com")
    ]
  }

  /** The default pairs of the asset CDN, the Fastly edge and the raw-content host. */
  function DefaultHostsB(): (r: seq<(string, string)>)
    ensures |r| == 3 && PairsAreTokens(r)
  {
    HostTokenOfLength("185.199.108.153", 15);
    HostTokenOfLength("assets-cdn.github.com", 21);
    HostTokenOfLength("199.232.69.194", 14);
    HostTokenOfLength("github.global.ssl.fastly.net", 28);
    HostTokenOfLength("185.199.108.133", 15);
    HostTokenOfLength("raw.githubusercontent.com", 25);
    [
      ("185.199.108.153", "assets-cdn.github.com"),
      ("199.232.69.194", "github.global.ssl.fastly.net"),
      ("185.199.108.133", "raw.githubusercontent.com")
    ]
  }

  /** The default pairs of the static assets, code download and cloud content hosts. */
  function DefaultHostsC(): (r: seq<(string, string)>)
    ensures |r| == 3 && PairsAreTokens(r)
  {
    HostTokenOfLength("185.199.108.154", 15);
    HostTokenOfLength("github.githubassets.com", 23);
    HostTokenOfLength("140.82.113.10", 13);
    HostTokenOfLength("codeload.github.com", 19);
    HostTokenOfLength("185.199.108.133", 15);
    HostTokenOfLength("cloud.githubusercontent.com", 27);
    [
      ("185.199.108.154", "github.githubassets.com"),
      ("140.82.113.10", "codeload.github.com"),
      ("185.199.108.133", "cloud.githubusercontent.com")
    ]
  }

  /** The default pairs of the avatar and object content hosts. */
  function DefaultHostsD(): (r: seq<(string, string)>)
    ensures |r| == 2 && PairsAreTokens(r)
  {
    HostTokenOfLength("185.199.108.133", 15);
    HostTokenOfLength("avatars.githubusercontent.com", 29);
    HostTokenOfLength("objects.githubusercontent.com", 29);
    [
      ("185.199.108.133", "avatars.githubusercontent.com"),
      ("185.199.108.133", "objects.githubusercontent.com")
    ]
  }

  /** The default pairs of the status page and the telemetry collector. */
  function DefaultHostsE(): (r: seq<(string, string)>)
    ensures |r| == 2 && PairsAreTokens(r)
  {
    HostTokenOfLength("185.199.108.153", 15);
    HostTokenOfLength("githubstatus.com", 16);
    HostTokenOfLength("140.82.113.22", 13);
    HostTokenOfLength("collector.github.com", 20);
    [
      ("185.199.108.153", "githubstatus.com"),
      ("140.82.113.22", "collector.github.com")
    ]
  }

  /** Every default pair is an address and a domain that are host tokens. */
  lemma DefaultHostsTokens()
    ensures PairsAreTokens(DefaultHosts())
  {
    var a, b, c, d, e := DefaultHostsA(), DefaultHostsB(), DefaultHostsC(), DefaultHostsD(), DefaultHostsE();
    PairsAreTokensConcat(a, b);
    PairsAreTokensConcat(a + b, c);
    PairsAreTokensConcat(a + b + c, d);
    PairsAreTokensConcat(a + b + c + d, e);
  }

  /** The registry and the default pairs the program carries. */
  function ShippedTables(): Tables
  {
    Tables(Candidates(), DefaultHosts())
  }

  /** The shipped tables are made of host tokens, so every lemma above applies to the program's own blocks. */
  lemma ShippedTablesTokens()
    ensures TablesTokens(ShippedTables())
  {
    DefaultHostsTokens();
  }
}
