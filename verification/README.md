# free_to_github, modelled in Dafny

free_to_github speeds up access to GitHub by writing the addresses of GitHub's
domains into the system hosts file. It ships two builds that share one design:

- a command-line build: `src/network.rs`, `src/hosts.rs`, `src/logger.rs`;
- a desktop (Tauri) build: `tauri-ui/src-tauri/src/network.rs`,
  `tauri-ui/src-tauri/src/hosts.rs`.

This project models the core of both builds and proves properties about it:

- the registry of thirteen domains and their candidate addresses;
- the best-address selector and the parallel scan;
- the quick test of the key domains;
- the quality ratings and colours, and the desktop display rows;
- both hosts-file editors: enable, disable and "is enabled";
- the logger's level filter, line format and time-of-day arithmetic.

Modules, one per file:

| module | file | what it holds |
|---|---|---|
| `Wrappers` | wrappers.dfy | `Option`, `Result`, the I/O error kinds, a hosts file as read (`Missing`, `Unreadable`, `Present(text)`) |
| `Text` | text.dfy | substring search (`str::find`), newline trims, the line splitter (`BufRead::lines`), `join` |
| `Registry` | registry.dfy | `DomainEntry`, the host-token predicate, `get_domain_candidates` |
| `Selector` | selector.dfy | `LatencyResult`, `find_best_ip_for_domain` and its reference winner |
| `Scan` | scan.dfy | `test_all_domains_parallel` (both builds), `test_key_domains` |
| `Quality` | quality.dfy | latency buckets, `get_quality_rating` (both builds), `get_quality_color`, `results_to_display` |
| `HostsBlock` | block.dfy | the markers and the block of hosts lines both editors append |
| `CliHosts` | cli_hosts.dfy | the command-line hosts editor |
| `TauriHosts` | tauri_hosts.dfy | the desktop hosts editor and its cache of optimized addresses |
| `Logger` | logger.dfy | `FileLogger::enabled`, `FileLogger::log`, `chrono_time` |

Effects are inputs to the model:

- A hosts-file read is a `HostsFile` value. A write is the text the operation returns.
- The TCP probe is a function `Probe` from an address to an optional latency.
- The order in which the scan's worker threads finish is a permutation `order` of the registry's indices.
- The iteration order of a `HashMap` is a sequence `keys` listing each key once.
- The desktop's global cache of optimized addresses is a `Store` value that is passed in and returned.
- The clock is two numbers: whole seconds since the epoch and the millisecond part.

## Model

| member | source | states |
|---|---|---|
| Registry.Candidates | src/network.rs:39-183 | the registry has thirteen entries and starts with github.com; every entry has at least one candidate, starts with no best address, and is made of host tokens (no blank, line break or `#`) |
| Registry.CandidateDomainsDistinct | src/network.rs:39-183 | no domain is listed twice, so the per-domain scan results never overwrite each other |
| Registry.CandidatesWellFormed | tauri-ui/src-tauri/src/network.rs:45-189 | the desktop registry (the same table) has distinct domains, non-empty candidate lists and host tokens |
| Selector.BestOf | src/network.rs:209-241 | the loop result, when present, is a successful result with a latency, for one of the candidates and for the entry's domain |
| Selector.BestOfIsWinner | src/network.rs:212-232 | the loop result is absent exactly when every probe fails; otherwise it is the reference winner: an answering candidate that no answering candidate beats, and that is strictly faster than every answering candidate before it |
| Selector.WinnerUnique | src/network.rs:221-230 | the reference winner is unique, because ties go to the earliest candidate |
| Selector.FindBestIpForDomain | src/network.rs:209-241 | the result is absent exactly when no candidate answers, and then the entry is unchanged; otherwise it is the winner and only the entry's best address and latency change, to the winner's |
| Selector.SelectedIsFastest | src/network.rs:212-232 | if any candidate answers, a result is selected, and its latency is no greater than that of any answering candidate |
| Selector.TieGoesToFirst | src/network.rs:225-227 | when the first two candidates tie and nothing is faster, the first one is recorded as the best address |
| Selector.ExampleSelection | tauri-ui/src-tauri/src/network.rs:215-246 | with one address answering in 40 ms and one timing out, the answering one is selected at 40 ms |
| Scan.Worker | src/network.rs:265-280 | one worker adds one to the counter and one progress report naming its domain; it adds its domain's winner when some candidate answers; every other result is left unchanged |
| Scan.RunWorkersKeys | src/network.rs:258-292 | after any number of finished workers, the result's keys are exactly the contributing domains among them |
| Scan.RunWorkersValues | src/network.rs:268-270 | after any number of finished workers, each contributing domain among them maps to its winner's address and latency |
| Scan.RunWorkersEvents | src/network.rs:273-276 | in the order the workers take the counter, the k-th report carries the count k + 1, the registry size, and the domain of the k-th worker to finish |
| Scan.CounterCounts | src/network.rs:273-276 | after n workers the shared counter is n and there are n reports |
| Scan.ScanRegistry | src/network.rs:248-293 | after all workers, the counter and the number of reports both equal the number of domains |
| Scan.ScanSpec | src/network.rs:248-293 | whatever order the workers finish in, the result's keys are exactly the domains with an answering candidate, each maps to its winner, and, in the order the counter is taken, the reports count 1..n |
| Scan.DeliveredReports | src/network.rs:272-280 | whatever order the callback calls arrive in, there is one call per domain, each count from 1 to n arrives exactly once, always with the registry size, and every registry domain is named |
| Scan.TestAllDomainsParallel | src/network.rs:248-293 | the command-line scan over the shipped registry makes one report per domain |
| Scan.TestAllDomainsParallelDesktop | tauri-ui/src-tauri/src/network.rs:249-276 | whatever order the workers finish in, the desktop scan over the shipped registry has exactly the domains with an answering candidate as keys, each mapped to its winner |
| Scan.ExampleScan | src/network.rs:248-293 | a one-domain scan with one address answering in 40 ms yields that address and latency |
| Scan.KeyOutcome | src/network.rs:303-313 | the quick test reports the winner when a candidate answers; otherwise a failure with no latency, the first candidate (or "" when there is none) and the entry's domain |
| Scan.KeyResults | src/network.rs:296-317 | at most one report per registry entry; each report is the outcome of some key-domain entry, successful exactly when it has a latency |
| Scan.KeyResultsInOrder | src/network.rs:296-317 | the reports are, in registry order, the outcomes of exactly the key-domain entries, one report each |
| Scan.KeyResultsConcat | src/network.rs:301-314 | the reports for two registries joined are the reports for each, one after the other |
| Scan.KeyResultsComplete | src/network.rs:300-313 | every key-domain entry of the registry gets its report |
| Scan.TestKeyDomains | src/network.rs:296-317 | over the shipped registry the quick test gives exactly three reports: the outcomes for github.com, api.github.com and raw.githubusercontent.com, in that order |
| Scan.TestKeyDomainsReports | src/network.rs:296-317 | the three reports name the three key domains in order, each successful exactly when it has a latency |
| Quality.BucketOf | src/network.rs:320-328 | the bucket a latency falls in is the one whose inclusive range (0-50, 51-100, 101-200, 201-500, above 500) holds it |
| Quality.BucketsPartition | src/network.rs:320-328 | every latency lies in exactly one bucket |
| Quality.BucketMonotone | src/network.rs:320-328 | a slower latency never falls in a faster bucket |
| Quality.LabelsDistinguishBuckets | tauri-ui/src-tauri/src/network.rs:279-298 | distinct buckets have distinct labels (both builds) and distinct colours |
| Quality.QualityRatingCli | src/network.rs:320-328 | the command-line rating is the command-line label of the latency's bucket |
| Quality.QualityRatingDesktop | tauri-ui/src-tauri/src/network.rs:279-287 | the desktop rating is the desktop label of the latency's bucket |
| Quality.QualityColor | src/network.rs:331-339 | the colour is the colour of the latency's bucket |
| Quality.RatingAndColorAgree | tauri-ui/src-tauri/src/network.rs:279-298 | two latencies get the same rating exactly when they get the same colour |
| Quality.RatingExamples | src/network.rs:361-367 | the unit test's five latencies get the five labels |
| Quality.Row | tauri-ui/src-tauri/src/network.rs:304-310 | a display row keeps the domain, address and latency, with the desktop rating and the colour of that latency |
| Quality.Insert | tauri-ui/src-tauri/src/network.rs:313 | inserting into sorted rows keeps them sorted and adds exactly the new row |
| Quality.SortByLatency | tauri-ui/src-tauri/src/network.rs:313 | the result is sorted by latency and is a permutation of the input |
| Quality.UnsortedRows | tauri-ui/src-tauri/src/network.rs:302-311 | before sorting there is one row per map key, in iteration order |
| Quality.ResultsToDisplay | tauri-ui/src-tauri/src/network.rs:301-315 | one row per map entry, sorted by latency; every row is an entry of the map with its rating and colour; every entry has a row; no domain appears twice |
| Quality.DisplayRowsAreEntries | tauri-ui/src-tauri/src/network.rs:302-313 | every row of any reordering of the unsorted rows is a map entry with its rating and colour |
| Quality.DisplayRowsCover | tauri-ui/src-tauri/src/network.rs:302-313 | every map entry has a row in any reordering of the unsorted rows |
| Quality.DisplayRowsDistinct | tauri-ui/src-tauri/src/network.rs:313 | reordering rows with distinct domains keeps the domains distinct |
| HostsBlock.MarkerFacts | src/hosts.rs:7-8 | the markers are single lines of 30 and 28 characters that start with `#`, hold no other `#`, and differ |
| HostsBlock.MarkersApart | tauri-ui/src-tauri/src/hosts.rs:15-16 | neither marker holds the other, and the desktop header line holds neither |
| HostsBlock.HostLinesHashFree | tauri-ui/src-tauri/src/hosts.rs:72-74 | the hosts lines of token pairs hold no `#`, so neither marker |
| HostsBlock.BlockFrame | tauri-ui/src-tauri/src/hosts.rs:68-78 | a block opens with a newline and the start marker and closes with the end marker and a newline |
| HostsBlock.BlockStartMarker | tauri-ui/src-tauri/src/hosts.rs:45 | in a block, the start marker occurs only right after the opening newline |
| HostsBlock.BlockEndMarker | tauri-ui/src-tauri/src/hosts.rs:63 | in a block, the end marker occurs only just before the final newline |
| CliHosts.AnyStart | src/hosts.rs:55 | some line holds the start marker |
| CliHosts.IsEnabled | src/hosts.rs:46-56 | a missing or unreadable file is an error; otherwise "enabled" exactly when some line holds the start marker |
| CliHosts.IsEnabledIffContains | src/hosts.rs:53-56 | the line-wise test equals the test on the whole text, because the marker holds no line break |
| CliHosts.Enable | src/hosts.rs:58-75 | read errors propagate; an enabled file is left alone; otherwise the block is appended after a newline |
| CliHosts.EnableEnables | src/hosts.rs:68-72 | after an enable that writes, the file is enabled |
| CliHosts.EnableTwiceWritesOnce | src/hosts.rs:59-61 | a second enable writes nothing |
| CliHosts.FilterFrom | src/hosts.rs:86-98 | the filter keeps at most the input lines, and no kept line holds either marker |
| CliHosts.FilterLinesMatchesKept | src/hosts.rs:84-98 | the filter keeps exactly the lines that hold no marker and are not inside a block; inside means a start line comes before them with no end line in between |
| CliHosts.UnmatchedStartDropsRest | src/hosts.rs:87-89 | a start marker with no end marker after it drops every line from there to the end of the file |
| CliHosts.DropTrailingBlank | src/hosts.rs:101-103 | the result is a prefix of the lines; only whitespace-only lines were removed; its last line is not blank |
| CliHosts.Disable | src/hosts.rs:77-109 | read errors propagate; a file that is not enabled is left alone; otherwise the kept lines, minus trailing blank lines, joined with newlines |
| CliHosts.DisableDisables | src/hosts.rs:77-109 | after a disable that writes, the file is not enabled |
| CliHosts.FilterEnabled | src/hosts.rs:86-98 | marker-free lines followed by a block of marker-free lines filter back to the first lines |
| CliHosts.ReadLinesEnabled | src/hosts.rs:46-51 | the lines of a text with a block appended are the text's lines, the start marker, the hosts lines and the end marker |
| CliHosts.EnableThenDisable | src/hosts.rs:58-109 | for a marker-free file and token pairs, enable appends the block, and disable writes back the file's own lines without trailing blank lines |
| CliHosts.EnableThenDisableOneLine | src/hosts.rs:58-109 | a one-line file without a final newline comes back exactly from enabling and then disabling |
| CliHosts.GithubHosts | src/hosts.rs:11-36 | the command-line block lists 24 pairs, starting with github.com |
| CliHosts.GithubHostsTokens | src/hosts.rs:11-36 | every shipped command-line pair is two host tokens |
| CliHosts.GithubHostsRoundTrip | src/hosts.rs:58-109 | enabling the shipped pairs on a one-line file and then disabling gives the line back |
| Text.ReadLinesContains | src/hosts.rs:46-55 | some line of a text holds a single-line pattern exactly when the text holds it |
| Text.ReadLinesConcat | src/hosts.rs:46-51 | splitting a text that ends in a newline, followed by more text, gives the lines of each part one after the other |
| Text.ReadLinesOneLine | src/hosts.rs:46-51 | a line followed by a newline reads back as that one line |
| Text.ReadLinesBreakFree | src/hosts.rs:46-51 | no line holds a line break |
| Text.FindOnly | tauri-ui/src-tauri/src/hosts.rs:169 | when a pattern occurs only at one position, the search finds that position |
| Text.FindAppended | tauri-ui/src-tauri/src/hosts.rs:169 | the first occurrence in a text with something appended is the first occurrence in the appended part, shifted, when the text does not hold the pattern |
| Text.TrimEndNewlines | tauri-ui/src-tauri/src/hosts.rs:173 | the result is the longest prefix that does not end in a newline, and only newlines were removed |
| Text.TrimStartNewlines | tauri-ui/src-tauri/src/hosts.rs:174 | the result is the longest suffix that does not start with a newline, and only newlines were removed |
| TauriHosts.SetOptimizedIps | tauri-ui/src-tauri/src/hosts.rs:81-88 | the cache is replaced: its keys are exactly the scan's domains, each mapped to the scanned address |
| TauriHosts.HasOptimizedIps | tauri-ui/src-tauri/src/hosts.rs:91-94 | true exactly when the cache holds some domain |
| TauriHosts.GetOptimizedIp | tauri-ui/src-tauri/src/hosts.rs:97-100 | the cached address of a domain, absent exactly when the domain is not cached |
| TauriHosts.ClearOptimizedIps | tauri-ui/src-tauri/src/hosts.rs:103-106 | after clearing, no domain is cached |
| TauriHosts.SetThenGet | tauri-ui/src-tauri/src/hosts.rs:81-100 | after storing a scan, a lookup gives the scanned address of exactly the scanned domains, and the cache is non-empty exactly when the scan is |
| TauriHosts.ScanStoreTokens | tauri-ui/src-tauri/src/hosts.rs:81-88 | a cache filled from a scan of a token registry holds only host tokens |
| TauriHosts.ChosenIp | tauri-ui/src-tauri/src/hosts.rs:51-56 | the cached address if any, else the first candidate, else "" |
| TauriHosts.OptimizedPairs | tauri-ui/src-tauri/src/hosts.rs:50-61 | each listed pair is a non-empty chosen address with its registry domain, and the list is no longer than the registry |
| TauriHosts.OptimizedPairsInOrder | tauri-ui/src-tauri/src/hosts.rs:50-61 | the pairs are, in registry order, one per entry whose chosen address is non-empty, and no such entry is skipped |
| TauriHosts.OptimizedPairsFull | tauri-ui/src-tauri/src/hosts.rs:58-60 | when every chosen address is non-empty, every domain is listed with its chosen address |
| TauriHosts.OptimizedListsEveryDomain | tauri-ui/src-tauri/src/hosts.rs:50-61 | with a token cache and a token registry, the optimized block lists every domain |
| TauriHosts.BuildHostsContent | tauri-ui/src-tauri/src/hosts.rs:43-65 | the optimized block is framed by the markers and carries the header line |
| TauriHosts.BuiltBlockMarkers | tauri-ui/src-tauri/src/hosts.rs:43-65 | each marker occurs exactly once in the optimized block, at its frame position |
| TauriHosts.BuildDefaultHostsContent | tauri-ui/src-tauri/src/hosts.rs:68-78 | the default block is framed by the markers, without a header |
| TauriHosts.DefaultBlockMarkers | tauri-ui/src-tauri/src/hosts.rs:68-78 | each marker occurs exactly once in the default block, at its frame position |
| TauriHosts.ChooseBlock | tauri-ui/src-tauri/src/hosts.rs:147-151 | the optimized block exactly when it is asked for and the cache is non-empty, else the default block |
| TauriHosts.IsEnabled | tauri-ui/src-tauri/src/hosts.rs:117-124 | a missing file is not enabled; an unreadable one is an error; otherwise enabled exactly when the text holds the start marker |
| TauriHosts.DisableText | tauri-ui/src-tauri/src/hosts.rs:169-188 | a text missing either marker is left as it is; otherwise the result starts with the text before the first start marker, minus trailing newlines. What the cut leaves is stated by `DisableBlockBetween`, `DisableAppended` and `DisableEndBeforeStart`; the no-marker case by `DisableNeedsBothMarkers` |
| TauriHosts.DisableNeedsBothMarkers | tauri-ui/src-tauri/src/hosts.rs:188 | a text missing either marker is left unchanged |
| TauriHosts.SpliceOut | tauri-ui/src-tauri/src/hosts.rs:173-183 | the result starts with the text before the cut, minus trailing newlines; it is exactly that when only newlines follow the cut; it adds at most one newline to the two kept parts |
| TauriHosts.Disable | tauri-ui/src-tauri/src/hosts.rs:165-190 | read errors propagate; a text missing either marker writes nothing; with both markers the spliced text is written |
| TauriHosts.DisableBlockBetween | tauri-ui/src-tauri/src/hosts.rs:165-186 | disabling a block that sits between two marker-free texts leaves the text before it, minus trailing newlines, then, unless the text after is only newlines, one newline and the text after, minus leading newlines |
| TauriHosts.SpliceOutToLastLine | tauri-ui/src-tauri/src/hosts.rs:170-183 | a cut that reaches the final newline leaves the part before it with trailing newlines removed |
| TauriHosts.EnableText | tauri-ui/src-tauri/src/hosts.rs:137-162 | an enabled text is first disabled; then the chosen block is appended |
| TauriHosts.EnableWithIps | tauri-ui/src-tauri/src/hosts.rs:137-162 | read errors propagate; otherwise the result is the enabled text |
| TauriHosts.DisableAppended | tauri-ui/src-tauri/src/hosts.rs:165-190 | disabling a marker-free text with a block appended gives the text with trailing newlines removed |
| TauriHosts.SpliceAppended | tauri-ui/src-tauri/src/hosts.rs:170-183 | a block found at the very end of a text is cut back to the text before it |
| TauriHosts.EnableThenDisable | tauri-ui/src-tauri/src/hosts.rs:137-190 | enabling a marker-free text and then disabling gives the text with trailing newlines removed |
| TauriHosts.EnableTwice | tauri-ui/src-tauri/src/hosts.rs:142-145 | enabling twice leaves one block, the second one chosen |
| TauriHosts.EnableEnables | tauri-ui/src-tauri/src/hosts.rs:137-162 | after an enable, the file is enabled |
| TauriHosts.DisableEndBeforeStart | tauri-ui/src-tauri/src/hosts.rs:169-183 | when the end marker comes before the start marker, disable duplicates the text between them, grows the file, and leaves it enabled |
| TauriHosts.SpliceOutOverlap | tauri-ui/src-tauri/src/hosts.rs:173-183 | a cut whose end lies before its start writes the middle part twice |
| TauriHosts.DisableWithoutBlock | tauri-ui/src-tauri/src/hosts.rs:165-190 | disabling a file without the start marker writes nothing, and it stays not enabled |
| TauriHosts.DefaultHosts | tauri-ui/src-tauri/src/hosts.rs:19-33 | the default block lists 13 pairs, starting with github.com |
| TauriHosts.DefaultHostsTokens | tauri-ui/src-tauri/src/hosts.rs:19-33 | every default pair is two host tokens |
| TauriHosts.ShippedTablesTokens | tauri-ui/src-tauri/src/hosts.rs:19-61 | the shipped registry and default pairs are made of host tokens, so the round-trip lemmas apply to the program's own blocks |
| Logger.Enabled | src/logger.rs:89-91 | a record is logged exactly when its level is error, warn or info |
| Logger.TimeOfDay | src/logger.rs:132-135 | a valid clock (hours < 24, minutes < 60, seconds < 60) whose second of the day is the total seconds modulo 86400 |
| Logger.ClockUnique | src/logger.rs:132-135 | two valid clocks with the same second of the day are equal |
| Logger.TimeOfDayUnique | src/logger.rs:132-135 | the clock the arithmetic yields is the only valid clock for that second of the day |
| Logger.TimeOfDayPeriodic | src/logger.rs:132 | adding whole days does not change the time of day |
| Logger.ParseDigitsOfDigits | src/logger.rs:137 | reading back the decimal digits of a number gives the number |
| Logger.Pad | src/logger.rs:137 | zero padding gives at least the width, exactly the width when the number fits, and reads back as the number |
| Logger.ChronoTime | src/logger.rs:119-138 | with milliseconds below 1000 the timestamp has twelve characters, separators at 2, 5 and 8, and zero-padded all-digit fields that read back as the hours, minutes, seconds and milliseconds |
| Logger.ChronoTimeExample | src/logger.rs:119-138 | one day plus 3661 seconds and 5 ms is "01:01:01.005" |
| Logger.Log | src/logger.rs:93-107 | a line is produced exactly for an enabled level; its length is fixed by the level name and message, and it is made of the bracketed time, the bracketed level name and the message |
| Logger.LogKeepsMessage | src/logger.rs:98-104 | the message is the tail of the line, after the fixed-width prefix |

## Left out

- File access is not modelled. This covers opening, reading, appending and `fs::write` in both editors, `get_hosts_path`, and `check_permission` in both builds (src/hosts.rs:38-44, 111-127; tauri-ui/src-tauri/src/hosts.rs:108-114, 192-209). A read is a `HostsFile` input. A write is the returned text.
- `CliHosts.Disable` reads the file twice, in `is_enabled` and in `read_hosts_file` (src/hosts.rs:78-82). `CliHosts.Enable` reads it once, in `is_enabled`, and then opens it for append (src/hosts.rs:59-72). The model reads the file once and assumes nothing changes between that read and the write.
- `TauriHosts.EnableText`: the nested `disable()` re-reads the file from disk. The model applies the disable to the text already read.
- The desktop `enable` and `enable_optimized` wrappers (tauri-ui/src-tauri/src/hosts.rs:127-134) are `EnableWithIps` with the flag fixed.
- Threads, `Arc`, `Mutex` and `OnceLock` are not modelled. The scan is a fold over a completion order given as a parameter. The desktop cache is a value passed in and returned.
- `test_ip_latency` (src/network.rs:186-206) is the `Probe` parameter: TCP connect with a timeout and the clock.
- The `HashMap` iteration order in `results_to_display` is the `keys` parameter.
- `Quality.SortByLatency`: the contract states sortedness and permutation, not the stability of `sort_by_key`. Rows with equal latency may be ordered either way.
- Latencies (`u64`) and the clock's seconds are `nat`. Overflow of `u64` is out of reach for these values.
- `Text.ReadLines` works on characters. Invalid UTF-8, which makes `BufRead::lines` fail, is not modelled.
- The logger's file handling is not modelled: `init`, `get_log_path`, `write_log`, `flush` and `dirs_home` (src/logger.rs:17-86, 109-116, 142-156). Neither is reading `SystemTime`.
- The metrics helpers `log_connection_metrics` and `log_hosts_operation` (src/logger.rs:159-196) are not modelled. They only format and log.
- The GUI entry points (`src/main.rs`, `src/main_gui.rs`, `tauri-ui/src-tauri/src/lib.rs`) are not part of this model.
- `TauriHosts.Disable`: if the end marker comes before the start marker, disable duplicates the text between them and the file stays enabled. This is modelled as written; see `DisableEndBeforeStart` and `SpliceOutOverlap`. The model does not state a corrected splice.
- `CliHosts.Disable`: the command-line disable joins lines with `"\n"` and writes no final newline. `EnableThenDisable` states the result as written; the file does not come back byte for byte.
- `TauriHosts.Disable`: its own contract states the error cases, the no-write case, and that the written text is `DisableText`. What the splice leaves is stated by `DisableBlockBetween`, `DisableAppended`, `SpliceAppended` and `DisableEndBeforeStart`.
- `Scan.RunWorkersEvents`: the reports are listed in the order the workers take the counter. Each worker releases the lock before it calls back (src/network.rs:276-280), so the callback may receive them in another order. `DeliveredReports` states what holds for every delivery order.
- `Scan.ScanSpec`: with `progress_callback` set to `None` (src/network.rs:249, 278) no call is made. The model's reports are the calls that would be made with a callback.
- `Scan.Worker`: its report is appended when it takes the counter. The moment the callback actually runs is left to `DeliveredReports`.
