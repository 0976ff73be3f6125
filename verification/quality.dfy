/**
 * Latency quality: the five fixed latency buckets, their labels (Chinese in
 * the command-line build, English in the desktop build) and colours, and
 * the desktop build's conversion of a scan result into display rows sorted
 * by latency.
 */
module Quality {

  /** An unsigned 8-bit colour component (Rust's `u8`). */
  newtype u8 = x: int | 0 <= x < 256

  /** An RGB colour. */
  datatype Rgb = Rgb(r: u8, g: u8, b: u8)

  /** The five latency buckets, fastest first. */
  datatype Bucket = Excellent | Good | Fair | Slow | VerySlow

  /** The reference classification: a bucket's inclusive latency range, in milliseconds. */
  ghost predicate InBucket(latencyMs: nat, b: Bucket)
  {
    match b
    case Excellent => latencyMs <= 50
    case Good => 51 <= latencyMs <= 100
    case Fair => 101 <= latencyMs <= 200
    case Slow => 201 <= latencyMs <= 500
    case VerySlow => 500 < latencyMs
  }

  /** The buckets' order, fastest first. */
  function Rank(b: Bucket): nat
  {
    match b
    case Excellent => 0
    case Good => 1
    case Fair => 2
    case Slow => 3
    case VerySlow => 4
  }

  /** The bucket a latency falls in. */
  function BucketOf(latencyMs: nat): (b: Bucket)
    ensures InBucket(latencyMs, b)
  {
    if latencyMs <= 50 then Excellent
    else if latencyMs <= 100 then Good
    else if latencyMs <= 200 then Fair
    else if latencyMs <= 500 then Slow
    else VerySlow
  }

  /** The buckets partition the latencies: every latency lies in exactly one bucket. */
  lemma BucketsPartition(latencyMs: nat, b: Bucket)
    ensures InBucket(latencyMs, b) <==> b == BucketOf(latencyMs)
  {
  }

  /** A slower latency never lands in a faster bucket. */
  lemma BucketMonotone(a: nat, b: nat)
    requires a <= b
    ensures Rank(BucketOf(a)) <= Rank(BucketOf(b))
  {
  }

  /** The command-line label of a bucket. */
  function CliLabel(b: Bucket): string
  {
    match b
    case Excellent => "极佳"
    case Good => "良好"
    case Fair => "一般"
    case Slow => "较慢"
    case VerySlow => "很慢"
  }

  /** The desktop label of a bucket. */
  function DesktopLabel(b: Bucket): string
  {
    match b
    case Excellent => "Excellent"
    case Good => "Good"
    case Fair => "Fair"
    case Slow => "Slow"
    case VerySlow => "Very Slow"
  }

  /** The colour of a bucket: green, light green, yellow, orange, red. */
  function BucketColor(b: Bucket): Rgb
  {
    match b
    case Excellent => Rgb(80, 220, 120)
    case Good => Rgb(120, 200, 80)
    case Fair => Rgb(220, 180, 50)
    case Slow => Rgb(255, 140, 60)
    case VerySlow => Rgb(255, 80, 80)
  }

  /** Distinct buckets have distinct labels and colours, in both builds. */
  lemma LabelsDistinguishBuckets(b1: Bucket, b2: Bucket)
    requires b1 != b2
    ensures CliLabel(b1) != CliLabel(b2)
    ensures DesktopLabel(b1) != DesktopLabel(b2)
    ensures BucketColor(b1) != BucketColor(b2)
  {
    assert CliLabel(b1)[0] != CliLabel(b2)[0];
    assert DesktopLabel(b1)[0] != DesktopLabel(b2)[0];
  }

  /** `get_quality_rating` of the command-line build. */
  function QualityRatingCli(latencyMs: nat): (r: string)
    ensures r == CliLabel(BucketOf(latencyMs))
  {
    if latencyMs <= 50 then "极佳"
    else if latencyMs <= 100 then "良好"
    else if latencyMs <= 200 then "一般"
    else if latencyMs <= 500 then "较慢"
    else "很慢"
  }

  /** `get_quality_rating` of the desktop build. */
  function QualityRatingDesktop(latencyMs: nat): (r: string)
    ensures r == DesktopLabel(BucketOf(latencyMs))
  {
    if latencyMs <= 50 then "Excellent"
    else if latencyMs <= 100 then "Good"
    else if latencyMs <= 200 then "Fair"
    else if latencyMs <= 500 then "Slow"
    else "Very Slow"
  }

  /** `get_quality_color` (identical in both builds). */
  function QualityColor(latencyMs: nat): (r: Rgb)
    ensures r == BucketColor(BucketOf(latencyMs))
  {
    if latencyMs <= 50 then Rgb(80, 220, 120)
    else if latencyMs <= 100 then Rgb(120, 200, 80)
    else if latencyMs <= 200 then Rgb(220, 180, 50)
    else if latencyMs <= 500 then Rgb(255, 140, 60)
    else Rgb(255, 80, 80)
  }

  /**
   * Rating and colour agree: two latencies get the same label (in either
   * build) exactly when they get the same colour.
   */
  lemma RatingAndColorAgree(a: nat, b: nat)
    ensures QualityRatingCli(a) == QualityRatingCli(b) <==> QualityColor(a) == QualityColor(b)
    ensures QualityRatingDesktop(a) == QualityRatingDesktop(b) <==> QualityColor(a) == QualityColor(b)
  {
    if BucketOf(a) != BucketOf(b) {
      LabelsDistinguishBuckets(BucketOf(a), BucketOf(b));
    }
  }

  /** The rating examples of the command-line unit test. */
  lemma RatingExamples()
    ensures QualityRatingCli(30) == "极佳"
    ensures QualityRatingCli(80) == "良好"
    ensures QualityRatingCli(150) == "一般"
    ensures QualityRatingCli(300) == "较慢"
    ensures QualityRatingCli(1000) == "很慢"
  {
  }

  // ---------------------------------------------------------------------
  // Display rows.
  // ---------------------------------------------------------------------

  /** `SpeedTestResult`: one display row. */
  datatype SpeedTestResult = SpeedTestResult(
    domain: string,
    ip: string,
    latencyMs: nat,
    quality: string,
    color: Rgb)

  /** The row for one scan-result entry. */
  function Row(domain: string, ip: string, latencyMs: nat): (r: SpeedTestResult)
    ensures r.quality == DesktopLabel(BucketOf(r.latencyMs)) && r.color == BucketColor(BucketOf(r.latencyMs))
    ensures r.domain == domain && r.ip == ip && r.latencyMs == latencyMs
  {
    SpeedTestResult(domain, ip, latencyMs, QualityRatingDesktop(latencyMs), QualityColor(latencyMs))
  }

  /** Rows are in non-decreasing latency order. */
  ghost predicate SortedByLatency(rows: seq<SpeedTestResult>)
  {
    forall i, j :: 0 <= i < j < |rows| ==> rows[i].latencyMs <= rows[j].latencyMs
  }

  /** Insert `x` into sorted `rows` ahead of every row that is not faster than it. */
  function Insert(x: SpeedTestResult, rows: seq<SpeedTestResult>): (r: seq<SpeedTestResult>)
    requires SortedByLatency(rows)
    ensures SortedByLatency(r)
    ensures multiset(r) == multiset(rows) + multiset{x}
    ensures |r| == |rows| + 1
    ensures r[0] == x || (|rows| > 0 && r[0] == rows[0])
  {
    if |rows| == 0 || x.latencyMs <= rows[0].latencyMs then
      [x] + rows
    else
      assert rows == [rows[0]] + rows[1..];
      [rows[0]] + Insert(x, rows[1..])
  }

  /** `sort_by_key` on the latency: a sorted permutation of the rows. */
  function SortByLatency(rows: seq<SpeedTestResult>): (r: seq<SpeedTestResult>)
    ensures SortedByLatency(r)
    ensures multiset(r) == multiset(rows)
    ensures |r| == |rows|
  {
    if |rows| == 0 then []
    else
      assert rows == [rows[0]] + rows[1..];
      Insert(rows[0], SortByLatency(rows[1..]))
  }

  /** `keys` lists each domain of `results` exactly once: an iteration order of the map. */
  ghost predicate IsKeyOrder(results: map<string, (string, nat)>, keys: seq<string>)
  {
    && (forall k :: 0 <= k < |keys| ==> keys[k] in results)
    && (forall d :: d in results ==> d in keys)
    && (forall k1, k2 :: 0 <= k1 < k2 < |keys| ==> keys[k1] != keys[k2])
  }

  /** A duplicate-free sequence has as many elements as its set. */
  lemma {:induction false} DistinctCard<T>(s: seq<T>)
    requires forall k1, k2 :: 0 <= k1 < k2 < |s| ==> s[k1] != s[k2]
    ensures |set k | 0 <= k < |s| :: s[k]| == |s|
  {
    if |s| > 0 {
      var t := s[..|s| - 1];
      DistinctCard(t);
      var st := set k | 0 <= k < |t| :: t[k];
      var ss := set k | 0 <= k < |s| :: s[k];
      assert ss == st + {s[|s| - 1]};
      assert s[|s| - 1] !in st;
    }
  }

  /**
   * `results_to_display`: one row per scan-result entry, in the map's
   * iteration order `keys`, then sorted by latency. The rows are exactly
   * the map's entries, each domain once, each with the rating and colour of
   * its latency, and they are in non-decreasing latency order.
   */
  function ResultsToDisplay(results: map<string, (string, nat)>, keys: seq<string>): (r: seq<SpeedTestResult>)
    requires IsKeyOrder(results, keys)
    ensures |r| == |results|
    ensures SortedByLatency(r)
    ensures forall k :: 0 <= k < |r| ==>
      && r[k].domain in results
      && results[r[k].domain] == (r[k].ip, r[k].latencyMs)
      && r[k].quality == QualityRatingDesktop(r[k].latencyMs)
      && r[k].color == QualityColor(r[k].latencyMs)
    ensures forall d :: d in results ==> exists k :: 0 <= k < |r| && r[k].domain == d
    ensures forall k1, k2 :: 0 <= k1 < k2 < |r| ==> r[k1].domain != r[k2].domain
  {
    var rows := UnsortedRows(results, keys);
    var r := SortByLatency(rows);
    KeyOrderCount(results, keys);
    DisplayRowsAreEntries(results, keys, rows, r);
    DisplayRowsCover(results, keys, rows, r);
    DisplayRowsDistinct(rows, r);
    r
  }

  /** The rows before sorting: one per key, in the order of `keys`. */
  function UnsortedRows(results: map<string, (string, nat)>, keys: seq<string>): (rows: seq<SpeedTestResult>)
    requires IsKeyOrder(results, keys)
    ensures |rows| == |keys|
    ensures forall k :: 0 <= k < |keys| ==> rows[k] == Row(keys[k], results[keys[k]].0, results[keys[k]].1)
  {
    seq(|keys|, k requires 0 <= k < |keys| => Row(keys[k], results[keys[k]].0, results[keys[k]].1))
  }

  /** An iteration order lists as many keys as the map has entries. */
  lemma KeyOrderCount(results: map<string, (string, nat)>, keys: seq<string>)
    requires IsKeyOrder(results, keys)
    ensures |keys| == |results|
  {
    DistinctCard(keys);
    assert (set k | 0 <= k < |keys| :: keys[k]) == results.Keys;
  }

  /** Each row of a permutation of the unsorted rows is a map entry with its rating and colour. */
  lemma DisplayRowsAreEntries(results: map<string, (string, nat)>, keys: seq<string>, rows: seq<SpeedTestResult>, r: seq<SpeedTestResult>)
    requires IsKeyOrder(results, keys)
    requires |rows| == |keys|
    requires forall k :: 0 <= k < |keys| ==> rows[k] == Row(keys[k], results[keys[k]].0, results[keys[k]].1)
    requires multiset(r) == multiset(rows)
    ensures forall k :: 0 <= k < |r| ==>
      && r[k].domain in results
      && results[r[k].domain] == (r[k].ip, r[k].latencyMs)
      && r[k].quality == QualityRatingDesktop(r[k].latencyMs)
      && r[k].color == QualityColor(r[k].latencyMs)
  {
    forall k | 0 <= k < |r|
      ensures r[k].domain in results && results[r[k].domain] == (r[k].ip, r[k].latencyMs)
      ensures r[k].quality == QualityRatingDesktop(r[k].latencyMs) && r[k].color == QualityColor(r[k].latencyMs)
    {
      assert r[k] in multiset(rows);
      var j :| 0 <= j < |rows| && r[k] == rows[j];
    }
  }

  /** Every map entry has a row in a permutation of the unsorted rows. */
  lemma DisplayRowsCover(results: map<string, (string, nat)>, keys: seq<string>, rows: seq<SpeedTestResult>, r: seq<SpeedTestResult>)
    requires IsKeyOrder(results, keys)
    requires |rows| == |keys|
    requires forall k :: 0 <= k < |keys| ==> rows[k].domain == keys[k]
    requires multiset(r) == multiset(rows)
    ensures forall d :: d in results ==> exists k :: 0 <= k < |r| && r[k].domain == d
  {
    forall d | d in results
      ensures exists k :: 0 <= k < |r| && r[k].domain == d
    {
      var j :| 0 <= j < |keys| && keys[j] == d;
      assert rows[j] in multiset(r);
      var k :| 0 <= k < |r| && r[k] == rows[j];
    }
  }

  /** A permutation of rows with distinct domains has distinct domains. */
  lemma DisplayRowsDistinct(rows: seq<SpeedTestResult>, r: seq<SpeedTestResult>)
    requires forall j1, j2 :: 0 <= j1 < j2 < |rows| ==> rows[j1].domain != rows[j2].domain
    requires multiset(r) == multiset(rows)
    ensures forall k1, k2 :: 0 <= k1 < k2 < |r| ==> r[k1].domain != r[k2].domain
  {
    forall k1, k2 | 0 <= k1 < k2 < |r|
      ensures r[k1].domain != r[k2].domain
    {
      assert r[k1] in multiset(rows) && r[k2] in multiset(rows);
      var j1 :| 0 <= j1 < |rows| && r[k1] == rows[j1];
      var j2 :| 0 <= j2 < |rows| && r[k2] == rows[j2];
      if j1 == j2 {
        DuplicateInPermutation(r, rows, k1, k2);
      }
    }
  }

  /** Two positions of a permutation of a duplicate-free sequence hold different elements. */
  lemma DuplicateInPermutation(r: seq<SpeedTestResult>, rows: seq<SpeedTestResult>, k1: nat, k2: nat)
    requires multiset(r) == multiset(rows)
    requires forall j1, j2 :: 0 <= j1 < j2 < |rows| ==> rows[j1].domain != rows[j2].domain
    requires k1 < k2 < |r|
    ensures r[k1] != r[k2]
  {
    if r[k1] == r[k2] {
      var x := r[k1];
      assert multiset(r)[x] >= 2 by {
        assert r == r[..k2] + [r[k2]] + r[k2 + 1..];
        assert r[k1] in r[..k2];
      }
      OnceInDistinct(rows, x);
    }
  }

  /** In a sequence with pairwise distinct domains, no row occurs twice. */
  lemma {:induction false} OnceInDistinct(rows: seq<SpeedTestResult>, x: SpeedTestResult)
    requires forall j1, j2 :: 0 <= j1 < j2 < |rows| ==> rows[j1].domain != rows[j2].domain
    ensures multiset(rows)[x] <= 1
  {
    if |rows| > 0 {
      var t := rows[..|rows| - 1];
      assert rows == t + [rows[|rows| - 1]];
      OnceInDistinct(t, x);
      if x == rows[|rows| - 1] {
        assert x !in t;
      }
    }
  }
}
