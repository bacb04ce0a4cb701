/**
 * The client-version medians page: runs grouped by (client version,
 * workload) into buckets holding a run count, the medians of throughput,
 * drop rate and duration, and the latest start; the order in which
 * workloads are listed; the per-version table and the version-against-
 * version comparison table with its throughput and drop-rate deltas and
 * their colours; and the filter that keeps only the workloads every
 * selected version ran.
 */
module Medians {
  import opened Wrappers
  import opened Sorting
  import opened Collect
  import opened OrderedDict
  import opened Reports
  import Text

  // ---------------------------------------------------------------------------
  // `statistics.median`.
  // ---------------------------------------------------------------------------

  /** Ascending order on reals, the order `statistics.median` sorts by. */
  predicate RealLe(a: real, b: real) {
    a <= b
  }

  function Ascending(xs: seq<real>): (s: seq<real>)
    ensures |s| == |xs| && multiset(s) == multiset(xs)
  {
    StableSort(xs, RealLe)
  }

  /** `statistics.median(xs)`: the middle sorted value, or the mean of the two middle ones for an even count. */
  function Median(xs: seq<real>): (m: real)
    requires xs != []
    ensures |xs| % 2 == 1 ==> m in xs
  {
    var s := Ascending(xs);
    var n := |s|;
    if n % 2 == 1 then
      assert s[n / 2] in multiset(xs);
      s[n / 2]
    else (s[n / 2 - 1] + s[n / 2]) / 2.0
  }

  lemma AscendingSorted(xs: seq<real>)
    ensures Sorted(Ascending(xs), RealLe)
  {
    StableSortSorted(xs, RealLe);
  }

  /**
   * The median splits the values in half: in ascending order, every value in
   * the lower half is at most the median and every value in the upper half at
   * least the median.
   */
  lemma MedianSplits(xs: seq<real>)
    requires xs != []
    ensures var s := Ascending(xs);
      forall i :: 0 <= i < |s| ==>
        (i < (|s| + 1) / 2 ==> s[i] <= Median(xs)) && (i >= |s| / 2 ==> Median(xs) <= s[i])
  {
    AscendingSorted(xs);
  }

  /** The median lies between some value and some value of the input. */
  lemma MedianBetween(xs: seq<real>)
    requires xs != []
    ensures exists i :: 0 <= i < |xs| && xs[i] <= Median(xs)
    ensures exists j :: 0 <= j < |xs| && Median(xs) <= xs[j]
  {
    var s := Ascending(xs);
    MedianSplits(xs);
    assert s[0] <= Median(xs) && Median(xs) <= s[|s| - 1];
    assert s[0] in multiset(xs) && s[|s| - 1] in multiset(xs);
    var i :| 0 <= i < |xs| && xs[i] == s[0];
    var j :| 0 <= j < |xs| && xs[j] == s[|s| - 1];
  }

  /** The median does not depend on the order of the values. */
  lemma MedianPermutation(xs: seq<real>, ys: seq<real>)
    requires xs != [] && multiset(xs) == multiset(ys)
    ensures ys != [] && Median(xs) == Median(ys)
  {
    assert |xs| == |multiset(xs)| == |ys|;
    AscendingSorted(xs);
    AscendingSorted(ys);
    SortedUnique(Ascending(xs), Ascending(ys), RealLe);
  }

  /** One value is its own median; two values have their mean as median. */
  lemma MedianSmall(a: real, b: real)
    ensures Median([a]) == a
    ensures Median([a, b]) == (a + b) / 2.0
  {
    AscendingSorted([a, b]);
    var s := Ascending([a, b]);
    assert s[0] in multiset([a, b]) && s[1] in multiset([a, b]);
    assert multiset(s) == multiset{a, b};
    if s[0] == a {
      assert s[1] in multiset{a, b} - multiset{a};
    } else {
      assert s[0] == b;
      assert s[1] in multiset{a, b} - multiset{b};
    }
  }

  // ---------------------------------------------------------------------------
  // Grouping rows by (client version, workload): the first loop of
  // `_compute_version_workload_stats`.
  // ---------------------------------------------------------------------------

  /** The rows of one version, by workload name, in order of first appearance. */
  type Group = seq<(string, seq<RunRow>)>

  /** The groups by client version, in order of first appearance. */
  type Grouped = seq<(string, Group)>

  /** `stats.get(v, {}).get(w)` over the grouped rows. */
  function RowsAt(g: Grouped, v: string, w: string): Option<seq<RunRow>> {
    match Lookup(g, v)
    case None => None
    case Some(inner) => Lookup(inner, w)
  }

  /** One pass of the loop: `setdefault` the version, then the workload, and append the row. */
  function AddRow(g: Grouped, row: RunRow): Grouped {
    var v := VersionKey(row);
    var inner := Lookup(g, v).GetOr([]);
    var rs := Lookup(inner, row.workloadName).GetOr([]);
    Put(g, v, Put(inner, row.workloadName, rs + [row]))
  }

  function GroupRows(rows: seq<RunRow>): (g: Grouped)
    ensures UniqueKeys(g)
    ensures g == [] <==> rows == []
  {
    if rows == [] then [] else AddRow(GroupRows(rows[..|rows| - 1]), rows[|rows| - 1])
  }

  /** The row belongs to the bucket of version `v` and workload `w`. */
  predicate InBucket(v: string, w: string, row: RunRow) {
    VersionKey(row) == v && row.workloadName == w
  }

  /** The rows of one bucket, in input order: the reference for what the loop collects. */
  function BucketRows(rows: seq<RunRow>, v: string, w: string): (b: seq<RunRow>)
    ensures |b| <= |rows|
  {
    if rows == [] then []
    else
      var last := rows[|rows| - 1];
      BucketRows(rows[..|rows| - 1], v, w) + if InBucket(v, w, last) then [last] else []
  }

  /** Adding a row extends its own bucket by that row and leaves every other bucket alone. */
  lemma AddRowRowsAt(g: Grouped, row: RunRow, v: string, w: string)
    ensures RowsAt(AddRow(g, row), v, w) ==
      if InBucket(v, w, row) then Some(RowsAt(g, v, w).GetOr([]) + [row]) else RowsAt(g, v, w)
  {
  }

  /** After the loop, each bucket holds exactly the rows of that version and workload, in input order. */
  lemma {:induction false} GroupRowsBuckets(rows: seq<RunRow>, v: string, w: string)
    ensures RowsAt(GroupRows(rows), v, w) ==
      if BucketRows(rows, v, w) == [] then None else Some(BucketRows(rows, v, w))
  {
    if rows != [] {
      var init, last := rows[..|rows| - 1], rows[|rows| - 1];
      var g0, b0 := GroupRows(init), BucketRows(init, v, w);
      GroupRowsBuckets(init, v, w);
      AddRowRowsAt(g0, last, v, w);
      assert GroupRows(rows) == AddRow(g0, last);
      if InBucket(v, w, last) {
        assert RowsAt(g0, v, w).GetOr([]) == b0;
        assert BucketRows(rows, v, w) == b0 + [last];
      } else {
        assert BucketRows(rows, v, w) == b0;
      }
    }
  }

  /** A bucket holds exactly the rows with its version and workload. */
  lemma {:induction false} BucketRowsMembers(rows: seq<RunRow>, v: string, w: string, row: RunRow)
    ensures row in BucketRows(rows, v, w) <==> row in rows && InBucket(v, w, row)
  {
    if rows != [] {
      BucketRowsMembers(rows[..|rows| - 1], v, w, row);
      assert rows == rows[..|rows| - 1] + [rows[|rows| - 1]];
    }
  }

  /** Every row lands in the bucket of its own version (a falsy version as "Unknown") and workload, and in no other. */
  lemma RowInOneBucket(rows: seq<RunRow>, row: RunRow, v: string, w: string)
    requires row in rows
    ensures row in BucketRows(rows, VersionKey(row), row.workloadName)
    ensures row in BucketRows(rows, v, w) ==> v == VersionKey(row) && w == row.workloadName
  {
    BucketRowsMembers(rows, VersionKey(row), row.workloadName, row);
    BucketRowsMembers(rows, v, w, row);
  }

  function RowCount(rs: seq<RunRow>): nat {
    |rs|
  }

  function GroupTotal(inner: Group): nat {
    SumBy(inner, RowCount)
  }

  /** The number of rows held over all buckets. */
  function GroupedTotal(g: Grouped): nat {
    SumBy(g, GroupTotal)
  }

  lemma AddRowTotal(g: Grouped, row: RunRow)
    ensures GroupedTotal(AddRow(g, row)) == GroupedTotal(g) + 1
  {
    var v := VersionKey(row);
    var inner := Lookup(g, v).GetOr([]);
    var rs := Lookup(inner, row.workloadName).GetOr([]);
    SumByPut(inner, row.workloadName, rs + [row], RowCount);
    SumByPut(g, v, Put(inner, row.workloadName, rs + [row]), GroupTotal);
  }

  /** No row is lost or counted twice: the buckets hold as many rows as the input. */
  lemma {:induction false} GroupRowsTotal(rows: seq<RunRow>)
    ensures GroupedTotal(GroupRows(rows)) == |rows|
  {
    if rows != [] {
      GroupRowsTotal(rows[..|rows| - 1]);
      AddRowTotal(GroupRows(rows[..|rows| - 1]), rows[|rows| - 1]);
    }
  }

  // ---------------------------------------------------------------------------
  // One bucket's summary: the second loop of `_compute_version_workload_stats`.
  // ---------------------------------------------------------------------------

  /** The payload a bucket is replaced by. */
  datatype Bucket = Bucket(
    runs: nat,
    medianTps: Option<real>,
    medianDrop: Option<real>,
    medianDuration: Option<real>,
    latest: Option<int>)

  function RowTps(row: RunRow): real {
    row.achievedTps
  }

  function RowDropRate(row: RunRow): real {
    row.dropRate
  }

  function RowDuration(row: RunRow): real {
    row.durationS
  }

  /** `statistics.median(xs) if rows else None`. */
  function MedianOrNone(xs: seq<real>): Option<real> {
    if xs == [] then None else Some(Median(xs))
  }

  /** The bucket's rows sorted newest first, then counted, their medians taken and the first start kept. */
  function Summary(rs: seq<RunRow>): (b: Bucket)
    ensures b.runs == |rs|
    ensures b.latest.Some? <==> rs != []
    ensures b.medianTps.Some? <==> rs != []
  {
    var sorted := StableSort(rs, StartGe);
    Bucket(
      |sorted|,
      MedianOrNone(MapSeq(sorted, RowTps)),
      MedianOrNone(MapSeq(sorted, RowDropRate)),
      MedianOrNone(MapSeq(sorted, RowDuration)),
      if sorted == [] then None else Some(sorted[0].start))
  }

  /** The median of a field over the sorted rows is the median over the rows as they came. */
  lemma SortedMedian(rs: seq<RunRow>, field: RunRow -> real)
    ensures MedianOrNone(MapSeq(StableSort(rs, StartGe), field)) == MedianOrNone(MapSeq(rs, field))
  {
    var sorted := StableSort(rs, StartGe);
    MapSeqMultiset(sorted, rs, field);
    if rs != [] {
      MedianPermutation(MapSeq(sorted, field), MapSeq(rs, field));
    }
  }

  /** The first of the rows sorted newest first has the largest start. */
  lemma SortedLatest(rs: seq<RunRow>)
    requires rs != []
    ensures var sorted := StableSort(rs, StartGe);
      sorted[0] in rs && forall i :: 0 <= i < |rs| ==> rs[i].start <= sorted[0].start
  {
    var sorted := StableSort(rs, StartGe);
    StableSortSorted(rs, StartGe);
    assert sorted[0] in multiset(rs);
    forall i | 0 <= i < |rs|
      ensures rs[i].start <= sorted[0].start
    {
      assert rs[i] in multiset(sorted);
      var j :| 0 <= j < |sorted| && sorted[j] == rs[i];
      assert j == 0 || StartGe(sorted[0], sorted[j]);
    }
  }

  /**
   * A bucket counts its rows, holds the medians of throughput, drop rate and
   * duration over them (in whatever order they came) and the latest start
   * among them; an empty bucket holds no medians and no latest start.
   */
  lemma SummaryMeaning(rs: seq<RunRow>)
    ensures Summary(rs).runs == |rs|
    ensures Summary(rs).medianTps == MedianOrNone(MapSeq(rs, RowTps))
    ensures Summary(rs).medianDrop == MedianOrNone(MapSeq(rs, RowDropRate))
    ensures Summary(rs).medianDuration == MedianOrNone(MapSeq(rs, RowDuration))
    ensures Summary(rs).latest.None? <==> rs == []
    ensures Summary(rs).latest.Some? ==>
      (exists i :: 0 <= i < |rs| && rs[i].start == Summary(rs).latest.value) &&
      forall i :: 0 <= i < |rs| ==> rs[i].start <= Summary(rs).latest.value
  {
    SortedMedian(rs, RowTps);
    SortedMedian(rs, RowDropRate);
    SortedMedian(rs, RowDuration);
    if rs != [] {
      SortedLatest(rs);
      var first := StableSort(rs, StartGe)[0];
      var i :| 0 <= i < |rs| && rs[i] == first;
    }
  }

  // ---------------------------------------------------------------------------
  // The statistics by version and workload.
  // ---------------------------------------------------------------------------

  type WorkloadStats = seq<(string, Bucket)>

  /** `{version: {workload: bucket}}`, keys in order of first appearance. */
  type Stats = seq<(string, WorkloadStats)>

  function SummarizeGroup(inner: Group): WorkloadStats {
    MapValues(inner, Summary)
  }

  /** The result of `_compute_version_workload_stats(rows)`. */
  function VersionWorkloadStats(rows: seq<RunRow>): (s: Stats)
    ensures UniqueKeys(s)
    ensures s == [] <==> rows == []
  {
    var g := GroupRows(rows);
    var s := MapValues(g, SummarizeGroup);
    assert forall i :: 0 <= i < |s| ==> s[i].0 == g[i].0;
    s
  }

  /** `stats.get(v, {}).get(w)`. */
  function EntryOf(stats: Stats, v: string, w: string): Option<Bucket> {
    match Lookup(stats, v)
    case None => None
    case Some(inner) => Lookup(inner, w)
  }

  /** The entry for a version and workload is the summary of exactly that bucket's rows, and there is none for an empty bucket. */
  lemma EntryOfStats(rows: seq<RunRow>, v: string, w: string)
    ensures EntryOf(VersionWorkloadStats(rows), v, w) ==
      if BucketRows(rows, v, w) == [] then None else Some(Summary(BucketRows(rows, v, w)))
  {
    var g := GroupRows(rows);
    GroupRowsBuckets(rows, v, w);
    LookupMapValues(g, SummarizeGroup, v);
    match Lookup(g, v)
    case None =>
    case Some(inner) =>
      LookupMapValues(inner, Summary, w);
  }

  /** An entry exists for a version and workload exactly when some row has that version and workload. */
  lemma EntryExists(rows: seq<RunRow>, v: string, w: string)
    ensures EntryOf(VersionWorkloadStats(rows), v, w).Some? <==>
      exists i :: 0 <= i < |rows| && InBucket(v, w, rows[i])
  {
    EntryOfStats(rows, v, w);
    var b := BucketRows(rows, v, w);
    if b != [] {
      BucketRowsMembers(rows, v, w, b[0]);
      var i :| 0 <= i < |rows| && rows[i] == b[0];
    }
    if exists i :: 0 <= i < |rows| && InBucket(v, w, rows[i]) {
      var i :| 0 <= i < |rows| && InBucket(v, w, rows[i]);
      BucketRowsMembers(rows, v, w, rows[i]);
    }
  }

  /** Every entry has a latest start: an entry is never without one. */
  lemma EntryHasLatest(rows: seq<RunRow>, v: string, w: string)
    requires EntryOf(VersionWorkloadStats(rows), v, w).Some?
    ensures EntryOf(VersionWorkloadStats(rows), v, w).value.latest.Some?
    ensures EntryOf(VersionWorkloadStats(rows), v, w).value.runs >= 1
  {
    EntryOfStats(rows, v, w);
    SummaryMeaning(BucketRows(rows, v, w));
  }

  function Runs(b: Bucket): nat {
    b.runs
  }

  function WorkloadRuns(inner: WorkloadStats): nat {
    SumBy(inner, Runs)
  }

  /** The sum of `runs` over every version and workload. */
  function RunsTotal(stats: Stats): nat {
    SumBy(stats, WorkloadRuns)
  }

  lemma {:induction false} SumByMapValues<V, W>(od: seq<(string, V)>, f: V -> W, size: W -> nat, size0: V -> nat)
    requires forall i :: 0 <= i < |od| ==> size(f(od[i].1)) == size0(od[i].1)
    ensures SumBy(MapValues(od, f), size) == SumBy(od, size0)
  {
    if od != [] {
      SumByMapValues(od[..|od| - 1], f, size, size0);
      assert MapValues(od, f)[..|od| - 1] == MapValues(od[..|od| - 1], f);
    }
  }

  /** The runs of all buckets add up to the number of rows. */
  lemma RunsTotalIsRowCount(rows: seq<RunRow>)
    ensures RunsTotal(VersionWorkloadStats(rows)) == |rows|
  {
    var g := GroupRows(rows);
    forall i | 0 <= i < |g|
      ensures WorkloadRuns(SummarizeGroup(g[i].1)) == GroupTotal(g[i].1)
    {
      var inner := g[i].1;
      forall j | 0 <= j < |inner|
        ensures Runs(Summary(inner[j].1)) == RowCount(inner[j].1)
      {
        SummaryMeaning(inner[j].1);
      }
      SumByMapValues(inner, Summary, Runs, RowCount);
    }
    SumByMapValues(g, SummarizeGroup, WorkloadRuns, GroupTotal);
    GroupRowsTotal(rows);
  }

  /**
   * `_compute_version_workload_stats`: append every row to its bucket, then
   * replace each bucket by its summary, version by version and workload by
   * workload. The nested dictionaries that Python updates in place are
   * rebuilt here as new values.
   */
  method ComputeVersionWorkloadStats(rows: seq<RunRow>) returns (stats: Stats)
    ensures stats == VersionWorkloadStats(rows)
  {
    var g := CollectBuckets(rows);
    stats := [];
    for i := 0 to |g|
      invariant stats == MapValues(g[..i], SummarizeGroup)
    {
      var (version, workloads) := g[i];
      var summarized := SummarizeBuckets(workloads);
      MapValuesSnoc(g, SummarizeGroup, i);
      stats := stats + [(version, summarized)];
    }
    assert g[..|g|] == g;
    assert stats == MapValues(g, SummarizeGroup);
  }

  lemma GroupRowsStep(rows: seq<RunRow>, i: int)
    requires 0 <= i < |rows|
    ensures GroupRows(rows[..i + 1]) == AddRow(GroupRows(rows[..i]), rows[i])
  {
    assert rows[..i + 1][..i] == rows[..i];
  }

  /** The first loop: each row appended to the list of its version and workload. */
  method CollectBuckets(rows: seq<RunRow>) returns (g: Grouped)
    ensures g == GroupRows(rows)
  {
    g := [];
    for i := 0 to |rows|
      invariant g == GroupRows(rows[..i])
    {
      var row := rows[i];
      var version := VersionKey(row);
      var versionStats := Lookup(g, version).GetOr([]);
      var workloadRows := Lookup(versionStats, row.workloadName).GetOr([]);
      GroupRowsStep(rows, i);
      g := Put(g, version, Put(versionStats, row.workloadName, workloadRows + [row]));
    }
    assert rows[..|rows|] == rows;
  }

  /** The inner second loop: each workload's rows sorted newest first and replaced by their summary. */
  method SummarizeBuckets(workloads: Group) returns (summarized: WorkloadStats)
    ensures summarized == SummarizeGroup(workloads)
  {
    summarized := [];
    for j := 0 to |workloads|
      invariant summarized == MapValues(workloads[..j], Summary)
    {
      var (workload, workloadRows) := workloads[j];
      var sorted := StableSort(workloadRows, StartGe);
      var bucket := Bucket(
        |sorted|,
        MedianOrNone(MapSeq(sorted, RowTps)),
        MedianOrNone(MapSeq(sorted, RowDropRate)),
        MedianOrNone(MapSeq(sorted, RowDuration)),
        if sorted == [] then None else Some(sorted[0].start));
      assert bucket == Summary(workloadRows);
      MapValuesSnoc(workloads, Summary, j);
      summarized := summarized + [(workload, bucket)];
    }
    assert workloads[..|workloads|] == workloads;
  }

  // ---------------------------------------------------------------------------
  // `_workload_order`: workloads by their latest run across the selected
  // versions, newest first.
  // ---------------------------------------------------------------------------

  /** `entry["latest"]` when the entry is there and its latest start is set. */
  function LatestOf(entry: Option<Bucket>): Option<int> {
    if entry.Some? then entry.value.latest else None
  }

  /** The latest starts of the workload in the given versions, in version order. */
  function Timestamps(w: string, versions: seq<string>, stats: Stats): (ts: seq<int>)
    ensures |ts| <= |versions|
  {
    if versions == [] then []
    else
      var last := LatestOf(EntryOf(stats, versions[|versions| - 1], w));
      Timestamps(w, versions[..|versions| - 1], stats) + if last.Some? then [last.value] else []
  }

  /** Python's `max` over a non-empty list of integers. */
  function SeqMax(xs: seq<int>): (m: int)
    requires xs != []
    ensures m in xs
    ensures forall i :: 0 <= i < |xs| ==> xs[i] <= m
  {
    if |xs| == 1 then xs[0]
    else
      var m := SeqMax(xs[..|xs| - 1]);
      assert forall i :: 0 <= i < |xs| - 1 ==> xs[i] == xs[..|xs| - 1][i];
      if xs[|xs| - 1] > m then xs[|xs| - 1] else m
  }

  /**
   * The sort key of a workload: the largest latest start over the versions,
   * or `None` (the `datetime.min` sentinel) when no version has one.
   */
  function SortKey(w: string, versions: seq<string>, stats: Stats): (k: Option<int>)
    ensures k.Some? ==> k.value in Timestamps(w, versions, stats)
  {
    var ts := Timestamps(w, versions, stats);
    if ts == [] then None else Some(SeqMax(ts))
  }

  lemma {:induction false} TimestampsMembers(w: string, versions: seq<string>, stats: Stats, t: int)
    ensures t in Timestamps(w, versions, stats) <==>
      exists v :: v in versions && LatestOf(EntryOf(stats, v, w)) == Some(t)
  {
    if versions != [] {
      var init, last := versions[..|versions| - 1], versions[|versions| - 1];
      TimestampsMembers(w, init, stats, t);
      assert versions == init + [last];
      if exists v :: v in versions && LatestOf(EntryOf(stats, v, w)) == Some(t) {
        var v :| v in versions && LatestOf(EntryOf(stats, v, w)) == Some(t);
        assert v in init || v == last;
      }
    }
  }

  /**
   * The key is `None` exactly when no selected version has a latest start for
   * the workload; otherwise it is one of those starts and no smaller than any.
   */
  lemma SortKeyMeaning(w: string, versions: seq<string>, stats: Stats)
    ensures SortKey(w, versions, stats).None? <==>
      forall v :: v in versions ==> LatestOf(EntryOf(stats, v, w)).None?
    ensures SortKey(w, versions, stats).Some? ==>
      (exists v :: v in versions && LatestOf(EntryOf(stats, v, w)) == SortKey(w, versions, stats)) &&
      forall v :: v in versions && LatestOf(EntryOf(stats, v, w)).Some? ==>
        LatestOf(EntryOf(stats, v, w)).value <= SortKey(w, versions, stats).value
  {
    var ts := Timestamps(w, versions, stats);
    forall v | v in versions && LatestOf(EntryOf(stats, v, w)).Some?
      ensures ts != [] && LatestOf(EntryOf(stats, v, w)).value <= SeqMax(ts)
    {
      var t := LatestOf(EntryOf(stats, v, w)).value;
      TimestampsMembers(w, versions, stats, t);
      var i :| 0 <= i < |ts| && ts[i] == t;
    }
    if ts != [] {
      TimestampsMembers(w, versions, stats, SeqMax(ts));
    }
  }

  /** On statistics computed from rows, a workload's key is `None` exactly when no selected version ran it. */
  lemma SortKeyNoneWhenAbsent(rows: seq<RunRow>, w: string, versions: seq<string>)
    ensures SortKey(w, versions, VersionWorkloadStats(rows)).None? <==>
      forall v :: v in versions ==> EntryOf(VersionWorkloadStats(rows), v, w).None?
  {
    var stats := VersionWorkloadStats(rows);
    SortKeyMeaning(w, versions, stats);
    forall v | v in versions && EntryOf(stats, v, w).Some?
      ensures LatestOf(EntryOf(stats, v, w)).Some?
    {
      EntryHasLatest(rows, v, w);
    }
  }

  /** The loop of `sort_key`: collect the latest starts, then take their maximum. */
  method ComputeSortKey(w: string, versions: seq<string>, stats: Stats) returns (key: Option<int>)
    ensures key == SortKey(w, versions, stats)
  {
    var timestamps: seq<int> := [];
    for i := 0 to |versions|
      invariant timestamps == Timestamps(w, versions[..i], stats)
    {
      var entry := EntryOf(stats, versions[i], w);
      if entry.Some? && entry.value.latest.Some? {
        timestamps := timestamps + [entry.value.latest.value];
      }
      assert versions[..i + 1][..i] == versions[..i];
    }
    assert versions[..|versions|] == versions;
    if timestamps != [] {
      key := Some(SeqMax(timestamps));
    } else {
      key := None;
    }
  }

  /** Newest first, with the `datetime.min` sentinel (`None`) below every start. */
  predicate KeyGe(a: Option<int>, b: Option<int>) {
    match (a, b)
    case (_, None) => true
    case (None, Some(_)) => false
    case (Some(x), Some(y)) => x >= y
  }

  type Keyed = (Option<int>, string)

  predicate KeyedGe(a: Keyed, b: Keyed) {
    KeyGe(a.0, b.0)
  }

  function Unkeyed(p: Keyed): string {
    p.1
  }

  /** Each workload paired with its sort key, as `sorted(key=...)` decorates its input. */
  function KeyedWorkloads(workloads: seq<string>, versions: seq<string>, stats: Stats): (r: seq<Keyed>)
    ensures |r| == |workloads|
    ensures forall i :: 0 <= i < |r| ==> r[i] == (SortKey(workloads[i], versions, stats), workloads[i])
  {
    if workloads == [] then []
    else
      var init := workloads[..|workloads| - 1];
      var w := workloads[|workloads| - 1];
      KeyedWorkloads(init, versions, stats) + [(SortKey(w, versions, stats), w)]
  }

  /** `sorted(workloads, key=sort_key, reverse=True)`. */
  function WorkloadOrder(workloads: seq<string>, versions: seq<string>, stats: Stats): (r: seq<string>)
    ensures |r| == |workloads|
  {
    MapSeq(StableSort(KeyedWorkloads(workloads, versions, stats), KeyedGe), Unkeyed)
  }

  /** `_workload_order`: the keys computed one workload at a time, then the stable sort on them. */
  method OrderWorkloads(workloads: seq<string>, versions: seq<string>, stats: Stats) returns (ordered: seq<string>)
    ensures ordered == WorkloadOrder(workloads, versions, stats)
  {
    var keyed: seq<Keyed> := [];
    for i := 0 to |workloads|
      invariant keyed == KeyedWorkloads(workloads[..i], versions, stats)
    {
      var key := ComputeSortKey(workloads[i], versions, stats);
      keyed := keyed + [(key, workloads[i])];
    }
    assert workloads[..|workloads|] == workloads;
    ordered := MapSeq(StableSort(keyed, KeyedGe), Unkeyed);
  }

  /** The order lists every workload it was given, as many times as it was given. */
  lemma WorkloadOrderPermutation(workloads: seq<string>, versions: seq<string>, stats: Stats)
    ensures multiset(WorkloadOrder(workloads, versions, stats)) == multiset(workloads)
  {
    var keyed := KeyedWorkloads(workloads, versions, stats);
    MapSeqMultiset(StableSort(keyed, KeyedGe), keyed, Unkeyed);
    assert MapSeq(keyed, Unkeyed) == workloads;
  }

  /** The order is by key, newest latest start first. */
  lemma WorkloadOrderSorted(workloads: seq<string>, versions: seq<string>, stats: Stats)
    ensures var r := WorkloadOrder(workloads, versions, stats);
      forall i, j :: 0 <= i < j < |r| ==> KeyGe(SortKey(r[i], versions, stats), SortKey(r[j], versions, stats))
  {
    var keyed := KeyedWorkloads(workloads, versions, stats);
    var sorted := StableSort(keyed, KeyedGe);
    StableSortSorted(keyed, KeyedGe);
    forall k | 0 <= k < |sorted|
      ensures sorted[k].0 == SortKey(sorted[k].1, versions, stats)
    {
      assert sorted[k] in multiset(keyed);
      var i :| 0 <= i < |keyed| && keyed[i] == sorted[k];
    }
  }

  /** A workload that no selected version has a latest start for comes after every workload that has one. */
  lemma WorkloadOrderUnseenLast(workloads: seq<string>, versions: seq<string>, stats: Stats, i: int, j: int)
    requires var r := WorkloadOrder(workloads, versions, stats);
      0 <= i < j < |r| && SortKey(r[i], versions, stats).None?
    ensures SortKey(WorkloadOrder(workloads, versions, stats)[j], versions, stats).None?
  {
    WorkloadOrderSorted(workloads, versions, stats);
  }

  // ---------------------------------------------------------------------------
  // `_build_base_table`.
  // ---------------------------------------------------------------------------

  /** One row of a table on page 2: the workload it is about and its cells, before formatting. */
  datatype TableRow<C> = TableRow(workload: string, cells: C)

  /** The workload column of a table. */
  function TableWorkloads<C>(table: seq<TableRow<C>>): (ws: seq<string>)
    ensures |ws| == |table|
    ensures forall i :: 0 <= i < |table| ==> ws[i] == table[i].workload
  {
    seq(|table|, i requires 0 <= i < |table| => table[i].workload)
  }

  /** One row of the reference version's table: the workload and its bucket. */
  type BaseRow = TableRow<Bucket>

  /** The workload has an entry under the version. */
  predicate HasEntry(stats: Stats, version: string, w: string) {
    EntryOf(stats, version, w).Some?
  }

  /**
   * `_build_base_table`: a row for each workload, in the given order, that
   * has an entry under the version; the others are skipped.
   */
  method BuildBaseTable(version: string, workloads: seq<string>, stats: Stats) returns (table: seq<BaseRow>)
    ensures TableWorkloads(table) == Filter(workloads, (w: string) => HasEntry(stats, version, w))
    ensures forall i :: 0 <= i < |table| ==> EntryOf(stats, version, table[i].workload) == Some(table[i].cells)
  {
    ghost var keep := (w: string) => HasEntry(stats, version, w);
    table := [];
    for i := 0 to |workloads|
      invariant TableWorkloads(table) == Filter(workloads[..i], keep)
      invariant forall k :: 0 <= k < |table| ==> EntryOf(stats, version, table[k].workload) == Some(table[k].cells)
    {
      var entry := EntryOf(stats, version, workloads[i]);
      FilterSnoc(workloads[..i], workloads[i], keep);
      assert workloads[..i + 1] == workloads[..i] + [workloads[i]];
      if entry.None? {
        continue;
      }
      assert TableWorkloads(table + [TableRow(workloads[i], entry.value)]) == TableWorkloads(table) + [workloads[i]];
      table := table + [TableRow(workloads[i], entry.value)];
    }
    assert workloads[..|workloads|] == workloads;
  }

  /** The base table lists exactly the given workloads that the version ran. */
  lemma BaseTableMembers(workloads: seq<string>, version: string, stats: Stats, w: string)
    ensures w in Filter(workloads, (w: string) => HasEntry(stats, version, w)) <==>
      w in workloads && EntryOf(stats, version, w).Some?
  {
    FilterMembers(workloads, (w: string) => HasEntry(stats, version, w), w);
  }

  // ---------------------------------------------------------------------------
  // `_tps_delta` and `_drop_delta`.
  // ---------------------------------------------------------------------------

  /**
   * A delta cell: `n/a` when either median is missing; otherwise the
   * difference, the number shown before the unit, and the percentage
   * relative to the second argument (`—` when that is zero).
   */
  datatype Delta = NotAvailable | Delta(value: real, shown: real, pct: Option<real>)

  /** The first element of the returned pair: the number the colours are computed from. */
  function DeltaValue(d: Delta): Option<real> {
    if d.Delta? then Some(d.value) else None
  }

  function Percent(delta: real, secondary: real): Option<real> {
    if secondary != 0.0 then Some(delta / secondary * 100.0) else None
  }

  /** `_tps_delta(primary, secondary)`: shown as `{delta:+.2f} ({pct:+.1f}%)`. */
  function TpsDelta(primary: Option<real>, secondary: Option<real>): (d: Delta)
    ensures d.NotAvailable? <==> primary.None? || secondary.None?
    ensures d.Delta? ==> d.value == primary.value - secondary.value && d.shown == d.value
    ensures d.Delta? ==> (d.pct.Some? <==> secondary.value != 0.0)
    ensures d.Delta? && d.pct.Some? ==> d.pct.value * secondary.value == d.value * 100.0
  {
    if primary.None? || secondary.None? then NotAvailable
    else
      var delta := primary.value - secondary.value;
      Delta(delta, delta, Percent(delta, secondary.value))
  }

  /** `_drop_delta(primary, secondary)`: shown in percentage points, `{delta * 100:+.2f}pp ({pct:+.1f}%)`. */
  function DropDelta(primary: Option<real>, secondary: Option<real>): (d: Delta)
    ensures d.NotAvailable? <==> primary.None? || secondary.None?
    ensures d.Delta? ==> d.value == primary.value - secondary.value && d.shown == d.value * 100.0
    ensures d.Delta? ==> (d.pct.Some? <==> secondary.value != 0.0)
    ensures d.Delta? && d.pct.Some? ==> d.pct.value * secondary.value == d.value * 100.0
  {
    if primary.None? || secondary.None? then NotAvailable
    else
      var delta := primary.value - secondary.value;
      Delta(delta, delta * 100.0, Percent(delta, secondary.value))
  }

  /** The two deltas differ only in how the number is shown: same value, same percentage. */
  lemma DeltasAgree(primary: Option<real>, secondary: Option<real>)
    ensures DeltaValue(TpsDelta(primary, secondary)) == DeltaValue(DropDelta(primary, secondary))
    ensures TpsDelta(primary, secondary).Delta? ==>
      TpsDelta(primary, secondary).pct == DropDelta(primary, secondary).pct
  {
  }

  // ---------------------------------------------------------------------------
  // `_build_comparison_table`.
  // ---------------------------------------------------------------------------

  /** `entry.get("median_tps") if entry else None`. */
  function MedianTpsOf(entry: Option<Bucket>): Option<real> {
    if entry.Some? then entry.value.medianTps else None
  }

  /** `entry.get("median_drop") if entry else None`. */
  function MedianDropOf(entry: Option<Bucket>): Option<real> {
    if entry.Some? then entry.value.medianDrop else None
  }

  /** The cells of a comparison row: both entries and both deltas. */
  datatype CompareCells = CompareCells(base: Option<Bucket>, other: Option<Bucket>, tps: Delta, drop: Delta)

  /** One row of a comparison table. */
  type CompareRow = TableRow<CompareCells>

  /** The workload is in the reference version, the compared one, or both. */
  predicate InEither(stats: Stats, baseVersion: string, compareVersion: string, w: string) {
    EntryOf(stats, baseVersion, w).Some? || EntryOf(stats, compareVersion, w).Some?
  }

  /** The row for one workload: the reference version first, the compared version second. */
  function CompareRowFor(stats: Stats, baseVersion: string, compareVersion: string, w: string): CompareRow {
    var base, other := EntryOf(stats, baseVersion, w), EntryOf(stats, compareVersion, w);
    TableRow(w, CompareCells(base, other,
      TpsDelta(MedianTpsOf(base), MedianTpsOf(other)),
      DropDelta(MedianDropOf(base), MedianDropOf(other))))
  }

  /**
   * `_build_comparison_table`: a row for each workload, in the given order,
   * that either version ran, and beside the rows the list of throughput
   * deltas and the list of drop-rate deltas, one per row.
   */
  method BuildComparisonTable(baseVersion: string, compareVersion: string, workloads: seq<string>, stats: Stats)
    returns (table: seq<CompareRow>, tpsDeltas: seq<Option<real>>, dropDeltas: seq<Option<real>>)
    ensures |tpsDeltas| == |table| && |dropDeltas| == |table|
    ensures TableWorkloads(table) == Filter(workloads, (w: string) => InEither(stats, baseVersion, compareVersion, w))
    ensures forall i :: 0 <= i < |table| ==> table[i] == CompareRowFor(stats, baseVersion, compareVersion, table[i].workload)
    ensures forall i :: 0 <= i < |table| ==>
      tpsDeltas[i] == DeltaValue(table[i].cells.tps) && dropDeltas[i] == DeltaValue(table[i].cells.drop)
  {
    ghost var keep := (w: string) => InEither(stats, baseVersion, compareVersion, w);
    table, tpsDeltas, dropDeltas := [], [], [];
    for i := 0 to |workloads|
      invariant |tpsDeltas| == |table| && |dropDeltas| == |table|
      invariant TableWorkloads(table) == Filter(workloads[..i], keep)
      invariant forall k :: 0 <= k < |table| ==> table[k] == CompareRowFor(stats, baseVersion, compareVersion, table[k].workload)
      invariant forall k :: 0 <= k < |table| ==>
        tpsDeltas[k] == DeltaValue(table[k].cells.tps) && dropDeltas[k] == DeltaValue(table[k].cells.drop)
    {
      var workload := workloads[i];
      var baseEntry := EntryOf(stats, baseVersion, workload);
      var compareEntry := EntryOf(stats, compareVersion, workload);
      FilterSnoc(workloads[..i], workload, keep);
      assert workloads[..i + 1] == workloads[..i] + [workload];
      if baseEntry.None? && compareEntry.None? {
        continue;
      }
      var tps := TpsDelta(MedianTpsOf(baseEntry), MedianTpsOf(compareEntry));
      tpsDeltas := tpsDeltas + [DeltaValue(tps)];
      var drop := DropDelta(MedianDropOf(baseEntry), MedianDropOf(compareEntry));
      dropDeltas := dropDeltas + [DeltaValue(drop)];
      var row := TableRow(workload, CompareCells(baseEntry, compareEntry, tps, drop));
      assert TableWorkloads(table + [row]) == TableWorkloads(table) + [workload];
      table := table + [row];
    }
    assert workloads[..|workloads|] == workloads;
  }

  /** The comparison table lists exactly the given workloads that at least one of the two versions ran. */
  lemma ComparisonTableMembers(workloads: seq<string>, baseVersion: string, compareVersion: string, stats: Stats, w: string)
    ensures w in Filter(workloads, (w: string) => InEither(stats, baseVersion, compareVersion, w)) <==>
      w in workloads && (EntryOf(stats, baseVersion, w).Some? || EntryOf(stats, compareVersion, w).Some?)
  {
    FilterMembers(workloads, (w: string) => InEither(stats, baseVersion, compareVersion, w), w);
  }

  /**
   * The throughput delta is the reference version's median minus the compared
   * version's, relative to the compared version: it is positive exactly when
   * the reference version is faster, and missing when either median is.
   */
  lemma ComparisonDeltaDirection(stats: Stats, baseVersion: string, compareVersion: string, w: string)
    ensures var row := CompareRowFor(stats, baseVersion, compareVersion, w).cells;
      var b, o := MedianTpsOf(row.base), MedianTpsOf(row.other);
      (DeltaValue(row.tps).Some? <==> b.Some? && o.Some?) &&
      (DeltaValue(row.tps).Some? ==> (DeltaValue(row.tps).value > 0.0 <==> b.value > o.value)) &&
      (row.tps.Delta? && row.tps.pct.Some? ==> row.tps.pct.value * o.value == row.tps.value * 100.0)
  {
  }

  // ---------------------------------------------------------------------------
  // `_make_delta_styler`.
  // ---------------------------------------------------------------------------

  const Green := "#17833b"
  const Red := "#c03540"

  function CellStyle(color: string): string {
    "color: " + color + "; font-weight: 600;"
  }

  /** A delta is good when it has the wanted sign: above zero when higher is better, below zero otherwise. */
  predicate Good(value: real, positiveGood: bool) {
    if positiveGood then value > 0.0 else value < 0.0
  }

  /** The styler's column: no style for a missing delta, green for a good one, red for any other. */
  method MakeDeltaStyler(values: seq<Option<real>>, positiveGood: bool) returns (styles: seq<string>)
    ensures |styles| == |values|
    ensures forall i :: 0 <= i < |values| && values[i].None? ==> styles[i] == ""
    ensures forall i :: 0 <= i < |values| && values[i].Some? ==>
      styles[i] == CellStyle(if Good(values[i].value, positiveGood) then Green else Red)
  {
    styles := [];
    for i := 0 to |values|
      invariant |styles| == i
      invariant forall k :: 0 <= k < i && values[k].None? ==> styles[k] == ""
      invariant forall k :: 0 <= k < i && values[k].Some? ==>
        styles[k] == CellStyle(if Good(values[k].value, positiveGood) then Green else Red)
    {
      var value := values[i];
      if value.None? {
        styles := styles + [""];
        continue;
      }
      var good := if positiveGood then value.value > 0.0 else value.value < 0.0;
      var color := if good then Green else Red;
      styles := styles + [CellStyle(color)];
    }
  }

  /** An unchanged median is never shown as good: a zero delta is red in both columns. */
  lemma ZeroDeltaIsRed(positiveGood: bool)
    ensures !Good(0.0, positiveGood)
    ensures CellStyle(if Good(0.0, positiveGood) then Green else Red) != CellStyle(Green)
  {
    assert CellStyle(Red)[8] != CellStyle(Green)[8];
  }

  /**
   * With the columns styled as the page styles them (throughput with higher
   * is better, drop rate with lower is better), the throughput delta is
   * green exactly when the reference version's median throughput is higher,
   * and the drop-rate delta exactly when its median drop rate is lower.
   */
  lemma GreenMeansReferenceBetter(b: Bucket, o: Bucket)
    requires b.medianTps.Some? && o.medianTps.Some? && b.medianDrop.Some? && o.medianDrop.Some?
    ensures var row := CompareCells(
      Some(b), Some(o),
      TpsDelta(MedianTpsOf(Some(b)), MedianTpsOf(Some(o))),
      DropDelta(MedianDropOf(Some(b)), MedianDropOf(Some(o))));
      (Good(DeltaValue(row.tps).value, true) <==> b.medianTps.value > o.medianTps.value) &&
      (Good(DeltaValue(row.drop).value, false) <==> b.medianDrop.value < o.medianDrop.value)
  {
  }

  // ---------------------------------------------------------------------------
  // The workload pool and the shared-only filter.
  // ---------------------------------------------------------------------------

  /** The workloads of one version, in order of first appearance. */
  function WorkloadsOf(stats: Stats, v: string): seq<string> {
    Keys(Lookup(stats, v).GetOr([]))
  }

  /** The workloads of each version in turn, repeats included. */
  function AllWorkloads(versions: seq<string>, stats: Stats): seq<string> {
    if versions == [] then []
    else AllWorkloads(versions[..|versions| - 1], stats) + WorkloadsOf(stats, versions[|versions| - 1])
  }

  /** `sorted({w for v in selected_versions for w in stats.get(v, {})})`. */
  function WorkloadPool(versions: seq<string>, stats: Stats): (r: seq<string>)
    ensures Text.StrictlySorted(r)
    ensures forall w :: w in r <==> w in AllWorkloads(versions, stats)
  {
    Text.SortedSet(AllWorkloads(versions, stats))
  }

  lemma WorkloadsOfEntry(stats: Stats, v: string, w: string)
    ensures w in WorkloadsOf(stats, v) <==> EntryOf(stats, v, w).Some?
  {
    var inner := Lookup(stats, v).GetOr([]);
    if w in Keys(inner) {
      var i :| 0 <= i < |inner| && Keys(inner)[i] == w;
      assert Present(inner, w);
    }
    if Present(inner, w) {
      var i :| 0 <= i < |inner| && inner[i].0 == w;
      assert Keys(inner)[i] == w;
    }
  }

  lemma {:induction false} AllWorkloadsMembers(versions: seq<string>, stats: Stats, w: string)
    ensures w in AllWorkloads(versions, stats) <==> exists v :: v in versions && EntryOf(stats, v, w).Some?
  {
    if versions != [] {
      var init, last := versions[..|versions| - 1], versions[|versions| - 1];
      AllWorkloadsMembers(init, stats, w);
      WorkloadsOfEntry(stats, last, w);
      assert versions == init + [last];
      if exists v :: v in versions && EntryOf(stats, v, w).Some? {
        var v :| v in versions && EntryOf(stats, v, w).Some?;
        assert v in init || v == last;
      }
    }
  }

  /** The pool is sorted, without repeats, and holds exactly the workloads some selected version has. */
  lemma WorkloadPoolMembers(versions: seq<string>, stats: Stats, w: string)
    ensures Text.StrictlySorted(WorkloadPool(versions, stats))
    ensures w in WorkloadPool(versions, stats) <==> exists v :: v in versions && EntryOf(stats, v, w).Some?
  {
    AllWorkloadsMembers(versions, stats, w);
  }

  /** Every selected version has the workload. */
  predicate InEveryVersion(stats: Stats, versions: seq<string>, w: string) {
    forall v :: v in versions ==> EntryOf(stats, v, w).Some?
  }

  /**
   * The workloads on display: the selection, or the whole pool when nothing
   * is selected, narrowed when `sharedOnly` is set to the workloads every
   * selected version has.
   */
  function SharedIn(stats: Stats, versions: seq<string>): string -> bool {
    (w: string) => InEveryVersion(stats, versions, w)
  }

  function DisplayWorkloads(selection: seq<string>, pool: seq<string>, sharedOnly: bool, versions: seq<string>, stats: Stats): (r: seq<string>)
    ensures forall w :: w in r ==>
      (w in (if selection != [] then selection else pool)) && (sharedOnly ==> InEveryVersion(stats, versions, w))
  {
    var shown := if selection != [] then selection else pool;
    FilterSound(shown, SharedIn(stats, versions));
    if sharedOnly then Filter(shown, SharedIn(stats, versions)) else shown
  }

  lemma DisplayWorkloadsMembers(selection: seq<string>, pool: seq<string>, sharedOnly: bool, versions: seq<string>, stats: Stats, w: string)
    ensures w in DisplayWorkloads(selection, pool, sharedOnly, versions, stats) <==>
      (if selection != [] then w in selection else w in pool) &&
      (sharedOnly ==> forall v :: v in versions ==> EntryOf(stats, v, w).Some?)
  {
    var shown := if selection != [] then selection else pool;
    FilterMembers(shown, SharedIn(stats, versions), w);
  }

  /** On statistics computed from rows, a shared-only display lists only workloads every selected version has a run of. */
  lemma SharedOnlyHasRuns(rows: seq<RunRow>, selection: seq<string>, pool: seq<string>, versions: seq<string>, w: string, v: string)
    requires w in DisplayWorkloads(selection, pool, true, versions, VersionWorkloadStats(rows))
    requires v in versions
    ensures exists i :: 0 <= i < |rows| && VersionKey(rows[i]) == v && rows[i].workloadName == w
  {
    DisplayWorkloadsMembers(selection, pool, true, versions, VersionWorkloadStats(rows), w);
    EntryExists(rows, v, w);
  }
}
