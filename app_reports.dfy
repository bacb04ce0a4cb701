/**
 * The report pipeline of the single-page app.py, an older variant of
 * data.py: its own `RunRow` (no client version, no workload config or
 * hash), its own `_derive_row` with a different workload-name fallback,
 * `load_reports` ordered by workload name and then start, the nested
 * lookup `_safe_get`, and the statistic helpers `_stats_metric_keys` and
 * `_extract_stat_value`.
 *
 * `_parse_rfc3339`, `_gen_mode_label` and `_is_report_file` are the same
 * code as in data.py and are shared with the `Reports` module.
 */
module AppReports {
  import opened Wrappers
  import opened Json
  import opened Text
  import opened Sorting
  import opened Coerce
  import Timestamp
  import Reports
  import Compare
  import Collect
  import OrderedDict

  datatype RunRow = RunRow(
    file: string,
    start: int,
    end: int,
    durationS: real,
    workloadIdx: int,
    workloadName: string,
    genMode: string,
    targetTps: int,
    txsSent: int,
    txsCommitted: int,
    txsDropped: int,
    achievedTps: real,
    dropRate: real,
    stats: Value)

  // ---------------------------------------------------------------------------
  // _derive_row.
  // ---------------------------------------------------------------------------

  /** The selected workload group, when the index is in range, and the name the row gets. */
  datatype Resolved = Resolved(group: Option<Value>, name: string)

  /**
   * Lines 80-84 of app.py: `config.get("workload_groups", [])`, the group at
   * the index when `0 <= idx < len(groups)`, and its `name` unless that is
   * missing or falsy, else `workload_<idx>`. `None` where Python raises: a
   * config that is not a dict, `len` of a number, a string or dict indexed
   * by position, a group that is not a dict. A truthy non-string `name` is
   * rejected as well (see README).
   */
  function ResolveName(config: Value, idx: int): (r: Option<Resolved>)
    ensures r.Some? && r.value.group.Some? ==> r.value.group.value.Object?
    ensures r.Some? ==> (config.Object? &&
      (r.value.group.Some? <==> Reports.InRange(GetOr(config.fields, "workload_groups", Array([])), idx)))
    ensures r.Some? && r.value.group.Some? ==> (var groups := GetOr(config.fields, "workload_groups", Array([]));
      groups.Array? && r.value.group.value == groups.items[idx])
    ensures config.Object? && !Reports.InRange(GetOr(config.fields, "workload_groups", Array([])), idx)
            && (idx < 0 || Reports.PyLen(GetOr(config.fields, "workload_groups", Array([]))).Some?)
            ==> r == Some(Resolved(None, Reports.DefaultName(idx)))
    ensures config.Object? && GetOr(config.fields, "workload_groups", Array([])).Array?
            && Reports.InRange(GetOr(config.fields, "workload_groups", Array([])), idx)
            && GetOr(config.fields, "workload_groups", Array([])).items[idx].Object?
            && (var name := Get(GetOr(config.fields, "workload_groups", Array([])).items[idx].fields, "name");
                name.None? || !Truthy(name.value) || name.value.Str?)
            ==> r.Some?
  {
    if !config.Object? then None
    else
      var groups := GetOr(config.fields, "workload_groups", Array([]));
      if idx < 0 then Some(Resolved(None, Reports.DefaultName(idx)))
      else
        var n :- Reports.PyLen(groups);
        if idx >= n then Some(Resolved(None, Reports.DefaultName(idx)))
        else if !groups.Array? then None
        else
          var group := groups.items[idx];
          if !group.Object? then None
          else
            match Get(group.fields, "name")
            case Some(name) =>
              if !Truthy(name) then Some(Resolved(Some(group), Reports.DefaultName(idx)))
              else if name.Str? then Some(Resolved(Some(group), name.s))
              else None
            case None => Some(Resolved(Some(group), Reports.DefaultName(idx)))
  }

  /** The name a group gives, as `group.get("name") or default` reads it when the name is a string. */
  function GroupName(group: Value, idx: int): string
    requires group.Object?
  {
    match Get(group.fields, "name")
    case Some(Str(s)) => if s != "" then s else Reports.DefaultName(idx)
    case _ => Reports.DefaultName(idx)
  }

  /**
   * The name is the group's own non-blank name when the index is in range,
   * and `workload_<idx>` whenever the index is out of range or the name is
   * missing or blank.
   */
  lemma ResolveNameFallback(config: Value, idx: int)
    requires ResolveName(config, idx).Some?
    ensures var r := ResolveName(config, idx).value;
      r.name == if r.group.Some? then GroupName(r.group.value, idx) else Reports.DefaultName(idx)
  {
  }

  /** Lines 90-94 of app.py: the first traffic generator's label for an in-range group, else "unknown". */
  function GenModeOfGroup(group: Option<Value>): (r: Option<string>)
    requires group.Some? ==> group.value.Object?
    ensures group.None? ==> r == Some("unknown")
    ensures group.Some? ==> r == Reports.GenModeOf(group.value)
  {
    if group.None? then Some("unknown") else Reports.GenModeOf(group.value)
  }

  /** What every row of app.py satisfies: the clamped duration and the guarded ratios. */
  predicate WellFormedRow(row: RunRow) {
    && row.durationS >= 0.0
    && (row.end >= row.start ==> row.durationS * 1_000_000.0 == (row.end - row.start) as real)
    && (row.end <= row.start ==> row.durationS == 0.0)
    && (row.durationS > 0.0 ==> row.achievedTps * row.durationS == row.txsCommitted as real)
    && (row.durationS == 0.0 ==> row.achievedTps == 0.0)
    && (row.txsSent > 0 ==> row.dropRate * row.txsSent as real == row.txsDropped as real)
    && (row.txsSent <= 0 ==> row.dropRate == 0.0)
  }

  /** The `RunRow(...)` call of lines 104-119 of app.py, with the derived ratios. */
  function AssembleRow(file: string, start: int, end: int, idx: int, name: string, genMode: string,
                       c: Reports.Counters, stats: Value): (row: RunRow)
    ensures WellFormedRow(row)
    ensures row.file == file && row.start == start && row.end == end
    ensures row.workloadIdx == idx && row.workloadName == name && row.genMode == genMode
    ensures Reports.Counters(row.targetTps, row.txsSent, row.txsCommitted, row.txsDropped) == c
    ensures row.stats == stats
  {
    var duration := Reports.DurationSeconds(start, end);
    RunRow(
      file := file,
      start := start,
      end := end,
      durationS := duration,
      workloadIdx := idx,
      workloadName := name,
      genMode := genMode,
      targetTps := c.targetTps,
      txsSent := c.sent,
      txsCommitted := c.committed,
      txsDropped := c.dropped,
      achievedTps := Reports.AchievedTps(c.committed, duration),
      dropRate := Reports.DropRate(c.dropped, c.sent),
      stats := stats)
  }

  /** `_derive_row` of app.py: a complete row, or `None` wherever Python raises. */
  function DeriveRow(data: Value, file: string, fromIso: string -> Option<Timestamp.IsoDateTime>): (r: Option<RunRow>)
    ensures !data.Object? ==> r.None?
    ensures data.Object? && Reports.TimeField(data.fields, "start_time", fromIso).None? ==> r.None?
    ensures data.Object? && Reports.TimeField(data.fields, "end_time", fromIso).None? ==> r.None?
    ensures r.Some? ==> data.Object? && r.value.file == file && WellFormedRow(r.value)
    ensures r.Some? ==> Some(r.value.start) == Reports.TimeField(data.fields, "start_time", fromIso)
    ensures r.Some? ==> Some(r.value.end) == Reports.TimeField(data.fields, "end_time", fromIso)
    ensures r.Some? ==> Reports.IntField(data.fields, "workload_idx", 0) == Some(r.value.workloadIdx)
    ensures r.Some? ==> Reports.ReadCounters(data.fields) == Some(Reports.Counters(r.value.targetTps, r.value.txsSent, r.value.txsCommitted, r.value.txsDropped))
    ensures r.Some? ==> r.value.stats == Reports.OrDefault(data.fields, "stats", EmptyObject)
    ensures r.Some? ==> (var resolved := ResolveName(GetOr(data.fields, "config", EmptyObject), r.value.workloadIdx);
      resolved.Some? && resolved.value.name == r.value.workloadName &&
      GenModeOfGroup(resolved.value.group) == Some(r.value.genMode))
    ensures r.Some? <==>
      data.Object? && Reports.TimeField(data.fields, "start_time", fromIso).Some?
      && Reports.TimeField(data.fields, "end_time", fromIso).Some?
      && Reports.IntField(data.fields, "workload_idx", 0).Some?
      && (var resolved := ResolveName(GetOr(data.fields, "config", EmptyObject), Reports.IntField(data.fields, "workload_idx", 0).value);
          resolved.Some? && GenModeOfGroup(resolved.value.group).Some?)
      && Reports.ReadCounters(data.fields).Some?
  {
    if !data.Object? then None
    else
      var fields := data.fields;
      var start :- Reports.TimeField(fields, "start_time", fromIso);
      var end :- Reports.TimeField(fields, "end_time", fromIso);
      var idx :- Reports.IntField(fields, "workload_idx", 0);
      var resolved :- ResolveName(GetOr(fields, "config", EmptyObject), idx);
      var c :- Reports.ReadCounters(fields);
      var genMode :- GenModeOfGroup(resolved.group);
      Some(AssembleRow(file, start, end, idx, resolved.name, genMode, c, Reports.OrDefault(fields, "stats", EmptyObject)))
  }

  /**
   * The workload name of a derived row: the in-range group's non-blank name,
   * or `workload_<idx>` when the index is out of range or the group's name is
   * missing or blank.
   */
  lemma DeriveRowName(data: Value, file: string, fromIso: string -> Option<Timestamp.IsoDateTime>, row: RunRow)
    requires DeriveRow(data, file, fromIso) == Some(row)
    ensures data.Object?
    ensures var groups := Reports.GroupsOf(data);
      if Reports.InRange(groups, row.workloadIdx) then
        groups.Array? && groups.items[row.workloadIdx].Object? &&
        row.workloadName == GroupName(groups.items[row.workloadIdx], row.workloadIdx)
      else row.workloadName == Reports.DefaultName(row.workloadIdx)
  {
    var config := GetOr(data.fields, "config", EmptyObject);
    ResolveNameFallback(config, row.workloadIdx);
  }

  /**
   * `gen_mode` as lines 92-94 of app.py read it from a group: the label of
   * the first generator when `traffic_gens` is truthy, else "unknown".
   */
  predicate GenModeFromGroup(group: Value, genMode: string)
  {
    group.Object? &&
    var gens := GetOr(group.fields, "traffic_gens", Array([]));
    if Truthy(gens) then
      gens.Array? && gens.items != [] && gens.items[0].Object? &&
      genMode == Reports.GenModeLabel(GetOr(gens.items[0].fields, "gen_mode", Null))
    else genMode == "unknown"
  }

  /**
   * The gen_mode of a derived row is "unknown" unless the index is in range
   * and the group's `traffic_gens` is non-empty; then it is the label of the
   * first generator's `gen_mode`.
   */
  lemma DeriveRowGenMode(data: Value, file: string, fromIso: string -> Option<Timestamp.IsoDateTime>, row: RunRow)
    requires DeriveRow(data, file, fromIso) == Some(row)
    ensures data.Object?
    ensures !Reports.InRange(Reports.GroupsOf(data), row.workloadIdx) ==> row.genMode == "unknown"
    ensures var groups := Reports.GroupsOf(data);
      Reports.InRange(groups, row.workloadIdx) ==>
        groups.Array? && GenModeFromGroup(groups.items[row.workloadIdx], row.genMode)
  {
    var config := GetOr(data.fields, "config", EmptyObject);
    var resolved := ResolveName(config, row.workloadIdx).value;
    assert config.Object?;
    assert Reports.GroupsOf(data) == GetOr(config.fields, "workload_groups", Array([]));
    if resolved.group.Some? {
      assert Reports.GenModeOf(resolved.group.value) == Some(row.genMode);
    }
  }

  /** A report without `txs_dropped` counts the shortfall of committed against sent, never below zero. */
  lemma DeriveRowDroppedDefault(data: Value, file: string, fromIso: string -> Option<Timestamp.IsoDateTime>)
    requires DeriveRow(data, file, fromIso).Some?
    requires !HasKey(data.fields, "txs_dropped")
    ensures var row := DeriveRow(data, file, fromIso).value;
      row.txsDropped == Reports.MaxInt(0, row.txsSent - row.txsCommitted)
  {
  }

  /** The concrete config where the two derivations part: one workload group, named "". */
  function BlankNamedConfig(): Value {
    Object([("workload_groups", Array([BlankNamedGroup()]))])
  }

  function BlankNamedGroup(): Value {
    Object([("name", Str(""))])
  }

  lemma DefaultNameZero()
    ensures Reports.DefaultName(0) == "workload_0"
  {
    assert Text.NatToDecimal(0) == "0";
  }

  lemma BlankNamedGroups()
    ensures GetOr(BlankNamedConfig().fields, "workload_groups", Array([])) == Array([BlankNamedGroup()])
    ensures Reports.PyLen(Array([BlankNamedGroup()])) == Some(1)
    ensures Get(BlankNamedGroup().fields, "name") == Some(Str(""))
    ensures Truthy(BlankNamedGroup())
  {
    assert BlankNamedConfig().fields[0].0 == "workload_groups";
    assert BlankNamedGroup().fields[0].0 == "name";
  }

  /**
   * A group whose `name` is the empty string keeps that blank name in
   * data.py but is named `workload_0` here: app.py falls back on a falsy
   * name, data.py only on a missing one.
   */
  lemma BlankNameDiffersFromDataPy()
    ensures Reports.ResolveWorkload(BlankNamedConfig(), 0) == Some(Reports.Workload(BlankNamedGroup(), ""))
    ensures ResolveName(BlankNamedConfig(), 0) == Some(Resolved(Some(BlankNamedGroup()), "workload_0"))
  {
    BlankNamedGroups();
    DefaultNameZero();
  }

  // ---------------------------------------------------------------------------
  // load_reports.
  // ---------------------------------------------------------------------------

  /** The row a file contributes: a report file whose JSON derives. */
  function RowOf(e: Reports.FileEntry, fromIso: string -> Option<Timestamp.IsoDateTime>): Option<RunRow> {
    if Reports.IsReportFile(e.path) && e.content.Some? then DeriveRow(e.content.value, e.path, fromIso) else None
  }

  /** `RowOf` as a value, for the collecting loop. */
  function Deriver(fromIso: string -> Option<Timestamp.IsoDateTime>): Reports.FileEntry -> Option<RunRow> {
    e => RowOf(e, fromIso)
  }

  /** The rows appended by the walk over `entries`, in walk order. */
  function Collected(entries: seq<Reports.FileEntry>, fromIso: string -> Option<Timestamp.IsoDateTime>): seq<RunRow> {
    Collect.FilterMap(entries, Deriver(fromIso))
  }

  /** The collected rows are exactly the successfully derived report files; each is well formed. */
  lemma CollectedMembers(entries: seq<Reports.FileEntry>, fromIso: string -> Option<Timestamp.IsoDateTime>, row: RunRow)
    ensures row in Collected(entries, fromIso) <==>
      exists i :: 0 <= i < |entries| && Reports.IsReportFile(entries[i].path) && entries[i].content.Some?
        && DeriveRow(entries[i].content.value, entries[i].path, fromIso) == Some(row)
    ensures row in Collected(entries, fromIso) ==> WellFormedRow(row) && Reports.IsReportFile(row.file)
  {
    Collect.FilterMapMembers(entries, Deriver(fromIso), row);
  }

  /** `(r.workload_name, r.start)` descending: names in reverse code-point order, then newest start first. */
  predicate NameStartGe(a: RunRow, b: RunRow) {
    StrLess(b.workloadName, a.workloadName) || (a.workloadName == b.workloadName && a.start >= b.start)
  }

  lemma NameStartGeTotalOrder()
    ensures forall a, b :: NameStartGe(a, b) || NameStartGe(b, a)
    ensures forall a, b, c :: NameStartGe(a, b) && NameStartGe(b, c) ==> NameStartGe(a, c)
  {
    forall a: RunRow, b: RunRow
      ensures NameStartGe(a, b) || NameStartGe(b, a)
    {
      StrLessTrichotomy(a.workloadName, b.workloadName);
    }
    forall a: RunRow, b: RunRow, c: RunRow | NameStartGe(a, b) && NameStartGe(b, c)
      ensures NameStartGe(a, c)
    {
      if StrLess(b.workloadName, a.workloadName) && StrLess(c.workloadName, b.workloadName) {
        StrLessTransitive(c.workloadName, b.workloadName, a.workloadName);
      }
    }
  }

  /** `load_reports` of app.py: the derived rows of the report files, by workload name and then start, descending. */
  method LoadReports(isDir: bool, entries: seq<Reports.FileEntry>, fromIso: string -> Option<Timestamp.IsoDateTime>) returns (rows: seq<RunRow>)
    ensures !isDir ==> rows == []
    ensures isDir ==> rows == StableSort(Collected(entries, fromIso), NameStartGe)
    ensures isDir ==> multiset(rows) == multiset(Collected(entries, fromIso))
    ensures forall i, j :: 0 <= i < j < |rows| ==>
      StrLess(rows[j].workloadName, rows[i].workloadName) ||
      (rows[i].workloadName == rows[j].workloadName && rows[i].start >= rows[j].start)
  {
    rows := [];
    if !isDir {
      return;
    }
    for i := 0 to |entries|
      invariant rows == Collected(entries[..i], fromIso)
    {
      var e := entries[i];
      Collect.FilterMapSnoc(entries[..i], e, Deriver(fromIso));
      assert entries[..i + 1] == entries[..i] + [e];
      if !Reports.IsReportFile(e.path) || e.content.None? {
        continue;
      }
      var row := DeriveRow(e.content.value, e.path, fromIso);
      if row.Some? {
        rows := rows + [row.value];
      }
    }
    assert entries[..|entries|] == entries;
    NameStartGeTotalOrder();
    StableSortSorted(rows, NameStartGe);
    rows := StableSort(rows, NameStartGe);
  }

  // ---------------------------------------------------------------------------
  // _safe_get.
  // ---------------------------------------------------------------------------

  /** The value reached by following `path` through nested dicts, or `None` at the first step that is not a dict holding the key. */
  function Walk(v: Value, path: seq<string>): (r: Option<Value>)
    ensures path != [] && r.Some? ==> v.Object? && HasKey(v.fields, path[0])
  {
    if path == [] then Some(v)
    else if v.Object? && HasKey(v.fields, path[0]) then Walk(Get(v.fields, path[0]).value, path[1..])
    else None
  }

  /** Walking a path is walking its first part and then its second. */
  lemma {:induction false} WalkConcat(v: Value, p: seq<string>, q: seq<string>)
    ensures Walk(v, p + q) == match Walk(v, p) case None => None case Some(mid) => Walk(mid, q)
  {
    if p == [] {
      assert p + q == q;
    } else {
      assert (p + q)[0] == p[0] && (p + q)[1..] == p[1..] + q;
      if v.Object? && HasKey(v.fields, p[0]) {
        WalkConcat(Get(v.fields, p[0]).value, p[1..], q);
      }
    }
  }

  /** One step of the walk: the dict must hold the key. */
  lemma WalkStep(v: Value, k: string)
    ensures Walk(v, [k]) == if v.Object? then Get(v.fields, k) else None
  {
    assert [k][1..] == [];
  }

  /** `_safe_get(d, path, default)`: the nested value, or `default` at the first missing step; an empty path gives `d`. */
  method SafeGet(d: Value, path: seq<string>, default: Value) returns (r: Value)
    ensures r == Walk(d, path).GetOr(default)
    ensures path == [] ==> r == d
  {
    var cur := d;
    for i := 0 to |path|
      invariant Walk(d, path) == Walk(cur, path[i..])
    {
      var key := path[i];
      if !cur.Object? || !HasKey(cur.fields, key) {
        return default;
      }
      assert path[i..][1..] == path[i + 1..];
      cur := Get(cur.fields, key).value;
    }
    return cur;
  }

  // ---------------------------------------------------------------------------
  // Statistics.
  // ---------------------------------------------------------------------------

  /**
   * `_stats_metric_keys`: the union of the stats keys of every row, sorted;
   * `None` where Python raises, when some row's stats is not a dict.
   */
  method StatsMetricKeys(rows: seq<RunRow>) returns (r: Option<seq<string>>)
    ensures r.Some? <==> forall i :: 0 <= i < |rows| ==> rows[i].stats.Object?
    ensures r.Some? ==> StrictlySorted(r.value)
    ensures r.Some? ==> forall k :: k in r.value <==> exists i :: 0 <= i < |rows| && HasKey(rows[i].stats.fields, k)
  {
    var keys: seq<string> := [];
    for i := 0 to |rows|
      invariant forall j :: 0 <= j < i ==> rows[j].stats.Object?
      invariant forall k :: k in keys <==> exists j :: 0 <= j < i && HasKey(rows[j].stats.fields, k)
    {
      var stats := rows[i].stats;
      if !stats.Object? {
        return None;
      }
      forall k
        ensures k in OrderedDict.Keys(stats.fields) <==> HasKey(stats.fields, k)
      {
        if HasKey(stats.fields, k) {
          var j :| 0 <= j < |stats.fields| && stats.fields[j].0 == k;
          assert OrderedDict.Keys(stats.fields)[j] == k;
        }
      }
      keys := keys + OrderedDict.Keys(stats.fields);
    }
    return Some(SortedSet(keys));
  }

  /**
   * `_extract_stat_value`: `float(stat["overall"][which])`, or `None` when the
   * statistic or its `overall` is not a dict, the field is missing (Python's
   * `float(None)`), or `float()` rejects the value.
   */
  function ExtractStatValue(stat: Value, which: string): (r: Option<real>)
    ensures r.Some? ==> stat.Object? && Get(stat.fields, "overall").Some? && Get(stat.fields, "overall").value.Object?
    ensures r.Some? ==> exists v :: Get(Get(stat.fields, "overall").value.fields, which) == Some(v) && ToFloat(v) == r
  {
    var overall := if stat.Object? then GetOr(stat.fields, "overall", Null) else Null;
    if !overall.Object? then None
    else ToFloat(GetOr(overall.fields, which, Null))
  }

  /** It reads the same number the comparison page's `_stat_value` reads from a run's stats. */
  lemma ExtractStatValueAgreesWithPageOne(stats: Value, key: string, which: string)
    requires stats.Object?
    ensures ExtractStatValue(GetOr(stats.fields, key, Null), which) == Compare.StatValue(stats, key, which)
  {
  }
}
