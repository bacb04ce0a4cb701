/**
 * The report pipeline of data.py: one JSON report becomes a `RunRow`
 * (`_derive_row`), report files are picked by name and collected newest
 * first (`load_reports`), and rows are summarised per client version
 * (`compute_version_bounds`, `format_version_label`) and durations
 * rendered (`format_duration`).
 *
 * Instants are integer microseconds since the epoch in UTC; durations
 * and ratios are exact reals.
 */
module Reports {
  import opened Wrappers
  import opened Json
  import opened Text
  import opened Sorting
  import opened Coerce
  import Timestamp
  import opened Fingerprint
  import opened Collect

  datatype RunRow = RunRow(
    file: string,
    start: int,
    end: int,
    durationS: real,
    workloadIdx: int,
    workloadName: string,
    workloadConfig: Value,
    workloadConfigHash: ConfigHash,
    genMode: string,
    clientVersion: string,
    targetTps: int,
    txsSent: int,
    txsCommitted: int,
    txsDropped: int,
    achievedTps: real,
    dropRate: real,
    stats: Value,
    statsStr: Value)

  // ---------------------------------------------------------------------------
  // gen_mode: a serde externally-tagged enum.
  // ---------------------------------------------------------------------------

  /** `_gen_mode_label`. */
  function GenModeLabel(v: Value): (r: string)
    ensures v.Str? ==> r == v.s
    ensures v.Object? && v.fields != [] ==> r == v.fields[0].0
    ensures !v.Str? && !(v.Object? && v.fields != []) ==> r == "unknown"
  {
    match v
    case Str(s) => s
    case Object(fields) => if fields != [] then fields[0].0 else "unknown"
    case _ => "unknown"
  }

  /** A value of a Rust enum as serde's external tagging writes it. */
  datatype GenModeVariant = Unit(name: string) | Tagged(name: string, payload: Value)

  function SerdeEncode(e: GenModeVariant): Value {
    match e
    case Unit(name) => Str(name)
    case Tagged(name, payload) => Object([(name, payload)])
  }

  /** The label is the variant name serde wrote, for unit and data-carrying variants alike. */
  lemma GenModeLabelDecodesSerde(e: GenModeVariant)
    ensures GenModeLabel(SerdeEncode(e)) == e.name
  {
  }

  // ---------------------------------------------------------------------------
  // _derive_row.
  // ---------------------------------------------------------------------------

  /** Python's `len(v)`, defined for strings, lists and dicts only. */
  function PyLen(v: Value): Option<nat> {
    match v
    case Str(s) => Some(|s|)
    case Array(items) => Some(|items|)
    case Object(fields) => Some(|fields|)
    case _ => None
  }

  /** `0 <= idx < len(groups)` holds (and `len` is defined). */
  predicate InRange(groups: Value, idx: int) {
    0 <= idx && PyLen(groups).Some? && idx < PyLen(groups).value
  }

  /** The name a workload gets when its group supplies none. */
  function DefaultName(idx: int): string {
    "workload_" + IntToDecimal(idx)
  }

  datatype Workload = Workload(config: Value, name: string)

  /**
   * Lines 91-98 of data.py: the selected workload group (or `{}`) and its
   * name. `None` where Python raises: a config that is not a dict, `len`
   * of a number, a string or dict indexed by position, a non-dict group.
   * A non-string `name` is rejected as well (see README).
   */
  function ResolveWorkload(config: Value, idx: int): (r: Option<Workload>)
    ensures r.Some? ==> config.Object? && r.value.config.Object?
    ensures config.Object? && !InRange(GetOr(config.fields, "workload_groups", Array([])), idx)
            && (idx < 0 || PyLen(GetOr(config.fields, "workload_groups", Array([]))).Some?)
            ==> r == Some(Workload(EmptyObject, DefaultName(idx)))
    ensures r.Some? && !InRange(GetOr(config.fields, "workload_groups", Array([])), idx)
            ==> r.value == Workload(EmptyObject, DefaultName(idx))
    ensures r.Some? && GetOr(config.fields, "workload_groups", Array([])).Array?
            && InRange(GetOr(config.fields, "workload_groups", Array([])), idx)
            && Truthy(GetOr(config.fields, "workload_groups", Array([])).items[idx])
            ==> r.value.config == GetOr(config.fields, "workload_groups", Array([])).items[idx]
    ensures config.Object? && GetOr(config.fields, "workload_groups", Array([])).Array?
            && InRange(GetOr(config.fields, "workload_groups", Array([])), idx)
            && GetOr(config.fields, "workload_groups", Array([])).items[idx].Object?
            && (var name := Get(GetOr(config.fields, "workload_groups", Array([])).items[idx].fields, "name");
                name.None? || name.value.Str?)
            ==> r.Some?
  {
    if !config.Object? then None
    else
      var groups := GetOr(config.fields, "workload_groups", Array([]));
      if idx < 0 then Some(Workload(EmptyObject, DefaultName(idx)))
      else
        var n :- PyLen(groups);
        if idx >= n then Some(Workload(EmptyObject, DefaultName(idx)))
        else if !groups.Array? then None
        else
          var group := groups.items[idx];
          var cfg := if Truthy(group) then group else EmptyObject;
          if !cfg.Object? then None
          else
            match Get(cfg.fields, "name")
            case None => Some(Workload(cfg, DefaultName(idx)))
            case Some(Str(s)) => Some(Workload(cfg, s))
            case Some(_) => None
  }

  /** An in-range group that is null, empty or otherwise falsy gives the defaults. */
  lemma FalsyGroupGivesDefaults(config: Value, idx: int)
    requires config.Object?
    requires var groups := GetOr(config.fields, "workload_groups", Array([]));
      groups.Array? && 0 <= idx < |groups.items| && !Truthy(groups.items[idx])
    ensures ResolveWorkload(config, idx) == Some(Workload(EmptyObject, DefaultName(idx)))
  {
  }

  /** A truthy group without a `name` key is the config itself, named `workload_<idx>`. */
  lemma GroupNameMissing(config: Value, idx: int)
    requires config.Object?
    requires var groups := GetOr(config.fields, "workload_groups", Array([]));
      groups.Array? && 0 <= idx < |groups.items| && groups.items[idx].Object?
      && Truthy(groups.items[idx]) && !HasKey(groups.items[idx].fields, "name")
    ensures ResolveWorkload(config, idx)
            == Some(Workload(GetOr(config.fields, "workload_groups", Array([])).items[idx], DefaultName(idx)))
  {
  }

  /** A group's own `name` is used whenever the key exists, even when it is blank. */
  lemma GroupNameKept(config: Value, idx: int, name: string)
    requires config.Object?
    requires var groups := GetOr(config.fields, "workload_groups", Array([]));
      groups.Array? && 0 <= idx < |groups.items| && groups.items[idx].Object?
      && Get(groups.items[idx].fields, "name") == Some(Str(name))
    ensures ResolveWorkload(config, idx).Some?
    ensures ResolveWorkload(config, idx).value.name == name
  {
    var groups := GetOr(config.fields, "workload_groups", Array([]));
    assert groups.items[idx].fields != [];
  }

  /** The first traffic generator's label, or "unknown" (lines 103-106 of data.py). */
  function GenModeOf(cfg: Value): (r: Option<string>)
    requires cfg.Object?
    ensures !Truthy(GetOr(cfg.fields, "traffic_gens", Array([]))) ==> r == Some("unknown")
    ensures r.Some? && Truthy(GetOr(cfg.fields, "traffic_gens", Array([]))) ==>
      var gens := GetOr(cfg.fields, "traffic_gens", Array([]));
      gens.Array? && gens.items[0].Object? && r.value == GenModeLabel(GetOr(gens.items[0].fields, "gen_mode", Null))
    ensures var gens := GetOr(cfg.fields, "traffic_gens", Array([]));
      Truthy(gens) && gens.Array? && gens.items[0].Object? ==> r.Some?
  {
    var gens := if Truthy(cfg) then GetOr(cfg.fields, "traffic_gens", Array([])) else Array([]);
    if !Truthy(gens) then Some("unknown")
    else if !gens.Array? then None
    else
      var first := gens.items[0];
      if !first.Object? then None
      else Some(GenModeLabel(GetOr(first.fields, "gen_mode", Null)))
  }

  datatype Counters = Counters(targetTps: int, sent: int, committed: int, dropped: int)

  /** `int(data.get(key, default))`. */
  function IntField(fields: seq<(string, Value)>, key: string, default: int): Option<int> {
    ToInt(GetOr(fields, key, Int(default)))
  }

  /** The counters a report carries; `int()` of each present one must succeed. */
  const CounterKeys: set<string> := {"target_tps", "txs_sent", "txs_committed", "txs_dropped"}

  /** Lines 108-111 of data.py. */
  function ReadCounters(fields: seq<(string, Value)>): (r: Option<Counters>)
    ensures r.Some? && !HasKey(fields, "txs_dropped") ==> r.value.dropped == MaxInt(0, r.value.sent - r.value.committed)
    ensures r.Some? && !HasKey(fields, "txs_sent") ==> r.value.sent == 0
    ensures r.Some? && !HasKey(fields, "txs_committed") ==> r.value.committed == 0
    ensures r.Some? && !HasKey(fields, "target_tps") ==> r.value.targetTps == 0
    ensures r.Some? && HasKey(fields, "target_tps") ==> ToInt(Get(fields, "target_tps").value) == Some(r.value.targetTps)
    ensures r.Some? && HasKey(fields, "txs_sent") ==> ToInt(Get(fields, "txs_sent").value) == Some(r.value.sent)
    ensures r.Some? && HasKey(fields, "txs_committed") ==> ToInt(Get(fields, "txs_committed").value) == Some(r.value.committed)
    ensures r.Some? && HasKey(fields, "txs_dropped") ==> ToInt(Get(fields, "txs_dropped").value) == Some(r.value.dropped)
    ensures r.Some? <==> forall k :: k in CounterKeys && HasKey(fields, k) ==> ToInt(Get(fields, k).value).Some?
  {
    var target :- IntField(fields, "target_tps", 0);
    var sent :- IntField(fields, "txs_sent", 0);
    var committed :- IntField(fields, "txs_committed", 0);
    var dropped :- IntField(fields, "txs_dropped", MaxInt(0, sent - committed));
    Some(Counters(target, sent, committed, dropped))
  }

  function MaxInt(a: int, b: int): int {
    if a >= b then a else b
  }

  function MaxReal(a: real, b: real): real {
    if a >= b then a else b
  }

  /** `data[key]` parsed as an instant, `None` when it is missing or unparseable. */
  function TimeField(fields: seq<(string, Value)>, key: string, fromIso: string -> Option<Timestamp.IsoDateTime>): Option<int> {
    var v :- Get(fields, key);
    Timestamp.ParseRfc3339(v, fromIso)
  }

  /** `(end - start).total_seconds()` clamped at zero. */
  function DurationSeconds(start: int, end: int): (d: real)
    ensures d >= 0.0
    ensures end >= start ==> d * 1_000_000.0 == (end - start) as real
    ensures end <= start ==> d == 0.0
  {
    MaxReal((end - start) as real / 1_000_000.0, 0.0)
  }

  /** `committed / duration` when the run lasted, else 0. */
  function AchievedTps(committed: int, duration: real): (t: real)
    ensures duration > 0.0 ==> t * duration == committed as real
    ensures duration <= 0.0 ==> t == 0.0
  {
    if duration > 0.0 then committed as real / duration else 0.0
  }

  /** `dropped / sent` when anything was sent, else 0; not clamped to 1. */
  function DropRate(dropped: int, sent: int): (d: real)
    ensures sent > 0 ==> d * sent as real == dropped as real
    ensures sent <= 0 ==> d == 0.0
  {
    if sent > 0 then dropped as real / sent as real else 0.0
  }

  /** `data.get(key, default) or default`. */
  function OrDefault(fields: seq<(string, Value)>, key: string, default: Value): (v: Value)
    ensures HasKey(fields, key) && Truthy(Get(fields, key).value) ==> v == Get(fields, key).value
    ensures !(HasKey(fields, key) && Truthy(Get(fields, key).value)) ==> v == default
  {
    var v := GetOr(fields, key, default);
    if Truthy(v) then v else default
  }

  /** `data.get("client_version") or "Unknown"`; a truthy non-string is rejected (see README). */
  function ClientVersion(fields: seq<(string, Value)>): (r: Option<string>)
    ensures r.Some? ==> r.value != ""
    ensures (!HasKey(fields, "client_version") || !Truthy(Get(fields, "client_version").value)) ==> r == Some("Unknown")
    ensures HasKey(fields, "client_version") && Get(fields, "client_version").value.Str? && Get(fields, "client_version").value.s != ""
            ==> r == Some(Get(fields, "client_version").value.s)
  {
    var v := GetOr(fields, "client_version", Null);
    if !Truthy(v) then Some("Unknown")
    else if v.Str? then Some(v.s)
    else None
  }

  /**
   * What every derived row satisfies: the duration is the clamped span
   * between start and end, throughput and drop rate are the guarded
   * ratios, the hash is absent exactly for the empty config and is
   * otherwise the config's fingerprint, and the version is never blank.
   */
  predicate WellFormedRow(row: RunRow) {
    && row.durationS >= 0.0
    && (row.end >= row.start ==> row.durationS * 1_000_000.0 == (row.end - row.start) as real)
    && (row.end <= row.start ==> row.durationS == 0.0)
    && (row.durationS > 0.0 ==> row.achievedTps * row.durationS == row.txsCommitted as real)
    && (row.durationS == 0.0 ==> row.achievedTps == 0.0)
    && (row.txsSent > 0 ==> row.dropRate * row.txsSent as real == row.txsDropped as real)
    && (row.txsSent <= 0 ==> row.dropRate == 0.0)
    && row.workloadConfig.Object?
    && (row.workloadConfigHash == NoHash <==> row.workloadConfig == EmptyObject)
    && (row.workloadConfigHash != NoHash ==> row.workloadConfigHash == ComputeWorkloadHash(row.workloadConfig))
    && row.clientVersion != ""
  }

  /** The `RunRow(...)` call of lines 120-139 of data.py, with the derived ratios. */
  function AssembleRow(file: string, start: int, end: int, idx: int, workload: Workload, genMode: string,
                       c: Counters, version: string, stats: Value, statsStr: Value): (row: RunRow)
    requires workload.config.Object? && version != ""
    ensures WellFormedRow(row)
    ensures row.file == file && row.start == start && row.end == end
    ensures row.workloadIdx == idx && Workload(row.workloadConfig, row.workloadName) == workload
    ensures row.genMode == genMode && row.clientVersion == version
    ensures Counters(row.targetTps, row.txsSent, row.txsCommitted, row.txsDropped) == c
  {
    var duration := DurationSeconds(start, end);
    var cfg := workload.config;
    RunRow(
      file := file,
      start := start,
      end := end,
      durationS := duration,
      workloadIdx := idx,
      workloadName := workload.name,
      workloadConfig := cfg,
      workloadConfigHash := if Truthy(cfg) then ComputeWorkloadHash(cfg) else NoHash,
      genMode := genMode,
      clientVersion := version,
      targetTps := c.targetTps,
      txsSent := c.sent,
      txsCommitted := c.committed,
      txsDropped := c.dropped,
      achievedTps := AchievedTps(c.committed, duration),
      dropRate := DropRate(c.dropped, c.sent),
      stats := stats,
      statsStr := statsStr)
  }

  /** `_derive_row`: a complete row, or `None` wherever Python raises. */
  function DeriveRow(data: Value, file: string, fromIso: string -> Option<Timestamp.IsoDateTime>): (r: Option<RunRow>)
    ensures !data.Object? ==> r.None?
    ensures data.Object? && TimeField(data.fields, "start_time", fromIso).None? ==> r.None?
    ensures data.Object? && TimeField(data.fields, "end_time", fromIso).None? ==> r.None?
    ensures r.Some? ==> data.Object? && r.value.file == file
    ensures r.Some? ==> Some(r.value.start) == TimeField(data.fields, "start_time", fromIso)
    ensures r.Some? ==> Some(r.value.end) == TimeField(data.fields, "end_time", fromIso)
    ensures r.Some? ==> WellFormedRow(r.value)
    ensures r.Some? ==> IntField(data.fields, "workload_idx", 0) == Some(r.value.workloadIdx)
    ensures r.Some? ==> ResolveWorkload(GetOr(data.fields, "config", EmptyObject), r.value.workloadIdx)
                        == Some(Workload(r.value.workloadConfig, r.value.workloadName))
    ensures r.Some? ==> ReadCounters(data.fields) == Some(Counters(r.value.targetTps, r.value.txsSent, r.value.txsCommitted, r.value.txsDropped))
    ensures r.Some? ==> ClientVersion(data.fields) == Some(r.value.clientVersion)
    ensures r.Some? ==> GenModeOf(r.value.workloadConfig) == Some(r.value.genMode)
    ensures r.Some? ==> r.value.stats == OrDefault(data.fields, "stats", EmptyObject)
    ensures r.Some? ==> r.value.statsStr == OrDefault(data.fields, "stats_str", Str(""))
    ensures r.Some? <==>
      data.Object? && TimeField(data.fields, "start_time", fromIso).Some?
      && TimeField(data.fields, "end_time", fromIso).Some?
      && IntField(data.fields, "workload_idx", 0).Some?
      && (var w := ResolveWorkload(GetOr(data.fields, "config", EmptyObject), IntField(data.fields, "workload_idx", 0).value);
          w.Some? && GenModeOf(w.value.config).Some?)
      && ReadCounters(data.fields).Some? && ClientVersion(data.fields).Some?
  {
    if !data.Object? then None
    else
      var fields := data.fields;
      var start :- TimeField(fields, "start_time", fromIso);
      var end :- TimeField(fields, "end_time", fromIso);
      var idx :- IntField(fields, "workload_idx", 0);
      var workload :- ResolveWorkload(GetOr(fields, "config", EmptyObject), idx);
      var genMode :- GenModeOf(workload.config);
      var c :- ReadCounters(fields);
      var version :- ClientVersion(fields);
      Some(AssembleRow(file, start, end, idx, workload, genMode, c, version,
        OrDefault(fields, "stats", EmptyObject), OrDefault(fields, "stats_str", Str(""))))
  }

  /** The `workload_groups` value of a report, as `data.get("config", {}).get("workload_groups", [])` reads it; `null` where that chain raises. */
  function GroupsOf(data: Value): Value {
    if !data.Object? then Null
    else
      var config := GetOr(data.fields, "config", EmptyObject);
      if config.Object? then GetOr(config.fields, "workload_groups", Array([])) else Null
  }

  /** An index outside the workload groups gives the default name, an empty config and no hash. */
  lemma DeriveRowOutOfRange(data: Value, file: string, fromIso: string -> Option<Timestamp.IsoDateTime>)
    requires DeriveRow(data, file, fromIso).Some?
    requires !InRange(GroupsOf(data), DeriveRow(data, file, fromIso).value.workloadIdx)
    ensures var row := DeriveRow(data, file, fromIso).value;
      row.workloadName == DefaultName(row.workloadIdx) && row.workloadConfig == EmptyObject && row.workloadConfigHash == NoHash
  {
  }

  /** A report without `txs_dropped` counts the shortfall of committed against sent, never below zero. */
  lemma DeriveRowDroppedDefault(data: Value, file: string, fromIso: string -> Option<Timestamp.IsoDateTime>)
    requires DeriveRow(data, file, fromIso).Some?
    requires !HasKey(data.fields, "txs_dropped")
    ensures var row := DeriveRow(data, file, fromIso).value;
      row.txsDropped == MaxInt(0, row.txsSent - row.txsCommitted)
  {
  }

  /** A report without `client_version` (or with a falsy one) is attributed to "Unknown". */
  lemma DeriveRowUnknownVersion(data: Value, file: string, fromIso: string -> Option<Timestamp.IsoDateTime>)
    requires DeriveRow(data, file, fromIso).Some?
    requires !HasKey(data.fields, "client_version") || !Truthy(Get(data.fields, "client_version").value)
    ensures DeriveRow(data, file, fromIso).value.clientVersion == "Unknown"
  {
  }

  // ---------------------------------------------------------------------------
  // Report files.
  // ---------------------------------------------------------------------------

  /** `os.path.basename`: what follows the last `/`. */
  function Basename(path: string): (r: string)
    ensures '/' !in r
    ensures EndsWith(path, r)
    ensures |r| < |path| ==> path[|path| - |r| - 1] == '/'
  {
    if path == [] || path[|path| - 1] == '/' then []
    else
      var r := Basename(path[..|path| - 1]) + [path[|path| - 1]];
      assert path[|path| - |r|..] == path[..|path| - 1][|path| - |r|..] + [path[|path| - 1]];
      r
  }

  /** `_is_report_file`. */
  function IsReportFile(path: string): (b: bool)
    ensures b ==> EndsWith(path, ".json")
  {
    var name := Basename(path);
    EndsWith(name, ".json") && Contains(name, "-report-")
  }

  lemma {:induction false} BasenameOfName(dir: string, name: string)
    requires '/' !in name
    ensures Basename(dir + "/" + name) == name
    ensures Basename(name) == name
  {
    if name != [] {
      var init := name[..|name| - 1];
      BasenameOfName(dir, init);
      assert (dir + "/" + name)[..|dir + "/" + name| - 1] == dir + "/" + init;
    } else {
      assert (dir + "/" + name)[|dir + "/" + name| - 1] == '/';
    }
  }

  /** Whether a file is a report depends on its own name only, not on its directory. */
  lemma IsReportFileIgnoresDirectory(dir: string, name: string)
    requires '/' !in name
    ensures IsReportFile(dir + "/" + name) == IsReportFile(name)
    ensures IsReportFile(name) <==> EndsWith(name, ".json") && exists i :: OccursAt(name, "-report-", i)
  {
    BasenameOfName(dir, name);
  }

  // ---------------------------------------------------------------------------
  // load_reports.
  // ---------------------------------------------------------------------------

  /**
   * One file met by the directory walk: its path and its parsed JSON, or
   * `None` when it could not be opened or parsed.
   */
  datatype FileEntry = FileEntry(path: string, content: Option<Value>)

  /** The row a file contributes: a report file whose JSON derives. */
  function RowOf(e: FileEntry, fromIso: string -> Option<Timestamp.IsoDateTime>): Option<RunRow> {
    if IsReportFile(e.path) && e.content.Some? then DeriveRow(e.content.value, e.path, fromIso) else None
  }

  /** `RowOf` as a value, for the collecting loop. */
  function Deriver(fromIso: string -> Option<Timestamp.IsoDateTime>): FileEntry -> Option<RunRow> {
    e => RowOf(e, fromIso)
  }

  /** The rows appended by the walk over `entries`, in walk order. */
  function Collected(entries: seq<FileEntry>, fromIso: string -> Option<Timestamp.IsoDateTime>): seq<RunRow> {
    FilterMap(entries, Deriver(fromIso))
  }

  /** The collected rows are exactly the successfully derived report files; each is well formed. */
  lemma CollectedMembers(entries: seq<FileEntry>, fromIso: string -> Option<Timestamp.IsoDateTime>, row: RunRow)
    ensures row in Collected(entries, fromIso) <==>
      exists i :: 0 <= i < |entries| && IsReportFile(entries[i].path) && entries[i].content.Some?
        && DeriveRow(entries[i].content.value, entries[i].path, fromIso) == Some(row)
    ensures row in Collected(entries, fromIso) ==> WellFormedRow(row) && IsReportFile(row.file)
  {
    FilterMapMembers(entries, Deriver(fromIso), row);
  }

  predicate StartGe(a: RunRow, b: RunRow) {
    a.start >= b.start
  }

  /** `load_reports`: the derived rows of the report files under a directory, newest start first. */
  method LoadReports(isDir: bool, entries: seq<FileEntry>, fromIso: string -> Option<Timestamp.IsoDateTime>) returns (rows: seq<RunRow>)
    ensures !isDir ==> rows == []
    ensures isDir ==> rows == StableSort(Collected(entries, fromIso), StartGe)
    ensures isDir ==> multiset(rows) == multiset(Collected(entries, fromIso))
    ensures Sorted(rows, StartGe)
  {
    if !isDir {
      return [];
    }
    rows := CollectSome(entries, Deriver(fromIso));
    assert rows == Collected(entries, fromIso);
    StableSortSorted(rows, StartGe);
    rows := StableSort(rows, StartGe);
  }

  // ---------------------------------------------------------------------------
  // Version bounds and labels.
  // ---------------------------------------------------------------------------

  datatype Bounds = Bounds(earliest: int, latest: int)

  function Earliest(b: Bounds): int { b.earliest }

  function Latest(b: Bounds): int { b.latest }

  /** `row.client_version or "Unknown"`. */
  function VersionKey(row: RunRow): (v: string)
    ensures v != ""
    ensures row.clientVersion != "" ==> v == row.clientVersion
  {
    if row.clientVersion == "" then "Unknown" else row.clientVersion
  }

  /** The versions of the first `n` rows. */
  ghost function VersionsOf(rows: seq<RunRow>, n: int): set<string>
    requires 0 <= n <= |rows|
  {
    set i | 0 <= i < n :: VersionKey(rows[i])
  }

  /** `compute_version_bounds`: per version, the earliest and latest start among its rows. */
  method ComputeVersionBounds(rows: seq<RunRow>) returns (bounds: map<string, Bounds>)
    ensures forall v :: v in bounds <==> exists i :: 0 <= i < |rows| && VersionKey(rows[i]) == v
    ensures forall i :: 0 <= i < |rows| ==>
      bounds[VersionKey(rows[i])].earliest <= rows[i].start <= bounds[VersionKey(rows[i])].latest
    ensures forall v :: v in bounds ==>
      exists i :: 0 <= i < |rows| && VersionKey(rows[i]) == v && rows[i].start == bounds[v].earliest
    ensures forall v :: v in bounds ==>
      exists i :: 0 <= i < |rows| && VersionKey(rows[i]) == v && rows[i].start == bounds[v].latest
  {
    bounds := map[];
    ghost var firstAt: map<string, int> := map[];
    ghost var lastAt: map<string, int> := map[];
    var n := 0;
    while n < |rows|
      invariant BoundsInv(rows, n, bounds, firstAt, lastAt)
    {
      var version := VersionKey(rows[n]);
      var start := rows[n].start;
      var entry := if version in bounds then bounds[version] else Bounds(start, start);
      if start < entry.earliest {
        entry := entry.(earliest := start);
      }
      if start > entry.latest {
        entry := entry.(latest := start);
      }
      BoundsInvStep(rows, n, bounds, firstAt, lastAt, entry);
      if entry.earliest == start {
        firstAt := firstAt[version := n];
      }
      if entry.latest == start {
        lastAt := lastAt[version := n];
      }
      bounds := bounds[version := entry];
      n := n + 1;
    }
    BoundsFinal(rows, bounds, firstAt, lastAt);
  }

  /** The loop invariant of `compute_version_bounds` after `n` rows. */
  ghost predicate BoundsInv(rows: seq<RunRow>, n: int, bounds: map<string, Bounds>, firstAt: map<string, int>, lastAt: map<string, int>) {
    && 0 <= n <= |rows|
    && bounds.Keys == VersionsOf(rows, n)
    && (forall i :: 0 <= i < n ==> Covers(bounds, rows[i]))
    && Witnessed(rows, n, bounds, firstAt, Earliest)
    && Witnessed(rows, n, bounds, lastAt, Latest)
  }

  lemma BoundsInvStep(rows: seq<RunRow>, n: int, bounds: map<string, Bounds>, firstAt: map<string, int>, lastAt: map<string, int>, entry: Bounds)
    requires BoundsInv(rows, n, bounds, firstAt, lastAt) && n < |rows|
    requires entry.earliest <= rows[n].start <= entry.latest
    requires entry.earliest == rows[n].start
      || (VersionKey(rows[n]) in bounds && entry.earliest == bounds[VersionKey(rows[n])].earliest)
    requires entry.latest == rows[n].start
      || (VersionKey(rows[n]) in bounds && entry.latest == bounds[VersionKey(rows[n])].latest)
    requires VersionKey(rows[n]) in bounds ==>
      entry.earliest <= bounds[VersionKey(rows[n])].earliest && bounds[VersionKey(rows[n])].latest <= entry.latest
    ensures var v := VersionKey(rows[n]);
      BoundsInv(rows, n + 1, bounds[v := entry],
        if entry.earliest == rows[n].start then firstAt[v := n] else firstAt,
        if entry.latest == rows[n].start then lastAt[v := n] else lastAt)
  {
    BoundsStep(rows, n, bounds, entry);
    WitnessStep(rows, n, bounds, firstAt, entry, Earliest);
    WitnessStep(rows, n, bounds, lastAt, entry, Latest);
  }

  lemma BoundsFinal(rows: seq<RunRow>, bounds: map<string, Bounds>, firstAt: map<string, int>, lastAt: map<string, int>)
    requires BoundsInv(rows, |rows|, bounds, firstAt, lastAt)
    ensures forall v :: v in bounds <==> exists i :: 0 <= i < |rows| && VersionKey(rows[i]) == v
    ensures forall i :: 0 <= i < |rows| ==>
      bounds[VersionKey(rows[i])].earliest <= rows[i].start <= bounds[VersionKey(rows[i])].latest
    ensures forall v :: v in bounds ==>
      exists i :: 0 <= i < |rows| && VersionKey(rows[i]) == v && rows[i].start == bounds[v].earliest
    ensures forall v :: v in bounds ==>
      exists i :: 0 <= i < |rows| && VersionKey(rows[i]) == v && rows[i].start == bounds[v].latest
  {
    forall v
      ensures v in bounds <==> exists i :: 0 <= i < |rows| && VersionKey(rows[i]) == v
    {
      if v in bounds {
        assert v in VersionsOf(rows, |rows|);
      }
    }
    forall i | 0 <= i < |rows|
      ensures bounds[VersionKey(rows[i])].earliest <= rows[i].start <= bounds[VersionKey(rows[i])].latest
    {
      assert Covers(bounds, rows[i]);
    }
    forall v | v in bounds
      ensures exists i :: 0 <= i < |rows| && VersionKey(rows[i]) == v && rows[i].start == bounds[v].earliest
      ensures exists i :: 0 <= i < |rows| && VersionKey(rows[i]) == v && rows[i].start == bounds[v].latest
    {
      assert WitnessedBy(rows, |rows|, v, firstAt, Earliest(bounds[v]));
      assert WitnessedBy(rows, |rows|, v, lastAt, Latest(bounds[v]));
    }
  }

  /** The bounds of the row's version enclose its start. */
  predicate Covers(bounds: map<string, Bounds>, row: RunRow) {
    VersionKey(row) in bounds && bounds[VersionKey(row)].earliest <= row.start <= bounds[VersionKey(row)].latest
  }

  /** Widening the entry of row `n`'s version keeps every earlier row covered and covers row `n`. */
  lemma BoundsStep(rows: seq<RunRow>, n: int, bounds: map<string, Bounds>, entry: Bounds)
    requires 0 <= n < |rows|
    requires bounds.Keys == VersionsOf(rows, n)
    requires forall i :: 0 <= i < n ==> Covers(bounds, rows[i])
    requires entry.earliest <= rows[n].start <= entry.latest
    requires VersionKey(rows[n]) in bounds ==>
      entry.earliest <= bounds[VersionKey(rows[n])].earliest && bounds[VersionKey(rows[n])].latest <= entry.latest
    ensures bounds[VersionKey(rows[n]) := entry].Keys == VersionsOf(rows, n + 1)
    ensures forall i :: 0 <= i < n + 1 ==> Covers(bounds[VersionKey(rows[n]) := entry], rows[i])
  {
    var v := VersionKey(rows[n]);
    assert VersionsOf(rows, n + 1) == VersionsOf(rows, n) + {v};
    forall i | 0 <= i < n + 1
      ensures Covers(bounds[v := entry], rows[i])
    {
      if i < n && VersionKey(rows[i]) == v {
        assert Covers(bounds, rows[i]);
      }
    }
  }

  /** Every bound chosen by `sel` is the start of a row of its version, named by `at`. */
  ghost predicate Witnessed(rows: seq<RunRow>, n: int, bounds: map<string, Bounds>, at: map<string, int>, sel: Bounds -> int) {
    forall v :: v in bounds ==> WitnessedBy(rows, n, v, at, sel(bounds[v]))
  }

  /** A bound that moved to row `n`'s start is witnessed by row `n`; one that stayed keeps its witness. */
  lemma WitnessStep(rows: seq<RunRow>, n: int, bounds: map<string, Bounds>, at: map<string, int>, entry: Bounds, sel: Bounds -> int)
    requires 0 <= n < |rows|
    requires Witnessed(rows, n, bounds, at, sel)
    requires sel(entry) == rows[n].start
      || (VersionKey(rows[n]) in bounds && sel(entry) == sel(bounds[VersionKey(rows[n])]))
    ensures var v := VersionKey(rows[n]);
      Witnessed(rows, n + 1, bounds[v := entry], if sel(entry) == rows[n].start then at[v := n] else at, sel)
  {
    var v := VersionKey(rows[n]);
    var at' := if sel(entry) == rows[n].start then at[v := n] else at;
    var next := bounds[v := entry];
    forall u | u in next
      ensures WitnessedBy(rows, n + 1, u, at', sel(next[u]))
    {
      if u != v {
        assert WitnessedBy(rows, n, u, at, sel(bounds[u]));
      } else if sel(entry) != rows[n].start {
        assert WitnessedBy(rows, n, u, at, sel(bounds[u]));
      }
    }
  }

  /** `at[v]` names one of the first `n` rows of version `v` starting at `t`. */
  ghost predicate WitnessedBy(rows: seq<RunRow>, n: int, v: string, at: map<string, int>, t: int) {
    v in at && 0 <= at[v] < n <= |rows| && VersionKey(rows[at[v]]) == v && rows[at[v]].start == t
  }

  /** `format_version_label`: the version, followed by its earliest run's UTC date when it has bounds. */
  function FormatVersionLabel(version: string, bounds: map<string, Bounds>, ymd: int -> string): (r: string)
    ensures |version| <= |r| && r[..|version|] == version
    ensures r == version <==> version !in bounds
    ensures version in bounds ==> r[|version|..] == " (" + ymd(bounds[version].earliest) + ")"
  {
    if version !in bounds then version
    else version + " (" + ymd(bounds[version].earliest) + ")"
  }

  // ---------------------------------------------------------------------------
  // format_duration.
  // ---------------------------------------------------------------------------

  datatype Hms = Hms(hours: int, mins: int, secs: int)

  /** The two `divmod(_, 60)` steps (Python floors, as Dafny's `/` and `%` do for a positive divisor). */
  function SplitDuration(n: int): (p: Hms)
    ensures n == p.hours * 3600 + p.mins * 60 + p.secs
    ensures 0 <= p.mins < 60 && 0 <= p.secs < 60
    ensures n >= 0 ==> p.hours >= 0
  {
    var minutes, secs := n / 60, n % 60;
    Hms(minutes / 60, minutes % 60, secs)
  }

  /** `format_duration`: `int(seconds)` shown by its first non-zero unit. */
  function FormatDuration(seconds: real): (r: string)
    ensures r != [] && (r[|r| - 1] == 'm' <==> Truncate(seconds) >= 3600)
  {
    var p := SplitDuration(Truncate(seconds));
    assert p.hours > 0 <==> Truncate(seconds) >= 3600;
    RenderHms(p)
  }

  /** The three shapes of lines 201-205 of data.py: the text ends in minutes exactly when hours are shown. */
  function RenderHms(p: Hms): (r: string)
    ensures r != [] && (r[|r| - 1] == 'm' <==> p.hours > 0)
  {
    if p.hours > 0 then IntToDecimal(p.hours) + "h " + IntToDecimal(p.mins) + "m"
    else if p.mins > 0 then IntToDecimal(p.mins) + "m " + IntToDecimal(p.secs) + "s"
    else IntToDecimal(p.secs) + "s"
  }

  /** Reads a rendered duration back as hours, minutes and seconds. */
  function DurationValue(t: string): Option<Hms> {
    if EndsWith(t, "s") then
      var u := t[..|t| - 1];
      if 'm' in u then
        var ms :- ReadPair(u, 'm');
        Some(Hms(0, ms.0, ms.1))
      else
        var secs :- ParseInt(u);
        Some(Hms(0, 0, secs))
    else if EndsWith(t, "m") then
      var hm :- ReadPair(t[..|t| - 1], 'h');
      Some(Hms(hm.0, hm.1, 0))
    else None
  }

  function TotalSeconds(p: Hms): int {
    p.hours * 3600 + p.mins * 60 + p.secs
  }

  /** Two integers on either side of the first `sep`. */
  function ReadPair(u: string, sep: char): Option<(int, int)> {
    var k :- IndexOf(u, sep);
    var x :- ParseInt(u[..k]);
    var y :- ParseInt(u[k + 1..]);
    Some((x, y))
  }

  lemma IndexOfAfterPrefix(a: string, c: char, b: string)
    requires c !in a
    ensures IndexOf(a + [c] + b, c) == Some(|a|)
  {
    var s := a + [c] + b;
    assert s[|a|] == c;
    assert s[..|a|] == a;
  }

  lemma ParseIntLeadingSpace(s: string)
    ensures ParseInt(" " + s) == ParseInt(s)
  {
    assert TrimStart(" " + s) == TrimStart(s) by {
      assert (" " + s)[1..] == s;
    }
  }

  lemma NatDecimalHasNo(n: int, c: char)
    requires n >= 0 && !IsDigit(c)
    ensures c !in IntToDecimal(n)
  {
  }

  lemma ReadPairOf(a: string, sep: char, b: string)
    requires sep !in a && ParseInt(a).Some? && ParseInt(b).Some?
    ensures ReadPair(a + [sep] + " " + b, sep) == Some((ParseInt(a).value, ParseInt(b).value))
  {
    var u := a + [sep] + " " + b;
    assert u == a + [sep] + (" " + b);
    IndexOfAfterPrefix(a, sep, " " + b);
    assert u[..|a|] == a && u[|a| + 1..] == " " + b;
    ParseIntLeadingSpace(b);
  }

  /** A text ending in `m` is read as hours and minutes. */
  lemma DurationValueEndsM(t: string)
    requires t != [] && t[|t| - 1] == 'm'
    ensures DurationValue(t) ==
      match ReadPair(t[..|t| - 1], 'h') case None => None case Some(hm) => Some(Hms(hm.0, hm.1, 0))
  {
    assert t[|t| - 1..] == "m";
    assert t[|t| - 1..] != "s";
  }

  /** A text ending in `s` with an `m` before it is read as minutes and seconds. */
  lemma DurationValueEndsMS(t: string)
    requires t != [] && t[|t| - 1] == 's' && 'm' in t[..|t| - 1]
    ensures DurationValue(t) ==
      match ReadPair(t[..|t| - 1], 'm') case None => None case Some(ms) => Some(Hms(0, ms.0, ms.1))
  {
    assert t[|t| - 1..] == "s";
  }

  lemma HoursMinutesText(a: string, b: string)
    requires 'h' !in a && ParseInt(a).Some? && ParseInt(b).Some?
    ensures DurationValue(a + "h " + b + "m") == Some(Hms(ParseInt(a).value, ParseInt(b).value, 0))
  {
    var t := a + "h " + b + "m";
    assert t[..|t| - 1] == a + ['h'] + " " + b;
    DurationValueEndsM(t);
    ReadPairOf(a, 'h', b);
  }

  lemma MinutesSecondsText(a: string, b: string)
    requires 'm' !in a && ParseInt(a).Some? && ParseInt(b).Some?
    ensures DurationValue(a + "m " + b + "s") == Some(Hms(0, ParseInt(a).value, ParseInt(b).value))
  {
    var t := a + "m " + b + "s";
    var u := t[..|t| - 1];
    assert u == a + ['m'] + " " + b;
    assert u[|a|] == 'm';
    DurationValueEndsMS(t);
    ReadPairOf(a, 'm', b);
  }

  lemma SecondsText(a: string)
    requires 'm' !in a && ParseInt(a).Some?
    ensures DurationValue(a + "s") == Some(Hms(0, 0, ParseInt(a).value))
  {
    var t := a + "s";
    assert t[|t| - 1..] == "s";
    assert t[..|t| - 1] == a;
  }

  /**
   * A non-negative duration reads back as the hours, minutes and seconds
   * it was split into, except that the seconds are not shown once it
   * reaches an hour.
   */
  lemma FormatDurationRoundTrip(seconds: real)
    requires seconds >= 0.0
    ensures var p := SplitDuration(Truncate(seconds));
      DurationValue(FormatDuration(seconds)) == Some(if p.hours > 0 then p.(secs := 0) else p)
  {
    RenderHmsRead(SplitDuration(Truncate(seconds)));
  }

  lemma RenderHmsRead(p: Hms)
    requires p.hours >= 0 && p.mins >= 0 && p.secs >= 0
    ensures DurationValue(RenderHms(p)) == Some(if p.hours > 0 then p.(secs := 0) else p)
  {
    var h, m, s := IntToDecimal(p.hours), IntToDecimal(p.mins), IntToDecimal(p.secs);
    if p.hours > 0 {
      NatDecimalHasNo(p.hours, 'h');
      HoursMinutesText(h, m);
    } else if p.mins > 0 {
      NatDecimalHasNo(p.mins, 'm');
      MinutesSecondsText(m, s);
    } else {
      NatDecimalHasNo(p.secs, 'm');
      SecondsText(s);
    }
  }

  /** So the text reads back as the whole seconds, rounded down to the minute from an hour on. */
  lemma FormatDurationSeconds(seconds: real)
    requires seconds >= 0.0
    ensures var n := Truncate(seconds);
      DurationValue(FormatDuration(seconds)).Some?
      && TotalSeconds(DurationValue(FormatDuration(seconds)).value) == if n >= 3600 then n - n % 60 else n
  {
    FormatDurationRoundTrip(seconds);
  }
}
