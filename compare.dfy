/**
 * The run detail and comparison page: looking a run up by its report file,
 * reading a Prometheus statistic without failing, relative and
 * percentage-point deltas, the regression notes, the rule that picks the
 * comparison set, and the normalisation of the page's URL query parameters.
 *
 * Widgets are inputs here: the chosen baseline, match mode, force-include
 * and exclude selections and statistic key arrive as parameters, and the
 * run label shown in the selectors (a formatted date, the workload name,
 * gen_mode and a hash prefix) is the parameter `labelOf`.
 */
module Compare {
  import opened Wrappers
  import opened Json
  import opened Text
  import opened Sorting
  import opened Coerce
  import opened Fingerprint
  import opened Collect
  import opened OrderedDict
  import opened Reports

  // ---------------------------------------------------------------------------
  // Looking a run up by file.
  // ---------------------------------------------------------------------------

  /** `_find_row_by_file`: the first row whose file is `file`. */
  method FindRowByFile(rows: seq<RunRow>, file: string) returns (r: Option<RunRow>)
    ensures r.None? <==> forall i :: 0 <= i < |rows| ==> rows[i].file != file
    ensures r.Some? ==> r.value.file == file
    ensures r.Some? ==> exists i :: 0 <= i < |rows| && rows[i] == r.value && forall j :: 0 <= j < i ==> rows[j].file != file
  {
    for i := 0 to |rows|
      invariant forall j :: 0 <= j < i ==> rows[j].file != file
    {
      if rows[i].file == file {
        return Some(rows[i]);
      }
    }
    return None;
  }

  // ---------------------------------------------------------------------------
  // Prometheus statistics: `stats[key]["overall"][field]`.
  // ---------------------------------------------------------------------------

  /** `stats[key]["overall"][field]` is `v`, with a dict at every level. */
  ghost predicate StatAt(stats: Value, key: string, field: string, v: Value) {
    exists stat, overall ::
      stats.Object?
      && Get(stats.fields, key) == Some(Object(stat))
      && Get(stat, "overall") == Some(Object(overall))
      && Get(overall, field) == Some(v)
  }

  /** `_stat_overall`: the `overall` dict of statistic `key`, or `{}` when either level is not a dict. */
  function StatOverall(stats: Value, key: string): (r: seq<(string, Value)>)
    ensures r != [] ==>
      stats.Object? && Get(stats.fields, key).Some? && Get(stats.fields, key).value.Object?
      && Get(Get(stats.fields, key).value.fields, "overall") == Some(Object(r))
  {
    if !stats.Object? then []
    else
      match Get(stats.fields, key)
      case Some(Object(stat)) =>
        (match Get(stat, "overall")
         case Some(Object(overall)) => overall
         case _ => [])
      case _ => []
  }

  /** `_stat_value`: the field of the statistic's `overall` dict as a float, or `None`. */
  function StatValue(stats: Value, key: string, field: string): (r: Option<real>)
    ensures r.Some? ==> exists v :: StatAt(stats, key, field, v) && ToFloat(v) == r
  {
    match Get(StatOverall(stats, key), field)
    case None => None
    case Some(v) =>
      assert StatAt(stats, key, field, v);
      ToFloat(v)
  }

  /**
   * The statistic is `float()` of the value at `stats[key]["overall"][field]`;
   * it is `None` when the statistic or its `overall` is not a dict, the field
   * is missing, or `float()` rejects the value.
   */
  lemma StatValueReads(stats: Value, key: string, field: string)
    ensures forall v :: StatAt(stats, key, field, v) ==> StatValue(stats, key, field) == ToFloat(v)
    ensures (forall v :: !StatAt(stats, key, field, v)) ==> StatValue(stats, key, field).None?
  {
    match Get(StatOverall(stats, key), field)
    case None =>
    case Some(v) =>
      assert StatAt(stats, key, field, v);
  }

  /** The statistic keys of one run; a run whose stats are not a dict has none. */
  function StatKeys(stats: Value): seq<string> {
    if stats.Object? then Keys(stats.fields) else []
  }

  /** The keys of every run's stats, run after run. */
  function AllStatKeys(rows: seq<RunRow>): (ks: seq<string>)
    ensures forall k :: k in ks <==> exists i :: 0 <= i < |rows| && k in StatKeys(rows[i].stats)
  {
    if rows == [] then []
    else
      var init := rows[..|rows| - 1];
      var ks := AllStatKeys(init) + StatKeys(rows[|rows| - 1].stats);
      assert forall i :: 0 <= i < |init| ==> init[i] == rows[i];
      ks
  }

  /** `_collect_stat_keys`: the union of the runs' statistic keys, sorted, each once. */
  function CollectStatKeys(rows: seq<RunRow>): (r: seq<string>)
    ensures StrictlySorted(r)
    ensures forall k :: k in r <==> exists i :: 0 <= i < |rows| && rows[i].stats.Object? && HasKey(rows[i].stats.fields, k)
  {
    var r := SortedSet(AllStatKeys(rows));
    assert forall k, i :: 0 <= i < |rows| ==> (k in StatKeys(rows[i].stats) <==> rows[i].stats.Object? && HasKey(rows[i].stats.fields, k)) by {
      forall k, i | 0 <= i < |rows|
        ensures k in StatKeys(rows[i].stats) <==> rows[i].stats.Object? && HasKey(rows[i].stats.fields, k)
      {
        if rows[i].stats.Object? && HasKey(rows[i].stats.fields, k) {
          var j :| 0 <= j < |rows[i].stats.fields| && rows[i].stats.fields[j].0 == k;
          assert StatKeys(rows[i].stats)[j] == k;
        }
      }
    }
    r
  }

  /** Only which runs are listed matters, not their order or repetition. */
  lemma CollectStatKeysSetOnly(a: seq<RunRow>, b: seq<RunRow>)
    requires forall r :: r in a <==> r in b
    ensures CollectStatKeys(a) == CollectStatKeys(b)
  {
    var ka, kb := CollectStatKeys(a), CollectStatKeys(b);
    forall k
      ensures k in ka <==> k in kb
    {
      if k in ka {
        var i :| 0 <= i < |a| && a[i].stats.Object? && HasKey(a[i].stats.fields, k);
        assert a[i] in b;
      }
      if k in kb {
        var i :| 0 <= i < |b| && b[i].stats.Object? && HasKey(b[i].stats.fields, k);
        assert b[i] in a;
      }
    }
    forall x, y | StrLess(x, y)
      ensures !StrLess(y, x)
    {
      StrLessAsymmetric(x, y);
    }
    StrictlySortedUnique(ka, kb, StrLess);
  }

  // ---------------------------------------------------------------------------
  // Deltas.
  // ---------------------------------------------------------------------------

  /** `_format_delta_percent` before formatting: the relative change in percent, or the "—" sentinel (`None`) for a zero base. */
  function DeltaPercent(base: real, other: real): (r: Option<real>)
    ensures r.None? <==> base == 0.0
    ensures r.Some? ==> base + base * r.value / 100.0 == other
    ensures r.Some? && base > 0.0 ==> (r.value > 0.0 <==> other > base) && (r.value < 0.0 <==> other < base)
  {
    if base == 0.0 then None
    else
      var pct := (other - base) / base * 100.0;
      assert base * pct == (other - base) * 100.0;
      Some(pct)
  }

  /** `_format_delta_pp` before formatting: the change of a ratio, in percentage points. */
  function DeltaPp(base: real, other: real): (d: real)
    ensures base + d / 100.0 == other
    ensures d > 0.0 <==> other > base
  {
    (other - base) * 100.0
  }

  // ---------------------------------------------------------------------------
  // Regression notes.
  // ---------------------------------------------------------------------------

  /** One note of `_regression_notes`, with the number its text shows. */
  datatype Note =
    | ThroughputDrop(pct: real)
    | DropRateRise(pp: real)
    | P90Rise(statKey: string, pct: real)

  /** The position of each kind of note in the joined text. */
  function Rank(n: Note): nat {
    match n
    case ThroughputDrop(_) => 0
    case DropRateRise(_) => 1
    case P90Rise(_, _) => 2
  }

  /** The kinds of the notes, in order. */
  function Kinds(notes: seq<Note>): (ks: seq<nat>)
    ensures |ks| == |notes|
    ensures forall i :: 0 <= i < |notes| ==> ks[i] == Rank(notes[i])
  {
    seq(|notes|, i requires 0 <= i < |notes| => Rank(notes[i]))
  }

  /** `[rank]` when the check fired, else nothing. */
  function Fired(check: bool, rank: nat): seq<nat> {
    if check then [rank] else []
  }

  /** Achieved throughput lost at least a tenth of a positive baseline. */
  predicate ThroughputRegressed(base: real, other: real) {
    base > 0.0 && other * 10.0 <= base * 9.0
  }

  /** The drop rate rose by at least five percentage points. */
  predicate DropRegressed(base: real, other: real) {
    other - base >= 0.05
  }

  /** Both p90 values are present and non-zero and the compared one is at least 10% above the baseline's (relative to its sign). */
  predicate P90Regressed(base: Option<real>, other: Option<real>) {
    base.Some? && other.Some? && base.value != 0.0 && other.value != 0.0
    && if base.value > 0.0 then other.value * 10.0 >= base.value * 11.0 else other.value * 10.0 <= base.value * 11.0
  }

  function P90(base: RunRow, key: string): Option<real> {
    StatValue(base.stats, key, "p90")
  }

  /** The numbers `_regression_notes` compares: the two runs' throughputs, drop rates and p90 readings of the statistic. */
  datatype Readings = Readings(baseTps: real, otherTps: real, baseDrop: real, otherDrop: real,
                               baseP90: Option<real>, otherP90: Option<real>)

  function ReadingsOf(base: RunRow, other: RunRow, key: string): Readings {
    Readings(base.achievedTps, other.achievedTps, base.dropRate, other.dropRate, P90(base, key), P90(other, key))
  }

  /** The notes that fire for the readings, in the order throughput, drop rate, p90. */
  function ExpectedKinds(r: Readings, statKey: Option<string>): seq<nat> {
    Fired(ThroughputRegressed(r.baseTps, r.otherTps), 0)
    + Fired(DropRegressed(r.baseDrop, r.otherDrop), 1)
    + Fired(statKey.Some? && statKey.value != "" && P90Regressed(r.baseP90, r.otherP90), 2)
  }

  /** The number a note shows is the change it reports. */
  predicate NoteMeasures(n: Note, r: Readings, statKey: Option<string>) {
    match n
    case ThroughputDrop(pct) => pct * r.baseTps == (r.otherTps - r.baseTps) * 100.0
    case DropRateRise(pp) => pp == DeltaPp(r.baseDrop, r.otherDrop)
    case P90Rise(key, pct) =>
      statKey == Some(key) && r.baseP90.Some? && r.otherP90.Some?
      && pct * r.baseP90.value == (r.otherP90.value - r.baseP90.value) * 100.0
  }

  /** The relative change `(other - base) / base * 100`, with the thresholds the notes test it against. */
  method PercentChange(base: real, other: real) returns (pct: real)
    requires base != 0.0
    ensures pct * base == (other - base) * 100.0
    ensures base > 0.0 ==> (pct <= -10.0 <==> ThroughputRegressed(base, other))
    ensures pct >= 10.0 <==> if base > 0.0 then other * 10.0 >= base * 11.0 else other * 10.0 <= base * 11.0
  {
    pct := (other - base) / base * 100.0;
    assert pct * base == (other - base) * 100.0;
    if base < 0.0 {
      assert pct >= 10.0 <==> pct * base <= 10.0 * base;
    } else {
      assert pct >= 10.0 <==> pct * base >= 10.0 * base;
      assert pct <= -10.0 <==> pct * base <= -10.0 * base;
    }
  }

  /** The throughput check of `_regression_notes`. */
  method ThroughputNote(r: Readings, statKey: Option<string>) returns (notes: seq<Note>)
    ensures Kinds(notes) == Fired(ThroughputRegressed(r.baseTps, r.otherTps), 0)
    ensures forall i :: 0 <= i < |notes| ==> NoteMeasures(notes[i], r, statKey)
  {
    notes := [];
    if r.baseTps > 0.0 {
      var pct := PercentChange(r.baseTps, r.otherTps);
      if pct <= -10.0 {
        notes := [ThroughputDrop(pct)];
      }
    }
  }

  /** The drop-rate check of `_regression_notes`. */
  method DropNote(r: Readings, statKey: Option<string>) returns (notes: seq<Note>)
    ensures Kinds(notes) == Fired(DropRegressed(r.baseDrop, r.otherDrop), 1)
    ensures forall i :: 0 <= i < |notes| ==> NoteMeasures(notes[i], r, statKey)
  {
    notes := [];
    var dropPp := DeltaPp(r.baseDrop, r.otherDrop);
    if dropPp >= 5.0 {
      notes := [DropRateRise(dropPp)];
    }
  }

  /** The p90 check of `_regression_notes`, made only for a non-empty statistic key. */
  method P90Note(r: Readings, statKey: Option<string>) returns (notes: seq<Note>)
    ensures Kinds(notes) == Fired(statKey.Some? && statKey.value != "" && P90Regressed(r.baseP90, r.otherP90), 2)
    ensures forall i :: 0 <= i < |notes| ==> NoteMeasures(notes[i], r, statKey)
  {
    notes := [];
    if statKey.Some? && statKey.value != "" {
      if r.baseP90.Some? && r.baseP90.value != 0.0 && r.otherP90.Some? && r.otherP90.value != 0.0 {
        var change := PercentChange(r.baseP90.value, r.otherP90.value);
        if change >= 10.0 {
          notes := [P90Rise(statKey.value, change)];
        }
      }
    }
  }

  lemma KindsConcat(a: seq<Note>, b: seq<Note>)
    ensures Kinds(a + b) == Kinds(a) + Kinds(b)
  {
  }

  /** The appends of `_regression_notes`, on the numbers it reads. */
  method NotesFor(r: Readings, statKey: Option<string>) returns (notes: seq<Note>)
    ensures Kinds(notes) == ExpectedKinds(r, statKey)
    ensures forall i :: 0 <= i < |notes| ==> NoteMeasures(notes[i], r, statKey)
  {
    var tps := ThroughputNote(r, statKey);
    var drop := DropNote(r, statKey);
    var p90 := P90Note(r, statKey);
    notes := tps + drop;
    KindsConcat(tps, drop);
    KindsConcat(notes, p90);
    notes := notes + p90;
  }

  /**
   * `_regression_notes`: the notes that fire, in the order throughput, drop
   * rate, p90, each with the change it reports. The statistic note needs a
   * non-empty key; the p90 readings are taken from that key.
   */
  method RegressionNotes(base: RunRow, other: RunRow, statKey: Option<string>) returns (notes: seq<Note>)
    ensures var key := if statKey.Some? then statKey.value else "";
      Kinds(notes) == ExpectedKinds(ReadingsOf(base, other, key), statKey)
      && forall i :: 0 <= i < |notes| ==> NoteMeasures(notes[i], ReadingsOf(base, other, key), statKey)
  {
    var key := if statKey.Some? then statKey.value else "";
    notes := NotesFor(ReadingsOf(base, other, key), statKey);
  }

  /** `sep.join(parts)`. */
  function Join(parts: seq<string>, sep: string): (r: string)
    ensures parts != [] ==> |parts[0]| <= |r| && r[..|parts[0]|] == parts[0]
  {
    if parts == [] then ""
    else if |parts| == 1 then parts[0]
    else parts[0] + sep + Join(parts[1..], sep)
  }

  /** Joining one more part appends the separator and that part. */
  lemma {:induction false} JoinSnoc(parts: seq<string>, x: string, sep: string)
    requires parts != []
    ensures Join(parts + [x], sep) == Join(parts, sep) + sep + x
  {
    if |parts| == 1 {
      assert (parts + [x])[1..] == [x];
    } else {
      assert (parts + [x])[1..] == parts[1..] + [x];
      JoinSnoc(parts[1..], x, sep);
    }
  }

  const WarningSign: string := "\U{26A0}\U{FE0F} "

  /** The text of the notes: empty when none fired, else the warning sign and the notes joined by commas. */
  function NotesText(notes: seq<Note>, show: Note -> string): (t: string)
    ensures t == "" <==> notes == []
    ensures notes != [] ==> |WarningSign| <= |t| && t[..|WarningSign|] == WarningSign
  {
    if notes == [] then ""
    else WarningSign + Join(MapSeq(notes, show), ", ")
  }

  /**
   * A single note reads as the warning sign and that note; every further
   * note follows the ones before it after a comma.
   */
  lemma NotesTextShape(notes: seq<Note>, n: Note, show: Note -> string)
    ensures NotesText([n], show) == WarningSign + show(n)
    ensures notes != [] ==> NotesText(notes + [n], show) == NotesText(notes, show) + ", " + show(n)
  {
    assert MapSeq([n], show) == [show(n)];
    if notes != [] {
      NotesTextSnoc(notes, n, show);
    }
  }

  lemma NotesTextSnoc(notes: seq<Note>, n: Note, show: Note -> string)
    requires notes != []
    ensures NotesText(notes + [n], show) == NotesText(notes, show) + ", " + show(n)
  {
    var parts := MapSeq(notes, show);
    MapSeqSnoc(notes, n, show);
    JoinSnoc(parts, show(n), ", ");
    AppendAssoc(WarningSign, Join(parts, ", "), ", ", show(n));
  }

  // ---------------------------------------------------------------------------
  // The comparison set.
  // ---------------------------------------------------------------------------

  datatype MatchMode = ByName | ByConfig

  /** A run of the workload that is matched automatically against the baseline. */
  predicate AutoMatch(base: RunRow, mode: MatchMode, row: RunRow) {
    row.file != base.file
    && !(mode == ByConfig && base.workloadConfigHash != NoHash && row.workloadConfigHash != base.workloadConfigHash)
  }

  function Matcher(base: RunRow, mode: MatchMode): RunRow -> bool {
    (row: RunRow) => AutoMatch(base, mode, row)
  }

  /** The rows appended to `matching_rows`. */
  function AutoMatches(rows: seq<RunRow>, base: RunRow, mode: MatchMode): (r: seq<RunRow>)
    ensures |r| <= |rows|
    ensures forall row :: row in r ==> row in rows && AutoMatch(base, mode, row)
  {
    FilterSound(rows, Matcher(base, mode));
    Filter(rows, Matcher(base, mode))
  }

  /** The loop building `matching_rows`. */
  method MatchingRows(rows: seq<RunRow>, base: RunRow, mode: MatchMode) returns (matching: seq<RunRow>)
    ensures matching == AutoMatches(rows, base, mode)
  {
    matching := [];
    for i := 0 to |rows|
      invariant matching == Filter(rows[..i], Matcher(base, mode))
    {
      var row := rows[i];
      FilterSnoc(rows[..i], row, Matcher(base, mode));
      assert rows[..i + 1] == rows[..i] + [row];
      if row.file == base.file {
        continue;
      }
      if mode == ByConfig && base.workloadConfigHash != NoHash && row.workloadConfigHash != base.workloadConfigHash {
        continue;
      }
      matching := matching + [row];
    }
    assert rows[..|rows|] == rows;
  }

  /**
   * A run is matched exactly when it is one of the rows, is not the
   * baseline's file and, in config mode with a hashed baseline, has the
   * baseline's hash.
   */
  lemma AutoMatchesMembers(rows: seq<RunRow>, base: RunRow, mode: MatchMode, row: RunRow)
    ensures row in AutoMatches(rows, base, mode) <==>
      row in rows && row.file != base.file
      && (mode == ByConfig && base.workloadConfigHash != NoHash ==> row.workloadConfigHash == base.workloadConfigHash)
  {
    FilterMembers(rows, Matcher(base, mode), row);
  }

  /** Matching keeps the newest-first order of the workload's runs. */
  lemma AutoMatchesNewestFirst(rows: seq<RunRow>, base: RunRow, mode: MatchMode)
    requires Sorted(rows, StartGe)
    ensures Sorted(AutoMatches(rows, base, mode), StartGe)
  {
    FilterSorted(rows, Matcher(base, mode), StartGe);
  }

  /** Config mode with a baseline that has no hash (an empty config) matches like name mode. */
  lemma UnhashedBaselineMatchesByName(rows: seq<RunRow>, base: RunRow)
    requires base.workloadConfigHash == NoHash
    ensures AutoMatches(rows, base, ByConfig) == AutoMatches(rows, base, ByName)
  {
    FilterAgree(rows, Matcher(base, ByConfig), Matcher(base, ByName));
  }

  function File(row: RunRow): string {
    row.file
  }

  function NotExcluded(excluded: set<string>): RunRow -> bool {
    (row: RunRow) => row.file !in excluded
  }

  /** The automatic matches that survive the exclusions. */
  function Kept(matching: seq<RunRow>, excluded: set<string>): seq<RunRow> {
    Filter(matching, NotExcluded(excluded))
  }

  /** `list(selected_map.values())` after both loops: `selected_map[row.file] = row` for each kept match, then each forced run. */
  function Selection(matching: seq<RunRow>, excluded: set<string>, includes: seq<RunRow>): (r: seq<RunRow>)
    ensures forall row :: row in r ==> row in Kept(matching, excluded) || row in includes
  {
    IndexByValuesAll(Kept(matching, excluded) + includes, File);
    Values(IndexBy(Kept(matching, excluded) + includes, File))
  }

  /** The two loops filling `selected_map`: automatic matches not excluded, then the forced ones. */
  method SelectComparison(matching: seq<RunRow>, excluded: set<string>, includes: seq<RunRow>) returns (comparison: seq<RunRow>)
    ensures comparison == Selection(matching, excluded, includes)
  {
    var selected: seq<(string, RunRow)> := [];
    for i := 0 to |matching|
      invariant selected == IndexBy(Kept(matching[..i], excluded), File)
    {
      var row := matching[i];
      KeptStep(matching, excluded, i);
      if row.file in excluded {
        continue;
      }
      selected := Put(selected, File(row), row);
    }
    assert matching[..|matching|] == matching;
    var kept := Kept(matching, excluded);
    assert kept + includes[..0] == kept;
    for j := 0 to |includes|
      invariant selected == IndexBy(kept + includes[..j], File)
    {
      var row := includes[j];
      IncludeStep(kept, includes, j);
      selected := Put(selected, File(row), row);
    }
    assert includes[..|includes|] == includes;
    comparison := Values(selected);
  }

  /** One step of the first loop: an excluded match is skipped, any other is assigned under its file. */
  lemma KeptStep(matching: seq<RunRow>, excluded: set<string>, i: int)
    requires 0 <= i < |matching|
    ensures IndexBy(Kept(matching[..i + 1], excluded), File) ==
      if matching[i].file in excluded then IndexBy(Kept(matching[..i], excluded), File)
      else Put(IndexBy(Kept(matching[..i], excluded), File), matching[i].file, matching[i])
  {
    var row := matching[i];
    assert matching[..i + 1] == matching[..i] + [row];
    FilterSnoc(matching[..i], row, NotExcluded(excluded));
    assert NotExcluded(excluded)(row) <==> row.file !in excluded;
    if row.file in excluded {
      assert Kept(matching[..i + 1], excluded) == Kept(matching[..i], excluded);
    } else {
      assert Kept(matching[..i + 1], excluded) == Kept(matching[..i], excluded) + [row];
      IndexBySnoc(Kept(matching[..i], excluded), row, File);
    }
  }

  /** One step of the second loop: the forced run is assigned under its file. */
  lemma IncludeStep(kept: seq<RunRow>, includes: seq<RunRow>, j: int)
    requires 0 <= j < |includes|
    ensures IndexBy(kept + includes[..j + 1], File) == Put(IndexBy(kept + includes[..j], File), File(includes[j]), includes[j])
  {
    var prefix := kept + includes[..j];
    assert kept + includes[..j + 1] == prefix + [includes[j]] by {
      assert includes[..j + 1] == includes[..j] + [includes[j]];
    }
    IndexBySnoc(prefix, includes[j], File);
  }

  /** Each file appears at most once in the comparison set. */
  lemma SelectionDistinctFiles(matching: seq<RunRow>, excluded: set<string>, includes: seq<RunRow>)
    ensures InjectiveOn(Selection(matching, excluded, includes), File)
  {
    IndexByDistinct(Kept(matching, excluded) + includes, File);
  }

  /** Some run of `rows` comes from file `f`. */
  ghost predicate HasFile(rows: seq<RunRow>, f: string) {
    Carries(rows, File, f)
  }

  /**
   * A file is in the comparison set exactly when an automatic match carries
   * it and it is not excluded, or a forced run carries it (even an excluded
   * one).
   */
  lemma SelectionFiles(matching: seq<RunRow>, excluded: set<string>, includes: seq<RunRow>, f: string)
    ensures HasFile(Selection(matching, excluded, includes), f)
      <==> (f !in excluded && HasFile(matching, f)) || HasFile(includes, f)
  {
    var kept := Kept(matching, excluded);
    IndexByKeys(kept + includes, File, f);
    CarriesConcat(kept, includes, File, f);
    KeptFiles(matching, excluded, f);
  }

  lemma KeptFiles(matching: seq<RunRow>, excluded: set<string>, f: string)
    ensures HasFile(Kept(matching, excluded), f) <==> f !in excluded && HasFile(matching, f)
  {
    var kept := Kept(matching, excluded);
    if HasFile(kept, f) {
      var i :| 0 <= i < |kept| && File(kept[i]) == f;
      FilterMembers(matching, NotExcluded(excluded), kept[i]);
      var k :| 0 <= k < |matching| && matching[k] == kept[i];
    }
    if f !in excluded && HasFile(matching, f) {
      var i :| 0 <= i < |matching| && File(matching[i]) == f;
      FilterMembers(matching, NotExcluded(excluded), matching[i]);
      var k :| 0 <= k < |kept| && kept[k] == matching[i];
    }
  }

  /** With one forced run per file, every forced run is in the comparison set as it is, excluded or not. */
  lemma SelectionHasIncludes(matching: seq<RunRow>, excluded: set<string>, includes: seq<RunRow>, j: int)
    requires InjectiveOn(includes, File)
    requires 0 <= j < |includes|
    ensures includes[j] in Selection(matching, excluded, includes)
  {
    IndexByHasLater(Kept(matching, excluded), includes, File, j);
  }

  /**
   * When the automatic matches have distinct files, the ones not excluded
   * come first, in their order; forced runs new to the set come after them.
   */
  lemma SelectionKeepsMatchOrder(matching: seq<RunRow>, excluded: set<string>, includes: seq<RunRow>)
    requires InjectiveOn(matching, File)
    ensures |Kept(matching, excluded)| <= |Selection(matching, excluded, includes)|
    ensures forall i :: 0 <= i < |Kept(matching, excluded)| ==>
      Selection(matching, excluded, includes)[i].file == Kept(matching, excluded)[i].file
  {
    FilterInjective(matching, NotExcluded(excluded), File);
    IndexByKeepsEarlier(Kept(matching, excluded), includes, File);
  }

  // ---------------------------------------------------------------------------
  // The label selectors.
  // ---------------------------------------------------------------------------

  /** `label_to_row`: each label maps to a run carrying it, the last such run when several share it. */
  function LabelMap(rows: seq<RunRow>, labelOf: RunRow -> string): (m: map<string, RunRow>)
    ensures forall l :: l in m <==> exists i :: 0 <= i < |rows| && labelOf(rows[i]) == l
    ensures forall l :: l in m ==> m[l] in rows && labelOf(m[l]) == l
  {
    if rows == [] then map[]
    else
      var init := rows[..|rows| - 1];
      var last := rows[|rows| - 1];
      var m := LabelMap(init, labelOf)[labelOf(last) := last];
      assert forall i :: 0 <= i < |init| ==> init[i] == rows[i];
      m
  }

  /** A label shared by several runs names the last of them. */
  lemma {:induction false} LabelMapLastWins(rows: seq<RunRow>, labelOf: RunRow -> string, i: int)
    requires 0 <= i < |rows|
    requires forall j :: i < j < |rows| ==> labelOf(rows[j]) != labelOf(rows[i])
    ensures LabelMap(rows, labelOf)[labelOf(rows[i])] == rows[i]
  {
    if i < |rows| - 1 {
      var init := rows[..|rows| - 1];
      assert init[i] == rows[i];
      LabelMapLastWins(init, labelOf, i);
    }
  }

  /** The `(label, run)` entries `manual_include` is built from: each selected label that names a run, in order. */
  function IncludedEntries(labels: seq<string>, m: map<string, RunRow>): (kvs: seq<(string, RunRow)>)
    ensures forall k :: 0 <= k < |kvs| ==> kvs[k].0 in labels && kvs[k].0 in m && kvs[k].1 == m[kvs[k].0]
    ensures forall l :: l in labels && l in m ==> (l, m[l]) in kvs
  {
    if labels == [] then []
    else
      var l := labels[|labels| - 1];
      var init := labels[..|labels| - 1];
      assert forall x :: x in init ==> x in labels;
      IncludedEntries(init, m) + (if l in m then [(l, m[l])] else [])
  }

  /** `row` is the run some label of `labels` names. */
  ghost predicate Named(labels: seq<string>, m: map<string, RunRow>, row: RunRow) {
    exists l :: l in labels && l in m && m[l] == row
  }

  /** `manual_include`: the selected labels that name a run, as a label-keyed dict; its values in order. */
  function IncludedRows(labels: seq<string>, m: map<string, RunRow>): (r: seq<RunRow>)
    ensures forall row :: row in r ==> Named(labels, m, row)
    ensures forall l :: l in labels && l in m ==> m[l] in r
  {
    var kvs := IncludedEntries(labels, m);
    var r := Values(PutAll([], kvs));
    forall row | row in r
      ensures Named(labels, m, row)
    {
      PutAllValues([], kvs, row);
      var k :| 0 <= k < |kvs| && Values(kvs)[k] == row;
      assert kvs[k].0 in labels && kvs[k].0 in m && m[kvs[k].0] == row;
    }
    forall l | l in labels && l in m
      ensures m[l] in r
    {
      IncludedEntryPresent(kvs, l, m[l]);
      PutAllHoldsLast([], kvs, l);
      LastAssignedFrom(kvs, l);
      var i :| 0 <= i < |PutAll([], kvs)| && PutAll([], kvs)[i] == (l, LastAssigned(kvs, l).value);
      assert r[i] == m[l];
    }
    r
  }

  lemma IncludedEntryPresent(kvs: seq<(string, RunRow)>, l: string, row: RunRow)
    requires (l, row) in kvs
    ensures Present(kvs, l)
  {
    var i :| 0 <= i < |kvs| && kvs[i] == (l, row);
    assert kvs[i].0 == l;
  }

  /** When every run a label names carries that label, the forced runs carry distinct labels. */
  lemma IncludedRowsDistinct(labels: seq<string>, m: map<string, RunRow>, labelOf: RunRow -> string)
    requires forall l :: l in m ==> labelOf(m[l]) == l
    ensures InjectiveOn(IncludedRows(labels, m), labelOf)
  {
    var kvs := IncludedEntries(labels, m);
    var d := PutAll([], kvs);
    PutAllUnique([], kvs);
    forall i | 0 <= i < |d|
      ensures labelOf(Values(d)[i]) == d[i].0
    {
      PutAllEntry(kvs, i);
      var k :| 0 <= k < |kvs| && kvs[k] == d[i];
    }
  }

  /** Two different runs of a list with distinct files have different files. */
  lemma DistinctRunsDistinctFiles(rows: seq<RunRow>, x: RunRow, y: RunRow)
    requires InjectiveOn(rows, File)
    requires x in rows && y in rows && x != y
    ensures x.file != y.file
  {
    var a :| 0 <= a < |rows| && rows[a] == x;
    var b :| 0 <= b < |rows| && rows[b] == y;
    assert a != b;
  }

  /** Runs taken from a list with distinct files, and carrying distinct labels, have distinct files. */
  lemma DistinctLabelsDistinctFiles(rows: seq<RunRow>, inc: seq<RunRow>, labelOf: RunRow -> string)
    requires InjectiveOn(rows, File)
    requires forall x :: x in inc ==> x in rows
    requires InjectiveOn(inc, labelOf)
    ensures InjectiveOn(inc, File)
  {
    forall i, j | 0 <= i < j < |inc|
      ensures File(inc[i]) != File(inc[j])
    {
      assert labelOf(inc[i]) != labelOf(inc[j]);
      DistinctRunsDistinctFiles(rows, inc[i], inc[j]);
    }
  }

  /** `manual_exclude_files`: the files of the runs the selected labels name. */
  function ExcludedFiles(labels: seq<string>, m: map<string, RunRow>): (r: set<string>)
    ensures forall row :: Named(labels, m, row) ==> row.file in r
    ensures forall f :: f in r ==> exists row :: Named(labels, m, row) && row.file == f
  {
    set l | l in labels && l in m :: m[l].file
  }

  /** The force-include options: the labels of the workload's runs other than the baseline, in order. */
  function IncludeOptions(rows: seq<RunRow>, base: RunRow, labelOf: RunRow -> string): (opts: seq<string>)
    ensures forall l :: l in opts <==> exists i :: 0 <= i < |rows| && rows[i].file != base.file && labelOf(rows[i]) == l
  {
    if rows == [] then []
    else
      var row := rows[|rows| - 1];
      var init := rows[..|rows| - 1];
      assert forall i :: 0 <= i < |init| ==> init[i] == rows[i];
      IncludeOptions(init, base, labelOf) + (if row.file != base.file then [labelOf(row)] else [])
  }

  /** The comparison set exactly as the page computes it. */
  function ComparisonSetAsWritten(rows: seq<RunRow>, base: RunRow, mode: MatchMode, labelOf: RunRow -> string,
                                  includeLabels: seq<string>, excludeLabels: seq<string>): (r: seq<RunRow>)
    ensures forall row :: row in r ==> row in rows
    ensures forall row :: row in r ==>
      (AutoMatch(base, mode, row) && row.file !in ExcludedFiles(excludeLabels, LabelMap(rows, labelOf)))
      || Named(includeLabels, LabelMap(rows, labelOf), row)
  {
    var m := LabelMap(rows, labelOf);
    var matching := AutoMatches(rows, base, mode);
    var excluded := ExcludedFiles(excludeLabels, m);
    FilterSound(matching, NotExcluded(excluded));
    Selection(matching, excluded, IncludedRows(includeLabels, m))
  }

  /**
   * With distinct report files, every run named by a force-included label
   * is in the comparison set the page builds, even when it is also excluded.
   */
  lemma ForcedRunCompared(rows: seq<RunRow>, base: RunRow, mode: MatchMode, labelOf: RunRow -> string,
                          includeLabels: seq<string>, excludeLabels: seq<string>, l: string)
    requires InjectiveOn(rows, File)
    requires l in includeLabels && l in LabelMap(rows, labelOf)
    ensures LabelMap(rows, labelOf)[l] in ComparisonSetAsWritten(rows, base, mode, labelOf, includeLabels, excludeLabels)
  {
    var m := LabelMap(rows, labelOf);
    var inc := IncludedRows(includeLabels, m);
    IncludedRowsDistinct(includeLabels, m, labelOf);
    forall x | x in inc
      ensures x in rows
    {
    }
    DistinctLabelsDistinctFiles(rows, inc, labelOf);
    var j :| 0 <= j < |inc| && inc[j] == m[l];
    SelectionHasIncludes(AutoMatches(rows, base, mode), ExcludedFiles(excludeLabels, m), inc, j);
  }

  function SampleRun(file: string): RunRow {
    RunRow(file, 0, 0, 0.0, 0, "w", EmptyObject, NoHash, "unknown", "v", 0, 0, 0, 0, 0.0, 0.0, EmptyObject, Str(""))
  }

  /** Two runs of workload `w`, the newer first, as the page lists them. */
  function SampleRows(): seq<RunRow> {
    [SampleRun("a-report-1.json"), SampleRun("a-report-2.json")]
  }

  /** The label both sample runs get: same start minute, workload, gen_mode and (empty) hash prefix. */
  function SharedLabel(r: RunRow): string {
    "2024-01-01 00:00 | w | unknown | "
  }

  /** The label maps to the second run, and the first run's label is the only force-include option. */
  lemma SharedLabelSetup()
    ensures LabelMap(SampleRows(), SharedLabel)[SharedLabel(SampleRows()[1])] == SampleRows()[1]
    ensures IncludeOptions(SampleRows(), SampleRows()[1], SharedLabel) == [SharedLabel(SampleRows()[0])]
  {
    var rows := SampleRows();
    LabelMapLastWins(rows, SharedLabel, 1);
    assert rows[..1] == [rows[0]];
    assert rows[..1][..0] == [];
    assert IncludeOptions(rows[..1], rows[1], SharedLabel) == [SharedLabel(rows[0])];
  }

  /** Force-including that option brings in the run the label maps to: the baseline. */
  lemma SharedLabelIncluded()
    ensures IncludedRows([SharedLabel(SampleRows()[0])], LabelMap(SampleRows(), SharedLabel)) == [SampleRows()[1]]
  {
    var rows := SampleRows();
    var m := LabelMap(rows, SharedLabel);
    LabelMapLastWins(rows, SharedLabel, 1);
    var opts := [SharedLabel(rows[0])];
    var kvs := [(SharedLabel(rows[0]), rows[1])];
    assert IncludedEntries(opts, m) == kvs by {
      assert opts[..0] == [];
    }
    assert PutAll([], kvs) == kvs by {
      assert kvs[..0] == [];
    }
  }

  /**
   * Two runs of a workload that share a label: the baseline is the last of
   * them, so force-including the other one's label brings the baseline
   * itself into its own comparison set.
   */
  lemma SharedLabelComparesBaseline()
    ensures var rows := SampleRows();
      var base := LabelMap(rows, SharedLabel)[SharedLabel(rows[1])];
      IncludeOptions(rows, base, SharedLabel) == [SharedLabel(rows[0])]
      && base in ComparisonSetAsWritten(rows, base, ByName, SharedLabel, IncludeOptions(rows, base, SharedLabel), [])
  {
    var rows := SampleRows();
    var m := LabelMap(rows, SharedLabel);
    SharedLabelSetup();
    SharedLabelIncluded();
    var base := rows[1];
    var inc := IncludedRows([SharedLabel(rows[0])], m);
    assert InjectiveOn(inc, File);
    SelectionHasIncludes(AutoMatches(rows, base, ByName), ExcludedFiles([], m), inc, 0);
  }

  function NotBaseline(base: RunRow): RunRow -> bool {
    (row: RunRow) => row.file != base.file
  }

  /**
   * The comparison set as intended: as the page computes it, except that a
   * forced label naming the baseline (through a shared label) is dropped.
   */
  function ComparisonSet(rows: seq<RunRow>, base: RunRow, mode: MatchMode, labelOf: RunRow -> string,
                         includeLabels: seq<string>, excludeLabels: seq<string>): (r: seq<RunRow>)
    ensures forall i :: 0 <= i < |r| ==> r[i].file != base.file
  {
    var m := LabelMap(rows, labelOf);
    var matching := AutoMatches(rows, base, mode);
    var excluded := ExcludedFiles(excludeLabels, m);
    var includes := Filter(IncludedRows(includeLabels, m), NotBaseline(base));
    var r := Selection(matching, excluded, includes);
    forall i | 0 <= i < |r|
      ensures r[i].file != base.file
    {
      SelectionFiles(matching, excluded, includes, r[i].file);
      assert File(r[i]) == r[i].file;
      if HasFile(matching, r[i].file) {
        var k :| 0 <= k < |matching| && File(matching[k]) == r[i].file;
        FilterMembers(rows, Matcher(base, mode), matching[k]);
      }
      if HasFile(includes, r[i].file) {
        var k :| 0 <= k < |includes| && File(includes[k]) == r[i].file;
        FilterMembers(IncludedRows(includeLabels, m), NotBaseline(base), includes[k]);
      }
    }
    r
  }

  /** Without a shared label, a forced run named by an offered label is never the baseline's file. */
  lemma IncludedNotBaseline(rows: seq<RunRow>, base: RunRow, labelOf: RunRow -> string, includeLabels: seq<string>, row: RunRow)
    requires forall i, j ::
      0 <= i < |rows| && 0 <= j < |rows| && rows[i].file != base.file && rows[j].file == base.file ==> labelOf(rows[i]) != labelOf(rows[j])
    requires forall l :: l in includeLabels ==> l in IncludeOptions(rows, base, labelOf)
    requires row in IncludedRows(includeLabels, LabelMap(rows, labelOf))
    ensures row.file != base.file
  {
    var m := LabelMap(rows, labelOf);
    var l :| l in includeLabels && l in m && m[l] == row;
    var i :| 0 <= i < |rows| && rows[i].file != base.file && labelOf(rows[i]) == l;
    var j :| 0 <= j < |rows| && rows[j] == row;
    assert labelOf(rows[i]) == l == labelOf(rows[j]);
  }

  /** Without a label shared across the baseline's file and another, nothing is dropped: the intended set is the page's. */
  lemma ComparisonSetAgrees(rows: seq<RunRow>, base: RunRow, mode: MatchMode, labelOf: RunRow -> string,
                            includeLabels: seq<string>, excludeLabels: seq<string>)
    requires forall i, j ::
      0 <= i < |rows| && 0 <= j < |rows| && rows[i].file != base.file && rows[j].file == base.file ==> labelOf(rows[i]) != labelOf(rows[j])
    requires forall l :: l in includeLabels ==> l in IncludeOptions(rows, base, labelOf)
    ensures ComparisonSet(rows, base, mode, labelOf, includeLabels, excludeLabels)
      == ComparisonSetAsWritten(rows, base, mode, labelOf, includeLabels, excludeLabels)
  {
    var m := LabelMap(rows, labelOf);
    var inc := IncludedRows(includeLabels, m);
    forall k | 0 <= k < |inc|
      ensures NotBaseline(base)(inc[k])
    {
      IncludedNotBaseline(rows, base, labelOf, includeLabels, inc[k]);
    }
    FilterAll(inc, NotBaseline(base));
  }

  // ---------------------------------------------------------------------------
  // Query parameters.
  // ---------------------------------------------------------------------------

  /** A URL query parameter as the page reads it: missing, one value, or a list of values. */
  datatype QueryParam = Absent | Single(value: string) | Multi(values: seq<string>)

  /** A list parameter stands for its last value, an empty list for none. */
  function ParamValue(p: QueryParam): (r: Option<string>)
    ensures r.None? <==> p.Absent? || p == Multi([])
  {
    match p
    case Absent => None
    case Single(v) => Some(v)
    case Multi(vs) => if vs == [] then None else Some(vs[|vs| - 1])
  }

  /** Appending a value to a list parameter makes it the one read; a one-element list reads as that value. */
  lemma ParamValueLastWins(vs: seq<string>, v: string)
    ensures ParamValue(Multi(vs + [v])) == Some(v)
    ensures ParamValue(Multi([v])) == ParamValue(Single(v))
  {
  }

  /** The match mode the page starts with: config only for a `match` parameter reading `config`. */
  function MatchModeParam(p: QueryParam): (mode: MatchMode)
    ensures mode == ByConfig <==> ParamValue(p) == Some("config")
  {
    var v := ParamValue(p);
    if v == Some("name") || v == Some("config") then
      (if v == Some("config") then ByConfig else ByName)
    else ByName
  }
}
