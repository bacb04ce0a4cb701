# txdash report pipeline, modelled in Dafny

txdash is a Streamlit dashboard over the JSON reports of a transaction
load generator. Each report file describes one run: start and end time,
the workload configuration, transaction counters, the client version
and Prometheus statistics. This project models the data side of the
dashboard and proves properties of it:

- `Reports` (`reports.dfy`) models `data.py`. `_derive_row` turns one
  report into a `RunRow` (or rejects it), with these parts:
  - workload-group resolution;
  - the serde-tagged `gen_mode`;
  - counters with their defaults;
  - duration, achieved throughput and drop rate.

  The module also models the report-file filter, `load_reports` (collect,
  then sort newest first), `compute_version_bounds`,
  `format_version_label` and `format_duration`.
- `Timestamp` (`timestamp.dfy`) models the RFC 3339 normalisation in
  `_parse_rfc3339`. It rewrites a trailing `Z` and truncates the fraction
  to microseconds. `app.py` has an identical copy.
- `Fingerprint` (`fingerprint.dfy`) models `_sanitize_for_hash` and the
  config hash over the canonical form.
- `Compare` (`compare.dfy`) models the run detail and comparison page.
  It covers:
  - finding a run by file;
  - the safe statistic lookup;
  - relative and percentage-point deltas;
  - the regression notes;
  - the comparison-set rule (automatic matches, exclusions, forced
    inclusions, keyed by file);
  - the query-parameter normalisation.
- `Medians` (`medians.dfy`) models the client-version medians page. It
  covers:
  - the grouping of runs into (version, workload) buckets with count,
    medians and latest start;
  - the workload order;
  - the base table and the comparison table, with their aligned delta
    lists;
  - the two delta functions and the colour styler;
  - the workload pool and the shared-only filter.
- `AppReports` (`app_reports.dfy`) models the older single-page `app.py`.
  It covers:
  - its own `_derive_row`, which falls back on a falsy name;
  - `load_reports`, sorted by workload name and then start;
  - `_safe_get`, `_stats_metric_keys` and `_extract_stat_value`.

  Its `_parse_rfc3339`, `_gen_mode_label` and `_is_report_file` are the
  same code as in `data.py` and are shared with `Reports`.
- The support modules are generic models of the Python features the code
  relies on:
  - `Wrappers`: `Option`.
  - `Json`: parsed JSON values, truthiness, `dict.get`.
  - `Text`: string order, `int()` and `float()` on strings, `str(n)`,
    `sorted(set(...))`.
  - `Coerce`: `int()` and `float()` on JSON values.
  - `Sorting`: the stable `list.sort`.
  - `Collect`: comprehensions and collecting loops.
  - `OrderedDict`: insertion-ordered dicts.

**Representation choices**
- Instants are integer microseconds since the epoch, in UTC.
- Durations, throughputs, drop rates and medians are exact reals.
- A place where Python raises and the surrounding `try` turns the failure
  into "no row" is an `Option` that is `None`.
- The filesystem walk arrives as a list of entries: a path, plus parsed
  JSON or nothing when the file could not be read or parsed.
- These library functions are parameters:
  - `datetime.fromisoformat` (`fromIso`);
  - the `strftime` date rendering (`ymd`);
  - the run label of page 1 (`labelOf`).
- The SHA-256 digest is the constructor `Sha256(canonical form)`.

**Behaviour as written**

The code is modelled as written. In these places the code does something
a reader might not expect:
- A `workload_idx` that is present but not convertible by `int()` rejects
  the report. It does not fall back to 0.
- In exact-config mode, a baseline with an empty config hash filters
  nothing. Every other run of the workload matches
  (`Compare.UnhashedBaselineMatchesByName`).
- A forced inclusion wins over an exclusion of the same file
  (`Compare.SelectionFiles`).
- In `data.py`, a group `name` that is present but blank is kept as the
  workload name. `app.py` replaces it with `workload_<idx>`
  (`AppReports.BlankNameDiffersFromDataPy`).

## Model

| member | source | states |
|---|---|---|
| Json.Get | data.py:90-92 | `d.get(k)` is present exactly when the key occurs, and the value returned is one stored under that key |
| Text.SortedSet | pages/1_Run_Detail_and_Compare.py:48-49 | `sorted(set(xs))` is strictly increasing and holds exactly the strings of `xs` |
| Text.IntToDecimal | data.py:95 | the `str(idx)` inside `workload_<idx>` is non-empty and reads back through `int()` as the same integer |
| Text.ParseRealExtendsParseInt | pages/1_Run_Detail_and_Compare.py:41-44 | a string `int()` accepts is accepted by `float()` with the same value |
| Coerce.Truncate | data.py:90 | `int()` of a float truncates toward zero: within 1 of the input, never past it |
| Coerce.ToFloatAgreesWithToInt | pages/1_Run_Detail_and_Compare.py:41-44 | every non-float value `int()` accepts is accepted by `float()` with the same value |
| Sorting.StableSort | data.py:170 | `list.sort` returns a permutation of its input (same length, same multiset) |
| Sorting.StableSortSorted | data.py:170 | under a total, transitive order the sorted list is ordered |
| Sorting.StableSortMembers | data.py:170 | sorting keeps exactly the same members |
| Collect.FilterMapMembers | data.py:156-166 | the collecting loop keeps exactly the items whose derivation succeeded |
| Collect.FilterMembers | pages/1_Run_Detail_and_Compare.py:192-198 | a filtering loop keeps exactly the members that pass the test |
| Collect.FilterSorted | pages/1_Run_Detail_and_Compare.py:192-198 | filtering an ordered list keeps it ordered |
| Collect.MapSeqMultiset | pages/2_Client_Version_Medians.py:104-111 | reordering the rows only reorders the values read from them |
| OrderedDict.Put | pages/1_Run_Detail_and_Compare.py:223 | `d[k] = v` keeps existing keys in place, appends a new key at the end, and changes only `k`'s value |
| OrderedDict.PutFresh | pages/1_Run_Detail_and_Compare.py:223 | assigning a key that is not yet present appends exactly its entry at the end |
| OrderedDict.PutAllLookup | pages/1_Run_Detail_and_Compare.py:219-226 | after a run of assignments, a key holds its last assigned value, or its old value if it was never assigned |
| OrderedDict.PutAllHoldsLast | pages/1_Run_Detail_and_Compare.py:216 | after a run of assignments, an assigned key holds the entry last assigned to it |
| OrderedDict.PutAllEntry | pages/1_Run_Detail_and_Compare.py:216 | a dict built from empty by assignments holds only assigned entries |
| OrderedDict.IndexByKeepsEarlier | pages/1_Run_Detail_and_Compare.py:219-228 | keys assigned first keep their leading positions when later assignments follow |
| OrderedDict.SumByPut | pages/2_Client_Version_Medians.py:98-100 | the total size after an assignment changes by the new value's size minus the replaced one's |
| OrderedDict.LookupMapValues | pages/2_Client_Version_Medians.py:101-114 | rewriting every value in place keeps the keys and maps each value |
| Timestamp.MatchParts | data.py:44-47 | a successful match splits the string into a date-time base, an optional `.digits` fraction and a `±hh:mm` offset |
| Timestamp.MatchPartsComplete | data.py:44-48 | every well-formed base, fraction and offset is matched and split back into the same parts |
| Timestamp.Normalize | data.py:42-54 | a string that neither ends in `Z` nor matches the pattern reaches `fromisoformat` unchanged; without a `Z`, normalising never makes the string longer |
| Timestamp.NormalizeMatched | data.py:44-54 | a matched timestamp without `Z` keeps its date-time and offset and only has its fraction truncated |
| Timestamp.NormalizeZulu | data.py:42-43 | a trailing `Z` always ends up as `+00:00` |
| Timestamp.NormalizeTruncatesFraction | data.py:48-54 | a fraction longer than 6 digits is cut to its first 6 without rounding; shorter fractions are unchanged |
| Timestamp.NormalizeTruncatesZuluFraction | data.py:42-54 | the same for a `Z`-suffixed time, whose offset becomes `+00:00` |
| Timestamp.NormalizeDropsSubMicroseconds | data.py:42-54 | `…:00.123456789Z` and `…:00.123456Z` normalise to the same string |
| Timestamp.NormalizeIdempotent | data.py:42-54 | normalising twice is the same as normalising once |
| Timestamp.ParseRfc3339 | data.py:39-58 | a non-string is rejected; a string parses exactly when `fromisoformat` accepts its normalised form |
| Timestamp.NaiveIsUtc | data.py:55-57 | a time without offset is taken as UTC |
| Timestamp.SubMicrosecondDigitsIgnored | data.py:42-58 | digits past the microsecond do not change the parsed instant |
| Fingerprint.Sanitize | data.py:70-75 | a dict stays a dict with as many entries, a list stays a list of the same length, and any other value is returned unchanged |
| Fingerprint.ComputeWorkloadHash | data.py:78-81 | the digest is taken over a canonical form: every dict at every depth is key-sorted, and sanitising that form again leaves it unchanged |
| Fingerprint.SortFieldsSorted | data.py:72 | a dict's keys come out in increasing order |
| Fingerprint.SanitizeCanonical | data.py:70-75 | after sanitising, every dict at every depth has its keys in increasing order |
| Fingerprint.CanonicalFixed | data.py:70-75 | sanitising a value that is already canonical changes nothing |
| Fingerprint.SanitizeIdempotent | data.py:70-75 | sanitising twice is the same as sanitising once |
| Fingerprint.SortFieldsStrict | data.py:72 | with distinct keys, the sorted fields are strictly increasing and are the same entries |
| Fingerprint.SanitizeKeyOrderIndependent | data.py:70-75 | two configs with the same content in different key orders, at any depth, sanitise to the same value |
| Fingerprint.HashKeyOrderIndependent | data.py:78-81 | the config hash does not depend on the order of keys in the report |
| Reports.GenModeLabel | data.py:61-67 | a string is returned unchanged, a non-empty dict gives its first key, anything else "unknown" |
| Reports.GenModeLabelDecodesSerde | data.py:61-67 | the label is the variant name serde wrote, for unit and data-carrying variants alike |
| Reports.ResolveWorkload | data.py:91-98 | an out-of-range index (negative included) gives config `{}` and name `workload_<idx>`; an in-range truthy group is itself the config that is fingerprinted; an in-range dict group whose `name` is missing or a string always resolves; a resolved config is a dict |
| Reports.FalsyGroupGivesDefaults | data.py:96-97 | a null or empty selected group gives `{}` and `workload_<idx>` |
| Reports.GroupNameMissing | data.py:96-98 | a truthy dict group without a `name` key is the config, named `workload_<idx>` |
| Reports.GroupNameKept | data.py:98 | a group's own `name` is kept whenever the key exists, even when blank |
| Reports.GenModeOf | data.py:103-106 | `gen_mode` is "unknown" unless `traffic_gens` is non-empty, then the first generator's label; a non-empty list whose first generator is a dict always gives a label |
| Reports.ReadCounters | data.py:108-111 | missing counters default to 0, and a missing `txs_dropped` to `max(0, sent - committed)`; a present counter is `int()` of its value; reading succeeds exactly when `int()` accepts every present counter |
| Reports.DurationSeconds | data.py:88 | the duration is `end - start` in seconds, clamped at zero |
| Reports.AchievedTps | data.py:113 | throughput is `committed / duration` when the duration is positive, else 0 |
| Reports.DropRate | data.py:114 | the drop rate is `dropped / sent` when `sent > 0`, else 0, and is not clamped to 1 |
| Reports.OrDefault | data.py:116-117 | `data.get(k, d) or d`: the stored value when it is truthy, else the default |
| Reports.ClientVersion | data.py:118 | a missing or falsy version becomes "Unknown"; a non-empty string is kept |
| Reports.AssembleRow | data.py:120-139 | the row holds the given fields, and the hash is empty exactly when the config is `{}` |
| Reports.DeriveRow | data.py:84-142 | a non-dict report or a missing or unparseable start or end gives `None`; a row is complete and well formed; its times, index, workload, gen mode (`GenModeOf` of the group's config), counters, client version, `stats` and `stats_str` are each the value their reader gives; a row is produced exactly when every reader succeeds |
| Reports.DeriveRowOutOfRange | data.py:94-101 | an index outside the groups gives name `workload_<idx>`, config `{}` and no hash |
| Reports.DeriveRowDroppedDefault | data.py:111 | without `txs_dropped` the row counts `max(0, sent - committed)` drops |
| Reports.DeriveRowUnknownVersion | data.py:118 | a missing or falsy client version is stored as "Unknown" |
| Reports.Basename | data.py:146 | the basename has no `/`, ends the path, and is preceded by `/` when shorter than it |
| Reports.IsReportFile | data.py:145-147 | a report file's name ends in `.json` |
| Reports.IsReportFileIgnoresDirectory | data.py:145-147 | only the basename counts: it must end in `.json` and contain `-report-` |
| Reports.CollectedMembers | data.py:156-166 | the collected rows are exactly the report files whose derivation succeeded; each is well formed |
| Reports.LoadReports | data.py:151-172 | a non-directory gives `[]`; otherwise the collected rows, permuted and sorted newest start first |
| Reports.VersionKey | data.py:178 | a row's version key is non-empty and is its own version when that is set |
| Reports.ComputeVersionBounds | data.py:175-185 | one entry per distinct version; every row lies within its version's bounds, and both bounds are attained by a row |
| Reports.FormatVersionLabel | data.py:188-195 | the label is the version alone when it has no bounds, else the version, a space and its earliest date in parentheses |
| Reports.FormatDuration | data.py:198-205 | the text is non-empty, and it ends in minutes (`…m`) exactly when `int(seconds)` is at least an hour, in seconds otherwise |
| Reports.SplitDuration | data.py:199-200 | `n == h*3600 + m*60 + s` with `m` and `s` in `[0, 60)` |
| Reports.RenderHms | data.py:201-205 | the text is non-empty and ends in `m` exactly when there are hours to show |
| Reports.RenderHmsRead | data.py:201-205 | the shown text reads back as hours and minutes, minutes and seconds, or seconds, by the first non-zero unit |
| Reports.FormatDurationRoundTrip | data.py:198-205 | reading the formatted duration back gives its split, without the seconds once hours show |
| Reports.FormatDurationSeconds | data.py:198-205 | the formatted duration stands for `int(seconds)`, rounded down to a minute from one hour on |
| Compare.FindRowByFile | pages/1_Run_Detail_and_Compare.py:21-25 | `None` exactly when no row has the file; otherwise the first row that has it |
| Compare.StatOverall | pages/1_Run_Detail_and_Compare.py:28-33 | a non-empty result is the dict stored under `overall` in the dict stored under the key in the stats dict |
| Compare.StatValue | pages/1_Run_Detail_and_Compare.py:36-44 | a value is returned only when some value sits at `stats[key]["overall"][field]` and `float()` accepts it, and it is `float()` of that value |
| Compare.StatValueReads | pages/1_Run_Detail_and_Compare.py:28-44 | the statistic is `float()` of `stats[key]["overall"][field]`, and `None` when any level is missing or not a dict or the value is not convertible |
| Compare.AllStatKeys | pages/1_Run_Detail_and_Compare.py:48 | the keys gathered are exactly the stat keys of some run |
| Compare.CollectStatKeys | pages/1_Run_Detail_and_Compare.py:47-49 | the stat keys are strictly increasing and are exactly the keys of some run's stats |
| Compare.CollectStatKeysSetOnly | pages/1_Run_Detail_and_Compare.py:47-49 | the result depends only on which runs are given, not their order or repetition |
| Compare.DeltaPercent | pages/1_Run_Detail_and_Compare.py:56-60 | no value (the "—" sentinel) exactly when the base is 0, so no division by zero; otherwise the relative change, signed as the change |
| Compare.DeltaPp | pages/1_Run_Detail_and_Compare.py:63-65 | the delta is `(other - base) * 100` and is positive exactly when `other > base` |
| Compare.PercentChange | pages/1_Run_Detail_and_Compare.py:71-72 | the relative change, with `<= -10` equivalent to losing a tenth of a positive baseline and `>= 10` to a 10% rise |
| Compare.ThroughputNote | pages/1_Run_Detail_and_Compare.py:70-73 | a throughput note exactly when a positive baseline throughput fell by at least 10%, showing that change |
| Compare.DropNote | pages/1_Run_Detail_and_Compare.py:74-76 | a drop-rate note exactly when the drop rate rose by at least 5 percentage points, showing the rise |
| Compare.P90Note | pages/1_Run_Detail_and_Compare.py:77-83 | a p90 note exactly when the stat key is non-empty, both p90 values are present and non-zero, and the p90 rose by at least 10% |
| Compare.NotesFor | pages/1_Run_Detail_and_Compare.py:68-83 | exactly the notes whose thresholds fire, in the order throughput, drop, p90, each showing the change it reports |
| Compare.RegressionNotes | pages/1_Run_Detail_and_Compare.py:68-86 | the same for two runs: the p90 note needs a stat key and both p90 values present and non-zero |
| Compare.NotesText | pages/1_Run_Detail_and_Compare.py:84-86 | the text is "" exactly when no note fires, and otherwise starts with the warning sign |
| Compare.JoinSnoc | pages/1_Run_Detail_and_Compare.py:86 | `", ".join` of one more part is the earlier join, the separator and that part |
| Compare.NotesTextShape | pages/1_Run_Detail_and_Compare.py:84-86 | one note reads as the warning sign and that note; each further note, whatever the number, follows the earlier ones after ", " |
| Compare.MatchingRows | pages/1_Run_Detail_and_Compare.py:192-198 | the loop appends exactly the automatic matches, in order |
| Compare.AutoMatches | pages/1_Run_Detail_and_Compare.py:192-198 | no more runs than the workload has, each one of its runs that passes the matching test |
| Compare.AutoMatchesMembers | pages/1_Run_Detail_and_Compare.py:192-198 | a run matches exactly when it is not the baseline's file and, in config mode with a hashed baseline, has the baseline's hash |
| Compare.AutoMatchesNewestFirst | pages/1_Run_Detail_and_Compare.py:193 | the matches of a newest-first list stay newest first |
| Compare.UnhashedBaselineMatchesByName | pages/1_Run_Detail_and_Compare.py:196 | with an empty baseline hash, config mode matches the same runs as name mode |
| Compare.Selection | pages/1_Run_Detail_and_Compare.py:219-228 | every selected run is a match that was not excluded or a forced run |
| Compare.SelectComparison | pages/1_Run_Detail_and_Compare.py:219-228 | the two loops fill the ordered dict with the kept matches, then the forced runs, keyed by file |
| Compare.SelectionDistinctFiles | pages/1_Run_Detail_and_Compare.py:219-228 | each file appears at most once in the comparison set |
| Compare.SelectionFiles | pages/1_Run_Detail_and_Compare.py:219-228 | a file is in the set exactly when it is a non-excluded match or a forced run; a forced run wins over an exclusion |
| Compare.KeptFiles | pages/1_Run_Detail_and_Compare.py:220-223 | the kept matches are exactly the matches whose file is not excluded |
| Compare.SelectionHasIncludes | pages/1_Run_Detail_and_Compare.py:224-226 | every forced run is in the comparison set |
| Compare.SelectionKeepsMatchOrder | pages/1_Run_Detail_and_Compare.py:219-228 | the kept matches come first, in their order; forced runs with new files come after them |
| Compare.LabelMap | pages/1_Run_Detail_and_Compare.py:153 | every label shown maps to a run carrying that label |
| Compare.LabelMapLastWins | pages/1_Run_Detail_and_Compare.py:153 | a label maps to the last run that carries it |
| Compare.IncludedEntries | pages/1_Run_Detail_and_Compare.py:216 | each entry is a selected label that names a run, paired with that run, and every such label has its entry |
| Compare.IncludedRows | pages/1_Run_Detail_and_Compare.py:216 | the forced runs are exactly the runs the selected labels name |
| Compare.IncludedRowsDistinct | pages/1_Run_Detail_and_Compare.py:216 | when each run a label names carries that label, the forced runs carry distinct labels |
| Compare.ExcludedFiles | pages/1_Run_Detail_and_Compare.py:217 | the excluded files are exactly the files of the runs the selected exclude labels name |
| Compare.IncludeOptions | pages/1_Run_Detail_and_Compare.py:205 | the force-include options are exactly the labels of the workload's runs other than the baseline |
| Compare.ComparisonSetAsWritten | pages/1_Run_Detail_and_Compare.py:192-228 | the comparison set the page builds holds only runs of the workload, each an automatic match not excluded or a run a force-include label names; `SelectionFiles`, `SelectionDistinctFiles`, `SelectionKeepsMatchOrder` and `ForcedRunCompared` apply to it |
| Compare.ForcedRunCompared | pages/1_Run_Detail_and_Compare.py:216-226 | with distinct report files, every run a force-include label names is in the comparison set, even when also excluded |
| Compare.SharedLabelComparesBaseline | pages/1_Run_Detail_and_Compare.py:153-226 | two runs sharing a label: force-including the other run brings the baseline into its own comparison set |
| Compare.ComparisonSet | pages/1_Run_Detail_and_Compare.py:192-228 | the comparison set never contains the baseline's file |
| Compare.ComparisonSetAgrees | pages/1_Run_Detail_and_Compare.py:192-228 | when no other run shares the baseline's label, the corrected set equals the page's own |
| Compare.ParamValue | pages/1_Run_Detail_and_Compare.py:128-133 | a list parameter stands for its last value; missing and empty lists give none |
| Compare.ParamValueLastWins | pages/1_Run_Detail_and_Compare.py:128-133 | appending a value makes it the one read; a one-element list reads like a single value |
| Compare.MatchModeParam | pages/1_Run_Detail_and_Compare.py:132-135 | the mode is config exactly when the parameter reads "config"; anything else means name |
| Medians.Ascending | pages/2_Client_Version_Medians.py:109-111 | the values `statistics.median` sorts are a permutation of the input |
| Medians.AscendingSorted | pages/2_Client_Version_Medians.py:109-111 | they are sorted ascending |
| Medians.Median | pages/2_Client_Version_Medians.py:109-111 | for an odd count the median is one of the values |
| Medians.MedianSplits | pages/2_Client_Version_Medians.py:109-111 | in sorted order, the lower half of the values are at most the median and the upper half at least it (the middle value, or between the two middle values for an even count) |
| Medians.MedianBetween | pages/2_Client_Version_Medians.py:109-111 | the median lies between the smallest and the largest input |
| Medians.MedianPermutation | pages/2_Client_Version_Medians.py:104-111 | the median does not depend on the order of the values |
| Medians.MedianSmall | pages/2_Client_Version_Medians.py:109 | the median of one value is that value, of two their mean |
| Medians.GroupRows | pages/2_Client_Version_Medians.py:96-100 | each version appears once among the groups, and there are no groups exactly when there are no rows |
| Medians.GroupRowsBuckets | pages/2_Client_Version_Medians.py:96-100 | after the loop, each bucket holds exactly the rows of that version and workload, in input order; empty buckets do not exist |
| Medians.BucketRowsMembers | pages/2_Client_Version_Medians.py:96-100 | a row is in a bucket exactly when it has that version key and workload |
| Medians.RowInOneBucket | pages/2_Client_Version_Medians.py:96-100 | every row lands in its own bucket and in no other |
| Medians.AddRowTotal | pages/2_Client_Version_Medians.py:98-100 | each step of the loop adds exactly one row |
| Medians.GroupRowsTotal | pages/2_Client_Version_Medians.py:96-100 | the buckets hold as many rows as the input |
| Medians.SortedMedian | pages/2_Client_Version_Medians.py:104-111 | sorting a bucket by start does not change its medians |
| Medians.SortedLatest | pages/2_Client_Version_Medians.py:104-112 | the first row after the sort is a bucket row with the greatest start |
| Medians.Summary | pages/2_Client_Version_Medians.py:101-114 | `runs` is the number of rows, and `latest` and the medians are present exactly when there are rows |
| Medians.SummaryMeaning | pages/2_Client_Version_Medians.py:101-114 | `runs` is the bucket size, the medians are those of the bucket's values, and `latest` is the maximum start |
| Medians.VersionWorkloadStats | pages/2_Client_Version_Medians.py:94-115 | each version appears once, and the result is empty exactly when there are no rows |
| Medians.EntryOfStats | pages/2_Client_Version_Medians.py:94-115 | a (version, workload) entry is the summary of exactly the rows with that version and workload |
| Medians.EntryExists | pages/2_Client_Version_Medians.py:94-115 | an entry exists exactly when some row has that version and workload |
| Medians.EntryHasLatest | pages/2_Client_Version_Medians.py:108-112 | every entry has a latest start and at least one run |
| Medians.RunsTotalIsRowCount | pages/2_Client_Version_Medians.py:94-115 | the `runs` of all buckets add up to the number of rows |
| Medians.ComputeVersionWorkloadStats | pages/2_Client_Version_Medians.py:94-115 | the two loops build the grouped summaries the lemmas above describe |
| Medians.SeqMax | pages/2_Client_Version_Medians.py:126 | `max(timestamps)` is one of them and bounds them all |
| Medians.SortKey | pages/2_Client_Version_Medians.py:119-127 | a key that is not the sentinel is one of the latest starts of the workload |
| Medians.SortKeyMeaning | pages/2_Client_Version_Medians.py:119-127 | the key is the sentinel exactly when no selected version has a latest start; otherwise it is the greatest such start |
| Medians.SortKeyNoneWhenAbsent | pages/2_Client_Version_Medians.py:119-127 | for the page's stats, the key is the sentinel exactly when no selected version has the workload |
| Medians.ComputeSortKey | pages/2_Client_Version_Medians.py:119-127 | the loop computes the sort key |
| Medians.OrderWorkloads | pages/2_Client_Version_Medians.py:118-129 | the workloads ordered by the sort key, descending and stable |
| Medians.WorkloadOrder | pages/2_Client_Version_Medians.py:129 | the order has as many workloads as it was given (it is a permutation, see below) |
| Medians.WorkloadOrderPermutation | pages/2_Client_Version_Medians.py:129 | the order is a permutation of the input workloads |
| Medians.WorkloadOrderSorted | pages/2_Client_Version_Medians.py:129 | keys are non-increasing along the order |
| Medians.WorkloadOrderUnseenLast | pages/2_Client_Version_Medians.py:127-129 | workloads with no latest start in any selected version come after all others |
| Medians.BuildBaseTable | pages/2_Client_Version_Medians.py:132-149 | the table lists, in input order, exactly the workloads with an entry for the version, each with its entry |
| Medians.BaseTableMembers | pages/2_Client_Version_Medians.py:135-138 | a workload is listed exactly when it is in the input and the version has it |
| Medians.TpsDelta | pages/2_Client_Version_Medians.py:57-65 | "n/a" exactly when an input is missing; otherwise `primary - secondary`, with a percentage exactly when `secondary != 0` |
| Medians.DropDelta | pages/2_Client_Version_Medians.py:68-76 | the same, shown in percentage points (`delta * 100`) |
| Medians.DeltasAgree | pages/2_Client_Version_Medians.py:57-76 | both delta functions return the same value and percentage for the same inputs |
| Medians.BuildComparisonTable | pages/2_Client_Version_Medians.py:152-193 | a workload is skipped only when both versions lack it; the three outputs have equal length and follow the input order, each delta belonging to its row |
| Medians.ComparisonTableMembers | pages/2_Client_Version_Medians.py:163-167 | a workload is listed exactly when it is in the input and either version has it |
| Medians.ComparisonDeltaDirection | pages/2_Client_Version_Medians.py:174-177 | the throughput delta is the reference minus the compared version, relative to the compared version |
| Medians.MakeDeltaStyler | pages/2_Client_Version_Medians.py:79-91 | one style per value: "" for a missing value, else green exactly when the value is good for its direction, red otherwise |
| Medians.ZeroDeltaIsRed | pages/2_Client_Version_Medians.py:86-87 | a zero delta is never good, so it shows red |
| Medians.GreenMeansReferenceBetter | pages/2_Client_Version_Medians.py:300-305 | the throughput cell is green exactly when the reference is faster, the drop cell exactly when it drops less |
| Medians.WorkloadsOfEntry | pages/2_Client_Version_Medians.py:240 | a workload is listed for a version exactly when the version has an entry for it |
| Medians.AllWorkloadsMembers | pages/2_Client_Version_Medians.py:240 | the gathered workloads are exactly those some selected version has |
| Medians.WorkloadPool | pages/2_Client_Version_Medians.py:240 | the pool is strictly sorted and holds exactly the workloads listed under the selected versions |
| Medians.WorkloadPoolMembers | pages/2_Client_Version_Medians.py:240 | the pool is strictly sorted and holds exactly the workloads of the selected versions |
| Medians.DisplayWorkloads | pages/2_Client_Version_Medians.py:252-258 | every shown workload is in the selection (or the pool when nothing is selected), and with shared-only set every selected version has it |
| Medians.DisplayWorkloadsMembers | pages/2_Client_Version_Medians.py:252-258 | an empty selection falls back to the pool; shared-only keeps exactly the workloads every selected version has |
| Medians.SharedOnlyHasRuns | pages/2_Client_Version_Medians.py:252-258 | a shared workload has a run in every selected version |
| AppReports.ResolveName | app.py:79-84 | a group is taken only for an in-range index, and it is the dict at that index; a dict config with an out-of-range index (negative included) gives no group and `workload_<idx>`; an in-range dict group whose `name` is missing, falsy or a string always resolves |
| AppReports.ResolveNameFallback | app.py:82-84 | the name is the group's own name, or `workload_<idx>` when the name is missing or falsy or the index is out of range |
| AppReports.GenModeOfGroup | app.py:89-94 | without a group, `gen_mode` is "unknown"; with one, it is read as data.py reads it (`Reports.GenModeOf`) |
| AppReports.AssembleRow | app.py:104-119 | the row holds the given fields, with the derived duration and ratios |
| AppReports.DeriveRow | app.py:73-121 | a non-dict report or a missing or unparseable start or end gives `None`; a row is well formed and each field is read as stated; a row is produced exactly when every reader succeeds |
| AppReports.DeriveRowName | app.py:82-84 | an in-range index takes the group's name, if truthy; otherwise `workload_<idx>` |
| AppReports.DeriveRowGenMode | app.py:89-94 | "unknown" unless the index is in range and `traffic_gens` is non-empty; then the first generator's label |
| AppReports.DeriveRowDroppedDefault | app.py:98 | without `txs_dropped` the row counts `max(0, sent - committed)` drops |
| AppReports.BlankNameDiffersFromDataPy | app.py:82-84 | a blank group name stays blank in `data.py` but becomes `workload_0` here |
| AppReports.CollectedMembers | app.py:136-146 | the collected rows are exactly the report files whose derivation succeeded |
| AppReports.NameStartGeTotalOrder | app.py:152 | the (name, start) key is a total, transitive order |
| AppReports.LoadReports | app.py:129-153 | a non-directory gives `[]`; otherwise the collected rows, permuted and sorted by name and then start, both descending |
| AppReports.Walk | app.py:36-42 | a non-empty path is followed only into a dict that holds its first key |
| AppReports.WalkConcat | app.py:38-41 | walking a path in two parts is walking it whole |
| AppReports.SafeGet | app.py:36-42 | the nested value when every step is a dict holding the key, else the default; an empty path returns the input |
| AppReports.StatsMetricKeys | app.py:156-161 | the keys are strictly increasing and are exactly the keys of some run's stats |
| AppReports.ExtractStatValue | app.py:164-173 | a value only when the stat and its `overall` are dicts; it is `float()` of the field |
| AppReports.ExtractStatValueAgreesWithPageOne | app.py:164-173 | the value agrees with the comparison page's `_stat_value` |

## Left out

- Streamlit is not modelled. This covers widgets, `st.session_state`, `_init_session_state`, `st.stop`, page layout, the `hash(base_run.file)` widget keys and the top-level code of both pages and of `app.py`. The top-level code includes `version_order`, the comparison limit slider and the statistic picker. The model receives the widgets' choices as parameters.
- `_set_query_params` is not modelled: it only writes the URL back. Only the reading and normalisation of parameters is modelled.
- `@st.cache_data` and `load_reports.clear()` are not modelled; they are a framework cache.
- The file I/O is not modelled: `os.walk`, `os.path.isdir`, `open`, `json.load`, `json.dumps` and `print`. The walk is given as a list of entries, and the directory test as a boolean. The JSON round trip of the config copy is the identity on parsed JSON.
- `hashlib.sha256` is modelled as a constructor over the canonical form. This treats the digest as collision-free. The `json.dumps` serialisation in between is not modelled.
- Calendar logic is not modelled: `datetime.fromisoformat`, `astimezone` and `strftime` are parameters. Instants are integers, so `datetime.min` as the empty sort key of `_workload_order` is `None`, which orders below every instant.
- Presentation is not modelled: f-string float formatting, `round`, `_format_percent`, `_format_tps_value`, `_format_runs`, `_format_time`, `_format_duration_value` and `_format_pair`. The notes and deltas are kept as values, not strings.
- `_label` (page 1) is the parameter `labelOf`: its date formatting is calendar logic.
- Floating point is not modelled: throughput, drop rate, medians and percentages are exact reals, with no rounding, infinities or NaN.
- Json.Get: a dict with a repeated key returns the first value, where `json.load` keeps the last. Reports are assumed to have distinct keys.
- Text.ParseInt: does not accept the digit-group underscores or non-ASCII digits that Python's `int()` accepts, and strips only ASCII whitespace (`Text.IsSpace`) where Python's `int()` and `float()` strip any Unicode whitespace.
- Timestamp.MatchParts, Timestamp.Normalize: the digit test (`Text.IsDigit`) accepts ASCII digits only, where `\d` in the `str` patterns of data.py line 45 and app.py line 22 also matches other Unicode decimal digits. On such a string Python matches and truncates the fraction before handing it to `fromisoformat`, while the model leaves it unchanged. `fromisoformat` rejects those digits either way, but the model takes `fromisoformat` as a parameter, so it does not capture that rejection.
- Text.ParseReal: does not accept exponents, `inf` or `nan`, which Python's `float()` accepts.
- Reports.DeriveRow: rejects a report whose group `name` is not a string, or whose truthy `client_version` is not a string. Python stores such values unchanged.
- AppReports.ResolveName: rejects a report whose group `name` is truthy but not a string. `app.py` (lines 82-84) stores such a name unchanged, and the `(workload_name, start)` sort at `app.py` line 152, which no `try` guards, then raises `TypeError` when it compares that name with a string name; the model does not capture that failure of the whole load.
- Compare.StatValue: treats stats that are not a dict as having no statistics, where Python raises on `.get`.
- Compare.CollectStatKeys: treats stats that are not a dict as having no keys, where `.keys()` raises in Python.
- AppReports.StatsMetricKeys: returns `None` where some run's stats is not a dict, standing for the exception Python raises.
- Medians.BuildBaseTable: the table holds each workload's `Bucket` rather than the formatted cells. `entry.get("runs", 0)` never falls back, since every entry has `runs`.
- Medians.BuildComparisonTable: the rows hold both buckets and the two deltas rather than the formatted pairs.
- The in-place updates of `_compute_version_workload_stats` (`setdefault`, `append`, `sort`, `clear`, `update` on nested dicts) are modelled as values rebuilt by the loops, so aliasing between the nested dicts is not captured.
- The workload filtering and newest-first sort of page 1 (lines 137-147) and the `(version, workload)` choice of page 2 are inputs: the model's run lists are the workload's runs as the page passes them on.
- `compute_version_bounds` is modelled as a Dafny `map`, so the insertion order of its keys (used only by `version_order`, which is left out) is not tracked.

## Findings

| source | as written | input that shows it | evidently intended | confidence | as-written member | corrected member |
|---|---|---|---|---|---|---|
| pages/1_Run_Detail_and_Compare.py:153-226 | `label_to_row` maps each label to the last run that carries it, and the force-include options list the labels of every run whose file differs from the baseline's | two runs of workload `w`, started in the same minute with the same gen mode and no config hash, so they share a label; the baseline is the one the label maps to; force-including the other run's label brings in the baseline itself | a forced run is never the baseline, so the baseline is not compared with itself | medium; not executed | Compare.SharedLabelComparesBaseline | Compare.ComparisonSet |
