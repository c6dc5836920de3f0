# Waveform data consolidation and trip alignment

This project models the post-mortem waveform pipeline of the data manager
(the `wave` package, in its current copy under `wfdata/` and its older copy
under `phantasy_apps/data_manager/wfdata/`). The pipeline does this:

- The BPM monitor writes one HDF5 capture per device and trip. The file is
  named `<label>-<YYYYMMDD>T<HHMMSS>-<µs>_<fault ID>.h5` (`gen_names`,
  `on_fetch`).
- `read_path` indexes these captures by MPS fault ID.
- `group_datafiles` merges the captures of one fault ID into one store. Each
  capture is put on a 1 µs time axis, and the columns are split into
  `BCM/DATA`, `BCM/NPERMIT`, `BPM/MAG`, `BPM/PHA` and `BPM/BEAMST`.
- `read_data` reads a merged (v0) or raw (v1) store back. It picks the
  permit channel, finds the trip row, windows the rows around it, adds
  `t_us`, merges the BPM electrodes into phasor columns and derives the
  differential BCM (DBCM) channels.
- `merge_tool`, `convert_tool`, `export_df`, the MAT/HDF writers, the figure
  grid of `plot_tool` and the older `gen_figure` drive all of this from the
  command line.

Both copies are modelled side by side. A `Copy` value (`Current` or
`Legacy`) selects the copy wherever the two differ:

- the cut-over date in the time type;
- what `group_datafiles` returns for a skipped output;
- whether `merge_tool` survives a failing group;
- the exclude list and the pending-target check in `convert_tool`;
- the `fscale_json` attribute of the HDF export.

## How the model is built

- **Files and stores.**
  - The disk is a value `map<path, FileContent>`. Every operation that
    writes takes a disk and returns the new one.
  - An HDF5 store is a map from key (with pandas' leading `/`) to an entry.
  - A pandas frame is a `Table`: a microsecond index, the column names in
    order, and one column of cells (a number or NaN) per name.
- **Times.**
  - A capture time is a civil date-time, compared field by field as Python
    compares `datetime`s.
  - The time axis is integer microseconds since 0001-01-01.
    `Civil.ToMicrosOrder` proves that the axis keeps the order in both
    directions.
- **`strptime`.** It is modelled as Python's own engine:
  - each directive becomes its regular-expression alternatives;
  - the first match in backtracking order is taken;
  - the text must be consumed to its end;
  - the date is then validated.

  On top of that engine, the model proves the round trips of the
  `%Y%m%dT%H%M%S` and `%Y%m%dT%H%M%S.%f` texts, and that `_DATETIME1` parses
  to 2025-02-13.
- **The file-name regexes.**
  - `re.match(r"(.*)-(.*)-(.*)_(.*)\.h5", name)` is the lexicographically
    greatest split of the first line of the name.
  - `Indexer.IdCutsGreatest` proves that this is exactly what greedy
    backtracking yields.
  - `Indexer.SplitWithIdOf` and `Producer.FileNameSplits` prove that a
    name the monitor writes splits back into its pieces.
- **Loops.** A loop in the source is a method with a `while`/`for` loop and
  its invariants. Its `ensures` ties the result to a specification
  function, and the lemmas are stated about that function. Examples:
  `Indexer.ScanWalk`/`Indexer.Scan`, `Merger.GroupDatafiles`/`Merger.Merged`,
  `Reader.LoadBcm`/`Reader.BcmFrames`, `Aligner.ChoosePermit`/`Aligner.LastLive`,
  `Deriver.GenerateDbcm`/`Deriver.Dbcm`, `Exporter.ExportDf`/`Exporter.Exported`,
  `Tools.ConvertInputs`/`Tools.ConvertAll`.
- **Exceptions.** A raised exception is an `Err` result. A caller that
  catches it (the `try` blocks of the readers, the current `merge_tool`)
  handles the `Err`; one that does not passes it on.

Several behaviours of the code are kept exactly as written and are stated as
lemmas:

- The microsecond text goes through `int()` before `%f`, so "000100" reads as
  100000 µs (`Indexer.PaddedMicros`, `Producer.CaptureTimeExact`).
- The permissive indexer raises on every name that carries a fault ID
  (`Producer.PermissiveRejects`).
- The permit candidates are `("BCM4_NPERMIT", "BCM5_NPERMIT", "BCM5_NPERMIT")`,
  and the loop has no `break`. So BCM5 wins over BCM4, and BCM6 is never used
  (`Aligner.PermitChoice`).
- `_to_fix_bcm_dateset` logs through an undefined `store` when the file name
  does not parse. It therefore raises instead of returning False
  (`Reader.FixBcm`).
- The legacy `gen_figure` writes the image over the data file when the data
  file's name holds no ".h5" and no output directory is given
  (`Exporter.ImageOverData`).
- The XLSX writer raises on a frame with no rows (`Exporter.Render`). Nothing
  catches a writer's raise, so it ends `convert_tool`. The files that earlier
  formats wrote stay on disk (`Exporter.CsvSurvivesMatRaise`), and so do the
  frames the HDF writer put before it raised (`Exporter.H5Leftover`).

A few behaviours of the code are easy to miss. The model keeps each one as
written:

- The comment at wfdata/src/wave/_data.py:212-214 speaks of the first live
  permit column. The loop at lines 216-221 has no break, so the last live
  candidate wins (`Aligner.LastLive`).
- The cut-over test at wfdata/src/wave/_utils.py:61 is `<=`, so a capture
  taken exactly at `_DATETIME1` still gets the old BCM end anchor
  (`Indexer.Classify`).
- When there is nothing to align, `read_data` returns `(None, "")`
  (wfdata/src/wave/_data.py:203, 210, 231) and raises nothing
  (`Aligner.NoDataCases`).
- The legacy `merge_tool` calls `group_datafiles` without a guard
  (phantasy_apps/data_manager/wfdata/src/wave/_tools.py:57-59), so its batch
  stops at the first failing group. Both `convert_tool`s stop at a writer
  that raises (`Tools.MergeRunsFailure`, `Tools.ConvertAllStops`).
- `generate_dbcm` looks up all ten scale factors before it computes any
  difference (wfdata/src/wave/_data.py:402-411). One missing factor
  therefore raises `KeyError` for all seven channels (`Deriver.Dbcm`).

## Model

| member | source | states |
|---|---|---|
| Text.SortStringsSpec | wfdata/src/wave/_utils.py:121 | `sorted` on strings gives an ordered permutation of its input |
| Text.SortedUnique | wfdata/src/wave/_utils.py:134 | two ordered permutations of the same strings are equal, so any correct sort gives Python's result |
| Text.Unique | wfdata/src/wave/_data.py:97 | `.unique()` keeps exactly the values of its input, each once, ordered by first occurrence in the input |
| Text.StrSpec | phantasy_apps/data_manager/wfdata/src/wave/tasks/main_bpm.py:17-20 | `str(n)` is the shortest decimal text of n: it reads back as n and has no leading zero |
| Text.PyIntDigits | wfdata/src/wave/_utils.py:56 | `int()` reads any run of ASCII digits back as its value, leading zeros included |
| Text.StripLeft | wfdata/src/wave/_tools.py:153 | the stripped text is a suffix, everything removed is whitespace, and it does not start with whitespace |
| Text.StripRight | wfdata/src/wave/_tools.py:153 | the stripped text is a prefix, everything removed is whitespace, and it does not end with whitespace |
| Text.FirstLine | wfdata/src/wave/_utils.py:19 | the part of a name before its first line break, which is the most `.` can span |
| Text.BaseNameJoin | wfdata/src/wave/_utils.py:45 | `Path(dir).joinpath(name).name` is the name joined |
| Civil.ToMicrosOrder | wfdata/src/wave/_utils.py:61 | the microsecond axis keeps `datetime` order in both directions |
| Civil.Strptime | wfdata/src/wave/_utils.py:59 | `datetime.strptime` returns only valid dates; on text whose digits are ASCII it returns None exactly where Python raises |
| Civil.StrptimeCanonical | wfdata/src/wave/_utils.py:59 | strptime reads any canonically rendered text back to the values that were rendered |
| Civil.CanonicalMatch | wfdata/src/wave/_utils.py:59 | strptime's regex matches canonical text to its end, and each field captures exactly its rendered text |
| Civil.CompactRoundTrip | wfdata/src/wave/_data.py:459 | `strptime(t.strftime("%Y%m%dT%H%M%S"), "%Y%m%dT%H%M%S")` gives t back to the second |
| Civil.FractionalRoundTrip | wfdata/src/wave/_utils.py:59 | `strptime(f"{date}.{n}", "%Y%m%dT%H%M%S.%f")` gives the date with n right-padded to six digits as its microseconds |
| Civil.FractionValueOfStr | wfdata/src/wave/_utils.py:56-59 | `%f` reads the digits of n as a fraction of a second: n times 10^(6 - digits) |
| Tables.Select | wfdata/src/wave/_data.py:129 | `df[cols]` exists exactly when every name is a column, and it keeps the index |
| Tables.Filter | wfdata/src/wave/_tools.py:227-229 | the list-comprehension column selection keeps exactly the columns the test accepts, in order, with their cells |
| Tables.BuildDistinct | wfdata/src/wave/_utils.py:119-128 | a frame built from distinct names keeps their order and their cells |
| Tables.SortColumns | wfdata/src/wave/_data.py:205 | `sort_index(axis=1)` gives the same columns in string order |
| Tables.Rows | wfdata/src/wave/_data.py:238 | a row slice keeps every column, cut to the same rows as the index |
| Tables.SliceBound | wfdata/src/wave/_data.py:190 | a Python slice bound is clipped to the length, and a negative one counts from the end |
| Tables.FirstEqual | wfdata/src/wave/_data.py:224 | on a non-empty column, `(s == v).argmax()` is the first row holding v, or 0 when no row does |
| Tables.Join2 | wfdata/src/wave/_data.py:205 | concat of two frames on one index keeps that index; otherwise it joins on the sorted union of the indexes |
| Tables.JoinAll | wfdata/src/wave/_data.py:183 | `pd.concat(frames, axis=1)` gives a well-formed frame, and raises on no frames |
| Tables.SortedSet | wfdata/src/wave/_data.py:205 | the distinct values in increasing order |
| Tables.Position | wfdata/src/wave/_data.py:205 | the row of a time in an index: its first position, None exactly when it is absent |
| Indexer.IdCutsGreatest | wfdata/src/wave/_utils.py:19 | the cut points of `(.*)-(.*)-(.*)_(.*)\.h5` are the greatest of all splits of the first line, and none exist exactly when no split does |
| Indexer.PlainCutsGreatest | wfdata/src/wave/_utils.py:20 | the same for `(.*)-(.*)-(.*)\.h5` |
| Indexer.SplitWithIdMatches | wfdata/src/wave/_utils.py:45 | `_PATTERN.match` fails exactly when the first line of the name has no split |
| Indexer.SplitWithoutIdMatches | wfdata/src/wave/_utils.py:47 | `_PATTERN_NO_FTID.match` fails exactly when the first line of the name has no split |
| Indexer.SplitWithIdOf | wfdata/src/wave/_utils.py:19 | a name built from four one-line groups, the middle two without '-' and the last without '_', splits back into them |
| Indexer.IdGroupsHead | wfdata/src/wave/_utils.py:53 | the four groups and their separators, joined back, are a prefix of the name |
| Indexer.CaptureTime | wfdata/src/wave/_utils.py:56-59 | `int(ts2) + offset` re-parsed with `%f` gives a valid date-time; on ASCII digits, None exactly where `int()` or strptime raises |
| Indexer.MicrosReadBack | wfdata/src/wave/_utils.py:56-59 | six written microsecond digits are read back as their value right-padded by `%f` |
| Indexer.PaddedMicros | wfdata/src/wave/_utils.py:56-59 | the microseconds survive the `int()`/`%f` trip exactly when they are 0 or have six significant digits |
| Indexer.CutoverParsed | wfdata/src/wave/_misc.py:9 | `_DATETIME1` is 2025-02-13 00:00 |
| Indexer.Classify | wfdata/src/wave/_utils.py:61-64 | BCM iff the group starts with "BCM"; END iff BCM and, in the current copy, captured at or before the cut-over |
| Indexer.Accept | wfdata/src/wave/_utils.py:65 | a kept record carries the fault ID, group, file name and a valid capture time |
| Indexer.IndexFile | wfdata/src/wave/_utils.py:45-65 | strict mode skips exactly the names the pattern rejects and keys the rest by the fault-ID text; permissive mode raises on names that carry a fault ID, skips those neither pattern accepts, and keys the rest by the sentinel |
| Indexer.SortRecordsSpec | wfdata/src/wave/_utils.py:77 | `sort_index()` orders the records by fault ID and keeps every one of them |
| Indexer.ScanHomogeneous | wfdata/src/wave/_utils.py:52-55 | strict mode keys every record by text and permissive mode by the sentinel, so the index never mixes the two kinds |
| Indexer.ReadPath | wfdata/src/wave/_utils.py:30-77 | read_path raises exactly when the walk does; otherwise it returns the scanned records, sorted by fault ID |
| Indexer.ScanWalk | wfdata/src/wave/_utils.py:41-67 | the loop over the walk computes the scan, one file at a time |
| Indexer.ScanFailsOn | wfdata/src/wave/_utils.py:41-67 | once the walk has raised, the rest of it changes nothing |
| Producer.ChannelAt | phantasy_apps/data_manager/wfdata/src/wave/tasks/main_bpm.py:14-20 | position 0 is the beam state; positions 2i-1 and 2i are phase i and magnitude i |
| Producer.GenNames | phantasy_apps/data_manager/wfdata/src/wave/tasks/main_bpm.py:12-21 | `ts_pv` is name + ":wv_t0", and the two lists built in the loop name the same channel at every position |
| Producer.AliasesDistinct | phantasy_apps/data_manager/wfdata/src/wave/tasks/main_bpm.py:14-20 | the nine aliases of a device are distinct |
| Producer.Label | phantasy_apps/data_manager/wfdata/src/wave/tasks/main_bpm.py:66 | `name[-5:]` is the last five characters, or the whole name when it is shorter |
| Producer.LabelOfBpm | phantasy_apps/data_manager/wfdata/src/wave/tasks/main_bpm.py:56-66 | the label of "<system>:BPM_Dnnnn" is "Dnnnn" |
| Producer.SubDir | phantasy_apps/data_manager/wfdata/src/wave/tasks/main_bpm.py:45 | the sub-directory is the first 13 characters of the compact capture time |
| Producer.Captured | phantasy_apps/data_manager/wfdata/src/wave/tasks/main_bpm.py:49-51 | the written capture has one row per alias, each as wide as the capture, and one PV name per row |
| Producer.FileNameSplits | phantasy_apps/data_manager/wfdata/src/wave/tasks/main_bpm.py:46 | the fault-ID pattern splits a written name back into label, date-time text, microsecond text and fault ID |
| Producer.CaptureIndexed | wfdata/src/wave/_utils.py:41-65 | a capture the monitor writes is indexed under its fault ID, with its label as group and the classified, `%f`-padded capture time |
| Producer.CaptureTimeExact | wfdata/src/wave/_utils.py:56-59 | the indexed time equals the time written exactly when its microseconds are 0 or have six significant digits |
| Producer.PermissiveRejects | wfdata/src/wave/_utils.py:52-55 | the permissive indexer raises on every file the monitor writes |
| Merger.ProducerAliasTrimmed | wfdata/src/wave/_utils.py:109 | the monitor's alias "<system>:BPM_Dnnnn:<tag>" loses its system prefix |
| Merger.PutGet | wfdata/src/wave/_utils.py:113 | after `d[k] = v`, k maps to v and every other key keeps its value |
| Merger.UpdateGet | wfdata/src/wave/_utils.py:110 | after `d.update(items)`, a key takes its last item's value, and an unnamed key keeps its old one |
| Merger.SortItems | wfdata/src/wave/_utils.py:121 | `sorted(d.items())` lists every key once, in order, with its value |
| Merger.TimeIndex | wfdata/src/wave/_utils.py:114-117 | `date_range(start=ts or end=ts, periods=n, freq='us')` gives n consecutive microseconds, the first (START) or the last (END) at ts |
| Merger.TimeIndexIncreasing | wfdata/src/wave/_utils.py:114-117 | that index is strictly increasing |
| Merger.FrameOf | wfdata/src/wave/_utils.py:118 | `_df.T.set_index(_t_idx)` has one column per trimmed alias, on the anchored index |
| Merger.Absorb | wfdata/src/wave/_utils.py:118 | a row's frame goes to the list of its device type and to no other |
| Merger.Gather | wfdata/src/wave/_utils.py:105-118 | the row loop raises exactly when some row's file is not a readable capture; otherwise there are BCM (BPM) frames iff some row is BCM (BPM) |
| Merger.GatherTime | wfdata/src/wave/_utils.py:111-113 | the INFO/TIME entry of a name is the time of the last row with that name, BPM names carrying "BPM_" |
| Merger.Pick | wfdata/src/wave/_utils.py:134-136 | `df[sorted(c for c in df.columns if keep(c))]` holds exactly the kept columns, in string order, with their cells |
| Merger.PutBcm | wfdata/src/wave/_utils.py:140-145 | the BCM puts add DATA and NPERMIT when there are BCM frames and nothing otherwise; they raise exactly when concat does |
| Merger.PutBpm | wfdata/src/wave/_utils.py:132-139 | the BPM puts add MAG, PHA and BEAMST when there are BPM frames and nothing otherwise; they raise exactly when concat does |
| Merger.GroupDatafiles | wfdata/src/wave/_utils.py:80-147 | an existing output without overwrite is left alone (current copy returns None, legacy the path); otherwise the output is recreated empty, then holds the merge, or what was put before the raise |
| Merger.PutGathered | wfdata/src/wave/_utils.py:119-145 | the puts, one after the other, build the specified store |
| Merger.JoinAligned | wfdata/src/wave/_utils.py:133 | concat never raises on frames with increasing indexes, and the joined index is increasing |
| Merger.MergedRaises | wfdata/src/wave/_utils.py:105-147 | a merge raises exactly when some row's file is not a readable capture |
| Merger.MergedKeys | wfdata/src/wave/_utils.py:119-145 | the merged store holds INFO/PV and INFO/TIME, the BCM pair iff some row is BCM, and the BPM triple iff some row is BPM |
| Merger.PutsKeys | wfdata/src/wave/_utils.py:119-145 | the puts of gathered frames all succeed, with exactly those keys |
| Merger.BcmPartition | wfdata/src/wave/_utils.py:142-143 | BCM/DATA and BCM/NPERMIT split the BCM columns: every column lands in exactly one of them |
| Reader.FixBcm | wfdata/src/wave/_data.py:450-466 | the rename applies iff the first 15 characters parse and lie before `DATE_PRIOR_FIX`; an unparsable prefix raises |
| Reader.FixBcmOfStamp | wfdata/src/wave/_data.py:456-464 | a file named after its capture second is renamed iff that second is before 2025-05-12 10:00 |
| Reader.PriorFixSecond | wfdata/src/wave/_data.py:67 | whether a capture is renamed does not depend on its microseconds |
| Reader.V0 | wfdata/src/wave/_data.py:70-104 | the v0 reader gives well-formed frames |
| Reader.V0Shape | wfdata/src/wave/_data.py:70-104 | the v0 reader succeeds iff each of its four keys is absent or a frame and /INFO/PV holds labels; its frames are the present keys' frames in key order, the BCM ones always renamed, and its names are the cut labels de-duplicated in first-occurrence order |
| Reader.BpmLabelsOf | wfdata/src/wave/_data.py:96 | the filter keeps exactly the labels holding a device name, each cut |
| Reader.CutOneLine | wfdata/src/wave/_data.py:97 | a one-line label is cut right after its first device name, so its BPM name ends with "BPM_D" and four digits |
| Reader.FormatV0 | wfdata/src/wave/_data.py:70-104 | the two key loops compute the v0 reader |
| Reader.KeyFramesFail | wfdata/src/wave/_data.py:84-86 | once a key's frame cannot be read, the loop's result is failure |
| Reader.CutChannelLabel | wfdata/src/wave/_data.py:96-97 | a merged BPM channel label is cut to its device name "BPM_Dnnnn" |
| Reader.OnAxis | wfdata/src/wave/_data.py:133-134 | a group's frame keeps its columns and starts at the group's t0 with 1 µs steps |
| Reader.KeptGroups | wfdata/src/wave/_data.py:123-127 | a group is kept iff its members are all channels, and the kept groups stay in group order |
| Reader.BcmFrames | wfdata/src/wave/_data.py:120-134 | the BCM group loop gives well-formed frames |
| Reader.BpmFrames | wfdata/src/wave/_data.py:144-160 | the BPM group loop gives one name per kept frame |
| Reader.AttachScales | wfdata/src/wave/_data.py:135-138 | fscale goes to the first BCM frame, frames otherwise unchanged; it fails exactly when fscale exists but there is no BCM frame |
| Reader.V1 | wfdata/src/wave/_data.py:107-163 | the v1 reader gives well-formed frames |
| Reader.V1Shape | wfdata/src/wave/_data.py:107-163 | a v1 read holds the kept BCM groups' frames then the kept other groups' frames, each group's on its own t0; the factors sit on the first frame only and require a BCM frame; the names are "BPM_" + the kept other groups, in order |
| Reader.FormatV1 | wfdata/src/wave/_data.py:107-163 | the v1 steps compute the v1 reader |
| Reader.LoadBcm | wfdata/src/wave/_data.py:123-134 | the BCM loop computes BcmFrames |
| Reader.LoadBpm | wfdata/src/wave/_data.py:147-155 | the BPM loop computes BpmFrames, dropping skipped groups from the names |
| Reader.BcmFramesFail | wfdata/src/wave/_data.py:139-141 | a failure in the BCM loop fails the whole loop |
| Reader.BpmFramesFail | wfdata/src/wave/_data.py:156-158 | a failure in the BPM loop fails the whole loop |
| Reader.BcmFramesKept | wfdata/src/wave/_data.py:123-134 | the BCM loop succeeds iff every kept group has a t0; frame k is then the k-th kept group's channels, renamed when due, on 1 µs steps from that group's t0 |
| Reader.BpmFramesKept | wfdata/src/wave/_data.py:146-160 | the same for the BPM loop, whose k-th name is "BPM_" + the k-th kept group: a group is named iff it is kept, in group order |
| Reader.ScalesNeedBcm | wfdata/src/wave/_data.py:135-141 | fscale data with no BCM frame makes the v1 reader return None |
| Deriver.ScaledDiff | wfdata/src/wave/_data.py:415-446 | row by row, `s_a*f_a - s_b*f_b`, with NaN where either input is NaN |
| Deriver.FactorsThere | wfdata/src/wave/_data.py:402-411 | the factors of every difference are among the ten looked up |
| Deriver.Dbcm | wfdata/src/wave/_data.py:370-447 | KeyError unless all ten factors exist; otherwise existing columns keep their place (and their cells, unless a DBCM name), and a difference is added iff both inputs are present |
| Deriver.LookUpScales | wfdata/src/wave/_data.py:402-411 | the ten lookups succeed iff every factor is in the map |
| Deriver.GenerateDbcm | wfdata/src/wave/_data.py:370-447 | the in-place generation computes Dbcm |
| Deriver.AddDiffsColumns | wfdata/src/wave/_data.py:427-447 | after the guarded assignments, a column is there iff it was or it is a difference with both inputs present |
| Deriver.AddDiffsKeeps | wfdata/src/wave/_data.py:413-447 | existing columns keep their places, and those not named after a difference keep their cells |
| Deriver.AddDiffsCells | wfdata/src/wave/_data.py:413-447 | a difference with both inputs present holds the scaled difference of the copy's columns, unless a later one has its name |
| Deriver.DbcmCells | wfdata/src/wave/_data.py:395-447 | the seven differences have distinct names, so each present one holds its own scaled difference |
| Deriver.DbcmInputs | wfdata/src/wave/_data.py:374-411 | every input of a difference is one of the ten scaled channels, never BCM_D0989 |
| Deriver.ElectrodeNames | wfdata/src/wave/_data.py:279-281 | a BPM's phasor reads MAGi and PHAi for i = 1..4 |
| Deriver.PhasorNames | wfdata/src/wave/_data.py:245-247 | the new columns are `<name>-MAG`, `<name>-PHA` for each name, in name order |
| Deriver.BpmComplex | wfdata/src/wave/_data.py:248 | the phasor assignment raises iff there are BPM names and either there are no rows or some BPM lacks an electrode column; otherwise it adds the phasor columns and keeps every other column |
| Deriver.PhasorsAdded | wfdata/src/wave/_data.py:245-248 | the columns after the phasor step are the old ones plus the phasor names, the others unchanged |
| Deriver.DropElectrodes | wfdata/src/wave/_data.py:250-251 | the drop removes exactly the columns matching `BPM_.*[1-4]$` and keeps the rest unchanged |
| Deriver.DroppedChannel | wfdata/src/wave/_data.py:250 | of a merged BPM's channels, the electrode phases and magnitudes are dropped and the beam state is kept |
| Deriver.PhasorsKept | wfdata/src/wave/_data.py:247-251 | the phasor columns survive the drop |
| Aligner.LastLive | wfdata/src/wave/_data.py:215-221 | the loop leaves the last present candidate with non-zero sum, or None when no candidate has one |
| Aligner.ChoosePermit | wfdata/src/wave/_data.py:215-221 | the candidate loop computes LastLive |
| Aligner.PermitChoice | wfdata/src/wave/_data.py:207-221 | BCM5 is chosen when live, else BCM4, else none; BCM6 never |
| Aligner.PopOthers | wfdata/src/wave/_data.py:226-228 | popping keeps the frame well formed on its index |
| Aligner.PopPermits | wfdata/src/wave/_data.py:226-228 | the pop loop computes PopOthers |
| Aligner.PopOthersColumns | wfdata/src/wave/_data.py:226-228 | exactly the other present candidates are removed; every other column keeps its cells |
| Aligner.Window | wfdata/src/wave/_data.py:237-240 | the window keeps the columns, and no window keeps every row |
| Aligner.Offsets | wfdata/src/wave/_data.py:241 | `t_us` is each row's time minus the trip time, in µs |
| Aligner.WithOffsets | wfdata/src/wave/_data.py:241 | t_us is added or replaced, and every other column keeps its cells |
| Aligner.TripRowZero | wfdata/src/wave/_data.py:237-241 | a window inside the frame has b - a rows, the trip row sits at -a with t_us 0, and on a gap-free index t_us rises by one per row |
| Aligner.TripNearStartEmpty | wfdata/src/wave/_data.py:238 | a trip closer to the start than -a makes the start count from the end, which can leave no rows |
| Aligner.FirstScales | wfdata/src/wave/_data.py:255-259 | the fscale of the first frame that has one, None iff none has |
| Aligner.FindScales | wfdata/src/wave/_data.py:255-259 | the search loop computes FirstScales |
| Aligner.Chosen | wfdata/src/wave/_data.py:207-221 | the early presence check changes nothing the candidate loop decides |
| Aligner.Derive | wfdata/src/wave/_data.py:245-265 | the derivations keep the index and the untouched columns, take the first frame's fscale, and add only phasor or DBCM columns |
| Aligner.Align | wfdata/src/wave/_data.py:223-241 | the trip time is the first row where the chosen permit is 1.0; the result has t_us and the chosen permit and no other candidate |
| Aligner.Prepared | wfdata/src/wave/_data.py:224-241 | after the pop, window and t_us, the frame has t_us and only the chosen candidate |
| Aligner.CandidatesUntouched | wfdata/src/wave/_data.py:245-263 | t_us and the permit candidates are neither dropped nor derived |
| Aligner.Consolidate | wfdata/src/wave/_data.py:201-268 | a loaded result is a well-formed frame |
| Aligner.ReadRaw | wfdata/src/wave/_data.py:195-268 | a store with "/grp" is read as v1, else v0, and a loaded result is well formed |
| Aligner.DeriveColumns | wfdata/src/wave/_data.py:245-265 | the in-place derivation steps compute Derive |
| Aligner.ConsolidateFrames | wfdata/src/wave/_data.py:201-268 | the in-place consolidation computes Consolidate |
| Aligner.ReadData | wfdata/src/wave/_data.py:195-268 | the raw read computes ReadRaw |
| Aligner.NoDataCases | wfdata/src/wave/_data.py:201-231 | `(None, "")` comes back exactly when the reader failed, or the frames join and no candidate is live |
| Aligner.LoadedShape | wfdata/src/wave/_data.py:205-241 | a loaded read had a live candidate; t0 is the time of its first 1.0 |
| Aligner.Listed | wfdata/src/wave/_data.py:183 | the frames of the store in its listing order |
| Aligner.ReadOpt | wfdata/src/wave/_data.py:173-192 | an optimised read has t_us, its t0 is the TimeWindow storer's `t_zero`, and it succeeds only when every listed key is a frame and the joined frame has rows (argmax raises otherwise) |
| Exporter.MatName | wfdata/src/wave/_tools.py:214 | every '-' in a column name becomes '_', and nothing else changes |
| Exporter.ZeroRow | wfdata/src/wave/_tools.py:216 | the first row with t_us == 0, None exactly when there is no t_us or no such row |
| Exporter.ToMat | wfdata/src/wave/_tools.py:207-220 | the MAT export raises iff there are no rows or no zero row; otherwise t_start is the first row's time, t_zero the zero row's, and every column appears under its MAT name |
| Exporter.RenameNames | wfdata/src/wave/_tools.py:214 | renaming keeps every column under its new name |
| Exporter.MatNameTus | wfdata/src/wave/_tools.py:214 | only "t_us" and "t-us" map to "t_us" |
| Exporter.MatKeepsTrip | wfdata/src/wave/_tools.py:214-218 | without a "t-us" column, the MAT file's t_us and t_zero are the frame's |
| Exporter.TimeWindowOf | wfdata/src/wave/_tools.py:226 | the TimeWindow frame is the t_us column alone |
| Exporter.ToH5 | wfdata/src/wave/_tools.py:223-240 | the HDF export raises iff t_us, the rows or the zero row is missing or the existing file is not HDF5; otherwise the four keys are put |
| Exporter.Written | wfdata/src/wave/_tools.py:226-233 | the four frames are on the frame's index and copy its columns |
| Exporter.WrittenParts | wfdata/src/wave/_tools.py:226-239 | TimeWindow holds t_us with t_start and t_zero; BCM, BPM_MAG and BPM_PHA hold the columns containing "BCM", "MAG" and "PHA"; fscale_json only in the current copy |
| Exporter.Render | wfdata/src/wave/_tools.py:243-264 | the CSV writer keeps the frame; the XLSX writer raises iff the frame has no rows, because the two time columns are assigned from an empty list |
| Exporter.Leftover | wfdata/src/wave/_tools.py:223-234 | after a raising writer the path is changed only by the HDF writer, and only when the frame has t_us and the path holds no other kind of file; the store then holds the four keys |
| Exporter.H5Leftover | wfdata/src/wave/_tools.py:223-235 | the HDF writer raises after its puts iff there are no rows or no t_us == 0 row; the store then holds TimeWindow with t_us alone and no times, BCM without factors, and its other keys unchanged |
| Exporter.ExportFormat | wfdata/src/wave/_tools.py:195-204 | one format touches only its own path, whether its writer returns or raises, and writes it iff it is absent or overwriting |
| Exporter.ExportDf | wfdata/src/wave/_tools.py:184-204 | the format loop computes the export |
| Exporter.ExportedFail | wfdata/src/wave/_tools.py:194-204 | once a writer raises, the export raises |
| Exporter.ExportedOthers | wfdata/src/wave/_tools.py:194-204 | an export touches no path but its targets, whether it completes or raises |
| Exporter.ExportedKeeps | wfdata/src/wave/_tools.py:196-201 | without overwrite, every existing file is left as it was, whether the export completes or raises |
| Exporter.CsvSurvivesMatRaise | wfdata/src/wave/_tools.py:194-220 | with the formats csv then mat and a frame the MAT writer refuses, the export raises and the disk keeps the CSV file it wrote |
| Exporter.ExportedTargets | wfdata/src/wave/_tools.py:194-204 | after an export, every target exists |
| Exporter.JoinShared | wfdata/src/wave/_data.py:183 | frames on one index join side by side and hold the columns of all of them |
| Exporter.H5Coverage | wfdata/src/wave/_tools.py:226-233 | the four exported frames together hold t_us and exactly the columns containing "BCM", "MAG" or "PHA" |
| Exporter.H5RoundTrip | wfdata/src/wave/_tools.py:223-240 | a fresh HDF export read back as an optimised file gives the trip time, the index, the factors and the covered columns of the frame |
| Exporter.ReadOptWhole | wfdata/src/wave/_data.py:175-192 | an optimised read with no window of a store whose joined frame has rows is the joined listing, with `t_zero` and the factors from the storers |
| Exporter.H5Append | wfdata/src/wave/_tools.py:230 | an export onto an existing store replaces the four keys and keeps every other key |
| Exporter.H5Fresh | wfdata/src/wave/_tools.py:230-240 | a fresh export writes exactly the four frames |
| Exporter.H5Joined | wfdata/src/wave/_tools.py:226-233 | the exported frames, joined, are the frame's t_us and its "BCM", "MAG" and "PHA" columns |
| Exporter.GenFigure | phantasy_apps/data_manager/wfdata/src/wave/_tools.py:253-285 | a failed read writes nothing; otherwise each image type is written iff absent or overwriting |
| Exporter.ImageOverData | phantasy_apps/data_manager/wfdata/src/wave/_tools.py:257-274 | a data name without ".h5" and no out dir gives the data file's own path as the image path |
| Tools.Runs | wfdata/src/wave/_tools.py:75 | the groups are non-empty, each has one fault ID, and neighbours differ |
| Tools.RunsFlatten | wfdata/src/wave/_tools.py:75 | the groups, one after the other, are the index |
| Tools.RunsOrdered | wfdata/src/wave/_tools.py:75 | on a sorted index the groups come in fault-ID order with distinct IDs, so each fault ID is merged once |
| Tools.Group | wfdata/src/wave/_tools.py:76-84 | a group is skipped iff the current copy finds its output without overwrite; a merged group reports its own output file |
| Tools.GroupFrame | wfdata/src/wave/_tools.py:77 | a group writes its own output file and nothing else |
| Tools.MergeRuns | wfdata/src/wave/_tools.py:75-84 | the current loop never stops; a full run reports every group |
| Tools.MergeRunsFailure | phantasy_apps/data_manager/wfdata/src/wave/_tools.py:57-59 | the legacy loop stops exactly at its first failing group |
| Tools.MergeRunsPaths | wfdata/src/wave/_tools.py:81-84 | every merged group is reported with its own output file |
| Tools.MergeRunsSkips | wfdata/src/wave/_tools.py:81-82 | a group is skipped only by the current copy without overwrite |
| Tools.MergeRunsFrame | wfdata/src/wave/_tools.py:75-84 | the merge touches no path but the groups' outputs |
| Tools.MergeTool | wfdata/src/wave/_tools.py:56-84 | merge_tool computes its specification: exit 1 without either directory, the index, the report, then the groups |
| Tools.MergeGroups | wfdata/src/wave/_tools.py:75-84 | the group loop computes MergeRuns |
| Tools.MergeRunsStops | phantasy_apps/data_manager/wfdata/src/wave/_tools.py:57-59 | once the legacy loop has stopped, later groups change nothing |
| Tools.SortedSetSpec | wfdata/src/wave/_tools.py:155 | `sorted(set(xs))` is sorted, repeats nothing and holds exactly the strings of xs |
| Tools.SelectFormats | wfdata/src/wave/_tools.py:131-140 | the format selection computes Formats |
| Tools.FormatsSpec | wfdata/src/wave/_tools.py:131-140 | no --fmt gives ["mat"]; otherwise exit 1 iff some lowered format is unsupported, else the lowered formats, sorted and distinct |
| Tools.LoweredSet | wfdata/src/wave/_tools.py:134 | the formats are the lowered inputs, and lowering them again changes nothing |
| Tools.ReadExcludes | wfdata/src/wave/_tools.py:148-153 | the exclude loop computes Excludes |
| Tools.ExcludesSpec | wfdata/src/wave/_tools.py:148-153 | a name is excluded iff some line not starting with "#" strips to it |
| Tools.IndentedComment | wfdata/src/wave/_tools.py:151 | an indented "#" line is not a comment |
| Tools.StemOf | wfdata/src/wave/_tools.py:161-162 | the stem is the file name up to its last '.', plus the suffix |
| Tools.PendingTargets | wfdata/src/wave/_tools.py:165-171 | the target loop computes Pending |
| Tools.PendingSpec | wfdata/src/wave/_tools.py:165-174 | a target is pending iff it is missing or overwriting; none is pending iff all exist and overwrite is off |
| Tools.Export | wfdata/src/wave/_tools.py:180-181 | a successful export reports the stem; a raising one ends the run with the disk as the raise left it |
| Tools.ConvertOne | wfdata/src/wave/_tools.py:156-181 | one input's step computes Step |
| Tools.CurrentStepSpec | wfdata/src/wave/_tools.py:158-174 | the current copy ignores exactly the excluded names, and is up to date exactly when all targets exist without overwrite |
| Tools.CurrentStepTargets | wfdata/src/wave/_tools.py:176-181 | a converted input is reported under its stem, and all its targets then exist |
| Tools.LegacyStepSpec | phantasy_apps/data_manager/wfdata/src/wave/_tools.py:121-130 | the legacy copy reads every input, a raising read ends the run, and a converted input has all its targets |
| Tools.ConvertAll | wfdata/src/wave/_tools.py:155-181 | a run that does not stop reports every input |
| Tools.DefaultRun | wfdata/src/wave/_tools.py:95-111 | with the argparse defaults and an output directory, every input is exported as MAT with the suffix "_opt", on the window (-800, 400) µs, without overwriting or excluding |
| Tools.ConvertTool | wfdata/src/wave/_tools.py:119-181 | convert_tool computes its specification: argument checks, formats, excludes, then the sorted distinct inputs |
| Tools.ConvertInputs | wfdata/src/wave/_tools.py:155-181 | the input loop computes ConvertAll |
| Tools.ConvertAllStops | wfdata/src/wave/_tools.py:176-181 | once the run has stopped, later inputs change nothing |
| Tools.StepOthers | wfdata/src/wave/_tools.py:165-181 | a conversion touches no path but its targets, even when a writer raises |
| Tools.StepKeeps | wfdata/src/wave/_tools.py:168-169 | without --overwrite, a conversion leaves every existing file as it was, even when a writer raises |
| Tools.ConvertAllFrame | wfdata/src/wave/_tools.py:155-181 | a whole run writes only its targets, and without --overwrite it rewrites nothing |
| Tools.FigureCount | wfdata/src/wave/_tools.py:336-342 | n_figs is the file count capped at max_nfigs |
| Tools.ISqrt | wfdata/src/wave/_tools.py:367 | `floor(sqrt(n))`, exactly: r² ≤ n < (r+1)² |
| Tools.SplitJoin | wfdata/src/wave/_tools.py:370 | `s.split(c)` pieces hold no c, and joining them gives s |
| Tools.GridCovers | wfdata/src/wave/_tools.py:365-370 | without --grid, n ≥ 1 gives a grid with nrow·ncol ≥ n and one column fewer too small; n = 0 raises |
| Tools.GridText | wfdata/src/wave/_tools.py:370 | a grid written "<nrow>x<ncol>" is read back as that layout |

## Left out

- HDF5, CSV, XLSX and MAT reading and writing: a store is a map from key to entry, and a written file is a value on the disk map. Compression settings are not modelled.
- A raise that ends a tool run leaves the disk as it was at the raise: the files written before it stay, and so do the frames the HDF writer put before it raised (`Exporter.Leftover`) and the store `group_datafiles` creates before its loop. Whether an HDF5 file that is never closed has been flushed, and files a writer leaves half written when the file system itself fails, are not modelled.
- `ts.timestamp()` / `datetime.fromtimestamp`: these local-time conversions would need a time zone. The capture time stays a civil date-time, and the time axis counts microseconds from it. The isoformat text of `t0`, and of the `t_zero` and `t_start` attributes written to the HDF5 and MAT files, is not modelled: these values are kept as microsecond counts.
- The `Date`/`Time` text columns of the index and the CSV report's formatting.
- Duplicate column names: pandas keeps repeated names as separate columns; a `Table` holds one column per name, and the later one wins.
- The outer-join alignment of `pd.concat` on unequal indexes is modelled only as far as `Tables.Join2` states it (the sorted union). The pipeline's own frames share a 1 µs index.
- pandas' reading errors: an entry under a `/BCM/...` or `/BPM/...` key that is not a frame counts as a failed read; other reading errors are not modelled.
- Deriver.BpmComplex: the complex phasor sum, `exp`, `cmath.phase` and the 90/π scaling of `process_bpm_cplx` are a `combine` parameter; only the column structure is modelled.
- Floating point: cells are reals, so products and differences are exact. The float `time_sec`/`time_usec` split of the XLSX export is not modelled.
- `math.sqrt`/`math.ceil` on floats are modelled as the exact integer square root and ceiling division; they agree for the figure counts the tool can show.
- JSON encoding of `fscale_json`: the factors are stored as a map.
- Directory creation (`mkdir`) and `Path` normalisation beyond joining, base name, parent and stem. `Text.JoinPath` writes `dir + "/" + name`, so `Exporter.ImagePath` gives "./x" where pathlib gives "x" for a bare relative data name, and `Merger.OutFile` doubles a trailing "/" of the output directory.
- Unicode: `str.lower` folds ASCII letters only, and `strip` uses the whitespace characters Python strips. Digits are ASCII only: `int()` and strptime's `\d` also accept the other Unicode decimal digits, and those texts read as failures here.
- Civil.Strptime: returns None for text whose `%Y` digits or second digits of `%d`/`%H`/`%M`/`%S` are non-ASCII decimal digits, which Python's `\d` accepts, because the digit table of the Unicode version in use is not modelled.
- Indexer.CaptureTime: returns None for a file name whose date or microsecond text holds non-ASCII decimal digits, which `int()` and strptime accept, for the same reason.
- argparse: the parsers are reduced to the values they deliver. A missing positional in `convert_tool` (`nargs='+'`) is exit status 2. The `--log-level` option and the help text are not modelled.
- `plot`, `_plot_no_data`, the figure drawing, the interactive window and the viewer GUI: a figure is recorded as the frame, t0 and title it was given.
- The current copy's `gen_figure` and `create_plot` are not modelled; the image-writing loop is modelled from the older `gen_figure`.
- The older copy's `_data.py` is not part of this model. The older `convert_tool` and `gen_figure` receive its `read_data` as a parameter that returns well-formed frames or raises (`Tools.ReadsWellFormed`).
- The monitor's EPICS/cothread callbacks, `camonitor`/`caget` and the sleep: only `gen_names` and the file name are modelled. The fault ID arrives as text.
- Indexer.SortRecords: pandas' `sort_index` uses quicksort and does not promise a stable order for equal fault IDs. The model picks the stable order, so the "last row wins" outcome of `Merger.GatherTime` for repeated names follows that choice.
- Logging, including the `[cnt]` counter of `read_path`.
- Exporter.MatKeepsTrip: a frame holding both "t_us" and "t-us" columns is excluded, because the MAT rename merges them into one name.
- Duplicate group names in a v1 `/grp` table.
