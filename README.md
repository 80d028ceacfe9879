# Astrometry report reconciliation, modelled in Dafny

This project models two pieces of the MOP / OSSOS pipeline and proves properties of them.

**`build_astrometry_report.py`** reads two directories of astrometry: lines already reported, and newly measured lines. It writes a submission file that holds only the new lines that need reporting.

- `load_observations` builds an index from MJD to provisional name to record. A record already stored under a key wins when it is truthy. A null record overwrites a falsy one. Any other record arriving at a falsy entry raises `ValueError`.
- The `__main__` loop goes over every new record. It applies a strict date window, then scans the existing records of the same MJD:
  - A record within the angular tolerance makes the new one a duplicate. The scan stops there, and it warns when the alias table does not identify the two names.
  - An alias outside the tolerance makes the new one a replacement.
  - A record is kept when it is not a duplicate and "has a replacement" equals `--replacement`.
- With nothing kept, no file is written. Otherwise the file holds a header and then one line per kept record.

**`string_utils.py`**: `split_2_or_more_spaces` returns the `re.findall` matches of `[\w\d\.]+(?:[ ]?[\w\d\.]+)*`. These are the maximal runs of word characters and dots in which single spaces may occur. `\w` is ASCII (Python 2 without `re.UNICODE`).

Files:

- `observations.dfy`, module `Observations`:
  - the record, the index and the insert rule (`Insert`);
  - the loads as functions (`LoadLines`, `LoadFiles`);
  - the in-place dictionary as the class `ObservationIndex`, whose methods are proved against those functions.
- `reconcile.dfy`, module `Reconcile`:
  - the selection rule (`Classify`, `Wanted`, `SelectedKeys`);
  - the loops of `__main__` as methods (`ScanBucket`, `Decide`, `SelectFromBucket`, `BuildReport`);
  - report writing (`WriteReport`, `Lines`);
  - the whole run (`Run`).
- `string_utils.dfy`, module `StringUtils`:
  - `Split`, which follows the regex engine;
  - `Decomposes`, an independent description of the answer as gap, piece, gap, …, piece, gap;
  - proofs that `Split` meets it and that it has only one solution.

Collaborators the model does not see are passed in as functions:

| parameter | stands for |
|---|---|
| `parse` | `mpc.Observation.from_string`, with a raised exception read as `None` |
| `matches` | `re.search(regex, filename) is not None` |
| `truthy` | Python truthiness of a stored record |
| `withinTol(new, existing)` | `separation.arcsecs < tolerance` |
| `isSame(existingName, newName)` | `idx.is_same`, called in that argument order and not assumed symmetric |
| `header`, `toLine` | `make_tnodb_header` and `to_tnodb` |

Dates are MJD keys of type `real`. The window compares `Jd(o) = mjd + 2400000.5` with the optional start and end JD.

Points of the code that the model keeps as written:

- **Conflicts.** Two differing non-null records under one key do not always conflict. The code skips the new record whenever the stored one is truthy. It raises only when the stored entry is falsy and the new record is not null. When every record is truthy, no load ever raises (`AlwaysTruthyNeverConflicts`).
- **Alias query order.** `is_same` is called with the existing name first: `idx.is_same(observation2.provisional_name, observation1.provisional_name)`.
- **Iteration order.** Dictionaries are iterated in whatever order Python yields. The model picks each next key arbitrarily, so no contract about the include/exclude decision depends on that order.
- **Date bounds.** The `--start_date` and `--end_date` help texts say "on or after" and "on or before". The comparisons at lines 127-128 are strict, so a record dated exactly on a bound is excluded.

## Model

| member | source | states |
|---|---|---|
| `Observations.Insert` | src/ossos-pipeline/scripts/build_astrometry_report.py:37-49 | raises the conflict (naming the key) exactly when the key holds a falsy entry and the new record is not null; otherwise the key is present afterwards, a truthy stored entry leaves the whole index unchanged, otherwise the new record is stored there, and no other key changes or disappears |
| `Observations.ObservationIndex.Add` | src/ossos-pipeline/scripts/build_astrometry_report.py:37-49 | the in-place dictionary update ends in the state `Insert` gives, and on a conflict the dictionary is left as it was |
| `Observations.ObservationIndex.LoadObservations` | src/ossos-pipeline/scripts/build_astrometry_report.py:11-49 | the nested file and line loops leave the dictionary, and the conflict if one was raised, exactly as `LoadFiles` describes |
| `Observations.LoadLinesWellKeyed` | src/ossos-pipeline/scripts/build_astrometry_report.py:37-49 | loading the lines of one file keeps every stored record under its own MJD and provisional name |
| `Observations.LoadFilesWellKeyed` | src/ossos-pipeline/scripts/build_astrometry_report.py:37-49 | after any load, every stored record sits at `index[r.mjd][r.provisional_name]`, so each key holds that one record |
| `Observations.LoadLinesGrows` | src/ossos-pipeline/scripts/build_astrometry_report.py:41-49 | loading lines never removes a key and never replaces a truthy entry |
| `Observations.LoadFilesGrows` | src/ossos-pipeline/scripts/build_astrometry_report.py:38-49 | the index is append-only over a whole load, and first one wins: once a truthy record is stored under a key, later records for that key leave it in place |
| `Observations.LoadLinesIndexesEveryRecord` | src/ossos-pipeline/scripts/build_astrometry_report.py:28-49 | if loading a file raises nothing, every record parsed from its lines has its (MJD, name) key in the index |
| `Observations.UnparsedLinesAreIgnored` | src/ossos-pipeline/scripts/build_astrometry_report.py:28-36 | loading a file gives the same index and error as loading only its lines that parse |
| `Observations.UnmatchedFilesAreIgnored` | src/ossos-pipeline/scripts/build_astrometry_report.py:22-25 | loading the walk gives the same index and error as loading only the files whose name matches the regex |
| `Observations.LinesNeverConflict` | src/ossos-pipeline/scripts/build_astrometry_report.py:41-48 | when every record is truthy, loading the lines of a file never raises the conflict |
| `Observations.AlwaysTruthyNeverConflicts` | src/ossos-pipeline/scripts/build_astrometry_report.py:41-48 | when every record is truthy, no load ever raises the conflict |
| `Reconcile.DuplicateNeverWanted` | src/ossos-pipeline/scripts/build_astrometry_report.py:135-147 | a new record within tolerance of an existing record of its MJD is never reported, with or without `--replacement` |
| `Reconcile.WantedIffSourceRule` | src/ossos-pipeline/scripts/build_astrometry_report.py:129-147 | the duplicate/replacement/new classification selects a record exactly when it is in the window, has no record within tolerance, and "has an alias" equals `--replacement` |
| `Reconcile.BoundaryExcluded` | src/ossos-pipeline/scripts/build_astrometry_report.py:127-128 | a record dated exactly on a given start or end date is not reported |
| `Reconcile.ScanBucket` | src/ossos-pipeline/scripts/build_astrometry_report.py:131-146 | in any iteration order, the scan clears `report` exactly when some existing record is within tolerance; when it does not, `replacement` says whether some existing record is an alias; a warning is raised only for a within-tolerance record that is not an alias, and always when every within-tolerance record is not one |
| `Reconcile.Decide` | src/ossos-pipeline/scripts/build_astrometry_report.py:127-147 | the decision `report and replacement == args.replacement` after the date window equals `Wanted` for the record and its same-MJD bucket, whatever the bucket's iteration order |
| `Reconcile.SelectFromBucket` | src/ossos-pipeline/scripts/build_astrometry_report.py:124-149 | for one MJD of the new index, the kept records are exactly the wanted records of that MJD, each once |
| `Reconcile.BuildReport` | src/ossos-pipeline/scripts/build_astrometry_report.py:122-149 | the report list holds the record of every selected (MJD, name) key of the new index exactly once and nothing else |
| `Reconcile.LinesAppend` | src/ossos-pipeline/scripts/build_astrometry_report.py:158-159 | the lines written for two lists of records are the lines of the first followed by those of the second |
| `Reconcile.LineOfRecord` | src/ossos-pipeline/scripts/build_astrometry_report.py:158-159 | the line of record i stands after the lines of the records before it and before those after it |
| `Reconcile.OneLinePerRecord` | src/ossos-pipeline/scripts/build_astrometry_report.py:158-159 | when no serialised record contains a newline, the body has exactly one newline-terminated line per record |
| `Reconcile.WriteReport` | src/ossos-pipeline/scripts/build_astrometry_report.py:151-160 | nothing is written exactly when no record was selected; otherwise the file is the header, a newline, and the records' lines in selection order |
| `Reconcile.Run` | src/ossos-pipeline/scripts/build_astrometry_report.py:113-160 | a conflict in the existing load, or else in the new load, aborts the run with that conflict and no output; otherwise the report holds each selected record once, and the outcome is "nothing to report" when it is empty and otherwise the written file: header plus one line per record |
| `StringUtils.MatchEnd` | src/mopgui/mopgui/io/string_utils.py:15 | a greedy match from a piece character ends at a piece that no following character or single space can extend |
| `StringUtils.Split` | src/mopgui/mopgui/io/string_utils.py:10-15 | every returned piece is non-empty, starts and ends with a word character or `.`, consists of those and spaces, and has no two consecutive spaces |
| `StringUtils.SplitDecomposes` | src/mopgui/mopgui/io/string_utils.py:15 | the input is the returned pieces, in order and without overlap, separated by gaps with no word character or dot; each gap between two pieces is non-empty and not a single space, so each piece is maximal |
| `StringUtils.DecompositionIsUnique` | src/mopgui/mopgui/io/string_utils.py:15 | any sequence of pieces that decomposes the input this way is exactly the returned list |
| `StringUtils.SplitEmptyIff` | src/mopgui/mopgui/io/string_utils.py:15 | the result is empty exactly when the input has no word character or dot |

## Left out

- Directory traversal with `os.path.walk`, including recursion into subdirectories and file opening. The model takes the walk's files as a sequence of names and lines.
- Parsing (`mpc.Observation.from_string`) and the serialisers (`make_tnodb_header`, `to_tnodb`). They are foreign code and become the parameters `parse`, `header` and `toLine`. The round trip `parse(serialize(o)) == o` is a property of that code and is not modelled.
- The angular separation in floating point. It is the parameter `withinTol`, so the tolerance value is not modelled. The default `.2` (line 93) is a float. A value given with `--tolerance` arrives as a `str`, because the option has no `type=`. In Python 2 every float compares less than a `str`, so the test at line 136 is then always true. Every new record with a same-MJD existing record then counts as a duplicate. Since `withinTol` is unconstrained, that case is the one where `withinTol` is always true, and every contract covers it.
- The `mpc.Index` alias table. Only its `is_same` query is kept, as the parameter `isSame`.
- Floating-point MJD and JD. Keys are exact `real` values, and JD is computed without rounding.
- argparse, the default index path (lines 107-108), the unused `--COD` and `--OBS` options, `print` and all `logger` output.
- The warning flag from `ScanBucket` is computed but not kept by `Decide`, since its only effect is a log line.
- `ScanBucket`: which within-tolerance record triggers the warning depends on dictionary order. The contract therefore bounds `warned` from both sides rather than fixing it.
- `BuildReport`: the order of the report is the unspecified dictionary iteration order. The contract fixes the set of reported records and that each appears once, not their order.
- `sys.exit(0)` becomes the `NothingToReport` outcome. A `ValueError` becomes the `Aborted` outcome.
- Non-ASCII input to `split_2_or_more_spaces`. Characters are Dafny `char`, and `\w` is the ASCII class.
- Not part of this model: src/ossos-pipeline/planning/layout.py, src/ossos-pipeline/pipeline/step2.py, src/ossos-pipeline/plant.py, src/mopgui/mopgui/data_retrieval/loader.py and src/mopgui/test/test_mopgui/test_astrometry/test_wcs.py. They are plotting, orchestration of external programs, threading, and a test of `wcs.get_order`, which is outside the modelled files.
