/**
 * Model of `load_observations` in scripts/build_astrometry_report.py: the
 * two-level index of parsed astrometry records, keyed first by MJD and then
 * by provisional name, and the rule that decides what a new record does to
 * an entry that is already there.
 *
 * The record parser, the file-name regex and Python truthiness of a stored
 * record are collaborators this model does not see; they are passed in as
 * functions (`parse`, `matches`, `truthy`).
 */
module Observations {

  datatype Option<T> = None | Some(value: T)

  datatype Result<T, E> = Ok(value: T) | Err(error: E)

  /** A sky position; only the collaborator that measures separations looks inside it */
  datatype Coordinate = Coordinate(ra: real, dec: real)

  /** One parsed line of astrometry (`mpc.Observation`) */
  datatype Observation = Observation(
    mjd: real,
    provisionalName: string,
    coordinate: Coordinate,
    nullObservation: bool)

  /** Julian Date minus Modified Julian Date */
  const MjdToJd: real := 2400000.5

  /** `observation.date.jd` */
  function Jd(o: Observation): real {
    o.mjd + MjdToJd
  }

  /** The records of one MJD, keyed by provisional name */
  type Bucket = map<string, Observation>

  /** MJD -> provisional name -> record */
  type Index = map<real, Bucket>

  /** The `ValueError("conflicting observations for {name} in {mjd}")` */
  datatype Conflict = Conflict(provisionalName: string, mjd: real)

  /** One file the directory walk hands over: its name and its lines */
  datatype SourceFile = SourceFile(name: string, lines: seq<string>)

  /** The index reached by a load, and the conflict that stopped it, if any */
  datatype Loaded = Loaded(index: Index, error: Option<Conflict>)

  predicate HasKey(idx: Index, mjd: real, name: string) {
    mjd in idx && name in idx[mjd]
  }

  /** Every stored record sits under its own MJD and its own provisional name */
  ghost predicate WellKeyed(idx: Index) {
    forall mjd, name :: HasKey(idx, mjd, name) ==>
      idx[mjd][name].mjd == mjd && idx[mjd][name].provisionalName == name
  }

  /** `b` has every entry of `a`, and the truthy ones of `a` unchanged */
  ghost predicate Grows(a: Index, b: Index, truthy: Observation -> bool) {
    forall mjd, name :: HasKey(a, mjd, name) ==>
      HasKey(b, mjd, name) && (truthy(a[mjd][name]) ==> b[mjd][name] == a[mjd][name])
  }

  /** `a` and `b` agree on every key other than (mjd, name) */
  ghost predicate SameElsewhere(a: Index, b: Index, mjd: real, name: string) {
    forall m, n :: (m, n) != (mjd, name) ==>
      (HasKey(a, m, n) <==> HasKey(b, m, n)) && (HasKey(a, m, n) ==> a[m][n] == b[m][n])
  }

  /**
   * What one parsed record does to the index: a truthy entry already under
   * its key wins and the record is dropped; a falsy entry is overwritten by
   * a null observation and is a conflict for any other record; an absent
   * key is filled.
   */
  function Insert(idx: Index, o: Observation, truthy: Observation -> bool): (r: Result<Index, Conflict>)
    ensures r.Err? <==>
      HasKey(idx, o.mjd, o.provisionalName) && !truthy(idx[o.mjd][o.provisionalName]) && !o.nullObservation
    ensures r.Err? ==> r.error == Conflict(o.provisionalName, o.mjd)
    ensures r.Ok? ==> HasKey(r.value, o.mjd, o.provisionalName) && Grows(idx, r.value, truthy)
    ensures r.Ok? ==> SameElsewhere(idx, r.value, o.mjd, o.provisionalName)
    ensures r.Ok? && HasKey(idx, o.mjd, o.provisionalName) && truthy(idx[o.mjd][o.provisionalName]) ==> r.value == idx
    ensures r.Ok? && !(HasKey(idx, o.mjd, o.provisionalName) && truthy(idx[o.mjd][o.provisionalName])) ==>
      r.value[o.mjd][o.provisionalName] == o
  {
    var bucket := if o.mjd in idx then idx[o.mjd] else map[];
    if o.provisionalName in bucket && truthy(bucket[o.provisionalName]) then
      Ok(idx)
    else if o.provisionalName in bucket && !o.nullObservation then
      Err(Conflict(o.provisionalName, o.mjd))
    else
      Ok(idx[o.mjd := bucket[o.provisionalName := o]])
  }

  /** The lines of one file, in order; lines that do not parse are skipped, a conflict stops the load */
  function LoadLines(idx: Index, lines: seq<string>, parse: string -> Option<Observation>,
                     truthy: Observation -> bool): Loaded
    decreases |lines|
  {
    if lines == [] then Loaded(idx, None)
    else match parse(lines[0])
      case None => LoadLines(idx, lines[1..], parse, truthy)
      case Some(o) =>
        match Insert(idx, o, truthy)
        case Err(e) => Loaded(idx, Some(e))
        case Ok(next) => LoadLines(next, lines[1..], parse, truthy)
  }

  /** The files of the walk, in order; files whose name does not match are skipped */
  function LoadFiles(idx: Index, files: seq<SourceFile>, matches: string -> bool,
                     parse: string -> Option<Observation>, truthy: Observation -> bool): Loaded
    decreases |files|
  {
    if files == [] then Loaded(idx, None)
    else if !matches(files[0].name) then LoadFiles(idx, files[1..], matches, parse, truthy)
    else
      var r := LoadLines(idx, files[0].lines, parse, truthy);
      if r.error.Some? then r else LoadFiles(r.index, files[1..], matches, parse, truthy)
  }

  /** The elements of `s` that `keep` accepts, in order */
  function Filter<T>(s: seq<T>, keep: T -> bool): (r: seq<T>)
    ensures |r| <= |s|
    ensures forall x :: x in r ==> x in s && keep(x)
    ensures forall x :: x in s && keep(x) ==> x in r
  {
    if s == [] then []
    else if keep(s[0]) then [s[0]] + Filter(s[1..], keep)
    else Filter(s[1..], keep)
  }

  /** Loading lines keeps every record under its own key */
  lemma {:induction false} LoadLinesWellKeyed(idx: Index, lines: seq<string>,
                                              parse: string -> Option<Observation>, truthy: Observation -> bool)
    requires WellKeyed(idx)
    ensures WellKeyed(LoadLines(idx, lines, parse, truthy).index)
    decreases |lines|
  {
    if lines != [] {
      match parse(lines[0])
      case None => LoadLinesWellKeyed(idx, lines[1..], parse, truthy);
      case Some(o) =>
        match Insert(idx, o, truthy)
        case Err(_) =>
        case Ok(next) =>
          assert WellKeyed(next);
          LoadLinesWellKeyed(next, lines[1..], parse, truthy);
    }
  }

  /** After loading, every stored record sits at index[r.mjd][r.provisionalName] */
  lemma {:induction false} LoadFilesWellKeyed(idx: Index, files: seq<SourceFile>, matches: string -> bool,
                                              parse: string -> Option<Observation>, truthy: Observation -> bool)
    requires WellKeyed(idx)
    ensures WellKeyed(LoadFiles(idx, files, matches, parse, truthy).index)
    decreases |files|
  {
    if files != [] {
      if !matches(files[0].name) {
        LoadFilesWellKeyed(idx, files[1..], matches, parse, truthy);
      } else {
        var r := LoadLines(idx, files[0].lines, parse, truthy);
        LoadLinesWellKeyed(idx, files[0].lines, parse, truthy);
        if r.error.None? {
          LoadFilesWellKeyed(r.index, files[1..], matches, parse, truthy);
        }
      }
    }
  }

  lemma GrowsTransitive(a: Index, b: Index, c: Index, truthy: Observation -> bool)
    requires Grows(a, b, truthy) && Grows(b, c, truthy)
    ensures Grows(a, c, truthy)
  {
  }

  /** Loading lines never removes a key and never changes a truthy entry */
  lemma {:induction false} LoadLinesGrows(idx: Index, lines: seq<string>,
                                          parse: string -> Option<Observation>, truthy: Observation -> bool)
    ensures Grows(idx, LoadLines(idx, lines, parse, truthy).index, truthy)
    decreases |lines|
  {
    if lines != [] {
      match parse(lines[0])
      case None => LoadLinesGrows(idx, lines[1..], parse, truthy);
      case Some(o) =>
        match Insert(idx, o, truthy)
        case Err(_) =>
        case Ok(next) =>
          LoadLinesGrows(next, lines[1..], parse, truthy);
          GrowsTransitive(idx, next, LoadLines(next, lines[1..], parse, truthy).index, truthy);
    }
  }

  /**
   * First one wins and nothing is lost: the index only gains keys, and once
   * a truthy record is stored under a key, later records for that key leave
   * it in place.
   */
  lemma {:induction false} LoadFilesGrows(idx: Index, files: seq<SourceFile>, matches: string -> bool,
                                          parse: string -> Option<Observation>, truthy: Observation -> bool)
    ensures Grows(idx, LoadFiles(idx, files, matches, parse, truthy).index, truthy)
    decreases |files|
  {
    if files != [] {
      if !matches(files[0].name) {
        LoadFilesGrows(idx, files[1..], matches, parse, truthy);
      } else {
        var r := LoadLines(idx, files[0].lines, parse, truthy);
        LoadLinesGrows(idx, files[0].lines, parse, truthy);
        if r.error.None? {
          LoadFilesGrows(r.index, files[1..], matches, parse, truthy);
          GrowsTransitive(idx, r.index, LoadFiles(r.index, files[1..], matches, parse, truthy).index, truthy);
        }
      }
    }
  }

  /** A load that raises nothing has indexed every record parsed from the lines */
  lemma {:induction false} LoadLinesIndexesEveryRecord(idx: Index, lines: seq<string>,
                                                       parse: string -> Option<Observation>, truthy: Observation -> bool)
    requires LoadLines(idx, lines, parse, truthy).error.None?
    ensures forall j :: 0 <= j < |lines| && parse(lines[j]).Some? ==>
      HasKey(LoadLines(idx, lines, parse, truthy).index, parse(lines[j]).value.mjd,
             parse(lines[j]).value.provisionalName)
    decreases |lines|
  {
    if lines != [] {
      var tail := lines[1..];
      assert forall j :: 0 < j < |lines| ==> lines[j] == tail[j - 1];
      match parse(lines[0])
      case None =>
        LoadLinesIndexesEveryRecord(idx, tail, parse, truthy);
      case Some(o) =>
        var next := Insert(idx, o, truthy).value;
        LoadLinesIndexesEveryRecord(next, tail, parse, truthy);
        LoadLinesGrows(next, tail, parse, truthy);
    }
  }

  /** Lines that do not parse leave the index as it was */
  lemma {:induction false} UnparsedLinesAreIgnored(idx: Index, lines: seq<string>,
                                                   parse: string -> Option<Observation>, truthy: Observation -> bool)
    ensures LoadLines(idx, lines, parse, truthy) == LoadLines(idx, Filter(lines, (l: string) => parse(l).Some?), parse, truthy)
    decreases |lines|
  {
    if lines != [] {
      UnparsedLinesAreIgnored(idx, lines[1..], parse, truthy);
      match parse(lines[0])
      case None =>
      case Some(o) =>
        if Insert(idx, o, truthy).Ok? {
          UnparsedLinesAreIgnored(Insert(idx, o, truthy).value, lines[1..], parse, truthy);
        }
    }
  }

  /** Files whose name does not match the regex leave the index as it was */
  lemma {:induction false} UnmatchedFilesAreIgnored(idx: Index, files: seq<SourceFile>, matches: string -> bool,
                                                    parse: string -> Option<Observation>, truthy: Observation -> bool)
    ensures LoadFiles(idx, files, matches, parse, truthy) ==
            LoadFiles(idx, Filter(files, (f: SourceFile) => matches(f.name)), matches, parse, truthy)
    decreases |files|
  {
    if files != [] {
      UnmatchedFilesAreIgnored(idx, files[1..], matches, parse, truthy);
      if matches(files[0].name) {
        var r := LoadLines(idx, files[0].lines, parse, truthy);
        if r.error.None? {
          UnmatchedFilesAreIgnored(r.index, files[1..], matches, parse, truthy);
        }
      }
    }
  }

  /**
   * When every stored record is truthy (Python's default for an object
   * that defines neither `__nonzero__` nor `__len__`), no load ever raises
   * the conflict.
   */
  lemma {:induction false} AlwaysTruthyNeverConflicts(idx: Index, files: seq<SourceFile>, matches: string -> bool,
                                                      parse: string -> Option<Observation>, truthy: Observation -> bool)
    requires forall o :: truthy(o)
    ensures LoadFiles(idx, files, matches, parse, truthy).error.None?
    decreases |files|
  {
    if files != [] {
      LinesNeverConflict(idx, files[0].lines, parse, truthy);
      if matches(files[0].name) {
        var r := LoadLines(idx, files[0].lines, parse, truthy);
        AlwaysTruthyNeverConflicts(r.index, files[1..], matches, parse, truthy);
      } else {
        AlwaysTruthyNeverConflicts(idx, files[1..], matches, parse, truthy);
      }
    }
  }

  lemma {:induction false} LinesNeverConflict(idx: Index, lines: seq<string>,
                                              parse: string -> Option<Observation>, truthy: Observation -> bool)
    requires forall o :: truthy(o)
    ensures LoadLines(idx, lines, parse, truthy).error.None?
    decreases |lines|
  {
    if lines != [] {
      match parse(lines[0])
      case None => LinesNeverConflict(idx, lines[1..], parse, truthy);
      case Some(o) => LinesNeverConflict(Insert(idx, o, truthy).value, lines[1..], parse, truthy);
    }
  }

  /** The dictionary `load_observations` fills in place */
  class ObservationIndex {
    var buckets: Index

    constructor ()
      ensures buckets == map[]
    {
      buckets := map[];
    }

    /** The body of the per-line loop: store the record or raise the conflict */
    method Add(observation: Observation, truthy: Observation -> bool) returns (conflict: Option<Conflict>)
      modifies this
      ensures conflict.None? ==> Insert(old(buckets), observation, truthy) == Ok(buckets)
      ensures conflict.Some? ==> Insert(old(buckets), observation, truthy) == Err(conflict.value)
      ensures conflict.Some? ==> buckets == old(buckets)
    {
      var key1 := observation.mjd;
      if key1 !in buckets {
        buckets := buckets[key1 := map[]];
      }
      var key2 := observation.provisionalName;
      if key2 in buckets[key1] {
        if truthy(buckets[key1][key2]) {
          assert buckets == old(buckets);
          return None;
        }
        if !observation.nullObservation {
          return Some(Conflict(key2, key1));
        }
      }
      ghost var bucket := if key1 in old(buckets) then old(buckets)[key1] else map[];
      assert buckets[key1] == bucket;
      buckets := buckets[key1 := buckets[key1][key2 := observation]];
      assert buckets == old(buckets)[key1 := bucket[key2 := observation]];
      return None;
    }

    /** `load_observations`: every line of every matching file, stopping at a conflict */
    method LoadObservations(files: seq<SourceFile>, matches: string -> bool,
                            parse: string -> Option<Observation>, truthy: Observation -> bool)
      returns (conflict: Option<Conflict>)
      modifies this
      ensures LoadFiles(old(buckets), files, matches, parse, truthy) == Loaded(buckets, conflict)
    {
      for i := 0 to |files|
        invariant LoadFiles(old(buckets), files, matches, parse, truthy) ==
                  LoadFiles(buckets, files[i..], matches, parse, truthy)
      {
        assert files[i..][1..] == files[i + 1..];
        var file := files[i];
        if !matches(file.name) {
          continue;
        }
        ghost var start := buckets;
        for j := 0 to |file.lines|
          invariant LoadLines(start, file.lines, parse, truthy) ==
                    LoadLines(buckets, file.lines[j..], parse, truthy)
        {
          assert file.lines[j..][1..] == file.lines[j + 1..];
          var observation := parse(file.lines[j]);
          if observation.None? {
            continue;
          }
          conflict := Add(observation.value, truthy);
          if conflict.Some? {
            return;
          }
        }
      }
      assert files[|files|..] == [];
      return None;
    }
  }
}
