/**
 * Model of the `__main__` body of scripts/build_astrometry_report.py: the
 * pass over the newly measured records that decides which of them go into
 * the report, the writing of the report, and the whole run from the two
 * directory loads to the report.
 *
 * The angular separation test `separation.arcsecs < tolerance` is the
 * collaborator `withinTol(new, existing)`, and the alias table query
 * `idx.is_same(existing name, new name)` is `isSame`; neither is assumed
 * symmetric.  The header and line serialisers are `header` and `toLine`.
 */
module Reconcile {
  import opened Observations

  /**
   * The command-line choices and collaborators the selection uses: the
   * date window as JD (`--start_date`, `--end_date`), `--replacement`,
   * the separation test against `--tolerance`, and the alias query.
   */
  datatype Criteria = Criteria(
    startJd: Option<real>,
    endJd: Option<real>,
    wantReplacement: bool,
    withinTol: (Observation, Observation) -> bool,
    isSame: (string, string) -> bool)

  /** What the existing records of the same MJD make of a new record */
  datatype Classification = New | Duplicate | Replacement

  /** What the run ends with */
  datatype RunOutcome =
    | Aborted(conflict: Conflict)       // a load raised the conflict; nothing is written
    | NothingToReport                   // no record qualified; no file is written
    | Written(contents: string)         // the text of the report file

  function BucketAt(idx: Index, mjd: real): Bucket {
    if mjd in idx then idx[mjd] else map[]
  }

  /** Strictly after the start date and strictly before the end date, each when given */
  predicate InWindow(o: Observation, c: Criteria) {
    (c.startJd.None? || c.startJd.value < Jd(o)) && (c.endJd.None? || c.endJd.value > Jd(o))
  }

  /** Some existing record of the bucket lies within tolerance of `o` */
  predicate IsDuplicate(o: Observation, bucket: Bucket, c: Criteria) {
    exists name :: name in bucket && c.withinTol(o, bucket[name])
  }

  /** Some existing record of the bucket carries a name the alias table identifies with `o`'s */
  predicate HasAlias(o: Observation, bucket: Bucket, c: Criteria) {
    exists name :: name in bucket && c.isSame(bucket[name].provisionalName, o.provisionalName)
  }

  /** A position match makes a duplicate whatever the names; otherwise an alias makes a replacement */
  function Classify(o: Observation, bucket: Bucket, c: Criteria): Classification {
    if IsDuplicate(o, bucket, c) then Duplicate
    else if HasAlias(o, bucket, c) then Replacement
    else New
  }

  /**
   * A record goes into the report when it is inside the date window and is
   * new (for an ordinary report) or a replacement (with `--replacement`).
   */
  predicate Wanted(o: Observation, bucket: Bucket, c: Criteria) {
    InWindow(o, c) && Classify(o, bucket, c) == (if c.wantReplacement then Replacement else New)
  }

  /** The record under key `k` of the new index goes into the report */
  ghost predicate IsSelected(newIdx: Index, existing: Index, c: Criteria, k: (real, string)) {
    HasKey(newIdx, k.0, k.1) && Wanted(newIdx[k.0][k.1], BucketAt(existing, k.0), c)
  }

  /** The (MJD, name) keys of the new index whose records go into the report */
  ghost function SelectedKeys(newIdx: Index, existing: Index, c: Criteria): (r: set<(real, string)>)
    ensures forall k :: k in r <==> IsSelected(newIdx, existing, c, k)
  {
    set mjd, name | mjd in newIdx && name in newIdx[mjd] && IsSelected(newIdx, existing, c, (mjd, name))
                  :: (mjd, name)
  }

  /**
   * `report` holds the record of every selected key exactly once, in the
   * order given by `keys`.
   */
  ghost predicate IsReportOf(report: seq<Observation>, keys: seq<(real, string)>, newIdx: Index,
                             selected: set<(real, string)>)
  {
    && |keys| == |report|
    && (forall i :: 0 <= i < |keys| ==>
          keys[i] in selected && HasKey(newIdx, keys[i].0, keys[i].1) &&
          report[i] == newIdx[keys[i].0][keys[i].1])
    && (forall k :: k in selected ==> k in keys)
    && (forall i, j :: 0 <= i < j < |keys| ==> keys[i] != keys[j])
  }

  /** A record within tolerance of a same-MJD existing record is never reported, whatever `--replacement` says */
  lemma DuplicateNeverWanted(o: Observation, bucket: Bucket, c: Criteria, name: string)
    requires name in bucket && c.withinTol(o, bucket[name])
    ensures !Wanted(o, bucket, c) && !Wanted(o, bucket, c.(wantReplacement := !c.wantReplacement))
  {
  }

  /**
   * The source's test `report and replacement == args.replacement`: with no
   * position match, the record is reported exactly when having an alias in
   * the bucket agrees with `--replacement`.
   */
  lemma WantedIffSourceRule(o: Observation, bucket: Bucket, c: Criteria)
    ensures Wanted(o, bucket, c) <==>
      InWindow(o, c) && !IsDuplicate(o, bucket, c) && HasAlias(o, bucket, c) == c.wantReplacement
  {
  }

  /** A record dated exactly on a given start or end date is not reported */
  lemma BoundaryExcluded(o: Observation, bucket: Bucket, c: Criteria)
    requires c.startJd == Some(Jd(o)) || c.endJd == Some(Jd(o))
    ensures !Wanted(o, bucket, c)
  {
  }

  /**
   * The scan of the existing bucket (lines 132-146), in whatever order the
   * dictionary yields its names: it stops at the first record within
   * tolerance, warning when the alias table does not identify the two
   * names, and otherwise notes whether some record is an alias.  The
   * outcome is stated without reference to the order.
   */
  method ScanBucket(o1: Observation, bucket: Bucket, c: Criteria)
    returns (report: bool, replacement: bool, warned: bool)
    ensures report <==> !IsDuplicate(o1, bucket, c)
    ensures report ==> (replacement <==> HasAlias(o1, bucket, c))
    ensures warned ==> !report && exists name :: name in bucket && c.withinTol(o1, bucket[name]) &&
                                          !c.isSame(bucket[name].provisionalName, o1.provisionalName)
    ensures (!report && forall name :: name in bucket && c.withinTol(o1, bucket[name]) ==>
                                        !c.isSame(bucket[name].provisionalName, o1.provisionalName))
            ==> warned
  {
    report, replacement, warned := true, false, false;
    var names := bucket.Keys;
    while names != {}
      invariant names <= bucket.Keys
      invariant report && !warned
      invariant forall name :: name in bucket && name !in names ==> !c.withinTol(o1, bucket[name])
      invariant replacement <==>
        exists name :: name in bucket && name !in names &&
                       c.isSame(bucket[name].provisionalName, o1.provisionalName)
      decreases names
    {
      var name2 :| name2 in names;
      var o2 := bucket[name2];
      if c.withinTol(o1, o2) {
        if !c.isSame(o2.provisionalName, o1.provisionalName) {
          warned := true;
        }
        report := false;
        break;
      } else if c.isSame(o2.provisionalName, o1.provisionalName) {
        replacement := true;
      }
      names := names - {name2};
    }
  }

  /**
   * The decision for one new record (lines 127-147): the date window, then
   * the scan of the existing records of the same MJD, if there are any.
   */
  method Decide(observation1: Observation, date1: real, existing: Index, c: Criteria) returns (keep: bool)
    ensures keep <==> Wanted(observation1, BucketAt(existing, date1), c)
  {
    keep := false;
    if InWindow(observation1, c) {
      var report, replacement := true, false;
      if date1 in existing {
        var warned;  // the source logs this warning; logging is not modelled
        report, replacement, warned := ScanBucket(observation1, existing[date1], c);
      }
      keep := report && replacement == c.wantReplacement;
    }
  }

  /**
   * The inner loop over the names of one MJD of the new index (lines
   * 124-149), in whatever order the dictionary yields them.  `names`
   * says which name each kept record came from.
   */
  method SelectFromBucket(date1: real, bucket: Bucket, existing: Index, c: Criteria)
    returns (report: seq<Observation>, names: seq<string>)
    ensures |names| == |report|
    ensures forall i :: 0 <= i < |names| ==>
      names[i] in bucket && Wanted(bucket[names[i]], BucketAt(existing, date1), c) &&
      report[i] == bucket[names[i]]
    ensures forall n :: n in bucket && Wanted(bucket[n], BucketAt(existing, date1), c) ==> n in names
    ensures forall i, j :: 0 <= i < j < |names| ==> names[i] != names[j]
  {
    report, names := [], [];
    var pending := bucket.Keys;
    while pending != {}
      invariant pending <= bucket.Keys
      invariant |names| == |report|
      invariant forall i :: 0 <= i < |names| ==>
        names[i] in bucket && names[i] !in pending && Wanted(bucket[names[i]], BucketAt(existing, date1), c) &&
        report[i] == bucket[names[i]]
      invariant forall n :: n in bucket && n !in pending && Wanted(bucket[n], BucketAt(existing, date1), c) ==>
        n in names
      invariant forall i, j :: 0 <= i < j < |names| ==> names[i] != names[j]
      decreases pending
    {
      var name1 :| name1 in pending;
      var observation1 := bucket[name1];
      var keep := Decide(observation1, date1, existing, c);
      if keep {
        report, names := report + [observation1], names + [name1];
      }
      pending := pending - {name1};
    }
  }

  /**
   * The selection loop (lines 122-149): every MJD of the new index, in
   * whatever order the dictionary yields them, and within it every name.
   * `keys` says which key each reported record came from.
   */
  method BuildReport(newIdx: Index, existing: Index, c: Criteria)
    returns (report: seq<Observation>, keys: seq<(real, string)>)
    ensures IsReportOf(report, keys, newIdx, SelectedKeys(newIdx, existing, c))
  {
    report, keys := [], [];
    // the (MJD, bucket) items of the new index not visited yet, and the MJDs visited
    var pending := newIdx.Items;
    ghost var visited: set<real> := {};
    while pending != {}
      invariant pending <= newIdx.Items
      invariant forall d :: d in newIdx ==> (d in visited <==> (d, newIdx[d]) !in pending)
      invariant PartialReport(newIdx, existing, c, visited, report, keys)
      decreases pending
    {
      var item :| item in pending;
      var date1 := item.0;
      var records, names := SelectFromBucket(date1, item.1, existing, c);
      var added := seq(|names|, i requires 0 <= i < |names| => (date1, names[i]));
      AppendBucket(newIdx, existing, c, visited, date1, report, keys, records, names, added);
      report, keys := report + records, keys + added;
      pending := pending - {item};
      visited := visited + {date1};
    }
  }

  /**
   * `report` and `keys` hold, once each, the selected records of the new
   * index whose MJD is in `visited`.
   */
  ghost predicate PartialReport(newIdx: Index, existing: Index, c: Criteria, visited: set<real>,
                                report: seq<Observation>, keys: seq<(real, string)>)
  {
    && |keys| == |report|
    && (forall i :: 0 <= i < |keys| ==>
          IsSelected(newIdx, existing, c, keys[i]) && keys[i].0 in visited &&
          report[i] == newIdx[keys[i].0][keys[i].1])
    && (forall k :: IsSelected(newIdx, existing, c, k) && k.0 in visited ==> k in keys)
    && (forall i, j :: 0 <= i < j < |keys| ==> keys[i] != keys[j])
  }

  /** The step of `BuildReport` that appends the records of one more MJD */
  lemma AppendBucket(newIdx: Index, existing: Index, c: Criteria, visited: set<real>, date1: real,
                     report: seq<Observation>, keys: seq<(real, string)>,
                     records: seq<Observation>, names: seq<string>, added: seq<(real, string)>)
    requires date1 in newIdx && date1 !in visited
    requires PartialReport(newIdx, existing, c, visited, report, keys)
    requires |names| == |records| == |added|
    requires forall i :: 0 <= i < |names| ==>
      names[i] in newIdx[date1] && Wanted(newIdx[date1][names[i]], BucketAt(existing, date1), c) &&
      records[i] == newIdx[date1][names[i]] && added[i] == (date1, names[i])
    requires forall n :: n in newIdx[date1] && Wanted(newIdx[date1][n], BucketAt(existing, date1), c) ==>
      n in names
    requires forall i, j :: 0 <= i < j < |names| ==> names[i] != names[j]
    ensures PartialReport(newIdx, existing, c, visited + {date1}, report + records, keys + added)
  {
    var report', keys' := report + records, keys + added;
    forall i | 0 <= i < |keys'|
      ensures IsSelected(newIdx, existing, c, keys'[i]) && keys'[i].0 in visited + {date1}
      ensures report'[i] == newIdx[keys'[i].0][keys'[i].1]
    {
      if i >= |keys| {
        assert keys'[i] == added[i - |keys|] && report'[i] == records[i - |keys|];
      }
    }
    forall k | IsSelected(newIdx, existing, c, k) && k.0 in visited + {date1}
      ensures k in keys'
    {
      if k.0 == date1 {
        var i :| 0 <= i < |names| && names[i] == k.1;
        assert keys'[|keys| + i] == k;
      } else {
        assert k in keys;
      }
    }
    forall i, j | 0 <= i < j < |keys'|
      ensures keys'[i] != keys'[j]
    {
      if i >= |keys| {
        assert keys'[i] == added[i - |keys|] && keys'[j] == added[j - |keys|];
      } else if j >= |keys| {
        assert keys'[j].0 == date1 && keys[i].0 in visited;
      }
    }
  }

  /** One line per record, in order, each ended by a newline */
  function Lines(records: seq<Observation>, toLine: Observation -> string): string {
    if records == [] then [] else toLine(records[0]) + "\n" + Lines(records[1..], toLine)
  }

  /** The lines of two lists of records follow one another */
  lemma {:induction false} LinesAppend(a: seq<Observation>, b: seq<Observation>, toLine: Observation -> string)
    ensures Lines(a + b, toLine) == Lines(a, toLine) + Lines(b, toLine)
  {
    if a != [] {
      assert (a + b)[1..] == a[1..] + b;
      LinesAppend(a[1..], b, toLine);
    } else {
      assert a + b == b;
    }
  }

  /** The line of record i stands between the lines of the records before and after it */
  lemma LineOfRecord(records: seq<Observation>, i: nat, toLine: Observation -> string)
    requires i < |records|
    ensures Lines(records, toLine) ==
            Lines(records[..i], toLine) + (toLine(records[i]) + "\n" + Lines(records[i + 1..], toLine))
  {
    var before, rest := records[..i], records[i..];
    assert records == before + rest;
    LinesAppend(before, rest, toLine);
    assert rest[0] == records[i] && rest[1..] == records[i + 1..];
    assert Lines(rest, toLine) == toLine(records[i]) + "\n" + Lines(records[i + 1..], toLine);
  }

  function CountChar(s: string, c: char): nat {
    if s == [] then 0 else (if s[0] == c then 1 else 0) + CountChar(s[1..], c)
  }

  lemma {:induction false} CountCharAppend(a: string, b: string, c: char)
    ensures CountChar(a + b, c) == CountChar(a, c) + CountChar(b, c)
  {
    if a != [] {
      assert (a + b)[1..] == a[1..] + b;
      CountCharAppend(a[1..], b, c);
    } else {
      assert a + b == b;
    }
  }

  /** When no serialised line contains a newline, the report body has exactly one line per record */
  lemma {:induction false} OneLinePerRecord(records: seq<Observation>, toLine: Observation -> string)
    requires forall i :: 0 <= i < |records| ==> CountChar(toLine(records[i]), '\n') == 0
    ensures CountChar(Lines(records, toLine), '\n') == |records|
  {
    if records != [] {
      OneLinePerRecord(records[1..], toLine);
      CountCharAppend(toLine(records[0]), "\n", '\n');
      CountCharAppend(toLine(records[0]) + "\n", Lines(records[1..], toLine), '\n');
    }
  }

  /**
   * Lines 151-160: with nothing selected no file is written; otherwise the
   * header, a newline, and one line per record in selection order.
   */
  method WriteReport(records: seq<Observation>, header: seq<Observation> -> string,
                     toLine: Observation -> string)
    returns (contents: Option<string>)
    ensures contents.None? <==> records == []
    ensures contents.Some? ==> contents.value == header(records) + "\n" + Lines(records, toLine)
  {
    if !(|records| > 0) {
      return None;
    }
    var lines := "";
    for i := 0 to |records|
      invariant lines == Lines(records[..i], toLine)
    {
      LinesAppend(records[..i], [records[i]], toLine);
      assert records[..i + 1] == records[..i] + [records[i]];
      assert Lines([records[i]], toLine) == toLine(records[i]) + "\n";
      lines := lines + (toLine(records[i]) + "\n");
    }
    assert records[..|records|] == records;
    return Some(header(records) + "\n" + lines);
  }

  /**
   * The whole run: load the existing directory, then the new one (either
   * may stop the run with the conflict, before anything is written), select
   * the records to report, and write the report unless none qualified.
   * `report` and `keys` are the selected records and their keys.
   */
  method Run(existingFiles: seq<SourceFile>, existingMatches: string -> bool,
             newFiles: seq<SourceFile>, newMatches: string -> bool,
             parse: string -> Option<Observation>, truthy: Observation -> bool,
             c: Criteria, header: seq<Observation> -> string, toLine: Observation -> string)
    returns (outcome: RunOutcome, report: seq<Observation>, keys: seq<(real, string)>)
    ensures
      var ex := LoadFiles(map[], existingFiles, existingMatches, parse, truthy);
      var nw := LoadFiles(map[], newFiles, newMatches, parse, truthy);
      && (ex.error.Some? ==> outcome == Aborted(ex.error.value))
      && (ex.error.None? && nw.error.Some? ==> outcome == Aborted(nw.error.value))
      && (ex.error.None? && nw.error.None? ==>
            && IsReportOf(report, keys, nw.index, SelectedKeys(nw.index, ex.index, c))
            && outcome == (if report == [] then NothingToReport
                           else Written(header(report) + "\n" + Lines(report, toLine))))
  {
    report, keys := [], [];
    var existing := new ObservationIndex();
    var conflict := existing.LoadObservations(existingFiles, existingMatches, parse, truthy);
    if conflict.Some? {
      return Aborted(conflict.value), report, keys;
    }
    var newObservations := new ObservationIndex();
    conflict := newObservations.LoadObservations(newFiles, newMatches, parse, truthy);
    if conflict.Some? {
      return Aborted(conflict.value), report, keys;
    }
    report, keys := BuildReport(newObservations.buckets, existing.buckets, c);
    var contents := WriteReport(report, header, toLine);
    if contents.None? {
      return NothingToReport, report, keys;
    }
    return Written(contents.value), report, keys;
  }
}
