/** The CheXpert metadata splitter of data/scripts/preprocess.py: it rewrites
    each row's image path to drop the dataset-version prefix, derives the
    patient id from the path, writes the rows of the first ten patients (in
    order of first appearance) to test.csv, and the rows of a train/val
    partition of the patients to train.csv and val.csv, with missing cells
    filled with 0.

    As in the source, the train/val partition is drawn from ALL patients,
    the ten test patients included; the set of remaining patients is
    computed and never used. The seeded random splitter is a parameter
    assumed to return a partition of the patients it is given. */
module Preprocess {
  import opened Text
  import opened Wrappers

  /** One row of the source CSV: the image path and the other cells, each of
      which may be missing (NaN). */
  datatype Row = Row(path: string, cells: seq<Option<int>>)

  /** A row once its path is rewritten and its `patient_id` column added. */
  datatype Record = Record(path: string, patientId: string, cells: seq<Option<int>>)

  /** A row as written to a split file: no cell is missing any more. */
  datatype CleanRecord = CleanRecord(path: string, patientId: string, cells: seq<int>)

  /** Deriving the patient id failed (an IndexError in the source) at this row. */
  datatype ProcessError = NoPatientComponent(row: nat)

  /** The rows chosen for each split, before missing cells are filled. */
  datatype Selection = Selection(test: seq<Record>, train: seq<Record>, val: seq<Record>)

  const SmallPrefix: string := "CheXpert-v1.0-small/"
  const FullPrefix: string := "CheXpert-v1.0/"
  const SmallDirName: string := "CheXpert-v1.0-small"
  const SourceCsvName: string := "train.csv"
  /** How many patients, counted in order of first appearance, form the test split. */
  const TestPatientCount: nat := 10

  /** `dir / name` for the directories the preprocessor probes. */
  function JoinPath(dir: string, name: string): string {
    dir + "/" + name
  }

  /** Where the source CSV is read from: `train.csv` directly in the input
      directory, else inside `CheXpert-v1.0-small/`; `None` when neither
      exists, in which case the process exits with status 1. `present` is the
      set of paths that exist. */
  method LocateSourceCsv(inputDir: string, present: set<string>) returns (csvPath: Option<string>)
    ensures JoinPath(inputDir, SourceCsvName) in present ==> csvPath == Some(JoinPath(inputDir, SourceCsvName))
    ensures JoinPath(inputDir, SourceCsvName) !in present ==>
              csvPath == if JoinPath(JoinPath(inputDir, SmallDirName), SourceCsvName) in present
                         then Some(JoinPath(JoinPath(inputDir, SmallDirName), SourceCsvName)) else None
    ensures csvPath.Some? ==> csvPath.value in present
  {
    var candidate := JoinPath(inputDir, SourceCsvName);
    if candidate !in present {
      candidate := JoinPath(JoinPath(inputDir, SmallDirName), SourceCsvName);
    }
    if candidate !in present {
      return None;
    }
    csvPath := Some(candidate);
  }

  /** The path with a leading `CheXpert-v1.0-small/` or `CheXpert-v1.0/`
      removed, once and only at the start (the anchored regular expression
      `^CheXpert-v1\.0(-small)?/`). */
  function StripVersionPrefix(path: string): (r: string)
    ensures HasPrefix(path, SmallPrefix) ==> path == SmallPrefix + r
    ensures HasPrefix(path, FullPrefix) ==> path == FullPrefix + r
    ensures r == path <==> !HasPrefix(path, SmallPrefix) && !HasPrefix(path, FullPrefix)
    ensures |r| <= |path| && r == path[|path| - |r|..]
  {
    // the two prefixes differ at their fourteenth character, so at most one applies
    assert HasPrefix(path, SmallPrefix) ==> path[13] == '-';
    assert HasPrefix(path, FullPrefix) ==> path[13] == '/';
    if HasPrefix(path, SmallPrefix) then path[|SmallPrefix|..]
    else if HasPrefix(path, FullPrefix) then path[|FullPrefix|..]
    else path
  }

  /** A repeated prefix is stripped only once. */
  lemma StripVersionPrefixOnce(rest: string)
    ensures StripVersionPrefix(FullPrefix + FullPrefix + rest) == FullPrefix + rest
    ensures StripVersionPrefix(SmallPrefix + SmallPrefix + rest) == SmallPrefix + rest
  {
    var full := FullPrefix + (FullPrefix + rest);
    assert full[..|FullPrefix|] == FullPrefix && full[|FullPrefix|..] == FullPrefix + rest;
    assert FullPrefix + FullPrefix + rest == full;
    var small := SmallPrefix + (SmallPrefix + rest);
    assert small[..|SmallPrefix|] == SmallPrefix && small[|SmallPrefix|..] == SmallPrefix + rest;
    assert SmallPrefix + SmallPrefix + rest == small;
  }

  /** The second `/`-separated component of the path (`path.split('/')[1]`),
      or `None` when the path has no separator and so no second component. */
  function PatientId(path: string): (id: Option<string>)
    ensures id.Some? <==> '/' in path
    ensures id.Some? ==> '/' !in id.value
  {
    var parts := SplitOn(path, '/');
    if |parts| >= 2 then Some(parts[1]) else None
  }

  /** The patient id is exactly the text between the first separator and the
      next one (or the end of the path). */
  lemma {:induction false} PatientIdBetweenSeparators(path: string) returns (head: string, tail: string)
    requires '/' in path
    ensures '/' !in head
    ensures path == head + "/" + PatientId(path).value + tail
    ensures tail == [] || tail[0] == '/'
  {
    var parts := SplitOn(path, '/');
    head := parts[0];
    if |parts| == 2 {
      tail := [];
      assert JoinWith(parts[1..], '/') == parts[1];
    } else {
      tail := ['/'] + JoinWith(parts[2..], '/');
      assert parts[1..][1..] == parts[2..];
    }
  }

  /** Every path with its version prefix stripped (line 40). */
  function StripPaths(rows: seq<Row>): (out: seq<Row>)
    ensures |out| == |rows|
    ensures forall i :: 0 <= i < |rows| ==> out[i] == rows[i].(path := StripVersionPrefix(rows[i].path))
  {
    seq(|rows|, i requires 0 <= i < |rows| => rows[i].(path := StripVersionPrefix(rows[i].path)))
  }

  /** Adds the `patient_id` column (line 44), failing at the first row whose
      path has no second component. */
  function WithPatientIds(rows: seq<Row>): (res: Result<seq<Record>, ProcessError>)
    ensures res.Success? <==> forall i :: 0 <= i < |rows| ==> '/' in rows[i].path
    ensures res.Success? ==>
              && |res.value| == |rows|
              && forall i :: 0 <= i < |rows| ==>
                   && res.value[i].path == rows[i].path
                   && res.value[i].cells == rows[i].cells
                   && Some(res.value[i].patientId) == PatientId(rows[i].path)
    ensures res.Failure? ==>
              && res.error.row < |rows|
              && '/' !in rows[res.error.row].path
              && forall i :: 0 <= i < res.error.row ==> '/' in rows[i].path
    decreases |rows|
  {
    if rows == [] then Success([])
    else
      match PatientId(rows[0].path)
      case None => Failure(NoPatientComponent(0))
      case Some(id) =>
        match WithPatientIds(rows[1..])
        case Failure(e) => Failure(NoPatientComponent(e.row + 1))
        case Success(rest) => Success([Record(rows[0].path, id, rows[0].cells)] + rest)
  }

  /** The `patient_id` column. */
  function PatientIds(recs: seq<Record>): (ids: seq<string>)
    ensures |ids| == |recs|
    ensures forall i :: 0 <= i < |recs| ==> ids[i] == recs[i].patientId
  {
    seq(|recs|, i requires 0 <= i < |recs| => recs[i].patientId)
  }

  /** The distinct values of `s` in order of first appearance (pandas `unique()`). */
  function Distinct(s: seq<string>): (u: seq<string>)
    ensures forall i, j :: 0 <= i < j < |u| ==> u[i] != u[j]
    ensures forall x :: x in u <==> x in s
    ensures |u| <= |s|
    decreases |s|
  {
    if s == [] then []
    else
      var u := Distinct(s[..|s| - 1]);
      var x := s[|s| - 1];
      assert s == s[..|s| - 1] + [x];
      if x in u then u else u + [x]
  }

  /** The position of the first occurrence of `x` in `s`. */
  function FirstIndex(s: seq<string>, x: string): (i: nat)
    requires x in s
    ensures i < |s| && s[i] == x && x !in s[..i]
    decreases |s|
  {
    if s[0] == x then 0
    else
      var i := 1 + FirstIndex(s[1..], x);
      assert s[..i] == [s[0]] + s[1..][..i - 1];
      i
  }

  /** A first occurrence inside a prefix is the first occurrence in the whole. */
  lemma FirstIndexInPrefix(s: seq<string>, k: nat, x: string)
    requires k <= |s| && x in s[..k]
    ensures FirstIndex(s, x) == FirstIndex(s[..k], x)
  {
    var i, j := FirstIndex(s, x), FirstIndex(s[..k], x);
    assert s[..k][..j] == s[..j];
    assert s[j] == x;
    assert forall m :: 0 <= m < i ==> s[..i][m] == s[m];
    assert forall m :: 0 <= m < j ==> s[..j][m] == s[m];
  }

  /** `Distinct` lists the values in the order of their first appearance. */
  lemma {:induction false} DistinctInFirstAppearanceOrder(s: seq<string>)
    ensures forall i, j :: 0 <= i < j < |Distinct(s)| ==>
              FirstIndex(s, Distinct(s)[i]) < FirstIndex(s, Distinct(s)[j])
    decreases |s|
  {
    if s != [] {
      var p := s[..|s| - 1];
      var x := s[|s| - 1];
      DistinctInFirstAppearanceOrder(p);
      var u, v := Distinct(p), Distinct(s);
      assert p == s[..|s| - 1];
      forall y | y in u ensures FirstIndex(s, y) == FirstIndex(p, y) < |p| {
        FirstIndexInPrefix(s, |s| - 1, y);
      }
      if x !in u {
        assert x !in p;
        assert FirstIndex(s, x) == |s| - 1;
        assert v == u + [x];
      }
      forall i, j | 0 <= i < j < |v|
        ensures FirstIndex(s, v[i]) < FirstIndex(s, v[j])
      {
        assert v[i] == u[i];
        if j < |u| {
          assert v[j] == u[j];
        }
      }
    }
  }

  /** The distinct values of a prefix are a prefix of the distinct values. */
  lemma {:induction false} DistinctOfPrefix(s: seq<string>, k: nat)
    requires k <= |s|
    ensures |Distinct(s[..k])| <= |Distinct(s)|
    ensures Distinct(s)[..|Distinct(s[..k])|] == Distinct(s[..k])
    decreases |s|
  {
    if k < |s| {
      var p := s[..|s| - 1];
      DistinctOfPrefix(p, k);
      assert p[..k] == s[..k];
    } else {
      assert s[..k] == s;
    }
  }

  lemma TakeOneMore(s: seq<string>, k: nat)
    requires k < |s|
    ensures s[..k + 1] == s[..k] + [s[k]]
  {
  }

  /** A value not seen before is appended to the distinct values. */
  lemma DistinctAppendNew(p: seq<string>, x: string)
    requires x !in p
    ensures Distinct(p + [x]) == Distinct(p) + [x]
  {
    var q := p + [x];
    assert q[..|q| - 1] == p;
  }

  /** A value sits in `Distinct(s)` at the number of distinct values seen
      before its first appearance. */
  lemma DistinctPosition(s: seq<string>, x: string)
    requires x in s
    ensures |Distinct(s[..FirstIndex(s, x)])| < |Distinct(s)|
    ensures Distinct(s)[|Distinct(s[..FirstIndex(s, x)])|] == x
  {
    DistinctPositionAt(s, FirstIndex(s, x));
  }

  lemma DistinctPositionAt(s: seq<string>, f: nat)
    requires f < |s| && s[f] !in s[..f]
    ensures |Distinct(s[..f])| < |Distinct(s)|
    ensures Distinct(s)[|Distinct(s[..f])|] == s[f]
  {
    var x := s[f];
    var d, all := Distinct(s[..f]), Distinct(s);
    TakeOneMore(s, f);
    DistinctAppendNew(s[..f], x);
    DistinctOfPrefix(s, f + 1);
    assert all[..|d| + 1] == d + [x];
    assert all[..|d| + 1][|d|] == x;
  }

  /** The ids of the test patients: the first ten (or all, when fewer). */
  function TestPatients(patients: seq<string>): (t: seq<string>)
    ensures |t| == if |patients| < TestPatientCount then |patients| else TestPatientCount
    ensures t == patients[..|t|]
  {
    patients[..if |patients| < TestPatientCount then |patients| else TestPatientCount]
  }

  /** A patient is a test patient exactly when fewer than ten distinct
      patients appear before its first row. */
  lemma TestPatientsAreFirstTen(ids: seq<string>, x: string)
    requires x in ids
    ensures x in TestPatients(Distinct(ids)) <==> |Distinct(ids[..FirstIndex(ids, x)])| < TestPatientCount
  {
    var u := Distinct(ids);
    var t := TestPatients(u);
    var k := |Distinct(ids[..FirstIndex(ids, x)])|;
    DistinctPosition(ids, x);
    if k < TestPatientCount {
      assert t[k] == x;
    }
    if x in t {
      var i :| 0 <= i < |t| && t[i] == x;
      assert u[i] == u[k];
    }
  }

  /** The rows whose patient is one of `ids`, in their original order (`isin`). */
  function RowsOf(recs: seq<Record>, ids: seq<string>): (out: seq<Record>)
    ensures |out| <= |recs|
    ensures forall r :: r in out <==> r in recs && r.patientId in ids
    decreases |recs|
  {
    if recs == [] then []
    else (if recs[0].patientId in ids then [recs[0]] else []) + RowsOf(recs[1..], ids)
  }

  /** Filtering distributes over concatenation, so it keeps the rows' relative order. */
  lemma {:induction false} RowsOfConcat(a: seq<Record>, b: seq<Record>, ids: seq<string>)
    ensures RowsOf(a + b, ids) == RowsOf(a, ids) + RowsOf(b, ids)
    decreases |a|
  {
    if a == [] {
      assert a + b == b;
    } else {
      assert (a + b)[0] == a[0];
      assert (a + b)[1..] == a[1..] + b;
      RowsOfConcat(a[1..], b, ids);
    }
  }

  /** The number of rows of patient `p`. */
  function CountOf(recs: seq<Record>, p: string): nat
    decreases |recs|
  {
    if recs == [] then 0 else (if recs[0].patientId == p then 1 else 0) + CountOf(recs[1..], p)
  }

  /** A split holds every row of a chosen patient and no row of any other. */
  lemma {:induction false} RowsOfKeepsWholePatients(recs: seq<Record>, ids: seq<string>, p: string)
    ensures CountOf(RowsOf(recs, ids), p) == if p in ids then CountOf(recs, p) else 0
    decreases |recs|
  {
    if recs != [] {
      RowsOfKeepsWholePatients(recs[1..], ids, p);
      var head := if recs[0].patientId in ids then [recs[0]] else [];
      assert RowsOf(recs, ids) == head + RowsOf(recs[1..], ids);
      CountOfConcat(head, RowsOf(recs[1..], ids), p);
    }
  }

  lemma {:induction false} CountOfConcat(a: seq<Record>, b: seq<Record>, p: string)
    ensures CountOf(a + b, p) == CountOf(a, p) + CountOf(b, p)
    decreases |a|
  {
    if a == [] {
      assert a + b == b;
    } else {
      assert (a + b)[0] == a[0];
      assert (a + b)[1..] == a[1..] + b;
      CountOfConcat(a[1..], b, p);
    }
  }

  /** `train` and `val` split the patient list `u` with no patient in both. */
  predicate IsPartition(u: seq<string>, train: seq<string>, val: seq<string>) {
    && (forall x :: x in train ==> x in u && x !in val)
    && (forall x :: x in val ==> x in u)
    && (forall x :: x in u ==> x in train || x in val)
  }

  /** The assumption on the seeded random splitter: it partitions whatever it is given. */
  ghost predicate SplitsPartition(splitter: seq<string> -> (seq<string>, seq<string>)) {
    forall u :: IsPartition(u, splitter(u).0, splitter(u).1)
  }

  /** The rows of each split as `process` chooses them. */
  function Select(recs: seq<Record>, splitter: seq<string> -> (seq<string>, seq<string>)): Selection {
    var patients := Distinct(PatientIds(recs));
    var split := splitter(patients);
    Selection(RowsOf(recs, TestPatients(patients)), RowsOf(recs, split.0), RowsOf(recs, split.1))
  }

  /** The test split is every row of the first ten patients by first appearance. */
  lemma TestSplitIsFirstTenPatients(recs: seq<Record>, splitter: seq<string> -> (seq<string>, seq<string>), r: Record)
    requires r in recs
    ensures r.patientId in PatientIds(recs)
    ensures r in Select(recs, splitter).test <==>
              |Distinct(PatientIds(recs)[..FirstIndex(PatientIds(recs), r.patientId)])| < TestPatientCount
  {
    var ids := PatientIds(recs);
    var i :| 0 <= i < |recs| && recs[i] == r;
    assert ids[i] == r.patientId;
    TestPatientsAreFirstTen(ids, r.patientId);
  }

  /** Every row lands in exactly one of train and val, and a patient's rows
      all land in the same one of them. */
  lemma TrainValSplitByPatient(recs: seq<Record>, splitter: seq<string> -> (seq<string>, seq<string>), p: string)
    requires SplitsPartition(splitter)
    ensures forall r :: r in recs ==> (r in Select(recs, splitter).train <==> r !in Select(recs, splitter).val)
    ensures CountOf(Select(recs, splitter).train, p) + CountOf(Select(recs, splitter).val, p) == CountOf(recs, p)
    ensures CountOf(Select(recs, splitter).train, p) == 0 || CountOf(Select(recs, splitter).val, p) == 0
  {
    var ids := PatientIds(recs);
    var patients := Distinct(ids);
    var split := splitter(patients);
    assert IsPartition(patients, split.0, split.1);
    forall r | r in recs ensures r.patientId in patients {
      var i :| 0 <= i < |recs| && recs[i] == r;
      assert ids[i] == r.patientId;
    }
    RowsOfKeepsWholePatients(recs, split.0, p);
    RowsOfKeepsWholePatients(recs, split.1, p);
    if p !in patients {
      CountOfAbsent(recs, p);
    }
  }

  lemma {:induction false} CountOfAbsent(recs: seq<Record>, p: string)
    requires p !in PatientIds(recs)
    ensures CountOf(recs, p) == 0
    decreases |recs|
  {
    if recs != [] {
      assert PatientIds(recs)[0] == recs[0].patientId;
      assert PatientIds(recs[1..]) == PatientIds(recs)[1..];
      CountOfAbsent(recs[1..], p);
    }
  }

  /** The leak the source leaves in place: every row of the test split also
      appears in the train split or the val split. */
  lemma TestRowsAlsoInTrainOrVal(recs: seq<Record>, splitter: seq<string> -> (seq<string>, seq<string>))
    requires SplitsPartition(splitter)
    ensures forall r :: r in Select(recs, splitter).test ==>
              r in Select(recs, splitter).train || r in Select(recs, splitter).val
  {
    var patients := Distinct(PatientIds(recs));
    var split := splitter(patients);
    assert IsPartition(patients, split.0, split.1);
    forall r | r in Select(recs, splitter).test
      ensures r in Select(recs, splitter).train || r in Select(recs, splitter).val
    {
      assert r.patientId in TestPatients(patients);
    }
  }

  /** `fillna(0)`: every missing cell becomes 0 and every present one is kept. */
  function FillMissing(recs: seq<Record>): (out: seq<CleanRecord>)
    ensures |out| == |recs|
    ensures forall i :: 0 <= i < |recs| ==>
              && out[i].path == recs[i].path
              && out[i].patientId == recs[i].patientId
              && |out[i].cells| == |recs[i].cells|
    ensures forall i, j :: 0 <= i < |recs| && 0 <= j < |recs[i].cells| && recs[i].cells[j].None? ==>
              out[i].cells[j] == 0
    ensures forall i, j :: 0 <= i < |recs| && 0 <= j < |recs[i].cells| && recs[i].cells[j].Some? ==>
              out[i].cells[j] == recs[i].cells[j].value
  {
    seq(|recs|, i requires 0 <= i < |recs| =>
      CleanRecord(recs[i].path, recs[i].patientId,
                  seq(|recs[i].cells|, j requires 0 <= j < |recs[i].cells| => recs[i].cells[j].GetOr(0))))
  }

  /** The preprocessor, holding the files it has written to its output directory. */
  class Preprocessor {
    const csvPath: string
    var outputs: map<string, seq<CleanRecord>>

    /** The output directory is created if absent; files already in it stay. */
    constructor (csvPath: string, existing: map<string, seq<CleanRecord>>)
      ensures this.csvPath == csvPath && outputs == existing
    {
      this.csvPath := csvPath;
      outputs := existing;
    }

    /** Writes `df` with its missing cells filled to `filename`. */
    method SaveSplit(df: seq<Record>, filename: string)
      modifies this
      ensures outputs == old(outputs)[filename := FillMissing(df)]
    {
      var clean := FillMissing(df);
      outputs := outputs[filename := clean];
    }

    /** Splits the rows read from `csvPath` (`source`) into test.csv,
        train.csv and val.csv; nothing is written when a path has no
        patient component. */
    method Process(source: seq<Row>, splitter: seq<string> -> (seq<string>, seq<string>))
      returns (err: Option<ProcessError>)
      modifies this
      ensures WithPatientIds(StripPaths(source)).Failure? ==>
                err == Some(WithPatientIds(StripPaths(source)).error) && outputs == old(outputs)
      ensures WithPatientIds(StripPaths(source)).Success? ==>
                var sel := Select(WithPatientIds(StripPaths(source)).value, splitter);
                && err == None
                && outputs == old(outputs)["test.csv" := FillMissing(sel.test)]
                                          ["train.csv" := FillMissing(sel.train)]
                                          ["val.csv" := FillMissing(sel.val)]
    {
      var df := StripPaths(source);
      var tagged := WithPatientIds(df);
      if tagged.Failure? {
        return Some(tagged.error);
      }
      var recs := tagged.value;
      var patients := Distinct(PatientIds(recs));
      var testIds := TestPatients(patients);
      SaveSplit(RowsOf(recs, testIds), "test.csv");
      // computed as in the source, and never used
      var remaining := (set x | x in patients) - (set x | x in testIds);
      var split := splitter(patients);
      SaveSplit(RowsOf(recs, split.0), "train.csv");
      SaveSplit(RowsOf(recs, split.1), "val.csv");
      err := None;
    }
  }
}
