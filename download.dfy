/** The CheXpert archive manager of data/scripts/download.py: it makes sure the
    dataset archive sits in the raw directory under its canonical name,
    downloads it through the Kaggle command line when allowed, unpacks it,
    lifts the contents of a nested dataset directory up one level, and
    validates the resulting layout.

    The raw directory is a finite map from entry name to entry; the Kaggle
    command and the zip archive's contents are parameters, since both are
    I/O the manager does not control. */
module Download {
  import opened Text
  import opened Wrappers

  /** An entry directly under a directory: a file, or a directory with its own entries. */
  datatype Entry = File | Dir(children: map<string, Entry>)

  /** The canonical archive name the rest of the pipeline expects. */
  const ZipName: string := "chexpert.zip"
  /** The name a manual download from the Kaggle web page is saved under. */
  const ManualName: string := "archive.zip"
  /** Substring that marks a dataset directory in the raw directory, unpacked or
      already there (compared lower-cased). */
  const DatasetTag: string := "chexpert"
  const DirsToCheck: seq<string> := ["train", "valid"]
  const FilesToCheck: seq<string> := ["train.csv", "valid.csv"]

  /** What the external `kaggle datasets download` command does: the executable
      is missing, it exits with a non-zero status, or it succeeds after writing
      some entries into the raw directory. */
  datatype KaggleOutcome = CliNotFound | CliFailed | CliSucceeded(written: map<string, Entry>)

  /** What opening the archive yields: a corrupt zip, or its members, each a
      top-level name with the entry that unpacking it produces. */
  datatype Archive = Corrupt | Members(members: seq<(string, Entry)>)

  /** How `run` ends: it stops early because the archive was already there,
      it exits the process with a status code, or it reports the outcome of
      extraction. */
  datatype RunOutcome = ArchivePresent | Exit(code: int) | Finished(success: bool)

  /** The raw directory after the filename fix: a manual `archive.zip` is renamed
      to `chexpert.zip` unless the canonical archive already exists. */
  function Normalized(raw: map<string, Entry>): (r: map<string, Entry>)
    ensures ZipName in r <==> ZipName in raw || ManualName in raw
    ensures ZipName !in raw && ManualName in raw ==> ManualName !in r && r[ZipName] == raw[ManualName]
    ensures ZipName in raw || ManualName !in raw ==> r == raw
    ensures forall k :: k != ZipName && k != ManualName ==> (k in r <==> k in raw)
    ensures forall k :: k in r && k != ZipName ==> k in raw && r[k] == raw[k]
  {
    if ZipName !in raw && ManualName in raw then (raw - {ManualName})[ZipName := raw[ManualName]] else raw
  }

  /** A second filename fix changes nothing, and reports the same result as the first. */
  lemma NormalizedIdempotent(raw: map<string, Entry>)
    ensures Normalized(Normalized(raw)) == Normalized(raw)
    ensures (ZipName in Normalized(Normalized(raw))) == (ZipName in Normalized(raw))
  {
  }

  /** The layout check: every required directory and file name is present
      directly under the raw directory, whatever its kind. */
  predicate StructureValid(raw: map<string, Entry>)
  {
    (forall d :: d in DirsToCheck ==> d in raw) && (forall f :: f in FilesToCheck ==> f in raw)
  }

  /** The check spelled out name by name: it needs all four names, and nothing else. */
  lemma StructureValidNames(raw: map<string, Entry>)
    ensures StructureValid(raw) <==> "train" in raw && "valid" in raw && "train.csv" in raw && "valid.csv" in raw
  {
  }

  /** Extra entries never make a valid layout invalid, and only names matter. */
  lemma StructureValidMonotone(raw: map<string, Entry>, more: map<string, Entry>)
    requires raw.Keys <= more.Keys
    ensures StructureValid(raw) ==> StructureValid(more)
  {
  }

  /** A top-level directory whose lower-cased name contains "chexpert". */
  predicate IsNestedCandidate(name: string, e: Entry) {
    e.Dir? && HasSubstring(Lower(name), DatasetTag)
  }

  predicate HasNestedCandidate(raw: map<string, Entry>) {
    exists n :: n in raw && IsNestedCandidate(n, raw[n])
  }

  /** Moving the children of directory `n` up would hit an existing name. */
  predicate MoveCollides(raw: map<string, Entry>, n: string)
    requires n in raw && raw[n].Dir?
  {
    exists k :: k in raw[n].children && k in raw
  }

  /** The raw directory once every child of `n` has been moved up into it and
      `n` itself removed. */
  function Flattened(raw: map<string, Entry>, n: string): (r: map<string, Entry>)
    requires n in raw && raw[n].Dir? && !MoveCollides(raw, n)
    ensures n !in r
    ensures r.Keys == (raw.Keys - {n}) + raw[n].children.Keys
    ensures forall k :: k in raw[n].children ==> r[k] == raw[n].children[k]
    ensures forall k :: k in raw && k != n ==> r[k] == raw[k]
  {
    (raw - {n}) + raw[n].children
  }

  /** A nested directory that holds the whole expected layout validates once flattened. */
  lemma FlattenedNestedLayoutIsValid(raw: map<string, Entry>, n: string)
    requires n in raw && raw[n].Dir? && !MoveCollides(raw, n)
    requires StructureValid(raw[n].children)
    ensures StructureValid(Flattened(raw, n))
  {
  }

  /** No member of the archive is named `k`. */
  predicate NotUnpacked(members: seq<(string, Entry)>, k: string) {
    forall j :: 0 <= j < |members| ==> members[j].0 != k
  }

  /** Member `j` is the last one of its name, so its entry is the one that stays. */
  predicate LastOfName(members: seq<(string, Entry)>, j: int)
    requires 0 <= j < |members|
  {
    forall j' :: j < j' < |members| ==> members[j'].0 != members[j].0
  }

  /** The raw directory after unpacking `members` in order; a later member
      replaces an earlier entry of the same name. */
  function Extracted(raw: map<string, Entry>, members: seq<(string, Entry)>): (r: map<string, Entry>)
    ensures r.Keys == raw.Keys + set j | 0 <= j < |members| :: members[j].0
    decreases |members|
  {
    if members == [] then raw
    else
      var last := members[|members| - 1];
      var r := Extracted(raw, members[..|members| - 1])[last.0 := last.1];
      assert forall j :: 0 <= j < |members| - 1 ==> members[..|members| - 1][j] == members[j];
      r
  }

  /** Unpacking leaves an entry that no member names as it was. */
  lemma {:induction false} ExtractedKeeps(raw: map<string, Entry>, members: seq<(string, Entry)>, k: string)
    requires k in raw && NotUnpacked(members, k)
    ensures k in Extracted(raw, members) && Extracted(raw, members)[k] == raw[k]
    decreases |members|
  {
    if members != [] {
      var init := members[..|members| - 1];
      assert forall j :: 0 <= j < |init| ==> init[j] == members[j];
      ExtractedKeeps(raw, init, k);
    }
  }

  /** A name that members carry ends up with the entry of the last member of that name. */
  lemma {:induction false} ExtractedLastWins(raw: map<string, Entry>, members: seq<(string, Entry)>, j: int)
    requires 0 <= j < |members| && LastOfName(members, j)
    ensures members[j].0 in Extracted(raw, members) && Extracted(raw, members)[members[j].0] == members[j].1
    decreases |members|
  {
    var init := members[..|members| - 1];
    if j < |init| {
      assert forall i :: 0 <= i < |init| ==> init[i] == members[i];
      assert members[|members| - 1].0 != members[j].0;
      assert LastOfName(init, j);
      ExtractedLastWins(raw, init, j);
    }
  }

  /** What `extract_and_organize` does to the raw directory `before`, giving
      `after` and the result `ok`, where `nested` is the dataset directory it
      chose to flatten, if any: a valid layout is kept as it is; a missing or
      corrupt archive fails with no change; otherwise the archive is unpacked,
      and when some directory (unpacked or already there) carries the dataset
      tag, one such directory is flattened. Success always means a valid layout. */
  ghost predicate ExtractionOutcome(before: map<string, Entry>, archive: Archive, after: map<string, Entry>,
                                    ok: bool, nested: Option<string>)
  {
    && (ok ==> StructureValid(after))
    && (StructureValid(before) ==> ok && after == before && nested == None)
    && (!StructureValid(before) && (ZipName !in before || archive.Corrupt?) ==>
          !ok && after == before && nested == None)
    && (!StructureValid(before) && ZipName in before && archive.Members? ==>
          var mid := Extracted(before, archive.members);
          && (nested.None? <==> !HasNestedCandidate(mid))
          && (nested.None? ==> after == mid && ok == StructureValid(mid))
          && (nested.Some? ==>
                var n := nested.value;
                && n in mid && IsNestedCandidate(n, mid[n])
                && (forall k :: k in mid && k != n ==> k in after && after[k] == mid[k])
                && (!MoveCollides(mid, n) ==> after == Flattened(mid, n) && ok == StructureValid(after))
                && (MoveCollides(mid, n) ==> !ok)))
  }

  /** The moves are under way: `rest` holds the children of `n` not yet moved,
      `fs` holds every untouched entry of `raw`, the moved children, and `n`
      with the children still left in it. */
  predicate Moving(raw: map<string, Entry>, n: string, rest: map<string, Entry>, fs: map<string, Entry>)
    requires n in raw && raw[n].Dir?
  {
    var children := raw[n].children;
    && rest.Keys <= children.Keys
    && (forall k :: k in rest ==> rest[k] == children[k])
    && n in fs && fs[n] == Dir(rest)
    && (forall k :: k in children && k !in rest ==> k in fs && fs[k] == children[k] && k !in raw)
    && (forall k :: k in raw && k != n ==> k in fs && fs[k] == raw[k])
    && fs.Keys == raw.Keys + (children.Keys - rest.Keys)
  }

  /** Moving child `k` up keeps the moves consistent, unless its name is taken,
      which is then a collision in the original directory. */
  lemma MoveOne(raw: map<string, Entry>, n: string, rest: map<string, Entry>, fs: map<string, Entry>, k: string)
    requires n in raw && raw[n].Dir? && Moving(raw, n, rest, fs) && k in rest
    ensures k in fs ==> MoveCollides(raw, n)
    ensures k !in fs ==> Moving(raw, n, rest - {k}, fs[k := rest[k]][n := Dir(rest - {k})])
  {
    var children := raw[n].children;
    if k in fs {
      assert k in children && k in raw;
    } else {
      var rest', fs' := rest - {k}, fs[k := rest[k]][n := Dir(rest - {k})];
      assert k != n && k !in raw && rest[k] == children[k];
      assert fs'.Keys == raw.Keys + (children.Keys - rest'.Keys);
    }
  }

  /** Once no child is left, removing `n` leaves exactly the flattened directory. */
  lemma AllMovedIsFlattened(raw: map<string, Entry>, n: string, fs: map<string, Entry>)
    requires n in raw && raw[n].Dir? && Moving(raw, n, map[], fs)
    ensures !MoveCollides(raw, n)
    ensures fs - {n} == Flattened(raw, n)
  {
  }

  /** The dataset manager, holding the entries of its raw directory. */
  class Manager {
    const useKaggle: bool
    var raw: map<string, Entry>

    /** The raw directory is created if absent; whatever it already held stays. */
    constructor (useKaggle: bool, existing: map<string, Entry>)
      ensures this.useKaggle == useKaggle && raw == existing
    {
      this.useKaggle := useKaggle;
      raw := existing;
    }

    /** Renames a manual download to the canonical name and reports whether
        the canonical archive is now present. */
    method CheckAndFixFilenames() returns (present: bool)
      modifies this
      ensures raw == Normalized(old(raw))
      ensures present <==> ZipName in old(raw) || ManualName in old(raw)
      ensures present == (ZipName in raw)
    {
      if ZipName !in raw && ManualName in raw {
        raw := (raw - {ManualName})[ZipName := raw[ManualName]];
        return true;
      }
      present := ZipName in raw;
    }

    /** Downloads the archive with the Kaggle command unless it is already
        there or Kaggle use is switched off; `invoked` tells whether the
        external command ran. */
    method DownloadKaggle(cli: KaggleOutcome) returns (ok: bool, invoked: bool)
      modifies this
      ensures ZipName in old(raw) ==> ok && !invoked && raw == old(raw)
      ensures ZipName !in old(raw) ==> invoked == useKaggle
      ensures !invoked ==> raw == old(raw) && ok == (ZipName in old(raw))
      ensures invoked ==> ok == cli.CliSucceeded?
      ensures invoked ==> raw == if cli.CliSucceeded? then Normalized(old(raw) + cli.written) else old(raw)
    {
      if ZipName in raw {
        return true, false;
      }
      if !useKaggle {
        return false, false;
      }
      invoked := true;
      match cli
      case CliSucceeded(written) =>
        raw := raw + written;
        var _ := CheckAndFixFilenames();
        ok := true;
      case CliFailed =>
        ok := false;
      case CliNotFound =>
        ok := false;
    }

    /** Collects the required names that are absent and reports whether none are. */
    method ValidateStructure() returns (valid: bool)
      ensures valid <==> StructureValid(raw)
    {
      var missing: seq<string> := [];
      var i := 0;
      while i < |DirsToCheck|
        invariant 0 <= i <= |DirsToCheck|
        invariant forall m :: m in missing ==> m !in raw
        invariant missing == [] <==> forall j :: 0 <= j < i ==> DirsToCheck[j] in raw
      {
        if DirsToCheck[i] !in raw {
          missing := missing + [DirsToCheck[i]];
        }
        i := i + 1;
      }
      var dirsMissing := missing;
      i := 0;
      while i < |FilesToCheck|
        invariant 0 <= i <= |FilesToCheck|
        invariant forall m :: m in missing ==> m !in raw
        invariant missing == [] <==> dirsMissing == [] && forall j :: 0 <= j < i ==> FilesToCheck[j] in raw
      {
        if FilesToCheck[i] !in raw {
          missing := missing + [FilesToCheck[i]];
        }
        i := i + 1;
      }
      valid := missing == [];
    }

    /** Unpacks every member of the archive into the raw directory, in order. */
    method ExtractMembers(members: seq<(string, Entry)>)
      modifies this
      ensures raw == Extracted(old(raw), members)
    {
      var i := 0;
      while i < |members|
        invariant 0 <= i <= |members|
        invariant raw == Extracted(old(raw), members[..i])
      {
        assert members[..i + 1][..i] == members[..i];
        raw := raw[members[i].0 := members[i].1];
        i := i + 1;
      }
      assert members[..i] == members;
    }

    /** Moves every child of directory `n` up into the raw directory and removes
        `n`. A child whose name already exists stops the moves with failure,
        leaving the moves made so far in place. */
    method MoveUp(n: string) returns (ok: bool)
      requires n in raw && raw[n].Dir?
      modifies this
      ensures ok <==> !MoveCollides(old(raw), n)
      ensures ok ==> raw == Flattened(old(raw), n)
      ensures forall k :: k in old(raw) && k != n ==> k in raw && raw[k] == old(raw)[k]
    {
      var fs := raw;
      var rest := raw[n].children;
      while rest != map[]
        invariant raw == old(raw)
        invariant Moving(old(raw), n, rest, fs)
        decreases |rest|
      {
        var k :| k in rest;
        MoveOne(old(raw), n, rest, fs, k);
        if k in fs {
          // shutil.move refuses an existing destination; the error is caught
          raw := fs;
          return false;
        }
        fs := fs[k := rest[k]][n := Dir(rest - {k})];
        rest := rest - {k};
      }
      AllMovedIsFlattened(old(raw), n, fs);
      raw := fs - {n};
      ok := true;
    }

    /** Unpacks the archive unless the layout already validates, then lifts the
        children of one nested dataset directory up into the raw directory.
        `nested` names the directory that was chosen, if any. */
    method ExtractAndOrganize(archive: Archive) returns (ok: bool, ghost nested: Option<string>)
      modifies this
      ensures ExtractionOutcome(old(raw), archive, raw, ok, nested)
    {
      nested := None;
      ok := ValidateStructure();
      if ok {
        return;
      }
      if ZipName !in raw {
        return false, None;
      }
      if archive.Corrupt? {
        return false, None;
      }
      ExtractMembers(archive.members);
      if !HasNestedCandidate(raw) {
        ok := ValidateStructure();
        return;
      }
      var n :| n in raw && IsNestedCandidate(n, raw[n]);
      nested := Some(n);
      var moved := MoveUp(n);
      if !moved {
        return false, nested;
      }
      ok := ValidateStructure();
    }

    /** The whole acquisition: fix the filename, and only when the canonical
        archive is still missing, download it (exiting with status 1 on
        failure) and extract it. */
    method Run(cli: KaggleOutcome, archive: Archive) returns (outcome: RunOutcome, ghost nested: Option<string>)
      modifies this
      ensures ZipName in Normalized(old(raw)) ==>
                outcome == ArchivePresent && raw == Normalized(old(raw)) && nested == None
      ensures ZipName !in Normalized(old(raw)) && !(useKaggle && cli.CliSucceeded?) ==>
                outcome == Exit(1) && raw == Normalized(old(raw)) && nested == None
      ensures ZipName !in Normalized(old(raw)) && useKaggle && cli.CliSucceeded? ==>
                var fetched := Normalized(Normalized(old(raw)) + cli.written);
                && outcome.Finished?
                && ExtractionOutcome(fetched, archive, raw, outcome.success, nested)
      ensures outcome == Finished(true) ==> StructureValid(raw)
    {
      nested := None;
      var _ := CheckAndFixFilenames();
      if ZipName !in raw {
        var success, _ := DownloadKaggle(cli);
        if !success {
          return Exit(1), None;
        }
        var ready;
        ready, nested := ExtractAndOrganize(archive);
        return Finished(ready), nested;
      }
      outcome := ArchivePresent;
    }
  }
}
