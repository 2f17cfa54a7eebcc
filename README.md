# CheXpert data preparation: a verified model

This project models the decision logic of a small CheXpert data-preparation
pipeline. It has two parts.

- **The archive manager** (`data/scripts/download.py`, module `Download`).
  The class `Manager` holds the raw directory as a finite map from entry
  name to `Entry` (a file, or a directory with its own entries). Its methods
  do what `CheXpertManager` does:
  - rename a manually downloaded `archive.zip` to `chexpert.zip`;
  - download the archive with the Kaggle command line unless it is already
    there or Kaggle is switched off;
  - unpack the archive unless the layout already validates;
  - lift the children of the first directory in the raw directory, unpacked
    or already there, whose lower-cased name contains `chexpert` up into the
    raw directory, then remove it;
  - check that `train`, `valid`, `train.csv` and `valid.csv` all exist;
  - run all of this in the order of `run`.
- **The metadata splitter** (`data/scripts/preprocess.py`, module `Preprocess`).
  Pure functions over rows do the splitting work:
  - strip the `CheXpert-v1.0-small/` or `CheXpert-v1.0/` prefix from each path;
  - take the patient id as the second `/` component of the path;
  - list the distinct patients in order of first appearance;
  - make the first ten of them the test split;
  - keep every row of a chosen patient in that patient's split;
  - fill every missing cell with 0.

  The class `Preprocessor` writes the three split files into its `outputs`
  map. `LocateSourceCsv` models the fallback search for the source CSV.

The Kaggle command, the contents of the zip file, the CSV contents, and the
seeded random train/val splitter are all parameters. The splitter is assumed
to return a partition of the patient list it is given.

Behaviour kept from the code as written:
- The train/val split is drawn from all patients, the ten test patients
  included. `TestRowsAlsoInTrainOrVal` proves that every test row also lands
  in train or val. The set of remaining patients is computed and never used.
- Flattening does not require exactly one dataset-named directory. It takes
  the first one it finds, whatever their number. The choice is modelled as
  an unspecified pick among the candidates.
- `run` extracts only in the branch where the archive was missing and has
  just been downloaded. An archive that is already present is never
  extracted by `run`: the outcome is `ArchivePresent`.
- Fewer than ten patients give a test split of all of them, not of ten.

## Model

| member | source | states |
|---|---|---|
| `Download.Normalized` | data/scripts/download.py:57-64 | `chexpert.zip` is present afterwards iff either archive name was present before; `archive.zip` is renamed only when `chexpert.zip` is absent; otherwise nothing changes; no other name is touched |
| `Download.NormalizedIdempotent` | data/scripts/download.py:51-64 | a second filename fix changes nothing and reports the same presence as the first |
| `Download.Manager.CheckAndFixFilenames` | data/scripts/download.py:51-64 | the new directory is the normalised one; the result is true iff `chexpert.zip` or `archive.zip` was present, which is iff `chexpert.zip` is present now |
| `Download.Manager.DownloadKaggle` | data/scripts/download.py:66-97 | an existing archive gives true without running the command; with Kaggle off and no archive it gives false without running it; otherwise the command runs, success writes its files and re-applies the filename fix and gives true, and a failed or missing command gives false and changes nothing |
| `Download.StructureValidNames` | data/scripts/download.py:31-32 | the layout is valid iff `train`, `valid`, `train.csv` and `valid.csv` are all present, whatever their kind |
| `Download.StructureValidMonotone` | data/scripts/download.py:140-157 | extra entries never turn a valid layout invalid |
| `Download.Manager.ValidateStructure` | data/scripts/download.py:140-157 | the loops that collect missing names return true iff the layout is valid |
| `Download.Extracted` | data/scripts/download.py:115-118 | after unpacking, the names present are the old ones plus every member's name |
| `Download.ExtractedKeeps` | data/scripts/download.py:115-118 | an entry that no member names keeps its old contents |
| `Download.ExtractedLastWins` | data/scripts/download.py:115-118 | each member name holds the entry of the last member of that name |
| `Download.Manager.ExtractMembers` | data/scripts/download.py:115-118 | the member loop leaves the directory as unpacking the members in order would |
| `Download.Flattened` | data/scripts/download.py:126-129 | the flattened directory no longer holds the nested directory; it holds its children with their entries and keeps every other entry |
| `Download.FlattenedNestedLayoutIsValid` | data/scripts/download.py:120-131 | a nested directory that holds the full expected layout validates once flattened |
| `Download.Manager.MoveUp` | data/scripts/download.py:126-129 | the moves succeed iff no child's name already exists, and then give the flattened directory; on a collision they fail, and no entry that was already there is lost |
| `Download.Manager.ExtractAndOrganize` | data/scripts/download.py:99-138 | a valid layout gives true with no change; a missing or corrupt archive gives false with no change; otherwise the archive is unpacked; with no dataset-named directory nothing moves; with one, one such directory is flattened; the result is the validator on the new state, or false on a move collision; true always means the layout is valid |
| `Download.Manager.Run` | data/scripts/download.py:159-174 | after the filename fix, a present archive ends the run with nothing extracted; a download that fails or is skipped exits with status 1 before any extraction; after a successful download the directory and the reported success are exactly what extraction gives on the fetched directory and the archive: a valid layout is kept, a corrupt or missing archive fails with no change, and otherwise the archive is unpacked, one dataset-named directory is flattened if there is one, and the validator decides; success always means the layout is valid |
| `Text.HasSubstringIffWindow` | data/scripts/download.py:120 | the substring test behind `"chexpert" in name` holds iff some window of the name equals the tag |
| `Text.Lower` | data/scripts/download.py:120 | lower-casing keeps the length, maps each ASCII capital to its small letter and leaves every other character alone |
| `Preprocess.LocateSourceCsv` | data/scripts/preprocess.py:26-33 | the source CSV is `train.csv` in the input directory when present, else the one under `CheXpert-v1.0-small/`, else there is none (exit status 1) |
| `Preprocess.StripVersionPrefix` | data/scripts/preprocess.py:40 | a leading `CheXpert-v1.0-small/` or `CheXpert-v1.0/` is removed; any other path is unchanged; the result is always a suffix of the path |
| `Preprocess.StripVersionPrefixOnce` | data/scripts/preprocess.py:40 | a doubled prefix is stripped only once |
| `Preprocess.StripPaths` | data/scripts/preprocess.py:40 | every row keeps its cells and gets its stripped path, in the same order |
| `Text.SplitOn` | data/scripts/preprocess.py:44 | splitting on `/` gives at least one part and no part contains `/`; joining the parts back gives the path; there are two or more parts iff the path has a `/` |
| `Preprocess.PatientId` | data/scripts/preprocess.py:44 | a patient id exists iff the path has a `/`, and it contains no `/` |
| `Preprocess.PatientIdBetweenSeparators` | data/scripts/preprocess.py:44 | the patient id is the text between the first `/` and the next `/` or the end of the path |
| `Preprocess.WithPatientIds` | data/scripts/preprocess.py:44 | every row gets its patient id, with path and cells kept, iff every path has a `/`; otherwise the error names the first row without one |
| `Preprocess.PatientIds` | data/scripts/preprocess.py:44 | the patient-id column holds each row's id at the row's position |
| `Preprocess.Distinct` | data/scripts/preprocess.py:46 | the distinct patient list has no duplicates and holds exactly the ids that occur |
| `Preprocess.DistinctInFirstAppearanceOrder` | data/scripts/preprocess.py:46 | the distinct patients are listed in the order of their first rows |
| `Preprocess.TestPatients` | data/scripts/preprocess.py:49 | the test ids are the first min(10, n) entries of the patient list |
| `Preprocess.TestPatientsAreFirstTen` | data/scripts/preprocess.py:46-49 | a patient is a test patient iff fewer than ten distinct patients appear before its first row |
| `Preprocess.RowsOf` | data/scripts/preprocess.py:50 | a row is kept iff its patient is chosen |
| `Preprocess.RowsOfConcat` | data/scripts/preprocess.py:50 | filtering distributes over concatenation, so rows keep their relative order |
| `Preprocess.RowsOfKeepsWholePatients` | data/scripts/preprocess.py:62-63 | a split holds every row of a chosen patient and no row of any other |
| `Preprocess.TestSplitIsFirstTenPatients` | data/scripts/preprocess.py:46-50 | a row is in the test split iff fewer than ten distinct patients appear before its patient's first row |
| `Preprocess.TrainValSplitByPatient` | data/scripts/preprocess.py:56-63 | given a partitioning splitter, every row is in exactly one of train and val, and each patient's rows all sit in the same one |
| `Preprocess.TestRowsAlsoInTrainOrVal` | data/scripts/preprocess.py:54-63 | since train and val are drawn from all patients, every test row also appears in train or val |
| `Preprocess.FillMissing` | data/scripts/preprocess.py:73 | row count, order, paths and patient ids are kept; every missing cell becomes 0 and every present cell is kept |
| `Preprocess.Preprocessor.SaveSplit` | data/scripts/preprocess.py:68-75 | the named output file holds the split with its missing cells filled; other files are unchanged |
| `Preprocess.Preprocessor.Process` | data/scripts/preprocess.py:35-66 | a path without a patient component writes nothing and reports the first such row; otherwise test.csv, train.csv and val.csv hold the filled test, train and val selections, and other files are unchanged |

## Left out

- `data/scripts/common.py`: logging setup and all log messages. They carry no decisions.
- The Kaggle command line is a `KaggleOutcome` parameter. A failed run that leaves partial files behind is not modelled; a failure changes nothing.
- Zip decoding and the progress bar. An archive is either `Corrupt` or a sequence of top-level members, and unpacking a member replaces any entry of the same name. Merging into an existing directory, nested member paths, and I/O errors partway through unpacking are not modelled.
- Directory listing order: the "first" dataset-named directory is any one of them, and the children are moved in an unspecified order.
- `Download.Manager.MoveUp`: after a collision the contract says only that the call failed and that entries already present are kept; which children were moved before the collision depends on listing order and is not stated.
- `Download.Manager.ExtractAndOrganize`: after a move collision the contract states only the failure and the kept entries, as for `MoveUp`.
- `Text.Lower`: Python's `str.lower` also lower-cases non-ASCII letters; only ASCII is modelled.
- Filesystem paths are strings joined with `/`; `Path` normalisation and the file-versus-directory kind of the probed CSV paths are not modelled.
- pandas I/O and cell types: a row is a path plus cells of type `Option<int>`, and non-numeric metadata columns are not modelled.
- The random splitter, with its 80/20 proportion and seed 42, is a function parameter assumed to return a partition of the patient list. The split sizes and the splitter's refusal of fewer than two patients are not modelled.
- The command-line entry points (`main`, argparse), the unused `yaml` import and `config_path`, `expected_size_gb`, and the directory creation in both constructors, beyond keeping existing contents.
- The dataset loader that reads the split files at training time is not part of this model.
