# Pneumonia detector: verified model of the data-preparation pipeline

The training script `Model/ModelTraining/Model.py` prepares the chest X-ray images
before any learning happens. This project models that preparation in Dafny and proves
what each step guarantees:

- **Duplicate detection and removal** (`duplicate_data_check`, `remove_duplicates`).
  One pass in listing order computes a perceptual hash per `.jpeg` file. A registry maps
  each hash to the first file seen with it. A later file with a registered hash is a
  duplicate: it is counted, or it is counted and deleted.
- **Consolidation** (`move_images`). Every `.jpeg` file of a source class directory is
  copied into a destination class directory. The destination is created when absent, and
  a file of the same name is overwritten.
- **Indexing** (`creating_dataframe`). A two-column table of image paths and labels:
  every `.jpeg` file of `NORMAL` with label 0, then every `.jpeg` file of `PNEUMONIA`
  with label 1.
- **Flattening and reshaping** (`flatten_images`, `reshape_images`). A batch of
  `h x w x c` images becomes one row of `h * w * c` values per image for the
  oversampler, and the rows are regrouped into images afterwards, in `numpy`'s row-major
  order.

Modules, one file each:

| file | module | models |
|---|---|---|
| `outcomes.dfy` | `Outcomes` | the exceptions the steps can raise, as an `Outcome` value |
| `filesystem.dfy` | `FileSystems` | directories, `os.listdir`, the `.jpeg` filter, `os.path.join`, `os.makedirs` |
| `dedup.dfy` | `Dedup` | `duplicate_data_check`, `remove_duplicates` |
| `consolidation.dfy` | `Consolidation` | `move_images` |
| `indexing.dfy` | `Indexing` | `creating_dataframe` |
| `tensors.dfy` | `Tensors` | `flatten_images`, `reshape_images` |

How the environment is represented:

- **File system.** A `FileSystem<C>` object holds a map from directory path to that
  directory's entries, and each entry maps a file name to its contents `C`. Paths are
  compared as canonical strings and built by POSIX `os.path.join`. The steps that change files (`RemoveDuplicates`,
  `MoveImages`) are methods that modify this object.
- **Listing order.** `os.listdir` returns the entries in an order the operating system
  chooses. Each step therefore takes that order as a parameter `order`. Its precondition
  `IsListing` says `order` names every entry of the directory exactly once. Every
  property holds for every such order.
- **Perceptual hash.** `imagehash.average_hash` after PIL decoding is a parameter
  `hash: C -> H`, an arbitrary function of a file's contents. Nothing is assumed about it
  beyond being a function.
- **Printed counts.** The two duplicate functions print their count and return `None`.
  The model returns the printed count as the method's result.
- **Exceptions.** The exceptions modelled, each as an `Err` outcome, are:
  - `FileNotFound`: `os.listdir` of a missing directory, and `os.makedirs('')`.
  - `SameFile`: `shutil.copyfile` with identical source and destination.
  - `CannotReshape`: a `numpy` reshape that cannot be filled.

Three facts about the code shape every step:

- The table always lists the `NORMAL` rows first, then the `PNEUMONIA` rows.
- The listing order is whatever `os.listdir` returns.
- Only names ending in `.jpeg` are processed; every other entry is skipped.

## Model

| member | source | states |
|---|---|---|
| `FileSystems.Join` | Model/ModelTraining/Model.py:63-64 | `os.path.join(a, b)`: the result ends with `b`, and for a relative `b` it starts with `a` |
| `FileSystems.JoinInjective` | Model/ModelTraining/Model.py:107 | joining one directory with two different relative names gives two different paths |
| `FileSystems.MakeDirs` | Model/ModelTraining/Model.py:58-59 | the empty path never exists and `os.makedirs('')` raises `FileNotFoundError`, exactly then; otherwise the directory exists afterwards, it is empty if it was absent, and every existing directory is unchanged |
| `FileSystems.IsJpeg` | Model/ModelTraining/Model.py:32 | the `.jpeg` filter `f.endswith('.jpeg')` used at lines 32, 62, 78, 106 and 113: the name ends in the five characters `.jpeg` |
| `FileSystems.JpegNames` | Model/ModelTraining/Model.py:32 | the filtered list holds exactly the listed names that end in `.jpeg`, and no more names than the listing |
| `FileSystems.JpegNamesAppend` | Model/ModelTraining/Model.py:32 | filtering a concatenation is the concatenation of the filtered parts |
| `FileSystems.JpegNamesDistinct` | Model/ModelTraining/Model.py:78 | filtering a listing without repeated names gives a list without repeated names |
| `FileSystems.ListingJpegs` | Model/ModelTraining/Model.py:78 | the `.jpeg` names of a listing are exactly the directory's `.jpeg` entries, each once, so their number is the directory's `.jpeg` count |
| `Dedup.Hashes` | Model/ModelTraining/Model.py:39-42 | the key set of `image_hashes`: the hashes of the files walked so far |
| `Dedup.HashesMembers` | Model/ModelTraining/Model.py:38-42 | a hash is registered after the pass exactly when some file of the pass has it |
| `Dedup.Survivors` | Model/ModelTraining/Model.py:39-42 | the files a pass registers are among the files it walks |
| `Dedup.Duplicates` | Model/ModelTraining/Model.py:39-40 | the files a pass counts as duplicates are among the files it walks |
| `Dedup.PassAdvance` | Model/ModelTraining/Model.py:38-42 | one loop step keeps the registry invariant: its keys are the hashes seen so far, each maps to the first file seen with it, and the counter equals the duplicates met so far |
| `Dedup.RemovalStep` | Model/ModelTraining/Model.py:86-90 | one removal step deletes the current file exactly when its hash was seen earlier, and leaves the directory otherwise unchanged |
| `Dedup.DuplicatesCount` | Model/ModelTraining/Model.py:34-42 | the registry has one entry per distinct hash, and duplicates plus distinct hashes equal the number of files walked |
| `Dedup.SurvivorHashes` | Model/ModelTraining/Model.py:39-42 | the registered files cover every hash that occurs |
| `Dedup.SurvivorsDistinctHashes` | Model/ModelTraining/Model.py:39-42 | no two registered files share a hash |
| `Dedup.SurvivorsHashInjective` | Model/ModelTraining/Model.py:86-90 | two different registered files have different hashes |
| `Dedup.SurvivorIsFirstSeen` | Model/ModelTraining/Model.py:86-90 | first seen wins: a file is kept exactly when no earlier file in listing order has its hash |
| `Dedup.SurvivorsAndDuplicatesPartition` | Model/ModelTraining/Model.py:86-90 | every `.jpeg` file is either kept or deleted, never both |
| `Dedup.NoDuplicatesWithDistinctHashes` | Model/ModelTraining/Model.py:39-42 | when no two files share a hash, nothing is counted and every file is registered |
| `Dedup.Deduplicated` | Model/ModelTraining/Model.py:78-90 | removal only deletes: every surviving entry is unchanged, and entries that are not `.jpeg` are all kept |
| `Dedup.DeduplicatedJpegs` | Model/ModelTraining/Model.py:80-90 | the `.jpeg` files left after removal are exactly the first-seen files of the pass |
| `Dedup.DeduplicatedHashesDistinct` | Model/ModelTraining/Model.py:86-90 | after removal no two `.jpeg` files of the directory have the same hash |
| `Dedup.DeduplicatedKeepsFirstSeen` | Model/ModelTraining/Model.py:86-90 | a listed `.jpeg` file survives removal exactly when no earlier listed `.jpeg` file has its hash |
| `Dedup.DeduplicatedCount` | Model/ModelTraining/Model.py:86-92 | files left equal the number of distinct hashes, and removed plus left equals the original `.jpeg` count |
| `Dedup.DeduplicatedIdempotent` | Model/ModelTraining/Model.py:74-92 | a second removal over the result, in any listing order, finds no duplicate and changes nothing |
| `Dedup.DuplicateDataCheck` | Model/ModelTraining/Model.py:28-44 | a missing directory raises `FileNotFoundError`; otherwise the reported total is the number of duplicates of the pass, which is the `.jpeg` count minus the number of distinct hashes, and nothing is changed |
| `Dedup.RemoveDuplicates` | Model/ModelTraining/Model.py:74-92 | a missing directory raises and changes nothing; otherwise exactly the duplicates of the pass are deleted from that directory, nothing else changes, and the count returned is the `.jpeg` count before minus the count after |
| `Consolidation.JpegEntries` | Model/ModelTraining/Model.py:61-62 | the copied entries are exactly the source's `.jpeg` files, with the source's contents |
| `Consolidation.Consolidated` | Model/ModelTraining/Model.py:61-65 | the destination afterwards has its old names plus the source's `.jpeg` names; a copied name has the source's contents and any other keeps its old contents |
| `Consolidation.LaterCopyWins` | Model/ModelTraining/Model.py:68-71 | when two sources holding the same `.jpeg` name are copied in turn, the later copy is the one left |
| `Consolidation.ConsolidatedIdempotent` | Model/ModelTraining/Model.py:61-65 | copying the same source a second time changes nothing |
| `Consolidation.ConsolidatedCount` | Model/ModelTraining/Model.py:68-71 | the `.jpeg` count afterwards is the two counts added, minus the names they share: files with colliding names are lost silently |
| `Consolidation.NoJpegsConsolidated` | Model/ModelTraining/Model.py:61-62 | a source without `.jpeg` files leaves the destination as it was |
| `Consolidation.FirstJpeg` | Model/ModelTraining/Model.py:61-62 | a `.jpeg` name at position `i` of the listing with no `.jpeg` name before it is the first name of the filtered listing |
| `Consolidation.CopyAdvance` | Model/ModelTraining/Model.py:61-65 | one iteration of the copy loop: copying a `.jpeg` name into a different directory, and skipping any other name, keeps the destination equal to its old entries plus the source's `.jpeg` entries listed so far |
| `Consolidation.MoveImages` | Model/ModelTraining/Model.py:57-65 | an empty destination path raises `FileNotFoundError` from `os.makedirs` and changes nothing; otherwise the destination is created first; a missing source then raises `FileNotFoundError`; source equal to destination with a `.jpeg` file raises `SameFileError` at the first one; otherwise the destination becomes the consolidation of itself and the source; the source's contents and every other directory are unchanged |
| `Indexing.JoinAll` | Model/ModelTraining/Model.py:107-108 | one joined path per name, in order |
| `Indexing.JoinAllDistinct` | Model/ModelTraining/Model.py:107 | joining one directory with distinct relative names gives distinct paths |
| `Indexing.Frame` | Model/ModelTraining/Model.py:101-119 | both columns have one row per listed `.jpeg` name; the first rows are the `NORMAL` paths with label 0, and the remaining rows are the `PNEUMONIA` paths with label 1, each group in listing order |
| `Indexing.AppendRows` | Model/ModelTraining/Model.py:105-109 | one loop of the function (lines 105-109 and, the same with the other directory and label 1, 112-116): the two columns gain one joined path and one label per `.jpeg` name, in listing order, after the rows already there |
| `Indexing.AppendAdvance` | Model/ModelTraining/Model.py:105-109 | one iteration of the loop: a `.jpeg` name appends its joined path and the label, any other name appends nothing, and the columns stay equal to the rows of the names filtered so far |
| `Indexing.CreatingDataframe` | Model/ModelTraining/Model.py:101-119 | a missing `NORMAL` directory raises first, then a missing `PNEUMONIA` directory; otherwise the table is the frame of the two filtered listings |
| `Indexing.FrameSize` | Model/ModelTraining/Model.py:104-118 | the table has as many rows as the two directories have `.jpeg` files, and a row has label 0 exactly when it is among the first `NORMAL`-count rows |
| `Indexing.ListedName` | Model/ModelTraining/Model.py:105-106 | every `.jpeg` file of a directory appears in the filtered listing |
| `Indexing.NormalRow` | Model/ModelTraining/Model.py:107-109 | a listed `NORMAL` `.jpeg` name has a row with its path and label 0 |
| `Indexing.PneumoniaRow` | Model/ModelTraining/Model.py:114-116 | a listed `PNEUMONIA` `.jpeg` name has a row with its path and label 1 |
| `Indexing.FrameCoversImages` | Model/ModelTraining/Model.py:104-116 | every `.jpeg` file of either directory has a row with its path, labelled by the directory it is in |
| `Indexing.FrameRowsDistinct` | Model/ModelTraining/Model.py:104-116 | two rows with the same label name different files |
| `Indexing.FrameLabelsSorted` | Model/ModelTraining/Model.py:109-116 | the labels never decrease: all zeros, then all ones |
| `Tensors.Chunks` | Model/ModelTraining/Model.py:148 | the pieces of a cut are non-empty and no longer than the piece size |
| `Tensors.FlattenImages` | Model/ModelTraining/Model.py:144-145 | an empty batch raises, because `-1` cannot be inferred; otherwise there is one row per image, each of `h * w * c` values |
| `Tensors.ReshapeImages` | Model/ModelTraining/Model.py:147-148 | it raises exactly when `h * w * c` is zero or does not divide the number of values; otherwise the result is a batch of `(h, w, c)` images with exactly as many values as the input |
| `Tensors.RegroupShape` | Model/ModelTraining/Model.py:148 | values of a whole number of images regroup into exactly that many images of shape `(h, w, c)` |
| `Tensors.ReshapeImagesValues` | Model/ModelTraining/Model.py:147-148 | whenever the reshape succeeds, flattening its images one after another gives the input's values in their row-major order: every value is kept, none is moved |
| `Tensors.FlattenImage` | Model/ModelTraining/Model.py:145 | one image as its row of `numpy` C-order values: rows, then pixels, then channels |
| `Tensors.UnflattenImage` | Model/ModelTraining/Model.py:148 | one row of values cut back into pixels of `c` values and rows of `w` pixels, the inverse of `FlattenImage` |
| `Tensors.ConcatLength` | Model/ModelTraining/Model.py:145 | concatenating `n` pieces of length `k` gives `n * k` values |
| `Tensors.FlattenImageLength` | Model/ModelTraining/Model.py:145 | a flattened `(h, w, c)` image has `h * w * c` values |
| `Tensors.ConcatUniform` | Model/ModelTraining/Model.py:145 | concatenating rows of `c`-channel pixels gives `c`-channel pixels |
| `Tensors.ChunksOfProduct` | Model/ModelTraining/Model.py:148 | cutting `n * k` values into pieces of `k` gives exactly `n` pieces of length `k` |
| `Tensors.ConcatChunks` | Model/ModelTraining/Model.py:148 | joining the pieces of a cut gives the values back |
| `Tensors.ChunksConcat` | Model/ModelTraining/Model.py:145-148 | cutting the concatenation of pieces of length `k` gives those pieces back |
| `Tensors.ChunksUniform` | Model/ModelTraining/Model.py:148 | the pieces of a sequence of `c`-channel pixels hold `c`-channel pixels |
| `Tensors.UnflattenImageShape` | Model/ModelTraining/Model.py:148 | `h * w * c` values read back form an image of shape `(h, w, c)` |
| `Tensors.ConcatAt` | Model/ModelTraining/Model.py:145 | position `(i, j)` of pieces of length `k` lands at `i * k + j` of their concatenation |
| `Tensors.FlattenImageAt` | Model/ModelTraining/Model.py:145 | row-major order: value `(i, j, d)` of an image is at `(i * w + j) * c + d` of its row |
| `Tensors.FlattenImagesAt` | Model/ModelTraining/Model.py:144-145 | value `(i, j, d)` of image `n` is at `(i * w + j) * c + d` of row `n` of the flattened batch |
| `Tensors.UnflattenFlatten` | Model/ModelTraining/Model.py:145-148 | reading back a flattened image gives the image |
| `Tensors.FlattenUnflatten` | Model/ModelTraining/Model.py:145-148 | flattening an image read from values gives the values |
| `Tensors.ReshapeFlattenRoundTrip` | Model/ModelTraining/Model.py:156-163 | reshaping a flattened non-empty batch with the same, non-degenerate image shape gives the batch back |
| `Tensors.FlattenReshapeRoundTrip` | Model/ModelTraining/Model.py:160-163 | rows of exactly `h * w * c` values are regrouped into images that flatten back to the same rows: no value is lost or moved |

## Left out

- `unzip_file` (Model/ModelTraining/Model.py:17-25): archive extraction is I/O against a zip file and is not modelled.
- The perceptual hash itself (`imagehash.average_hash` after `Image.open`) is a foreign library call. It is the parameter `hash`, so every property holds for any hash function.
- Dedup.DuplicateDataCheck, Dedup.RemoveDuplicates: decoding failures of `Image.open` (a corrupt or non-image `.jpeg` file) are not modelled. The hash is taken to be defined on every file's contents.
- `process_image` (Model/ModelTraining/Model.py:137-141): `cv2` decoding and resizing and the floating-point division by 255 are foreign and floating-point code. The image values are an abstract element type.
- `train_test_split` (Model/ModelTraining/Model.py:125-126) and the label counts printed after it (129-134): unseeded randomness inside `sklearn`.
- SMOTE oversampling (Model/ModelTraining/Model.py:159-160) and the counts printed after it (170-172): random floating-point interpolation inside `imblearn`. The model only covers the flattening before it and the reshaping after it.
- The Keras model, its training, evaluation, plotting and saving (Model/ModelTraining/Model.py:180 to the end): machine-learning libraries and floating point.
- `Model/backend/app.py`: a Flask HTTP endpoint that loads the trained model and serves its predictions for uploaded images (lines 13, 22-41), which is network I/O and a machine-learning library.
- `Model/myapp/app.py`: a Flask HTTP endpoint that saves an uploaded file under `uploads/` (lines 8-20), which is network and disk I/O. `Model/model.py` only imports libraries.
- The top-level calls of the script (its fixed directory names and the order of the steps) are not modelled as a program. Each step is modelled on its own, for any directory.
- FileSystems.MakeDirs: `os.makedirs` also creates missing parent directories. Paths here are flat keys, so only the named directory is created.
- Consolidation.MoveImages: a sub-directory whose name ends in `.jpeg` would make `shutil.copyfile` fail. Directory entries here are files only.
- Consolidation.MoveImages: a destination path that names an existing regular file is not modelled. There `os.path.exists` holds, `os.makedirs` is skipped and the first `shutil.copyfile` raises `NotADirectoryError`. Paths here are keys of directories only, so such a path is treated as absent: an empty directory is created and the result is `Ok`.
- Consolidation.MoveImages, Dedup.DuplicateDataCheck, Dedup.RemoveDuplicates: `os.listdir('')` raises `FileNotFoundError`. The model lists a directory `""` if the map of directories has one. A real file system has none, and `MakeDirs` never creates one.
- Consolidation.MoveImages, Dedup.DuplicateDataCheck, Dedup.RemoveDuplicates, Indexing.CreatingDataframe: `os.listdir` of a path that names a regular file raises `NotADirectoryError` (Model/ModelTraining/Model.py:32, 61, 78, 105, 112). The model does not distinguish that path from a missing one and gives `FileNotFound`.
- Dedup.DuplicateDataCheck, Dedup.RemoveDuplicates: a sub-directory whose name ends in `.jpeg` would make `Image.open` raise (Model/ModelTraining/Model.py:37, 83). Directory entries here are files only, so the model hashes every `.jpeg` entry.
- Indexing.CreatingDataframe: a sub-directory of `NORMAL` or `PNEUMONIA` whose name ends in `.jpeg` gets a row in the source (Model/ModelTraining/Model.py:105-108, 112-115). Directory entries here are files only, so the model cannot represent it.
- Consolidation.MoveImages, Dedup.DuplicateDataCheck, Dedup.RemoveDuplicates, Indexing.CreatingDataframe: permission and other OS errors (a full disk, for example) are not modelled; every read, write, delete and directory creation is taken to succeed.
- Consolidation.MoveImages: `shutil.copyfile` also raises for two different spellings of one file (`./a` and `a`). Paths here are canonical strings, so only identical paths are the same file.
- Indexing.CreatingDataframe: the `pandas` frame's index and column types are not modelled, only its two columns as sequences.
- Tensors.FlattenImages, Tensors.ReshapeImages: a `numpy` array carries its own shape. Here a batch is nested sequences, and its `(h, w, c)` shape is a parameter with the precondition `IsBatch`.
