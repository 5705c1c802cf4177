# Component-map maintenance for the STL model repository

`tools/update_model_repo.py` keeps a standard library of 3D component models
(`.stl` files) in step with a working repository. It has two passes:

- **copy pass** (`copyUpdatedModels`): walks a source tree. Each model file is
  copied to the same relative path under the destination when the destination
  file is missing or differs from it.
- **map pass** (`updateMapFile`): loads the component map file, or starts with
  an empty map. It then walks the destination tree and records every model
  file under its model name, which is the file name without its extension. A
  new model name gets an entry `{"filename": <relative path>}`. A model name
  already in the map keeps its `filename` and any other keys of its entry. Any other path found for it is
  appended, at most once, to that entry's `duplicates` list. The map is then
  written back and its size reported.

Both passes choose model files the same way: `os.path.splitext` must give an
extension of exactly `.stl` or `.STL`.

The model is split into five modules:

- `PathText` (`path_text.dfy`) holds the pure string functions: `rfind`,
  `os.path.splitext` on POSIX paths, the extension filter and `os.path.join`.
  `SplitExt` is related to an independent description of a split point, and
  the filter is characterised for plain file names.
- `Walk` (`walk.dfy`) stands in for `os.walk`. The walk's result becomes a
  sequence of `(directory, file names)` pairs, and `Files` flattens it in the
  order the nested loops visit it.
- `ComponentMap` (`component_map.dfy`) is the map pass. `UpdateMapFile` keeps
  the source's nested loops over a local `map` value. It is proved against the
  specification function `Updated`, which folds the one-file step `Record`
  over the visited files. The lemmas state the pass's guarantees about
  `Updated`: no key is lost, `filename` never changes, duplicates stay clean,
  nothing is invented, the pass is idempotent and the count is exact.
- `ModelSync` (`model_sync.dfy`) is the copy pass. Directory trees are maps
  from relative path to content. `CopyUpdatedModels` is proved against the
  fold `Synced` and against the closed form `Mirrored` (the destination with
  every model file overwritten by its source). `WrittenExactly` says which
  paths are written.
- `Wrappers` (`wrappers.dfy`) holds `Option`. It marks a map file that does
  not exist and an entry without a `duplicates` key.

## Model

| member | source | states |
|---|---|---|
| `PathText.LastIndex` | tools/update_model_repo.py:17 | the `rfind` that `splitext` relies on: the result is -1 or an index holding the character, and no later index holds it |
| `PathText.SplitExtCharacterized` | tools/update_model_repo.py:17 | `splitext` gives a non-empty extension exactly when the path has a split point (a last dot, no separator after it, and a character other than `.` in the base name before it), and then splits the path there |
| `PathText.ModelFileByName` | tools/update_model_repo.py:17-19 | for a plain file name, the filter holds exactly when the name ends in `.stl` or `.STL` after at least one character that is not a dot, and the model name is the name minus those four characters |
| `PathText.AcceptsLowerCase` | tools/update_model_repo.py:47-49 | `r0402.stl` is a model file with model name `r0402` |
| `PathText.AcceptsUpperCaseAfterDots` | tools/update_model_repo.py:47-49 | `a.b.STL` is a model file, and its model name `a.b` keeps the inner dot |
| `PathText.RejectsMixedCase` | tools/update_model_repo.py:19 | `r0402.Stl` is not a model file: the test is case-sensitive |
| `PathText.RejectsLaterExtension` | tools/update_model_repo.py:19 | `r0402.stl.bak` is not a model file: only the last extension counts |
| `PathText.RejectsHiddenFile` | tools/update_model_repo.py:17-19 | `.stl` is not a model file: a leading dot does not start an extension |
| `PathText.RejectsNoExtension` | tools/update_model_repo.py:47-49 | `README` is not a model file |
| `PathText.BaseNameOfJoin` | tools/update_model_repo.py:21-24 | joining a directory and a file name keeps the file name as the last component of the path |
| `Walk.FilesListed` | tools/update_model_repo.py:44-45 | the nested loops visit every file of every walked directory |
| `Walk.FilesOrigin` | tools/update_model_repo.py:15-16 | the nested loops visit only files that some walked directory lists |
| `ComponentMap.RecordFile` | tools/update_model_repo.py:47-62 | the body of the inner loop computes exactly the one-file step `Record`: a new name gets an entry, a known name keeps its primary file and gains a differing path as a duplicate at most once |
| `ComponentMap.UpdateMapFile` | tools/update_model_repo.py:35-69 | the map written back is `Updated` of the loaded map (or of the empty map) over the walk. Its keys are the loaded keys plus the walked model names. Loaded entries keep `filename` and their other keys. Entries with clean duplicates stay clean. The reported total is the loaded count plus the number of new names |
| `ComponentMap.UpdatedKeys` | tools/update_model_repo.py:54-62 | after the pass the keys are exactly the loaded keys plus the model names of the walked model files: no key is lost and none is invented |
| `ComponentMap.UpdatedCount` | tools/update_model_repo.py:69 | the number of keys after the pass is the initial count plus the number of walked model names that were not keys |
| `ComponentMap.FilenameKept` | tools/update_model_repo.py:54-59 | an existing entry keeps its `filename` and its other keys whatever paths are met, and its old duplicates list is a prefix of the new one |
| `ComponentMap.UpdatedAppend` | tools/update_model_repo.py:44-62 | visiting `fs` and then `gs` gives the same map as visiting `fs + gs` |
| `ComponentMap.FirstOccurrence` | tools/update_model_repo.py:60-62 | the first model file with a name the map lacks creates `{"filename": its path}` with no `duplicates` key, and that `filename` stays to the end of the pass |
| `ComponentMap.DuplicatesStayClean` | tools/update_model_repo.py:55-58 | if an entry's duplicates hold no repeats and not the primary path, that stays so after the pass; entries the pass creates are clean |
| `ComponentMap.Provenance` | tools/update_model_repo.py:54-62 | a new entry's `filename` and every duplicate the pass adds are the path of some walked model file with that model name |
| `ComponentMap.UpdatedCovers` | tools/update_model_repo.py:54-62 | after the pass, every walked model file's path is recorded under its model name, as `filename` or among `duplicates` |
| `ComponentMap.UpdatedStable` | tools/update_model_repo.py:54-58 | a pass over files that are all recorded already leaves the map unchanged |
| `ComponentMap.Idempotent` | tools/update_model_repo.py:54-62 | running the pass twice over the same listing gives the map of one run |
| `ComponentMap.OnlyModelFilesMatter` | tools/update_model_repo.py:47-49 | the map after the pass depends only on the files that pass the extension filter |
| `ModelSync.CopyFile` | tools/update_model_repo.py:17-31 | a walked file is copied exactly when it is a model file whose destination is missing or differs, and the copy puts the source content at the same relative path |
| `ModelSync.CopyUpdatedModels` | tools/update_model_repo.py:12-31 | the destination after the pass is the old destination with every walked model file overwritten by its source content. A path is copied exactly when it is a walked model file whose destination was missing or different |
| `ModelSync.SyncedMirrors` | tools/update_model_repo.py:21-31 | after the pass, each model file's destination path holds the source content |
| `ModelSync.SyncedUntouched` | tools/update_model_repo.py:19-31 | destination paths that are not walked model files keep their presence and content |
| `ModelSync.MirroredCloses` | tools/update_model_repo.py:15-31 | the loop's result equals the closed form: the old destination with every walked model file mirrored |
| `ModelSync.WrittenExactly` | tools/update_model_repo.py:26-31 | the paths copied are exactly the walked model files whose destination was missing or different before the pass, each copied once; an equal existing file is never rewritten |
| `ModelSync.QuietWhenMirrored` | tools/update_model_repo.py:27 | when every model file's destination already equals its source, the pass copies nothing and changes nothing |
| `ModelSync.SecondPassIsQuiet` | tools/update_model_repo.py:27-31 | running the copy pass again over the same listing copies nothing and changes nothing |

## Left out

- File-system I/O is left out: `os.walk`, `os.makedirs`, `shutil.copy2` and `open`. A walk is a sequence of directories with their file names, and a directory tree is a map from relative path to content. Directories exist only implicitly, so the `makedirs` of lines 28-29 has nothing to model.
- Path normalisation with `os.path.abspath` and `os.path.relpath` (lines 22-23, 51-52) is left out, and so are symbolic links. Walked directories are taken as already relative (to the source root for the copy pass, to the map file's directory for the map pass) and normalised, with `.` for the starting directory. `Join` is `os.path.join` for such directories only, and it assumes POSIX separators: on Windows `os.path.join` and `os.path.relpath` write `\`, so the recorded `filename` strings would differ.
- `CopyFile`: `filecmp.cmp` in its default shallow mode treats two files with equal `os.stat` signatures (type, size, modification time) as equal without reading them. The model compares contents. It therefore copies a changed file whose size and modification time happen to match, which the source would skip.
- JSON parsing and writing (lines 42 and 65) are left out, and so are the output format (indent, separators, sorted keys) and the non-atomic overwrite of the map file noted on line 64. Every loaded entry is assumed to have a string `filename` and, if present, a list of strings as `duplicates`; its remaining keys are kept as opaque JSON text in `others`. For a stored entry without `filename`, the source would fail with a `KeyError` at line 55.
- `UpdateMapFile` (and `RecordFile`): names and paths are compared as text. The script runs under Python 2, where `json.load` (line 42) returns unicode strings and `os.walk` over a byte-string root yields byte strings (lines 44-52); the two compare equal only for ASCII text. For a non-ASCII path, line 55 finds the stored `filename` different from the walked path, so lines 56-58 add the primary path to `duplicates`, again on every run. A non-ASCII model name misses `has_key` at line 54 and gets a second key, and `sort_keys=True` at line 65 then fails on comparing byte and unicode keys after `open(..., "w")` has already emptied the map file. The model, and `DuplicatesStayClean` and `Idempotent` with it, covers ASCII names and paths only.
- `UpdateMapFile`: `setdefault` followed by `append` changes the list inside the dictionary in place. The model rebuilds the entry value instead. The final map is the same, because nothing else holds a reference to the list.
- The command-line driver (lines 73-89) is left out, and so are all `print` diagnostics. The paths reported as `Copying` are modelled as the `written` result of `CopyUpdatedModels`. The "New model" and "New duplicate model" messages are not modelled.
- The bundling of board files into suffixed subsets is not part of this model. Its source is not among the files modelled here.
