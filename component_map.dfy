/**
 The component map that `updateMapFile` (tools/update_model_repo.py lines
 35-69) maintains: a dictionary from model name to an entry holding the
 model's primary file and, once a second file with the same model name turns
 up, the list of its other files. The map is loaded from the existing map
 file or starts empty, then every model file of the walked destination tree
 is recorded in it.
 */
module ComponentMap {
  import opened Wrappers
  import opened PathText
  import opened Walk

  /**
   `{"filename": ..., "duplicates": [...], ...}`; `duplicates` is `None` while
   the entry has no such key, and `others` holds the entry's remaining keys,
   each with the JSON text of its value. The pass never reads `others`; the
   source edits the loaded dictionary in place, so they are written back as
   they were loaded.
   */
  datatype Entry = Entry(filename: string, duplicates: Option<seq<string>>, others: map<string, string>)

  type Table = map<string, Entry>

  /** The list `setdefault("duplicates", [])` hands back for an entry. */
  function DuplicatesOf(e: Entry): seq<string>
  {
    if e.duplicates.Some? then e.duplicates.value else []
  }

  /** The map the pass starts from: the stored map file when it exists, else empty. */
  function Loaded(stored: Option<Table>): Table
  {
    if stored.Some? then stored.value else map[]
  }

  /** One iteration of the inner loop: how a walked file changes the map. */
  function Record(m: Table, f: WalkedFile): Table
  {
    if !IsModelFile(f.name) then m
    else
      var name, path := ModelName(f.name), Path(f);
      if name !in m then m[name := Entry(path, None, map[])]
      else if m[name].filename == path then m
      else
        var dupes := DuplicatesOf(m[name]);
        var entry := m[name].(duplicates := Some(dupes));
        if path in dupes then m[name := entry]
        else m[name := entry.(duplicates := Some(dupes + [path]))]
  }

  /** The map after the loop has visited the files `fs`, in order. */
  function Updated(m: Table, fs: seq<WalkedFile>): Table
  {
    if fs == [] then m else Record(Updated(m, fs[..|fs| - 1]), fs[|fs| - 1])
  }

  /** The model names of the model files among `fs`. */
  function Names(fs: seq<WalkedFile>): set<string>
  {
    set f | f in fs && IsModelFile(f.name) :: ModelName(f.name)
  }

  /** The model files among `fs`, in order. */
  function ModelFiles(fs: seq<WalkedFile>): seq<WalkedFile>
  {
    if fs == [] then []
    else
      var rest := ModelFiles(fs[..|fs| - 1]);
      if IsModelFile(fs[|fs| - 1].name) then rest + [fs[|fs| - 1]] else rest
  }

  /** No path is listed twice in `duplicates`, and the primary path is not listed there. */
  predicate DuplicatesClean(e: Entry)
  {
    var dupes := DuplicatesOf(e);
    e.filename !in dupes && forall i, j :: 0 <= i < j < |dupes| ==> dupes[i] != dupes[j]
  }

  /** `path` is already recorded under `name`, as its primary file or as a duplicate. */
  predicate Covers(m: Table, name: string, path: string)
  {
    name in m && (m[name].filename == path || path in DuplicatesOf(m[name]))
  }

  /** Some model file among `fs` has model name `name` and relative path `path`. */
  ghost predicate WalkedAs(fs: seq<WalkedFile>, name: string, path: string)
  {
    exists f :: f in fs && IsModelFile(f.name) && ModelName(f.name) == name && Path(f) == path
  }

  /**
   The body of the inner loop (lines 47-62) for the file `filename` in the
   walked directory `dir`: a new model name gets an entry, a known one keeps
   its primary file and gains the path as a duplicate at most once.
   */
  method RecordFile(componentMap: Table, dir: string, filename: string) returns (updated: Table)
    ensures updated == Record(componentMap, WalkedFile(dir, filename))
  {
    updated := componentMap;
    var split := SplitExt(filename);
    if IsStlExtension(split.ext) {
      var modelName, relPath := split.root, Join(dir, filename);
      if modelName in updated {
        if updated[modelName].filename != relPath {
          var dupes := DuplicatesOf(updated[modelName]);
          var entry := updated[modelName].(duplicates := Some(dupes));
          if relPath !in dupes {
            entry := entry.(duplicates := Some(dupes + [relPath]));
          }
          updated := updated[modelName := entry];
        }
      } else {
        updated := updated[modelName := Entry(relPath, None, map[])];
      }
    }
  }

  /**
   `updateMapFile` without its file I/O: `stored` is the parsed map file
   (`None` when it does not exist) and `walk` the listing of the destination
   tree, with directories given relative to the map file's directory. Returns
   the map that is written back and the count printed at the end.
   */
  method UpdateMapFile(stored: Option<Table>, walk: seq<WalkedDir>) returns (componentMap: Table, total: nat)
    ensures componentMap == Updated(Loaded(stored), Files(walk))
    ensures componentMap.Keys == Loaded(stored).Keys + Names(Files(walk))
    ensures forall name :: name in Loaded(stored) ==> componentMap[name].filename == Loaded(stored)[name].filename
    ensures forall name :: name in Loaded(stored) ==> componentMap[name].others == Loaded(stored)[name].others
    ensures forall name :: name in componentMap && (name in Loaded(stored) ==> DuplicatesClean(Loaded(stored)[name])) ==>
              DuplicatesClean(componentMap[name])
    ensures total == |componentMap| == |Loaded(stored)| + |Names(Files(walk)) - Loaded(stored).Keys|
  {
    componentMap := map[];
    if stored.Some? {
      componentMap := stored.value;
    }
    ghost var initial := componentMap;
    ghost var visited: seq<WalkedFile> := [];
    assert walk[..0] == [];
    var i := 0;
    while i < |walk|
      invariant 0 <= i <= |walk|
      invariant visited == Files(walk[..i])
      invariant componentMap == Updated(initial, visited)
    {
      var d := walk[i];
      ghost var before := visited;
      var j := 0;
      while j < |d.files|
        invariant 0 <= j <= |d.files|
        invariant visited == before + FilesIn(d)[..j]
        invariant componentMap == Updated(initial, visited)
      {
        var filename := d.files[j];
        componentMap := RecordFile(componentMap, d.dir, filename);
        UpdatedSnoc(initial, visited, WalkedFile(d.dir, filename));
        FilesInPrefix(d, j);
        visited := visited + [WalkedFile(d.dir, filename)];
        j := j + 1;
      }
      FilesSnoc(walk, i);
      i := i + 1;
    }
    assert walk[..i] == walk;
    total := |componentMap|;
    UpdatedKeys(initial, Files(walk));
    UpdatedCount(initial, Files(walk));
    forall name | name in initial
      ensures componentMap[name].filename == initial[name].filename
      ensures componentMap[name].others == initial[name].others
    {
      FilenameKept(initial, Files(walk), name);
    }
    forall name | name in componentMap && (name in initial ==> DuplicatesClean(initial[name]))
      ensures DuplicatesClean(componentMap[name])
    {
      DuplicatesStayClean(initial, Files(walk), name);
    }
  }

  lemma UpdatedSnoc(m: Table, fs: seq<WalkedFile>, f: WalkedFile)
    ensures Updated(m, fs + [f]) == Record(Updated(m, fs), f)
  {
    assert (fs + [f])[..|fs|] == fs;
  }

  lemma RecordKeys(m: Table, f: WalkedFile)
    ensures Record(m, f).Keys == m.Keys + if IsModelFile(f.name) then {ModelName(f.name)} else {}
  {
  }

  lemma RecordKeeps(m: Table, f: WalkedFile, name: string)
    requires name in m
    ensures name in Record(m, f) && Record(m, f)[name].filename == m[name].filename
    ensures Record(m, f)[name].others == m[name].others
    ensures DuplicatesOf(m[name]) <= DuplicatesOf(Record(m, f)[name])
  {
  }

  lemma RecordClean(m: Table, f: WalkedFile, name: string)
    requires name in Record(m, f)
    requires name in m ==> DuplicatesClean(m[name])
    ensures DuplicatesClean(Record(m, f)[name])
  {
  }

  lemma RecordProvenance(m: Table, f: WalkedFile, name: string)
    requires name in Record(m, f)
    ensures name !in m ==> IsModelFile(f.name) && ModelName(f.name) == name && Record(m, f)[name].filename == Path(f)
    ensures forall p :: p in DuplicatesOf(Record(m, f)[name]) ==>
              (name in m && p in DuplicatesOf(m[name])) || (IsModelFile(f.name) && ModelName(f.name) == name && p == Path(f))
  {
  }

  lemma NamesSnoc(fs: seq<WalkedFile>)
    requires fs != []
    ensures var last := fs[|fs| - 1];
            Names(fs) == Names(fs[..|fs| - 1]) + if IsModelFile(last.name) then {ModelName(last.name)} else {}
  {
    assert fs == fs[..|fs| - 1] + [fs[|fs| - 1]];
  }

  /** The pass adds exactly the model names it meets: no key is lost, none is invented. */
  lemma {:induction false} UpdatedKeys(m: Table, fs: seq<WalkedFile>)
    ensures Updated(m, fs).Keys == m.Keys + Names(fs)
  {
    if fs != [] {
      UpdatedKeys(m, fs[..|fs| - 1]);
      NamesSnoc(fs);
      RecordKeys(Updated(m, fs[..|fs| - 1]), fs[|fs| - 1]);
    }
  }

  /** The count printed at the end: the loaded keys plus the new model names. */
  lemma UpdatedCount(m: Table, fs: seq<WalkedFile>)
    ensures |Updated(m, fs)| == |m| + |Names(fs) - m.Keys|
  {
    UpdatedKeys(m, fs);
    var added := Names(fs) - m.Keys;
    assert Updated(m, fs).Keys == m.Keys + added;
    assert m.Keys * added == {};
  }

  /**
   An existing entry keeps its primary file and its other keys, and its
   duplicates only grow at the end.
   */
  lemma {:induction false} FilenameKept(m: Table, fs: seq<WalkedFile>, name: string)
    requires name in m
    ensures name in Updated(m, fs)
    ensures Updated(m, fs)[name].filename == m[name].filename
    ensures Updated(m, fs)[name].others == m[name].others
    ensures DuplicatesOf(m[name]) <= DuplicatesOf(Updated(m, fs)[name])
  {
    if fs != [] {
      FilenameKept(m, fs[..|fs| - 1], name);
      RecordKeeps(Updated(m, fs[..|fs| - 1]), fs[|fs| - 1], name);
    }
  }

  /** Running the pass over `fs` and then `gs` is running it over `fs + gs`. */
  lemma {:induction false} UpdatedAppend(m: Table, fs: seq<WalkedFile>, gs: seq<WalkedFile>)
    ensures Updated(m, fs + gs) == Updated(Updated(m, fs), gs)
  {
    if gs == [] {
      assert fs + gs == fs;
    } else {
      assert (fs + gs)[..|fs + gs| - 1] == fs + gs[..|gs| - 1];
      UpdatedAppend(m, fs, gs[..|gs| - 1]);
    }
  }

  /**
   The first model file with a model name the map does not hold creates an
   entry with that file as its primary file and no `duplicates` key, and the
   primary file stays that one for the rest of the pass.
   */
  lemma FirstOccurrence(m: Table, fs: seq<WalkedFile>, i: int)
    requires 0 <= i < |fs| && IsModelFile(fs[i].name)
    requires ModelName(fs[i].name) !in m
    requires forall k :: 0 <= k < i && IsModelFile(fs[k].name) ==> ModelName(fs[k].name) != ModelName(fs[i].name)
    ensures ModelName(fs[i].name) in Updated(m, fs[..i + 1])
    ensures Updated(m, fs[..i + 1])[ModelName(fs[i].name)] == Entry(Path(fs[i]), None, map[])
    ensures ModelName(fs[i].name) in Updated(m, fs)
    ensures Updated(m, fs)[ModelName(fs[i].name)].filename == Path(fs[i])
  {
    var f := fs[i];
    var name := ModelName(f.name);
    var before, upto, after := fs[..i], fs[..i + 1], fs[i + 1..];
    NameNotSeen(before, name);
    UpdatedKeys(m, before);
    assert upto == before + [f];
    UpdatedSnoc(m, before, f);
    RecordNew(Updated(m, before), f);
    assert fs == upto + after;
    UpdatedAppend(m, upto, after);
    FilenameKept(Updated(m, upto), after, name);
  }

  lemma NameNotSeen(fs: seq<WalkedFile>, name: string)
    requires forall k :: 0 <= k < |fs| && IsModelFile(fs[k].name) ==> ModelName(fs[k].name) != name
    ensures name !in Names(fs)
  {
    forall f | f in fs
      ensures !(IsModelFile(f.name) && ModelName(f.name) == name)
    {
      var k :| 0 <= k < |fs| && fs[k] == f;
    }
  }

  lemma RecordNew(m: Table, f: WalkedFile)
    requires IsModelFile(f.name) && ModelName(f.name) !in m
    ensures Record(m, f) == m[ModelName(f.name) := Entry(Path(f), None, map[])]
  {
  }

  /**
   A path enters `duplicates` only when it differs from the primary file and
   is not yet listed, so an entry whose duplicates are clean stays clean, and
   an entry the pass creates is clean.
   */
  lemma {:induction false} DuplicatesStayClean(m: Table, fs: seq<WalkedFile>, name: string)
    requires name in Updated(m, fs)
    requires name in m ==> DuplicatesClean(m[name])
    ensures DuplicatesClean(Updated(m, fs)[name])
  {
    if fs != [] {
      var init, last := fs[..|fs| - 1], fs[|fs| - 1];
      var prev := Updated(m, init);
      UpdatedKeys(m, init);
      if name in prev {
        DuplicatesStayClean(m, init, name);
      }
      RecordClean(prev, last, name);
    }
  }

  /**
   Nothing in the map is invented: a new entry's primary file and every
   duplicate the pass adds are paths of walked model files with that name.
   */
  lemma {:induction false} Provenance(m: Table, fs: seq<WalkedFile>, name: string)
    requires name in Updated(m, fs)
    ensures name !in m ==> WalkedAs(fs, name, Updated(m, fs)[name].filename)
    ensures forall p :: p in DuplicatesOf(Updated(m, fs)[name]) ==>
              (name in m && p in DuplicatesOf(m[name])) || WalkedAs(fs, name, p)
  {
    if fs != [] {
      var init, last := fs[..|fs| - 1], fs[|fs| - 1];
      var prev := Updated(m, init);
      var next := Updated(m, fs);
      assert next == Record(prev, last);
      UpdatedKeys(m, init);
      RecordProvenance(prev, last, name);
      if name in prev {
        Provenance(m, init, name);
        WalkedAsExtends(init, fs, name);
      }
      assert last in fs;
      if name !in m {
        if name in prev {
          assert WalkedAs(init, name, prev[name].filename);
          RecordKeeps(prev, last, name);
        }
      }
    }
  }

  lemma WalkedAsExtends(init: seq<WalkedFile>, fs: seq<WalkedFile>, name: string)
    requires forall g :: g in init ==> g in fs
    ensures forall p :: WalkedAs(init, name, p) ==> WalkedAs(fs, name, p)
  {
  }

  lemma RecordCovers(m: Table, f: WalkedFile, name: string, path: string)
    ensures IsModelFile(f.name) ==> Covers(Record(m, f), ModelName(f.name), Path(f))
    ensures Covers(m, name, path) ==> Covers(Record(m, f), name, path)
  {
    if Covers(m, name, path) {
      RecordKeeps(m, f, name);
    }
  }

  /** After the pass, every walked model file is recorded under its model name. */
  lemma {:induction false} UpdatedCovers(m: Table, fs: seq<WalkedFile>)
    ensures forall f :: f in fs && IsModelFile(f.name) ==> Covers(Updated(m, fs), ModelName(f.name), Path(f))
  {
    if fs != [] {
      var init, last := fs[..|fs| - 1], fs[|fs| - 1];
      var prev := Updated(m, init);
      UpdatedCovers(m, init);
      forall f | f in fs && IsModelFile(f.name)
        ensures Covers(Updated(m, fs), ModelName(f.name), Path(f))
      {
        RecordCovers(prev, last, ModelName(f.name), Path(f));
        if f != last {
          assert f in init by {
            assert fs == init + [last];
          }
        }
      }
    }
  }

  /** A pass over files that are all recorded already changes nothing. */
  lemma {:induction false} UpdatedStable(m: Table, fs: seq<WalkedFile>)
    requires forall f :: f in fs && IsModelFile(f.name) ==> Covers(m, ModelName(f.name), Path(f))
    ensures Updated(m, fs) == m
  {
    if fs != [] {
      var init, last := fs[..|fs| - 1], fs[|fs| - 1];
      assert forall f :: f in init ==> f in fs;
      UpdatedStable(m, init);
      if IsModelFile(last.name) {
        var name := ModelName(last.name);
        assert Covers(m, name, Path(last));
        if m[name].filename != Path(last) {
          assert m[name].duplicates.Some?;
          assert m[name].(duplicates := Some(DuplicatesOf(m[name]))) == m[name];
        }
      }
    }
  }

  /** Running the update twice over the same listing gives the map of one run. */
  lemma Idempotent(m: Table, fs: seq<WalkedFile>)
    ensures Updated(Updated(m, fs), fs) == Updated(m, fs)
  {
    UpdatedCovers(m, fs);
    UpdatedStable(Updated(m, fs), fs);
  }

  /** Files that fail the extension filter leave the map alone. */
  lemma {:induction false} OnlyModelFilesMatter(m: Table, fs: seq<WalkedFile>)
    ensures Updated(m, fs) == Updated(m, ModelFiles(fs))
  {
    if fs != [] {
      var init, last := fs[..|fs| - 1], fs[|fs| - 1];
      OnlyModelFilesMatter(m, init);
      if IsModelFile(last.name) {
        var kept := ModelFiles(init) + [last];
        assert kept[..|kept| - 1] == ModelFiles(init);
      }
    }
  }
}
