/**
 The copy rule of `copyUpdatedModels` (tools/update_model_repo.py lines
 12-31): every model file of the walked source tree is copied to the same
 relative path under the destination when the destination file is missing or
 differs from it. File systems are maps from relative path to content.
 */
module ModelSync {
  import opened PathText
  import opened Walk

  /** The bytes of a file. */
  type Content = seq<bv8>

  /** A directory tree: the files under a root, by path relative to that root. */
  type Tree = map<string, Content>

  /** Every walked file exists in the tree it was walked in. */
  predicate Listed(src: Tree, fs: seq<WalkedFile>)
  {
    forall f :: f in fs ==> Path(f) in src
  }

  /** The test at line 27: the destination file is missing or its content differs. */
  predicate NeedsCopy(src: Tree, dst: Tree, path: string)
    requires path in src
  {
    path !in dst || dst[path] != src[path]
  }

  /** Whether visiting `f` copies it. */
  predicate CopiesFile(src: Tree, dst: Tree, f: WalkedFile)
    requires Path(f) in src
  {
    IsModelFile(f.name) && NeedsCopy(src, dst, Path(f))
  }

  /** One iteration of the inner loop: the destination tree after visiting `f`. */
  function CopyStep(src: Tree, dst: Tree, f: WalkedFile): Tree
    requires Path(f) in src
  {
    if CopiesFile(src, dst, f) then dst[Path(f) := src[Path(f)]] else dst
  }

  /** The destination tree after the loop has visited the files `fs`, in order. */
  function Synced(src: Tree, dst: Tree, fs: seq<WalkedFile>): Tree
    requires Listed(src, fs)
  {
    if fs == [] then dst
    else
      var init := fs[..|fs| - 1];
      assert forall f :: f in init ==> f in fs;
      CopyStep(src, Synced(src, dst, init), fs[|fs| - 1])
  }

  /** The destination paths written while visiting `fs`, in order: the `Copying` lines. */
  function Written(src: Tree, dst: Tree, fs: seq<WalkedFile>): seq<string>
    requires Listed(src, fs)
  {
    if fs == [] then []
    else
      var init, last := fs[..|fs| - 1], fs[|fs| - 1];
      assert forall f :: f in init ==> f in fs;
      Written(src, dst, init) + if CopiesFile(src, Synced(src, dst, init), last) then [Path(last)] else []
  }

  /** The relative paths of the model files among `fs`. */
  function ModelPaths(fs: seq<WalkedFile>): set<string>
  {
    set f | f in fs && IsModelFile(f.name) :: Path(f)
  }

  /** The destination as it should end up: every model file mirrored, everything else as it was. */
  function Mirrored(src: Tree, dst: Tree, paths: set<string>): Tree
    requires paths <= src.Keys
  {
    dst + map p | p in paths :: src[p]
  }

  /**
   `copyUpdatedModels` without its file I/O: `src` is the source tree, `walk`
   its listing (directories relative to the source root), `dst` the
   destination tree. Returns the new destination tree and the paths copied.
   */
  method CopyUpdatedModels(src: Tree, walk: seq<WalkedDir>, dst: Tree) returns (result: Tree, written: seq<string>)
    requires Listed(src, Files(walk))
    ensures result == Synced(src, dst, Files(walk))
    ensures written == Written(src, dst, Files(walk))
    ensures ModelPaths(Files(walk)) <= src.Keys
    ensures result == Mirrored(src, dst, ModelPaths(Files(walk)))
    ensures forall p :: p in written <==> p in ModelPaths(Files(walk)) && NeedsCopy(src, dst, p)
  {
    result, written := dst, [];
    ghost var visited: seq<WalkedFile> := [];
    assert walk[..0] == [];
    var i := 0;
    while i < |walk|
      invariant 0 <= i <= |walk|
      invariant visited == Files(walk[..i])
      invariant Listed(src, visited)
      invariant result == Synced(src, dst, visited)
      invariant written == Written(src, dst, visited)
    {
      var d := walk[i];
      ghost var before := visited;
      FilesSnoc(walk, i);
      var j := 0;
      while j < |d.files|
        invariant 0 <= j <= |d.files|
        invariant visited == before + FilesIn(d)[..j]
        invariant Listed(src, visited)
        invariant result == Synced(src, dst, visited)
        invariant written == Written(src, dst, visited)
      {
        var filename := d.files[j];
        FilesInPrefix(d, j);
        FilesListed(walk, i, j);
        ghost var f := WalkedFile(d.dir, filename);
        SyncedSnoc(src, dst, visited, f);
        var copied;
        result, copied := CopyFile(src, result, d.dir, filename);
        if copied {
          written := written + [Join(d.dir, filename)];
        }
        visited := visited + [f];
        j := j + 1;
      }
      i := i + 1;
    }
    assert walk[..i] == walk;
    MirroredCloses(src, dst, visited);
    WrittenExactly(src, dst, visited);
  }

  /**
   The copy decision at lines 21-31 for the file `filename` of the walked
   directory `dir`: a model file is copied when its destination is missing or
   differs.
   */
  method CopyFile(src: Tree, dst: Tree, dir: string, filename: string) returns (updated: Tree, copied: bool)
    requires Join(dir, filename) in src
    ensures copied == CopiesFile(src, dst, WalkedFile(dir, filename))
    ensures updated == CopyStep(src, dst, WalkedFile(dir, filename))
  {
    updated, copied := dst, false;
    var split := SplitExt(filename);
    if IsStlExtension(split.ext) {
      var path := Join(dir, filename);
      if path !in dst || dst[path] != src[path] {
        updated := updated[path := src[path]];
        copied := true;
      }
    }
  }

  lemma SyncedSnoc(src: Tree, dst: Tree, fs: seq<WalkedFile>, f: WalkedFile)
    requires Listed(src, fs) && Path(f) in src
    ensures Listed(src, fs + [f])
    ensures Synced(src, dst, fs + [f]) == CopyStep(src, Synced(src, dst, fs), f)
    ensures Written(src, dst, fs + [f]) == Written(src, dst, fs) + if CopiesFile(src, Synced(src, dst, fs), f) then [Path(f)] else []
  {
    assert (fs + [f])[..|fs|] == fs;
  }

  /** After the pass, each model file's destination holds the source content. */
  lemma {:induction false} SyncedMirrors(src: Tree, dst: Tree, fs: seq<WalkedFile>, f: WalkedFile)
    requires Listed(src, fs) && f in fs && IsModelFile(f.name)
    ensures Path(f) in Synced(src, dst, fs) && Synced(src, dst, fs)[Path(f)] == src[Path(f)]
  {
    var init, last := fs[..|fs| - 1], fs[|fs| - 1];
    assert forall g :: g in init ==> g in fs;
    if f != last {
      assert f in init;
      SyncedMirrors(src, dst, init, f);
    }
  }

  /** Paths that are not model files of the walk keep their state in the destination. */
  lemma {:induction false} SyncedUntouched(src: Tree, dst: Tree, fs: seq<WalkedFile>, p: string)
    requires Listed(src, fs) && p !in ModelPaths(fs)
    ensures p in Synced(src, dst, fs) <==> p in dst
    ensures p in dst ==> Synced(src, dst, fs)[p] == dst[p]
  {
    if fs != [] {
      var init, last := fs[..|fs| - 1], fs[|fs| - 1];
      assert forall g :: g in init ==> g in fs;
      assert p !in ModelPaths(init);
      SyncedUntouched(src, dst, init, p);
      assert IsModelFile(last.name) ==> Path(last) in ModelPaths(fs);
    }
  }

  lemma ModelPathsSnoc(fs: seq<WalkedFile>)
    requires fs != []
    ensures var last := fs[|fs| - 1];
            ModelPaths(fs) == ModelPaths(fs[..|fs| - 1]) + if IsModelFile(last.name) then {Path(last)} else {}
  {
    assert fs == fs[..|fs| - 1] + [fs[|fs| - 1]];
  }

  lemma ModelPathsListed(src: Tree, fs: seq<WalkedFile>)
    requires Listed(src, fs)
    ensures ModelPaths(fs) <= src.Keys
  {
  }

  lemma MirroredAt(src: Tree, dst: Tree, paths: set<string>, p: string)
    requires paths <= src.Keys
    ensures p in Mirrored(src, dst, paths) <==> p in paths || p in dst
    ensures p in paths ==> Mirrored(src, dst, paths)[p] == src[p]
    ensures p !in paths && p in dst ==> Mirrored(src, dst, paths)[p] == dst[p]
  {
  }

  lemma SyncedAt(src: Tree, dst: Tree, fs: seq<WalkedFile>, p: string)
    requires Listed(src, fs) && ModelPaths(fs) <= src.Keys
    ensures p in Synced(src, dst, fs) <==> p in Mirrored(src, dst, ModelPaths(fs))
    ensures p in Synced(src, dst, fs) ==> Synced(src, dst, fs)[p] == Mirrored(src, dst, ModelPaths(fs))[p]
  {
    MirroredAt(src, dst, ModelPaths(fs), p);
    if p in ModelPaths(fs) {
      var f :| f in fs && IsModelFile(f.name) && Path(f) == p;
      SyncedMirrors(src, dst, fs, f);
    } else {
      SyncedUntouched(src, dst, fs, p);
    }
  }

  /** The loop's outcome in closed form: the destination with every model file mirrored. */
  lemma MirroredCloses(src: Tree, dst: Tree, fs: seq<WalkedFile>)
    requires Listed(src, fs)
    ensures ModelPaths(fs) <= src.Keys
    ensures Synced(src, dst, fs) == Mirrored(src, dst, ModelPaths(fs))
  {
    ModelPathsListed(src, fs);
    var synced := Synced(src, dst, fs);
    var mirrored := Mirrored(src, dst, ModelPaths(fs));
    forall p
      ensures (p in synced <==> p in mirrored) && (p in synced ==> synced[p] == mirrored[p])
    {
      SyncedAt(src, dst, fs, p);
    }
    assert synced.Keys == mirrored.Keys;
  }

  /**
   Visiting the last file copies it exactly when it is a model file whose path
   no earlier model file had and whose destination was missing or different
   before the pass.
   */
  lemma CopiesLast(src: Tree, dst: Tree, fs: seq<WalkedFile>)
    requires Listed(src, fs) && fs != []
    ensures var init, last := fs[..|fs| - 1], fs[|fs| - 1];
            Listed(src, init) && Path(last) in src &&
            (CopiesFile(src, Synced(src, dst, init), last) <==>
               IsModelFile(last.name) && Path(last) !in ModelPaths(init) && NeedsCopy(src, dst, Path(last)))
  {
    var init, last := fs[..|fs| - 1], fs[|fs| - 1];
    assert forall g :: g in init ==> g in fs;
    var p := Path(last);
    if IsModelFile(last.name) {
      if p in ModelPaths(init) {
        var g :| g in init && IsModelFile(g.name) && Path(g) == p;
        SyncedMirrors(src, dst, init, g);
      } else {
        SyncedUntouched(src, dst, init, p);
      }
    }
  }

  /**
   A path is written exactly when it is a model file of the walk whose
   destination was missing or different before the pass, and no path is
   written twice: an equal existing file is never rewritten.
   */
  lemma {:induction false} WrittenExactly(src: Tree, dst: Tree, fs: seq<WalkedFile>)
    requires Listed(src, fs)
    ensures ModelPaths(fs) <= src.Keys
    ensures forall p :: p in Written(src, dst, fs) <==> p in ModelPaths(fs) && NeedsCopy(src, dst, p)
    ensures forall i, j :: 0 <= i < j < |Written(src, dst, fs)| ==> Written(src, dst, fs)[i] != Written(src, dst, fs)[j]
  {
    ModelPathsListed(src, fs);
    if fs != [] {
      var init, last := fs[..|fs| - 1], fs[|fs| - 1];
      CopiesLast(src, dst, fs);
      WrittenExactly(src, dst, init);
      ModelPathsSnoc(fs);
    }
  }

  /** A pass over model files whose destinations already match the source copies nothing. */
  lemma {:induction false} QuietWhenMirrored(src: Tree, dst: Tree, fs: seq<WalkedFile>)
    requires Listed(src, fs)
    requires forall f :: f in fs && IsModelFile(f.name) ==> Path(f) in dst && dst[Path(f)] == src[Path(f)]
    ensures Synced(src, dst, fs) == dst
    ensures Written(src, dst, fs) == []
  {
    if fs != [] {
      var init := fs[..|fs| - 1];
      assert forall g :: g in init ==> g in fs;
      QuietWhenMirrored(src, dst, init);
    }
  }

  /** A second pass over the same listing copies nothing and changes nothing. */
  lemma SecondPassIsQuiet(src: Tree, dst: Tree, fs: seq<WalkedFile>)
    requires Listed(src, fs)
    ensures Written(src, Synced(src, dst, fs), fs) == []
    ensures Synced(src, Synced(src, dst, fs), fs) == Synced(src, dst, fs)
  {
    var once := Synced(src, dst, fs);
    forall f | f in fs && IsModelFile(f.name)
      ensures Path(f) in once && once[Path(f)] == src[Path(f)]
    {
      SyncedMirrors(src, dst, fs, f);
    }
    QuietWhenMirrored(src, once, fs);
  }
}
