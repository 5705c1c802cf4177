/**
 The directory walk both passes of tools/update_model_repo.py iterate over.
 `os.walk` is replaced by its result: a sequence of directories, each with the
 names of the files it holds, in the order the walk yields them.
 */
module Walk {
  import opened PathText

  /**
   One `(root, dirs, files)` triple of `os.walk`: `dir` is the directory in
   the normalised relative form `os.path.relpath` returns, `files` the names
   of the files in it.
   */
  datatype WalkedDir = WalkedDir(dir: string, files: seq<string>)

  /** One `(root, filename)` pair visited by the inner loop. */
  datatype WalkedFile = WalkedFile(dir: string, name: string)

  /** The relative path of a walked file, `os.path.join(root, filename)`. */
  function Path(f: WalkedFile): string
  {
    Join(f.dir, f.name)
  }

  /** The files of one directory, in the order of its listing. */
  function FilesIn(d: WalkedDir): seq<WalkedFile>
  {
    seq(|d.files|, j requires 0 <= j < |d.files| => WalkedFile(d.dir, d.files[j]))
  }

  /** The files of a walk in the order the nested loops visit them. */
  function Files(walk: seq<WalkedDir>): (fs: seq<WalkedFile>)
  {
    if walk == [] then [] else Files(walk[..|walk| - 1]) + FilesIn(walk[|walk| - 1])
  }

  lemma FilesInPrefix(d: WalkedDir, j: int)
    requires 0 <= j < |d.files|
    ensures FilesIn(d)[..j + 1] == FilesIn(d)[..j] + [WalkedFile(d.dir, d.files[j])]
  {
  }

  lemma FilesSnoc(walk: seq<WalkedDir>, i: int)
    requires 0 <= i < |walk|
    ensures Files(walk[..i + 1]) == Files(walk[..i]) + FilesIn(walk[i])[..|walk[i].files|]
  {
    assert walk[..i + 1][..i] == walk[..i];
    assert FilesIn(walk[i])[..|walk[i].files|] == FilesIn(walk[i]);
  }

  /** Every file listed in every walked directory is visited. */
  lemma {:induction false} FilesListed(walk: seq<WalkedDir>, i: int, j: int)
    requires 0 <= i < |walk| && 0 <= j < |walk[i].files|
    ensures WalkedFile(walk[i].dir, walk[i].files[j]) in Files(walk)
  {
    var n := |walk|;
    if i == n - 1 {
      assert FilesIn(walk[i])[j] == WalkedFile(walk[i].dir, walk[i].files[j]);
    } else {
      FilesListed(walk[..n - 1], i, j);
    }
  }

  /** Nothing is visited that no walked directory lists. */
  lemma {:induction false} FilesOrigin(walk: seq<WalkedDir>, f: WalkedFile)
    requires f in Files(walk)
    ensures exists i, j :: 0 <= i < |walk| && 0 <= j < |walk[i].files| && f == WalkedFile(walk[i].dir, walk[i].files[j])
  {
    var n := |walk|;
    if f in Files(walk[..n - 1]) {
      FilesOrigin(walk[..n - 1], f);
      var i, j :| 0 <= i < n - 1 && 0 <= j < |walk[..n - 1][i].files| && f == WalkedFile(walk[..n - 1][i].dir, walk[..n - 1][i].files[j]);
      assert walk[..n - 1][i] == walk[i];
    } else {
      var j :| 0 <= j < |FilesIn(walk[n - 1])| && FilesIn(walk[n - 1])[j] == f;
      assert f == WalkedFile(walk[n - 1].dir, walk[n - 1].files[j]);
    }
  }
}
