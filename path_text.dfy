/**
 The string side of the model-file filter shared by both passes of
 tools/update_model_repo.py: `os.path.splitext` on POSIX paths, the test
 `ext in ['.stl', '.STL']`, and `os.path.join` of a walked directory with a
 file name.
 */
module PathText {

  /** Python's `str.rfind` for one character: the last index of `c` in `s`, or -1. */
  function LastIndex(s: string, c: char): (r: int)
    ensures -1 <= r < |s|
    ensures r >= 0 ==> s[r] == c
    ensures forall j :: r < j < |s| ==> s[j] != c
  {
    if s == [] then -1
    else if s[|s| - 1] == c then |s| - 1
    else LastIndex(s[..|s| - 1], c)
  }

  /**
   Whether `p[lo..hi]` holds a character other than `.`: the leading-dot
   scan of `splitext`, which walks from the start of the base name towards
   the last dot.
   */
  predicate NonDotIn(p: string, lo: int, hi: int)
    requires 0 <= lo && hi <= |p|
    decreases hi - lo
  {
    lo < hi && (p[lo] != '.' || NonDotIn(p, lo + 1, hi))
  }

  lemma {:induction false} NonDotInWitness(p: string, lo: int, hi: int)
    requires 0 <= lo && hi <= |p|
    ensures NonDotIn(p, lo, hi) <==> exists k :: lo <= k < hi && p[k] != '.'
    decreases hi - lo
  {
    if lo < hi {
      NonDotInWitness(p, lo + 1, hi);
    }
  }

  /** The pair `(root, ext)` returned by `os.path.splitext`. */
  datatype Split = Split(root: string, ext: string)

  /**
   `os.path.splitext` with `/` as separator: the extension starts at the last
   `.` of the base name, unless everything in the base name before that dot is
   a dot too (leading dots, as in `.stl` or `..stl`, are not a separator).
   */
  function SplitExt(p: string): (r: Split)
    ensures r.root + r.ext == p
  {
    var sep := LastIndex(p, '/');
    var dot := LastIndex(p, '.');
    if dot > sep && NonDotIn(p, sep + 1, dot) then Split(p[..dot], p[dot..])
    else Split(p, "")
  }

  /**
   Independent description of a split point: `d` holds the last dot of `p`,
   nothing after it is a separator, and the base name has a character other
   than `.` before it.
   */
  ghost predicate ExtensionAt(p: string, d: int)
  {
    && 0 <= d < |p|
    && p[d] == '.'
    && (forall j :: d < j < |p| ==> p[j] != '.' && p[j] != '/')
    && (exists k :: 0 <= k < d && p[k] != '.' && forall j :: k <= j < d ==> p[j] != '/')
  }

  lemma SplitAtExtension(p: string, d: int)
    requires ExtensionAt(p, d)
    ensures SplitExt(p) == Split(p[..d], p[d..])
  {
    var sep := LastIndex(p, '/');
    var dot := LastIndex(p, '.');
    assert dot == d;
    var k :| 0 <= k < d && p[k] != '.' && forall j :: k <= j < d ==> p[j] != '/';
    assert sep < k;
    NonDotInWitness(p, sep + 1, dot);
  }

  lemma ExtensionFound(p: string)
    requires SplitExt(p).ext != []
    ensures ExtensionAt(p, LastIndex(p, '.'))
  {
    var sep := LastIndex(p, '/');
    var dot := LastIndex(p, '.');
    NonDotInWitness(p, sep + 1, dot);
    var k :| sep + 1 <= k < dot && p[k] != '.';
  }

  /** `SplitExt` finds an extension exactly when a split point exists, and splits there. */
  lemma SplitExtCharacterized(p: string)
    ensures SplitExt(p).ext != [] <==> exists d :: ExtensionAt(p, d)
    ensures forall d :: ExtensionAt(p, d) ==> SplitExt(p) == Split(p[..d], p[d..])
  {
    forall d | ExtensionAt(p, d)
      ensures SplitExt(p) == Split(p[..d], p[d..])
    {
      SplitAtExtension(p, d);
    }
    if SplitExt(p).ext != [] {
      ExtensionFound(p);
    }
  }

  /** The filter at tools/update_model_repo.py lines 17-19 and 47-49. */
  predicate IsModelFile(name: string)
  {
    IsStlExtension(SplitExt(name).ext)
  }

  /** The `model_name` half of the split. */
  function ModelName(name: string): string
  {
    SplitExt(name).root
  }

  /** The two spellings of the extension that the filter accepts. */
  predicate IsStlExtension(ext: string)
  {
    ext == ".stl" || ext == ".STL"
  }

  lemma ModelFileAccepted(name: string)
    requires IsModelFile(name)
    ensures |name| > 4 && IsStlExtension(name[|name| - 4..])
    ensures exists k :: 0 <= k < |name| - 4 && name[k] != '.'
    ensures ModelName(name) == name[..|name| - 4]
  {
    SplitExtCharacterized(name);
    var d :| ExtensionAt(name, d);
    assert SplitExt(name).ext == name[d..];
    assert |name| - d == 4;
  }

  lemma ModelFileFromSuffix(name: string)
    requires '/' !in name
    requires |name| > 4 && IsStlExtension(name[|name| - 4..])
    requires exists k :: 0 <= k < |name| - 4 && name[k] != '.'
    ensures IsModelFile(name)
  {
    var n := |name|;
    var d := n - 4;
    assert name[d] == name[d..][0];
    forall j | d < j < n
      ensures name[j] != '.' && name[j] != '/'
    {
      assert name[j] == name[d..][j - d];
    }
    var k :| 0 <= k < d && name[k] != '.';
    forall j | k <= j < d ensures name[j] != '/' {
      assert name[j] in name;
    }
    assert ExtensionAt(name, d);
    SplitExtCharacterized(name);
    assert SplitExt(name).ext == name[d..];
  }

  /**
   For a plain file name, the filter accepts exactly the names that end in
   `.stl` or `.STL` after at least one character that is not a dot, and the
   model name is what comes before those four characters.
   */
  lemma ModelFileByName(name: string)
    requires '/' !in name
    ensures IsModelFile(name) <==>
              && |name| > 4
              && IsStlExtension(name[|name| - 4..])
              && exists k :: 0 <= k < |name| - 4 && name[k] != '.'
    ensures IsModelFile(name) ==> ModelName(name) == name[..|name| - 4]
  {
    if IsModelFile(name) {
      ModelFileAccepted(name);
    } else if && |name| > 4
              && IsStlExtension(name[|name| - 4..])
              && exists k :: 0 <= k < |name| - 4 && name[k] != '.' {
      ModelFileFromSuffix(name);
    }
  }

  /** A lower-case model file is accepted and keeps the name before the extension. */
  lemma AcceptsLowerCase()
    ensures IsModelFile("r0402.stl") && ModelName("r0402.stl") == "r0402"
  {
    var name := "r0402.stl";
    assert name[0] != '.' && name[5..] == ".stl";
    ModelFileByName(name);
  }

  /** Only the last extension counts: the rest of the name, dots included, is the model name. */
  lemma AcceptsUpperCaseAfterDots()
    ensures IsModelFile("a.b.STL") && ModelName("a.b.STL") == "a.b"
  {
    var name := "a.b.STL";
    assert name[0] != '.' && name[3..] == ".STL";
    ModelFileByName(name);
  }

  /** The filter is case-sensitive: `.Stl` is neither spelling. */
  lemma RejectsMixedCase()
    ensures !IsModelFile("r0402.Stl")
  {
    var name := "r0402.Stl";
    ModelFileByName(name);
  }

  /** A name whose last extension is not `.stl` is ignored, whatever comes before. */
  lemma RejectsLaterExtension()
    ensures !IsModelFile("r0402.stl.bak")
  {
    var name := "r0402.stl.bak";
    ModelFileByName(name);
  }

  /** A hidden file named `.stl` has no extension at all. */
  lemma RejectsHiddenFile()
    ensures !IsModelFile(".stl")
  {
    var name := ".stl";
    ModelFileByName(name);
  }

  /** A name without a dot has no extension. */
  lemma RejectsNoExtension()
    ensures !IsModelFile("README")
  {
    var name := "README";
    ModelFileByName(name);
  }

  /**
   `os.path.join` of a walked directory and a file name, with the directory
   already in the normalised form `os.path.relpath` returns (`.` for the
   starting directory itself, no trailing separator).
   */
  function Join(dir: string, name: string): string
  {
    if dir == "." then name else dir + "/" + name
  }

  /** The base name of a path: everything after its last separator. */
  function BaseName(p: string): (b: string)
    ensures '/' !in b
  {
    var sep := LastIndex(p, '/');
    assert forall j :: sep + 1 <= j < |p| ==> p[j] == p[sep + 1..][j - sep - 1];
    p[sep + 1..]
  }

  /** Joining keeps the file name as the last path component. */
  lemma BaseNameOfJoin(dir: string, name: string)
    requires '/' !in name
    ensures BaseName(Join(dir, name)) == name
  {
    var p := Join(dir, name);
    var sep := LastIndex(p, '/');
    if dir == "." {
      assert '/' !in p;
    } else {
      assert p[|dir|] == '/';
      assert forall j :: |dir| < j < |p| ==> p[j] == name[j - |dir| - 1];
      assert p[sep + 1..] == name;
    }
  }
}
