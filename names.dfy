/** The file names `main` works with: which directory entries it decodes, and the name of
    the file each decoded output goes to. */
module Names {

  datatype Option<T> = None | Some(value: T)

  /** The last position of `c` in `s`, if any. */
  function LastIndex(s: string, c: char): (r: Option<nat>)
    ensures r.Some? ==> r.value < |s| && s[r.value] == c
    ensures r.Some? ==> forall j :: r.value < j < |s| ==> s[j] != c
    ensures r.None? ==> forall j :: 0 <= j < |s| ==> s[j] != c
    decreases |s|
  {
    if s == [] then None
    else if s[|s| - 1] == c then Some(|s| - 1)
    else LastIndex(s[..|s| - 1], c)
  }

  /** `path.filename()`: what follows the last `/` (all of `path` when there is none). */
  function FileName(path: string): (r: string)
    ensures |r| <= |path| && r == path[|path| - |r|..]
    ensures forall j :: 0 <= j < |r| ==> r[j] != '/'
    ensures |r| == |path| || path[|path| - |r| - 1] == '/'
  {
    match LastIndex(path, '/')
    case None => path
    case Some(i) => path[i + 1..]
  }

  /** `path.extension()` of a file name: from its last `.` on, except that `.` and `..`
      have none, and neither has a name whose only `.` is its first character. */
  function Extension(name: string): (r: string)
    ensures r != [] ==> r[0] == '.' && |r| < |name| && r == name[|name| - |r|..]
    ensures r != [] ==> forall j :: 1 <= j < |r| ==> r[j] != '.'
    ensures r == [] <==> name == "." || name == ".." || forall j :: 1 <= j < |name| ==> name[j] != '.'
  {
    if name == "." || name == ".." then ""
    else
      match LastIndex(name, '.')
      case None => ""
      case Some(i) => if i == 0 then "" else name[i..]
  }

  /** The directory filter: only entries whose extension is `.CGO` or `.DGO` (case matters)
      are decoded; every other entry is skipped. */
  predicate IsContainerFile(path: string) {
    var ext := Extension(FileName(path));
    ext == ".CGO" || ext == ".DGO"
  }

  /** The output path: the input path with `U` inserted before its last three characters.
      `std::string::insert` throws `out_of_range` for a path shorter than three characters;
      that is `None` here. */
  function OutputName(path: string): (r: Option<string>)
    ensures r.Some? <==> |path| >= 3
    ensures r.Some? ==> |r.value| == |path| + 1 && r.value[|path| - 3] == 'U'
    ensures r.Some? ==> forall j :: 0 <= j < |path| - 3 ==> r.value[j] == path[j]
    ensures r.Some? ==> forall j :: |path| - 3 <= j < |path| ==> r.value[j + 1] == path[j]
  {
    if |path| < 3 then None
    else Some(path[..|path| - 3] + "U" + path[|path| - 3..])
  }

  /** A name with the character before its last three removed. */
  function DropFourthLast(name: string): string
    requires |name| >= 4
  {
    name[..|name| - 4] + name[|name| - 3..]
  }

  /** The inserted `U` is all that tells the output path from the input path. */
  lemma OutputNameInverse(path: string)
    requires |path| >= 3
    ensures DropFourthLast(OutputName(path).value) == path
  {
    var o := OutputName(path).value;
    assert o[..|o| - 4] == path[..|path| - 3];
    assert o[|o| - 3..] == path[|path| - 3..];
    assert path == path[..|path| - 3] + path[|path| - 3..];
  }

  /** A file name passes the filter exactly when it is longer than its four-character
      extension `.CGO` or `.DGO`. */
  lemma ContainerFileIff(name: string)
    requires forall j :: 0 <= j < |name| ==> name[j] != '/'
    ensures IsContainerFile(name) <==>
      |name| >= 5 && (name[|name| - 4..] == ".CGO" || name[|name| - 4..] == ".DGO")
  {
    assert FileName(name) == name;
    if |name| >= 5 && (name[|name| - 4..] == ".CGO" || name[|name| - 4..] == ".DGO") {
      assert name[|name| - 4] == '.';
      var i := LastIndex(name, '.');
      assert i.Some? && i.value >= |name| - 4 by {
        assert name[|name| - 3..] == name[|name| - 4..][1..];
      }
      assert i.value == |name| - 4;
    }
  }

  /** A path whose fourth-last character is not `.` does not pass the filter. */
  lemma FourthLastNotDot(path: string)
    requires |path| >= 4 && path[|path| - 4] != '.'
    ensures !IsContainerFile(path)
  {
    var name := FileName(path);
    ContainerFileIff(name);
    if |name| >= 5 {
      assert name[|name| - 4..][0] == path[|path| - 4];
    }
  }

  /** The last five characters of the output path of a name ending in `.` and three more. */
  lemma OutputTail(path: string)
    requires |path| >= 4 && path[|path| - 4] == '.'
    ensures var o := OutputName(path).value;
      o[|o| - 5..] == ".U" + path[|path| - 3..] && o[|o| - 4] != '.'
  {
    var o := OutputName(path).value;
    var tail := ".U" + path[|path| - 3..];
    forall j | 0 <= j < 5 ensures o[|o| - 5..][j] == tail[j] {
      if j >= 2 {
        assert o[|o| - 5 + j] == path[|path| - 5 + j];
      }
    }
  }

  /** The output of a container file has extension `.UCGO` or `.UDGO`, so a second pass
      over the same directory skips it. */
  lemma OutputSkipped(path: string)
    requires IsContainerFile(path)
    ensures |path| >= 5 && OutputName(path).Some?
    ensures var o := OutputName(path).value;
      o[|o| - 5..] == ".U" + path[|path| - 3..] && !IsContainerFile(o)
  {
    var name := FileName(path);
    ContainerFileIff(name);
    assert path[|path| - 4] == name[|name| - 4..][0] == '.';
    OutputTail(path);
    FourthLastNotDot(OutputName(path).value);
  }
}
