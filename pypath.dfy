/**
  The parts of Python's `pathlib.PurePosixPath` and `str` the core relies
  on, on paths and strings held as sequences of characters: the last
  component (`name`), the directory above it (`parent`), the suffix, and
  lower-casing for the ASCII letters.
 */
module PyPath {
  /** The part of `path` after its last `/` (all of it when there is none). */
  function LastComponent(path: string): (c: string)
    ensures '/' !in c
    ensures |c| <= |path| && c == path[|path| - |c|..]
    ensures |c| < |path| ==> path[|path| - |c| - 1] == '/'
  {
    if path == [] || path[|path| - 1] == '/' then []
    else LastComponent(path[..|path| - 1]) + [path[|path| - 1]]
  }

  /** `path` without the `/` characters that end it. */
  function StripTrailing(path: string): (p: string)
    ensures |p| <= |path| && p == path[..|p|]
    ensures p == [] || p[|p| - 1] != '/'
    ensures forall j :: |p| <= j < |path| ==> path[j] == '/'
  {
    if path != [] && path[|path| - 1] == '/' then StripTrailing(path[..|path| - 1]) else path
  }

  /** `Path(path).name`: the last component, trailing separators ignored. */
  function Name(path: string): (n: string)
    ensures '/' !in n
  {
    LastComponent(StripTrailing(path))
  }

  /**
    `Path(path).parent`, as far as its `name` goes: the path up to and
    including the separator before its last component (the empty path
    when there is none).
   */
  function Parent(path: string): (p: string)
    ensures |p| <= |path| && p == path[..|p|]
  {
    var s := StripTrailing(path);
    s[..|s| - |LastComponent(s)|]
  }

  /** `name.rfind(c)`: the last index of `c` in `name`, or -1. */
  function RFind(name: string, c: char): (i: int)
    ensures -1 <= i < |name|
    ensures i >= 0 ==> name[i] == c
    ensures forall j :: i < j < |name| ==> name[j] != c
  {
    if name == [] then -1
    else if name[|name| - 1] == c then |name| - 1
    else RFind(name[..|name| - 1], c)
  }

  /** `rfind` finds the one occurrence of `c` after which no other follows. */
  lemma RFindLast(name: string, c: char, k: nat)
    requires k < |name| && name[k] == c
    requires forall j :: k < j < |name| ==> name[j] != c
    ensures RFind(name, c) == k
  {
  }

  /**
    The suffix of a file name: from its last `.` to its end, when that dot
    is neither the first nor the last character of the name; otherwise
    the empty string.
   */
  function NameSuffix(name: string): (s: string)
    ensures s != [] ==> 2 <= |s| < |name| && s == name[|name| - |s|..]
    ensures s != [] ==> s[0] == '.' && forall j :: 1 <= j < |s| ==> s[j] != '.'
    ensures s == [] <==> RFind(name, '.') <= 0 || RFind(name, '.') == |name| - 1
  {
    var i := RFind(name, '.');
    if 0 < i < |name| - 1 then name[i..] else []
  }

  /**
    `Path(path).suffix`: empty, or a dot and at least one more character,
    neither a dot nor a separator, that end the path (trailing separators
    ignored) and come after some other character of the last component.
   */
  function Suffix(path: string): (s: string)
    ensures s != [] ==> 2 <= |s| && s[0] == '.' && '/' !in s
    ensures forall j :: 1 <= j < |s| ==> s[j] != '.'
    ensures s != [] ==> |s| < |Name(path)| && s == StripTrailing(path)[|StripTrailing(path)| - |s|..]
  {
    var name, p := Name(path), StripTrailing(path);
    var s := NameSuffix(name);
    assert name == p[|p| - |name|..];
    s
  }

  /** `str.lower` on one character, for the ASCII letters. */
  function LowerChar(c: char): (l: char)
    ensures 'A' <= c <= 'Z' ==> 'a' <= l <= 'z' && l as int - c as int == 'a' as int - 'A' as int
    ensures !('A' <= c <= 'Z') ==> l == c
  {
    if 'A' <= c <= 'Z' then (c as int - 'A' as int + 'a' as int) as char else c
  }

  /** `str.lower`, for the ASCII letters. */
  function Lower(s: string): (l: string)
    ensures |l| == |s|
    ensures forall i :: 0 <= i < |s| ==> l[i] == LowerChar(s[i])
  {
    if s == [] then [] else [LowerChar(s[0])] + Lower(s[1..])
  }

  /** A component without separators is its own last component. */
  lemma {:induction false} LastComponentPlain(name: string)
    requires '/' !in name
    ensures LastComponent(name) == name
  {
    if name != [] {
      LastComponentPlain(name[..|name| - 1]);
      assert name == name[..|name| - 1] + [name[|name| - 1]];
    }
  }

  /** The last component of `dir/name` is `name`. */
  lemma {:induction false} LastComponentOf(dir: string, name: string)
    requires '/' !in name
    ensures LastComponent(dir + "/" + name) == name
  {
    if name != [] {
      var init := name[..|name| - 1];
      LastComponentOf(dir, init);
      assert (dir + "/" + name)[..|dir + "/" + name| - 1] == dir + "/" + init;
      assert name == init + [name[|name| - 1]];
    }
  }

  /** The name of `dir/name` is `name`, when `name` is one non-empty component. */
  lemma NameOfJoin(dir: string, name: string)
    requires name != [] && '/' !in name
    ensures Name(dir + "/" + name) == name
  {
    var path := dir + "/" + name;
    assert path[|path| - 1] == name[|name| - 1];
    assert StripTrailing(path) == path;
    LastComponentOf(dir, name);
  }

  /** The suffix of a name `stem.ext` is `.ext`. */
  lemma StemExtSuffix(stem: string, ext: string)
    requires stem != [] && ext != [] && '.' !in ext
    ensures NameSuffix(stem + "." + ext) == "." + ext
  {
    var name := stem + "." + ext;
    assert name[|stem|] == '.';
    assert forall j :: |stem| < j < |name| ==> name[j] == ext[j - |stem| - 1];
    RFindLast(name, '.', |stem|);
    assert name[|stem|..] == "." + ext;
  }

  /** The suffix of a path `dir/stem.ext` is `.ext`. */
  lemma PlainNameSuffix(dir: string, stem: string, ext: string)
    requires stem != [] && ext != []
    requires '/' !in stem && '/' !in ext && '.' !in ext
    ensures Suffix(dir + "/" + stem + "." + ext) == "." + ext
  {
    assert dir + "/" + stem + "." + ext == dir + "/" + (stem + "." + ext);
    NameOfJoin(dir, stem + "." + ext);
    StemExtSuffix(stem, ext);
  }

  /** A name that only starts with a dot, such as `.json`, has no suffix at all. */
  lemma HiddenName(dir: string, ext: string)
    requires ext != [] && '/' !in ext && '.' !in ext
    ensures Suffix(dir + "/" + "." + ext) == []
  {
    assert dir + "/" + "." + ext == dir + "/" + ("." + ext);
    NameOfJoin(dir, "." + ext);
    RFindLast("." + ext, '.', 0);
  }

  /** The parent of `dir/series/file` is named `series`. */
  lemma ParentName(dir: string, series: string, file: string)
    requires series != [] && '/' !in series
    requires file != [] && '/' !in file
    ensures Name(Parent(dir + "/" + series + "/" + file)) == series
  {
    var top := dir + "/" + series;
    var path := top + "/" + file;
    assert path[|path| - 1] == file[|file| - 1];
    assert StripTrailing(path) == path;
    LastComponentOf(top, file);
    assert Parent(path) == top + "/";
    assert (top + "/")[..|top + "/"| - 1] == top;
    assert top[|top| - 1] == series[|series| - 1];
    assert StripTrailing(top) == top;
    LastComponentOf(dir, series);
  }
}
