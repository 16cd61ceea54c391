/**
 * The parts of `System.IO.Path` the renamer calls, with Windows conventions: both `\` and
 * `/` separate directories, and `X:` at the start of a path names a drive.
 */
module Paths {
  import opened Text

  predicate IsDirectorySeparator(c: char) {
    c == '\\' || c == '/'
  }

  predicate HasSeparator(s: string) {
    exists i :: 0 <= i < |s| && IsDirectorySeparator(s[i])
  }

  /**
   * The index of the last `.` that comes after every directory separator of `p`, or -1
   * when there is none.
   */
  function LastDotIndex(p: string): (i: int)
    ensures -1 <= i < |p|
    ensures i >= 0 ==> p[i] == '.' && forall j :: i < j < |p| ==> p[j] != '.' && !IsDirectorySeparator(p[j])
    ensures i < 0 ==> forall j :: 0 <= j < |p| && p[j] == '.' ==>
      exists k :: j < k < |p| && IsDirectorySeparator(p[k])
  {
    if p == [] then -1
    else if p[|p| - 1] == '.' then |p| - 1
    else if IsDirectorySeparator(p[|p| - 1]) then -1
    else LastDotIndex(p[..|p| - 1])
  }

  /**
   * `Path.GetExtension`: from the last `.` after the last separator to the end, or empty
   * when there is no such `.` or it is the last character.
   */
  function GetExtension(p: string): (r: string)
    ensures r != [] ==> 2 <= |r| <= |p| && r[0] == '.' && r == p[|p| - |r|..]
    ensures r != [] ==> forall j :: 1 <= j < |r| ==> r[j] != '.' && !IsDirectorySeparator(r[j])
    ensures r != [] <==> p != [] && p[|p| - 1] != '.' && exists j :: 0 <= j < |p| && DotAfterSeparators(p, j)
  {
    var i := LastDotIndex(p);
    assert i >= 0 ==> DotAfterSeparators(p, i);
    if i < 0 || i == |p| - 1 then "" else p[i..]
  }

  /** `p[j]` is a `.` with no directory separator after it. */
  predicate DotAfterSeparators(p: string, j: int)
    requires 0 <= j < |p|
  {
    p[j] == '.' && forall k :: j < k < |p| ==> !IsDirectorySeparator(p[k])
  }

  /** `Path.ChangeExtension(p, ext)` for a non-null `ext`. */
  function ChangeExtension(p: string, ext: string): string {
    if p == [] then p
    else
      var i := LastDotIndex(p);
      var stem := if i < 0 then p else p[..i];
      if ext == [] || ext[0] != '.' then stem + "." + ext else stem + ext
  }

  /** An extension `Path.GetExtension` can return: a dot and at least one character, no other dot, no separator. */
  predicate IsExtension(ext: string) {
    |ext| >= 2 && ext[0] == '.' && forall j :: 1 <= j < |ext| ==> ext[j] != '.' && !IsDirectorySeparator(ext[j])
  }

  /** The new extension is what `GetExtension` then reads back. */
  lemma ChangeExtensionThenGet(p: string, ext: string)
    requires p != [] && IsExtension(ext)
    ensures GetExtension(ChangeExtension(p, ext)) == ext
  {
    var i := LastDotIndex(p);
    var stem := if i < 0 then p else p[..i];
    var q := stem + ext;
    assert ChangeExtension(p, ext) == q;
    LastDotOfSuffix(stem, ext);
  }

  lemma {:induction false} LastDotOfSuffix(stem: string, ext: string)
    requires IsExtension(ext)
    ensures LastDotIndex(stem + ext) == |stem|
    decreases |ext|
  {
    var q := stem + ext;
    if |ext| == 1 {
    } else {
      assert q[..|q| - 1] == stem + ext[..|ext| - 1];
      if |ext| == 2 {
        assert q[..|q| - 1] == stem + ".";
      } else {
        LastDotOfSuffix(stem, ext[..|ext| - 1]);
      }
    }
  }

  /** Two extension changes in a row are the last one alone: the stem is kept. */
  lemma ChangeExtensionTwice(p: string, ext: string, ext2: string)
    requires p != [] && IsExtension(ext)
    ensures ChangeExtension(ChangeExtension(p, ext), ext2) == ChangeExtension(p, ext2)
  {
    var i := LastDotIndex(p);
    var stem := if i < 0 then p else p[..i];
    LastDotOfSuffix(stem, ext);
    assert (stem + ext)[..|stem|] == stem;
  }

  /** `Path.GetFileName`: the text after the last separator. */
  function GetFileName(p: string): (r: string)
    ensures |r| <= |p| && r == p[|p| - |r|..]
    ensures !HasSeparator(r)
    ensures |r| < |p| ==> IsDirectorySeparator(p[|p| - |r| - 1])
  {
    if p == [] then []
    else if IsDirectorySeparator(p[|p| - 1]) then []
    else GetFileName(p[..|p| - 1]) + [p[|p| - 1]]
  }

  /** `Path.GetFileNameWithoutExtension`: the file name up to its last `.`. */
  function GetFileNameWithoutExtension(p: string): string {
    var f := GetFileName(p);
    var i := LastDotIndex(f);
    if i < 0 then f else f[..i]
  }

  /** `Path.IsPathRooted`. */
  predicate IsPathRooted(p: string) {
    (|p| >= 1 && IsDirectorySeparator(p[0]))
    || (|p| >= 2 && (('a' <= p[0] <= 'z') || ('A' <= p[0] <= 'Z')) && p[1] == ':')
  }

  /** `Path.Combine(a, b)`. */
  function Combine(a: string, b: string): string {
    if b == [] then a
    else if a == [] then b
    else if IsPathRooted(b) then b
    else if IsDirectorySeparator(a[|a| - 1]) || IsDirectorySeparator(b[0]) then a + b
    else a + "\\" + b
  }

  /** A plain file name joined to a directory is the file name of the joined path. */
  lemma CombineThenFileName(dir: string, name: string)
    requires dir != [] && name != [] && !HasSeparator(name) && !IsPathRooted(name)
    ensures GetFileName(Combine(dir, name)) == name
  {
    var p := Combine(dir, name);
    var r := GetFileName(p);
    assert p[|p| - |name|..] == name;
    assert IsDirectorySeparator(p[|p| - |name| - 1]);
  }

  /** The path `Directory.Exists` looks up: trailing separators do not matter. */
  function DirectoryKey(p: string): (r: string)
    ensures |r| <= |p| && r == p[..|r|] && (r == [] || !IsDirectorySeparator(r[|r| - 1]))
  {
    if p != [] && IsDirectorySeparator(p[|p| - 1]) then DirectoryKey(p[..|p| - 1]) else p
  }
}
