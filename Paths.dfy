/**
 * The parts of .NET's `System.IO.Path` that the program relies on, with
 * Windows conventions: both `\` and `/` separate directories, and a path
 * that starts with a separator or with a drive letter and `:` is rooted.
 */
module Paths {
  import opened Text

  const DirectorySeparator: char := '\\'

  predicate IsSeparator(c: char) { c == '\\' || c == '/' }

  predicate NoSeparator(s: string) { forall i :: 0 <= i < |s| ==> !IsSeparator(s[i]) }

  /** `Path.IsPathRooted`: a leading separator, or a drive letter followed by `:`. */
  predicate IsRooted(p: string)
  {
    (|p| >= 1 && IsSeparator(p[0])) ||
    (|p| >= 2 && (IsUpperLetter(p[0]) || IsLowerLetter(p[0])) && p[1] == ':')
  }

  /**
   * `Path.GetFileName`: what follows the last separator. The result is a
   * suffix of the path, holds no separator, and is the whole path or is
   * preceded by a separator.
   */
  function FileName(path: string): (r: string)
    ensures |r| <= |path| && r == path[|path| - |r|..]
    ensures NoSeparator(r)
    ensures |r| < |path| ==> IsSeparator(path[|path| - |r| - 1])
  {
    if path == [] then []
    else if IsSeparator(path[|path| - 1]) then []
    else
      var init, last := path[..|path| - 1], path[|path| - 1];
      var f := FileName(init);
      assert init[|init| - |f|..] + [last] == path[|path| - |f| - 1..];
      assert |f| < |init| ==> path[|path| - |f| - 2] == init[|init| - |f| - 1];
      NoSeparatorAppend(f, [last]);
      f + [last]
  }

  /** The position of the last `.` in `s`, if any. */
  function LastDot(s: string): (r: Option<nat>)
    ensures r.None? <==> '.' !in s
    ensures r.Some? ==> r.value < |s| && s[r.value] == '.' && '.' !in s[r.value + 1..]
  {
    if s == [] then None
    else if s[|s| - 1] == '.' then Some(|s| - 1)
    else
      var r := LastDot(s[..|s| - 1]);
      assert s == s[..|s| - 1] + [s[|s| - 1]];
      if r.Some? then
        assert s[r.value + 1..] == s[..|s| - 1][r.value + 1..] + [s[|s| - 1]];
        r
      else r
  }

  /**
   * `Path.GetExtension`: from the last `.` of the file name to its end; empty
   * when the file name has no `.` or ends with one.
   */
  function Extension(path: string): string
  {
    NameExtension(FileName(path))
  }

  /** `Path.GetFileNameWithoutExtension`: the file name up to its last `.`. */
  function Stem(path: string): string
  {
    NameStem(FileName(path))
  }

  function NameExtension(name: string): string
  {
    match LastDot(name)
    case None => ""
    case Some(i) => if i == |name| - 1 then "" else name[i..]
  }

  function NameStem(name: string): string
  {
    match LastDot(name)
    case None => name
    case Some(i) => name[..i]
  }

  /**
   * The extension is empty or a `.` followed by at least one character and
   * no further `.`.
   */
  lemma ExtensionShape(path: string)
    ensures var ext := Extension(path);
      ext == "" || (|ext| >= 2 && ext[0] == '.' && '.' !in ext[1..])
  {
    NameExtensionShape(FileName(path));
  }

  lemma NameExtensionShape(name: string)
    ensures var ext := NameExtension(name);
      ext == "" || (|ext| >= 2 && ext[0] == '.' && '.' !in ext[1..])
  {
    var d := LastDot(name);
    if d.Some? && d.value < |name| - 1 {
      var ext := name[d.value..];
      assert ext[1..] == name[d.value + 1..];
    }
  }

  /** Neither the stem nor the extension holds a separator. */
  lemma StemAndExtensionHaveNoSeparator(path: string)
    ensures NoSeparator(Stem(path)) && NoSeparator(Extension(path))
  {
    NamePartsHaveNoSeparator(FileName(path));
  }

  lemma NamePartsHaveNoSeparator(name: string)
    requires NoSeparator(name)
    ensures NoSeparator(NameStem(name)) && NoSeparator(NameExtension(name))
  {
    match LastDot(name)
    case None =>
    case Some(i) =>
      var stem := name[..i];
      assert forall k :: 0 <= k < |stem| ==> stem[k] == name[k];
      if i < |name| - 1 {
        var ext := name[i..];
        assert forall k :: 0 <= k < |ext| ==> ext[k] == name[i + k];
      }
  }

  /**
   * Stem and extension make up the file name again, except that a trailing
   * `.` belongs to neither; a name without `.` is all stem, and a name with a
   * `.` before its last character has an extension.
   */
  lemma StemAndExtensionRebuildName(path: string)
    ensures var name := FileName(path);
      if name != [] && name[|name| - 1] == '.' then
        Stem(path) + "." == name && Extension(path) == ""
      else
        Stem(path) + Extension(path) == name
    ensures '.' !in FileName(path) ==> Stem(path) == FileName(path) && Extension(path) == ""
    ensures var name := FileName(path);
      '.' in name && name[|name| - 1] != '.' ==> Extension(path) != ""
  {
    var name := FileName(path);
    assert Stem(path) == NameStem(name) && Extension(path) == NameExtension(name);
    NameSplit(name);
  }

  lemma NameSplit(name: string)
    ensures if name != [] && name[|name| - 1] == '.' then
        NameStem(name) + "." == name && NameExtension(name) == ""
      else
        NameStem(name) + NameExtension(name) == name
    ensures '.' !in name ==> NameStem(name) == name && NameExtension(name) == ""
  {
    match LastDot(name)
    case None =>
    case Some(i) =>
      if i < |name| - 1 {
        assert name == name[..i] + name[i..];
      } else {
        assert name == name[..i] + ".";
      }
  }

  /**
   * `Path.Combine(first, second)`: `second` alone when `first` is empty or
   * `second` is rooted; otherwise the two joined by one separator, none being
   * added when either already has one at the joint.
   */
  function Combine(first: string, second: string): string
  {
    if first == [] then second
    else if second == [] then first
    else if IsRooted(second) then second
    else if IsSeparator(first[|first| - 1]) || IsSeparator(second[0]) then first + second
    else first + [DirectorySeparator] + second
  }

  /**
   * Combining with a relative, non-empty `second` that starts with no
   * separator keeps `second` whole at the end, behind a separator unless
   * `first` is empty.
   */
  lemma CombineRelative(first: string, second: string)
    requires second != [] && !IsRooted(second) && !IsSeparator(second[0])
    ensures var r := Combine(first, second);
      |r| >= |second| && r[|r| - |second|..] == second &&
      (first != [] ==> |r| > |second| && IsSeparator(r[|r| - |second| - 1]))
  {
  }

  /** The file name of a path ending in `b` behind a separator (or of `b` alone) is `b`. */
  lemma FileNameAfterSeparator(a: string, b: string)
    requires a == [] || IsSeparator(a[|a| - 1])
    requires NoSeparator(b)
    ensures FileName(a + b) == b
  {
    var p := a + b;
    var r := FileName(p);
    assert forall k :: |a| <= k < |p| ==> p[k] == b[k - |a|];
    assert forall k :: |p| - |r| <= k < |p| ==> p[k] == r[k - (|p| - |r|)];
    assert a != [] ==> IsSeparator(p[|a| - 1]);
    assert |r| == |b|;
    assert p[|a|..] == b;
  }

  lemma NoSeparatorAppend(a: string, b: string)
    requires NoSeparator(a) && NoSeparator(b)
    ensures NoSeparator(a + b)
  {
    assert forall i :: 0 <= i < |a + b| ==> (a + b)[i] == if i < |a| then a[i] else b[i - |a|];
  }
}
