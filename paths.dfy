/**
 * Rust's `std::path::Path` file-name and extension rules on a Unix path.
 *
 * Only `/` separates components: Windows separators and prefixes such as
 * `C:` are not modelled.
 *
 * An OS string is a sequence of units: a Unicode scalar value, or a single raw
 * byte of 0x80 or above (ASCII bytes always decode). By convention the bytes of
 * a path are given in decoded form: every well-formed UTF-8 sequence appears as
 * its character, and `Raw` holds only the bytes left over. The type does not
 * enforce this convention; under it, `to_str` succeeds exactly when there is no
 * raw byte.
 */
module Paths {
  import opened Wrappers

  newtype HighByte = x: int | 0x80 <= x < 0x100 witness 0x80

  datatype Unit = Char(c: char) | Raw(b: HighByte)

  type OsStr = seq<Unit>

  const Slash: Unit := Char('/')
  const Dot: Unit := Char('.')

  /** The OS string holding exactly the characters of `s`. */
  function FromString(s: string): (r: OsStr)
    ensures |r| == |s|
    ensures forall i :: 0 <= i < |s| ==> r[i] == Char(s[i])
  {
    if s == [] then [] else [Char(s[0])] + FromString(s[1..])
  }

  /** `OsStr::to_str`: the characters, when every unit is one. */
  function ToStr(u: OsStr): Option<string> {
    if u == [] then Some([])
    else if u[0].Raw? then None
    else match ToStr(u[1..])
      case None => None
      case Some(rest) => Some([u[0].c] + rest)
  }

  /** Index of the first occurrence of `x` in `s`. */
  function FirstIndex(s: OsStr, x: Unit): (i: nat)
    requires x in s
    ensures i < |s| && s[i] == x && x !in s[..i]
  {
    if s[0] == x then 0 else 1 + FirstIndex(s[1..], x)
  }

  /** Splits `p` at every `/`. */
  function Split(p: OsStr): seq<OsStr>
    decreases |p|
  {
    if Slash !in p then [p]
    else
      var i := FirstIndex(p, Slash);
      [p[..i]] + Split(p[i + 1..])
  }

  /**
   * The pieces that `Path::components` reports as normal components or `..`:
   * empty pieces (repeated or trailing separators) and `.` pieces are dropped.
   */
  function Normal(pieces: seq<OsStr>): seq<OsStr> {
    if pieces == [] then []
    else
      var rest := Normal(pieces[1..]);
      if pieces[0] == [] || pieces[0] == [Dot] then rest else [pieces[0]] + rest
  }

  /**
   * `Path::file_name`: the last component when it is a normal one; none for
   * a path that is empty, the root, `.` or ends in `..`.
   */
  function FileName(p: OsStr): Option<OsStr> {
    var comps := Normal(Split(p));
    if comps == [] then None
    else
      var last := comps[|comps| - 1];
      if last == [Dot, Dot] then None else Some(last)
  }

  /** Index of the last occurrence of `x` in `s`, if any. */
  function LastIndex(s: OsStr, x: Unit): (r: Option<nat>)
    ensures r.Some? ==> r.value < |s|
  {
    if s == [] then None
    else if s[|s| - 1] == x then Some(|s| - 1)
    else LastIndex(s[..|s| - 1], x)
  }

  /**
   * The extension rule applied to a file name (`rsplit_file_at_dot`): the text
   * after the last `.`, unless there is no `.` or the only one starts the name.
   */
  function NameExtension(name: OsStr): Option<OsStr> {
    if name == [Dot, Dot] then None
    else match LastIndex(name, Dot)
      case None => None
      case Some(i) => if i == 0 then None else Some(name[i + 1..])
  }

  /** `Path::extension`. */
  function Extension(p: OsStr): Option<OsStr> {
    match FileName(p)
    case None => None
    case Some(name) => NameExtension(name)
  }

  /** `path.extension().and_then(|s| s.to_str())`. */
  function ExtensionStr(p: OsStr): Option<string> {
    match Extension(p)
    case None => None
    case Some(e) => ToStr(e)
  }

  // Properties of the rules above.

  lemma {:induction false} ToStrIsUtf8Check(u: OsStr)
    ensures ToStr(u).Some? <==> forall i :: 0 <= i < |u| ==> u[i].Char?
    ensures ToStr(u).Some? ==> FromString(ToStr(u).value) == u
  {
    if u != [] {
      ToStrIsUtf8Check(u[1..]);
      if ToStr(u).Some? {
        assert u == [u[0]] + u[1..];
      } else if u[0].Char? {
        var i :| 0 <= i < |u[1..]| && !u[1..][i].Char?;
        assert !u[i + 1].Char?;
      }
    }
  }

  lemma {:induction false} SplitHasNoSlash(p: OsStr)
    ensures forall k :: 0 <= k < |Split(p)| ==> Slash !in Split(p)[k]
    decreases |p|
  {
    if Slash in p {
      SplitHasNoSlash(p[FirstIndex(p, Slash) + 1..]);
    }
  }

  lemma {:induction false} NormalPieces(pieces: seq<OsStr>)
    ensures forall k :: 0 <= k < |Normal(pieces)| ==>
              Normal(pieces)[k] != [] && Normal(pieces)[k] != [Dot] && Normal(pieces)[k] in pieces
  {
    if pieces != [] {
      NormalPieces(pieces[1..]);
    }
  }

  /** A file name is a non-empty piece between separators, never `.` or `..`. */
  lemma FileNameIsNormal(p: OsStr)
    ensures FileName(p).Some? ==>
              var n := FileName(p).value;
              n != [] && n != [Dot] && n != [Dot, Dot] && Slash !in n
  {
    SplitHasNoSlash(p);
    NormalPieces(Split(p));
  }

  lemma {:induction false} LastIndexFindsLast(s: OsStr, x: Unit)
    ensures LastIndex(s, x).None? <==> x !in s
    ensures LastIndex(s, x).Some? ==>
              var i := LastIndex(s, x).value; s[i] == x && x !in s[i + 1..]
  {
    if s != [] && s[|s| - 1] != x {
      LastIndexFindsLast(s[..|s| - 1], x);
      assert s == s[..|s| - 1] + [s[|s| - 1]];
      if LastIndex(s, x).Some? {
        var i := LastIndex(s, x).value;
        assert s[i + 1..] == s[..|s| - 1][i + 1..] + [s[|s| - 1]];
      }
    }
  }

  /** The extension of a name is what follows its last dot, which is not the first character. */
  lemma NameExtensionAfterLastDot(name: OsStr)
    ensures NameExtension(name).Some? ==> Dot !in NameExtension(name).value
    ensures NameExtension(name).Some? ==>
              exists i :: 0 < i < |name| && name[i] == Dot && NameExtension(name).value == name[i + 1..]
    ensures NameExtension(name).None? <==>
              name == [Dot, Dot] || Dot !in name || LastIndex(name, Dot) == Some(0)
  {
    LastIndexFindsLast(name, Dot);
  }

  /** An extension never holds a dot or a separator. */
  lemma ExtensionHasNoDot(p: OsStr)
    ensures Extension(p).Some? ==> Dot !in Extension(p).value && Slash !in Extension(p).value
  {
    FileNameIsNormal(p);
    if FileName(p).Some? {
      var n := FileName(p).value;
      NameExtensionAfterLastDot(n);
      if Extension(p).Some? {
        var i :| 0 < i < |n| && n[i] == Dot && Extension(p).value == n[i + 1..];
        assert forall k :: 0 <= k < |n| - i - 1 ==> Extension(p).value[k] == n[i + 1 + k];
      }
    }
  }

  /** The UTF-8 extension: present exactly when the extension is, and it is valid UTF-8. */
  lemma ExtensionStrHasNoDot(p: OsStr)
    ensures ExtensionStr(p).Some? ==> '.' !in ExtensionStr(p).value && '/' !in ExtensionStr(p).value
    ensures ExtensionStr(p).Some? ==> Extension(p) == Some(FromString(ExtensionStr(p).value))
    ensures ExtensionStr(p).None? <==> Extension(p).None? || ToStr(Extension(p).value).None?
  {
    ExtensionHasNoDot(p);
    if ExtensionStr(p).Some? {
      var e := Extension(p).value;
      var s := ExtensionStr(p).value;
      ToStrIsUtf8Check(e);
      assert forall k :: 0 <= k < |s| ==> e[k] == Char(s[k]);
    }
  }

  lemma {:induction false} ToStrFromString(s: string)
    ensures ToStr(FromString(s)) == Some(s)
  {
    if s != [] {
      assert FromString(s)[1..] == FromString(s[1..]);
      ToStrFromString(s[1..]);
      assert [s[0]] + s[1..] == s;
    }
  }

  lemma {:induction false} FromStringAppend(a: string, b: string)
    ensures FromString(a + b) == FromString(a) + FromString(b)
  {
    if a != [] {
      assert (a + b)[1..] == a[1..] + b;
      FromStringAppend(a[1..], b);
    }
  }

  /** A trailing piece after the last separator is the last piece of the split. */
  lemma {:induction false} SplitLast(dir: OsStr, name: OsStr)
    requires Slash !in name
    ensures Split(dir + [Slash] + name) == Split(dir) + [name]
    decreases |dir|
  {
    if Slash !in dir {
      SplitAfterFirstPiece(dir, name);
      assert Split(dir) == [dir];
    } else {
      var i := FirstIndex(dir, Slash);
      var tail := dir[i + 1..];
      SplitInsideFirstPiece(dir, name);
      SplitLast(tail, name);
      assert Split(dir) == [dir[..i]] + Split(tail);
      assert [dir[..i]] + (Split(tail) + [name]) == ([dir[..i]] + Split(tail)) + [name];
    }
  }

  /** With no `/` in `dir`, the separator after it ends the first piece. */
  lemma SplitAfterFirstPiece(dir: OsStr, name: OsStr)
    requires Slash !in dir && Slash !in name
    ensures Split(dir + [Slash] + name) == [dir] + [name]
  {
    var p := dir + [Slash] + name;
    assert p == dir + ([Slash] + name);
    FirstIndexPrefix(dir, [Slash] + name);
    assert p[..|dir|] == dir;
    assert p[|dir| + 1..] == name;
    assert Split(p) == [p[..|dir|]] + Split(p[|dir| + 1..]);
    assert Split(name) == [name];
  }

  /** With a `/` in `dir`, the first piece ends at that `/`. */
  lemma SplitInsideFirstPiece(dir: OsStr, name: OsStr)
    requires Slash in dir
    ensures var i := FirstIndex(dir, Slash);
            Split(dir + [Slash] + name) == [dir[..i]] + Split(dir[i + 1..] + [Slash] + name)
  {
    var p := dir + [Slash] + name;
    var i := FirstIndex(dir, Slash);
    var tail := dir[i + 1..];
    assert p == dir[..i + 1] + (tail + [Slash] + name);
    assert Slash in dir[..i + 1] by { assert dir[..i + 1][i] == Slash; }
    FirstIndexPrefix(dir[..i + 1], tail + [Slash] + name);
    FirstIndexUnique(dir[..i + 1], i);
    assert p[..i] == dir[..i];
    assert p[i + 1..] == tail + [Slash] + name;
  }


  /** The first `/` of `a + b` lies in `a` when `a` has one, right after `a` when `b` starts with one. */
  lemma FirstIndexPrefix(a: OsStr, b: OsStr)
    requires Slash in a || (b != [] && b[0] == Slash)
    ensures FirstIndex(a + b, Slash) == if Slash in a then FirstIndex(a, Slash) else |a|
  {
    var p := a + b;
    var i := if Slash in a then FirstIndex(a, Slash) else |a|;
    assert p[i] == Slash && Slash !in p[..i] by {
      assert p[..i] == a[..i];
    }
    FirstIndexUnique(p, i);
  }

  lemma {:induction false} FirstIndexUnique(s: OsStr, i: nat)
    requires i < |s| && s[i] == Slash && Slash !in s[..i]
    ensures FirstIndex(s, Slash) == i
  {
    if s[0] != Slash {
      assert s[1..][..i - 1] == s[..i][1..];
      FirstIndexUnique(s[1..], i - 1);
    }
  }

  lemma {:induction false} NormalAppend(x: seq<OsStr>, y: seq<OsStr>)
    ensures Normal(x + y) == Normal(x) + Normal(y)
  {
    if x != [] {
      assert (x + y)[0] == x[0];
      assert (x + y)[1..] == x[1..] + y;
      NormalAppend(x[1..], y);
    } else {
      assert x + y == y;
    }
  }

  /** The file name of `dir/name` is `name`, for any normal `name`. */
  lemma FileNameOfChild(dir: OsStr, name: OsStr)
    requires Slash !in name && name != [] && name != [Dot] && name != [Dot, Dot]
    ensures FileName(dir + [Slash] + name) == Some(name)
  {
    SplitLast(dir, name);
    NormalAppend(Split(dir), [name]);
    assert Normal([name]) == [name];
  }

  /** A bare normal name is its own file name. */
  lemma FileNameOfName(name: OsStr)
    requires Slash !in name && name != [] && name != [Dot] && name != [Dot, Dot]
    ensures FileName(name) == Some(name)
  {
    assert Normal([name]) == [name];
  }

  /** A path that is empty, is `..`, or ends in `..` has no file name. */
  lemma ParentHasNoFileName(dir: OsStr)
    ensures FileName([]) == None
    ensures FileName([Dot, Dot]) == None
    ensures FileName(dir + [Slash, Dot, Dot]) == None
  {
    assert Normal([[Dot, Dot]]) == [[Dot, Dot]];
    SplitLast(dir, [Dot, Dot]);
    assert dir + [Slash, Dot, Dot] == dir + [Slash] + [Dot, Dot];
    NormalAppend(Split(dir), [[Dot, Dot]]);
  }

  /** Trailing separators and trailing `.` components are skipped: `dir/name/` and `dir/name/.` name `name`. */
  lemma TrailingComponentsSkipped(dir: OsStr, name: OsStr)
    requires Slash !in name && name != [] && name != [Dot] && name != [Dot, Dot]
    ensures FileName(dir + [Slash] + name + [Slash]) == Some(name)
    ensures FileName(dir + [Slash] + name + [Slash, Dot]) == Some(name)
  {
    var q := dir + [Slash] + name;
    SplitLast(dir, name);
    SplitLast(q, []);
    SplitLast(q, [Dot]);
    assert q + [Slash] == q + [Slash] + [];
    assert q + [Slash, Dot] == q + [Slash] + [Dot];
    NormalAppend(Split(dir) + [name], [[]]);
    NormalAppend(Split(dir) + [name], [[Dot]]);
    NormalAppend(Split(dir), [name]);
    assert Normal([name]) == [name];
    assert Normal([[]]) == [];
    assert Normal([[Dot]]) == [];
  }

  /** The dot written before a dot-free `ext` is the last one. */
  lemma {:induction false} LastDotBefore(stem: OsStr, ext: OsStr)
    requires Dot !in ext
    ensures LastIndex(stem + [Dot] + ext, Dot) == Some(|stem|)
  {
    var n := stem + [Dot] + ext;
    if ext == [] {
      assert n[|n| - 1] == Dot;
    } else {
      var ext' := ext[..|ext| - 1];
      assert n[..|n| - 1] == stem + [Dot] + ext';
      LastDotBefore(stem, ext');
    }
  }

  /** `stem.ext` has extension `ext` when `ext` holds no dot and `stem` is not empty. */
  lemma ExtensionAfterLastDot(stem: OsStr, ext: OsStr)
    requires stem != [] && Dot !in ext && stem + [Dot] + ext != [Dot, Dot]
    ensures NameExtension(stem + [Dot] + ext) == Some(ext)
  {
    LastDotBefore(stem, ext);
    assert (stem + [Dot] + ext)[|stem| + 1..] == ext;
  }

  /** A name whose only dot is its first character has no extension. */
  lemma HiddenNameHasNoExtension(rest: OsStr)
    requires Dot !in rest
    ensures NameExtension([Dot] + rest) == None
  {
    assert ([Dot] + rest)[1..] == rest;
    NameExtensionAfterLastDot([Dot] + rest);
  }

  /** The extension of `stem.ext`, alone or under a directory, is `ext`. */
  lemma ExtensionStrOfFile(dir: Option<string>, name: string, stem: string, ext: string)
    requires name == stem + "." + ext
    requires '/' !in stem && '/' !in ext && '.' !in ext && stem != [] && !(stem == "." && ext == [])
    ensures ExtensionStr(FromString(FileString(dir, name))) == Some(ext)
  {
    FromStringAppend(stem, "." + ext);
    FromStringAppend(".", ext);
    var n := FromString(name);
    assert n == FromString(stem) + [Dot] + FromString(ext);
    NameInFile(dir, name);
    ExtensionAfterLastDot(FromString(stem), FromString(ext));
    ToStrFromString(ext);
  }

  /** A file name that starts with its only dot gives no extension, alone or under a directory. */
  lemma HiddenFileHasNoExtension(dir: Option<string>, name: string, rest: string)
    requires name == "." + rest && '/' !in rest && '.' !in rest && rest != []
    ensures ExtensionStr(FromString(FileString(dir, name))) == None
  {
    FromStringAppend(".", rest);
    NameInFile(dir, name);
    HiddenNameHasNoExtension(FromString(rest));
  }

  /** `dir/name`, or `name` alone. */
  function FileString(dir: Option<string>, name: string): string {
    match dir
    case None => name
    case Some(d) => d + "/" + name
  }

  lemma NameInFile(dir: Option<string>, name: string)
    requires '/' !in name && name != [] && name != "." && name != ".."
    ensures FileName(FromString(FileString(dir, name))) == Some(FromString(name))
  {
    var n := FromString(name);
    assert Slash !in n;
    assert n != [Dot] && n != [Dot, Dot] by {
      assert |n| == 1 ==> n[0] == Char(name[0]);
      assert |n| == 2 ==> n[0] == Char(name[0]) && n[1] == Char(name[1]);
      assert |name| == 1 ==> name == [name[0]];
      assert |name| == 2 ==> name == [name[0], name[1]];
    }
    match dir
    case None => FileNameOfName(n);
    case Some(d) =>
      FromStringAppend(d + "/", name);
      FromStringAppend(d, "/");
      assert FromString("/") == [Slash];
      assert FromString(d + "/" + name) == FromString(d) + [Slash] + n;
      FileNameOfChild(FromString(d), n);
  }

  /** A file name without a dot has no extension, alone or under a directory. */
  lemma NoDotFileHasNoExtension(dir: Option<string>, name: string)
    requires '/' !in name && '.' !in name && name != []
    ensures ExtensionStr(FromString(FileString(dir, name))) == None
  {
    NameInFile(dir, name);
    NameExtensionAfterLastDot(FromString(name));
  }
}
