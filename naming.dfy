/**
 * Derived-key naming: `ThumbnailAndFulltextComponent.change_filename_extension`
 * and the `os.path.splitext` (POSIX flavour) it is built on.
 */
module Naming {
  import opened Wrappers

  /** The exception raised when a key has no usable basename. */
  datatype NamingError = InvalidFilename(filename: string)

  /** The pair `(root, ext)` returned by `os.path.splitext`. */
  datatype Split = Split(root: string, ext: string)

  /** `str.rfind` for one character: the index of the last `c` in `s`, or -1. */
  function LastIndexOf(s: string, c: char): (i: int)
    ensures -1 <= i < |s|
    ensures 0 <= i ==> s[i] == c
  {
    if s == [] then -1
    else if s[|s| - 1] == c then |s| - 1
    else LastIndexOf(s[..|s| - 1], c)
  }

  /** Nothing after the index LastIndexOf returns is `c`. */
  lemma {:induction false} LastIndexOfIsLast(s: string, c: char)
    ensures forall j :: LastIndexOf(s, c) < j < |s| ==> s[j] != c
  {
    if s != [] && s[|s| - 1] != c {
      LastIndexOfIsLast(s[..|s| - 1], c);
    }
  }

  /**
   * `posixpath.splitext`: the extension starts at the last '.' that follows
   * the last '/', unless every character between that '/' and the dot is a
   * dot too (leading dots of a name, as in ".bashrc", are not an extension).
   * The extension is either empty or a dot followed by neither '.' nor '/'
   * (SplitExtShape).
   */
  function SplitExt(p: string): (r: Split)
    ensures r.root + r.ext == p
    ensures r.root == [] <==> p == []
    ensures r.ext != [] ==> r.ext[0] == '.'
  {
    var sepIndex := LastIndexOf(p, '/');
    var dotIndex := LastIndexOf(p, '.');
    if sepIndex < dotIndex && exists j | sepIndex < j < dotIndex :: p[j] != '.' then
      Split(p[..dotIndex], p[dotIndex..])
    else
      Split(p, [])
  }

  /** A non-empty extension holds one dot, its first character, and no '/'. */
  lemma SplitExtShape(p: string)
    ensures var ext := SplitExt(p).ext;
            ext != [] ==> '.' !in ext[1..] && '/' !in ext
  {
    var sepIndex := LastIndexOf(p, '/');
    var dotIndex := LastIndexOf(p, '.');
    LastIndexOfIsLast(p, '/');
    LastIndexOfIsLast(p, '.');
    if SplitExt(p).ext != [] {
      assert p[dotIndex..][1..] == p[dotIndex + 1..];
    }
  }

  /** `s.replace(c, "")` for a one-character pattern. */
  function RemoveAll(s: string, c: char): (r: string)
    ensures |r| <= |s|
  {
    if s == [] then []
    else if s[0] == c then RemoveAll(s[1..], c)
    else [s[0]] + RemoveAll(s[1..], c)
  }

  /** The result holds no `c`, and a string without `c` is left as it is. */
  lemma {:induction false} RemoveAllRemoves(s: string, c: char)
    ensures c !in RemoveAll(s, c)
    ensures c !in s ==> RemoveAll(s, c) == s
  {
    if s != [] {
      RemoveAllRemoves(s[1..], c);
      assert s == [s[0]] + s[1..];
    }
  }

  /**
   * `change_filename_extension(filename, extension)`: a key without an
   * extension gets "." + extension appended; otherwise the dot of its
   * extension becomes "-" and "." + extension is appended, so that
   * "doc.pdf" and "doc.txt" do not share a derived key (the two shapes are
   * NoExtensionCase and ExtensionCase below). Either way the derived key is
   * a stem as long as the key, then "." + extension. Raises on a key with an
   * empty basename, which happens exactly for the empty key.
   */
  function ChangeFilenameExtension(filename: string, extension: string): (r: Result<string, NamingError>)
    ensures r.Failure? <==> filename == []
    ensures r.Failure? ==> r.error == InvalidFilename(filename)
    ensures r.Success? ==> |r.value| == |filename| + 1 + |extension| && r.value[|filename|..] == "." + extension
  {
    var s := SplitExt(filename);
    if s.root == [] then
      Failure(InvalidFilename(filename))
    else if s.ext == [] then
      Success(s.root + "." + extension)
    else
      // the extension holds exactly one dot, its first character
      var v := s.root + "-" + RemoveAll(s.ext, '.') + "." + extension;
      assert RemoveAll(s.ext, '.') == s.ext[1..] by {
        SplitExtShape(filename);
        RemoveAllRemoves(s.ext[1..], '.');
        assert s.ext == [s.ext[0]] + s.ext[1..];
      }
      assert v == (s.root + "-" + s.ext[1..]) + ("." + extension);
      Success(v)
  }

  /** A key without extension gets "." + extension appended. */
  lemma NoExtensionCase(filename: string, extension: string)
    requires filename != [] && SplitExt(filename).ext == []
    ensures ChangeFilenameExtension(filename, extension) == Success(filename + "." + extension)
  {
  }

  /**
   * In a key with an extension, the extension's dot becomes "-", then
   * "." + extension is appended.
   */
  lemma ExtensionCase(filename: string, extension: string)
    requires SplitExt(filename).ext != []
    ensures var d := |SplitExt(filename).root|;
            d < |filename| && filename[d] == '.' &&
            ChangeFilenameExtension(filename, extension) ==
              Success(filename[..d] + "-" + filename[d + 1..] + "." + extension)
  {
    var s := SplitExt(filename);
    var v := StemWithExtension(filename, extension);
    assert filename[..|s.root|] == s.root && filename[|s.root| + 1..] == s.ext[1..];
  }

  /** `p + a + "." + x == p + b + "." + x` only when `a == b`. */
  lemma CancelMiddle(p: string, a: string, b: string, x: string)
    requires p + a + "." + x == p + b + "." + x
    ensures a == b
  {
    assert |a| == |b|;
    assert a == (p + a + "." + x)[|p|..|p| + |a|];
    assert b == (p + b + "." + x)[|p|..|p| + |b|];
  }

  /** Two different extensions, each a dot and the rest, differ after the dot. */
  lemma DistinctMiddles(p: string, e1: string, e2: string, x: string)
    requires e1 != [] && e2 != [] && e1[0] == e2[0] && e1 != e2
    ensures p + e1[1..] + "." + x != p + e2[1..] + "." + x
  {
    if p + e1[1..] + "." + x == p + e2[1..] + "." + x {
      CancelMiddle(p, e1[1..], e2[1..], x);
    }
  }

  /** The derived key of a key with an extension, in terms of its split. */
  lemma StemWithExtension(filename: string, extension: string) returns (v: string)
    requires SplitExt(filename).ext != []
    ensures ChangeFilenameExtension(filename, extension) == Success(v)
    ensures v == SplitExt(filename).root + "-" + SplitExt(filename).ext[1..] + "." + extension
  {
    var s := SplitExt(filename);
    assert RemoveAll(s.ext, '.') == s.ext[1..] by {
      SplitExtShape(filename);
      RemoveAllRemoves(s.ext[1..], '.');
      assert s.ext == [s.ext[0]] + s.ext[1..];
    }
    v := s.root + "-" + s.ext[1..] + "." + extension;
  }

  /**
   * Two keys with the same basename and different extensions never share a
   * derived key ("doc.pdf" and "doc.txt").
   */
  lemma DistinctExtensions(f1: string, f2: string, extension: string)
    requires SplitExt(f1).root == SplitExt(f2).root
    requires SplitExt(f1).ext != [] && SplitExt(f2).ext != []
    requires SplitExt(f1).ext != SplitExt(f2).ext
    ensures ChangeFilenameExtension(f1, extension).Success?
    ensures ChangeFilenameExtension(f1, extension) != ChangeFilenameExtension(f2, extension)
  {
    var s1, s2 := SplitExt(f1), SplitExt(f2);
    var v1 := StemWithExtension(f1, extension);
    var v2 := StemWithExtension(f2, extension);
    assert s1.ext[0] == '.' == s2.ext[0];
    DistinctMiddles(s1.root + "-", s1.ext, s2.ext, extension);
  }

  /**
   * A key without extension and a key with the same basename plus an
   * extension never share a derived key ("doc" and "doc.pdf").
   */
  lemma ExtensionVersusNone(f1: string, f2: string, extension: string)
    requires f1 != []
    requires SplitExt(f1).root == SplitExt(f2).root
    requires SplitExt(f1).ext == [] && SplitExt(f2).ext != []
    ensures ChangeFilenameExtension(f1, extension).Success?
    ensures ChangeFilenameExtension(f1, extension) != ChangeFilenameExtension(f2, extension)
  {
    var root := SplitExt(f1).root;
    var v1, v2 := ChangeFilenameExtension(f1, extension).value, ChangeFilenameExtension(f2, extension).value;
    assert f2[..|root|] == root;
    assert v1[|root|] == '.';
    assert v2[|root|] == '-';
  }

  /** A key holding no dot has no extension: "readme" becomes "readme.jpg". */
  lemma NoExtensionShape(filename: string, extension: string)
    requires filename != [] && '.' !in filename
    ensures ChangeFilenameExtension(filename, extension) == Success(filename + "." + extension)
  {
    LastIndexOfIsLast(filename, '.');
    assert LastIndexOf(filename, '.') == -1;
  }

  /** A name without '/' that is not all dots, a dot and a dotless extension splits at that dot. */
  lemma SplitSimpleName(filename: string, root: string, ext: string)
    requires filename == root + "." + ext
    requires '/' !in root && '.' !in ext && '/' !in ext
    requires exists j | 0 <= j < |root| :: root[j] != '.'
    ensures SplitExt(filename) == Split(root, "." + ext)
  {
    assert filename[|root|] == '.';
    LastIndexOfIsLast(filename, '.');
    LastIndexOfIsLast(filename, '/');
    assert LastIndexOf(filename, '.') == |root|;
    assert LastIndexOf(filename, '/') == -1;
    var j :| 0 <= j < |root| && root[j] != '.';
    assert filename[j] == root[j];
  }

  /**
   * A name without '/' that is not all dots, a dot and a dotless extension:
   * "test.pdf" becomes "test-pdf.jpg" and "x." becomes "x-.jpg".
   */
  lemma ExtensionShape(filename: string, root: string, ext: string, extension: string)
    requires filename == root + "." + ext
    requires '/' !in root && '.' !in ext && '/' !in ext
    requires exists j | 0 <= j < |root| :: root[j] != '.'
    ensures ChangeFilenameExtension(filename, extension) == Success(root + "-" + ext + "." + extension)
  {
    SplitSimpleName(filename, root, ext);
    assert filename[..|root|] == root && filename[|root| + 1..] == ext;
    RemoveAllRemoves(ext, '.');
    assert RemoveAll("." + ext, '.') == ext;
  }

  /**
   * The promise is about keys with one basename only: "a.b" and "a-b" have
   * different basenames and do share the derived key "a-b.jpg".
   */
  lemma SharedDerivedKey()
    ensures ChangeFilenameExtension("a.b", "jpg") == Success("a-b.jpg")
    ensures ChangeFilenameExtension("a-b", "jpg") == Success("a-b.jpg")
  {
    assert "a"[0] != '.';
    ExtensionShape("a.b", "a", "b", "jpg");
    assert "a" + "-" + "b" + "." + "jpg" == "a-b.jpg";
    NoExtensionShape("a-b", "jpg");
    assert "a-b" + "." + "jpg" == "a-b.jpg";
  }

  /** The derived keys the repository's own tests read back ("test-pdf.jpg", "test-pdf.txt"). */
  lemma TestKeyExample(extension: string)
    ensures ChangeFilenameExtension("test" + ".pdf", extension) == Success("test-pdf." + extension)
  {
    assert "test"[0] != '.';
    ExtensionShape("test" + ".pdf", "test", "pdf", extension);
    assert "test" + "-" + "pdf" + "." + extension == "test-pdf." + extension;
  }

  /** A trailing dot is a non-empty extension: "x." becomes "x-.jpg". */
  lemma TrailingDotExample()
    ensures ChangeFilenameExtension("x.", "jpg") == Success("x-.jpg")
  {
    assert "x"[0] != '.';
    ExtensionShape("x.", "x", "", "jpg");
    assert "x" + "-" + "" + "." + "jpg" == "x-.jpg";
  }

  /**
   * Leading dots are not an extension: ".pdf" has none, so its thumbnail
   * key is ".pdf.jpg".
   */
  lemma LeadingDotExample()
    ensures SplitExt(".pdf") == Split(".pdf", [])
    ensures ChangeFilenameExtension(".pdf", "jpg") == Success(".pdf.jpg")
  {
    var p := ".pdf";
    LastIndexOfIsLast(p, '.');
    assert p[0] == '.' && p[1] != '.' && p[2] != '.' && p[3] != '.';
    assert LastIndexOf(p, '.') == 0;
    assert ".pdf" + "." + "jpg" == ".pdf.jpg";
  }

  /**
   * Only the last path component is split: "dir/a.b" has the extension
   * ".b" and derives "dir/a-b.jpg".
   */
  lemma DirectoryExample()
    ensures SplitExt("dir/a.b") == Split("dir/a", ".b")
    ensures ChangeFilenameExtension("dir/a.b", "jpg") == Success("dir/a-b.jpg")
  {
    var p := "dir/a.b";
    LastIndexOfIsLast(p, '.');
    LastIndexOfIsLast(p, '/');
    assert p[5] == '.' && p[3] == '/';
    assert LastIndexOf(p, '.') == 5;
    assert LastIndexOf(p, '/') == 3;
    assert p[4] != '.';
    var v := StemWithExtension(p, "jpg");
    assert "dir/a" + "-" + "b" + "." + "jpg" == "dir/a-b.jpg";
  }

  /** Every derived key is longer than its source key, so never equal to it. */
  lemma DerivedKeyIsLonger(filename: string, extension: string)
    requires filename != []
    ensures |ChangeFilenameExtension(filename, extension).value| > |filename|
  {
  }

  /** Different target extensions give different derived keys ("x-pdf.jpg" and "x-pdf.txt"). */
  lemma DistinctTargets(filename: string, x1: string, x2: string)
    requires filename != []
    requires x1 != x2
    ensures ChangeFilenameExtension(filename, x1).value != ChangeFilenameExtension(filename, x2).value
  {
    var v1, v2 := ChangeFilenameExtension(filename, x1).value, ChangeFilenameExtension(filename, x2).value;
    var p1, p2 := v1[..|v1| - |x1|], v2[..|v2| - |x2|];
    assert v1 == p1 + x1 && v2 == p2 + x2;
    assert p1 == p2;
  }

  /**
   * Split again, a derived key has the target extension, or none at all when
   * everything before its last dot is dots ("..." gives "....jpg").
   */
  lemma DerivedKeyExtension(filename: string, extension: string)
    requires filename != []
    requires '.' !in extension && '/' !in extension
    ensures var ext := SplitExt(ChangeFilenameExtension(filename, extension).value).ext;
            ext == "." + extension || ext == []
  {
    var v := ChangeFilenameExtension(filename, extension).value;
    var n := |v| - |extension| - 1;
    assert v == v[..n] + "." + extension;
    assert v[n] == '.';
    LastIndexOfIsLast(v, '.');
    LastIndexOfIsLast(v, '/');
    var dot := LastIndexOf(v, '.');
    assert dot == n;
    var sep := LastIndexOf(v, '/');
    assert sep < n;
    assert v[n..] == "." + extension;
  }
}
