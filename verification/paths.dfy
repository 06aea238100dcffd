/** The POSIX path helpers the login-theme script relies on:
    `os.path.basename` and `os.path.splitext`. */
module PosixPath {

  /** `s.rfind(c)`: the last index of `c` in `s`, or -1 when there is none. */
  function RFind(s: string, c: char): (r: int)
    ensures -1 <= r < |s|
    ensures r >= 0 ==> s[r] == c
    ensures forall i :: r < i < |s| ==> s[i] != c
    decreases |s|
  {
    if |s| == 0 then -1
    else if s[|s| - 1] == c then |s| - 1
    else RFind(s[..|s| - 1], c)
  }

  /** Appending text without `c` does not move the last `c`. */
  lemma {:induction false} RFindAppend(a: string, b: string, c: char)
    requires c !in b
    ensures RFind(a + b, c) == RFind(a, c)
    decreases |b|
  {
    if |b| > 0 {
      var s := a + b;
      assert s[..|s| - 1] == a + b[..|b| - 1];
      assert s[|s| - 1] == b[|b| - 1];
      RFindAppend(a, b[..|b| - 1], c);
    } else {
      assert a + b == a;
    }
  }

  lemma RFindAt(a: string, c: char, b: string)
    requires c !in b
    ensures RFind(a + [c] + b, c) == |a|
  {
    RFindAppend(a + [c], b, c);
  }

  /** `os.path.basename`: everything after the last `/`. */
  function Basename(p: string): (b: string)
    ensures '/' !in b
    ensures |b| <= |p| && p[|p| - |b|..] == b
    ensures |b| < |p| ==> p[|p| - |b| - 1] == '/'
  {
    p[RFind(p, '/') + 1..]
  }

  /** A file name placed in a directory keeps its name. */
  lemma BasenameOfJoin(dir: string, name: string)
    requires '/' !in name
    ensures Basename(dir + "/" + name) == name
  {
    RFindAt(dir, '/', name);
    assert (dir + "/" + name)[|dir| + 1..] == name;
  }

  /** What `splitext` may return as an extension: a dot, then neither a
      dot nor a slash. */
  predicate IsExtension(e: string) {
    |e| >= 1 && e[0] == '.' && '/' !in e && '.' !in e[1..]
  }

  /** Some character of `p[lo..hi]` is not a dot. */
  predicate HasNonDot(p: string, lo: int, hi: int)
    requires -1 <= lo && hi <= |p|
  {
    exists i :: lo <= i < hi && 0 <= i && p[i] != '.'
  }

  /** `os.path.splitext` on POSIX: the extension starts at the last dot
      when it lies in the last path component after some character that
      is not a dot; leading dots (`.bashrc`) do not start an extension. */
  function SplitExt(p: string): (r: (string, string))
    ensures r.0 + r.1 == p
    ensures r.1 == "" || IsExtension(r.1)
  {
    var sep := RFind(p, '/');
    var dot := RFind(p, '.');
    if dot > sep && HasNonDot(p, sep + 1, dot) then
      assert forall i :: dot < i < |p| ==> p[i] != '.' && p[i] != '/';
      assert forall i :: 1 <= i < |p[dot..]| ==> p[dot..][i] == p[dot + i];
      (p[..dot], p[dot..])
    else (p, "")
  }

  function Ext(p: string): string {
    SplitExt(p).1
  }

  /** A slash-free stem holding some character other than a dot, followed
      by an extension, in any directory, splits back into the two; so does
      a dot-free stem with no extension. */
  lemma SplitExtOfName(dir: string, stem: string, ext: string)
    requires '/' !in stem && HasNonDot(stem, 0, |stem|)
    requires IsExtension(ext) || (ext == "" && '.' !in stem)
    ensures SplitExt(dir + "/" + stem + ext) == (dir + "/" + stem, ext)
  {
    var p := dir + "/" + stem + ext;
    assert p == dir + "/" + (stem + ext);
    RFindAt(dir, '/', stem + ext);
    if ext == "" {
      assert p == dir + "/" + stem;
      RFindAppend(dir + "/", stem, '.');
      assert RFind(dir + "/", '.') <= |dir|;
    } else {
      assert ext == "." + ext[1..];
      assert p == (dir + "/" + stem) + "." + ext[1..];
      RFindAt(dir + "/" + stem, '.', ext[1..]);
      var i :| 0 <= i < |stem| && stem[i] != '.';
      assert p[|dir| + 1 + i] == stem[i];
      assert HasNonDot(p, |dir| + 1, |dir| + 1 + |stem|);
      assert p[..|dir| + 1 + |stem|] == dir + "/" + stem;
    }
  }

  /** The extension is what follows the last dot of the file name. */
  lemma ExtExamples()
    ensures Ext("/home/user/Pictures/forest.png") == ".png"
    ensures Ext("/home/user/Pictures/archive.tar.gz") == ".gz"
  {
    assert "forest"[0] != '.';
    SplitExtOfName("/home/user/Pictures", "forest", ".png");
    assert "/home/user/Pictures/forest.png" == "/home/user/Pictures" + "/" + "forest" + ".png";
    assert "archive.tar"[0] != '.' && '/' !in "archive.tar";
    SplitExtOfName("/home/user/Pictures", "archive.tar", ".gz");
    assert "/home/user/Pictures/archive.tar.gz" == "/home/user/Pictures" + "/" + "archive.tar" + ".gz";
  }

  /** A leading dot does not start an extension, and neither does a dot in
      a directory name. */
  lemma NoExtExamples()
    ensures Ext("/home/user/.face") == ""
    ensures Ext("/home/user/a.d/wall") == ""
  {
    var f := "/home/user/.face";
    RFindAt("/home/user", '/', ".face");
    assert f == "/home/user" + "/" + ".face";
    RFindAt("/home/user/", '.', "face");
    assert f == "/home/user/" + "." + "face";
    var w := "/home/user/a.d/wall";
    RFindAt("/home/user/a.d", '/', "wall");
    assert w == "/home/user/a.d" + "/" + "wall";
    RFindAppend("/home/user/a.", "d/wall", '.');
    RFindAt("/home/user/a", '.', "");
    assert "/home/user/a." == "/home/user/a" + "." + "";
    assert w == "/home/user/a." + "d/wall";
  }
}
