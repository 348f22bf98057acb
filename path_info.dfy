/** The two parts of PHP's pathinfo() the name resolver uses:
    PATHINFO_EXTENSION and PATHINFO_FILENAME. The base name is the text after
    the last '/'; it is split at its last '.'. */
module PathInfo {

  /** Index of the last occurrence of c in s, or -1 when c does not occur. */
  function LastIndexOf(s: string, c: char): (r: int)
    ensures -1 <= r < |s|
    ensures r >= 0 ==> s[r] == c
    ensures forall k :: r < k < |s| ==> s[k] != c
  {
    if s == [] then -1
    else if s[|s| - 1] == c then |s| - 1
    else LastIndexOf(s[..|s| - 1], c)
  }

  /** The final path component. */
  function Basename(path: string): string {
    path[LastIndexOf(path, '/') + 1..]
  }

  /** pathinfo($path, PATHINFO_EXTENSION): the text after the last '.' of the
      base name, empty when the base name has no '.'. */
  function Extension(path: string): string {
    var base := Basename(path);
    var dot := LastIndexOf(base, '.');
    if dot < 0 then "" else base[dot + 1..]
  }

  /** pathinfo($path, PATHINFO_FILENAME): the base name up to its last '.',
      the whole base name when it has no '.'. */
  function FileNameWithoutExtension(path: string): string {
    var base := Basename(path);
    var dot := LastIndexOf(base, '.');
    if dot < 0 then base else base[..dot]
  }

  /** The base name is a '/'-free suffix of the path, and the whole path
      when the path holds no '/'. */
  lemma BasenameSuffix(path: string)
    ensures var base := Basename(path);
      '/' !in base && |base| <= |path| && base == path[|path| - |base|..] &&
      ('/' !in path ==> base == path)
  {
    var slash := LastIndexOf(path, '/');
    var base := path[slash + 1..];
    assert forall k :: 0 <= k < |base| ==> base[k] == path[slash + 1 + k];
    if '/' !in path {
      assert slash == -1;
    }
  }

  /** The base name is the suffix of the path after its last '/': it holds
      no '/', it is preceded by a '/' when it is not the whole path, and it is
      the whole path when the path holds no '/'. */
  lemma BasenameIsLastComponent(path: string)
    ensures var base := Basename(path);
      '/' !in base && |base| <= |path| && base == path[|path| - |base|..] &&
      (|base| < |path| ==> path[|path| - |base| - 1] == '/') &&
      ('/' !in path ==> base == path)
  {
    BasenameSuffix(path);
  }

  /** A name without '/' whose last '.' is at index dot splits around it. */
  lemma SplitAtLastDot(path: string, dot: nat)
    requires '/' !in path && dot < |path| && path[dot] == '.'
    requires forall k :: dot < k < |path| ==> path[k] != '.'
    ensures FileNameWithoutExtension(path) == path[..dot]
    ensures Extension(path) == path[dot + 1..]
  {
    BasenameSuffix(path);
    var r := LastIndexOf(path, '.');
    assert r == dot;
  }

  /** A name without '/' and without '.' is its own file name, with an empty
      extension. */
  lemma SplitWithoutDot(path: string)
    requires '/' !in path && '.' !in path
    ensures FileNameWithoutExtension(path) == path
    ensures Extension(path) == ""
  {
    BasenameSuffix(path);
    var r := LastIndexOf(path, '.');
    assert r == -1;
  }

  /** Cutting a '/'-free string at its last '.' leaves two '/'-free pieces,
      the second without '.', that give the string back around the '.'. */
  lemma PiecesAroundDot(s: string, dot: nat)
    requires '/' !in s && dot < |s| && s[dot] == '.'
    requires forall k :: dot < k < |s| ==> s[k] != '.'
    ensures '/' !in s[..dot] && '/' !in s[dot + 1..] && '.' !in s[dot + 1..]
    ensures s == s[..dot] + "." + s[dot + 1..]
  {
    var stem, ext := s[..dot], s[dot + 1..];
    assert forall k :: 0 <= k < |stem| ==> stem[k] == s[k];
    assert forall k :: 0 <= k < |ext| ==> ext[k] == s[dot + 1 + k];
  }

  /** File name and extension hold no '/', the extension holds no '.', and
      file name, '.' and extension put back together give the base name;
      without a '.' the file name is the base name and the extension is empty. */
  lemma BasenameRecomposes(path: string)
    ensures var base, stem, ext := Basename(path), FileNameWithoutExtension(path), Extension(path);
      '/' !in stem && '/' !in ext && '.' !in ext &&
      ('.' in base ==> base == stem + "." + ext) &&
      ('.' !in base ==> base == stem && ext == "")
  {
    BasenameSuffix(path);
    var base := Basename(path);
    var dot := LastIndexOf(base, '.');
    if dot >= 0 {
      PiecesAroundDot(base, dot);
    } else {
      assert '.' !in base;
    }
  }
}
