/** POSIX path helpers with the meaning Python's `posixpath` gives them:
    `os.path.splitext` and `Path.joinpath` followed by `as_posix`. */
module Paths {

  /** `s.rfind(c)`: the index of the last `c` in `s`, or -1 when there is none. */
  function LastIndex(s: string, c: char): (r: int)
    ensures -1 <= r < |s|
    ensures r >= 0 ==> s[r] == c
    ensures forall k :: r < k < |s| ==> s[k] != c
  {
    if s == [] then -1
    else if s[|s| - 1] == c then |s| - 1
    else LastIndex(s[..|s| - 1], c)
  }

  /** Some character of `s` is not a dot. */
  predicate HasNonDot(s: string)
  {
    exists k | 0 <= k < |s| :: s[k] != '.'
  }

  /** Where `os.path.splitext(p)` on POSIX cuts `p`: at the last dot of the last
      path component, provided that dot is preceded in the component by
      something other than dots; -1 when there is no extension. */
  function ExtDot(p: string): (d: int)
    ensures -1 <= d < |p|
    ensures d >= 0 ==> p[d] == '.'
  {
    var sep := LastIndex(p, '/');
    var dot := LastIndex(p, '.');
    if dot > sep && HasNonDot(p[sep + 1..dot]) then dot else -1
  }

  /** `os.path.splitext(p)`: the stem and the extension, which may be empty. */
  function SplitExt(p: string): (r: (string, string))
    ensures r.0 + r.1 == p
  {
    var d := ExtDot(p);
    if d >= 0 then
      assert p[..d] + p[d..] == p;
      (p[..d], p[d..])
    else
      assert p + "" == p;
      (p, "")
  }

  /** The last path component of `stem` holds a character that is neither a dot
      nor a slash. */
  predicate FinalHasNonDot(stem: string)
  {
    exists k | 0 <= k < |stem| ::
      stem[k] != '.' && stem[k] != '/' && forall m | k < m < |stem| :: stem[m] != '/'
  }

  /** An independent description of a well-formed split into stem and extension:
      the extension is a dot followed by no dot and no slash, and the stem's last
      component is not made of dots alone. */
  predicate IsExtSplit(p: string, stem: string, ext: string)
  {
    && p == stem + ext
    && |ext| >= 1 && ext[0] == '.'
    && (forall k | 1 <= k < |ext| :: ext[k] != '.' && ext[k] != '/')
    && FinalHasNonDot(stem)
  }

  /** Whatever non-empty extension `SplitExt` reports is a well-formed split. */
  lemma SplitExtSound(p: string)
    ensures SplitExt(p).1 != "" ==> IsExtSplit(p, SplitExt(p).0, SplitExt(p).1)
  {
    var sep := LastIndex(p, '/');
    var dot := LastIndex(p, '.');
    if dot > sep && HasNonDot(p[sep + 1..dot]) {
      SplitAtLastDot(p, sep, dot);
    }
  }

  lemma SplitAtLastDot(p: string, sep: int, dot: int)
    requires sep == LastIndex(p, '/') && dot == LastIndex(p, '.')
    requires dot > sep && HasNonDot(p[sep + 1..dot])
    ensures IsExtSplit(p, p[..dot], p[dot..])
  {
    var k := NonDotIndex(p, sep, dot);
    StemLastComponent(p, sep, dot, k);
    ExtensionChars(p, sep, dot);
    assert p[..dot] + p[dot..] == p;
  }

  /** A character that is not a dot strictly between `sep` and `dot`. */
  lemma NonDotIndex(p: string, sep: int, dot: int) returns (k: int)
    requires -1 <= sep < dot <= |p|
    requires HasNonDot(p[sep + 1..dot])
    ensures sep < k < dot && p[k] != '.'
  {
    var s := p[sep + 1..dot];
    var j :| 0 <= j < |s| && s[j] != '.';
    k := sep + 1 + j;
    assert s[j] == p[k];
  }

  /** Past the last slash, a character that is not a dot puts a non-dot into the
      last component of the stem `p[..dot]`. */
  lemma StemLastComponent(p: string, sep: int, dot: int, k: int)
    requires sep == LastIndex(p, '/')
    requires sep < k < dot <= |p| && p[k] != '.'
    ensures FinalHasNonDot(p[..dot])
  {
    var stem := p[..dot];
    assert stem[k] == p[k] && p[k] != '/';
    forall m | k < m < |stem| ensures stem[m] != '/' {
      assert stem[m] == p[m];
    }
  }

  /** After the last dot, past the last slash, there is no dot and no slash. */
  lemma ExtensionChars(p: string, sep: int, dot: int)
    requires sep == LastIndex(p, '/') && dot == LastIndex(p, '.')
    requires 0 <= dot && sep < dot
    ensures |p[dot..]| >= 1 && p[dot..][0] == '.'
    ensures forall i | 1 <= i < |p[dot..]| :: p[dot..][i] != '.' && p[dot..][i] != '/'
  {
    var ext := p[dot..];
    forall i | 1 <= i < |ext| ensures ext[i] != '.' && ext[i] != '/' {
      assert ext[i] == p[dot + i];
    }
  }

  /** A well-formed split is the one `SplitExt` finds, so it is also unique. */
  lemma SplitExtComplete(p: string, stem: string, ext: string)
    requires IsExtSplit(p, stem, ext)
    ensures SplitExt(p) == (stem, ext)
  {
    var k := ExtSplitIndices(p, stem, ext);
    var sep := LastIndex(p, '/');
    var dot := LastIndex(p, '.');
    assert dot == |stem|;
    assert sep < k;
    assert p[sep + 1..dot][k - sep - 1] == p[k];
    assert p[..dot] == stem && p[dot..] == ext;
  }

  /** The positions of a well-formed split, read off `p` itself: the dot at
      `|stem|` is followed by no dot and no slash, and `k` is a character of the
      stem's last component that is not a dot. */
  lemma ExtSplitIndices(p: string, stem: string, ext: string) returns (k: nat)
    requires IsExtSplit(p, stem, ext)
    ensures k < |stem| && p[k] != '.' && p[k] != '/'
    ensures p[|stem|] == '.'
    ensures forall m | |stem| < m < |p| :: p[m] != '.' && p[m] != '/'
    ensures forall m | k <= m < |p| :: p[m] != '/'
  {
    k :| 0 <= k < |stem| && stem[k] != '.' && stem[k] != '/' &&
      forall m | k < m < |stem| :: stem[m] != '/';
    forall m | |stem| <= m < |p| ensures p[m] == ext[m - |stem|] { }
    forall m | k <= m < |stem| ensures p[m] == stem[m] { }
  }

  /** `Path(dir).joinpath(name).as_posix()` for a directory without a trailing
      slash and a relative name. */
  function JoinPath(dir: string, name: string): (r: string)
    ensures |r| == |dir| + 1 + |name| && r[|dir|] == '/'
    ensures r[..|dir|] == dir && r[|dir| + 1..] == name
  {
    dir + "/" + name
  }

  /** Joining a name under a directory keeps the name's last component. */
  lemma JoinPathFinal(dir: string, name: string)
    requires FinalHasNonDot(name)
    ensures FinalHasNonDot(JoinPath(dir, name))
  {
    var p := JoinPath(dir, name);
    var k :| 0 <= k < |name| && name[k] != '.' && name[k] != '/' &&
      forall m | k < m < |name| :: name[m] != '/';
    assert p[|dir| + 1 + k] == name[k];
    assert forall m | |dir| + 1 + k < m < |p| :: p[m] == name[m - |dir| - 1];
  }

  /** `os.path.splitext(dir/name + ext)` gives back `dir/name` and `ext` whenever `ext`
      is a well-formed extension and the last component of `name` is not dots only. */
  lemma SplitExtOfJoined(dir: string, name: string, ext: string)
    requires FinalHasNonDot(name)
    requires |ext| >= 1 && ext[0] == '.'
    requires forall k | 1 <= k < |ext| :: ext[k] != '.' && ext[k] != '/'
    ensures SplitExt(JoinPath(dir, name + ext)) == (JoinPath(dir, name), ext)
  {
    JoinPathFinal(dir, name);
    assert JoinPath(dir, name + ext) == JoinPath(dir, name) + ext;
    SplitExtComplete(JoinPath(dir, name + ext), JoinPath(dir, name), ext);
  }
}
