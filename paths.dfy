/** POSIX path manipulation as Python's `os.path` performs it on
    `/`-separated strings: `basename`, `dirname`, `join` and `splitext`,
    and the two ways the scripts default an output folder. */
module Paths {
  import opened Wrappers
  import opened PyStr

  /** `if folder is None: folder = fallback`: only a missing folder is
      replaced; an empty one is kept. */
  function FolderOrDefault(folder: Option<string>, fallback: string): (d: string)
    ensures folder.None? ==> d == fallback
    ensures folder.Some? ==> d == folder.value
  {
    match folder
    case None => fallback
    case Some(f) => f
  }

  /** `if not folder: folder = fallback`: a missing or an empty folder is
      replaced. */
  function FolderIfGiven(folder: Option<string>, fallback: string): (d: string)
    ensures folder.Some? && folder.value != [] ==> d == folder.value
    ensures folder.None? || folder.value == [] ==> d == fallback
  {
    match folder
    case Some(f) => if f != [] then f else fallback
    case None => fallback
  }

  /** Python's `s.rfind(c)` for a single character: the last index holding
      `c`, or -1. */
  function RFind(s: string, c: char): (r: int)
    ensures -1 <= r < |s|
    ensures r >= 0 ==> s[r] == c
    ensures forall j :: r < j < |s| ==> s[j] != c
  {
    if s == [] then -1
    else if s[|s| - 1] == c then |s| - 1
    else RFind(s[..|s| - 1], c)
  }

  /** `os.path.basename(p)`: everything after the last `/`, taken from the
      end one character at a time. */
  function Basename(p: string): (b: string)
    ensures EndsWith(p, b) && '/' !in b
    ensures |b| < |p| ==> p[|p| - |b| - 1] == '/'
  {
    if p == [] || p[|p| - 1] == '/' then []
    else
      var q := p[..|p| - 1];
      var b := Basename(q);
      assert p[|p| - |b| - 1..] == q[|q| - |b|..] + [p[|p| - 1]];
      assert |b| < |q| ==> p[|p| - |b| - 2] == q[|q| - |b| - 1];
      b + [p[|p| - 1]]
  }

  /** The base name is the slice after the last `/` that `rfind` finds,
      which is how `os.path.basename` computes it. */
  lemma {:induction false} BasenameRFind(p: string)
    ensures Basename(p) == p[RFind(p, '/') + 1..]
  {
    if p != [] && p[|p| - 1] != '/' {
      var q := p[..|p| - 1];
      BasenameRFind(q);
      var r := RFind(q, '/');
      assert Basename(p) == Basename(q) + [p[|p| - 1]];
      assert RFind(p, '/') == r;
      assert p[r + 1..] == q[r + 1..] + [p[|p| - 1]] by {
        assert p == q + [p[|p| - 1]];
      }
    }
  }

  predicate AllSlashes(s: string) {
    forall i :: 0 <= i < |s| ==> s[i] == '/'
  }

  function RStripSlashes(s: string): (r: string)
    ensures |r| <= |s| && r == s[..|r|]
    ensures r == [] || r[|r| - 1] != '/'
  {
    if s != [] && s[|s| - 1] == '/' then RStripSlashes(s[..|s| - 1]) else s
  }

  /** `os.path.dirname(p)`: everything up to the last `/`, with trailing
      slashes removed unless the head consists of slashes only. */
  function Dirname(p: string): (d: string)
    ensures StartsWith(p, d)
    ensures '/' !in p ==> d == []
  {
    var head := p[..RFind(p, '/') + 1];
    if head != [] && !AllSlashes(head) then RStripSlashes(head) else head
  }

  /** `os.path.join(a, b)` for two components. */
  function Join(a: string, b: string): string {
    if b != [] && b[0] == '/' then b
    else if a == [] || a[|a| - 1] == '/' then a + b
    else a + "/" + b
  }

  /** Joining a directory and a plain file name and taking the base name
      gives the file name back. */
  lemma BasenameJoin(dir: string, name: string)
    requires '/' !in name
    ensures Basename(Join(dir, name)) == name
  {
    var p := Join(dir, name);
    assert EndsWith(p, name);
    assert |name| < |p| ==> p[|p| - |name| - 1] == '/';
    var b := Basename(p);
    assert |b| == |name|;
  }

  /** The basename of `p` (the part after its last `/`) has a character
      that is not a dot before index `dot`. */
  predicate HasNameBefore(p: string, dot: int)
    requires dot <= |p|
  {
    exists k :: RFind(p, '/') < k < dot && p[k] != '.'
  }

  /** `os.path.splitext(p)`: split at the last dot of the base name, unless
      every character of the base name before that dot is a dot itself (so
      `.bashrc` has no extension). */
  function Splitext(p: string): (r: (string, string))
    ensures r.0 + r.1 == p
    ensures r.1 == [] || (r.1[0] == '.' && '.' !in r.1[1..] && '/' !in r.1)
  {
    var sep := RFind(p, '/');
    var dot := RFind(p, '.');
    if dot > sep && HasNameBefore(p, dot) then (p[..dot], p[dot..]) else (p, [])
  }

  /** A `.`-extension without further dots or slashes. */
  predicate IsExtension(ext: string) {
    |ext| >= 1 && ext[0] == '.' && '.' !in ext[1..] && '/' !in ext
  }

  /** `splitext` takes exactly one extension off a name whose base name has
      a character other than a dot. */
  lemma SplitextAppend(stem: string, ext: string)
    requires IsExtension(ext)
    requires HasNameBefore(stem, |stem|)
    ensures Splitext(stem + ext) == (stem, ext)
  {
    var p := stem + ext;
    assert forall j :: |stem| < j < |p| ==> p[j] == ext[j - |stem|];
    assert forall j :: |stem| < j < |p| ==> p[j] != '.' && p[j] != '/';
    var dot := RFind(p, '.');
    assert p[|stem|] == '.';
    assert dot == |stem|;
    var sepStem := RFind(stem, '/');
    RFindPrefix(stem, ext, '/');
    var k :| sepStem < k < |stem| && stem[k] != '.';
    assert p[k] == stem[k];
    assert p[..dot] == stem && p[dot..] == ext;
  }

  /** A character absent from an appended suffix is last found where it was
      last found in the prefix. */
  lemma {:induction false} RFindPrefix(s: string, t: string, c: char)
    requires c !in t
    ensures RFind(s + t, c) == RFind(s, c)
    decreases |t|
  {
    if t != [] {
      var u := s + t;
      assert u[..|u| - 1] == s + t[..|t| - 1];
      assert u[|u| - 1] == t[|t| - 1];
      RFindPrefix(s, t[..|t| - 1], c);
    } else {
      assert s + t == s;
    }
  }

  /** `splitext(splitext(name)[0])[0]`: up to two extensions removed. */
  function StripTwoExtensions(name: string): string {
    Splitext(Splitext(name).0).0
  }

  /** For a plain stem (no dot, no slash, not empty) the double `splitext`
      turns both `stem.nii.gz` and `stem.nii` back into `stem`. */
  lemma StripTwoExtensionsNifti(stem: string)
    requires stem != [] && '.' !in stem && '/' !in stem
    ensures StripTwoExtensions(stem + ".nii.gz") == stem
    ensures StripTwoExtensions(stem + ".nii") == stem
  {
    assert RFind(stem, '/') == -1;
    assert stem[0] != '.';
    assert HasNameBefore(stem, |stem|);
    SplitextAppend(stem, ".nii");
    var nii := stem + ".nii";
    assert RFind(nii, '/') == -1 by { RFindPrefix(stem, ".nii", '/'); }
    assert nii[0] != '.';
    assert HasNameBefore(nii, |nii|);
    assert stem + ".nii.gz" == nii + ".gz";
    SplitextAppend(nii, ".gz");
    Splitext0(stem);
  }

  /** A name without a dot has no extension. */
  lemma Splitext0(p: string)
    requires '.' !in p
    ensures Splitext(p) == (p, [])
  {
  }

  /** The names the scripts treat as NIfTI volumes. */
  predicate IsNifti(name: string) {
    EndsWith(name, ".nii") || EndsWith(name, ".nii.gz")
  }

  predicate IsNiiGz(name: string) {
    EndsWith(name, ".nii.gz")
  }

  /** The names of a directory listing that `keep` accepts, in listing order. */
  function FilterNames(names: seq<string>, keep: string -> bool): (r: seq<string>)
    ensures |r| <= |names|
    ensures forall f :: f in r <==> f in names && keep(f)
  {
    if names == [] then []
    else
      var init := FilterNames(names[..|names| - 1], keep);
      var last := names[|names| - 1];
      assert forall f :: f in names <==> f in names[..|names| - 1] || f == last;
      if keep(last) then init + [last] else init
  }
}
