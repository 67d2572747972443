/** The two path helpers the scripts use on file names: POSIX
    `os.path.splitext` and `pathlib.PurePath.suffix`. */
module Paths {
  import opened Strings

  /** `s.rfind(c)` for one character: the index of its last occurrence, or -1. */
  function LastIndexOf(s: string, c: char): (r: int)
    ensures -1 <= r < |s|
    ensures r >= 0 ==> s[r] == c
    ensures forall k :: r < k < |s| ==> s[k] != c
  {
    if s == [] then -1
    else if s[|s| - 1] == c then |s| - 1
    else LastIndexOf(s[..|s| - 1], c)
  }

  /** Some character in `p[lo..hi]` is not a dot. */
  predicate HasNonDot(p: string, lo: int, hi: int)
    requires 0 <= lo && hi <= |p|
  {
    exists k :: lo <= k < hi && p[k] != '.'
  }

  /** The last path component of `p` (after its last `/`) holds a character
      other than a dot. */
  predicate BaseHasNonDot(p: string) {
    HasNonDot(p, LastIndexOf(p, '/') + 1, |p|)
  }

  datatype RootExt = RootExt(root: string, ext: string)

  /** `os.path.splitext(p)` on POSIX: the extension runs from the last dot of the
      last path component, unless only dots precede that dot in the component. */
  function SplitExt(p: string): (r: RootExt)
    ensures r.root + r.ext == p
    ensures r.ext == [] || (r.ext[0] == '.' && '.' !in r.ext[1..] && '/' !in r.ext)
  {
    var sep := LastIndexOf(p, '/');
    var dot := LastIndexOf(p, '.');
    if dot > sep && HasNonDot(p, sep + 1, dot) then
      assert forall k :: 0 <= k < |p[dot..]| ==> p[dot..][k] == p[dot + k];
      RootExt(p[..dot], p[dot..])
    else
      RootExt(p, "")
  }

  /** An extension in the sense of `splitext`: a dot followed by neither dots nor slashes. */
  predicate IsExtension(e: string) {
    |e| >= 1 && e[0] == '.' && '.' !in e[1..] && '/' !in e
  }

  lemma LastIndexOfAfter(a: string, e: string, c: char)
    requires c !in e
    ensures LastIndexOf(a + e, c) == LastIndexOf(a, c)
  {
    var r, s := LastIndexOf(a + e, c), LastIndexOf(a, c);
    if s >= 0 {
      assert (a + e)[s] == a[s];
    }
  }

  lemma LastIndexOfSeparator(a: string, e: string)
    requires IsExtension(e)
    ensures LastIndexOf(a + e, '.') == |a|
  {
    var r := LastIndexOf(a + e, '.');
    assert (a + e)[|a|] == '.';
    assert forall k :: |a| < k < |a + e| ==> (a + e)[k] == e[1..][k - |a| - 1];
  }

  /** `splitext` takes back exactly the extension appended to a path whose last
      component has a non-dot character. */
  lemma SplitExtOfExtended(a: string, e: string)
    requires IsExtension(e) && BaseHasNonDot(a)
    ensures SplitExt(a + e) == RootExt(a, e)
  {
    var p := a + e;
    LastIndexOfAfter(a, e, '/');
    LastIndexOfSeparator(a, e);
    var sep := LastIndexOf(a, '/');
    var k :| sep + 1 <= k < |a| && a[k] != '.';
    assert p[k] == a[k];
    assert HasNonDot(p, sep + 1, |a|);
    assert p[..|a|] == a && p[|a|..] == e;
  }

  /** A non-empty extension follows a root whose last component has a character
      other than a dot: leading dots of a name are not an extension. With
      `SplitExtOfExtended` this pins `splitext` down completely. */
  lemma SplitExtBase(p: string)
    ensures SplitExt(p).ext != [] ==> BaseHasNonDot(SplitExt(p).root)
  {
    var sep := LastIndexOf(p, '/');
    var dot := LastIndexOf(p, '.');
    if dot > sep && HasNonDot(p, sep + 1, dot) {
      var root, ext := p[..dot], p[dot..];
      var k :| sep + 1 <= k < dot && p[k] != '.';
      assert root[k] == p[k];
      assert '/' !in ext by {
        forall m | 0 <= m < |ext| ensures ext[m] != '/' {
          assert ext[m] == p[dot + m];
        }
      }
      assert root + ext == p;
      LastIndexOfAfter(root, ext, '/');
    }
  }

  /** A name that is a dot followed by an extension's letters, such as ".jpg",
      has no extension: `splitext` keeps it whole as the root. */
  lemma DotNameHasNoExt(e: string)
    requires IsExtension(e)
    ensures SplitExt(e) == RootExt(e, "")
  {
    assert [] + e == e;
    LastIndexOfAfter([], e, '/');
    LastIndexOfSeparator([], e);
  }

  /** `PurePath(name).suffix`: from the last dot, provided the dot is neither the
      first nor the last character of the name. */
  function Suffix(name: string): (r: string)
    ensures r == [] || (|r| >= 2 && r[0] == '.' && '.' !in r[1..] && EndsWith(name, r) && |r| < |name|)
  {
    var i := LastIndexOf(name, '.');
    if 0 < i < |name| - 1 then
      assert forall k :: 0 <= k < |name[i..]| ==> name[i..][k] == name[i + k];
      name[i..]
    else ""
  }

  /** The suffix is non-empty exactly when the name has a dot, neither its
      first nor its last character, with no dot after it. */
  lemma SuffixPresent(name: string)
    ensures Suffix(name) != [] <==>
      exists i :: 0 < i < |name| - 1 && name[i] == '.' && '.' !in name[i + 1..]
  {
    var j := LastIndexOf(name, '.');
    if 0 < j < |name| - 1 {
      var after := name[j + 1..];
      forall m | 0 <= m < |after| ensures after[m] != '.' {
        assert after[m] == name[j + 1 + m];
      }
    }
    if exists i :: 0 < i < |name| - 1 && name[i] == '.' && '.' !in name[i + 1..] {
      var i :| 0 < i < |name| - 1 && name[i] == '.' && '.' !in name[i + 1..];
      forall k | i < k < |name| ensures name[k] != '.' {
        assert name[k] == name[i + 1..][k - i - 1];
      }
      assert j == i;
    }
  }

  /** A downloader's intermediate format tag is not part of the suffix: only
      the last extension is. */
  lemma SuffixOfFormatTagged()
    ensures Suffix("abc.f137.mp4") == ".mp4"
  {
    assert "abc.f137" + ".mp4" == "abc.f137.mp4";
    LastIndexOfSeparator("abc.f137", ".mp4");
  }
}
