/**
 * The parts of Python's `os.path` (POSIX flavour) that the vendoring engine
 * uses: `basename`, `splitext` and `join`.
 */
module PosixPath {
  import opened Text

  /** `s.rfind(c)`: the last index holding `c`, or -1. */
  function RFind(s: string, c: char): (i: int)
    ensures -1 <= i < |s|
    ensures i >= 0 ==> s[i] == c
    ensures forall j :: i < j < |s| ==> s[j] != c
  {
    if s == [] then -1
    else if s[|s| - 1] == c then |s| - 1
    else RFind(s[..|s| - 1], c)
  }

  /** `os.path.basename(p)`: the text after the last '/'. */
  function Basename(p: string): (r: string)
    ensures '/' !in r
    ensures EndsWith(p, r)
    ensures r == p || p[|p| - |r| - 1] == '/'
  {
    p[RFind(p, '/') + 1..]
  }

  /** `os.path.join(a, b)` for two components. */
  function Join(a: string, b: string): string {
    if StartsWith(b, "/") then b
    else if a == "" || EndsWith(a, "/") then a + b
    else a + "/" + b
  }

  /** The last occurrence is where the text says it is. */
  lemma {:induction false} RFindIs(s: string, c: char, i: int)
    requires -1 <= i < |s| && (i >= 0 ==> s[i] == c)
    requires forall j :: i < j < |s| ==> s[j] != c
    ensures RFind(s, c) == i
    decreases |s|
  {
    if s != [] && i < |s| - 1 {
      var init := s[..|s| - 1];
      assert forall j :: i < j < |init| ==> init[j] == s[j];
      RFindIs(init, c, i);
    }
  }

  /** The base name of a directory joined with a plain file name is that file name. */
  lemma BasenameOfJoin(dir: string, name: string)
    requires name != "" && '/' !in name
    ensures Basename(Join(dir, name)) == name
  {
    var p := Join(dir, name);
    assert !StartsWith(name, "/") by {
      assert name[..1][0] == name[0] && name[0] in name;
    }
    var cut := |p| - |name|;
    assert p == p[..cut] + name;
    assert forall j :: cut <= j < |p| ==> p[j] == name[j - cut];
    if dir == "" {
      assert p == name;
      RFindIs(p, '/', -1);
    } else {
      assert p[cut - 1] == '/';
      RFindIs(p, '/', cut - 1);
    }
  }

  /**
   * `os.path.splitext(p)`: the extension is the text from the last '.' of the
   * final path component on, unless everything before that '.' in the
   * component is dots ('.bashrc' and '..h' have no extension).
   */
  function SplitExt(p: string): (r: (string, string))
    ensures r.0 + r.1 == p
    ensures r.1 == "" || (r.1[0] == '.' && '.' !in r.1[1..] && '/' !in r.1)
    ensures r.1 != "" <==>
      (RFind(p, '.') > RFind(p, '/')
       && exists k :: RFind(p, '/') + 1 <= k < RFind(p, '.') && p[k] != '.')
    ensures r.1 != "" ==> |r.0| == RFind(p, '.')
  {
    var sepIndex := RFind(p, '/');
    var dotIndex := RFind(p, '.');
    if dotIndex > sepIndex && exists k :: sepIndex + 1 <= k < dotIndex && p[k] != '.' then
      assert p[..dotIndex] + p[dotIndex..] == p;
      (p[..dotIndex], p[dotIndex..])
    else
      (p, "")
  }

  /** `os.path.splitext(name)[0]`, the key that pairs a source with its header. */
  function Stem(name: string): string {
    SplitExt(name).0
  }

  /** A name made of a stem (not all dots) and one extension splits back into that stem. */
  lemma StemOf(stem: string, ext: string)
    requires '/' !in stem && '/' !in ext
    requires exists k :: 0 <= k < |stem| && stem[k] != '.'
    requires |ext| > 0 && ext[0] == '.' && '.' !in ext[1..]
    ensures Stem(stem + ext) == stem
  {
    var p := stem + ext;
    assert forall j :: |stem| <= j < |p| ==> p[j] == ext[j - |stem|];
    assert p[|stem|] == '.';
    forall j | |stem| < j < |p|
      ensures p[j] != '.'
    {
      assert ext[1..][j - |stem| - 1] == ext[j - |stem|];
    }
    assert RFind(p, '.') == |stem|;
    var k :| 0 <= k < |stem| && stem[k] != '.';
    assert p[k] == stem[k];
    assert p[..|stem|] == stem;
  }
}
