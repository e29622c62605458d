/**
 * The selection filter and the header/source pairing rule of
 * `extract_headers_and_sources`: which files of a walked source tree are
 * copied to the destination, and in what order.
 */
module Selection {
  import opened Text
  import opened PosixPath

  /** A regular file of the cloned tree: its name and its lines, as `readlines` gives them. */
  datatype File = File(name: string, lines: seq<string>)

  /** One step of `os.walk` over the cloned tree: a directory and its files, in listing order. */
  datatype Dir = Dir(root: string, files: seq<File>)

  /** File names containing any of these (after lower-casing) are never copied. */
  const ExcludeKeywords: seq<string> :=
    ["test", "example", "demo", "unit", "custom", "mock", "sample", "temp", "tmp",
     "draft", "experimental", "doc", "docs", "cmake", "build", "backup", "bak", "data"]

  /** An include line whose lower-cased text contains one of these vetoes its file. */
  const ExcludeIncludesKeywords: seq<string> := ["test"]

  /** The name test: the lower-cased name contains an exclusion keyword. */
  predicate ExcludedByName(name: string) {
    AnyContains(Lower(name), ExcludeKeywords)
  }

  /**
   * A line that vetoes its file: stripped of surrounding white space it starts
   * with `#include`, and the whole line, lower-cased, contains a content keyword.
   * Since `#include` ends with a character that is not white space, only the
   * leading half of `strip` matters; VetoLineIff states the test with `strip`.
   */
  predicate VetoLine(line: string) {
    StartsWith(LStrip(line), "#include") && AnyContains(Lower(line), ExcludeIncludesKeywords)
  }

  /** A name is excluded exactly when one of the 18 keywords occurs in it, lower-cased. */
  lemma ExcludedByNameIff(name: string)
    ensures ExcludedByName(name) <==> exists k :: k in ExcludeKeywords && Contains(Lower(name), k)
  {
    AnyContainsIff(Lower(name), ExcludeKeywords);
  }

  /** The content keyword list is `test` alone. */
  lemma VetoLineIff(line: string)
    ensures VetoLine(line) <==> StartsWith(Strip(line), "#include") && Contains(Lower(line), "test")
  {
    StripStartsWith(line, "#include");
    AnyContainsOne(Lower(line), "test");
  }

  /** The content test applied to a whole file. */
  predicate VetoedByContent(lines: seq<string>) {
    exists i :: 0 <= i < |lines| && VetoLine(lines[i])
  }

  /** The test `should_exclude_by_include` applies to one line. */
  method IncludeLineVetoes(line: string) returns (veto: bool)
    ensures veto == VetoLine(line)
  {
    veto := false;
    StripStartsWith(line, "#include");
    if StartsWith(Strip(line), "#include") {
      if AnyContains(Lower(line), ExcludeIncludesKeywords) {
        veto := true;
      }
    }
  }

  /** `should_exclude_by_include`: scans the lines and stops at the first vetoing one. */
  method ShouldExcludeByInclude(lines: seq<string>) returns (veto: bool)
    ensures veto <==> exists i :: 0 <= i < |lines| && VetoLine(lines[i])
  {
    for i := 0 to |lines|
      invariant forall j :: 0 <= j < i ==> !VetoLine(lines[j])
    {
      var lineVetoes := IncludeLineVetoes(lines[i]);
      if lineVetoes {
        return true;
      }
    }
    return false;
  }

  /** Names copied as headers: `.h`, `.hpp`, `.def`, `.hxx`. */
  predicate IsHeaderName(name: string) {
    EndsWith(name, ".h") || EndsWith(name, ".hpp") || EndsWith(name, ".def") || EndsWith(name, ".hxx")
  }

  /** Names copied as sources when paired: `.c`, `.cpp`, `.cc`. */
  predicate IsSourceName(name: string) {
    EndsWith(name, ".c") || EndsWith(name, ".cpp") || EndsWith(name, ".cc")
  }

  /** Names that can pair with a source: only `.h` and `.hpp`. */
  predicate IsPairingHeaderName(name: string) {
    EndsWith(name, ".h") || EndsWith(name, ".hpp")
  }

  /** A name that ends with a suffix has the suffix's characters at its end. */
  lemma EndsWithAt(s: string, suffix: string, k: nat)
    requires EndsWith(s, suffix) && k < |suffix|
    ensures s[|s| - |suffix| + k] == suffix[k]
  {
    assert s[|s| - |suffix|..][k] == s[|s| - |suffix| + k];
  }

  /** One mismatching position at the end rules a suffix out. */
  lemma NotEndsWith(s: string, suffix: string, k: nat)
    requires k < |suffix|
    requires |suffix| <= |s| ==> s[|s| - |suffix| + k] != suffix[k]
    ensures !EndsWith(s, suffix)
  {
    if |suffix| <= |s| {
      assert s[|s| - |suffix|..][k] == s[|s| - |suffix| + k];
    }
  }

  /** No name is both a header and a source, so the order of the two tests does not matter. */
  lemma SourceIsNotHeader(name: string)
    requires IsSourceName(name)
    ensures !IsHeaderName(name)
  {
    if EndsWith(name, ".cpp") {
      EndsWithAt(name, ".cpp", 3);
      EndsWithAt(name, ".cpp", 1);
      NotEndsWith(name, ".hpp", 1);
    } else if EndsWith(name, ".c") {
      EndsWithAt(name, ".c", 1);
      NotEndsWith(name, ".hpp", 3);
    } else {
      EndsWithAt(name, ".cc", 2);
      NotEndsWith(name, ".hpp", 3);
    }
    NotEndsWith(name, ".h", 1);
    NotEndsWith(name, ".def", 3);
    NotEndsWith(name, ".hxx", 3);
  }

  /**
   * `header_files` of one directory: the stems of its `.h` and `.hpp` files,
   * taken from the whole listing before any file is filtered out.
   */
  function HeaderBases(files: seq<File>): set<string> {
    set f | f in files && IsPairingHeaderName(f.name) :: Stem(f.name)
  }

  /** Whether the loop body copies file `f` of a directory whose header stems are `bases`. */
  predicate Selected(bases: set<string>, f: File) {
    && !ExcludedByName(f.name)
    && !VetoedByContent(f.lines)
    && (IsHeaderName(f.name) || (IsSourceName(f.name) && Stem(f.name) in bases))
  }

  /** The files of one directory that are copied, in listing order. */
  function SelectFiles(bases: set<string>, files: seq<File>): seq<File> {
    if files == [] then []
    else
      var last := files[|files| - 1];
      SelectFiles(bases, files[..|files| - 1]) + (if Selected(bases, last) then [last] else [])
  }

  /** Every file copied from the tree, in the order the walk copies them. */
  function Selections(tree: seq<Dir>): seq<File> {
    if tree == [] then []
    else
      var last := tree[|tree| - 1];
      Selections(tree[..|tree| - 1]) + SelectFiles(HeaderBases(last.files), last.files)
  }

  // ---------------------------------------------------------------------------
  // Properties of the selection
  // ---------------------------------------------------------------------------

  /** A directory contributes exactly its selected files. */
  lemma {:induction false} SelectFilesMembers(bases: set<string>, files: seq<File>)
    ensures forall f :: f in SelectFiles(bases, files) <==> f in files && Selected(bases, f)
  {
    if files != [] {
      var init := files[..|files| - 1];
      SelectFilesMembers(bases, init);
      assert files == init + [files[|files| - 1]];
    }
  }

  /** The tree contributes exactly the files selected within their own directory. */
  lemma SelectionsMembers(tree: seq<Dir>)
    ensures forall f :: f in Selections(tree) <==>
              exists i :: 0 <= i < |tree| && f in tree[i].files && Selected(HeaderBases(tree[i].files), f)
  {
    forall f {
      SelectionsMember(tree, f);
    }
  }

  /** One file is in the tree's selections exactly when it is selected within some directory. */
  lemma {:induction false} SelectionsMember(tree: seq<Dir>, f: File)
    ensures f in Selections(tree) <==>
            exists i :: 0 <= i < |tree| && f in tree[i].files && Selected(HeaderBases(tree[i].files), f)
  {
    if tree != [] {
      var n := |tree| - 1;
      var init := tree[..n];
      SelectionsMember(init, f);
      SelectFilesMembers(HeaderBases(tree[n].files), tree[n].files);
      assert forall i :: 0 <= i < n ==> init[i] == tree[i];
    }
  }

  /** A directory's header stems are exactly the stems of its `.h`/`.hpp` files. */
  lemma HeaderBasesMembers(files: seq<File>, b: string)
    ensures b in HeaderBases(files) <==> exists g :: g in files && IsPairingHeaderName(g.name) && Stem(g.name) == b
  {
  }

  /**
   * A source file that passes both exclusion tests is copied exactly when a
   * `.h` or `.hpp` with the same stem is listed in its own directory.
   */
  lemma SourcePairing(dir: Dir, f: File)
    requires f in dir.files
    requires IsSourceName(f.name)
    requires !ExcludedByName(f.name) && !VetoedByContent(f.lines)
    ensures Selected(HeaderBases(dir.files), f) <==>
            exists g :: g in dir.files && IsPairingHeaderName(g.name) && Stem(g.name) == Stem(f.name)
  {
    SourceIsNotHeader(f.name);
    HeaderBasesMembers(dir.files, Stem(f.name));
  }

  /** A header vetoed by its content is not copied, yet it still pairs its source. */
  lemma VetoedHeaderStillPairs(dir: Dir, h: File, src: File)
    requires h in dir.files && IsPairingHeaderName(h.name) && VetoedByContent(h.lines)
    requires src in dir.files && IsSourceName(src.name) && Stem(src.name) == Stem(h.name)
    requires !ExcludedByName(src.name) && !VetoedByContent(src.lines)
    ensures !Selected(HeaderBases(dir.files), h)
    ensures Selected(HeaderBases(dir.files), src)
  {
    SourcePairing(dir, src);
  }

  /** Surviving headers are always copied, whatever else is in the directory. */
  lemma HeaderSelected(bases: set<string>, f: File)
    requires IsHeaderName(f.name) && !ExcludedByName(f.name) && !VetoedByContent(f.lines)
    ensures Selected(bases, f)
  {
  }

  /** The content veto runs on every file, so it also rejects files of other extensions. */
  lemma VetoIgnoresExtension(bases: set<string>, f: File)
    requires VetoedByContent(f.lines)
    ensures !Selected(bases, f)
  {
  }
}
