/**
 * The vendoring step of `extract_headers_and_sources`: the destination
 * directory `<include_folder>/<owner>/<repo>` as a flat map from file name to
 * lines, filled file by file from the walk of the cloned tree, each file's
 * includes rewritten right after it is copied.
 */
module Vendor {
  import opened Includes
  import opened Selection
  import opened PosixPath
  import opened Wrappers

  /** The walk of the flat destination directory: one listing, its root and its file names. */
  function DestinationWalk(root: string, names: set<string>): seq<Listing> {
    [Listing(root, names)]
  }

  /** In the flat destination a name resolves, to the destination root, exactly when it is present. */
  lemma DestinationLookup(root: string, names: set<string>, name: string)
    ensures FirstRoot(DestinationWalk(root, names), name) == (if name in names then Some(root) else None)
  {
  }

  /**
   * One copy as the loop performs it: the file lands at `dest/<name>`
   * (replacing any earlier file of that name) and is then rewritten against
   * the names present in the destination at that moment, itself included.
   */
  function Place(dest: map<string, seq<string>>, root: string, f: File): map<string, seq<string>> {
    var copied := dest[f.name := f.lines];
    copied[f.name := RewriteLines(f.lines, DestinationWalk(root, copied.Keys))]
  }

  /** The destination after a sequence of copies, performed in order. */
  function Apply(dest: map<string, seq<string>>, root: string, copies: seq<File>): map<string, seq<string>> {
    if copies == [] then dest
    else Place(Apply(dest, root, copies[..|copies| - 1]), root, copies[|copies| - 1])
  }

  /** The destination after vendoring the whole tree, starting from what was there before. */
  function Vendored(tree: seq<Dir>, root: string, dest: map<string, seq<string>>): map<string, seq<string>> {
    Apply(dest, root, Selections(tree))
  }

  /** The names of a sequence of files. */
  function Names(files: seq<File>): set<string> {
    set f | f in files :: f.name
  }

  /** The destination directory; `root` is its absolute path. */
  class Destination {
    const root: string
    var files: map<string, seq<string>>

    constructor (root: string, existing: map<string, seq<string>>)
      ensures this.root == root && files == existing
    {
      this.root := root;
      files := existing;
    }

    /** What `os.walk` yields for the destination directory now. */
    function Walk(): seq<Listing>
      reads this
    {
      DestinationWalk(root, files.Keys)
    }

    /** `shutil.copy2(source_path, dest/<name>)`, contents only. */
    method Copy(f: File)
      modifies this
      ensures files == old(files)[f.name := f.lines]
    {
      files := files[f.name := f.lines];
    }

    /** `update_include_paths(dest/<name>, dest)`: reads the file, rewrites it, writes it back. */
    method UpdateIncludePaths(name: string)
      requires name in files
      modifies this
      ensures files == old(files)[name := RewriteLines(old(files)[name], old(Walk()))]
    {
      var updated := UpdateIncludeLines(files[name], Walk());
      assert updated == RewriteLines(files[name], Walk());
      files := files[name := updated];
    }

    /**
     * The rewriting phase in the corrected order, so that sibling files
     * resolve each other whatever the copy order: once every file is in
     * place, each file present is rewritten against the whole destination.
     */
    method RewriteEverything()
      modifies this
      ensures files == RewriteAll(old(files), root)
    {
      var pending := files.Keys;
      ghost var copied := files;
      while pending != {}
        invariant pending <= copied.Keys && files.Keys == copied.Keys
        invariant forall n :: n in copied ==>
                    files[n] == if n in pending then copied[n]
                                else RewriteLines(copied[n], DestinationWalk(root, copied.Keys))
        decreases pending
      {
        var n :| n in pending;
        UpdateIncludePaths(n);
        pending := pending - {n};
      }
    }

    /** The walk over the cloned tree: filter, pair, copy and rewrite, file by file. */
    method ExtractHeadersAndSources(tree: seq<Dir>)
      modifies this
      ensures files == Vendored(tree, root, old(files))
    {
      for i := 0 to |tree|
        invariant files == Apply(old(files), root, Selections(tree[..i]))
      {
        ghost var before := files;
        ExtractDirectory(tree[i]);
        assert tree[..i + 1][..i] == tree[..i];
        ApplyConcat(old(files), root, Selections(tree[..i]), SelectFiles(HeaderBases(tree[i].files), tree[i].files));
      }
      assert tree[..|tree|] == tree;
    }

    /** The body of the walk for one directory: its header stems, then each of its files in order. */
    method ExtractDirectory(dir: Dir)
      modifies this
      ensures files == Apply(old(files), root, SelectFiles(HeaderBases(dir.files), dir.files))
    {
      var bases := HeaderBases(dir.files);
      for j := 0 to |dir.files|
        invariant files == Apply(old(files), root, SelectFiles(bases, dir.files[..j]))
      {
        var f := dir.files[j];
        ghost var done := SelectFiles(bases, dir.files[..j]);
        assert dir.files[..j + 1][..j] == dir.files[..j];
        assert SelectFiles(bases, dir.files[..j + 1]) == done + (if Selected(bases, f) then [f] else []);
        if !ExcludedByName(f.name) {
          var veto := ShouldExcludeByInclude(f.lines);
          if veto {
            assert !Selected(bases, f) && done + [] == done;
            continue;
          }
          if IsHeaderName(f.name) || (IsSourceName(f.name) && Stem(f.name) in bases) {
            Copy(f);
            UpdateIncludePaths(f.name);
            ApplySnoc(old(files), root, done, f);
            assert Selected(bases, f);
          } else {
            assert !Selected(bases, f) && done + [] == done;
          }
        } else {
          assert !Selected(bases, f) && done + [] == done;
        }
      }
      assert dir.files[..|dir.files|] == dir.files;
    }
  }

  /** Copying one more file is one more step on top of the earlier copies. */
  lemma ApplySnoc(dest: map<string, seq<string>>, root: string, copies: seq<File>, f: File)
    ensures Apply(dest, root, copies + [f]) == Place(Apply(dest, root, copies), root, f)
  {
    assert (copies + [f])[..|copies|] == copies;
  }

  /** Copies made in two batches give the same destination as one batch. */
  lemma {:induction false} ApplyConcat(dest: map<string, seq<string>>, root: string, first: seq<File>, second: seq<File>)
    ensures Apply(dest, root, first + second) == Apply(Apply(dest, root, first), root, second)
  {
    if second == [] {
      assert first + second == first;
    } else {
      var init := second[..|second| - 1];
      var last := second[|second| - 1];
      assert first + second == (first + init) + [last];
      ApplyConcat(dest, root, first, init);
      ApplySnoc(dest, root, first + init, last);
    }
  }

  // ---------------------------------------------------------------------------
  // Properties of the destination
  // ---------------------------------------------------------------------------

  /** After the copies the destination holds what it held before plus every copied name. */
  lemma {:induction false} ApplyKeys(dest: map<string, seq<string>>, root: string, copies: seq<File>)
    ensures Apply(dest, root, copies).Keys == dest.Keys + Names(copies)
  {
    if copies != [] {
      var init, last := copies[..|copies| - 1], copies[|copies| - 1];
      assert copies == init + [last];
      ApplyKeys(dest, root, init);
      ApplySnoc(dest, root, init, last);
      PlaceEffect(Apply(dest, root, init), root, last);
      NamesSnoc(init, last);
    }
  }

  /** A name no copy uses keeps the contents it had before. */
  lemma {:induction false} ApplyUntouched(dest: map<string, seq<string>>, root: string, copies: seq<File>, name: string)
    requires name in dest
    requires name !in Names(copies)
    ensures name in Apply(dest, root, copies) && Apply(dest, root, copies)[name] == dest[name]
  {
    if copies != [] {
      var init := copies[..|copies| - 1];
      assert Names(init) <= Names(copies);
      ApplyUntouched(dest, root, init, name);
    }
  }

  /** What one copy does to the destination: the copied name and every other name. */
  lemma PlaceEffect(dest: map<string, seq<string>>, root: string, f: File)
    ensures Place(dest, root, f).Keys == dest.Keys + {f.name}
    ensures Place(dest, root, f)[f.name] == RewriteLines(f.lines, DestinationWalk(root, dest.Keys + {f.name}))
    ensures forall n :: n in dest && n != f.name ==> Place(dest, root, f)[n] == dest[n]
  {
    var copied := dest[f.name := f.lines];
    assert copied.Keys == dest.Keys + {f.name};
  }

  /**
   * Last write wins, rewritten at copy time: when no later copy reuses the
   * name of `f`, the destination ends up holding `f`'s lines rewritten against
   * the names present just after `f` was copied, and against nothing copied later.
   */
  lemma {:induction false} ApplyLastWriteWins(dest: map<string, seq<string>>, root: string,
                                              earlier: seq<File>, f: File, later: seq<File>)
    requires f.name !in Names(later)
    ensures f.name in Apply(dest, root, earlier + [f] + later)
    ensures Apply(dest, root, earlier + [f] + later)[f.name]
            == RewriteLines(f.lines, DestinationWalk(root, dest.Keys + Names(earlier) + {f.name}))
  {
    ApplyKeys(dest, root, earlier);
    var all := earlier + [f] + later;
    if later == [] {
      assert all[..|all| - 1] == earlier;
      PlaceEffect(Apply(dest, root, earlier), root, f);
    } else {
      var init := later[..|later| - 1];
      var last := later[|later| - 1];
      assert all[..|all| - 1] == earlier + [f] + init;
      assert Names(init) <= Names(later);
      assert last.name in Names(later);
      ApplyLastWriteWins(dest, root, earlier, f, init);
      PlaceEffect(Apply(dest, root, earlier + [f] + init), root, last);
    }
  }

  /** The destination's names after vendoring: the old ones plus those of every selected file. */
  lemma VendoredNames(tree: seq<Dir>, root: string, dest: map<string, seq<string>>, name: string)
    ensures name in Vendored(tree, root, dest) <==>
            name in dest
            || exists i, f :: 0 <= i < |tree| && f in tree[i].files && f.name == name
                              && Selected(HeaderBases(tree[i].files), f)
  {
    ApplyKeys(dest, root, Selections(tree));
    SelectionsMembers(tree);
  }

  /**
   * A name under which no file of the tree is selected gains nothing: it is
   * absent afterwards if it was absent before, and keeps its old contents otherwise.
   */
  lemma NeverSelectedNeverVendored(tree: seq<Dir>, root: string, dest: map<string, seq<string>>, name: string)
    requires forall i, f :: 0 <= i < |tree| && f in tree[i].files && f.name == name
                            ==> !Selected(HeaderBases(tree[i].files), f)
    ensures name in Vendored(tree, root, dest) <==> name in dest
    ensures name in dest ==> Vendored(tree, root, dest)[name] == dest[name]
  {
    VendoredNames(tree, root, dest, name);
    SelectionsMembers(tree);
    assert name !in Names(Selections(tree));
    if name in dest {
      ApplyUntouched(dest, root, Selections(tree), name);
    }
  }

  /** Name exclusion: nothing is ever copied under a name containing an exclusion keyword. */
  lemma ExcludedNameNeverVendored(tree: seq<Dir>, root: string, dest: map<string, seq<string>>, name: string)
    requires ExcludedByName(name)
    ensures name in Vendored(tree, root, dest) <==> name in dest
    ensures name in dest ==> Vendored(tree, root, dest)[name] == dest[name]
  {
    NeverSelectedNeverVendored(tree, root, dest, name);
  }

  /** Content veto: when every file of that name has a vetoing include line, nothing is copied under it. */
  lemma VetoedNeverVendored(tree: seq<Dir>, root: string, dest: map<string, seq<string>>, name: string)
    requires forall i, f :: 0 <= i < |tree| && f in tree[i].files && f.name == name ==> VetoedByContent(f.lines)
    ensures name in Vendored(tree, root, dest) <==> name in dest
    ensures name in dest ==> Vendored(tree, root, dest)[name] == dest[name]
  {
    NeverSelectedNeverVendored(tree, root, dest, name);
  }

  /** Every header of the tree that passes both exclusion tests ends up in the destination. */
  lemma HeaderVendored(tree: seq<Dir>, root: string, dest: map<string, seq<string>>, i: nat, f: File)
    requires i < |tree| && f in tree[i].files
    requires IsHeaderName(f.name) && !ExcludedByName(f.name) && !VetoedByContent(f.lines)
    ensures f.name in Vendored(tree, root, dest)
  {
    VendoredNames(tree, root, dest, f.name);
  }

  /**
   * A surviving source file is copied when its own directory lists a `.h` or
   * `.hpp` with its stem, and only then: a header elsewhere in the tree does not pair it.
   */
  lemma SourceVendoredIffSiblingHeader(tree: seq<Dir>, f: File)
    requires IsSourceName(f.name) && !ExcludedByName(f.name) && !VetoedByContent(f.lines)
    ensures f in Selections(tree) <==>
            exists i, g :: 0 <= i < |tree| && f in tree[i].files && g in tree[i].files
                           && IsPairingHeaderName(g.name) && Stem(g.name) == Stem(f.name)
  {
    SelectionsMembers(tree);
    forall i | 0 <= i < |tree| && f in tree[i].files
      ensures Selected(HeaderBases(tree[i].files), f) <==>
              exists g :: g in tree[i].files && IsPairingHeaderName(g.name) && Stem(g.name) == Stem(f.name)
    {
      SourcePairing(tree[i], f);
    }
  }

  /** The same as `ApplyLastWriteWins`, for the `k`-th copy of a sequence. */
  lemma ApplyContents(dest: map<string, seq<string>>, root: string, copies: seq<File>, k: nat)
    requires k < |copies|
    requires copies[k].name !in Names(copies[k + 1..])
    ensures copies[k].name in Apply(dest, root, copies)
    ensures Apply(dest, root, copies)[copies[k].name]
            == RewriteLines(copies[k].lines, DestinationWalk(root, dest.Keys + Names(copies[..k + 1])))
  {
    var earlier := copies[..k];
    var f := copies[k];
    var later := copies[k + 1..];
    assert copies == earlier + [f] + later;
    ApplyLastWriteWins(dest, root, earlier, f, later);
    assert copies[..k + 1] == earlier + [f];
    NamesSnoc(earlier, f);
    assert dest.Keys + Names(earlier) + {f.name} == dest.Keys + Names(copies[..k + 1]);
  }

  /** The names of a sequence with one more file. */
  lemma NamesSnoc(files: seq<File>, f: File)
    ensures Names(files + [f]) == Names(files) + {f.name}
  {
    assert f in files + [f];
    assert forall g :: g in files + [f] <==> g in files || g == f;
  }

  /**
   * The final contents of a vendored file: when the `k`-th copy is the last
   * one under its name, the destination holds its lines rewritten against the
   * names that were there before plus those of copies 0..k.
   */
  lemma VendoredContents(tree: seq<Dir>, root: string, dest: map<string, seq<string>>, k: nat)
    requires k < |Selections(tree)|
    requires Selections(tree)[k].name !in Names(Selections(tree)[k + 1..])
    ensures Selections(tree)[k].name in Vendored(tree, root, dest)
    ensures Vendored(tree, root, dest)[Selections(tree)[k].name]
            == RewriteLines(Selections(tree)[k].lines,
                            DestinationWalk(root, dest.Keys + Names(Selections(tree)[..k + 1])))
  {
    ApplyContents(dest, root, Selections(tree), k);
  }

  // ---------------------------------------------------------------------------
  // Rewrite order: as written, and corrected so that siblings resolve each other
  // ---------------------------------------------------------------------------

  /**
   * As written, a file is rewritten right after it is copied. An include of a
   * file that the walk copies only later is therefore left as it was, although
   * that file does end up in the destination.
   */
  lemma LaterSiblingLeftUnresolved(dest: map<string, seq<string>>, root: string,
                                   earlier: seq<File>, f: File, later: seq<File>, i: nat, d: Directive)
    requires f.name !in Names(later)
    requires i < |f.lines| && ParseInclude(f.lines[i]) == Some(d)
    requires d.name !in dest.Keys + Names(earlier) + {f.name}
    requires d.name in Names(later)
    ensures d.name in Apply(dest, root, earlier + [f] + later)
    ensures f.name in Apply(dest, root, earlier + [f] + later)
    ensures |Apply(dest, root, earlier + [f] + later)[f.name]| == |f.lines|
    ensures Apply(dest, root, earlier + [f] + later)[f.name][i] == f.lines[i]
  {
    ApplyLastWriteWins(dest, root, earlier, f, later);
    NamesGrow(dest, root, earlier, f, later);
    UnresolvedLineKept(f.lines, root, dest.Keys + Names(earlier) + {f.name}, i);
  }

  /** A line naming a file absent from the destination survives the rewrite of its file. */
  lemma UnresolvedLineKept(lines: seq<string>, root: string, names: set<string>, i: nat)
    requires i < |lines| && ParseInclude(lines[i]).Some? && ParseInclude(lines[i]).value.name !in names
    ensures |RewriteLines(lines, DestinationWalk(root, names))| == |lines|
    ensures RewriteLines(lines, DestinationWalk(root, names))[i] == lines[i]
  {
    UnresolvedLinePreserved(lines[i], DestinationWalk(root, names));
  }

  /** Every name copied is in the destination afterwards. */
  lemma NamesGrow(dest: map<string, seq<string>>, root: string, earlier: seq<File>, f: File, later: seq<File>)
    ensures Names(later) <= Apply(dest, root, earlier + [f] + later).Keys
  {
    var all := earlier + [f] + later;
    ApplyKeys(dest, root, all);
    forall n | n in Names(later) ensures n in Names(all) {
      var g :| g in later && g.name == n;
      assert g in all;
    }
  }

  /**
   * A header whose only line includes a sibling copied after it: both end up
   * in the destination, but the include keeps its relative form.
   */
  lemma SiblingOrderFailure(dest: map<string, seq<string>>, root: string, a: File, b: File)
    requires b.name != "" && '/' !in b.name && '"' !in b.name
    requires a.name != b.name && b.name !in dest
    requires a.lines == [FormatInclude(Quote, b.name)]
    ensures b.name in Apply(dest, root, [a, b])
    ensures a.name in Apply(dest, root, [a, b])
    ensures Apply(dest, root, [a, b])[a.name] == a.lines
  {
    QuotedNameParses(b.name);
    SingleUnresolvedLineKept(a.lines, root, dest.Keys + {a.name});
    SecondCopyKeepsFirst(dest, root, a, b);
  }

  /** A one-line file whose include names no file of the destination is left as it is. */
  lemma SingleUnresolvedLineKept(lines: seq<string>, root: string, names: set<string>)
    requires |lines| == 1 && ParseInclude(lines[0]).Some? && ParseInclude(lines[0]).value.name !in names
    ensures RewriteLines(lines, DestinationWalk(root, names)) == lines
  {
    UnresolvedLineKept(lines, root, names, 0);
    SameSingleton(RewriteLines(lines, DestinationWalk(root, names)), lines);
  }

  /** Two one-element sequences with the same element are equal. */
  lemma SameSingleton(s: seq<seq<char>>, t: seq<seq<char>>)
    requires |s| == 1 && |t| == 1 && s[0] == t[0]
    ensures s == t
  {
    assert s == [s[0]] && t == [t[0]];
  }

  /** `#include "<name>"` names `name`, for a bare name without quotes. */
  lemma QuotedNameParses(name: string)
    requires name != "" && '/' !in name && '"' !in name
    ensures ParseInclude(FormatInclude(Quote, name)) == Some(Directive(name, Quote))
  {
    assert Basename(name) == name by {
      assert '/' !in name;
    }
    ParseFormatted(Quote, name);
  }

  /** A second copy under another name leaves the first file as its own rewrite made it. */
  lemma SecondCopyKeepsFirst(dest: map<string, seq<string>>, root: string, a: File, b: File)
    requires a.name != b.name
    ensures a.name in Apply(dest, root, [a, b]) && b.name in Apply(dest, root, [a, b])
    ensures Apply(dest, root, [a, b])[a.name] == RewriteLines(a.lines, DestinationWalk(root, dest.Keys + {a.name}))
  {
    ApplyTwo(dest, root, a, b);
    var first := Place(dest, root, a);
    PlaceEffect(dest, root, a);
    PlaceEffect(first, root, b);
    assert a.name in first && a.name != b.name;
    assert Place(first, root, b)[a.name] == first[a.name];
  }

  /**
   * The same in a walk of the clone: a directory lists header `a`, whose only
   * line includes `b`, before header `b`; both pass the filters, both are
   * vendored, and `a` keeps its relative include.
   */
  lemma SiblingOrderInWalk(tree: seq<Dir>, root: string, dest: map<string, seq<string>>, a: File, b: File)
    requires |tree| == 1 && tree[0].files == [a, b]
    requires IsHeaderName(a.name) && !ExcludedByName(a.name) && !VetoedByContent(a.lines)
    requires IsHeaderName(b.name) && !ExcludedByName(b.name) && !VetoedByContent(b.lines)
    requires b.name != "" && '/' !in b.name && '"' !in b.name
    requires a.name != b.name && b.name !in dest
    requires a.lines == [FormatInclude(Quote, b.name)]
    ensures b.name in Vendored(tree, root, dest) && a.name in Vendored(tree, root, dest)
    ensures Vendored(tree, root, dest)[a.name] == a.lines
  {
    SiblingOrderFailure(dest, root, a, b);
    OneDirectoryOfTwo(tree, root, dest, a, b);
  }

  /** A walk of one directory listing two surviving headers copies both, in listing order. */
  lemma OneDirectoryOfTwo(tree: seq<Dir>, root: string, dest: map<string, seq<string>>, a: File, b: File)
    requires |tree| == 1 && tree[0].files == [a, b]
    requires IsHeaderName(a.name) && !ExcludedByName(a.name) && !VetoedByContent(a.lines)
    requires IsHeaderName(b.name) && !ExcludedByName(b.name) && !VetoedByContent(b.lines)
    ensures Vendored(tree, root, dest) == Apply(dest, root, [a, b])
  {
    OneDirectorySelections(tree);
    TwoSurvivingHeaders(HeaderBases(tree[0].files), a, b);
  }

  /** A walk of one directory copies what that directory selects. */
  lemma OneDirectorySelections(tree: seq<Dir>)
    requires |tree| == 1
    ensures Selections(tree) == SelectFiles(HeaderBases(tree[0].files), tree[0].files)
  {
    assert tree[..0] == [];
  }

  /** Two headers that pass both filters are both copied, in listing order. */
  lemma TwoSurvivingHeaders(bases: set<string>, a: File, b: File)
    requires IsHeaderName(a.name) && !ExcludedByName(a.name) && !VetoedByContent(a.lines)
    requires IsHeaderName(b.name) && !ExcludedByName(b.name) && !VetoedByContent(b.lines)
    ensures SelectFiles(bases, [a, b]) == [a, b]
  {
    assert Selected(bases, a) && Selected(bases, b);
    assert [a, b][..1] == [a] && [a][..0] == [];
    assert SelectFiles(bases, [a]) == [a];
  }

  /** Two copies are two steps. */
  lemma ApplyTwo(dest: map<string, seq<string>>, root: string, a: File, b: File)
    ensures Apply(dest, root, [a, b]) == Place(Place(dest, root, a), root, b)
  {
    assert [a, b][..1] == [a];
    assert [a][..0] == [];
    assert Apply(dest, root, [a]) == Place(dest, root, a);
  }

  /** `a.h` is `#include "b.h"` and `b.h` comes after it in the walk of an empty destination. */
  lemma SiblingOrderCounterexample(root: string)
    ensures var a := File("a.h", [FormatInclude(Quote, "b.h")]);
            var b := File("b.h", []);
            && "b.h" in Apply(map[], root, [a, b])
            && "a.h" in Apply(map[], root, [a, b])
            && Apply(map[], root, [a, b])["a.h"] == [FormatInclude(Quote, "b.h")]
  {
    var a := File("a.h", [FormatInclude(Quote, "b.h")]);
    SiblingOrderFailure(map[], root, a, File("b.h", []));
  }

  /** The copies alone, each replacing any earlier file of the same name. */
  function CopyAll(dest: map<string, seq<string>>, copies: seq<File>): map<string, seq<string>> {
    if copies == [] then dest
    else CopyAll(dest, copies[..|copies| - 1])[copies[|copies| - 1].name := copies[|copies| - 1].lines]
  }

  /** Every file of a destination rewritten against that whole destination. */
  function RewriteAll(copied: map<string, seq<string>>, root: string): (r: map<string, seq<string>>)
    ensures r.Keys == copied.Keys
  {
    map n | n in copied :: RewriteLines(copied[n], DestinationWalk(root, copied.Keys))
  }

  /** Vendoring in the corrected order: copy every selected file, then rewrite every file present. */
  function VendoredThenRewritten(tree: seq<Dir>, root: string, dest: map<string, seq<string>>): map<string, seq<string>> {
    RewriteAll(CopyAll(dest, Selections(tree)), root)
  }

  lemma {:induction false} CopyAllKeys(dest: map<string, seq<string>>, copies: seq<File>)
    ensures CopyAll(dest, copies).Keys == dest.Keys + Names(copies)
  {
    if copies != [] {
      var init := copies[..|copies| - 1];
      CopyAllKeys(dest, init);
      assert copies == init + [copies[|copies| - 1]];
      assert Names(copies) == Names(init) + {copies[|copies| - 1].name};
    }
  }

  /** The last copy under a name is what the copies leave under it. */
  lemma {:induction false} CopyAllLastWrite(dest: map<string, seq<string>>, earlier: seq<File>, f: File, later: seq<File>)
    requires f.name !in Names(later)
    ensures f.name in CopyAll(dest, earlier + [f] + later)
    ensures CopyAll(dest, earlier + [f] + later)[f.name] == f.lines
  {
    var all := earlier + [f] + later;
    if later == [] {
      assert all[..|all| - 1] == earlier;
    } else {
      var init := later[..|later| - 1];
      assert all[..|all| - 1] == earlier + [f] + init;
      assert Names(init) <= Names(later);
      assert later[|later| - 1].name in Names(later);
      CopyAllLastWrite(dest, earlier, f, init);
    }
  }

  /** The corrected order ends with the same set of files as the code's order. */
  lemma SameFilesEitherOrder(tree: seq<Dir>, root: string, dest: map<string, seq<string>>)
    ensures VendoredThenRewritten(tree, root, dest).Keys == Vendored(tree, root, dest).Keys
  {
    CopyAllKeys(dest, Selections(tree));
    ApplyKeys(dest, root, Selections(tree));
  }

  /**
   * What the corrected order achieves: every include line whose name is present
   * anywhere in the destination becomes an include of that file's absolute path,
   * with the same delimiter, so that sibling headers resolve each other whatever
   * the copy order.
   */
  lemma PresentIncludesResolved(copied: map<string, seq<string>>, root: string, n: string, i: nat, d: Directive)
    requires n in copied && i < |copied[n]|
    requires ParseInclude(copied[n][i]) == Some(d) && d.name in copied
    ensures RewriteAll(copied, root)[n][i] == FormatInclude(d.delimiter, ResolvedPath(root, d.name))
  {
  }

  /**
   * Vendoring in the corrected order resolves every include that names a file
   * present in the final destination, whichever file was copied first.
   */
  lemma CorrectedOrderResolvesPresent(tree: seq<Dir>, root: string, dest: map<string, seq<string>>,
                                   n: string, i: nat, d: Directive)
    requires n in CopyAll(dest, Selections(tree)) && i < |CopyAll(dest, Selections(tree))[n]|
    requires ParseInclude(CopyAll(dest, Selections(tree))[n][i]) == Some(d)
    requires d.name in VendoredThenRewritten(tree, root, dest)
    ensures n in VendoredThenRewritten(tree, root, dest)
    ensures |VendoredThenRewritten(tree, root, dest)[n]| == |CopyAll(dest, Selections(tree))[n]|
    ensures VendoredThenRewritten(tree, root, dest)[n][i] == FormatInclude(d.delimiter, ResolvedPath(root, d.name))
  {
    PresentIncludesResolved(CopyAll(dest, Selections(tree)), root, n, i, d);
  }

  /** In the corrected order, the include of a sibling copied later does resolve. */
  lemma LaterSiblingResolvedInCorrectedOrder(dest: map<string, seq<string>>, root: string,
                                          earlier: seq<File>, f: File, later: seq<File>, i: nat, d: Directive)
    requires f.name !in Names(later)
    requires i < |f.lines| && ParseInclude(f.lines[i]) == Some(d)
    requires d.name in Names(later)
    ensures f.name in CopyAll(dest, earlier + [f] + later)
    ensures |RewriteAll(CopyAll(dest, earlier + [f] + later), root)[f.name]| == |f.lines|
    ensures RewriteAll(CopyAll(dest, earlier + [f] + later), root)[f.name][i]
            == FormatInclude(d.delimiter, ResolvedPath(root, d.name))
  {
    var all := earlier + [f] + later;
    CopyAllLastWrite(dest, earlier, f, later);
    CopyAllKeys(dest, all);
    forall n | n in Names(later) ensures n in Names(all) {
      var g :| g in later && g.name == n;
      assert g in all;
    }
    PresentIncludesResolved(CopyAll(dest, all), root, f.name, i, d);
  }
}
