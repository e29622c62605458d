/**
 * Concrete consequences of the model: the outcomes the vendoring engine
 * gives for small trees and single lines, derived from the general lemmas.
 */
module Scenarios {
  import opened Wrappers
  import opened Text
  import opened PosixPath
  import opened Includes
  import opened Selection
  import opened Vendor

  // ---------------------------------------------------------------------------
  // The content veto against the rewriter's column-0 rule
  // ---------------------------------------------------------------------------

  /** A line whose first character is white space is not an include for the rewriter. */
  lemma IndentedLineNotParsed(line: string)
    requires line != [] && IsSpace(line[0])
    ensures ParseInclude(line) == None
  {
    assert line[0] != '#';
    NotHashNotInclude(line);
  }

  /** The veto strips the line first, so indentation does not hide an include from it. */
  lemma IndentedIncludeVetoes(ws: string, rest: string)
    requires forall i :: 0 <= i < |ws| ==> IsSpace(ws[i])
    requires StartsWith(rest, "#include") && Contains(Lower(rest), "test")
    ensures VetoLine(ws + rest)
  {
    assert rest[0] == '#';
    LStripLeadingSpace(ws, rest);
    StripKeepsPrefix(rest, "#include");
    LowerConcat(ws, rest);
    ContainsInside(Lower(ws), Lower(rest), [], "test");
    assert Lower(ws) + Lower(rest) + [] == Lower(ws + rest);
  }

  /**
   * An indented include mentioning "test" vetoes its file, yet the rewriter
   * leaves it as it is: it only recognises includes at column 0.
   */
  lemma IndentedIncludeVetoedNotRewritten(ws: string, rest: string, walk: seq<Listing>)
    requires ws != [] && forall i :: 0 <= i < |ws| ==> IsSpace(ws[i])
    requires StartsWith(rest, "#include") && Contains(Lower(rest), "test")
    ensures VetoLine(ws + rest)
    ensures ParseInclude(ws + rest) == None
    ensures RewriteLine(ws + rest, walk) == ws + rest
  {
    var line := ws + rest;
    IndentedIncludeVetoes(ws, rest);
    assert line[0] == ws[0];
    IndentedLineNotParsed(line);
    NonIncludeLinePreserved(line, walk);
  }

  /** An include whose target's lower-cased path contains "test" vetoes its file. */
  lemma TestIncludeVetoed(d: Delimiter, path: string)
    requires Contains(Lower(path), "test")
    ensures VetoLine(FormatInclude(d, path))
  {
    var line := FormatInclude(d, path);
    var tail := [Closing(d)] + "\n";
    assert line == Prefix(d) + path + tail;
    assert line[..8] == "#include";
    StripKeepsPrefix(line, "#include");
    LowerConcat(Prefix(d) + path, tail);
    LowerConcat(Prefix(d), path);
    ContainsInside(Lower(Prefix(d)), Lower(path), Lower(tail), "test");
  }

  /** `latest.h` contains "test". */
  lemma LatestContainsTest(name: string)
    requires name == "latest.h"
    ensures Contains(Lower(name), "test")
  {
    LowerOfLowercase(name);
    assert OccursAt(name, "test", 2);
    ContainsIff(name, "test");
  }

  /** So a file that includes `latest.h`, in either form, is never copied. */
  lemma LatestHeaderVetoes(lines: seq<string>, i: nat, d: Delimiter)
    requires i < |lines| && lines[i] == FormatInclude(d, "latest.h")
    ensures VetoedByContent(lines)
  {
    LatestContainsTest("latest.h");
    TestIncludeVetoed(d, "latest.h");
  }

  // ---------------------------------------------------------------------------
  // Name exclusion and pairing on small trees
  // ---------------------------------------------------------------------------

  /** The characters `t`, `e`, `m`, `u`, `d` and `k`: every exclusion keyword has one of them. */
  const Marks: string := "temudk"

  /** One character of each exclusion keyword, in keyword order, each of them one of `Marks`. */
  const KeywordMarks: string := "teduummttdeddmukkd"

  lemma MarksInKeywords()
    ensures |KeywordMarks| == |ExcludeKeywords|
    ensures forall k :: 0 <= k < |KeywordMarks| ==> KeywordMarks[k] in ExcludeKeywords[k] && KeywordMarks[k] in Marks
  {
  }

  /** A name none of whose lower-cased characters is one of `Marks` contains no exclusion keyword. */
  lemma NotExcludedByName(name: string)
    requires forall i :: 0 <= i < |name| ==> LowerChar(name[i]) !in Marks
    ensures !ExcludedByName(name)
  {
    var lowered := Lower(name);
    MarksInKeywords();
    AnyContainsIff(lowered, ExcludeKeywords);
    forall kw | kw in ExcludeKeywords
      ensures !Contains(lowered, kw)
    {
      var k :| 0 <= k < |ExcludeKeywords| && ExcludeKeywords[k] == kw;
      var c := KeywordMarks[k];
      assert c !in lowered by {
        assert forall i :: 0 <= i < |lowered| ==> lowered[i] != c;
      }
      NotContainsWhenCharMissing(lowered, kw, c);
    }
  }

  /** A stem of the pairing scenario: non-empty, without '/' or '.', and with none of `Marks`. */
  predicate PlainStem(stem: string) {
    && stem != [] && '/' !in stem && '.' !in stem
    && forall i :: 0 <= i < |stem| ==> LowerChar(stem[i]) !in Marks
  }

  /** `foo` and `bar` are plain stems. */
  lemma FooBarPlain(stem: string)
    requires stem == "foo" || stem == "bar"
    ensures PlainStem(stem)
  {
  }

  /** A plain stem followed by `.h` or `.cpp` passes the name test. */
  lemma PlainNameNotExcluded(stem: string, ext: string)
    requires PlainStem(stem) && (ext == ".h" || ext == ".cpp")
    ensures !ExcludedByName(stem + ext)
  {
    var name := stem + ext;
    forall i | 0 <= i < |name|
      ensures LowerChar(name[i]) !in Marks
    {
      if i < |stem| {
        assert name[i] == stem[i];
      } else {
        assert name[i] in ext;
      }
    }
    NotExcludedByName(name);
  }

  /** A `.h` name is a header and a pairing header, and its stem is what precedes `.h`. */
  lemma HStem(stem: string, name: string)
    requires name == stem + ".h" && stem != [] && '/' !in stem && '.' !in stem
    ensures IsHeaderName(name) && IsPairingHeaderName(name) && Stem(name) == stem
  {
    assert stem[0] != '.';
    StemOf(stem, ".h");
    assert name[|name| - 2..] == ".h";
  }

  /** A `.cpp` name is a source, is not a pairing header, and its stem is what precedes `.cpp`. */
  lemma CppStem(stem: string, name: string)
    requires name == stem + ".cpp" && stem != [] && '/' !in stem && '.' !in stem
    ensures IsSourceName(name) && !IsPairingHeaderName(name) && Stem(name) == stem
  {
    assert stem[0] != '.';
    StemOf(stem, ".cpp");
    assert name[|name| - 4..] == ".cpp";
    NotEndsWith(name, ".h", 0);
    NotEndsWith(name, ".hpp", 1);
  }

  /** `<stem>.h` with passing content is selected. */
  lemma PlainHeaderSelected(bases: set<string>, stem: string, f: File)
    requires PlainStem(stem) && f.name == stem + ".h" && !VetoedByContent(f.lines)
    ensures Selected(bases, f)
  {
    PlainNameNotExcluded(stem, ".h");
    HStem(stem, f.name);
  }

  /** `<stem>.cpp` with passing content is selected exactly when `stem` is a header stem. */
  lemma PlainSourceSelected(bases: set<string>, stem: string, f: File)
    requires PlainStem(stem) && f.name == stem + ".cpp" && !VetoedByContent(f.lines)
    ensures Selected(bases, f) <==> stem in bases
  {
    PlainNameNotExcluded(stem, ".cpp");
    CppStem(stem, f.name);
    SourceIsNotHeader(f.name);
  }

  /**
   * A directory listing `<s>.h`, `<s>.cpp` and `<o>.cpp` for two distinct plain
   * stems, none vetoed by its content: the walk copies `<s>.h` and `<s>.cpp`,
   * in that order, and not `<o>.cpp`.
   */
  lemma PairingScenario(dir: Dir, h: File, s: File, t: File, stem: string, other: string)
    requires dir.files == [h, s, t]
    requires h.name == stem + ".h" && s.name == stem + ".cpp" && t.name == other + ".cpp"
    requires PlainStem(stem) && PlainStem(other) && stem != other
    requires !VetoedByContent(h.lines) && !VetoedByContent(s.lines) && !VetoedByContent(t.lines)
    ensures Selections([dir]) == [h, s]
  {
    var bases := HeaderBases(dir.files);
    PairingBases(dir.files, h, s, t, stem, other);
    PlainHeaderSelected(bases, stem, h);
    PlainSourceSelected(bases, stem, s);
    PlainSourceSelected(bases, other, t);
    SelectFirstTwo(bases, h, s, t);
    assert [dir][..0] == [];
  }

  /** The header stems of such a directory: `stem` is one, `other` is not. */
  lemma PairingBases(files: seq<File>, h: File, s: File, t: File, stem: string, other: string)
    requires files == [h, s, t]
    requires h.name == stem + ".h" && s.name == stem + ".cpp" && t.name == other + ".cpp"
    requires PlainStem(stem) && PlainStem(other) && stem != other
    ensures stem in HeaderBases(files) && other !in HeaderBases(files)
  {
    HStem(stem, h.name);
    CppStem(stem, s.name);
    CppStem(other, t.name);
    HeaderBasesMembers(files, stem);
    OnlyHeaderStem(files, h, s, t, other);
  }

  /** When only the first of three files is a `.h`/`.hpp`, no other stem is a header stem. */
  lemma OnlyHeaderStem(files: seq<File>, h: File, s: File, t: File, other: string)
    requires files == [h, s, t]
    requires !IsPairingHeaderName(s.name) && !IsPairingHeaderName(t.name) && Stem(h.name) != other
    ensures other !in HeaderBases(files)
  {
    HeaderBasesMembers(files, other);
    forall g | g in files
      ensures !(IsPairingHeaderName(g.name) && Stem(g.name) == other)
    {
      assert g == h || g == s || g == t;
    }
  }

  /** The instance `foo.h`, `foo.cpp`, `bar.cpp`: the walk copies `foo.h` then `foo.cpp`. */
  lemma FooBarPairing(dir: Dir, fooH: File, fooCpp: File, barCpp: File)
    requires dir.files == [fooH, fooCpp, barCpp]
    requires fooH.name == "foo.h" && fooCpp.name == "foo.cpp" && barCpp.name == "bar.cpp"
    requires !VetoedByContent(fooH.lines) && !VetoedByContent(fooCpp.lines) && !VetoedByContent(barCpp.lines)
    ensures Selections([dir]) == [fooH, fooCpp]
  {
    FooBarPlain("foo");
    FooBarPlain("bar");
    assert fooH.name == "foo" + ".h" && fooCpp.name == "foo" + ".cpp" && barCpp.name == "bar" + ".cpp";
    PairingScenario(dir, fooH, fooCpp, barCpp, "foo", "bar");
  }

  /** Of three files, the first two selected and the third not: the copies are the first two. */
  lemma SelectFirstTwo(bases: set<string>, a: File, b: File, c: File)
    requires Selected(bases, a) && Selected(bases, b) && !Selected(bases, c)
    ensures SelectFiles(bases, [a, b, c]) == [a, b]
  {
    var fs := [a, b, c];
    assert [a][..0] == [];
    assert SelectFiles(bases, [a]) == [a];
    assert [a, b][..1] == [a];
    assert SelectFiles(bases, [a, b]) == [a, b];
    assert fs[..2] == [a, b];
  }

  /** A name that starts with `test` is excluded, `test` being the first keyword. */
  lemma TestPrefixExcluded(name: string)
    requires StartsWith(name, "test")
    ensures ExcludedByName(name)
  {
    var lowered := Lower(name);
    forall i | 0 <= i < 4
      ensures lowered[i] == "test"[i]
    {
      assert name[i] == name[..4][i];
    }
    assert lowered[..4] == "test";
    assert ExcludeKeywords[0] == "test";
  }

  lemma TestFooNames(header: string, source: string)
    requires header == "test_foo.h" && source == "test_foo.cpp"
    ensures ExcludedByName(header) && ExcludedByName(source)
  {
    assert header == "test" + "_foo.h" && source == "test" + "_foo.cpp";
    TestPrefixExcluded(header);
    TestPrefixExcluded(source);
  }

  /**
   * `test_foo.h` with its `test_foo.cpp`: both names contain "test", so
   * neither gains an entry in the destination, whatever their contents.
   */
  lemma TestNamedPairExcluded(tree: seq<Dir>, root: string, dest: map<string, seq<string>>)
    requires "test_foo.h" !in dest && "test_foo.cpp" !in dest
    ensures "test_foo.h" !in Vendored(tree, root, dest) && "test_foo.cpp" !in Vendored(tree, root, dest)
  {
    TestFooNames("test_foo.h", "test_foo.cpp");
    ExcludedNameNeverVendored(tree, root, dest, "test_foo.h");
    ExcludedNameNeverVendored(tree, root, dest, "test_foo.cpp");
  }

  // ---------------------------------------------------------------------------
  // Rewriting single lines
  // ---------------------------------------------------------------------------

  /** `#include <unistd.h>` with no `unistd.h` in the destination is kept verbatim. */
  lemma MissingSystemHeaderKept(root: string, names: set<string>, name: string)
    requires name == "unistd.h" && name !in names
    ensures RewriteLine(FormatInclude(Angle, name), DestinationWalk(root, names)) == FormatInclude(Angle, name)
  {
    AngledNameParses(name);
    UnresolvedLinePreserved(FormatInclude(Angle, name), DestinationWalk(root, names));
  }

  /** `#include "util.h"` with `util.h` in the destination points at the vendored copy. */
  lemma PresentHeaderResolved(root: string, names: set<string>, name: string)
    requires name == "util.h" && name in names
    ensures RewriteLine(FormatInclude(Quote, name), DestinationWalk(root, names))
            == FormatInclude(Quote, ResolvedPath(root, name))
  {
    QuotedNameParses(name);
  }

  /** `#include <name>` names `name`, for a bare name without angle brackets. */
  lemma AngledNameParses(name: string)
    requires name != "" && '/' !in name && '<' !in name && '>' !in name
    ensures ParseInclude(FormatInclude(Angle, name)) == Some(Directive(name, Angle))
  {
    assert Basename(name) == name by {
      assert '/' !in name;
    }
    ParseFormatted(Angle, name);
  }
}
