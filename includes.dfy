/**
 * The include rewriter: recognising `#include "…"` / `#include <…>` lines,
 * looking the referenced file name up in a directory walk of the destination,
 * and re-emitting resolved lines with an absolute path.
 */
module Includes {
  import opened Wrappers
  import opened Text
  import opened PosixPath

  /** Which pair of delimiters an include directive uses. */
  datatype Delimiter = Quote | Angle

  /** A recognised include line: the referenced file's base name and its delimiters. */
  datatype Directive = Directive(name: string, delimiter: Delimiter)

  /** One step of a directory walk: a directory and the names of the files directly in it. */
  datatype Listing = Listing(root: string, names: set<string>)

  function Opening(d: Delimiter): char {
    match d
    case Quote => '"'
    case Angle => '<'
  }

  function Closing(d: Delimiter): char {
    match d
    case Quote => '"'
    case Angle => '>'
  }

  /** The column-0 text that introduces a directive of this kind. */
  function Prefix(d: Delimiter): string {
    "#include " + [Opening(d)]
  }

  /**
   * The characters that end the referenced name: the next '"' for a quoted
   * include (`line.split('"')[1]`), the next '<' or '>' for an angled one
   * (`line.split('<')[1].split('>')[0]`).
   */
  function Stops(d: Delimiter): set<char> {
    match d
    case Quote => {'"'}
    case Angle => {'<', '>'}
  }

  /** The delimiter kind a line starts with, if it starts with either prefix. */
  function DelimiterOf(line: string): Option<Delimiter> {
    if StartsWith(line, Prefix(Quote)) then Some(Quote)
    else if StartsWith(line, Prefix(Angle)) then Some(Angle)
    else None
  }

  /**
   * Recognises an include line. Only a line that starts at column 0 with
   * `#include "` or `#include <` is a candidate; the referenced name is the
   * base name of the text up to the next stop character (or the end of the
   * line), and an empty name means the line is not treated as an include.
   */
  function ParseInclude(line: string): (r: Option<Directive>)
    ensures r.Some? ==> StartsWith(line, Prefix(r.value.delimiter))
    ensures r.Some? ==> r.value.name != "" && '/' !in r.value.name
    ensures r.Some? ==> forall k :: 0 <= k < |r.value.name| ==> r.value.name[k] !in Stops(r.value.delimiter)
  {
    match DelimiterOf(line)
    case None => None
    case Some(d) =>
      var token := TakeUntil(line[|Prefix(d)|..], Stops(d));
      var name := Basename(token);
      assert forall k :: 0 <= k < |name| ==> name[k] == token[|token| - |name| + k];
      if name == "" then None else Some(Directive(name, d))
  }

  /** The line written for a resolved include: `#include ` + delimiters around the path + newline. */
  function FormatInclude(d: Delimiter, path: string): string {
    Prefix(d) + path + [Closing(d)] + "\n"
  }

  /**
   * The first directory, in walk order, whose file names include `name`
   * (the `for … in os.walk(…)` loop with `break` and `else`).
   */
  function FirstRoot(walk: seq<Listing>, name: string): (r: Option<string>)
    ensures r.None? <==> forall i :: 0 <= i < |walk| ==> name !in walk[i].names
    ensures r.Some? ==> exists i :: 0 <= i < |walk| && walk[i].root == r.value && name in walk[i].names
                                     && forall j :: 0 <= j < i ==> name !in walk[j].names
  {
    if walk == [] then None
    else if name in walk[0].names then Some(walk[0].root)
    else
      var r := FirstRoot(walk[1..], name);
      assert forall i :: 1 <= i < |walk| ==> walk[i] == walk[1..][i - 1];
      r
  }

  /** The path an include resolves to: `os.path.abspath(os.path.join(root, name))`. */
  function ResolvedPath(root: string, name: string): string {
    PosixPath.Join(root, name)
  }

  /** One line after rewriting against the walk. */
  function RewriteLine(line: string, walk: seq<Listing>): string {
    match ParseInclude(line)
    case None => line
    case Some(d) =>
      match FirstRoot(walk, d.name)
      case None => line
      case Some(root) => FormatInclude(d.delimiter, ResolvedPath(root, d.name))
  }

  /** A whole file after rewriting: the lines rewritten one by one. */
  function RewriteLines(lines: seq<string>, walk: seq<Listing>): seq<string> {
    seq(|lines|, i requires 0 <= i < |lines| => RewriteLine(lines[i], walk))
  }

  /** The search of the walk for a file name, stopping at the first directory that has it. */
  method FindInWalk(walk: seq<Listing>, name: string) returns (found: Option<string>)
    ensures found == FirstRoot(walk, name)
  {
    found := None;
    var i := 0;
    while i < |walk|
      invariant 0 <= i <= |walk|
      invariant forall j :: 0 <= j < i ==> name !in walk[j].names
    {
      if name in walk[i].names {
        found := Some(walk[i].root);
        return;
      }
      i := i + 1;
    }
  }

  /** The body of the loop of `update_include_paths`: one line, recognised and looked up in the walk. */
  method UpdateIncludeLine(line: string, walk: seq<Listing>) returns (next: string)
    ensures next == RewriteLine(line, walk)
  {
    next := line;
    var directive := ParseInclude(line);
    if directive.Some? {
      var root := FindInWalk(walk, directive.value.name);
      if root.Some? {
        next := FormatInclude(directive.value.delimiter, ResolvedPath(root.value, directive.value.name));
      }
    }
  }

  /** `update_include_paths`: builds the rewritten lines of a file, one per input line. */
  method UpdateIncludeLines(lines: seq<string>, walk: seq<Listing>) returns (updated: seq<string>)
    ensures |updated| == |lines|
    ensures forall i :: 0 <= i < |lines| ==> updated[i] == RewriteLine(lines[i], walk)
  {
    updated := [];
    for k := 0 to |lines|
      invariant |updated| == k
      invariant forall i :: 0 <= i < k ==> updated[i] == RewriteLine(lines[i], walk)
    {
      var next := UpdateIncludeLine(lines[k], walk);
      updated := updated + [next];
    }
  }

  // ---------------------------------------------------------------------------
  // Properties of the rewriter
  // ---------------------------------------------------------------------------

  /** Only a line starting at column 0 with `#include "` or `#include <` can be recognised. */
  lemma OnlyColumnZeroIncludes(line: string, walk: seq<Listing>)
    requires !StartsWith(line, "#include \"") && !StartsWith(line, "#include <")
    ensures ParseInclude(line) == None
    ensures RewriteLine(line, walk) == line
  {
    assert Prefix(Quote) == "#include \"";
    assert Prefix(Angle) == "#include <";
    assert DelimiterOf(line) == None;
  }

  /** A line that does not start with `#` is not an include. */
  lemma NotHashNotInclude(line: string)
    requires line == [] || line[0] != '#'
    ensures DelimiterOf(line) == None && ParseInclude(line) == None
  {
    assert Prefix(Quote)[0] == '#' && Prefix(Angle)[0] == '#';
    if |line| >= 10 {
      assert line[..10][0] == line[0];
    }
  }

  /** A line that is not an include is copied byte for byte, whatever the walk. */
  lemma NonIncludeLinePreserved(line: string, walk: seq<Listing>)
    requires ParseInclude(line).None?
    ensures RewriteLine(line, walk) == line
  {
  }

  /** An include whose name is in no listing of the walk is copied byte for byte. */
  lemma UnresolvedLinePreserved(line: string, walk: seq<Listing>)
    requires ParseInclude(line).Some?
    requires forall i :: 0 <= i < |walk| ==> ParseInclude(line).value.name !in walk[i].names
    ensures RewriteLine(line, walk) == line
  {
  }

  /**
   * An include whose name is in some listing becomes an include of the same
   * kind naming that file under the first directory of the walk that has it.
   */
  lemma ResolvedLineForm(line: string, walk: seq<Listing>, d: Directive)
    requires ParseInclude(line) == Some(d)
    requires exists i :: 0 <= i < |walk| && d.name in walk[i].names
    ensures exists i :: 0 <= i < |walk| && d.name in walk[i].names
                        && (forall j :: 0 <= j < i ==> d.name !in walk[j].names)
                        && RewriteLine(line, walk) == FormatInclude(d.delimiter, ResolvedPath(walk[i].root, d.name))
  {
    var root := FirstRoot(walk, d.name);
    assert root.Some?;
    var i :| 0 <= i < |walk| && walk[i].root == root.value && d.name in walk[i].names
             && forall j :: 0 <= j < i ==> d.name !in walk[j].names;
    RewriteLineOf(line, walk, d, root.value);
  }

  /** How `RewriteLine` treats a recognised include whose name the walk finds. */
  lemma RewriteLineOf(line: string, walk: seq<Listing>, d: Directive, root: string)
    requires ParseInclude(line) == Some(d) && FirstRoot(walk, d.name) == Some(root)
    ensures RewriteLine(line, walk) == FormatInclude(d.delimiter, ResolvedPath(root, d.name))
  {
  }

  /** The rewritten file has one line per input line; each is the input line or its resolved form. */
  lemma RewritePreservesLines(lines: seq<string>, walk: seq<Listing>)
    ensures |RewriteLines(lines, walk)| == |lines|
    ensures forall i :: 0 <= i < |lines| ==>
              RewriteLines(lines, walk)[i] == lines[i]
              || (ParseInclude(lines[i]).Some? && FirstRoot(walk, ParseInclude(lines[i]).value.name).Some?)
  {
  }

  /** A stop-free token followed by a stop character is exactly what TakeUntil returns. */
  lemma TakeUntilDelimited(token: string, stop: char, rest: string, stops: set<char>)
    requires stop in stops
    requires forall k :: 0 <= k < |token| ==> token[k] !in stops
    ensures TakeUntil(token + [stop] + rest, stops) == token
    decreases |token|
  {
    var s := token + [stop] + rest;
    if token != [] {
      assert s[1..] == token[1..] + [stop] + rest;
      TakeUntilDelimited(token[1..], stop, rest, stops);
    }
  }

  /** A formatted include starts with its own prefix and not with the other kind's. */
  lemma DelimiterOfFormatted(d: Delimiter, path: string)
    ensures DelimiterOf(FormatInclude(d, path)) == Some(d)
  {
    var line := FormatInclude(d, path);
    assert line[..|Prefix(d)|] == Prefix(d);
    if d == Angle {
      assert line[..10][9] == '<';
    }
  }

  /** What follows the prefix of a formatted include: the path, the closing delimiter, the newline. */
  lemma FormattedTail(d: Delimiter, path: string)
    ensures FormatInclude(d, path)[|Prefix(d)|..] == path + [Closing(d)] + "\n"
  {
  }

  /** How `ParseInclude` reads a line once its delimiter kind and its token are known. */
  lemma ParseIncludeOf(line: string, d: Delimiter, token: string)
    requires DelimiterOf(line) == Some(d)
    requires TakeUntil(line[|Prefix(d)|..], Stops(d)) == token
    ensures ParseInclude(line) == if Basename(token) == "" then None else Some(Directive(Basename(token), d))
  {
  }

  /** Parsing a formatted include gives back its base name and delimiter kind. */
  lemma ParseFormatted(d: Delimiter, path: string)
    requires forall k :: 0 <= k < |path| ==> path[k] !in Stops(d)
    requires Basename(path) != ""
    ensures ParseInclude(FormatInclude(d, path)) == Some(Directive(Basename(path), d))
  {
    var line := FormatInclude(d, path);
    DelimiterOfFormatted(d, path);
    FormattedTail(d, path);
    TakeUntilDelimited(path, Closing(d), "\n", Stops(d));
    ParseIncludeOf(line, d, path);
  }

  /** No directory of the walk has a delimiter character in its path. */
  predicate SafeRoots(walk: seq<Listing>) {
    forall i :: 0 <= i < |walk| ==> '"' !in walk[i].root && '<' !in walk[i].root && '>' !in walk[i].root
  }

  /** Joining keeps a character out of the path when it is in neither part and is not '/'. */
  lemma JoinAvoids(root: string, name: string, c: char)
    requires c !in root && c !in name && c != '/'
    ensures c !in PosixPath.Join(root, name)
  {
  }

  /** A resolved include parses back to the directive it was made from. */
  lemma ResolvedParsesBack(d: Directive, root: string)
    requires d.name != "" && '/' !in d.name
    requires forall k :: 0 <= k < |d.name| ==> d.name[k] !in Stops(d.delimiter)
    requires '"' !in root && '<' !in root && '>' !in root
    ensures ParseInclude(FormatInclude(d.delimiter, ResolvedPath(root, d.name))) == Some(d)
  {
    var path := ResolvedPath(root, d.name);
    forall c | c in Stops(d.delimiter)
      ensures c !in path
    {
      assert c !in d.name;
      JoinAvoids(root, d.name, c);
    }
    BasenameOfJoin(root, d.name);
    ParseFormatted(d.delimiter, path);
  }

  /** A rewritten line is still recognised as the same directive (same name, same delimiters). */
  lemma RewriteKeepsDirective(line: string, walk: seq<Listing>)
    requires SafeRoots(walk)
    ensures ParseInclude(RewriteLine(line, walk)) == ParseInclude(line)
  {
    var p := ParseInclude(line);
    if p.Some? {
      var found := FirstRoot(walk, p.value.name);
      if found.Some? {
        var i :| 0 <= i < |walk| && walk[i].root == found.value && p.value.name in walk[i].names;
        RewriteLineOf(line, walk, p.value, found.value);
        ResolvedParsesBack(p.value, found.value);
      } else {
        assert RewriteLine(line, walk) == line;
      }
    } else {
      assert RewriteLine(line, walk) == line;
    }
  }

  /** Rewriting a line a second time against the same walk changes nothing. */
  lemma RewriteLineIdempotent(line: string, walk: seq<Listing>)
    requires SafeRoots(walk)
    ensures RewriteLine(RewriteLine(line, walk), walk) == RewriteLine(line, walk)
  {
    RewriteKeepsDirective(line, walk);
  }

  /** Rewriting a file a second time against the same destination listing changes nothing. */
  lemma RewriteIdempotent(lines: seq<string>, walk: seq<Listing>)
    requires SafeRoots(walk)
    ensures RewriteLines(RewriteLines(lines, walk), walk) == RewriteLines(lines, walk)
  {
    forall i | 0 <= i < |lines| {
      RewriteLineIdempotent(lines[i], walk);
    }
  }
}
