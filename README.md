# Mlin_Pkg vendoring engine, in Dafny

Mlin_Pkg is a small package manager for C and C++ libraries. Installing a
package does four things:

- It clones a repository.
- It copies the repository's header files, and the source files that pair
  with them, into one flat directory `<include_folder>/<owner>/<repo>`.
- It rewrites each copied file's `#include` lines so that they point at the
  vendored copies.
- It records the package under the key `<owner>/<repo>`.

This project models the engine behind that step in `main.py`:

- **The include rewriter** (`update_include_paths`).
- **The selection filter and pairing loop** (`extract_headers_and_sources`,
  with its inner `should_exclude_by_include`).
- **The name derivations**: the owner and repository names taken from the
  install URL, with credential injection (`clone_repository`, lines 19-23),
  and the `owner/repo` split done by `uninstall`.

## How the model is built

- **Modules.**
  - `Text` and `PosixPath` model the Python string and path operations the
    code relies on. Each one follows CPython's behaviour, except where
    "## Left out" says otherwise (`lower` is ASCII only):
    - `str.startswith`, `in`, `split`, `replace`, `strip`, `lower`;
    - `os.path.basename`, `os.path.join`, `os.path.splitext`.
  - `Includes` holds the per-line parser and the rewriter.
  - `Selection` holds the filters and the pairing rule.
  - `Vendor` holds the destination directory and the extraction walk.
  - `Url` holds the name derivations.
  - `Scenarios` derives concrete outcomes from the general lemmas.
- **Inputs.**
  - The filesystem is a value. The cloned tree is the walk `os.walk` would
    produce: a sequence of `Dir(root, files)`, where each file carries its
    name and its lines as `readlines` gives them. The walk order is an input.
  - The destination directory is a class, `Vendor.Destination`. Its mutable
    field `files` maps each file name to that file's lines.
- **Imperative code keeps its form.**
  - `update_include_paths` is a loop that calls the inner `os.walk` search,
    which has an early exit.
  - `should_exclude_by_include` is a loop with an early return.
  - `extract_headers_and_sources` is two nested loops that copy, then
    rewrite, one file at a time.
- **Specifications.**
  - Each imperative method is proved equal to a specification function:
    - `RewriteLines` for the rewriter;
    - `VetoedByContent` for the veto scan;
    - `Vendored`, a fold over the walk's selected files, for the
      extraction loops.
  - The properties are proved about those functions.
- **The destination walk.** Inside the destination, `os.walk` sees a single
  directory, `root`, listing the current file names.
- **Resolved paths.** `os.path.abspath(os.path.join(root, name))` is modelled
  as `os.path.join(root, name)`, with `root` taken to be an absolute,
  normalised path.

The model follows the code in these details, where a reader might expect
otherwise:

- **Pairing is per directory.** `header_files` is rebuilt for each
  directory of the walk (main.py:99). A source file therefore pairs only with
  a `.h` or `.hpp` listed in its own directory, not with one anywhere in the
  tree.
- **Pairing ignores exclusion.** `header_files` is built before any
  exclusion test. A header that is content-vetoed still pairs its source. (A
  header excluded by name cannot matter: no keyword contains '.', so its
  source, sharing the stem, is excluded by name too.)
- **Rewriting happens right after each copy** (main.py:112, main.py:120),
  not after all copies. See "## Findings".
- **The veto applies to every file.** It runs on every file that passes the
  name test, whatever its extension.
- **Indentation differs.** The content veto strips the line first
  (main.py:91). The rewriter requires the include at column 0
  (main.py:47, main.py:50).
- **The keyword list is the code's list** (main.py:83-84), including
  `backup` and `data`.

## Model

| member | source | states |
|---|---|---|
| Text.StartsWith | main.py:47 | definition of `str.startswith`: the prefix fits and the first characters equal it; used by the parser and the veto, whose lemmas state the consequences |
| Text.EndsWith | main.py:99 | definition of `str.endswith`: the suffix fits and the last characters equal it; the extension tests of main.py:109 and main.py:115 use it too, and EndsWithConcat and EndsWithDecomposes state its properties |
| Text.EndsWithConcat | main.py:99 | any text followed by a suffix ends with that suffix |
| Text.EndsWithDecomposes | main.py:99 | a text ending with a suffix is its front followed by that suffix, and it contains the suffix |
| Text.Contains | main.py:92 | definition of `pat in s`, recursive over the text; ContainsIff proves it equivalent to an occurrence at some index |
| Text.Lower | main.py:92 | `lower()` keeps the length and maps every character through ASCII case folding |
| Text.IsSpace | main.py:91 | the characters Python's `str.isspace()` accepts, which `strip()` removes; LStrip and RStrip state what is removed |
| Text.SpaceRunEnd | main.py:91 | the end of the white-space run that starts at `i`: every character in between is white space, and the next one is not or the text ends |
| Text.SpaceRunStart | main.py:91 | the start of the white-space run that ends before `j`: every character in between is white space, and the one before is not or the text starts there |
| Text.LStrip | main.py:91 | the result is the suffix left after dropping leading white space (Python's `isspace` set); it starts with a non-space character |
| Text.RStrip | main.py:91 | the result is the prefix left after dropping trailing white space; it ends with a non-space character |
| Text.Strip | main.py:91 | `strip()` as `rstrip` of `lstrip`; StripKeepsPrefix states what the veto relies on |
| Text.StripKeepsPrefix | main.py:91 | stripping a line that starts with `#include`, with `lstrip` or with `strip`, leaves a text that still starts with `#include` |
| Text.StripStartsWith | main.py:91 | for a prefix whose last character is not white space, `s.strip().startswith(w)` holds exactly when `s.lstrip().startswith(w)` does |
| Text.Split | main.py:22-23 | `split('/')` gives at least one part, and no part contains the separator |
| Text.JoinSplit | main.py:22-23 | joining the parts of a split with the separator gives back the original text |
| Text.SplitJoin | main.py:270-271 | splitting a join of separator-free parts gives back those parts |
| Text.TakeUntil | main.py:48-51 | `split(c)[0]`-style scanning: the result is a prefix free of the stop characters, ending at the first stop character or at the end |
| Text.ContainsIff | main.py:92 | `pat in s` holds exactly when `pat` occurs at some index of `s` |
| Text.AnyContainsIff | main.py:102 | `any(k in s for k in keywords)` holds exactly when some keyword occurs in `s` |
| Text.AnyContains | main.py:102 | definition of `any(k in s for k in keywords)`, recursive over the keywords; AnyContainsIff and AnyContainsOne state its meaning |
| Text.AnyContainsOne | main.py:92 | over a one-keyword list, as at main.py:85, `any` is the substring test for that keyword |
| Text.Replace | main.py:20-22 | definition of `replace`: a left-to-right scan that replaces each non-overlapping occurrence and resumes after it; ReplaceNoMatch, ReplaceChars and Url.InnerGitRemoved state its behaviour |
| Text.ReplaceNoMatch | main.py:20 | `replace` changes nothing in a text without the pattern |
| Text.ReplaceChars | main.py:22 | `replace` introduces no character that is in neither the text nor the replacement, so `replace('.git', '')` cannot add a '/' |
| Text.JoinOn | main.py:20 | `sep.join(parts)` for a string separator, the reference that ReplaceJoin compares `replace` with |
| Text.ReplaceBeforeMatch | main.py:20 | for a pattern whose first character occurs only once in it, text without the pattern followed by an occurrence: the text is kept and the scan reaches the occurrence, so no occurrence straddles the seam |
| Text.ReplaceJoin | main.py:20 | for a pattern whose first character occurs only once in it (such as `https://`), replacing in pattern-free pieces joined by the pattern gives the pieces joined by the replacement: every occurrence is replaced and nothing else changes |
| PosixPath.RFind | main.py:48 | the index of the last occurrence of the character, or -1: the character is there, and none occurs after it |
| PosixPath.Basename | main.py:48 | `basename` is the '/'-free suffix after the last '/' |
| PosixPath.Join | main.py:57 | definition of `posixpath.join` for two parts: an absolute second part replaces the first, otherwise one `/` is put between them unless the first already ends with one; BasenameOfJoin states what the rewriter needs |
| PosixPath.BasenameOfJoin | main.py:57 | the basename of `join(root, name)` is `name` for a '/'-free name |
| PosixPath.SplitExt | main.py:99 | `splitext` splits a name into stem and extension; the extension is empty or a '.' followed by no '.' or '/'; it is non-empty exactly when the last '.' comes after the last '/' and the text between them is not all dots, and then the stem ends at that last '.' |
| PosixPath.Stem | main.py:99 | `splitext(name)[0]`; StemOf proves what it returns for `stem + ext` |
| PosixPath.StemOf | main.py:116 | the stem of `stem + ext` is `stem` when `ext` is one extension and `stem` is not all dots |
| Includes.DelimiterOf | main.py:47-52 | which of the two column-0 prefixes a line starts with, quoted tried first as in the `if`/`elif`; NotHashNotInclude and OnlyColumnZeroIncludes state when it is none |
| Includes.ParseInclude | main.py:45-54 | a recognised line starts at column 0 with `#include "` or `#include <`; the name is non-empty, has no '/', and has no delimiter character |
| Includes.NotHashNotInclude | main.py:47-53 | a line not starting with `#` is never an include |
| Includes.FormatInclude | main.py:58 | the emitted line `#include ` + opening delimiter + path + closing delimiter + newline; ParseFormatted proves it parses back |
| Includes.ResolvedPath | main.py:57 | `abspath(join(root, name))` as `join(root, name)` (see Left out); BasenameOfJoin and ResolvedParsesBack state its properties |
| Includes.OnlyColumnZeroIncludes | main.py:47-53 | a line not starting with either prefix is not an include, and it is kept unchanged whatever the destination holds |
| Includes.FirstRoot | main.py:55-61 | the lookup succeeds only when some listing has the name, and it returns the FIRST such root in walk order |
| Includes.FindInWalk | main.py:55-62 | the `for … break … else` search returns exactly the first root whose listing has the name, or nothing |
| Includes.RewriteLine | main.py:45-64 | one line after rewriting: parse, look up the first root listing the name, emit the resolved line, or keep the line; NonIncludeLinePreserved, UnresolvedLinePreserved, ResolvedLineForm and RewriteLineIdempotent state its cases |
| Includes.RewriteLines | main.py:43-64 | the whole file rewritten line by line; UpdateIncludeLines is proved to compute it, and RewritePreservesLines and RewriteIdempotent state its properties |
| Includes.UpdateIncludeLines | main.py:43-64 | the loop builds one output line per input line, each the rewrite of its input line; the loop body is the helper method `UpdateIncludeLine`, split out to keep the proof small |
| Includes.NonIncludeLinePreserved | main.py:63-64 | a line that is not an include: the line string is kept unchanged |
| Includes.UnresolvedLinePreserved | main.py:61-62 | an include whose name is in no listing: the line string is kept unchanged |
| Includes.ResolvedLineForm | main.py:55-60 | a resolved include becomes `#include ` + the same delimiters + `join(root, name)` + newline, for the first root listing the name |
| Includes.RewritePreservesLines | main.py:43-64 | the rewrite keeps the line count, and every changed line is a recognised include that resolved |
| Includes.ParseFormatted | main.py:47-58 | an emitted include line whose path holds none of the delimiter's stop characters (`"` for quotes, `<` and `>` for angle brackets) and has a non-empty basename parses back to that basename, with the same delimiter |
| Includes.ResolvedParsesBack | main.py:47-58 | a resolved line names the same file with the same delimiters, when roots contain no delimiter characters |
| Includes.RewriteKeepsDirective | main.py:47-59 | when no root contains `"`, `<` or `>`, rewriting never changes which directive a line is |
| Includes.RewriteLineIdempotent | main.py:47-59 | when no root contains `"`, `<` or `>`, rewriting a line twice against the same listing equals rewriting it once |
| Includes.RewriteIdempotent | main.py:43-64 | when no root contains `"`, `<` or `>`, rewriting a file twice against the same listing equals rewriting it once |
| Selection.ExcludedByName | main.py:102 | the name test of the loop: some keyword of the code's 18-keyword list (main.py:83-84) occurs in the lower-cased name; ExcludedNameNeverVendored and Scenarios.NotExcludedByName state its effect |
| Selection.ExcludedByNameIff | main.py:83-84 | with the 18 keywords of `exclude_keywords`, a name is excluded exactly when one of them occurs in its lower-cased form |
| Selection.VetoLineIff | main.py:85-92 | `exclude_includes_keywords` is `test` alone: a line vetoes exactly when, stripped, it starts with `#include` and, lower-cased, it contains `test` |
| Selection.VetoLine | main.py:91-92 | the per-line veto: stripped, the line starts with `#include`, and lower-cased it contains a keyword of `exclude_includes_keywords`; it is written with `lstrip`, and VetoLineIff proves it equal to the code's `strip()` test with `test`; IndentedIncludeVetoes and TestIncludeVetoed state when it fires |
| Selection.VetoedByContent | main.py:89-94 | some line of the file vetoes; ShouldExcludeByInclude is proved to compute it |
| Selection.ShouldExcludeByInclude | main.py:87-94 | the scan with its early return answers true exactly when some line, stripped, starts with `#include` and, lower-cased, contains `test`; the per-line test is the helper method `IncludeLineVetoes`, split out to keep the proof small |
| Selection.IsHeaderName | main.py:109 | the header extensions `.h`, `.hpp`, `.def`, `.hxx` |
| Selection.IsSourceName | main.py:115 | the source extensions `.c`, `.cpp`, `.cc` |
| Selection.IsPairingHeaderName | main.py:99 | the extensions that build `header_files`, `.h` and `.hpp` only |
| Selection.SourceIsNotHeader | main.py:109-115 | no name is both a header name and a source name, so the `if`/`elif` order does not matter |
| Selection.HeaderBases | main.py:99 | `header_files` of one directory, the set of stems of its `.h`/`.hpp` files; HeaderBasesMembers states its members |
| Selection.Selected | main.py:101-117 | the loop body's decision for one file: not excluded by name, not vetoed by content, and a header or a source whose stem is in `header_files`; SourcePairing, HeaderSelected and VetoIgnoresExtension state its cases |
| Selection.SelectFiles | main.py:101-121 | the files of one directory that are copied, in listing order; SelectFilesMembers states its members |
| Selection.Selections | main.py:98-121 | every file the walk copies, in walk order, each directory with its own `header_files`; SelectionsMembers states its members |
| Selection.SelectFilesMembers | main.py:101-121 | a directory contributes exactly its files that pass the filters and the classification |
| Selection.SelectionsMembers | main.py:98-121 | the walk copies exactly the files selected within their own directory |
| Selection.SelectionsMember | main.py:98-121 | one file is copied by the walk exactly when some directory lists it and selects it with its own `header_files` |
| Selection.HeaderBasesMembers | main.py:99 | `header_files` is exactly the set of stems of the directory's `.h`/`.hpp` files |
| Selection.SourcePairing | main.py:115-117 | a surviving source is selected exactly when its own directory lists a `.h`/`.hpp` with the same stem |
| Selection.VetoedHeaderStillPairs | main.py:99-117 | a header vetoed by its content is not copied, but its stem still pairs a source in the same directory |
| Selection.HeaderSelected | main.py:109-111 | a header name that passes both exclusion tests is always selected |
| Selection.VetoIgnoresExtension | main.py:105-107 | a content-vetoed file is not selected, whatever its extension |
| Vendor.DestinationWalk | main.py:55 | `os.walk(dest_path)` of the flat destination: one listing, the root with the names present; DestinationLookup states what a lookup in it gives |
| Vendor.DestinationLookup | main.py:55-62 | in the destination a name resolves to the destination root exactly when it is present; otherwise the search finds nothing |
| Vendor.Place | main.py:110-112 | one copy followed by the rewrite of that file against the names present just then; PlaceEffect states its effect |
| Vendor.Apply | main.py:109-121 | a sequence of such copies in order; ApplyKeys, ApplyUntouched, ApplyConcat and ApplyLastWriteWins state its effect |
| Vendor.Vendored | main.py:98-121 | the destination after the whole walk; ExtractHeadersAndSources is proved to produce it and VendoredNames and VendoredContents state what it holds |
| Vendor.Destination.constructor | main.py:77-79 | the destination starts with what the directory already held |
| Vendor.Destination.Walk | main.py:55 | the current walk of the destination object: DestinationWalk of its root and the names it holds now; UpdateIncludePaths rewrites against it |
| Vendor.Destination.Copy | main.py:110-111 | `copy2` stores the file's lines under its name, replacing any earlier file |
| Vendor.Destination.UpdateIncludePaths | main.py:39-67 | the named file is replaced by its rewrite against the destination as it stands; nothing else changes |
| Vendor.Destination.ExtractDirectory | main.py:99-121 | one directory of the walk leaves the destination as the in-order copy-then-rewrite of its selected files |
| Vendor.Destination.ExtractHeadersAndSources | main.py:98-121 | the whole walk leaves the destination equal to `Vendored(tree, root, old files)` |
| Vendor.Destination.RewriteEverything | main.py:109-121 | corrected order, not what the code does: once everything is copied, every present file is rewritten against the complete destination |
| Vendor.ApplyConcat | main.py:98-121 | copying in two batches equals copying in one |
| Vendor.ApplyKeys | main.py:109-121 | afterwards the destination holds the old names plus every copied name |
| Vendor.ApplyUntouched | main.py:109-121 | a name no copy uses keeps its old contents |
| Vendor.PlaceEffect | main.py:110-112 | one copy adds its name, rewrites against the names present at that moment, and leaves other names alone |
| Vendor.ApplyLastWriteWins | main.py:109-121 | the last copy under a name wins, rewritten against the names present just after it was copied |
| Vendor.VendoredNames | main.py:98-121 | a name is in the destination afterwards exactly when it was before or some file with it is selected in its directory |
| Vendor.NeverSelectedNeverVendored | main.py:98-121 | a name under which no file is selected keeps its old presence and contents |
| Vendor.ExcludedNameNeverVendored | main.py:102 | a name containing an exclusion keyword is never added and never overwritten |
| Vendor.VetoedNeverVendored | main.py:105-107 | a name whose every file is content-vetoed is never added or overwritten |
| Vendor.HeaderVendored | main.py:109-112 | every surviving header of the tree is present afterwards |
| Vendor.SourceVendoredIffSiblingHeader | main.py:115-120 | a surviving source is copied exactly when its own directory lists a `.h`/`.hpp` of the same stem |
| Vendor.VendoredContents | main.py:109-121 | the final contents of a vendored file are its lines rewritten against the names present right after its last copy |
| Vendor.LaterSiblingLeftUnresolved | main.py:110-112 | an include of a file copied only later stays unresolved, though that file ends up present |
| Vendor.SiblingOrderFailure | main.py:110-112 | header `a`, whose only line includes `b`, copied before `b`: both are present and `a` is unchanged |
| Vendor.SiblingOrderInWalk | main.py:98-121 | the same outcome through the walk of a directory listing `a` before `b` |
| Vendor.SiblingOrderCounterexample | main.py:110-112 | concrete instance: `a.h` = `#include "b.h"`, then `b.h` |
| Vendor.CopyAll | main.py:110-119 | corrected order, first phase: the selected copies alone, in order, with no rewriting; CopyAllKeys and CopyAllLastWrite state its effect |
| Vendor.RewriteAll | main.py:39-67 | corrected order, second phase: every present file rewritten against the whole destination; it keeps the set of names, and PresentIncludesResolved states that every include naming a present file resolves |
| Vendor.VendoredThenRewritten | main.py:98-121 | corrected order, the evidently intended result: every selected file copied, then every file rewritten; SameFilesEitherOrder, CorrectedOrderResolvesPresent and LaterSiblingResolvedInCorrectedOrder state its properties |
| Vendor.CopyAllKeys | main.py:109-121 | copying alone adds exactly the copied names |
| Vendor.CopyAllLastWrite | main.py:110-111 | copying alone leaves the last copy's lines under each name |
| Vendor.SameFilesEitherOrder | main.py:98-121 | rewriting after all copies vendors the same set of files as the code's order |
| Vendor.PresentIncludesResolved | main.py:55-60 | after the corrected-order rewrite, every include naming a file present in the destination points to that file |
| Vendor.CorrectedOrderResolvesPresent | main.py:98-121 | corrected order: after copying the whole walk and then rewriting, every include naming a file present in the destination points to that file |
| Vendor.LaterSiblingResolvedInCorrectedOrder | main.py:110-112 | in the corrected order (all copies first, then the rewrite), the include of a sibling copied later does resolve |
| Vendor.QuotedNameParses | main.py:47-48 | `#include "name"` names `name` for a bare name without quotes |
| Url.WithCredentials | main.py:19-20 | the URL with the key injected when a non-empty key is given, otherwise unchanged; CredentialsInjected states the result |
| Url.RepoNameOf | main.py:22 | `segment.replace('.git', '')` as written; InnerGitRemoved and RepoNameAgreesWithoutInnerGit state how it differs from suffix stripping |
| Url.CloneNames | main.py:19-23 | `(username, repo_name)` from the last two `/`-segments of the URL after injection, or the `IndexError` outcome; CloneNamesOfUrl and CloneNamesNeedTwoSegments state both outcomes |
| Url.LedgerKey | main.py:186 | the ledger key `username/repo_name`; InstallUninstallRoundTrip ties it to uninstall |
| Url.UninstallNames | main.py:270-271 | the first and the last `/`-segment of the uninstall argument; UninstallOfLedgerKey, UninstallDropsMiddle and UninstallBareName state its outcomes |
| Url.CredentialsInjected | main.py:19-20 | for a URL with no further `https://`, with a non-empty key, the leading `https://` becomes `https://KEY@` and the rest is kept |
| Url.CredentialsInjectedEverywhere | main.py:19-20 | with a non-empty key, every `https://` of the URL gains the key, not only the leading one, and the text between them is kept |
| Url.CloneNamesAfterInjection | main.py:19-23 | the key affects the names only through the URL it produces |
| Url.CloneNamesOfUrl | main.py:22-23 | the owner is the second-to-last segment; the repository is the last segment with `.git` removed |
| Url.CloneNamesNeedTwoSegments | main.py:23 | a URL without '/' has no `[-2]` segment: the derivation fails with `IndexError` |
| Url.CredentialsKeepNames | main.py:19-23 | injecting a key without '/' into `https://host/owner/repo`, for '/'-free parts and a non-empty owner, leaves both names unchanged; a host with a port such as `github.com:443` is covered |
| Url.CredentialsKeepNamesWithPort | main.py:19-23 | the instance `https://github.com:443/owner/repo`: with a key injected, the names are still the owner and the repository |
| Url.NoSchemeWithoutDoubleSlash | main.py:20 | text with no two '/' in a row contains no `https://`, so `replace` finds nothing to rewrite in it |
| Url.SegmentsNoDoubleSlash | main.py:22-23 | `host/owner/segment` with '/'-free parts and a non-empty owner has no two '/' in a row |
| Url.UninstallOfLedgerKey | main.py:270-271 | splitting a ledger key `owner/repo` gives back the owner and the repository |
| Url.UninstallDropsMiddle | main.py:270-271 | `a/b/c` uninstalls owner `a`, repository `c` |
| Url.UninstallBareName | main.py:270-271 | a bare name is both owner and repository |
| Url.InstallUninstallRoundTrip | main.py:264-271 | every package that install derives names for can be uninstalled by its ledger key |
| Url.InnerGitRemoved | main.py:22 | on a segment shaped like `OWNER.github.io.git`, `.replace('.git', '')` removes the `.git` inside `.github` as well as the suffix |
| Url.GithubPagesNameMangled | main.py:22-23 | for every owner without `.` or `/`, cloning `…/OWNER/OWNER.github.io.git` names the package `OWNER/OWNERhub.io`, while stripping only the suffix gives `OWNER.github.io` |
| Url.IntendedRepoName | main.py:22 | stripping only a trailing `.git` leaves exactly the text before it |
| Url.RepoNameAgreesWithoutInnerGit | main.py:22 | the code's rule and suffix stripping agree on every name with no other `.git` in it |
| Scenarios.IndentedIncludeVetoedNotRewritten | main.py:87-94 | an indented include mentioning `test` vetoes its file, yet the column-0 rewriter leaves the line as it is |
| Scenarios.TestIncludeVetoed | main.py:91-93 | an include whose lower-cased path contains `test` vetoes its file |
| Scenarios.LatestHeaderVetoes | main.py:91-93 | a file including `latest.h` is vetoed, since the name contains `test` |
| Scenarios.NotExcludedByName | main.py:102 | a name none of whose lower-cased characters is `t`, `e`, `m`, `u`, `d` or `k` contains no exclusion keyword |
| Scenarios.TestPrefixExcluded | main.py:102 | a name starting with `test` is always excluded |
| Scenarios.CppStem | main.py:115-116 | `<stem>.cpp` is a source, is not a pairing header, and has stem `<stem>` |
| Scenarios.PairingScenario | main.py:98-121 | for any two distinct plain stems `s` and `o`, a directory listing `s.h`, `s.cpp`, `o.cpp` copies `s.h` then `s.cpp`, and not `o.cpp` |
| Scenarios.FooBarPairing | main.py:98-121 | the instance `foo.h`, `foo.cpp`, `bar.cpp`: the walk copies `foo.h` then `foo.cpp` |
| Scenarios.PlainHeaderSelected | main.py:109-111 | `s.h` for a plain stem `s` passes the name test and is copied when its content passes |
| Scenarios.PlainSourceSelected | main.py:115-117 | `s.cpp` for a plain stem `s`, with passing content, is copied exactly when `s` is a header stem of its directory |
| Scenarios.TestNamedPairExcluded | main.py:102 | `test_foo.h` and `test_foo.cpp` never enter the destination |
| Scenarios.MissingSystemHeaderKept | main.py:61-62 | `#include <unistd.h>` with no `unistd.h` present is kept verbatim |
| Scenarios.PresentHeaderResolved | main.py:55-59 | `#include "util.h"` with `util.h` present becomes the include of its joined path |
| Scenarios.AngledNameParses | main.py:50-51 | `#include <name>` names `name` for a bare name without angle brackets |

## Left out

- Cloning (`git.Repo.clone_from`), the "already exists" check, progress spinners and console output: network I/O and UI (main.py:24-35, main.py:96-97, main.py:106, main.py:113, main.py:121).
- Reading `secret.txt` at module load: file I/O. The key is a parameter. A key read by `readlines()` keeps its trailing newline, and the model injects the key exactly as given.
- `create_build_system`, `build_package`, the `argparse` wiring, and `record_package`/`uninstall_package` file handling: interactive input, template text, subprocesses and JSON I/O. Only the ledger key (`Url.LedgerKey`) is modelled.
- `shutil.copy2` metadata, `os.makedirs` and the final `shutil.rmtree` of the clone. A copy is modelled as storing the file's lines.
- Failures of `open`, `readlines`, `writelines` and `shutil.copy2` (main.py:40-41, main.py:66-67, main.py:89, main.py:111, main.py:119): the model has no I/O error path, so every read, write and copy succeeds. In the code such an exception ends `extract_headers_and_sources` with the destination partly filled, and the clone is never deleted because `shutil.rmtree` (main.py:126) is not reached.
- Text encoding and universal-newline translation. Lines are taken as already-decoded strings. One consequence is not captured: the veto decodes with `errors='ignore'` (main.py:89), but `update_include_paths` reads with strict default decoding (main.py:40). A header holding one undecodable byte therefore passes the veto and is copied, and then `readlines` raises `UnicodeDecodeError`, with the partial destination and the leftover clone described above. A second consequence is not captured either: text mode turns `\r\n` into `\n` on reading (main.py:40-41), and `writelines` writes `\n` back (main.py:66-67), so a file with CRLF line endings is written back with LF endings even when no include in it resolves. The model keeps such a file unchanged.
- Text.Lower: models ASCII case mapping only. Python's `lower()` also maps non-ASCII letters.
- Includes.ResolvedPath: models `abspath(join(root, name))` as `join(root, name)`. This assumes the destination root is already absolute and normalised, so abspath's normalisation of `.`, `..` and repeated '/' is not modelled.
- Vendor.DestinationWalk: the destination's walk is its top directory alone. Sub-directories the destination might already contain from elsewhere are not modelled.
- Vendor.Destination.UpdateIncludePaths: requires the file to exist. The code only calls it on a file it has just copied, so the `FileNotFoundError` path is not modelled.
- Vendor.Destination.ExtractHeadersAndSources: a destination nested inside the clone is not modelled, because the walk is a fixed input. This happens when the owner equals the repository name (`curl/curl`, `glfw/glfw`): the clone is `include_folder/NAME` (main.py:24) and the destination `include_folder/NAME/NAME` (main.py:77), which `os.makedirs` creates inside the clone before the walk starts (main.py:78-79). The walk then reaches the destination as one of the clone's directories. If a file copied there by then is selected again, its source and target are the same file and `shutil.copy2` raises `SameFileError` (main.py:111, main.py:119). Otherwise the walk finishes, and the `shutil.rmtree` of the clone (main.py:126) deletes the vendored destination with it.
- `os.walk` order and the content of the `.git` directory are not derived. They come in as the given walk.

## Findings

| source | as written | input that shows it | evidently intended | confidence | as-written member | corrected member |
|---|---|---|---|---|---|---|
| main.py:22 | `replace('.git', '')` removes every `.git`, anywhere in the last segment | `https://github.com/octo/octo.github.io.git` gives repository `octohub.io` and destination `octo/octohub.io` | remove only a trailing `.git`, giving `octo.github.io` | medium, not executed | Url.GithubPagesNameMangled | Url.IntendedRepoName |
| main.py:112 | each file is rewritten right after its own copy, against the files copied so far | one directory listing `a.h` (the line `#include "b.h"`) before `b.h`: both are vendored, but `a.h` keeps the relative `#include "b.h"` | copy every selected file first, then rewrite every file against the whole destination, so siblings resolve whatever the copy order | high, not executed | Vendor.SiblingOrderCounterexample | Vendor.VendoredThenRewritten |

For the second row:

- As written: Vendor.LaterSiblingLeftUnresolved states the general case, and
  Vendor.SiblingOrderInWalk states it for a walk.
- Corrected:
  - Vendor.CorrectedOrderResolvesPresent, Vendor.PresentIncludesResolved and
    Vendor.LaterSiblingResolvedInCorrectedOrder prove the intended guarantee.
  - Vendor.SameFilesEitherOrder shows that both orders vendor the same set
    of files.
  - Vendor.Destination.RewriteEverything is the rewriting phase in the
    corrected order.

For the first row, Url.GithubPagesNameMangled with prefix `https://github.com`
and owner `octo` is the input in the table, and Url.RepoNameAgreesWithoutInnerGit
shows that the two rules agree on every name with no other `.git` in it.
