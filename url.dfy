/**
 * The owner and repository names derived from the install URL in
 * `clone_repository` (with optional credential injection), and the
 * `owner/repo` split of the uninstall command.
 */
module Url {
  import opened Wrappers
  import opened Text

  /** A package as the ledger keys it: `<username>/<repo_name>`. */
  datatype PackageName = PackageName(username: string, repoName: string)

  /** `if api_key: repo_url = repo_url.replace("https://", f"https://{api_key}@")`; an empty key is falsy. */
  function WithCredentials(url: string, apiKey: Option<string>): string {
    if apiKey.Some? && apiKey.value != "" then Replace(url, "https://", "https://" + apiKey.value + "@")
    else url
  }

  /** `segment.replace('.git', '')`, as written: every occurrence is removed. */
  function RepoNameOf(segment: string): string {
    Replace(segment, ".git", "")
  }

  /**
   * `repo_name = url.split('/')[-1].replace('.git', '')` and
   * `username = url.split('/')[-2]`, computed on the URL after the key is
   * injected; a URL with no '/' makes `[-2]` raise `IndexError`.
   */
  function CloneNames(url: string, apiKey: Option<string>): Result<PackageName> {
    var parts := Split(WithCredentials(url, apiKey), '/');
    if |parts| < 2 then Err("IndexError: list index out of range")
    else Ok(PackageName(parts[|parts| - 2], RepoNameOf(parts[|parts| - 1])))
  }

  /** `username = arg.split('/')[0]` and `repo_name = arg.split('/')[-1]`. */
  function UninstallNames(arg: string): PackageName {
    var parts := Split(arg, '/');
    PackageName(parts[0], parts[|parts| - 1])
  }

  /** The ledger key `f"{username}/{repo_name}"`. */
  function LedgerKey(p: PackageName): string {
    p.username + "/" + p.repoName
  }

  // ---------------------------------------------------------------------------
  // Properties of the derivations
  // ---------------------------------------------------------------------------

  /** The last two '/'-segments of a path are its last two components. */
  lemma LastTwoSegments(prefix: string, owner: string, segment: string)
    requires '/' !in owner && '/' !in segment
    ensures Split(prefix + "/" + owner + "/" + segment, '/') == Split(prefix, '/') + [owner, segment]
  {
    assert prefix + "/" + owner + "/" + segment == prefix + ['/'] + (owner + ['/'] + segment);
    SplitTwoPieces(prefix, owner, segment);
  }

  lemma SplitTwoPieces(prefix: string, owner: string, segment: string)
    requires '/' !in owner && '/' !in segment
    ensures Split(prefix + ['/'] + (owner + ['/'] + segment), '/') == Split(prefix, '/') + [owner, segment]
  {
    SplitWithoutSeparator(owner, '/');
    SplitWithoutSeparator(segment, '/');
    SplitConcat(owner, segment, '/');
    SplitConcat(prefix, owner + ['/'] + segment, '/');
  }

  /** Without a key, the names are the second-to-last segment and the cleaned last segment. */
  lemma CloneNamesOfUrl(prefix: string, owner: string, segment: string)
    requires '/' !in owner && '/' !in segment
    ensures CloneNames(prefix + "/" + owner + "/" + segment, None)
            == Ok(PackageName(owner, RepoNameOf(segment)))
  {
    LastTwoSegments(prefix, owner, segment);
  }

  /** A URL without any '/' has no owner segment: the derivation fails, with or without a key. */
  lemma CloneNamesNeedTwoSegments(url: string, apiKey: Option<string>)
    requires '/' !in url
    ensures CloneNames(url, apiKey).Err?
  {
    NotContainsWhenCharMissing(url, "https://", '/');
    ReplaceNoMatch(url, "https://", "https://" + (if apiKey.Some? then apiKey.value else "") + "@");
    SplitWithoutSeparator(url, '/');
  }

  /** With a key, the scheme `https://` becomes `https://KEY@`; the rest of the URL is kept. */
  lemma CredentialsInjected(rest: string, key: string)
    requires key != ""
    requires !Contains(rest, "https://")
    ensures WithCredentials("https://" + rest, Some(key)) == "https://" + key + "@" + rest
  {
    ReplaceAtFront("https://", rest, "https://" + key + "@");
    ReplaceNoMatch(rest, "https://", "https://" + key + "@");
  }

  /**
   * Every `https://` is rewritten, not only the leading one: the text between
   * occurrences is kept and each occurrence gains the key.
   */
  lemma CredentialsInjectedEverywhere(parts: seq<string>, key: string)
    requires key != ""
    requires forall k :: 0 <= k < |parts| ==> !Contains(parts[k], "https://")
    ensures WithCredentials(JoinOn(parts, "https://"), Some(key)) == JoinOn(parts, "https://" + key + "@")
  {
    assert HeadOnce("https://") by {
      assert "https://"[1..] == "ttps://";
    }
    ReplaceJoin(parts, "https://", "https://" + key + "@");
  }

  /** The key only acts through the URL it produces. */
  lemma CloneNamesAfterInjection(url: string, apiKey: Option<string>)
    ensures CloneNames(url, apiKey) == CloneNames(WithCredentials(url, apiKey), None)
  {
  }

  /** A key without '/' injected into `https://host/owner/repo` does not change the derived names. */
  lemma CredentialsKeepNames(host: string, owner: string, segment: string, key: string)
    requires key != "" && '/' !in key
    requires '/' !in host && '/' !in owner && '/' !in segment
    requires owner != ""
    ensures CloneNames("https://" + host + "/" + owner + "/" + segment, Some(key))
            == CloneNames("https://" + host + "/" + owner + "/" + segment, None)
            == Ok(PackageName(owner, RepoNameOf(segment)))
  {
    var rest := host + "/" + owner + "/" + segment;
    var url := "https://" + rest;
    assert url == "https://" + host + "/" + owner + "/" + segment;
    SegmentsNoDoubleSlash(host, owner, segment);
    NoSchemeWithoutDoubleSlash(rest);
    CredentialsInjected(rest, key);
    var withKey := "https://" + key + "@" + host;
    var plain := "https://" + host;
    assert "https://" + key + "@" + rest == withKey + "/" + owner + "/" + segment;
    assert url == plain + "/" + owner + "/" + segment;
    CloneNamesAfterInjection(url, Some(key));
    CloneNamesOfUrl(withKey, owner, segment);
    CloneNamesOfUrl(plain, owner, segment);
  }

  /** Text with no two '/' in a row contains no `https://`, which has `//` in it. */
  lemma NoSchemeWithoutDoubleSlash(s: string)
    requires forall j :: 0 <= j < |s| - 1 ==> s[j] != '/' || s[j + 1] != '/'
    ensures !Contains(s, "https://")
  {
    forall i | 0 <= i <= |s| - |"https://"|
      ensures !OccursAt(s, "https://", i)
    {
      if s[i + 6] != '/' {
        assert s[i..i + 8][6] != "https://"[6];
      } else {
        assert s[i..i + 8][7] != "https://"[7];
      }
    }
    ContainsIff(s, "https://");
  }

  /** `host/owner/segment` with '/'-free parts and a non-empty owner has no two '/' in a row. */
  lemma SegmentsNoDoubleSlash(host: string, owner: string, segment: string)
    requires '/' !in host && '/' !in owner && '/' !in segment
    requires owner != ""
    ensures var s := host + "/" + owner + "/" + segment;
            forall j :: 0 <= j < |s| - 1 ==> s[j] != '/' || s[j + 1] != '/'
  {
    var s := host + "/" + owner + "/" + segment;
    var a := |host|;
    var b := |host| + 1 + |owner|;
    forall j | 0 <= j < |s| - 1
      ensures s[j] != '/' || s[j + 1] != '/'
    {
      if j < a {
        assert s[j] == host[j];
      } else if j == a {
        assert s[j + 1] == owner[0];
      } else if j < b {
        assert s[j] == owner[j - a - 1];
      } else {
        assert s[j + 1] == segment[j - b];
      }
    }
  }

  /** A URL with an explicit port keeps both names when a key is injected. */
  lemma CredentialsKeepNamesWithPort(owner: string, segment: string, key: string)
    requires key != "" && '/' !in key
    requires '/' !in owner && '/' !in segment && owner != ""
    ensures CloneNames("https://" + "github.com:443" + "/" + owner + "/" + segment, Some(key))
            == Ok(PackageName(owner, RepoNameOf(segment)))
  {
    var host := "github.com:443";
    assert '/' !in host by {
      assert forall i :: 0 <= i < |host| ==> host[i] != '/';
    }
    CredentialsKeepNames(host, owner, segment, key);
  }

  /** Uninstalling `owner/repo` addresses the package that was recorded under that key. */
  lemma UninstallOfLedgerKey(p: PackageName)
    requires '/' !in p.username && '/' !in p.repoName
    ensures UninstallNames(LedgerKey(p)) == p
  {
    SplitJoin([p.username, p.repoName], '/');
    assert Join([p.username, p.repoName], '/') == LedgerKey(p);
  }

  /** A middle segment is ignored: `a/b/c` uninstalls owner `a`, repository `c`. */
  lemma UninstallDropsMiddle(owner: string, middle: string, repo: string)
    requires '/' !in owner && '/' !in middle && '/' !in repo
    ensures UninstallNames(owner + "/" + middle + "/" + repo) == PackageName(owner, repo)
  {
    LastTwoSegments(owner, middle, repo);
    SplitWithoutSeparator(owner, '/');
  }

  /** A bare name is both the owner and the repository. */
  lemma UninstallBareName(name: string)
    requires '/' !in name
    ensures UninstallNames(name) == PackageName(name, name)
  {
    SplitWithoutSeparator(name, '/');
  }

  /** Every package the installer records can be uninstalled by its ledger key. */
  lemma InstallUninstallRoundTrip(url: string, apiKey: Option<string>)
    requires CloneNames(url, apiKey).Ok?
    ensures UninstallNames(LedgerKey(CloneNames(url, apiKey).value)) == CloneNames(url, apiKey).value
  {
    var parts := Split(WithCredentials(url, apiKey), '/');
    assert '/' !in parts[|parts| - 1];
    ReplaceChars(parts[|parts| - 1], ".git", "", '/');
    UninstallOfLedgerKey(CloneNames(url, apiKey).value);
  }

  // ---------------------------------------------------------------------------
  // '.git' is removed wherever it occurs, not only as a suffix
  // ---------------------------------------------------------------------------

  /** The repository name that stripping only a trailing `.git` gives. */
  function IntendedRepoName(segment: string): (r: string)
    ensures EndsWith(segment, ".git") ==> r + ".git" == segment
    ensures !EndsWith(segment, ".git") ==> r == segment
  {
    if EndsWith(segment, ".git") then segment[..|segment| - 4] else segment
  }

  /** `.io.git` (any dot-free `io` not starting with `g`) keeps its dot and loses the suffix. */
  lemma DotPieceKept(i: string)
    requires '.' !in i && |i| > 0 && i[0] != 'g'
    ensures RepoNameOf("." + i + ".git") == "." + i
  {
    var g := ".git";
    var t := "." + i + g;
    assert t[1] == i[0];
    ReplaceStep(t, g, "", 1);
    TailOfConcat("." + i, g);
    assert ("." + i)[1..] == i;
    ReplaceKeepsPlain(i, g, g, "");
    assert g == g + "";
    ReplaceAtFront(g, "", "");
  }

  /** A dot-free text followed by `.git` loses that `.git`, and the scan resumes after it. */
  lemma GitAfterPlain(a: string, tail: string)
    requires '.' !in a
    ensures RepoNameOf(a + ".git" + tail) == a + RepoNameOf(tail)
  {
    var g := ".git";
    assert a + g + tail == a + (g + tail);
    ReplaceKeepsPlain(a, g + tail, g, "");
    ReplaceAtFront(g, tail, "");
  }

  /**
   * `.replace('.git', '')` on a segment shaped like `OWNER.github.io.git` removes the
   * `.git` inside `.github` as well as the suffix.
   */
  lemma InnerGitRemoved(a: string, h: string, i: string)
    requires '.' !in a && '.' !in h && '.' !in i
    requires |i| > 0 && i[0] != 'g'
    ensures RepoNameOf(a + ".git" + h + "." + i + ".git") == a + h + "." + i
  {
    var piece := "." + i + ".git";
    assert a + ".git" + h + "." + i + ".git" == a + ".git" + (h + piece);
    GitAfterPlain(a, h + piece);
    ReplaceKeepsPlain(h, piece, ".git", "");
    DotPieceKept(i);
    assert a + (h + ("." + i)) == a + h + "." + i;
  }

  /** The last segment of a GitHub Pages URL: no '/', and both names it gives. */
  lemma PagesSegment(owner: string)
    requires '/' !in owner && '.' !in owner
    ensures '/' !in owner + ".github.io.git"
    ensures RepoNameOf(owner + ".github.io.git") == owner + "hub.io"
    ensures IntendedRepoName(owner + ".github.io.git") == owner + ".github.io"
  {
    var segment := owner + ".github.io.git";
    assert segment == owner + ".git" + "hub" + "." + "io" + ".git";
    forall j | 0 <= j < |segment|
      ensures segment[j] != '/'
    {
      if j < |owner| {
        assert segment[j] == owner[j];
      }
    }
    InnerGitRemoved(owner, "hub", "io");
    assert owner + "hub" + "." + "io" == owner + "hub.io";
    assert segment[..|segment| - 4] == owner + ".github.io";
  }

  /**
   * A GitHub Pages repository `OWNER/OWNER.github.io` loses the `.git` inside
   * `.github`: `https://github.com/octo/octo.github.io.git` is recorded as
   * `octo/octohub.io`, where stripping only the suffix gives `octo.github.io`.
   */
  lemma GithubPagesNameMangled(prefix: string, owner: string)
    requires '/' !in owner && '.' !in owner
    ensures CloneNames(prefix + "/" + owner + "/" + owner + ".github.io.git", None)
            == Ok(PackageName(owner, owner + "hub.io"))
    ensures IntendedRepoName(owner + ".github.io.git") == owner + ".github.io"
  {
    var segment := owner + ".github.io.git";
    var base := prefix + "/" + owner + "/";
    assert base + owner + ".github.io.git" == base + segment;
    PagesSegment(owner);
    CloneNamesOfUrl(prefix, owner, segment);
  }

  /** Appending `.git` to a non-empty name that does not start with `.git` gives no match at the front. */
  lemma NoGitAtFront(r: string)
    requires r != [] && !StartsWith(r, ".git")
    ensures !StartsWith(r + ".git", ".git")
  {
    var s := r + ".git";
    if |r| >= 4 {
      assert s[..4] == r[..4];
    } else {
      assert s[|r|] == '.';
      assert ".git"[|r|] != '.';
      assert s[..4][|r|] == s[|r|];
    }
  }

  /** Removing every `.git` and stripping the suffix agree on names with no other `.git` in them. */
  lemma RepoNameAgreesWithoutInnerGit(r: string)
    requires !Contains(r, ".git")
    ensures RepoNameOf(r + ".git") == r == IntendedRepoName(r + ".git")
  {
    var s := r + ".git";
    assert s[..|s| - 4] == r;
    SuffixOnlyRemoved(r);
  }

  /** The only `.git` of `r + ".git"` is the suffix. */
  lemma {:induction false} SuffixOnlyRemoved(r: string)
    requires !Contains(r, ".git")
    ensures Replace(r + ".git", ".git", "") == r
    decreases |r|
  {
    if r == [] {
      assert r + ".git" == ".git" + "";
      ReplaceAtFront(".git", "", "");
    } else {
      SuffixStep(r);
      SuffixOnlyRemoved(r[1..]);
      assert r == [r[0]] + r[1..];
    }
  }

  /** One step of that scan: the first character of `r` is kept, and the rest has no `.git` either. */
  lemma SuffixStep(r: string)
    requires r != [] && !Contains(r, ".git")
    ensures Replace(r + ".git", ".git", "") == [r[0]] + Replace(r[1..] + ".git", ".git", "")
    ensures !Contains(r[1..], ".git")
  {
    var s := r + ".git";
    assert !StartsWith(r, ".git");
    NoGitAtFront(r);
    ReplaceNotAtFront(s, ".git", "");
    TailOfConcat(r, ".git");
  }
}
