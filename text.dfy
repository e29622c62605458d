/**
 * The operations of Python's `str` that the vendoring engine relies on:
 * `startswith`, `endswith`, `in`, `lower`, `strip`, `split`, `join` and
 * `replace`, on strings modelled as sequences of characters.
 */
module Text {

  /** `s.startswith(prefix)` */
  predicate StartsWith(s: string, prefix: string) {
    |prefix| <= |s| && s[..|prefix|] == prefix
  }

  /** `s.endswith(suffix)` */
  predicate EndsWith(s: string, suffix: string) {
    |suffix| <= |s| && s[|s| - |suffix|..] == suffix
  }

  /** `pat in s`: some position of `s` starts an occurrence of `pat`. */
  predicate Contains(s: string, pat: string)
    decreases |s|
  {
    StartsWith(s, pat) || (|s| > 0 && Contains(s[1..], pat))
  }

  /** `pat` occurs in `s` starting at index `i`. */
  predicate OccursAt(s: string, pat: string, i: int) {
    0 <= i <= |s| - |pat| && s[i..i + |pat|] == pat
  }

  /** Any text followed by a suffix ends with that suffix. */
  lemma EndsWithConcat(x: string, suffix: string)
    ensures EndsWith(x + suffix, suffix)
  {
    assert (x + suffix)[|x|..] == suffix;
  }

  /** A text that ends with a suffix is its front followed by that suffix, so it contains it. */
  lemma EndsWithDecomposes(s: string, suffix: string)
    requires EndsWith(s, suffix)
    ensures s == s[..|s| - |suffix|] + suffix
    ensures Contains(s, suffix)
  {
    assert OccursAt(s, suffix, |s| - |suffix|);
    ContainsIff(s, suffix);
  }

  /** An occurrence past the first character is an occurrence in the tail. */
  lemma OccursAtShift(s: string, pat: string, i: int)
    requires |s| > 0 && 0 < i
    ensures OccursAt(s, pat, i) == OccursAt(s[1..], pat, i - 1)
  {
    if i <= |s| - |pat| {
      assert s[i..i + |pat|] == s[1..][i - 1..i - 1 + |pat|];
    }
  }

  /** The substring test agrees with "there is an index where `pat` occurs". */
  lemma {:induction false} ContainsIff(s: string, pat: string)
    ensures Contains(s, pat) <==> exists i :: OccursAt(s, pat, i)
    decreases |s|
  {
    assert OccursAt(s, pat, 0) == StartsWith(s, pat);
    if |s| > 0 {
      ContainsIff(s[1..], pat);
      forall i | 0 < i
        ensures OccursAt(s, pat, i) == OccursAt(s[1..], pat, i - 1)
      {
        OccursAtShift(s, pat, i);
      }
      if Contains(s[1..], pat) {
        var i :| OccursAt(s[1..], pat, i);
        assert OccursAt(s, pat, i + 1);
      }
    }
  }

  /** A string without the character `c` contains no pattern that has `c` in it. */
  lemma {:induction false} NotContainsWhenCharMissing(s: string, pat: string, c: char)
    requires c !in s && c in pat
    ensures !Contains(s, pat)
    decreases |s|
  {
    var k :| 0 <= k < |pat| && pat[k] == c;
    if |pat| <= |s| {
      assert s[..|pat|][k] == s[k];
    }
    if |s| > 0 {
      NotContainsWhenCharMissing(s[1..], pat, c);
    }
  }

  /** An occurrence inside a part is an occurrence in the whole. */
  lemma ContainsInside(a: string, b: string, c: string, pat: string)
    requires Contains(b, pat)
    ensures Contains(a + b + c, pat)
  {
    ContainsIff(b, pat);
    var i :| OccursAt(b, pat, i);
    var s := a + b + c;
    assert s[|a| + i..|a| + i + |pat|] == b[i..i + |pat|];
    assert OccursAt(s, pat, |a| + i);
    ContainsIff(s, pat);
  }

  /** `any(k in s for k in keywords)` */
  predicate AnyContains(s: string, keywords: seq<string>) {
    |keywords| > 0 && (Contains(s, keywords[0]) || AnyContains(s, keywords[1..]))
  }

  /** A one-keyword list is the test for that keyword. */
  lemma AnyContainsOne(s: string, k: string)
    ensures AnyContains(s, [k]) <==> Contains(s, k)
  {
    assert [k][1..] == [];
  }

  lemma {:induction false} AnyContainsIff(s: string, keywords: seq<string>)
    ensures AnyContains(s, keywords) <==> exists k :: k in keywords && Contains(s, k)
  {
    if |keywords| > 0 {
      AnyContainsIff(s, keywords[1..]);
      if k :| k in keywords && Contains(s, k) {
        if k != keywords[0] {
          assert k in keywords[1..];
        }
      }
    }
  }

  /** Python's `str.lower()` on one character, restricted to ASCII letters. */
  function LowerChar(c: char): char {
    if 'A' <= c <= 'Z' then (c as int + 32) as char else c
  }

  /** `s.lower()` (ASCII case mapping). */
  function Lower(s: string): (r: string)
    ensures |r| == |s|
    ensures forall i :: 0 <= i < |s| ==> r[i] == LowerChar(s[i])
  {
    if s == [] then [] else [LowerChar(s[0])] + Lower(s[1..])
  }

  /** The characters for which Python's `str.isspace()` holds. */
  predicate IsSpace(c: char) {
    c == ' ' || ('\t' <= c <= '\r') || ('\U{1C}' <= c <= '\U{1F}')
    || c == '\U{85}' || c == '\U{A0}' || c == '\U{1680}'
    || ('\U{2000}' <= c <= '\U{200A}')
    || c == '\U{2028}' || c == '\U{2029}' || c == '\U{202F}' || c == '\U{205F}' || c == '\U{3000}'
  }

  /** The end of the run of white space that starts at `i`. */
  function SpaceRunEnd(s: string, i: nat): (j: nat)
    requires i <= |s|
    ensures i <= j <= |s|
    ensures j == |s| || !IsSpace(s[j])
    ensures forall k :: i <= k < j ==> IsSpace(s[k])
    decreases |s| - i
  {
    if i < |s| && IsSpace(s[i]) then SpaceRunEnd(s, i + 1) else i
  }

  /** The start of the run of white space that ends just before `j`. */
  function SpaceRunStart(s: string, j: nat): (i: nat)
    requires j <= |s|
    ensures i <= j
    ensures i == 0 || !IsSpace(s[i - 1])
    ensures forall k :: i <= k < j ==> IsSpace(s[k])
  {
    if j > 0 && IsSpace(s[j - 1]) then SpaceRunStart(s, j - 1) else j
  }

  /** `s.lstrip()`: the longest suffix of `s` that does not start with white space. */
  function LStrip(s: string): (r: string)
    ensures |r| <= |s| && r == s[|s| - |r|..]
    ensures r == [] || !IsSpace(r[0])
    ensures forall i :: 0 <= i < |s| - |r| ==> IsSpace(s[i])
  {
    s[SpaceRunEnd(s, 0)..]
  }

  /** `s.rstrip()`: the longest prefix of `s` that does not end with white space. */
  function RStrip(s: string): (r: string)
    ensures |r| <= |s| && r == s[..|r|]
    ensures r == [] || !IsSpace(r[|r| - 1])
    ensures forall i :: |r| <= i < |s| ==> IsSpace(s[i])
  {
    s[..SpaceRunStart(s, |s|)]
  }

  /** Lower-casing works character by character, so it distributes over concatenation. */
  lemma LowerConcat(a: string, b: string)
    ensures Lower(a + b) == Lower(a) + Lower(b)
  {
    assert forall i :: 0 <= i < |a + b| ==> Lower(a + b)[i] == (Lower(a) + Lower(b))[i];
  }

  /** A string with no upper-case ASCII letter is its own lower-case form. */
  lemma LowerOfLowercase(s: string)
    requires forall i :: 0 <= i < |s| ==> !('A' <= s[i] <= 'Z')
    ensures Lower(s) == s
  {
    assert forall i :: 0 <= i < |s| ==> Lower(s)[i] == s[i];
  }

  /** Leading white space is what `lstrip` removes, up to the first other character. */
  lemma {:induction false} LStripLeadingSpace(ws: string, rest: string)
    requires forall i :: 0 <= i < |ws| ==> IsSpace(ws[i])
    requires rest == [] || !IsSpace(rest[0])
    ensures LStrip(ws + rest) == rest
    decreases |ws|
  {
    if ws == [] {
      assert ws + rest == rest;
    } else {
      assert (ws + rest)[1..] == ws[1..] + rest;
      LStripLeadingSpace(ws[1..], rest);
    }
  }

  /** Stripping keeps a prefix that starts and ends with characters that are not white space. */
  lemma StripKeepsPrefix(s: string, w: string)
    requires |w| > 0 && StartsWith(s, w) && !IsSpace(w[0]) && !IsSpace(w[|w| - 1])
    ensures StartsWith(LStrip(s), w) && StartsWith(Strip(s), w)
  {
    assert s[0] == w[0];
    LStripLeadingSpace([], s);
    assert [] + s == s;
    var r := RStrip(s);
    assert s[|w| - 1] == w[|w| - 1];
    assert |w| <= |r|;
    assert r[..|w|] == s[..|w|];
  }

  /** `s.strip()` */
  function Strip(s: string): string {
    RStrip(LStrip(s))
  }

  /**
   * For a prefix that ends with a character that is not white space, the
   * trailing half of `strip` cannot matter: `s.strip().startswith(w)` is
   * `s.lstrip().startswith(w)`.
   */
  lemma StripStartsWith(s: string, w: string)
    requires |w| > 0 && !IsSpace(w[|w| - 1])
    ensures StartsWith(Strip(s), w) <==> StartsWith(LStrip(s), w)
  {
    var t := LStrip(s);
    var r := RStrip(t);
    if StartsWith(t, w) {
      assert t[|w| - 1] == w[|w| - 1];
      assert |w| <= |r|;
      assert r[..|w|] == t[..|w|];
    }
    if StartsWith(r, w) {
      assert t[..|w|] == r[..|w|];
    }
  }

  /** `s.find(c)`, with "absent" reported as `|s|`. */
  function IndexOf(s: string, c: char): (i: nat)
    ensures i <= |s|
    ensures i < |s| ==> s[i] == c
    ensures forall j :: 0 <= j < i ==> s[j] != c
  {
    if s == [] || s[0] == c then 0 else 1 + IndexOf(s[1..], c)
  }

  /** The first occurrence is where the text says it is. */
  lemma IndexOfIs(s: string, c: char, i: nat)
    requires i <= |s| && (i < |s| ==> s[i] == c)
    requires forall j :: 0 <= j < i ==> s[j] != c
    ensures IndexOf(s, c) == i
  {
  }

  /** `s.split(sep)` for a one-character separator. */
  function Split(s: string, sep: char): (parts: seq<string>)
    ensures |parts| >= 1
    ensures forall k :: 0 <= k < |parts| ==> sep !in parts[k]
    decreases |s|
  {
    var i := IndexOf(s, sep);
    if i == |s| then [s] else [s[..i]] + Split(s[i + 1..], sep)
  }

  /** `sep.join(parts)` */
  function Join(parts: seq<string>, sep: char): string {
    if |parts| == 0 then ""
    else if |parts| == 1 then parts[0]
    else parts[0] + [sep] + Join(parts[1..], sep)
  }

  /** Splitting and joining again gives back the original text. */
  lemma {:induction false} JoinSplit(s: string, sep: char)
    ensures Join(Split(s, sep), sep) == s
    decreases |s|
  {
    var i := IndexOf(s, sep);
    if i < |s| {
      var rest := Split(s[i + 1..], sep);
      assert Split(s, sep) == [s[..i]] + rest;
      JoinSplit(s[i + 1..], sep);
      assert Join([s[..i]] + rest, sep) == s[..i] + [sep] + Join(rest, sep);
      assert s == s[..i] + [sep] + s[i + 1..];
    }
  }

  /** The first separator of `a + [sep] + b` is the first one of `a`, or the added one. */
  lemma FirstSeparatorOfConcat(a: string, b: string, sep: char)
    ensures IndexOf(a + [sep] + b, sep) == IndexOf(a, sep)
    ensures (a + [sep] + b)[..IndexOf(a, sep)] == a[..IndexOf(a, sep)]
  {
    var s := a + [sep] + b;
    var i := IndexOf(a, sep);
    assert forall j :: 0 <= j <= i ==> s[j] == (a + [sep])[j];
    IndexOfIs(s, sep, i);
  }

  /** Splitting at the first separator: the piece before it, then the pieces of the rest. */
  lemma SplitAtFirst(s: string, sep: char, i: nat)
    requires i < |s| && IndexOf(s, sep) == i
    ensures Split(s, sep) == [s[..i]] + Split(s[i + 1..], sep)
  {
  }

  /** A separator splits the text into the pieces of either side. */
  lemma {:induction false} SplitConcat(a: string, b: string, sep: char)
    ensures Split(a + [sep] + b, sep) == Split(a, sep) + Split(b, sep)
    decreases |a|
  {
    var s := a + [sep] + b;
    var i := IndexOf(a, sep);
    FirstSeparatorOfConcat(a, b, sep);
    SplitAtFirst(s, sep, i);
    if i == |a| {
      assert s[..i] == a;
      assert s[i + 1..] == b;
      assert Split(a, sep) == [a];
    } else {
      var a' := a[i + 1..];
      assert s[i + 1..] == a' + [sep] + b;
      SplitAtFirst(a, sep, i);
      SplitConcat(a', b, sep);
      assert Split(s, sep) == [a[..i]] + (Split(a', sep) + Split(b, sep));
    }
  }

  /** Text without the separator is a single piece. */
  lemma SplitWithoutSeparator(s: string, sep: char)
    requires sep !in s
    ensures Split(s, sep) == [s]
  {
    IndexOfIs(s, sep, |s|);
  }

  /** Joining separator-free pieces and splitting again gives back the pieces. */
  lemma {:induction false} SplitJoin(parts: seq<string>, sep: char)
    requires |parts| >= 1
    requires forall k :: 0 <= k < |parts| ==> sep !in parts[k]
    ensures Split(Join(parts, sep), sep) == parts
  {
    SplitWithoutSeparator(parts[0], sep);
    if |parts| > 1 {
      var rest := Join(parts[1..], sep);
      assert Join(parts, sep) == parts[0] + [sep] + rest;
      SplitJoin(parts[1..], sep);
      SplitConcat(parts[0], rest, sep);
      assert parts == [parts[0]] + parts[1..];
    }
  }

  /** `s.replace(pat, rep)`: every non-overlapping occurrence, scanning left to right. */
  function Replace(s: string, pat: string, rep: string): string
    requires |pat| > 0
    decreases |s|
  {
    if StartsWith(s, pat) then rep + Replace(s[|pat|..], pat, rep)
    else if s == [] then []
    else [s[0]] + Replace(s[1..], pat, rep)
  }

  /** Text without an occurrence of the pattern is left as it is. */
  lemma {:induction false} ReplaceNoMatch(s: string, pat: string, rep: string)
    requires |pat| > 0
    requires !Contains(s, pat)
    ensures Replace(s, pat, rep) == s
    decreases |s|
  {
    if s != [] {
      ReplaceNoMatch(s[1..], pat, rep);
    }
  }

  /** An occurrence at the front is replaced and the scan resumes after it. */
  lemma ReplaceAtFront(pat: string, rest: string, rep: string)
    requires |pat| > 0
    ensures Replace(pat + rest, pat, rep) == rep + Replace(rest, pat, rep)
  {
    assert (pat + rest)[|pat|..] == rest;
  }

  /** A first character that does not start the pattern (it differs at position `k`) is kept. */
  lemma ReplaceStep(s: string, pat: string, rep: string, k: nat)
    requires |pat| > 0 && |s| > 0 && k < |pat|
    requires k >= |s| || s[k] != pat[k]
    ensures Replace(s, pat, rep) == [s[0]] + Replace(s[1..], pat, rep)
  {
    if k < |s| && |pat| <= |s| {
      assert s[..|pat|][k] != pat[k];
    }
  }

  /** The head and the tail of a concatenation whose first part is not empty. */
  lemma TailOfConcat(a: string, b: string)
    requires a != []
    ensures (a + b)[0] == a[0] && (a + b)[1..] == a[1..] + b
  {
  }

  /** Putting the head back in front of the tail. */
  lemma ConsOfTail(a: string, b: string)
    requires a != []
    ensures [a[0]] + (a[1..] + b) == a + b
  {
    assert a == [a[0]] + a[1..];
  }

  /** A first character that does not start an occurrence is kept. */
  lemma ReplaceNotAtFront(s: string, pat: string, rep: string)
    requires |pat| > 0 && s != [] && !StartsWith(s, pat)
    ensures Replace(s, pat, rep) == [s[0]] + Replace(s[1..], pat, rep)
  {
  }

  /** A prefix without the pattern's first character is copied unchanged. */
  lemma {:induction false} ReplaceKeepsPlain(x: string, rest: string, pat: string, rep: string)
    requires |pat| > 0 && pat[0] !in x
    ensures Replace(x + rest, pat, rep) == x + Replace(rest, pat, rep)
    decreases |x|
  {
    if x != [] {
      var s := x + rest;
      TailOfConcat(x, rest);
      assert x[0] in x;
      ReplaceStep(s, pat, rep, 0);
      assert pat[0] !in x[1..] by {
        assert forall j :: 0 <= j < |x[1..]| ==> x[1..][j] == x[j + 1];
      }
      ReplaceKeepsPlain(x[1..], rest, pat, rep);
      ConsOfTail(x, Replace(rest, pat, rep));
    } else {
      assert x + rest == rest;
    }
  }

  /** `sep.join(parts)` for a separator that is a whole string. */
  function JoinOn(parts: seq<string>, sep: string): string {
    if |parts| == 0 then ""
    else if |parts| == 1 then parts[0]
    else parts[0] + sep + JoinOn(parts[1..], sep)
  }

  /** A pattern whose first character appears nowhere else in it. */
  predicate HeadOnce(pat: string) {
    |pat| > 0 && pat[0] !in pat[1..]
  }

  /** No occurrence starts inside a pattern-free prefix and runs into a following occurrence. */
  lemma SeamNotAtFront(x: string, t: string, pat: string)
    requires HeadOnce(pat) && x != [] && !StartsWith(x, pat) && StartsWith(t, pat)
    ensures !StartsWith(x + t, pat)
  {
    var s := x + t;
    if |x| < |pat| {
      assert pat[1..][|x| - 1] == pat[|x|];
      assert s[..|pat|][|x|] == t[0] == pat[0] != pat[|x|];
    } else {
      assert s[..|pat|] == x[..|pat|];
    }
  }

  /** Text without the pattern, followed by the pattern: no occurrence straddles the seam. */
  lemma {:induction false} ReplaceBeforeMatch(x: string, t: string, pat: string, rep: string)
    requires HeadOnce(pat) && !Contains(x, pat) && StartsWith(t, pat)
    ensures Replace(x + t, pat, rep) == x + Replace(t, pat, rep)
    decreases |x|
  {
    if x == [] {
      assert x + t == t;
    } else {
      SeamNotAtFront(x, t, pat);
      ReplaceNotAtFront(x + t, pat, rep);
      TailOfConcat(x, t);
      ReplaceBeforeMatch(x[1..], t, pat, rep);
      ConsOfTail(x, Replace(t, pat, rep));
    }
  }

  /**
   * Replacing a pattern whose first character occurs once in it, in pieces
   * without the pattern joined by it, gives the pieces joined by the
   * replacement.
   */
  lemma {:induction false} ReplaceJoin(parts: seq<string>, pat: string, rep: string)
    requires HeadOnce(pat)
    requires forall k :: 0 <= k < |parts| ==> !Contains(parts[k], pat)
    ensures Replace(JoinOn(parts, pat), pat, rep) == JoinOn(parts, rep)
  {
    if |parts| == 1 {
      ReplaceNoMatch(parts[0], pat, rep);
    } else if |parts| > 1 {
      var tail := JoinOn(parts[1..], pat);
      assert JoinOn(parts, pat) == parts[0] + (pat + tail);
      assert StartsWith(pat + tail, pat);
      ReplaceBeforeMatch(parts[0], pat + tail, pat, rep);
      ReplaceAtFront(pat, tail, rep);
      ReplaceJoin(parts[1..], pat, rep);
    }
  }

  /** Replacing introduces no character that is neither in the text nor in the replacement. */
  lemma {:induction false} ReplaceChars(s: string, pat: string, rep: string, c: char)
    requires |pat| > 0
    requires c !in s && c !in rep
    ensures c !in Replace(s, pat, rep)
    decreases |s|
  {
    if StartsWith(s, pat) {
      assert forall k :: 0 <= k < |s[|pat|..]| ==> s[|pat|..][k] == s[|pat| + k];
      ReplaceChars(s[|pat|..], pat, rep, c);
    } else if s != [] {
      ReplaceChars(s[1..], pat, rep, c);
    }
  }

  /** The prefix of `s` up to (not including) the first character in `stops`. */
  function TakeUntil(s: string, stops: set<char>): (r: string)
    ensures StartsWith(s, r)
    ensures forall i :: 0 <= i < |r| ==> r[i] !in stops
    ensures |r| == |s| || s[|r|] in stops
  {
    if s == [] || s[0] in stops then [] else [s[0]] + TakeUntil(s[1..], stops)
  }
}
