/**
 The stub: the base name under which a post is written. It is the last
 path segment of the post's GUID when the GUID matches `.*\/(.+)\/$`, and
 otherwise a character-by-character folding of the title.
 */
module Stub {
  import opened Text

  // ---------------------------------------------------------------------
  // The GUID pattern

  /**
   One way `re.match(r'.*\/(.+)\/$', g)` can succeed: `.*` covers `g[..i]`,
   `g[i]` is the first `/`, the group covers `g[i+1..j]`, `g[j]` is the
   second `/`, and `$` holds right after it, either at the end of the string
   or just before a final newline. `.` never matches a newline.
   */
  ghost predicate Captures(g: string, i: int, j: int) {
    && 0 <= i && i + 1 < j < |g|
    && g[i] == '/' && g[j] == '/'
    && (j + 1 == |g| || (j + 2 == |g| && g[j + 1] == '\n'))
    && '\n' !in g[..j + 1]
  }

  /** The GUID with one trailing newline removed, the text `$` may stop before. */
  function WithoutFinalNewline(g: string): string {
    if |g| > 0 && g[|g| - 1] == '\n' then g[..|g| - 1] else g
  }

  /** The largest index at most `k` holding a `/`, or -1 when there is none. */
  function LastSlashUpTo(h: string, k: int): (i: int)
    requires -1 <= k < |h|
    ensures -1 <= i <= k
    ensures i >= 0 ==> h[i] == '/'
    ensures forall m :: i < m <= k ==> h[m] != '/'
    decreases k + 1
  {
    if k < 0 then -1
    else if h[k] == '/' then k
    else LastSlashUpTo(h, k - 1)
  }

  /**
   The group the GUID pattern captures, if it matches. The greedy `.*`
   makes the first `/` the last one that still leaves a non-empty group.
   */
  function GuidStub(g: string): (r: Option<string>)
    ensures r.Some? ==> |r.value| > 0 && '\n' !in r.value
    ensures r.Some? ==> HasSuffix(g, "/" + r.value + "/") || HasSuffix(g, "/" + r.value + "/\n")
    ensures r.Some? ==> '/' !in r.value[..|r.value| - 1]
  {
    var h := WithoutFinalNewline(g);
    if |h| < 3 || h[|h| - 1] != '/' || '\n' in h then None
    else
      var i := LastSlashUpTo(h, |h| - 3);
      if i < 0 then None
      else
        SegmentShape(g, i);
        Some(h[i + 1..|h| - 1])
  }

  lemma SegmentShape(g: string, i: int)
    requires var h := WithoutFinalNewline(g);
             && 0 <= i <= |h| - 3 && h[|h| - 1] == '/' && '\n' !in h
             && forall m :: i < m <= |h| - 3 ==> h[m] != '/'
    requires WithoutFinalNewline(g)[i] == '/'
    ensures var h := WithoutFinalNewline(g);
            var s := h[i + 1..|h| - 1];
            && |s| > 0 && '\n' !in s
            && (HasSuffix(g, "/" + s + "/") || HasSuffix(g, "/" + s + "/\n"))
            && '/' !in s[..|s| - 1]
  {
    var h := WithoutFinalNewline(g);
    var s := h[i + 1..|h| - 1];
    assert h[i..] == "/" + s + "/";
    assert '/' !in s[..|s| - 1] by {
      forall m | 0 <= m < |s| - 1 ensures s[m] != '/' {
        assert s[m] == h[i + 1 + m];
      }
    }
    assert '\n' !in s by {
      forall m | 0 <= m < |s| ensures s[m] != '\n' {
        assert s[m] == h[i + 1 + m];
      }
    }
    if h == g {
      assert g[|g| - |"/" + s + "/"|..] == h[i..];
    } else {
      assert g == h + "\n";
      assert g[|g| - |"/" + s + "/\n"|..] == h[i..] + "\n";
    }
  }

  /** The pattern matches exactly when `GuidStub` finds a stub. */
  lemma GuidStubMatchesIff(g: string)
    ensures GuidStub(g).Some? <==> exists i, j :: Captures(g, i, j)
  {
    if GuidStub(g).Some? {
      var ij := GuidStubCapture(g);
    } else {
      forall i, j | Captures(g, i, j) ensures false {
        CaptureIsFound(g, i, j);
      }
    }
  }

  /**
   When the pattern matches, `GuidStub` returns the group of the match
   Python's greedy `.*` selects: the one with the rightmost first slash,
   hence the shortest group.
   */
  lemma GuidStubIsGreedyGroup(g: string)
    requires GuidStub(g).Some?
    ensures exists i, j :: && Captures(g, i, j)
                           && GuidStub(g).value == g[i + 1..j]
                           && (forall i', j' :: Captures(g, i', j') ==> j' == j && i' <= i)
  {
    var ij := GuidStubCapture(g);
    var i, j := ij.0, ij.1;
    forall i', j' | Captures(g, i', j') ensures j' == j && i' <= i {
      CaptureIsFound(g, i', j');
    }
  }

  /** The match `GuidStub` reports, as indices into the GUID. */
  lemma GuidStubCapture(g: string) returns (ij: (int, int))
    requires GuidStub(g).Some?
    ensures Captures(g, ij.0, ij.1) && GuidStub(g).value == g[ij.0 + 1..ij.1]
  {
    var h := WithoutFinalNewline(g);
    var i := LastSlashUpTo(h, |h| - 3);
    var j := |h| - 1;
    assert g[..j + 1] == h;
    ij := (i, j);
  }

  /** Every match of the pattern ends where `GuidStub` looks, and starts no later than its slash. */
  lemma CaptureIsFound(g: string, i: int, j: int)
    requires Captures(g, i, j)
    ensures GuidStub(g).Some?
    ensures j == |WithoutFinalNewline(g)| - 1
    ensures i <= LastSlashUpTo(WithoutFinalNewline(g), j - 2)
  {
    var h := WithoutFinalNewline(g);
    assert h == g[..j + 1];
    assert h[i] == '/';
  }

  /** A post URL ending in `/hello-world/` gives the stub `hello-world`. */
  lemma GuidStubExample()
    ensures GuidStub("http://example.com/hello-world/") == Some("hello-world")
  {
    var g := "http://example.com/hello-world/";
    assert WithoutFinalNewline(g) == g;
    assert g[18] == '/' && forall m :: 19 <= m <= 28 ==> g[m] != '/';
    assert g[19..30] == "hello-world";
  }

  // ---------------------------------------------------------------------
  // The fallback

  /** `re.sub(r'[^a-zA-Z0-9_]', '-', s)`: the class is ASCII-only, as no re.UNICODE flag is given. */
  function HyphenateNonWord(s: string): (r: string)
    ensures |r| == |s|
    ensures forall k :: 0 <= k < |s| ==> r[k] == (if IsWordChar(s[k]) then s[k] else '-')
  {
    seq(|s|, k requires 0 <= k < |s| => if IsWordChar(s[k]) then s[k] else '-')
  }

  /** The characters a fallback stub is made of: `[a-z0-9_-]`. */
  predicate IsStubChar(c: char) {
    ('a' <= c <= 'z') || IsDigit(c) || c == '_' || c == '-'
  }

  /**
   `re.sub(r'[^a-zA-Z0-9_]', '-', title).lower()`. Each title character maps
   to one stub character: ASCII letters, digits and `_` survive lower-cased,
   everything else becomes `-`; runs of hyphens are not merged. Because the
   substitution leaves only ASCII, the Unicode case table plays no part.
   */
  function FallbackStub(caseMap: map<char, char>, title: string): (r: string)
    ensures |r| == |title|
    ensures forall k :: 0 <= k < |r| ==>
              r[k] == (if IsWordChar(title[k]) then AsciiLower(title[k]) else '-')
    ensures forall k :: 0 <= k < |r| ==> IsStubChar(r[k])
  {
    Lower(caseMap, HyphenateNonWord(title))
  }

  /** The stub of a post: the GUID's last segment, or else the folded title. */
  function PostStub(caseMap: map<char, char>, guid: string, title: string): (r: string)
    ensures '\n' !in r
    ensures GuidStub(guid).Some? ==> r == GuidStub(guid).value
    ensures GuidStub(guid).None? ==> r == FallbackStub(caseMap, title)
  {
    match GuidStub(guid)
    case Some(s) => s
    case None =>
      var r := FallbackStub(caseMap, title);
      assert forall k :: 0 <= k < |r| ==> r[k] != '\n';
      r
  }
}
