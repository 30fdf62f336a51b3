/** `app/utils.c`: the prefix test and the single-wildcard path matcher the
    router is built on. */
module Utils {
  import opened Libc

  const WILDCARD: char := '*'

  /** The `size_t` that `starts_with_wildcard` returns: `(size_t)-1` is the
      distinguished `NoMatch`; every other value is an offset into the url. */
  datatype MatchResult = NoMatch | Offset(at: nat)

  const NO_MATCH: MatchResult := NoMatch
  const ALL_MATCH: MatchResult := Offset(0)

  /** `p` is a prefix of `s`. */
  predicate IsPrefix(p: string, s: string)
  {
    |p| <= |s| && s[..|p|] == p
  }

  /** `starts_with(buf, with)` as written. Its loop runs while
      `with[i] == '\0'`; every caller passes a non-empty literal, so the
      guard is false at `i = 0`, the body never runs and the answer is true
      whatever `buf` holds. */
  function StartsWithAsWritten(buf: string, with: CString): (r: bool)
    requires with != []
    ensures r
  {
    CharAt(with, 0) != NUL
  }

  /** Being true for every buffer, the as-written test accepts a buffer that
      does not start with `with` at all. */
  lemma StartsWithAsWrittenIgnoresBuffer()
    ensures StartsWithAsWritten("PUT /", "GET") && !IsPrefix("GET", "PUT /")
  {
    assert "PUT /"[..3] != "GET" by { assert "PUT /"[0] != "GET"[0]; }
  }

  /** `starts_with` with the loop guard `with[i] != '\0'` its name calls for:
      it compares `buf` and `with` up to the end of `with`. */
  method StartsWith(buf: string, with: CString) returns (r: bool)
    ensures r == IsPrefix(with, buf)
  {
    var i := 0;
    while CharAt(with, i) != NUL
      invariant i <= |with| && i <= |buf|
      invariant buf[..i] == with[..i]
      decreases |with| - i
    {
      if CharAt(buf, i) != CharAt(with, i) {
        assert |with| <= |buf| ==> buf[..|with|][i] != with[i];
        return false;
      }
      i := i + 1;
    }
    return true;
  }

  /** The scan of `starts_with_wildcard` from index `i` on: both strings
      end here (exact match), one ends (no match), the pattern holds the
      wildcard (match at `i`), the characters differ (no match), or the scan
      moves on. */
  function MatchFrom(url: string, pattern: string, i: nat): (r: MatchResult)
    ensures r.Offset? && r.at > 0 ==> i <= r.at < |url|
    decreases |url| - i
  {
    var a := CharAt(url, i);
    var b := CharAt(pattern, i);
    if a == NUL && b == NUL then ALL_MATCH
    else if a == NUL || b == NUL then NO_MATCH
    else if b == WILDCARD then Offset(i)
    else if a != b then NO_MATCH
    else MatchFrom(url, pattern, i + 1)
  }

  /** The result of `starts_with_wildcard(url, pattern)`. A wildcard
      offset lies inside the url, so the parameter it starts is a proper
      suffix of the url. */
  function WildcardMatch(url: string, pattern: string): (r: MatchResult)
    ensures r.Offset? && r.at > 0 ==> r.at < |url|
  {
    MatchFrom(url, pattern, 0)
  }

  /** `starts_with_wildcard(buf, with)`: the loop of the source, which
      advances `i` by one per round and stops within the shorter string. */
  method StartsWithWildcard(buf: CString, with: CString) returns (r: MatchResult)
    ensures r == WildcardMatch(buf, with)
  {
    var i: nat := 0;
    while true
      invariant MatchFrom(buf, with, i) == WildcardMatch(buf, with)
      decreases |buf| - i
    {
      var a := CharAt(buf, i);
      var b := CharAt(with, i);
      if a == NUL && b == NUL {
        return ALL_MATCH;
      }
      if a == NUL || b == NUL {
        return NO_MATCH;
      }
      if b == WILDCARD {
        return Offset(i);
      }
      if a != b {
        return NO_MATCH;
      }
      i := i + 1;
    }
  }

  /** The pattern's first wildcard is at `i`, the url has a character at
      `i`, and the two agree before it. */
  ghost predicate WildcardAt(url: string, pattern: string, i: nat)
  {
    && i < |url| && i < |pattern|
    && pattern[i] == WILDCARD
    && url[..i] == pattern[..i]
    && WILDCARD !in pattern[..i]
  }

  lemma {:induction false} MatchFromMeaning(url: CString, pattern: CString, i: nat)
    requires i <= |url| && i <= |pattern|
    requires url[..i] == pattern[..i] && WILDCARD !in pattern[..i]
    ensures forall k :: WildcardAt(url, pattern, k) ==> MatchFrom(url, pattern, i) == Offset(k)
    ensures (forall k :: !WildcardAt(url, pattern, k)) ==>
              MatchFrom(url, pattern, i) == if url == pattern then ALL_MATCH else NO_MATCH
    decreases |url| - i
  {
    forall k: nat | WildcardAt(url, pattern, k)
      ensures i <= k
      ensures k == i || (i < |url| && i < |pattern| && url[i] == pattern[i] && pattern[i] != WILDCARD)
    {
      if k > i {
        assert url[..k][i] == pattern[..k][i];
        assert pattern[..k][i] != WILDCARD;
      }
    }
    if i == |url| && i == |pattern| {
      assert url == url[..i] && pattern == pattern[..i];
    } else if i == |url| || i == |pattern| {
      assert |url| != |pattern|;
    } else if pattern[i] == WILDCARD {
      assert WildcardAt(url, pattern, i);
    } else if url[i] != pattern[i] {
      assert url != pattern by { assert url[i] != pattern[i]; }
    } else {
      assert url[..i + 1] == url[..i] + [url[i]];
      assert pattern[..i + 1] == pattern[..i] + [pattern[i]];
      MatchFromMeaning(url, pattern, i + 1);
    }
  }

  /** What `starts_with_wildcard` means, stated without its loop: the
      offset of the pattern's first wildcard when the url agrees with the
      pattern before it and has a character there; otherwise `ALL_MATCH`
      exactly when url and pattern are equal, and `NO_MATCH` when not. */
  lemma WildcardMatchMeaning(url: CString, pattern: CString)
    ensures forall k :: WildcardAt(url, pattern, k) ==> WildcardMatch(url, pattern) == Offset(k)
    ensures (forall k :: !WildcardAt(url, pattern, k)) ==>
              WildcardMatch(url, pattern) == if url == pattern then ALL_MATCH else NO_MATCH
  {
    MatchFromMeaning(url, pattern, 0);
  }

  /** A wildcard offset lies inside the url, so the suffix it captures is
      never empty: the url `/echo/` does not match the echo route. */
  lemma WildcardCaptureNonEmpty(url: CString, pattern: CString)
    ensures WildcardMatch(url, pattern).Offset? && WildcardMatch(url, pattern).at > 0 ==>
              WildcardMatch(url, pattern).at < |url|
    ensures WildcardMatch("/echo/", "/echo/*") == NO_MATCH
  {
    WildcardMatchMeaning(url, pattern);
    if (exists k :: WildcardAt(url, pattern, k)) {
      var k :| WildcardAt(url, pattern, k);
    }
  }

  /** The characters of a pattern after its first wildcard are never read. */
  lemma {:induction false} AfterWildcardIgnored(url: CString, pre: CString, t1: CString, t2: CString)
    requires WILDCARD !in pre
    ensures WildcardMatch(url, pre + [WILDCARD] + t1) == WildcardMatch(url, pre + [WILDCARD] + t2)
  {
    var p1, p2 := pre + [WILDCARD] + t1, pre + [WILDCARD] + t2;
    var n := |pre|;
    assert p1[..n] == pre && p2[..n] == pre;
    assert p1[n] == WILDCARD && p2[n] == WILDCARD;
    WildcardMatchMeaning(url, p1);
    WildcardMatchMeaning(url, p2);
    if n < |url| && url[..n] == pre {
      assert WildcardAt(url, p1, n) && WildcardAt(url, p2, n);
    } else {
      assert url != p1 && url != p2;
    }
  }

  /** Result 0 is ambiguous: an exact match and a wildcard at index 0 both
      return `ALL_MATCH`. */
  lemma ZeroIsAmbiguous()
    ensures WildcardMatch("/", "/") == ALL_MATCH
    ensures WildcardMatch("/index.html", "*") == ALL_MATCH
  {
  }
}
