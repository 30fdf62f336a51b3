/** The parts of the C library the server relies on: NUL-terminated strings,
    `strstr`, `memcpy` and `sprintf("%zu")`, modelled by what they compute. */
module Libc {
  import opened Wrappers

  /** The C string terminator. */
  const NUL: char := '\0'

  /** The contents of a C string: the characters before its terminator. */
  type CString = s: string | NUL !in s

  const CRLF: CString := "\r\n"

  /** Every way the C code stops the whole process. */
  datatype Fatal =
    | ExitUnsupportedStatus   // write_status, default case
    | ExitUnsupportedMethod   // parse_method, no method matched
    | ExitInvalidRequestLine  // parse_request, no space after the method
    | ExitInvalidLineEnd      // parse_request, no CRLF where one is checked
    | ExitInvalidVersion      // parse_version, not "HTTP/1.1" and CRLF
    | NullDereference         // a NULL from strstr or a NULL string is used
    | AssertionFailure        // a failed assert()
    | OutOfBoundsRead         // a read before the start of a string

  /** Reading `s[i]` from a zero-filled buffer holding `s`: past the end of
      the data every byte is NUL. */
  function CharAt(s: string, i: nat): char
  {
    if i < |s| then s[i] else NUL
  }

  /** `pat` occurs in `s` at index `i`. */
  predicate OccursAt(s: string, i: nat, pat: string)
  {
    i + |pat| <= |s| && forall k :: 0 <= k < |pat| ==> s[i + k] == pat[k]
  }

  /** The same occurrence seen as a slice. */
  lemma OccursAtSlice(s: string, i: nat, pat: string)
    ensures OccursAt(s, i, pat) <==> i + |pat| <= |s| && s[i..i + |pat|] == pat
  {
    if i + |pat| <= |s| && s[i..i + |pat|] == pat {
      forall k | 0 <= k < |pat|
        ensures s[i + k] == pat[k]
      {
        assert s[i + k] == s[i..i + |pat|][k];
      }
    }
  }

  /** `s[lo..hi]` lies inside `s` and holds no NUL, so a C string that
      starts at `lo` is still running at `hi`. */
  predicate NulFree(s: string, lo: nat, hi: nat)
  {
    lo <= hi <= |s| && forall k :: lo <= k < hi ==> s[k] != NUL
  }

  /** `strstr(s + from, pat)`: the index of the first occurrence of `pat` in
      the C string that starts at `from`, or NULL when it has none. */
  function Find(s: string, from: nat, pat: CString): (r: Option<nat>)
    requires pat != []
    ensures r.Some? ==> from <= r.value && NulFree(s, from, r.value) && OccursAt(s, r.value, pat)
    decreases |s| - from
  {
    if CharAt(s, from) == NUL then None
    else if OccursAt(s, from, pat) then Some(from)
    else Find(s, from + 1, pat)
  }

  /** `Find` returns the first occurrence: none lies between `from` and the
      index it returns, and when it returns NULL none lies anywhere in the
      C string that starts at `from`. */
  lemma {:induction false} FindIsFirst(s: string, from: nat, pat: CString)
    requires pat != []
    ensures Find(s, from, pat).Some? ==> forall j :: from <= j < Find(s, from, pat).value ==> !OccursAt(s, j, pat)
    ensures Find(s, from, pat).None? ==> forall j :: NulFree(s, from, j) ==> !OccursAt(s, j, pat)
    decreases |s| - from
  {
    assert pat[0] != NUL;
    if CharAt(s, from) != NUL && !OccursAt(s, from, pat) {
      FindIsFirst(s, from + 1, pat);
      forall j | NulFree(s, from, j) && from < j
        ensures NulFree(s, from + 1, j)
      {
      }
    }
  }

  /** When `pat` occurs at `i`, no earlier occurrence lies between `from`
      and `i`, and no NUL comes before it, `Find` returns `i`. */
  lemma {:induction false} FindFirst(s: string, from: nat, pat: CString, i: nat)
    requires pat != [] && from <= i && NulFree(s, from, i) && OccursAt(s, i, pat)
    requires forall j :: from <= j < i ==> !OccursAt(s, j, pat)
    ensures Find(s, from, pat) == Some(i)
    decreases i - from
  {
    if from < i {
      FindFirst(s, from + 1, pat, i);
    } else {
      assert s[i..i + |pat|] == pat;
      assert s[i] == pat[0];
    }
  }

  /** The decimal digit for `d`. */
  function DigitChar(d: nat): (c: char)
    requires d < 10
    ensures '0' <= c <= '9'
  {
    ('0' as int + d) as char
  }

  /** The value of a decimal digit character. */
  function DigitValue(c: char): nat
  {
    if '0' <= c <= '9' then c as int - '0' as int else 0
  }

  /** `sprintf(out, "%zu", n)`: the decimal representation of `n`. */
  function Decimal(n: nat): (r: CString)
    decreases n
  {
    if n < 10 then [DigitChar(n)] else Decimal(n / 10) + [DigitChar(n % 10)]
  }

  /** Only decimal digits. */
  predicate AllDigits(s: string)
  {
    forall k :: 0 <= k < |s| ==> '0' <= s[k] <= '9'
  }

  /** The number a string of decimal digits denotes, as a reader of a
      `Content-Length` value computes it. */
  function DecimalValue(s: string): nat
  {
    if s == [] then 0 else 10 * DecimalValue(s[..|s| - 1]) + DigitValue(s[|s| - 1])
  }

  /** `%zu` prints a non-empty run of digits without a leading zero, and
      reading it back gives the number printed. */
  lemma {:induction false} DecimalRoundTrip(n: nat)
    ensures Decimal(n) != [] && AllDigits(Decimal(n))
    ensures Decimal(n)[0] == '0' ==> n == 0
    ensures DecimalValue(Decimal(n)) == n
    decreases n
  {
    if n >= 10 {
      DecimalRoundTrip(n / 10);
      var d := Decimal(n);
      assert d[..|d| - 1] == Decimal(n / 10);
      assert d[0] == Decimal(n / 10)[0];
    }
  }

  /** `before` and `now` agree everywhere except on indices `lo .. hi-1`. */
  ghost predicate SameOutside(now: seq<char>, before: seq<char>, lo: int, hi: int)
  {
    |now| == |before| && forall j :: 0 <= j < |now| && !(lo <= j < hi) ==> now[j] == before[j]
  }

  /** The only bytes `now` changed from `before` lie in `[lo, hi)` and were
      overwritten with NUL: what the parser's string terminators do. */
  ghost predicate OnlyNulled(now: seq<char>, before: seq<char>, lo: nat, hi: nat)
  {
    |now| == |before| && forall k :: 0 <= k < |now| && now[k] != before[k] ==> lo <= k < hi && now[k] == NUL
  }

  /** `now` is `before` with exactly the indices in `cuts` overwritten by
      NUL, and every other byte kept. */
  ghost predicate NulledAt(now: seq<char>, before: seq<char>, cuts: set<nat>)
  {
    |now| == |before| && forall j {:trigger now[j]} :: 0 <= j < |now| ==> now[j] == (if j in cuts then NUL else before[j])
  }

  /** A single NUL written at `i`. */
  lemma NulledOne(now: seq<char>, before: seq<char>, i: nat)
    requires i < |now| && now[i] == NUL && SameOutside(now, before, i, i + 1)
    ensures NulledAt(now, before, {i})
  {
  }

  /** The writes `first` followed by the writes `second`. */
  lemma NulledCompose(now: seq<char>, mid: seq<char>, before: seq<char>, first: set<nat>, second: set<nat>)
    requires NulledAt(mid, before, first) && NulledAt(now, mid, second)
    ensures NulledAt(now, before, first + second)
  {
  }

  /** `memcpy(dst + off, src, |src|)`. */
  method MemCopy(dst: array<char>, off: nat, src: string)
    requires off + |src| <= dst.Length
    modifies dst
    ensures dst[off..off + |src|] == src
    ensures SameOutside(dst[..], old(dst[..]), off, off + |src|)
  {
    for i := 0 to |src|
      invariant dst[off..off + i] == src[..i]
      invariant SameOutside(dst[..], old(dst[..]), off, off + i)
    {
      dst[off + i] := src[i];
    }
  }

  /** `sprintf(dst + off, "%s", s)`: the characters of `s`, then a
      terminating NUL; the count excludes the NUL. */
  method SPrint(dst: array<char>, off: nat, s: CString) returns (n: nat)
    requires off + |s| < dst.Length
    modifies dst
    ensures n == |s| && dst[off..off + n] == s && dst[off + n] == NUL
    ensures SameOutside(dst[..], old(dst[..]), off, off + n + 1)
  {
    MemCopy(dst, off, s);
    dst[off + |s|] := NUL;
    n := |s|;
  }

  /** A write of `x` at `mid` that keeps the bytes before `mid` extends the
      run `before[lo..mid]` by `x`. */
  lemma AppendWrite(now: seq<char>, before: seq<char>, lo: nat, mid: nat, hi: nat, x: seq<char>)
    requires lo <= mid && mid + |x| <= hi <= |now|
    requires SameOutside(now, before, mid, hi) && now[mid..mid + |x|] == x
    ensures now[lo..mid + |x|] == before[lo..mid] + x
  {
    assert now[lo..mid] == before[lo..mid];
    assert now[lo..mid + |x|] == now[lo..mid] + now[mid..mid + |x|];
  }

  /** Two writes inside `[lo, hi)` leave everything outside it unchanged. */
  lemma SameOutsideTrans(c: seq<char>, b: seq<char>, a: seq<char>, lo: nat, hi: nat, l1: nat, h1: nat, l2: nat, h2: nat)
    requires SameOutside(b, a, l1, h1) && SameOutside(c, b, l2, h2)
    requires lo <= l1 && h1 <= hi && lo <= l2 && h2 <= hi
    ensures SameOutside(c, a, lo, hi)
  {
  }

  /** `strstr` reads nothing before its start, so two buffers that agree
      from `from` on give the same answer. */
  /** A prefix extended in place: `b` holds `x` on `[0, mid)` and differs
      from `a` nowhere else; writing `y` on `[mid, hi)` gives `c`. */
  lemma Adjacent(c: seq<char>, b: seq<char>, a: seq<char>, mid: nat, hi: nat, x: seq<char>, y: seq<char>)
    requires |x| == mid && mid + |y| == hi && hi <= |c|
    requires SameOutside(c, b, mid, hi) && c[mid..hi] == y
    requires SameOutside(b, a, 0, mid) && b[..mid] == x
    ensures c[..hi] == x + y
    ensures SameOutside(c, a, 0, hi)
  {
    assert b[0..mid] == b[..mid];
    AppendWrite(c, b, 0, mid, hi, y);
    SameOutsideTrans(c, b, a, 0, hi, 0, mid, mid, hi);
    assert c[0..hi] == c[..hi];
  }

  /** `x` written, with a terminating NUL, right after a `prefix` already
      in place at `off`: the prefix and `x` now lie there, and only
      `[off, off + |prefix| + |x| + 1)` differs from `a`. */
  lemma AppendAfter(c: seq<char>, b: seq<char>, a: seq<char>, off: nat, prefix: seq<char>, x: seq<char>)
    requires off + |prefix| + |x| < |c|
    requires SameOutside(c, b, off + |prefix|, off + |prefix| + |x| + 1) && c[off + |prefix|..off + |prefix| + |x|] == x
    requires SameOutside(b, a, off, off + |prefix| + 1) && b[off..off + |prefix|] == prefix
    ensures c[off..off + |prefix| + |x|] == prefix + x
    ensures SameOutside(c, a, off, off + |prefix| + |x| + 1)
  {
    AppendWrite(c, b, off, off + |prefix|, off + |prefix| + |x| + 1, x);
    SameOutsideTrans(c, b, a, off, off + |prefix| + |x| + 1, off, off + |prefix| + 1, off + |prefix|, off + |prefix| + |x| + 1);
  }

  lemma {:induction false} FindAgree(a: string, b: string, from: nat, pat: CString)
    requires pat != [] && |a| == |b|
    requires forall k :: from <= k < |a| ==> a[k] == b[k]
    ensures Find(a, from, pat) == Find(b, from, pat)
    decreases |a| - from
  {
    if from < |a| {
      if from + |pat| <= |a| {
        assert a[from..from + |pat|] == b[from..from + |pat|];
      }
      if CharAt(a, from) != NUL && !OccursAt(a, from, pat) {
        FindAgree(a, b, from + 1, pat);
      }
    }
  }

  /** An occurrence of `a + b` is an occurrence of `a` followed by one of
      `b`. */
  lemma OccursAtSplit(s: string, i: nat, a: string, b: string)
    requires OccursAt(s, i, a + b)
    ensures OccursAt(s, i, a) && OccursAt(s, i + |a|, b)
  {
    forall k | 0 <= k < |a|
      ensures s[i + k] == a[k]
    {
      assert s[i + k] == (a + b)[k];
    }
    forall k | 0 <= k < |b|
      ensures s[i + |a| + k] == b[k]
    {
      assert s[i + (|a| + k)] == (a + b)[|a| + k];
    }
  }

  /** `strstr` over a run `x` that does not contain the first byte of `pat`
      stops at the `pat` right after it. */
  lemma FindAfter(s: string, from: nat, x: CString, pat: CString)
    requires pat != [] && pat[0] !in x
    requires OccursAt(s, from, x + pat)
    ensures Find(s, from, pat) == Some(from + |x|)
  {
    var i := from + |x|;
    OccursAtSplit(s, from, x, pat);
    forall j | from <= j < i
      ensures s[j] == x[j - from] && s[j] != NUL && !OccursAt(s, j, pat)
    {
      assert s[from + (j - from)] == x[j - from];
      assert pat[0] != s[j];
    }
    FindFirst(s, from, pat, i);
  }

  /** `p = strstr(buf + from, pat); *p = '\0';`: the search runs over the
      buffer as it was before the parser's earlier NUL writes, which all lie
      before `from`; the bytes from `from` up to the match are kept. */
  method CutAt(buf: array<char>, from: nat, pat: CString, ghost before: seq<char>, ghost lo: nat)
    returns (r: Option<nat>)
    requires pat != [] && lo <= from && OnlyNulled(buf[..], before, lo, from)
    modifies buf
    ensures r == Find(before, from, pat)
    ensures r.None? ==> buf[..] == old(buf[..])
    ensures r.Some? ==> buf[r.value] == NUL && SameOutside(buf[..], old(buf[..]), r.value, r.value + 1)
    ensures r.Some? ==> OnlyNulled(buf[..], before, lo, r.value + 1)
    ensures r.Some? ==> buf[from..r.value] == before[from..r.value]
  {
    FindAgree(buf[..], before, from, pat);
    r := Find(buf[..], from, pat);
    if r.Some? {
      assert buf[from..r.value] == before[from..r.value];
      buf[r.value] := NUL;
    }
  }
}
