/** `app/http.c`, request side: the method, version and header scanners
    and `parse_request`, as written and with the corrections their names
    call for. */
module HttpParse {
  import opened Wrappers
  import opened Libc
  import opened Utils
  import opened Vectors
  import opened Http

  /** What `parse_version` compares with. */
  const VERSION_LINE: CString := "HTTP/1.1\r\n"

  /** The table `parse_method` scans, in order. */
  const METHOD_NAMES: seq<CString> := ["GET", "POST"]
  const METHOD_VALUES: seq<Method> := [GET, POST]

  /** `HttpRequest`: the parsed method, the url (a C string inside the
      buffer), the version, the headers in input order, and the offset the
      body pointer designates; the body length is always 0. */
  datatype Request = Request(httpMethod: Method, url: CString, version: Version, headers: seq<Header>, bodyAt: nat)

  /** The request-line token of each method. */
  function MethodName(m: Method): CString
  {
    match m
    case GET => "GET"
    case POST => "POST"
  }

  /** The parsed headers and the offset after the blank line, or the exit
      on the way, with the headers `hs` put in front. */
  function Prepend(hs: seq<Header>, r: Result<(seq<Header>, nat), Fatal>): Result<(seq<Header>, nat), Fatal>
  {
    if r.Success? then Success((hs + r.value.0, r.value.1)) else r
  }

  /** One header line of `parse_headers` at `s`: the key runs to the
      first `": "`, the value from there to the next CRLF, and the scan
      resumes after that CRLF. A missing `": "` or CRLF makes `strstr`
      return NULL, which the source then writes through. */
  function HeaderLineSplit(buf: string, s: nat): (r: Result<(Header, nat), Fatal>)
    ensures r.Success? ==> s < r.value.1 <= |buf|
  {
    match Find(buf, s, ": ")
    case None => Failure(NullDereference)
    case Some(v) =>
      match Find(buf, v + 2, CRLF)
      case None => Failure(NullDereference)
      case Some(e) =>
        var key: CString := buf[s..v];
        var value: CString := buf[v + 2..e];
        Success((Header(key, value), e + 2))
  }

  lemma PrependPrepend(a: seq<Header>, b: seq<Header>, r: Result<(seq<Header>, nat), Fatal>)
    ensures Prepend(a, Prepend(b, r)) == Prepend(a + b, r)
  {
    if r.Success? {
      assert a + (b + r.value.0) == (a + b) + r.value.0;
    }
  }

  /** `parse_headers(buf + s, ...)` on the contents of the buffer: a line
      that starts with CRLF ends the block and is consumed; every other line
      is split into a header and the scan goes on after it. */
  function HeaderLinesAt(buf: string, s: nat): Result<(seq<Header>, nat), Fatal>
    decreases |buf| - s
  {
    if CharAt(buf, s) == '\r' && CharAt(buf, s + 1) == '\n' then Success(([], s + 2))
    else match HeaderLineSplit(buf, s)
      case Failure(f) => Failure(f)
      case Success((h, next)) => Prepend([h], HeaderLinesAt(buf, next))
  }

  /** One round of the scanner: a line other than the blank one is split
      off and the scan resumes after it, or its exit ends the scan. */
  lemma HeaderLinesStep(buf: string, s: nat)
    requires !(CharAt(buf, s) == '\r' && CharAt(buf, s + 1) == '\n')
    ensures HeaderLineSplit(buf, s).Failure? ==> HeaderLinesAt(buf, s) == Failure(HeaderLineSplit(buf, s).error)
    ensures HeaderLineSplit(buf, s).Success? ==>
              HeaderLinesAt(buf, s) == Prepend([HeaderLineSplit(buf, s).value.0], HeaderLinesAt(buf, HeaderLineSplit(buf, s).value.1))
  {
  }

  /** The bytes one round of `parse_headers` at `s` overwrites with NUL:
      the first `": "` from `s`, then the CR of the first CRLF after it; a
      search that fails writes nothing more. */
  ghost function LineCuts(buf: string, s: nat): set<nat>
  {
    match Find(buf, s, ": ")
    case None => {}
    case Some(v) =>
      match Find(buf, v + 2, CRLF)
      case None => {v}
      case Some(e) => {v, e}
  }

  /** The cuts of a round whose two searches both succeed. */
  lemma LineCutsBoth(buf: string, s: nat, v: nat, e: nat)
    requires Find(buf, s, ": ") == Some(v) && Find(buf, v + 2, CRLF) == Some(e)
    ensures LineCuts(buf, s) == {v} + {e}
  {
  }

  /** The bytes `parse_headers(buf + s, ...)` overwrites with NUL: the cuts
      of every line up to the blank one, or up to the line whose split
      fails. */
  ghost function HeaderCuts(buf: string, s: nat): set<nat>
    decreases |buf| - s
  {
    if CharAt(buf, s) == '\r' && CharAt(buf, s + 1) == '\n' then {}
    else
      LineCuts(buf, s) + (
        match HeaderLineSplit(buf, s)
        case Failure(_) => {}
        case Success((_, next)) => HeaderCuts(buf, next))
  }

  /** One round of the scan's writes: none at the blank line; otherwise
      the line's cuts, then, when the line splits, the cuts of the rest of
      the block. */
  lemma HeaderCutsStep(buf: string, s: nat, cuts: set<nat>)
    ensures CharAt(buf, s) == '\r' && CharAt(buf, s + 1) == '\n' ==> cuts + HeaderCuts(buf, s) == cuts
    ensures !(CharAt(buf, s) == '\r' && CharAt(buf, s + 1) == '\n') && HeaderLineSplit(buf, s).Failure? ==>
              cuts + HeaderCuts(buf, s) == cuts + LineCuts(buf, s)
    ensures !(CharAt(buf, s) == '\r' && CharAt(buf, s + 1) == '\n') && HeaderLineSplit(buf, s).Success? ==>
              cuts + HeaderCuts(buf, s) == (cuts + LineCuts(buf, s)) + HeaderCuts(buf, HeaderLineSplit(buf, s).value.1)
  {
  }

  /** Every byte the header scan overwrites starts a `": "` or a CRLF at or
      after the start of the block, and on success lies inside the block it
      consumes, which ends with the blank line's CRLF. */
  lemma {:induction false} HeaderCutsSeparators(buf: string, s: nat)
    ensures forall i :: i in HeaderCuts(buf, s) ==> s <= i && (OccursAt(buf, i, ": ") || OccursAt(buf, i, CRLF))
    ensures HeaderLinesAt(buf, s).Success? ==>
              && s + 2 <= HeaderLinesAt(buf, s).value.1
              && forall i :: i in HeaderCuts(buf, s) ==> i + 2 <= HeaderLinesAt(buf, s).value.1
    decreases |buf| - s
  {
    if !(CharAt(buf, s) == '\r' && CharAt(buf, s + 1) == '\n') {
      HeaderLinesStep(buf, s);
      var split := HeaderLineSplit(buf, s);
      if split.Success? {
        HeaderCutsSeparators(buf, split.value.1);
      }
    }
  }

  /** A header the scanner reads back as written: no `:` in the key, so
      the first `": "` is the separator, and no CR in key or value, so the
      line neither looks like the blank line nor ends early. */
  predicate WellFormedHeader(h: Header)
  {
    ':' !in h.key && '\r' !in h.key && '\r' !in h.value
  }

  /** A field `x` free of the first byte of `pat`, written just before
      `pat`: `strstr` stops right after the field, and the bytes it skips
      are the field. */
  lemma FieldBefore(buf: string, from: nat, x: CString, pat: CString)
    requires pat != [] && pat[0] !in x
    requires OccursAt(buf, from, x + pat)
    ensures Find(buf, from, pat) == Some(from + |x|)
    ensures buf[from..from + |x|] == x
  {
    FindAfter(buf, from, x, pat);
    OccursAtSplit(buf, from, x, pat);
    OccursAtSlice(buf, from, x);
  }

  /** Where `strstr` finds the separator and the line end of a written
      well-formed header line, and what lies between them. */
  lemma HeaderLineFinds(buf: string, s: nat, h: Header)
    requires WellFormedHeader(h)
    requires OccursAt(buf, s, HeaderLine(h))
    ensures Find(buf, s, ": ") == Some(s + |h.key|)
    ensures Find(buf, s + |h.key| + 2, CRLF) == Some(s + |h.key| + 2 + |h.value|)
    ensures buf[s..s + |h.key|] == h.key
    ensures buf[s + |h.key| + 2..s + |h.key| + 2 + |h.value|] == h.value
    ensures !(CharAt(buf, s) == '\r' && CharAt(buf, s + 1) == '\n')
  {
    var v := s + |h.key|;
    assert HeaderLine(h) == h.key + ": " + (h.value + CRLF);
    OccursAtSplit(buf, s, h.key + ": ", h.value + CRLF);
    FieldBefore(buf, s, h.key, ": ");
    FieldBefore(buf, v + 2, h.value, CRLF);
    if h.key != [] {
      assert buf[s + 0] == h.key[0];
    } else {
      assert buf[v + 0] == ": "[0];
    }
  }

  /** The scanner reads a well-formed header line back as its header. */
  lemma HeaderLineAt(buf: string, s: nat, h: Header)
    requires WellFormedHeader(h)
    requires OccursAt(buf, s, HeaderLine(h))
    ensures HeaderLineSplit(buf, s) == Success((h, s + |HeaderLine(h)|))
    ensures !(CharAt(buf, s) == '\r' && CharAt(buf, s + 1) == '\n')
  {
    HeaderLineFinds(buf, s, h);
  }

  /** A line that splits, followed by lines the scanner reads as `rest`:
      the scanner reads the header in front of `rest`. */
  lemma HeaderLinesCons(buf: string, s: nat, h: Header, next: nat, rest: seq<Header>, end: nat)
    requires !(CharAt(buf, s) == '\r' && CharAt(buf, s + 1) == '\n')
    requires HeaderLineSplit(buf, s) == Success((h, next))
    requires HeaderLinesAt(buf, next) == Success((rest, end))
    ensures HeaderLinesAt(buf, s) == Success(([h] + rest, end))
  {
    HeaderLinesStep(buf, s);
  }

  /** The blank line ends the block: the scanner consumes its CRLF and
      reads no header. */
  lemma BlankLineAt(buf: string, s: nat)
    requires OccursAt(buf, s, CRLF)
    ensures HeaderLinesAt(buf, s) == Success(([], s + |CRLF|))
  {
    assert buf[s + 0] == CRLF[0] && buf[s + 1] == CRLF[1];
  }

  /** The header lines of `hs` lie one after the other from `s`, followed
      by the blank line: the header block seen from the front. */
  ghost predicate BlockAt(buf: string, s: nat, hs: seq<Header>)
    decreases |hs|
  {
    if hs == [] then OccursAt(buf, s, CRLF)
    else WellFormedHeader(hs[0]) && OccursAt(buf, s, HeaderLine(hs[0]))
         && BlockAt(buf, s + |HeaderLine(hs[0])|, hs[1..])
  }

  /** The length of the header block of `hs`, counted from the front. */
  function BlockLength(hs: seq<Header>): nat
  {
    if hs == [] then |CRLF| else |HeaderLine(hs[0])| + BlockLength(hs[1..])
  }

  /** A written header block of well-formed headers is read from the front
      line by line. */
  lemma {:induction false} BlockAtOccurrence(buf: string, s: nat, hs: seq<Header>)
    requires forall h :: h in hs ==> WellFormedHeader(h)
    requires OccursAt(buf, s, HeaderBlock(hs))
    ensures BlockAt(buf, s, hs) && BlockLength(hs) == |HeaderBlock(hs)|
    decreases |hs|
  {
    if hs == [] {
      assert HeaderBlock(hs) == CRLF;
    } else {
      HeaderBlockCons(hs);
      OccursAtSplit(buf, s, HeaderLine(hs[0]), HeaderBlock(hs[1..]));
      assert hs[0] in hs;
      BlockAtOccurrence(buf, s + |HeaderLine(hs[0])|, hs[1..]);
    }
  }

  /** One step of reading a block: its first line, then the rest of the
      block as the scanner reads it. */
  lemma BlockStep(buf: string, s: nat, hs: seq<Header>)
    requires hs != [] && BlockAt(buf, s, hs)
    requires HeaderLinesAt(buf, s + |HeaderLine(hs[0])|) == Success((hs[1..], s + |HeaderLine(hs[0])| + BlockLength(hs[1..])))
    ensures HeaderLinesAt(buf, s) == Success((hs, s + BlockLength(hs)))
  {
    var next := s + |HeaderLine(hs[0])|;
    assert [hs[0]] + hs[1..] == hs;
    HeaderLineAt(buf, s, hs[0]);
    HeaderLinesCons(buf, s, hs[0], next, hs[1..], next + BlockLength(hs[1..]));
  }

  /** The scanner reads a header block back as its headers, in order, and
      stops just past the block. */
  lemma {:induction false} HeaderBlockAt(buf: string, s: nat, hs: seq<Header>)
    requires BlockAt(buf, s, hs)
    ensures HeaderLinesAt(buf, s) == Success((hs, s + BlockLength(hs)))
    decreases |hs|
  {
    if hs == [] {
      BlankLineAt(buf, s);
    } else {
      HeaderBlockAt(buf, s + |HeaderLine(hs[0])|, hs[1..]);
      BlockStep(buf, s, hs);
    }
  }

  /** Wherever a header block of well-formed headers occurs, the scanner
      reads it back as its headers, in order, and stops just past it. */
  lemma HeaderBlockOccurs(buf: string, s: nat, hs: seq<Header>)
    requires forall h :: h in hs ==> WellFormedHeader(h)
    requires OccursAt(buf, s, HeaderBlock(hs))
    ensures HeaderLinesAt(buf, s) == Success((hs, s + |HeaderBlock(hs)|))
  {
    BlockAtOccurrence(buf, s, hs);
    HeaderBlockAt(buf, s, hs);
  }

  /** The header scanner reads back what the header writer of the response
      side produces, whatever precedes and follows the block. */
  lemma HeaderBlockRoundTrip(pre: string, hs: seq<Header>, rest: string)
    requires forall h :: h in hs ==> WellFormedHeader(h)
    ensures HeaderLinesAt(pre + HeaderBlock(hs) + rest, |pre|) == Success((hs, |pre| + |HeaderBlock(hs)|))
  {
    var buf := pre + HeaderBlock(hs) + rest;
    OccursAtSlice(buf, |pre|, HeaderBlock(hs));
    assert buf[|pre|..|pre| + |HeaderBlock(hs)|] == HeaderBlock(hs);
    HeaderBlockOccurs(buf, |pre|, hs);
  }

  /** `HeaderLineSplit` once both `strstr` calls have found their target. */
  lemma HeaderLineSplitIs(buf: string, s: nat, v: nat, e: nat)
    requires Find(buf, s, ": ") == Some(v) && Find(buf, v + 2, CRLF) == Some(e)
    ensures HeaderLineSplit(buf, s).Success? && HeaderLineSplit(buf, s).value.1 == e + 2
    ensures HeaderLineSplit(buf, s).value.0.key == buf[s..v]
    ensures HeaderLineSplit(buf, s).value.0.value == buf[v + 2..e]
  {
  }

  /** `p = strstr(buf + from, pat); *p = '\0';` with the caller then
      reading `buf + from` as a C string: the field from `from` up to the
      match, which the written NUL terminates, and the match offset. */
  method CutField(buf: array<char>, from: nat, pat: CString, ghost before: seq<char>, ghost lo: nat)
    returns (r: Option<(CString, nat)>)
    requires pat != [] && lo <= from && OnlyNulled(buf[..], before, lo, from)
    modifies buf
    ensures r.None? <==> Find(before, from, pat).None?
    ensures r.None? ==> buf[..] == old(buf[..])
    ensures r.Some? ==> Find(before, from, pat) == Some(r.value.1) && r.value.0 == before[from..r.value.1]
    ensures r.Some? ==> NulledAt(buf[..], old(buf[..]), {r.value.1}) && OnlyNulled(buf[..], before, lo, r.value.1 + 1)
  {
    var at := CutAt(buf, from, pat, before, lo);
    if at.None? {
      return None;
    }
    NulledOne(buf[..], old(buf[..]), at.value);
    var field: CString := buf[from..at.value];
    r := Some((field, at.value));
  }

  /** The body of the loop of `parse_headers`: splits the line at `s`,
      writing NUL over the colon of its `": "` and over its CR. */
  method ReadHeaderLine(buf: array<char>, s: nat, ghost before: seq<char>, ghost start: nat) returns (r: Result<(Header, nat), Fatal>)
    requires start <= s && OnlyNulled(buf[..], before, start, s)
    modifies buf
    ensures r == HeaderLineSplit(before, s)
    ensures r.Success? ==> OnlyNulled(buf[..], before, start, r.value.1)
    ensures NulledAt(buf[..], old(buf[..]), LineCuts(before, s))
  {
    ghost var initial := buf[..];
    var key := CutField(buf, s, ": ", before, start);
    if key.None? {
      assert LineCuts(before, s) == {};
      return Failure(NullDereference);
    }
    var v := key.value.1;
    ghost var mid := buf[..];
    var value := CutField(buf, v + 2, CRLF, before, start);
    if value.None? {
      assert LineCuts(before, s) == {v};
      return Failure(NullDereference);
    }
    var e := value.value.1;
    NulledCompose(buf[..], mid, initial, {v}, {e});
    LineCutsBoth(before, s, v, e);
    HeaderLineSplitIs(before, s, v, e);
    r := Success((Header(key.value.0, value.value.0), e + 2));
  }

  /** One round of the loop of `parse_headers` past the end test: the line
      at `s` is split and its header pushed onto `headers`; the result is
      the offset of the next line. */
  method ParseHeaderLine(buf: array<char>, s: nat, headers: Vector<Header>, ghost before: seq<char>, ghost lo: nat,
                         ghost initial: seq<char>, ghost cuts: set<nat>)
    returns (r: Result<nat, Fatal>)
    requires headers.Valid() && buf !in headers.Repr
    requires lo <= s && OnlyNulled(buf[..], before, lo, s)
    requires NulledAt(buf[..], initial, cuts)
    modifies buf, headers.Repr
    ensures headers.Valid() && fresh(headers.Repr - old(headers.Repr))
    ensures r.Failure? ==> HeaderLineSplit(before, s) == Failure(r.error)
    ensures r.Success? ==>
              && HeaderLineSplit(before, s).Success? && r.value == HeaderLineSplit(before, s).value.1
              && headers.Elements() == old(headers.Elements()) + [HeaderLineSplit(before, s).value.0]
              && OnlyNulled(buf[..], before, lo, r.value)
    ensures NulledAt(buf[..], initial, cuts + LineCuts(before, s))
  {
    ghost var mid := buf[..];
    var line := ReadHeaderLine(buf, s, before, lo);
    NulledCompose(buf[..], mid, initial, cuts, LineCuts(before, s));
    if line.Failure? {
      return Failure(line.error);
    }
    headers.Push(line.value.0);
    r := Success(line.value.1);
  }

  /** `parse_headers(buf + start, &headers)`: pushes the headers of the
      block at `start` onto `headers` in input order and returns the number
      of bytes consumed; it writes a NUL over the colon of each line's `": "`
      and over its CR, the bytes `HeaderCuts` names, and changes no other
      byte. The scan reads
      the buffer as it was before the caller's own NUL writes, which all lie
      before `start`. */
  method ParseHeaders(buf: array<char>, start: nat, headers: Vector<Header>, ghost before: seq<char>, ghost lo: nat)
    returns (r: Result<nat, Fatal>)
    requires headers.Valid() && buf !in headers.Repr
    requires lo <= start && OnlyNulled(buf[..], before, lo, start)
    modifies buf, headers.Repr
    ensures headers.Valid() && fresh(headers.Repr - old(headers.Repr))
    ensures r.Success? <==> HeaderLinesAt(before, start).Success?
    ensures r.Failure? ==> r == Failure(HeaderLinesAt(before, start).error)
    ensures r.Success? ==>
              && r.value == HeaderLinesAt(before, start).value.1 - start
              && headers.Elements() == old(headers.Elements()) + HeaderLinesAt(before, start).value.0
              && OnlyNulled(buf[..], before, lo, start + r.value)
    ensures NulledAt(buf[..], old(buf[..]), HeaderCuts(before, start))
  {
    ghost var whole := HeaderLinesAt(before, start);
    ghost var acc: seq<Header> := [];
    assert whole == Prepend(acc, whole) by {
      if whole.Success? { assert acc + whole.value.0 == whole.value.0; }
    }
    ghost var initial := buf[..];
    ghost var cuts: set<nat> := {};
    var s := start;
    while true
      invariant headers.Valid() && buf !in headers.Repr && fresh(headers.Repr - old(headers.Repr))
      invariant start <= s && OnlyNulled(buf[..], before, lo, s)
      invariant whole == Prepend(acc, HeaderLinesAt(before, s))
      invariant headers.Elements() == old(headers.Elements()) + acc
      invariant NulledAt(buf[..], initial, cuts) && HeaderCuts(before, start) == cuts + HeaderCuts(before, s)
      decreases buf.Length - s
    {
      HeaderCutsStep(before, s, cuts);
      if CharAt(buf[..], s) == '\r' && CharAt(buf[..], s + 1) == '\n' {
        assert CharAt(before, s) == '\r' && CharAt(before, s + 1) == '\n';
        return Success(s + 2 - start);
      }
      HeaderLinesStep(before, s);
      var next := ParseHeaderLine(buf, s, headers, before, lo, initial, cuts);
      if next.Failure? {
        return Failure(next.error);
      }
      ghost var h := HeaderLineSplit(before, s).value.0;
      PrependPrepend(acc, [h], HeaderLinesAt(before, next.value));
      acc := acc + [h];
      cuts := cuts + LineCuts(before, s);
      s := next.value;
    }
  }

  /** `parse_method` as written: the first table entry that `starts_with`
      accepts. */
  function MethodScanAsWritten(buf: string, i: nat): Result<(Method, nat), Fatal>
    requires i <= |METHOD_NAMES|
    decreases |METHOD_NAMES| - i
  {
    if i == |METHOD_NAMES| then Failure(ExitUnsupportedMethod)
    else
      var later := MethodScanAsWritten(buf, i + 1);
      if StartsWithAsWritten(buf, METHOD_NAMES[i]) then Success((METHOD_VALUES[i], |METHOD_NAMES[i]|))
      else later
  }

  /** The method token `parse_method` reports as written: since
      `starts_with` accepts any buffer, the first entry always wins and the
      token is taken to be `GET`, three bytes long. */
  function MethodTokenAsWritten(buf: string): (r: Result<(Method, nat), Fatal>)
    ensures r == Success((GET, 3))
  {
    MethodScanAsWritten(buf, 0)
  }

  /** `parse_method` with the corrected prefix test. */
  function MethodScan(buf: string, i: nat): Result<(Method, nat), Fatal>
    requires i <= |METHOD_NAMES|
    decreases |METHOD_NAMES| - i
  {
    if i == |METHOD_NAMES| then Failure(ExitUnsupportedMethod)
    else if IsPrefix(METHOD_NAMES[i], buf) then Success((METHOD_VALUES[i], |METHOD_NAMES[i]|))
    else MethodScan(buf, i + 1)
  }

  /** The method token at the start of the buffer: a method whose name the
      buffer starts with, and the length of that name; no method at all
      is fatal. */
  function MethodToken(buf: string): (r: Result<(Method, nat), Fatal>)
    ensures r.Success? <==> IsPrefix("GET", buf) || IsPrefix("POST", buf)
    ensures r.Success? ==> IsPrefix(MethodName(r.value.0), buf) && r.value.1 == |MethodName(r.value.0)|
    ensures r.Failure? ==> r.error == ExitUnsupportedMethod
  {
    MethodScan(buf, 0)
  }

  /** The names `GET` and `POST` are not prefixes of each other, so at most
      one method matches and the token is the one the buffer names. */
  lemma MethodTokenOf(m: Method, rest: string)
    ensures MethodToken(MethodName(m) + rest) == Success((m, |MethodName(m)|))
  {
    var buf := MethodName(m) + rest;
    assert buf[..|MethodName(m)|] == MethodName(m);
    if m == POST {
      assert buf[..3] != "GET" by { assert buf[0] == 'P'; }
    }
  }

  /** `parse_method(buf, &method)` with the corrected `starts_with`. */
  method ParseMethod(buf: string) returns (r: Result<(Method, nat), Fatal>)
    ensures r == MethodToken(buf)
  {
    var i := 0;
    while i < |METHOD_NAMES|
      invariant i <= |METHOD_NAMES|
      invariant MethodScan(buf, i) == MethodToken(buf)
    {
      var found := StartsWith(buf, METHOD_NAMES[i]);
      if found {
        return Success((METHOD_VALUES[i], |METHOD_NAMES[i]|));
      }
      i := i + 1;
    }
    return Failure(ExitUnsupportedMethod);
  }

  /** `parse_version` as written: it is handed the start of the buffer, and
      its `starts_with` test accepts anything, so it always reports
      version 1.1 and a length of 10. */
  function VersionAsWritten(buf: string): (r: Result<(Version, nat), Fatal>)
    ensures r == Success((HTTP1_1, 10))
  {
    var invalid: Result<(Version, nat), Fatal> := Failure(ExitInvalidVersion);
    if !StartsWithAsWritten(buf, VERSION_LINE) then invalid
    else Success((HTTP1_1, |VERSION_LINE|))
  }

  /** `parse_version(buf + s)` with the corrected `starts_with`: the buffer
      reads `HTTP/1.1` and CRLF at `s`. */
  function VersionAt(buf: string, s: nat): (r: Result<(Version, nat), Fatal>)
    ensures r.Success? <==> s + |VERSION_LINE| <= |buf| && buf[s..s + |VERSION_LINE|] == VERSION_LINE
    ensures r.Success? ==> r.value == (HTTP1_1, |VERSION_LINE|)
    ensures r.Failure? ==> r.error == ExitInvalidVersion
  {
    OccursAtSlice(buf, s, VERSION_LINE);
    if !OccursAt(buf, s, VERSION_LINE) then Failure(ExitInvalidVersion)
    else Success((HTTP1_1, |VERSION_LINE|))
  }

  /** The request target after the method token that ends at `n`: a space
      must follow the token, and the url runs to the next space, which
      `strstr` must find. The result is the url and the offset after that
      space. */
  function RequestTarget(buf: string, n: nat): (r: Result<(CString, nat), Fatal>)
    ensures r.Success? ==> CharAt(buf, n) == ' ' && r.value.1 == n + 1 + |r.value.0| + 1 <= |buf|
    ensures r.Success? ==> buf[n + 1..r.value.1 - 1] == r.value.0 && ' ' !in r.value.0 && buf[r.value.1 - 1] == ' '
    ensures r.Failure? ==> r.error == (if CharAt(buf, n) != ' ' then ExitInvalidRequestLine else NullDereference)
  {
    if CharAt(buf, n) != ' ' then Failure(ExitInvalidRequestLine)
    else match Find(buf, n + 1, " ")
      case None => Failure(NullDereference)
      case Some(e) =>
        FindIsFirst(buf, n + 1, " ");
        assert ' ' !in buf[n + 1..e] by {
          forall j | n + 1 <= j < e
            ensures buf[j] != ' '
          {
            assert !OccursAt(buf, j, " ");
          }
        }
        assert buf[e + 0] == " "[0];
        var url: CString := buf[n + 1..e];
        Success((url, e + 1))
  }

  /** The bytes from `s` on, as a C string starting at `buf + s` reads
      them. */
  function Drop(buf: string, s: nat): string
  {
    if s <= |buf| then buf[s..] else []
  }

  /** The end of `parse_request`: the header block at `s` and the request
      it completes, whose body starts right after the block. */
  function HeadersThen(buf: string, m: Method, url: CString, s: nat): (r: Result<Request, Fatal>)
    ensures r.Success? ==> r.value.httpMethod == m && r.value.url == url && r.value.version == HTTP1_1
  {
    match HeaderLinesAt(buf, s)
    case Failure(f) => Failure(f)
    case Success((hs, end)) => Success(Request(m, url, HTTP1_1, hs, end))
  }

  /** `parse_request(buf)` as written after `parse_method`, whose token
      ends at `n`: the version is checked at the start of the buffer and
      counted as ten bytes after the url, neither CRLF test can fail, and
      the method reported is `GET`. */
  function AfterMethodAsWritten(buf: string, n: nat): (r: Result<Request, Fatal>)
  {
    match RequestTarget(buf, n)
    case Failure(f) => Failure(f)
    case Success((url, s)) =>
      if !StartsWithAsWritten(Drop(buf, s), CRLF) then Failure(ExitInvalidLineEnd)
      else match VersionAsWritten(buf)
        case Failure(f) => Failure(f)
        case Success((_, k)) =>
          match HeadersThen(buf, GET, url, s + k)
          case Failure(f) => Failure(f)
          case Success(req) =>
            if !StartsWithAsWritten(Drop(buf, req.bodyAt), CRLF) then Failure(ExitInvalidLineEnd)
            else Success(req)
  }

  /** `parse_request(buf)` as written, on the contents of the buffer: the
      method token is always taken to be three bytes long and the method
      reported is always `GET`. */
  function DecodeRequestAsWritten(buf: string): (r: Result<Request, Fatal>)
    ensures r.Success? ==> r.value.httpMethod == GET && r.value.version == HTTP1_1
  {
    match MethodTokenAsWritten(buf)
    case Failure(f) => Failure(f)
    case Success((_, n)) => AfterMethodAsWritten(buf, n)
  }

  /** `parse_request(buf)` after a corrected `parse_method` whose token
      `m` ends at `n`: the version is checked at the cursor, and there is
      no CRLF test after the version line or after the header block, where
      a working prefix test would reject every well-formed request. */
  function AfterMethod(buf: string, m: Method, n: nat): (r: Result<Request, Fatal>)
  {
    match RequestTarget(buf, n)
    case Failure(f) => Failure(f)
    case Success((url, s)) =>
      match VersionAt(buf, s)
      case Failure(f) => Failure(f)
      case Success((_, k)) => HeadersThen(buf, m, url, s + k)
  }

  /** `parse_request(buf)` as its names and comments describe it: the
      method it parsed, the version read at the cursor. */
  function DecodeRequest(buf: string): (r: Result<Request, Fatal>)
    ensures r.Success? ==> IsPrefix(MethodName(r.value.httpMethod), buf)
  {
    match MethodToken(buf)
    case Failure(f) => Failure(f)
    case Success((m, n)) => AfterMethod(buf, m, n)
  }

  /** The request line a client sends: method, url and version, each
      followed by a space, the last by CRLF. */
  function RequestLine(m: Method, url: CString): CString
  {
    MethodName(m) + " " + url + " " + VERSION_LINE
  }

  /** The request line of a request as a client sends it, read at the
      start of `buf`: its method token, its url, its version. */
  lemma RequestLineAt(buf: string, m: Method, url: CString)
    requires ' ' !in url
    requires OccursAt(buf, 0, RequestLine(m, url))
    ensures var n := |MethodName(m)|;
            && MethodToken(buf) == Success((m, n))
            && RequestTarget(buf, n) == Success((url, n + |url| + 2))
            && VersionAt(buf, n + |url| + 2) == Success((HTTP1_1, |VERSION_LINE|))
  {
    var name := MethodName(m);
    var n := |name|;
    OccursAtSplit(buf, 0, name + " " + url + " ", VERSION_LINE);
    assert name + " " + url + " " == name + (" " + (url + " "));
    OccursAtSplit(buf, 0, name, " " + (url + " "));
    OccursAtSplit(buf, n, " ", url + " ");
    assert buf[n + 0] == " "[0];
    FindAfter(buf, n + 1, url, " ");
    OccursAtSplit(buf, n + 1, url, " ");
    OccursAtSlice(buf, n + 1, url);
    OccursAtSlice(buf, 0, name);
    assert buf[..n] == buf[0..n];
    if m == POST {
      assert buf[..3] != "GET" by { assert buf[0 + 0] == name[0]; }
    }
  }

  /** A buffer that starts with a request line and continues with a
      header block the scanner reads is decoded to that request. */
  lemma DecodeRequestAt(buf: string, m: Method, url: CString, hs: seq<Header>, end: nat)
    requires ' ' !in url
    requires OccursAt(buf, 0, RequestLine(m, url))
    requires HeaderLinesAt(buf, |RequestLine(m, url)|) == Success((hs, end))
    ensures DecodeRequest(buf) == Success(Request(m, url, HTTP1_1, hs, end))
  {
    RequestLineAt(buf, m, url);
  }

  /** The corrected parser reads back every request whose url holds no
      space and whose headers are well formed, whatever body follows: its
      method, url, version and headers, with the body starting right after
      the header block. */
  lemma DecodeRequestRoundTrip(buf: string, m: Method, url: CString, hs: seq<Header>)
    requires ' ' !in url && forall h :: h in hs ==> WellFormedHeader(h)
    requires OccursAt(buf, 0, RequestLine(m, url) + HeaderBlock(hs))
    ensures DecodeRequest(buf) == Success(Request(m, url, HTTP1_1, hs, |RequestLine(m, url) + HeaderBlock(hs)|))
  {
    OccursAtSplit(buf, 0, RequestLine(m, url), HeaderBlock(hs));
    DecodeLineThenBlock(buf, m, url, hs);
  }

  /** The same, with the request line and the header block found one after
      the other. */
  lemma DecodeLineThenBlock(buf: string, m: Method, url: CString, hs: seq<Header>)
    requires ' ' !in url && forall h :: h in hs ==> WellFormedHeader(h)
    requires OccursAt(buf, 0, RequestLine(m, url))
    requires OccursAt(buf, |RequestLine(m, url)|, HeaderBlock(hs))
    ensures DecodeRequest(buf) == Success(Request(m, url, HTTP1_1, hs, |RequestLine(m, url)| + |HeaderBlock(hs)|))
  {
    HeaderBlockOccurs(buf, |RequestLine(m, url)|, hs);
    DecodeRequestAt(buf, m, url, hs, |RequestLine(m, url)| + |HeaderBlock(hs)|);
  }

  /** Where the corrected parser accepts a request that starts with `GET`,
      the parser as written returns the same request. */
  lemma AsWrittenAgreesOnGet(buf: string)
    requires IsPrefix("GET", buf)
    ensures DecodeRequest(buf).Success? ==> DecodeRequestAsWritten(buf) == DecodeRequest(buf)
  {
    assert !IsPrefix("POST", buf) by { assert buf[0] == 'G'; }
  }

  /** The parser as written rejects every `POST` request, since it takes
      the method token to be three bytes and finds `T` where the space
      should be, while the corrected parser reads it back. */
  lemma AsWrittenRejectsPost(buf: string, url: CString, hs: seq<Header>)
    requires ' ' !in url && forall h :: h in hs ==> WellFormedHeader(h)
    requires OccursAt(buf, 0, RequestLine(POST, url) + HeaderBlock(hs))
    ensures DecodeRequestAsWritten(buf) == Failure(ExitInvalidRequestLine)
    ensures DecodeRequest(buf).Success? && DecodeRequest(buf).value.httpMethod == POST
  {
    assert buf[0 + 3] == (RequestLine(POST, url) + HeaderBlock(hs))[3];
    DecodeRequestRoundTrip(buf, POST, url, hs);
  }

  /** The url `/` after a three-byte method token. */
  lemma RootTarget(buf: string)
    requires |buf| >= 6 && buf[3] == ' ' && buf[4] == '/' && buf[5] == ' '
    ensures RequestTarget(buf, 3) == Success(("/", 6))
  {
    assert OccursAt(buf, 4, "/" + " ") by {
      assert buf[4 + 0] == ("/" + " ")[0] && buf[4 + 1] == ("/" + " ")[1];
    }
    FindAfter(buf, 4, "/", " ");
    assert buf[4..5] == "/";
  }

  /** The parser as written accepts a method it does not support and
      reports it as `GET`; the corrected parser stops with the
      unsupported-method exit. */
  lemma AsWrittenAcceptsPut()
    ensures DecodeRequestAsWritten("PUT / HTTP/1.1\r\n\r\n") == Success(Request(GET, "/", HTTP1_1, [], 18))
    ensures DecodeRequest("PUT / HTTP/1.1\r\n\r\n") == Failure(ExitUnsupportedMethod)
  {
    var buf := "PUT / HTTP/1.1\r\n\r\n";
    assert buf[..3] != "GET" && buf[..4] != "POST" by { assert buf[0] == 'P' && buf[1] == 'U'; }
    RootTarget(buf);
    assert HeaderLinesAt(buf, 16) == Success(([], 18));
  }

  /** The parser as written never looks at the version after the url:
      `HTTP/2.0` passes as 1.1. */
  lemma AsWrittenIgnoresVersion()
    ensures DecodeRequestAsWritten("GET / HTTP/2.0\r\n\r\n") == Success(Request(GET, "/", HTTP1_1, [], 18))
  {
    var buf := "GET / HTTP/2.0\r\n\r\n";
    RootTarget(buf);
    assert HeaderLinesAt(buf, 16) == Success(([], 18));
  }

  /** The corrected parser rejects that request with the invalid-version
      exit. */
  lemma VersionCheckedAtCursor()
    ensures DecodeRequest("GET / HTTP/2.0\r\n\r\n") == Failure(ExitInvalidVersion)
  {
    var buf := "GET / HTTP/2.0\r\n\r\n";
    assert buf[..3] == "GET";
    RootTarget(buf);
    assert !OccursAt(buf, 6, VERSION_LINE) by { assert buf[6 + 5] != VERSION_LINE[5]; }
  }

  /** The request line of `parse_request` up to the url: checks the space
      after the method token that ends at `n`, writes a NUL over the space
      that ends the url, and returns the url and the offset after it
      (`s += strlen(url) + 1`). */
  method ReadRequestTarget(buf: array<char>, n: nat) returns (r: Result<(CString, nat), Fatal>)
    modifies buf
    ensures r == RequestTarget(old(buf[..]), n)
    ensures r.Success? ==> buf[r.value.1 - 1] == NUL && SameOutside(buf[..], old(buf[..]), r.value.1 - 1, r.value.1)
    ensures r.Failure? ==> buf[..] == old(buf[..])
    ensures r.Success? ==> OnlyNulled(buf[..], old(buf[..]), n + 1, r.value.1)
  {
    if CharAt(buf[..], n) != ' ' {
      return Failure(ExitInvalidRequestLine);
    }
    ghost var before := buf[..];
    var end := CutAt(buf, n + 1, " ", before, n + 1);
    if end.None? {
      return Failure(NullDereference);
    }
    var url: CString := buf[n + 1..end.value];
    r := Success((url, n + 1 + |url| + 1));
  }

  /** The header part of `parse_request`: a fresh header vector filled by
      `parse_headers` from `s`, and the request it completes. */
  method ReadHeadersThen(buf: array<char>, m: Method, url: CString, s: nat, ghost before: seq<char>)
    returns (r: Result<Request, Fatal>)
    requires OnlyNulled(buf[..], before, 0, s)
    modifies buf
    ensures r == HeadersThen(before, m, url, s)
    ensures r.Success? ==> OnlyNulled(buf[..], before, 0, r.value.bodyAt)
  {
    ghost var block := HeaderLinesAt(before, s);
    var headers := new Vector<Header>();
    var consumed := ParseHeaders(buf, s, headers, before, 0);
    if consumed.Failure? {
      r := Failure(consumed.error);
      assert HeadersThen(before, m, url, s) == Failure(block.error);
      return;
    }
    var hs := headers.Elements();
    var end := s + consumed.value;
    assert hs == block.value.0 by {
      assert [] + block.value.0 == block.value.0;
    }
    assert end == block.value.1;
    assert HeadersThen(before, m, url, s) == Success(Request(m, url, HTTP1_1, block.value.0, block.value.1));
    r := Success(Request(m, url, HTTP1_1, hs, end));
  }

  /** `parse_request(buf)` as written. Its method token, its version and
      both CRLF tests come out the same for every buffer, so they are
      taken as the values `MethodTokenAsWritten` and `VersionAsWritten`
      give; the url and the header names and values stay in the buffer,
      cut off by the NULs the scan writes. */
  method ParseRequestAsWritten(buf: array<char>) returns (r: Result<Request, Fatal>)
    modifies buf
    ensures r == DecodeRequestAsWritten(old(buf[..]))
    ensures r.Success? ==> OnlyNulled(buf[..], old(buf[..]), 0, r.value.bodyAt)
  {
    ghost var before := buf[..];
    var (_, n) := MethodTokenAsWritten(buf[..]).value;
    var target := ReadRequestTarget(buf, n);
    if target.Failure? {
      return Failure(target.error);
    }
    var (url, s) := target.value;
    var (_, k) := VersionAsWritten(buf[..]).value;
    r := ReadHeadersThen(buf, GET, url, s + k, before);
  }

  /** `parse_request(buf)` with the corrected `starts_with`, the version
      read at the cursor and the parsed method reported. */
  method ParseRequest(buf: array<char>) returns (r: Result<Request, Fatal>)
    modifies buf
    ensures r == DecodeRequest(old(buf[..]))
    ensures r.Success? ==> OnlyNulled(buf[..], old(buf[..]), 0, r.value.bodyAt)
  {
    ghost var before := buf[..];
    var token := ParseMethod(buf[..]);
    if token.Failure? {
      return Failure(token.error);
    }
    var (m, n) := token.value;
    var target := ReadRequestTarget(buf, n);
    if target.Failure? {
      return Failure(target.error);
    }
    var (url, s) := target.value;
    var version := VersionAt(buf[..], s);
    assert version == VersionAt(before, s) by {
      assert forall k :: s <= k < |before| ==> buf[k] == before[k];
    }
    if version.Failure? {
      return Failure(version.error);
    }
    r := ReadHeadersThen(buf, m, url, s + version.value.1, before);
  }
}
