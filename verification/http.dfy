/** `app/http.c`, response side: the message types and the serialiser that
    writes a response into the caller's output buffer. */
module Http {
  import opened Wrappers
  import opened Libc
  import opened Vectors

  datatype Method = GET | POST

  datatype Version = HTTP1_1

  datatype Status = OK | CREATED | BAD_REQ | NOT_FOUND

  /** `HttpHeader`: a key and a value, each a C string. */
  datatype Header = Header(key: CString, value: CString)

  /** `HttpBody`: a NULL body, or a pointer to `|data|` bytes. */
  datatype Body = Null | Bytes(data: string)
  {
    /** The `len` bytes the body pointer designates. */
    function Data(): string
    {
      if Null? then [] else data
    }
  }

  /** The value of an `HttpResponse`: its header vector is represented by
      the sequence of headers it holds. */
  datatype ResponseData = ResponseData(version: Version, status: Status, headers: seq<Header>, body: Body)

  /** `init_response(status)`: version 1.1, the given status, no headers and
      a NULL body of length 0. */
  function InitResponse(status: Status): ResponseData
  {
    ResponseData(HTTP1_1, status, [], Null)
  }

  /** What `write_version` writes. */
  function VersionText(v: Version): CString
  {
    match v
    case HTTP1_1 => "HTTP/1.1"
  }

  /** What `write_status` writes; `None` where it calls `exit(1)`, which
      includes `CREATED`. */
  function StatusText(s: Status): Option<CString>
  {
    match s
    case OK => Some("200 OK")
    case BAD_REQ => Some("400 Bad Request")
    case NOT_FOUND => Some("404 Not Found")
    case CREATED => None
  }

  /** The three-digit code of each status. */
  function StatusCode(s: Status): nat
  {
    match s
    case OK => 200
    case CREATED => 201
    case BAD_REQ => 400
    case NOT_FOUND => 404
  }

  /** `write_status` with the `CREATED` case that `handle_file_post`
      relies on: every status has a line, made of its code, a space and
      its reason phrase, and the three statuses the source handles keep
      their lines. */
  function StatusTextCorrected(s: Status): (t: CString)
    ensures |t| > 4 && AllDigits(t[..3]) && t[3] == ' '
    ensures s != CREATED ==> StatusText(s) == Some(t)
  {
    match s
    case OK => "200 OK"
    case CREATED => "201 Created"
    case BAD_REQ => "400 Bad Request"
    case NOT_FOUND => "404 Not Found"
  }

  /** The first three bytes of each status line are the status code in
      decimal. */
  lemma {:induction false} StatusLineCode(s: Status)
    ensures StatusTextCorrected(s)[..3] == Decimal(StatusCode(s))
    ensures DecimalValue(StatusTextCorrected(s)[..3]) == StatusCode(s)
  {
    match s {
      case OK => assert Decimal(200) == "200";
      case CREATED => assert Decimal(201) == "201";
      case BAD_REQ => assert Decimal(400) == "400";
      case NOT_FOUND => assert Decimal(404) == "404";
    }
    DecimalRoundTrip(StatusCode(s));
  }

  /** One `"%s: %s\r\n"` line of `write_headers`. */
  function HeaderLine(h: Header): CString
  {
    h.key + ": " + h.value + CRLF
  }

  /** The header lines, in vector order. */
  function HeaderLines(hs: seq<Header>): CString
  {
    if hs == [] then [] else HeaderLines(hs[..|hs| - 1]) + HeaderLine(hs[|hs| - 1])
  }

  /** What `write_headers` writes: the header lines and one terminating
      CRLF. */
  function HeaderBlock(hs: seq<Header>): CString
  {
    HeaderLines(hs) + CRLF
  }

  /** The bytes `write_response` puts in the buffer: version, one space,
      status text, CRLF, header block, body; or the exit of `write_status`. */
  function Encode(r: ResponseData): Result<string, Fatal>
  {
    match StatusText(r.status)
    case None => Failure(ExitUnsupportedStatus)
    case Some(t) => Success(VersionText(r.version) + " " + t + CRLF + HeaderBlock(r.headers) + r.body.Data())
  }

  lemma {:induction false} HeaderLinesSplit(hs: seq<Header>, i: nat)
    requires i <= |hs|
    ensures HeaderLines(hs) == HeaderLines(hs[..i]) + HeaderLines(hs[i..])
    decreases |hs|
  {
    if i < |hs| {
      var init := hs[..|hs| - 1];
      HeaderLinesSplit(init, i);
      assert init[..i] == hs[..i];
      assert hs[i..] == init[i..] + [hs[|hs| - 1]];
      assert hs[i..][..|hs[i..]| - 1] == init[i..];
    } else {
      assert hs[..i] == hs;
    }
  }

  /** The header block seen from the front: the first header's line, then
      the block of the others. */
  lemma HeaderBlockCons(hs: seq<Header>)
    requires hs != []
    ensures HeaderBlock(hs) == HeaderLine(hs[0]) + HeaderBlock(hs[1..])
  {
    HeaderLinesSplit(hs, 1);
    assert HeaderLines(hs[..1]) == HeaderLine(hs[0]) by {
      assert hs[..1][..0] == [];
    }
  }

  /** An empty response encodes to its status line and an empty header
      block, and `init_response(CREATED)` cannot be written at all. */
  lemma InitResponseEncoding(status: Status)
    ensures status != CREATED ==>
              Encode(InitResponse(status)) == Success("HTTP/1.1 " + StatusText(status).value + "\r\n\r\n")
    ensures status == CREATED ==> Encode(InitResponse(status)) == Failure(ExitUnsupportedStatus)
  {
    assert HeaderBlock([]) == CRLF;
    if status != CREATED {
      var t := StatusText(status).value;
      calc {
        Encode(InitResponse(status)).value;
        "HTTP/1.1" + " " + t + CRLF + CRLF + [];
        { assert "HTTP/1.1" + " " == "HTTP/1.1 " && CRLF + CRLF == "\r\n\r\n"; }
        "HTTP/1.1 " + t + "\r\n\r\n";
      }
    }
  }

  /** `init_response(OK)`, written as is, is `HTTP/1.1 200 OK` and two
      CRLFs. */
  lemma InitResponseOk()
    ensures Encode(InitResponse(OK)) == Success("HTTP/1.1 200 OK\r\n\r\n")
  {
    InitResponseEncoding(OK);
    assert "HTTP/1.1 " + "200 OK" + "\r\n\r\n" == "HTTP/1.1 200 OK\r\n\r\n";
  }

  /** The bytes `write_response` would put in the buffer if `write_status`
      had the `CREATED` case: the same bytes wherever the source writes
      any, and a status line that begins with the three-digit code. */
  function EncodeCorrected(r: ResponseData): (out: string)
    ensures StatusText(r.status).Some? ==> Encode(r) == Success(out)
  {
    VersionText(r.version) + " " + StatusTextCorrected(r.status) + CRLF + HeaderBlock(r.headers) + r.body.Data()
  }

  /** Every corrected encoding carries the status code in decimal at
      bytes 9 to 11, right after `HTTP/1.1 `. */
  lemma EncodeCorrectedCode(r: ResponseData)
    ensures var out := EncodeCorrected(r);
            |out| > 12 && out[..9] == "HTTP/1.1 " && DecimalValue(out[9..12]) == StatusCode(r.status)
  {
    var out := EncodeCorrected(r);
    var t := StatusTextCorrected(r.status);
    StatusLineCode(r.status);
    assert out == "HTTP/1.1 " + (t + CRLF + HeaderBlock(r.headers) + r.body.Data());
    assert out[9..12] == t[..3];
  }

  /** The output buffer holds `expected` at its start and the byte count
      matches, or both report the same exit. */
  ghost predicate Written(out: seq<char>, r: Result<nat, Fatal>, expected: Result<string, Fatal>)
  {
    match expected
    case Success(bytes) => r == Success(|bytes|) && |bytes| <= |out| && out[..|bytes|] == bytes
    case Failure(e) => r == Failure(e)
  }

  /** `write_endline(buf + off)`. */
  method WriteEndline(buf: array<char>, off: nat) returns (n: nat)
    requires off + |CRLF| <= buf.Length
    modifies buf
    ensures n == |CRLF| && buf[off..off + n] == CRLF
    ensures SameOutside(buf[..], old(buf[..]), off, off + n)
  {
    MemCopy(buf, off, CRLF);
    n := |CRLF|;
  }

  /** `write_version(buf + off, v)`. */
  method WriteVersion(buf: array<char>, off: nat, v: Version) returns (n: nat)
    requires off + |VersionText(v)| <= buf.Length
    modifies buf
    ensures n == |VersionText(v)| && buf[off..off + n] == VersionText(v)
    ensures SameOutside(buf[..], old(buf[..]), off, off + n)
  {
    match v
    case HTTP1_1 =>
      MemCopy(buf, off, "HTTP/1.1");
      n := |"HTTP/1.1"|;
  }

  /** `write_status(buf + off, s)`: the status text, or `exit(1)` with
      nothing written. */
  method WriteStatus(buf: array<char>, off: nat, s: Status) returns (r: Result<nat, Fatal>)
    requires StatusText(s).Some? ==> off + |StatusText(s).value| <= buf.Length
    modifies buf
    ensures r.Success? <==> StatusText(s).Some?
    ensures r.Failure? ==> r.error == ExitUnsupportedStatus && buf[..] == old(buf[..])
    ensures r.Success? ==> r.value == |StatusText(s).value| && buf[off..off + r.value] == StatusText(s).value
    ensures r.Success? ==> SameOutside(buf[..], old(buf[..]), off, off + r.value)
  {
    match s
    case OK =>
      MemCopy(buf, off, "200 OK");
      r := Success(|"200 OK"|);
    case BAD_REQ =>
      MemCopy(buf, off, "400 Bad Request");
      r := Success(|"400 Bad Request"|);
    case NOT_FOUND =>
      MemCopy(buf, off, "404 Not Found");
      r := Success(|"404 Not Found"|);
    case CREATED =>
      r := Failure(ExitUnsupportedStatus);
  }

  /** The lines of `hs[..i + 1]` are those of `hs[..i]` and one more. */
  lemma HeaderLinesSnoc(hs: seq<Header>, i: nat)
    requires i < |hs|
    ensures HeaderLines(hs[..i + 1]) == HeaderLines(hs[..i]) + HeaderLine(hs[i])
    ensures |HeaderLines(hs[..i + 1])| <= |HeaderLines(hs)|
  {
    assert hs[..i + 1][..i] == hs[..i];
    HeaderLinesSplit(hs, i + 1);
  }

  /** One iteration of `write_headers`: the `sprintf` of header `hs[i]`
      right after the lines of `hs[..i]`. */
  method WriteHeaderLine(buf: array<char>, off: nat, size: nat, ghost hs: seq<Header>, i: nat, h: Header,
                         ghost start: seq<char>)
    returns (k: nat)
    requires i < |hs| && h == hs[i]
    requires size == |HeaderLines(hs[..i])| && off + |HeaderLines(hs)| + |CRLF| <= buf.Length
    requires off + size <= buf.Length && buf[off..off + size] == HeaderLines(hs[..i])
    requires SameOutside(buf[..], start, off, off + size + 1)
    modifies buf
    ensures size + k == |HeaderLines(hs[..i + 1])| && off + size + k < buf.Length
    ensures buf[off..off + size + k] == HeaderLines(hs[..i + 1])
    ensures SameOutside(buf[..], start, off, off + size + k + 1)
  {
    HeaderLinesSnoc(hs, i);
    ghost var before := buf[..];
    k := SPrint(buf, off + size, HeaderLine(h));
    AppendAfter(buf[..], before, start, off, HeaderLines(hs[..i]), HeaderLine(h));
  }

  /** The loop of `write_headers`: one `sprintf` per element of the
      vector's storage `ptr[0] .. ptr[len - 1]`, in order; each also writes
      a NUL that the next write covers. */
  method WriteHeaderLines(buf: array<char>, off: nat, ptr: array?<Header>, len: nat, ghost hs: seq<Header>)
    returns (size: nat)
    requires len == |hs| && (len > 0 ==> ptr != null && len <= ptr.Length && ptr[..len] == hs)
    requires off + |HeaderLines(hs)| + |CRLF| <= buf.Length
    modifies buf
    ensures size == |HeaderLines(hs)| && buf[off..off + size] == HeaderLines(hs)
    ensures SameOutside(buf[..], old(buf[..]), off, off + size + 1)
  {
    ghost var start := buf[..];
    size := 0;
    var i := 0;
    while i < len
      invariant i <= len
      invariant size == |HeaderLines(hs[..i])|
      invariant off + size <= buf.Length && buf[off..off + size] == HeaderLines(hs[..i])
      invariant SameOutside(buf[..], start, off, off + size + 1)
    {
      assert ptr[i] == hs[i];
      var k := WriteHeaderLine(buf, off, size, hs, i, ptr[i], start);
      size := size + k;
      i := i + 1;
    }
    assert hs[..i] == hs;
  }

  /** `write_headers(buf + off, headers)`: the line of every header in
      vector order, then the terminating CRLF. */
  method WriteHeaders(buf: array<char>, off: nat, headers: Vector<Header>) returns (n: nat)
    requires headers.Valid()
    requires off + |HeaderBlock(headers.Elements())| <= buf.Length
    modifies buf
    ensures n == |HeaderBlock(headers.Elements())| && buf[off..off + n] == HeaderBlock(headers.Elements())
    ensures SameOutside(buf[..], old(buf[..]), off, off + n)
  {
    ghost var hs := headers.Elements();
    var size := WriteHeaderLines(buf, off, headers.ptr, headers.len, hs);
    ghost var before := buf[..];
    var e := WriteEndline(buf, off + size);
    AppendWrite(buf[..], before, off, off + size, off + size + e, CRLF);
    n := size + e;
  }

  /** `write_body(buf + off, body)`: exactly `body.len` bytes. */
  method WriteBody(buf: array<char>, off: nat, body: Body) returns (n: nat)
    requires off + |body.Data()| <= buf.Length
    modifies buf
    ensures n == |body.Data()| && buf[off..off + n] == body.Data()
    ensures SameOutside(buf[..], old(buf[..]), off, off + n)
  {
    MemCopy(buf, off, body.Data());
    n := |body.Data()|;
  }

  /** `HttpResponse`: version, status, the header vector it owns, body. */
  class Response {
    var version: Version
    var status: Status
    var headers: Vector<Header>
    var body: Body
    ghost var Repr: set<object>

    ghost predicate Valid()
      reads this, Repr
    {
      && this in Repr
      && headers in Repr && headers.Repr <= Repr && this !in headers.Repr
      && headers.Valid()
    }

    /** The response as a value. */
    ghost function Value(): ResponseData
      reads this, Repr
      requires Valid()
    {
      ResponseData(version, status, headers.Elements(), body)
    }

    /** `init_response(status)`. */
    constructor (status: Status)
      ensures Valid() && fresh(Repr)
      ensures Value() == InitResponse(status)
    {
      version := HTTP1_1;
      this.status := status;
      headers := new Vector<Header>();
      body := Null;
      new;
      Repr := {this} + headers.Repr;
    }

    /** `push_vector_HttpHeader(&resp.headers.headers, h)`. */
    method PushHeader(h: Header)
      requires Valid()
      modifies Repr
      ensures Valid() && fresh(Repr - old(Repr))
      ensures Value() == old(Value()).(headers := old(Value()).headers + [h])
    {
      headers.Push(h);
      Repr := Repr + headers.Repr;
    }

    /** `resp.body = body`. */
    method SetBody(b: Body)
      requires Valid()
      modifies this
      ensures Valid() && Repr == old(Repr)
      ensures Value() == old(Value()).(body := b)
    {
      body := b;
    }

    /** `free_http_response(resp)`: frees the header vector. */
    method Free()
      requires Valid()
      modifies Repr
      ensures Valid() && fresh(Repr - old(Repr))
      ensures Value() == old(Value()).(headers := [])
    {
      headers.Free();
    }
  }

  /** The first part of `write_response`: version, a space, the status text
      and a CRLF at the start of the buffer. Before the status is written,
      the byte after the space is set to NUL, and `write_status`
      overwrites it. */
  method WriteStatusLine(buf: array<char>, version: Version, status: Status) returns (r: Result<nat, Fatal>)
    requires |VersionText(version)| + 2 <= buf.Length
    requires StatusText(status).Some? ==>
               |VersionText(version) + " " + StatusText(status).value + CRLF| <= buf.Length
    modifies buf
    ensures r.Success? <==> StatusText(status).Some?
    ensures r.Failure? ==> r.error == ExitUnsupportedStatus
    ensures r.Success? ==>
              var line := VersionText(version) + " " + StatusText(status).value + CRLF;
              r.value == |line| && buf[..r.value] == line
    ensures r.Success? ==> SameOutside(buf[..], old(buf[..]), 0, r.value)
  {
    ghost var initial := buf[..];
    var s := WriteVersion(buf, 0, version);
    buf[s] := ' ';
    buf[s + 1] := NUL;
    s := s + 1;
    assert SameOutside(buf[..], initial, 0, s + 1);
    ghost var out := VersionText(version) + " ";
    assert buf[..s] == out;
    ghost var before := buf[..];
    var st := WriteStatus(buf, s, status);
    if st.Failure? {
      return Failure(st.error);
    }
    ghost var t := StatusText(status).value;
    AppendWrite(buf[..], before, 0, s, s + st.value, t);
    SameOutsideTrans(buf[..], before, initial, 0, s + st.value, 0, s + 1, s, s + st.value);
    s, out := s + st.value, out + t;
    before := buf[..];
    var e := WriteEndline(buf, s);
    AppendWrite(buf[..], before, 0, s, s + e, CRLF);
    SameOutsideTrans(buf[..], before, initial, 0, s + e, 0, s, s, s + e);
    r := Success(s + e);
  }

  /** The body of `write_response` on the fields of the response: the
      status line, header block and body at increasing offsets; the count
      returned is the sum of the parts. */
  method WriteParts(buf: array<char>, version: Version, status: Status, headers: Vector<Header>, ghost hs: seq<Header>, body: Body)
    returns (r: Result<nat, Fatal>)
    requires headers.Valid() && buf !in headers.Repr && headers.Elements() == hs
    requires |VersionText(version)| + 2 <= buf.Length
    requires Encode(ResponseData(version, status, hs, body)).Success? ==>
               |Encode(ResponseData(version, status, hs, body)).value| <= buf.Length
    modifies buf
    ensures Written(buf[..], r, Encode(ResponseData(version, status, hs, body)))
    ensures r.Success? ==> SameOutside(buf[..], old(buf[..]), 0, r.value)
  {
    ghost var initial := buf[..];
    var line := WriteStatusLine(buf, version, status);
    if line.Failure? {
      return Failure(line.error);
    }
    var s := line.value;
    assert headers.Elements() == hs;
    ghost var out := VersionText(version) + " " + StatusText(status).value + CRLF;
    assert Encode(ResponseData(version, status, hs, body)) == Success(out + HeaderBlock(hs) + body.Data());
    assert s == |out| && s + |HeaderBlock(hs)| + |body.Data()| <= buf.Length;
    ghost var before := buf[..];
    var h := WriteHeaders(buf, s, headers);
    Adjacent(buf[..], before, initial, s, s + h, out, HeaderBlock(hs));
    s, out := s + h, out + HeaderBlock(hs);
    before := buf[..];
    var b := WriteBody(buf, s, body);
    Adjacent(buf[..], before, initial, s, s + b, out, body.Data());
    r := Success(s + b);
  }

  /** `write_response(buf, resp)`. */
  method WriteResponse(buf: array<char>, resp: Response) returns (r: Result<nat, Fatal>)
    requires resp.Valid() && buf !in resp.Repr
    requires |VersionText(resp.version)| + 2 <= buf.Length
    requires Encode(resp.Value()).Success? ==> |Encode(resp.Value()).value| <= buf.Length
    modifies buf
    ensures Written(buf[..], r, Encode(resp.Value()))
    ensures r.Success? ==> SameOutside(buf[..], old(buf[..]), 0, r.value)
  {
    r := WriteParts(buf, resp.version, resp.status, resp.headers, resp.headers.Elements(), resp.body);
  }
}
