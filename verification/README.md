# A verified model of a small HTTP/1.1 server core

This project models, in Dafny, the request-handling core of a small HTTP/1.1
server written in C. It covers:

- **String helpers** (`app/utils.c`): the prefix test `starts_with` and the
  single-wildcard path matcher `starts_with_wildcard` that the router is
  built on.
- **The growable vector** (`app/vector.h`): the `INIT_VECTOR(X)` macro family.
  This is a class with `ptr`, `len` and `capacity`. The first allocation has
  4 slots, and a full vector doubles.
- **Response writing** (`app/http.c`): `init_response`, the writers
  `write_version`, `write_status`, `write_headers`, `write_body` and
  `write_endline`, and `write_response`. They fill a caller-supplied output
  buffer (an `array<char>`) at increasing offsets.
- **Request parsing** (`app/http.c`): `parse_method`, `parse_version`,
  `parse_headers` and `parse_request`. They read a request in place and write
  NUL terminators over the separators.
- **Routing** (`app/routes.c`): the route table, the first-match dispatcher
  `handle_routes`, and the five handlers. Also `write_response_helper`, which
  adds `Content-Length`, and the not-found and bad-request responses.
- **The task queue** (`app/thread.c`): `init_queue`, `add_task`, `pop_task`
  and `free_queue`. This is a singly linked list with `head` and `last`
  pointers, modelled one operation at a time.

Conventions:

- A C string is modelled by its contents (`CString`, a string without NUL).
- Reading past the data of a zero-filled buffer yields NUL (`Libc.CharAt`).
- `strstr` is `Libc.Find`, and `sprintf("%zu")` is `Libc.Decimal`.
- Every way the C code stops the process becomes a `Failure` of `Libc.Fatal`:
  `exit(1)`, a write through a NULL returned by `strstr`, a failed
  `assert`, or a read before the start of a string.
- Each imperative operation is a method, proved against a specification
  function on values:
  - `WriteResponse` writes `Encode(resp)`.
  - `ParseRequest` returns `DecodeRequest(buf)`.
  - `HandleRoutes` writes `RouteOutput(req, ...)`.
- The properties are then proved about those functions.

Several functions behave differently from what their names promise. Each of
these is modelled twice: once as written, and once corrected. A lemma shows
where the two differ (see "Findings").

- `starts_with` returns true for any non-empty prefix, whatever the buffer
  holds. As a consequence, as written:
  - `parse_method` always reports `GET` with a three-byte token;
  - `parse_version` is handed the start of the buffer and accepts anything;
  - both CRLF tests in `parse_request` pass.

  The corrected parser (`HttpParse.DecodeRequest`, `HttpParse.ParseRequest`)
  has four differences:
  - it uses the prefix test as its name intends;
  - it reports the method it parsed;
  - it checks the version at the cursor;
  - it has no CRLF test after the version line or after the header block.

  Those two tests stand where a working prefix test would reject every
  well-formed request. The first falls on the version text. The second falls
  after the blank line that `parse_headers` has already consumed.
- The router and the handlers keep the `write_status` of the source, which has
  no case for 201. The corrected status line is `Http.EncodeCorrected`.
- The queue keeps both `add_task` as written (`AddTaskAsWritten`) and the
  linking one (`AddTask`).

## Model

| member | source | states |
|---|---|---|
| Libc.Find | app/http.c:132-137 | `strstr` from an offset: a found index lies at or after the start, no NUL comes before it, and the pattern occurs there |
| Libc.FindIsFirst | app/http.c:132-137 | the index `strstr` returns is the first occurrence, and NULL means no occurrence anywhere in the C string |
| Libc.Decimal | app/routes.c:22 | `sprintf("%zu")`: the decimal digits of `n`, most significant first; `DecimalRoundTrip` proves them non-empty, free of a leading zero, and read back as `n` |
| Libc.DecimalRoundTrip | app/routes.c:22 | `%zu` prints a non-empty run of digits with no leading zero, and reading it back gives the number printed |
| Libc.MemCopy | app/http.c:12-14 | `memcpy` puts the source bytes at the offset and changes no other byte |
| Libc.SPrint | app/http.c:59 | `sprintf("%s")` writes the string and a terminating NUL, changes nothing else, and returns the length without the NUL |
| Libc.CutAt | app/http.c:132-133 | `p = strstr(...); *p = '\0'`: the search sees the buffer as it was before earlier NUL writes, and the only byte changed is the NUL at the match |
| Utils.StartsWithAsWritten | app/utils.c:6-13 | as written, `starts_with` returns true for every non-empty `with` |
| Utils.StartsWithAsWrittenIgnoresBuffer | app/utils.c:7 | as written, `starts_with("PUT /", "GET")` is true although `GET` is not a prefix |
| Utils.StartsWith | app/utils.c:6-13 | with the loop guard `with[i] != '\0'`, the result is true exactly when `with` is a prefix of `buf` |
| Utils.MatchFrom | app/utils.c:19-48 | the scan of `starts_with_wildcard` from an index on; a positive offset it returns lies at or after that index and inside the url |
| Utils.WildcardMatch | app/utils.c:19-48 | `starts_with_wildcard(url, pattern)`: a positive offset lies inside the url, so the parameter it starts is a proper suffix; `WildcardMatchMeaning` characterizes all three outcomes |
| Utils.StartsWithWildcard | app/utils.c:19-48 | the loop returns `WildcardMatch(buf, with)` |
| Utils.WildcardMatchMeaning | app/utils.c:15-18 | the result is the offset of the pattern's first `*` when the url agrees before it and has a character there; otherwise `ALL_MATCH` exactly when url and pattern are equal, and `NO_MATCH` when they are not |
| Utils.WildcardCaptureNonEmpty | app/utils.c:33-40 | a positive wildcard offset lies inside the url, so `/echo/` does not match `/echo/*` |
| Utils.AfterWildcardIgnored | app/utils.c:38-40 | the pattern bytes after the first `*` never affect the result |
| Utils.ZeroIsAmbiguous | app/utils.h:12-18 | result 0 means both "exact match" and "wildcard at index 0" |
| Vectors.CapacityFor | app/vector.h:35-56 | the capacity after `n` pushes holds `n` elements and is 0 only for none; `CapacityForIsLeast` proves it the least `4 * 2^k` that does |
| Vectors.CapacityForIsLeast | app/vector.h:35-46 | the capacity after `n` pushes is the least `4 * 2^k` that holds `n` elements |
| Vectors.CapacityForStep | app/vector.h:48-56 | one push grows the capacity exactly when the vector was full: to 4 from empty, otherwise by doubling |
| Vectors.Vector.constructor | app/vector.h:21-28 | `init_vector`: NULL storage, length 0, capacity 0, no elements |
| Vectors.Vector.Free | app/vector.h:30-33 | `free_vector` leaves exactly the state `init_vector` gives |
| Vectors.Vector.Realloc | app/vector.h:35-46 | the first allocation gets 4 slots, a full vector doubles, any other keeps its capacity, and the elements are unchanged |
| Vectors.Vector.Push | app/vector.h:48-56 | the elements become the old ones plus `elem`, the length grows by one, capacity grows only when full, and the least-power-of-two capacity invariant is kept |
| Http.InitResponse | app/http.c:208-225 | `init_response(status)` as a value; `InitResponseEncoding` states how every such response is written, and that `CREATED` makes `write_status` exit |
| Http.StatusText | app/http.c:40-52 | the text `write_status` writes, and none for `CREATED`; `StatusTextCorrected` agrees with it on the other three, and `StatusLineCode` shows each text starts with its code |
| Http.HeaderLines | app/http.c:54-64 | one `key: value\r\n` line per header in vector order; `HeaderLinesSplit` splits it at any index, and `HeaderBlockRoundTrip` shows the parser reads it back |
| Http.HeaderBlock | app/http.c:54-64 | the header lines and one CRLF, which `WriteHeaders` is proved to write and `HeaderBlockRoundTrip` proves `parse_headers` reads back |
| Http.Encode | app/http.c:71-83 | the bytes of `write_response`, or the exit of `write_status`; `WriteResponse` is proved to write them, and `EncodeCorrected` agrees with them wherever they exist |
| Http.StatusTextCorrected | app/http.c:40-52 | every status has a line made of a three-digit code, a space and a reason, and the three statuses the source writes keep their text |
| Http.StatusLineCode | app/http.c:40-52 | the first three bytes of each status line are its code in decimal |
| Http.InitResponseEncoding | app/http.c:208-225 | an `init_response(status)` is written as `HTTP/1.1 `, the status text and two CRLFs, except `CREATED`, which makes `write_status` exit |
| Http.InitResponseOk | app/http.c:16-25 | the empty 200 response is `HTTP/1.1 200 OK\r\n\r\n` |
| Http.EncodeCorrected | app/http.c:40-52 | with a `CREATED` case, the encoding is the same as the source's wherever the source writes anything |
| Http.EncodeCorrectedCode | app/http.c:16-20 | every corrected response begins with `HTTP/1.1 ` followed by the three-digit status code |
| Http.WriteEndline | app/http.c:27-30 | writes CRLF at the offset, returns 2, and changes nothing else |
| Http.WriteVersion | app/http.c:32-38 | writes `HTTP/1.1` at the offset and returns its length |
| Http.WriteStatus | app/http.c:40-52 | writes the status text for OK, BAD_REQ and NOT_FOUND, and exits with nothing written for any other status |
| Http.WriteHeaderLine | app/http.c:57-59 | one `sprintf` of `key: value\r\n` extends the header lines written so far by that header's line |
| Http.WriteHeaderLines | app/http.c:56-60 | the loop writes the lines of all headers of the vector's storage, in order |
| Http.WriteHeaders | app/http.c:54-64 | writes the header lines and the terminating CRLF, returns their length, and changes nothing else |
| Http.WriteBody | app/http.c:66-69 | writes exactly `len` body bytes, and none for a NULL body |
| Http.WriteStatusLine | app/http.c:72-78 | writes version, space, status text and CRLF at the start of the buffer and changes no byte after them, or exits |
| Http.WriteParts | app/http.c:71-83 | the body of `write_response` on the fields of a response: the buffer starts with the encoding of those fields, the count equals its length, and no byte after it changes; or the exit of `write_status` |
| Http.WriteResponse | app/http.c:71-83 | the buffer starts with `Encode(resp)`, the count equals its length, and no byte after it changes; or the call reports the exit of `write_status` |
| Http.Response.constructor | app/http.c:208-225 | `init_response(status)`: version 1.1, the status, no headers and a NULL body |
| Http.Response.PushHeader | app/routes.c:96 | pushing a header appends it to the response's headers and changes nothing else |
| Http.Response.SetBody | app/routes.c:98 | `resp.body = body` replaces only the body |
| Http.Response.Free | app/http.c:227-229 | `free_http_response` empties the header vector |
| HttpParse.HeaderLineSplit | app/http.c:131-142 | one header line: the key runs to the first `": "` and the value to the next CRLF; the scan moves forward; a missing separator is a NULL dereference |
| HttpParse.HeaderLineAt | app/http.c:131-142 | a written well-formed header line is split back into its header, and the scan resumes right after it |
| HttpParse.HeaderLinesAt | app/http.c:120-152 | the header scan on the buffer contents; `ParseHeaders` is proved to compute it, and `HeaderBlockOccurs` proves it reads back a written block of well-formed headers |
| HttpParse.HeaderBlockOccurs | app/http.c:120-152 | wherever a header block of well-formed headers occurs, `parse_headers` reads back those headers in order and stops just past the blank line |
| HttpParse.HeaderBlockRoundTrip | app/http.c:54-64 | `parse_headers` reads back what `write_headers` writes, whatever precedes and follows it |
| HttpParse.CutField | app/http.c:132-139 | one `strstr` and `*p = '\0'`: no match exactly when the original buffer has none, and then nothing changes; otherwise the field is the original bytes up to the first match, and the match byte is the only one changed, to NUL |
| HttpParse.ReadHeaderLine | app/http.c:131-142 | the loop body returns `HeaderLineSplit` of the original buffer, and writes NUL exactly at `LineCuts`, the colon of the line's `": "` and its CR, changing no other byte |
| HttpParse.ParseHeaderLine | app/http.c:131-149 | one header is split off and pushed onto the vector, or the round reports the NULL dereference; the bytes NULed so far gain exactly that line's `LineCuts` |
| HttpParse.ParseHeaders | app/http.c:120-152 | pushes exactly the headers `HeaderLinesAt` reads, in input order, returns the bytes consumed, and writes NUL exactly at `HeaderCuts`, the colon of each line's `": "` and its CR, changing no other byte |
| HttpParse.HeaderCutsSeparators | app/http.c:120-152 | every byte `parse_headers` overwrites lies at or after the start of the block, at a `": "` or a CRLF of the original buffer, and, when the scan succeeds, inside the bytes it consumes |
| HttpParse.MethodScanAsWritten | app/http.c:85-99 | the method-table scan as written; `MethodTokenAsWritten` states that it always yields `GET` with three bytes |
| HttpParse.MethodScan | app/http.c:85-99 | the scan with the corrected prefix test; `MethodToken` states that it succeeds exactly on a `GET` or `POST` prefix and returns that method |
| HttpParse.MethodTokenAsWritten | app/http.c:85-99 | as written, `parse_method` always reports `GET` with a three-byte token |
| HttpParse.MethodToken | app/http.c:85-99 | corrected: success exactly when the buffer starts with `GET` or `POST`, and the token is the name it starts with; otherwise the unsupported-method exit |
| HttpParse.MethodTokenOf | app/http.c:86-87 | a buffer starting with a method's name yields that method and the name's length |
| HttpParse.ParseMethod | app/http.c:85-99 | the loop over the method table returns `MethodToken(buf)` |
| HttpParse.VersionAsWritten | app/http.c:101-112 | as written, `parse_version` always reports version 1.1 and 10 bytes |
| HttpParse.VersionAt | app/http.c:101-112 | corrected: success exactly when `HTTP/1.1\r\n` is at the cursor; otherwise the invalid-version exit |
| HttpParse.RequestTarget | app/http.c:161-172 | a space must follow the method; the url runs to the next space and holds no space; a missing first space exits, and a missing second one is a NULL dereference |
| HttpParse.HeadersThen | app/http.c:182-199 | the request built after the header block has the given method and url and version 1.1 |
| HttpParse.AfterMethodAsWritten | app/http.c:159-199 | the rest of `parse_request` as written; `DecodeRequestAsWritten`, `AsWrittenRejectsPost` and `AsWrittenIgnoresVersion` state what it accepts and rejects |
| HttpParse.AfterMethod | app/http.c:159-199 | the rest of the corrected `parse_request`; `DecodeRequestRoundTrip` proves it reads back every well-formed request |
| HttpParse.DecodeRequestAsWritten | app/http.c:154-202 | as written, every request that parses is reported as `GET` with version 1.1 |
| HttpParse.DecodeRequest | app/http.c:154-202 | corrected: the method reported is the one whose name starts the buffer |
| HttpParse.RequestLineAt | app/http.c:155-158 | a request line `METHOD url HTTP/1.1\r\n` yields its method, its url and the version |
| HttpParse.DecodeRequestRoundTrip | app/http.c:154-202 | the corrected parser reads back method, url, version and headers of every request whose url has no space and whose headers are well formed, with the body right after the block |
| HttpParse.AsWrittenAgreesOnGet | app/http.c:154-202 | on a buffer that starts with `GET`, the as-written parser returns whatever the corrected one accepts |
| HttpParse.AsWrittenRejectsPost | app/http.c:160-164 | as written, every POST request exits with the invalid-request-line error, while the corrected parser reads it as POST |
| HttpParse.AsWrittenAcceptsPut | app/http.c:85-99 | as written, `PUT / HTTP/1.1` is accepted as `GET /`; the corrected parser exits |
| HttpParse.AsWrittenIgnoresVersion | app/http.c:180 | as written, `GET / HTTP/2.0` is accepted |
| HttpParse.VersionCheckedAtCursor | app/http.c:101-112 | the corrected parser rejects `GET / HTTP/2.0` with the invalid-version exit |
| HttpParse.ReadRequestTarget | app/http.c:161-172 | returns `RequestTarget` of the original buffer and writes only the NUL that ends the url |
| HttpParse.ReadHeadersThen | app/http.c:182-199 | a fresh header vector filled by `parse_headers` gives `HeadersThen` of the original buffer |
| HttpParse.ParseRequestAsWritten | app/http.c:154-202 | returns `DecodeRequestAsWritten` of the original buffer and writes only NULs before the body |
| HttpParse.ParseRequest | app/http.c:154-202 | returns `DecodeRequest` of the original buffer and writes only NULs before the body |
| Routes.ContentLengthRoundTrip | app/routes.c:19-35 | a non-empty body gets exactly one more header, last, named `Content-Length`, whose digits read back as the body length; other responses are unchanged |
| Routes.WithContentLength | app/routes.c:19-31 | what `write_response_helper` adds; `ContentLengthRoundTrip` proves it appends exactly one `Content-Length` for a non-empty body that reads back as the body length |
| Routes.FilePath | app/routes.c:146-151 | fails with the out-of-bounds read exactly when the directory is empty and the parameter does not start with `/`; `FilePathJoin` states the path otherwise |
| Routes.FilePathJoin | app/routes.c:146-151 | for a non-empty directory or a `/`-prefixed parameter the path is directory then parameter, with a `/` added exactly when neither side supplies one; with an empty directory it is the parameter |
| Routes.EmptyDirectoryPath | app/routes.c:146-151 | with an empty directory, a `/`-prefixed parameter is the path itself, and any other parameter makes both file handlers read before the directory string |
| Routes.WriteResponseHelper | app/routes.c:19-35 | the response gains `Content-Length` as `WithContentLength` says, and the buffer holds its encoding |
| Routes.HandleBadReq | app/routes.c:37-47 | writes `HTTP/1.1 400 Bad Request\r\n\r\n` |
| Routes.HandleNotFound | app/routes.c:49-59 | writes `HTTP/1.1 404 Not Found\r\n\r\n` |
| Routes.NotFoundEncoding | app/routes.c:49-59 | the empty 404 response is `HTTP/1.1 404 Not Found\r\n\r\n` |
| Routes.HandlerResponse | app/routes.c:61-233 | the response each handler builds, or its exit; `HandlerContentLength`, `EchoHandlerResponse`, `MissingFileNotFound` and `EmptyDirectoryPath` state its cases |
| Routes.HandlerOutput | app/routes.c:61-233 | the bytes each handler writes, or its exit; `CallHandler` is proved to write them, and `EchoHandlerOutput` and `FilePostAsWritten` state cases of them |
| Routes.HandleRoot | app/routes.c:61-74 | writes the root handler's output |
| Routes.HandleEcho | app/routes.c:76-105 | writes the echo response, or reports the NULL dereference of a missing parameter |
| Routes.HandleUserAgent | app/routes.c:107-138 | writes the `User-Agent` value as a plain-text body, or reports the NULL dereference when the header is missing |
| Routes.HandleFileGet | app/routes.c:140-195 | without a directory, the assert fails; an empty directory with a parameter not starting with `/` reads out of bounds; a missing file gets 404; otherwise the file goes out as an octet stream |
| Routes.HandleFilePost | app/routes.c:197-233 | without a directory, the assert fails; the path is built as in the GET handler; otherwise writes the `CREATED` response, which `write_status` cannot write |
| Routes.CallHandler | app/routes.c:283-287 | the call through the table's function pointer writes that handler's output |
| Routes.FirstMatch | app/routes.c:243-292 | the table entry `handle_routes` dispatches to lies in the table; `FirstMatchMeaning` proves it is the first that takes the request, with the right parameter |
| Routes.FirstMatchMeaning | app/routes.c:275-292 | the dispatcher picks the first entry in table order whose pattern matches and whose method is the request's; it passes NULL for offset 0 and the url from the wildcard on otherwise; without such an entry it answers not found |
| Routes.HandleRoutes | app/routes.c:243-293 | the scan with `starts_with_wildcard` writes `RouteOutput` of the request |
| Routes.RouteOutput | app/routes.c:243-292 | the bytes `handle_routes` writes: the chosen handler's output, or the 404 response; `HandleRoutes` is proved to write them and `EchoResponse` states a case |
| Routes.RootRoute | app/routes.c:245-250 | `/` goes to `handle_root` for GET and matches no route for POST |
| Routes.EchoRoute | app/routes.c:251-255 | `/echo/<p>` goes to `handle_echo` with `p` for GET and matches no route for POST |
| Routes.FilesRoute | app/routes.c:261-270 | `/files/<p>` goes to `handle_file_get` for GET and to `handle_file_post` for POST, with `p` |
| Routes.HandlerContentLength | app/routes.c:19-35 | every handler response with a non-empty body ends its headers with a `Content-Length` equal to the body length |
| Routes.EchoHandlerResponse | app/routes.c:76-105 | the echo response is 200 with the plain-text type, then `Content-Length`, with `p` as its body |
| Routes.EchoHandlerOutput | app/routes.c:76-105 | the echo handler writes `HTTP/1.1 200 OK`, the two header lines, a blank line, then `p` |
| Routes.EchoResponse | app/routes.c:284-287 | a GET of `/echo/<p>` is answered by the echo handler with `p` |
| Routes.MissingFileNotFound | app/routes.c:153-158 | a GET for a path `stat` does not find gets the 404 response |
| Routes.FilePostAsWritten | app/routes.c:228-229 | as written, every file POST with a directory ends in the exit of `write_status` |
| Routes.FilePostCorrected | app/routes.c:228-229 | with a 201 case, the file POST is answered `HTTP/1.1 201 Created\r\n\r\n` |
| TaskQueue.Node.constructor | app/thread.c:114-116 | a new node has the payload and a NULL `next` |
| TaskQueue.Queue.constructor | app/thread.c:77-89 | `init_queue`: `head` and `last` are NULL and the queue is empty |
| TaskQueue.Queue.AddTaskAsWritten | app/thread.c:112-126 | as written: the new node becomes `last`, and `head` only on an empty queue; on a non-empty queue the contents do not change and the node is unreachable from `head` |
| TaskQueue.Queue.AddTask | app/thread.c:112-126 | with the missing link: the new task is appended at the end and `last` stays the end of the chain |
| TaskQueue.Queue.PopTask | app/thread.c:128-150 | NULL and no change on an empty queue; otherwise the head payload and the rest of the queue, with `last` reset when the queue empties |
| TaskQueue.Queue.FreeQueue | app/thread.c:91-110 | every node reachable from `head` has its payload set to NULL with its `next` kept, nodes off the chain are untouched, and `head` and `last` end NULL |
| TaskQueue.AddThenPopAsWritten | app/thread.c:112-150 | as written, adding tasks and popping as many times returns the first task and then only NULLs |
| TaskQueue.AddThenPop | app/thread.c:112-150 | with the linking `add_task`, all tasks come back in the order they were added |

## Left out

- Sockets, the accept loop, command-line handling and the thread pool are not part of this model: `app/server.c`, plus `thread_start`, `init_threadpool`, `add_threaded_task` and `free_threadpool`. The queue operations are modelled one at a time, without the mutex and condition variable that guard them.
- `printf` logging is left out; it has no effect on the buffers.
- `CONTENT_LENGTH`, `CONTENT_TYPE`, `TEXT_PLAIN`, `OCTET_STREAM` and `USER_AGENT` are not defined in the files modelled, so the header names and values are the parameter `Routes.Names`.
- `find_in_header` is not defined in the files modelled either. Its result is the parameter `agent`.
- `app/http.h` declares older types: two statuses, a header array without capacity, and a bare body pointer. The model follows the types that `app/http.c` and `app/routes.c` use: four statuses, a header vector, and a body with a length.
- `Routes.HandlerResponse`: the file system is a map from path to contents standing for `stat` and `read`. Failures of `malloc`, `open` and `read` after a successful `stat` are left out: the asserts at app/routes.c:164, 168 and 172.
- `Routes.HandleFilePost`: the file that `open` creates and `write` fills is not modelled. The `exit(1)` when `open` fails is not modelled either, so the handler never gets past `write_status`, which exits on 201.
- `Vectors.Vector.Realloc`, `TaskQueue.Queue.AddTask` and `TaskQueue.Queue.AddTaskAsWritten` always succeed. A failed allocation is not modelled: the `assert(vec->ptr != NULL)` after `realloc` at app/vector.h:45 and the unchecked `malloc` of a node at app/thread.c:114.
- `Routes.FilePath`: with an empty directory and a parameter that does not start with `/`, the source reads the byte before the directory string. That undefined read is the failure `OutOfBoundsRead`, whatever the byte would have held.
- `Routes.HandleEcho`, `Routes.HandleUserAgent`, `Routes.HandleFileGet`: the 1024-byte body buffers and the 100-byte path buffer are not modelled, so an overflow of them is not represented.
- `Http.WriteResponse`: requires the encoded response to fit in the output buffer, which the source never checks.
- `Routes.HandleRoutes`: requires the output to fit in the buffer, for the same reason.
- `HttpParse.DecodeRequest`: the request body is represented by the offset its pointer designates. Its length is always 0, as in the source. `free_http_request` only releases the header vector and is not modelled.
- Sizes and offsets are unbounded naturals. No `size_t` wrap-around is modelled, since every offset is bounded by a buffer length.
- Bytes are modelled as `char`.
- `TaskQueue.Queue.FreeQueue`: `free` of a node or payload is modelled as dropping it. The payload is set to NULL as the source does; the storage itself is not tracked.
- `TaskQueue.Queue.PopTask`: a NULL payload and an empty queue both give NULL, as in the source.

## Findings

| source | as written | input that shows it | evidently intended | confidence | as-written member | corrected member |
|---|---|---|---|---|---|---|
| app/utils.c:7 | the loop runs while `with[i] == '\0'`, so it never runs and the result is always true | `starts_with("PUT /", "GET")` is true | loop while `with[i] != '\0'` and compare | high, not executed | Utils.StartsWithAsWrittenIgnoresBuffer | Utils.StartsWith |
| app/http.c:85-99 | `parse_method` takes the first table entry for any input | `PUT / HTTP/1.1\r\n\r\n` is parsed as `GET /` | unsupported methods end in the method error | high, not executed | HttpParse.AsWrittenAcceptsPut | HttpParse.MethodToken |
| app/http.c:160-164 | a POST token is taken to be three bytes, so `T` sits where the space is expected | `POST /files/a HTTP/1.1\r\n\r\n` exits with the request-line error | POST requests are parsed | high, not executed | HttpParse.AsWrittenRejectsPost | HttpParse.DecodeRequestRoundTrip |
| app/http.c:194 | the request's method is hard-coded to `GET` | every accepted request is reported as GET | the parsed method is reported | high, not executed | HttpParse.DecodeRequestAsWritten | HttpParse.DecodeRequest |
| app/http.c:180 | `parse_version` is handed `buf` instead of `buf + s` | `GET / HTTP/2.0\r\n\r\n` is accepted as 1.1 | the version at the cursor is checked | high, not executed | HttpParse.AsWrittenIgnoresVersion | HttpParse.VersionCheckedAtCursor |
| app/http.c:40-52 | `write_status` has no `CREATED` case and exits | `handle_file_post` reached with a POST request for `/files/a` and a non-empty directory set; end to end the parser bugs at app/http.c:85-99, 160-164 and 194 mask it, since as written no request reaches the handler as POST | `HTTP/1.1 201 Created` is written | high, not executed | Routes.FilePostAsWritten | Routes.FilePostCorrected |
| app/thread.c:112-121 | `add_task` never sets the old tail's `next` | add A, add B, pop, pop gives A, then NULL | a FIFO: A, then B | high, not executed | TaskQueue.AddThenPopAsWritten | TaskQueue.AddThenPop |
