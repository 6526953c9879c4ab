# http-server-go, modelled in Dafny

A model of the request handling of a small HTTP/1.1 server (`app/server.go`).
The server reads one buffer from a connection. It splits that buffer into
"\r\n"-separated lines and takes the method and path from the space-separated
tokens of the first line. It then writes exactly one response:

- `/` gives a bare 200;
- `/echo/<s>` gives `<s>` as a text/plain body;
- `/user-agent` gives the trimmed text between the first and second ':' of
  the first line whose text before its first ':' is exactly `User-Agent`;
- `/files/<name>` gives the contents of `<directory>/<name>` as an
  octet-stream body;
- anything else gives 404.

Any method other than GET gives 404. A method token shorter than two
characters gives 400.

The model keeps the handlers pure. Handling one request is a function from
the bytes read, the parsed flags and the filesystem to an `Outcome`, which is
one of two things:

- the response text the handler writes;
- the Go panic that stops it (`PanicSite`). The two places where the code
  indexes past the end of a `strings.Split` result are modelled this way.

Modules:

- `GoStrings` (gostrings.dfy): the Go `strings` functions the server uses,
  defined from their Go semantics. These are `Index`, `Contains`, `HasPrefix`,
  `Split`, `TrimPrefix`, `ReplaceAll` and `TrimSpace`. Each has a reference
  partner (`Join` for `Split`, `Join(Split(..))` for `ReplaceAll`, a slice
  characterisation for `TrimSpace`).
- `Fmt` (fmt.dfy): the `%d` verb, with decimal reading as its partner.
- `Wire` (wire.dfy):
  - the protocol constants;
  - the two response shapes the server writes;
  - `Parse`, the reading of a response a client performs;
  - `ContentLengthOf`, the Content-Length a client finds.
- `Server` (server.dfy): `handleHttpRequest`, `handleMethod`,
  `handleGetRequest`, `writeEcho`, `writeUserAgent`, `getFile` and
  `removeDuplicateSlash`.
- `Properties` (properties.dfy): what the server answers to every request,
  stated over the request's lines and tokens.
- `Exchanges` (exchanges.dfy): the five exchanges of `app/server_test.go`,
  proved on the model.

Three behaviours of the code that a reader might not expect, all kept:

- A method other than GET is answered `404 Not Found`, where section 15.5.6
  of RFC 9110 would use `405 Method Not Allowed`.
- `getFile` writes the literal Content-Length 17, whatever the file holds.
  `Server.GetFile` answers with this as-written response
  (`Server.FileResponseAsWritten`). Findings records the discrepancy, with
  a corrected response (`Server.FileResponse`) whose announced length is
  the file's own.
- The User-Agent value is cut at its next ':', because the code keeps only
  the second ':'-separated field of the line: `User-Agent: bot (+http://x)`
  is answered with `bot (+http`. The scan also runs over every line,
  including the request line and any line after the blank line that ends
  the headers.

## Model

| member | source | states |
|---|---|---|
| Server.HandleHttpRequest | app/server.go:120-131 | Only a GET can panic. Every answer is a 200, 400 or 404, and it is a 400 exactly when the method token is shorter than two characters. |
| Server.HandleMethod | app/server.go:133-140 | Only a GET can panic, every other method is answered 404, and no answer is a 400. |
| Server.HandleGetRequest | app/server.go:142-156 | It panics at the path lookup exactly when the request line has no second token, and reaches the header panic only on the "/user-agent" route. It answers 200 or 404, and 200 only for a path one of the four routes accepts. |
| Server.WriteEcho | app/server.go:158-163 | The answer is a 200 whose text ends with the path after "/echo/". |
| Server.ScanUserAgent | app/server.go:165-174 | The scan can only panic at the User-Agent value, and a non-empty value has no whitespace at either end. |
| Server.WriteUserAgent | app/server.go:165-178 | writeUserAgent panics exactly when the header scan does; otherwise it answers a 200 whose text ends with the scanned value. |
| Server.GetFile | app/server.go:180-208 | getFile panics exactly when the request line has no second token. Otherwise it answers 404 exactly when no directory is configured or the composed path is not a readable file, and otherwise a 200 carrying the file with the literal Content-Length 17. |
| GoStrings.IndexOf | app/server.go:122 | Any index strings.Split cuts at is an occurrence of the separator inside the string. |
| GoStrings.Split | app/server.go:122-123 | There is always a piece [0], and it is a prefix of the input, so the method is a prefix of the request line and the request line a prefix of the request. |
| GoStrings.TrimPrefix | app/server.go:159 | With the prefix present, the prefix followed by the result is the input; without it, the input comes back unchanged. |
| GoStrings.ReplaceAll | app/server.go:212 | Without an occurrence the input comes back unchanged; a replacement no longer than the pattern never lengthens it, and a shorter one shortens any input that contains the pattern. |
| GoStrings.TrimSpace | app/server.go:171 | The result is no longer than the input and has no whitespace at either end. |
| Wire.ParseSerialize | app/server.go:15-22 | A client reading any response framed from these constants (status line, header lines, empty line, body) gets that response back, provided the status and header lines hold no carriage return and every header line is non-empty. |
| Wire.StatusResponseReadsBack | app/server.go:126 | The status-only responses read back as that status with no headers and an empty body. |
| Wire.BodyResponseReadsBack | app/server.go:160-161 | A body response reads back as 200 with the content-type line and "Content-Length: " plus the rendered length. The announced length matches the body exactly when it is the body's length. |
| Server.OkResponseText | app/server.go:146 | The root response is the bytes "HTTP/1.1 200 OK\r\n\r\n". |
| Server.BadRequestResponseText | app/server.go:126 | The bad-request response is the bytes "HTTP/1.1 400 Bad Request\r\n\r\n". |
| Server.NotFoundResponseText | app/server.go:138 | The not-found response is the bytes "HTTP/1.1 404 Not Found\r\n\r\n". |
| GoStrings.IndexOfFirst | app/server.go:122 | The index strings.Split cuts at is the first occurrence of the separator, and there is none exactly when the separator does not occur. |
| GoStrings.SplitJoin | app/server.go:122-123 | The lines (and tokens) the code splits into join back to the input with the separator, and none of them contains the separator. |
| GoStrings.SplitOfJoin | app/server.go:122-123 | Splitting pieces joined by a border-free separator gives the pieces back, when no piece contains the separator. |
| GoStrings.ReplaceAllIsJoinOfSplit | app/server.go:212 | strings.ReplaceAll replaces every non-overlapping occurrence, left to right: it equals joining the Split pieces with the replacement. |
| GoStrings.TrimSpaceIsSlice | app/server.go:171 | strings.TrimSpace returns a contiguous slice of its input with only whitespace before and after it. |
| GoStrings.TrimSpaceOfPadded | app/server.go:171 | A value whose ends are not whitespace comes back exactly from any whitespace padding. |
| GoStrings.TrimSpaceIdempotent | app/server.go:171 | Trimming twice is trimming once. |
| Fmt.FormatDecimal | app/server.go:161 | The %d rendering is non-empty, all digits, has no leading zero, and reads back as the number. |
| Fmt.FormatDecimalInjective | app/server.go:161 | Different lengths are rendered differently. |
| Properties.RequestShapeIsUnique | app/server.go:122-123 | A request made of lines joined by "\r\n", whose first line is tokens joined by single spaces, is split by the code into exactly those lines and tokens. |
| Properties.EveryRequestHasAShape | app/server.go:122-123 | Every raw request has such lines and tokens, so the request-level statements below cover all inputs. |
| Properties.ShortMethodIsBadRequest | app/server.go:123-128 | A method token shorter than two characters is answered 400. |
| Properties.EmptyRequestIsBadRequest | app/server.go:121-127 | An empty read is answered 400. |
| Properties.NonGetIsNotFound | app/server.go:133-139 | Every method other than GET, of two or more characters, is answered 404. |
| Properties.GetWithoutPathPanics | app/server.go:143 | A GET request line with no second token panics at the path lookup. |
| Properties.GetIsRouted | app/server.go:130-136 | A GET is handed to the GET handler with the request's lines. |
| Properties.RootProbe | app/server.go:145-146 | A GET of "/" is answered with the bare 200. |
| Properties.EchoRoundTrip | app/server.go:147-148 | A GET of "/echo/" + s reads back as 200 text/plain with body s, verbatim, and a consistent Content-Length. |
| Server.EchoReadsBack | app/server.go:158-162 | The echo body, put back after "/echo/", is the path, and its Content-Length matches it. |
| Properties.RoutesAreExclusive | app/server.go:145-155 | No path matches two routes, so the dispatch order never hides one route behind another. |
| Properties.UnroutedGetIsNotFound | app/server.go:153-154 | A GET of any path outside the four routes is answered 404. |
| Properties.EchoWithoutSlashIsNotFound | app/server.go:147 | "/echo" without its trailing slash is not the echo route and is answered 404. |
| Server.NamesUserAgentIsFirstField | app/server.go:169-170 | The code's test on the first ':'-field holds exactly for the line "User-Agent" and lines starting "User-Agent:". |
| Server.ScanUserAgentPanics | app/server.go:168-174 | The header scan panics exactly when the first line naming User-Agent is the bare name, with no ':'. |
| Properties.UserAgentFields | app/server.go:169-171 | Field [1] of a User-Agent line is the text after the first ':' up to the next ':'. |
| Properties.ScanFindsFirstUserAgent | app/server.go:168-173 | The value is taken from the first line naming User-Agent: its text up to the next ':', whitespace-trimmed. Later lines are ignored. |
| Properties.UserAgentCutAtColon | app/server.go:169-171 | The header `User-Agent: bot (+http://x)` yields the value `bot (+http`: only the second ':'-separated field is kept. |
| Properties.ScanWithoutUserAgent | app/server.go:166-174 | With no line naming User-Agent the value stays "". |
| Server.UserAgentLengthConsistent | app/server.go:176 | Whatever writeUserAgent writes reads back as a 200 whose Content-Length matches its body. |
| Properties.UserAgentReflected | app/server.go:149-150 | A GET of "/user-agent" answers 200 text/plain with the trimmed value as body and its length as Content-Length. |
| Properties.UserAgentAbsent | app/server.go:166 | Without a User-Agent line the answer is a 200 with an empty body and Content-Length 0. |
| Properties.UserAgentBareNamePanics | app/server.go:171 | A bare "User-Agent" line, when it is the first to name the header, makes the request panic. |
| Server.FileResponseAsWrittenReadsBack | app/server.go:206 | As written, the file response reads back with the file as body and Content-Length 17, which is right exactly for 17-byte files. |
| Server.EmptyFileAsWrittenMisframed | app/server.go:206 | As written, an empty file is announced as 17 bytes long. |
| Server.FileResponseReadsBack | app/server.go:206 | The corrected file response reads back with the file as body and its own length as Content-Length. |
| Server.FileResponseAgreesAt17 | app/server.go:206 | The corrected and the as-written responses agree exactly on 17-byte files. |
| Properties.FilesRoute | app/server.go:151-152 | A GET of "/files/" + name goes to the file handler, which looks up directory + "/" + name with doubled slashes collapsed. |
| Properties.FileKeyOfPlainName | app/server.go:181-190 | With no doubled, leading or trailing slashes at the seam, the looked-up path is exactly directory + "/" + name. |
| Properties.FilesWithoutDirectoryIsNotFound | app/server.go:183-187 | Without a directory flag every file request is answered 404. |
| Properties.MissingFileIsNotFound | app/server.go:190-196 | A composed path that cannot be opened is answered 404. |
| Properties.FileServed | app/server.go:198-207 | A readable file is served verbatim as application/octet-stream with the literal Content-Length 17; a client reads the file correctly exactly when it is 17 bytes long. |
| Server.RemoveDuplicateSlash | app/server.go:210-216 | A path without "//" comes back unchanged; any other path gets shorter. |
| Server.RemoveDuplicateSlashPieces | app/server.go:210-216 | The result is the path's "//"-pieces joined by "/". It still contains "//" exactly when the path contains "///". |
| Server.RemoveDuplicateSlashSinglePass | app/server.go:211-212 | One pass is not a normalisation: "///" becomes "//", and collapsing again changes it. |
| Server.SingleSlashesUnchanged | app/server.go:210-215 | A path whose slashes are all single is opened exactly as composed. |
| Exchanges.RootExchange | app/server_test.go:113-143 | "GET / HTTP/1.1\r\n\r\n" followed by the buffer's padding is answered "HTTP/1.1 200 OK\r\n\r\n". |
| Exchanges.EchoExchange | app/server_test.go:146-175 | The echo of "/echo/yikes/dooby-Coo" is the 200 text/plain response with Content-Length 15 and body "yikes/dooby-Coo". |
| Exchanges.UserAgentExchange | app/server_test.go:178-207 | The curl request to "/user-agent" is answered with Content-Length 11 and body "curl/7.64.1". |
| Exchanges.TestFileKey | app/server_test.go:214 | The test file's path is composed with no slash to collapse. |
| Exchanges.FileExchange | app/server_test.go:210-253 | The test file is served as application/octet-stream with Content-Length 17 and body "Hello, test data!". |
| Exchanges.FileNotFoundExchange | app/server_test.go:255-283 | The same request against an empty filesystem is answered "HTTP/1.1 404 Not Found\r\n\r\n". |

## Left out

- `main` and the flag parsing (app/server.go:24-50): the parsed flags are a
  parameter, `ServerConfig.flags`.
- `NewServer`, `Start` and its accept loop (app/server.go:72-101): sockets,
  goroutines and context cancellation are I/O and concurrency. The accept
  error path is not modelled either.
- `handleConnection` (app/server.go:103-118): the single read of at most
  4096 bytes is not modelled. The bytes read are the model's input, and a
  read error other than EOF is not modelled.
- `conn.Write`, `conn.Close`, `file.Close` and the log lines: the written
  bytes are the outcome; the rest is I/O.
- The afero filesystem: it is a map from the exact path passed to `Open` to
  the file's contents. A path that is absent stands for both the open error
  and the read error. Path cleaning inside the filesystem is not modelled.
- Characters stand for bytes. The requests and responses the server handles
  are ASCII. `TrimSpace` removes only the six ASCII whitespace bytes, and the
  Unicode spaces Go's `strings.TrimSpace` also removes are not modelled.
- The zero bytes left in the tests' 1024-byte read buffers: they are one
  final line `pad` that may be any text without a carriage return.
- A Go panic is an outcome. What it does next, ending the process, is not
  modelled.

## Findings

| source | as written | input that shows it | evidently intended | confidence | as-written member | corrected member |
|---|---|---|---|---|---|---|
| app/server.go:206 | The file response announces `Content-Length: 17` whatever the file holds. | Any file whose length is not 17. For an empty file the body is "" but the announced length is 17 (Server.EmptyFileAsWrittenMisframed). | The length of the file's contents, as `writeEcho` and `writeUserAgent` compute for their bodies. | high; not executed | Server.FileResponseAsWrittenReadsBack | Server.FileResponseReadsBack |
