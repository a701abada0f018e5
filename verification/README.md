# A verified model of a minimal HTTP/1.1 request pipeline

This project models, in Dafny, what `app/main.py` does with one client
connection:

- `parse_http_request` reads the request line, the header map and the body;
- `build_response` serialises a response;
- `handle_request` is the route table:
  - `/`;
  - `/echo/<s>`, with gzip negotiation on Accept-Encoding;
  - `/user-agent`;
  - `/files/<name>`, with GET and POST;
- `handle_client` maps the outcome: 400 when there is no request, 500 when
  anything raised, otherwise the routed response.

The model is functional. Its pieces are:

- **The connection** is a sequence of chunks (`HttpRequest.Stream`). Each
  `recv(n)` takes at most `n` bytes of the next chunk, and an empty chunk
  means the peer closed.
- **The files** are a `Routes.Store`: a map from name to content, plus the
  set of names whose `open` raises.
- **Exceptions** are `Failure` values of `Wrappers.Result`, carrying an
  `Errors.Error`.
- **`gzip.compress` and `str(e)`** are the function parameters `compress`
  and `describe`.

| file | module | models |
|---|---|---|
| wrappers.dfy | `Wrappers` | `Option`, `Result` |
| errors.dfy | `Errors` | the exceptions the pipeline raises |
| strings.dfy | `Strings` | `find`, `split`, `split(sep, 1)`, `strip`, `lower`, `int`, `str` |
| framing.dfy | `Framing` | CRLF-separated heads ended by a blank line |
| response.dfy | `HttpResponse` | `build_response` |
| request.dfy | `HttpRequest` | `parse_http_request` and its body read loop |
| routes.dfy | `Routes` | `handle_request` |
| connection.dfy | `Connection` | the branching of `handle_client` |

The model follows what the code does, including where a stricter or more
lenient reading would be natural:

- **A header line without a colon** makes the unpacking of
  `line.split(":", 1)` raise, so the client gets a 500. It is not skipped.
- **A Content-Length that is not an integer literal** makes `int()` raise,
  which also gives a 500. It is not treated as 0.
- **A negative Content-Length** is accepted by `int()`, and the body is
  then just the bytes already received (`NegativeContentLength`).
- **A Content-Length too large for `recv`**: when the missing byte count
  exceeds what a C `ssize_t` holds (2^63 - 1 on a 64-bit platform), `recv`
  raises `OverflowError` before reading, so the client gets a 500 and no
  file is written.
- **The head must arrive in the first `recv(1024)`.** If the blank line is
  not in that first read, there is no request (400). No further reads are
  made to look for it.
- **Bytes already received after the blank line are all kept**, even beyond
  Content-Length. So the body can be longer than declared.
- **The echo and user-agent Content-Length is `len` of a Python string**:
  a character count.

## Model

| member | source | states |
|---|---|---|
| HttpRequest.Recv | app/main.py:42 | a read returns at most the requested count; it is empty exactly when the peer has nothing more to send, and otherwise nothing is lost or reordered |
| HttpRequest.ReadBody | app/main.py:39-45 | the body keeps every byte received after the blank line, never grows past Content-Length through the loop, is left alone when it is already long enough, and when shorter than declared holds everything the peer sent before closing |
| HttpRequest.ParseHttpRequest | app/main.py:16-47 | the first read, the head and the body loop together compute the declarative reading of the connection (`ReadRequest`) |
| HttpRequest.CompleteHead | app/main.py:39-45 | after a parsed head, the read loop gives the body `ExpectedBody` describes, unless `recv` would be asked for more than it accepts, which raises |
| HttpRequest.ReadRequest | app/main.py:16-47 | what one connection reads as; its partner lemmas `NoRequestIff`, `RequestRoundTrip` and `OversizedRaises` give the "no request" cases, the round trip and the `recv` overflow |
| HttpRequest.ParseHead | app/main.py:20-39 | the head of the first read; its partner lemmas `HeadFailureIff`, `BodyStartsAfterBlankLine`, `RequestLineAtStart` and `ContentLengthRules` state when it raises, where the body starts, and what the request line and Content-Length are |
| HttpRequest.HeadFailureIff | app/main.py:32-39 | once the blank line and request line are found, the head raises exactly when a header line has no colon or the Content-Length is not an integer literal; the exception is the header loop's or names that value; otherwise the head carries the loop's map |
| HttpRequest.OversizedRaises | app/main.py:41-42 | when the missing byte count exceeds what `recv` accepts, reading the request raises, whatever the connection holds |
| HttpRequest.ParseFields | app/main.py:32-37 | the header loop; `HeadersLastWins`, `HeaderErrorIff` and `StopsAtBlank` state its map, its errors and where it stops |
| HttpRequest.ContentLength | app/main.py:39 | `int(headers.get("content-length", 0))`; `ContentLengthRules` and `HeadFailureIff` state its value and when it raises |
| HttpRequest.NoRequestIff | app/main.py:16-30 | "no request" happens exactly when nothing was sent, the first read has no CRLF CRLF, or the first line is not three space-separated tokens |
| HttpRequest.NoBlankLineNoRequest | app/main.py:20-22 | without a CRLF CRLF in the first read there is no request |
| HttpRequest.BodyStartsAfterBlankLine | app/main.py:20-25 | the body starts exactly four bytes after the first CRLF CRLF, and all bytes from there on are kept |
| HttpRequest.RequestLineAtStart | app/main.py:24-28 | an accepted request line is three space-free tokens joined by single spaces at the start of the read |
| HttpRequest.ParseRequestLine | app/main.py:28-30 | the line is accepted exactly when the space split gives three tokens, and then it is those tokens joined by single spaces |
| HttpRequest.RequestLineRoundTrip | app/main.py:28 | three space-free tokens joined by spaces parse back to the same three tokens |
| HttpRequest.FieldOf | app/main.py:36-37 | a line yields a key and value exactly when it contains a colon; `FieldOfPadded` gives the pair for any whitespace around the name and the value |
| HttpRequest.FieldOfPadded | app/main.py:36-37 | a line `a + k + b + ":" + c + v + d`, with whitespace `a`, `b`, `c`, `d`, a colon-free trimmed name `k` and a trimmed value `v`, stores the key `k` lower-cased and the value `v` |
| HttpRequest.HeadersLastWins | app/main.py:32-37 | after the loop each key holds the value of the last line naming it, and no other keys appear |
| HttpRequest.HeaderErrorIff | app/main.py:33-36 | the loop raises exactly when some line before the first blank line has no colon, and the error names such a line |
| HttpRequest.StopsAtBlank | app/main.py:33-35 | lines after the first blank line have no effect, whether or not they are well formed |
| HttpRequest.ContentLengthRules | app/main.py:39 | in a parsed head a missing Content-Length means 0 and a present one is its integer reading; an `InvalidContentLength` exception names a value that is not an integer literal (that every such value raises is `HeadFailureIff`) |
| HttpRequest.NegativeContentLength | app/main.py:39-45 | a Content-Length `-n` with `n > 0` reads as `-n`, and the body is then exactly the bytes already received |
| HttpRequest.FieldsRoundTrip | app/main.py:32-37 | well-formed header lines are read into the lower-cased, last-write-wins map of their fields |
| HttpRequest.RequestRoundTrip | app/main.py:16-47 | a well-formed request that fits in the first read, with a correct or absent Content-Length, is read back exactly as sent, whatever follows on the connection |
| Strings.Strip | app/main.py:34 | the result is a slice of the input with neither end whitespace |
| Strings.StripRemovesSpace | app/main.py:37 | what is removed on either side is whitespace |
| Strings.StripPadded | app/main.py:37 | a string with no whitespace at either end, surrounded by any whitespace, strips to itself |
| Strings.StripEmptyIffAllSpace | app/main.py:34-35 | a line ends the header loop exactly when it is all whitespace |
| Strings.SplitOnce | app/main.py:36 | the split fails exactly when there is no separator; otherwise the two parts rejoin to the line and the first holds no separator |
| Strings.JoinSplit | app/main.py:26 | joining the pieces of a split with the separator gives the input back |
| Strings.SplitJoin | app/main.py:26 | splitting a join gives the parts back when no part contains the separator's first character (for CRLF: no part contains a CR) |
| Strings.Split | app/main.py:26 | `str.split(sep)`; never empty, and `JoinSplit`, `SplitJoin` and `SplitPiecesFree` tie it to joining |
| Strings.Find | app/main.py:20 | `bytes.find`; the index fits in the input, and `FindSpec` states it is the first occurrence, or absent exactly when there is none |
| Strings.Lower | app/main.py:37 | `str.lower` on ASCII: same length, each letter lowered, and it distributes over concatenation (`LowerAppend`) |
| Strings.ParseInt | app/main.py:39 | `int()` on an optional sign followed by digits: it succeeds exactly on that shape, non-negative without a minus sign and non-positive with one |
| Strings.SignedDigits | app/main.py:39 | for a digit run `t`, `int("+" + t) == int(t)` and `int("-" + t) == -int(t)` |
| Strings.LeadingZero | app/main.py:39 | a leading zero does not change the value of a digit run |
| Strings.SignedRoundTrip | app/main.py:39 | `int("-" + str(n)) == -n` and `int("+" + str(n)) == n` |
| Strings.NatToString | app/main.py:97 | `str(n)` is a non-empty digit string, and `ParseShowRoundTrip` reads it back as `n` |
| Strings.ParseShowRoundTrip | app/main.py:39 | `int(str(n)) == n` for every length `n` |
| HttpResponse.Serialise | app/main.py:50-64 | a response's wire form; `ResponseFraming` states that a reader finds the status line, each header line and the body back in it |
| HttpResponse.BuildResponse | app/main.py:50-64 | the output starts with the status line and CRLF, and ends with the body unchanged |
| HttpResponse.NoHeadersSameAsEmpty | app/main.py:56-57 | `headers=None` serialises the same as no headers |
| HttpResponse.ResponseFraming | app/main.py:59-63 | a client reading the output finds the head at the first CRLF CRLF; it splits into the status line and exactly the given header lines in order, with none added; the rest is the body |
| Routes.PlainText | app/main.py:95-99 | 200 with the given body, a `Content-Type: text/plain` header and a `Content-Length` header that is its length, and no other Content-Length |
| Routes.GzipText | app/main.py:84-93 | 200 with the compressed bytes, `Content-Type: text/plain`, `Content-Encoding: gzip` and a `Content-Length` header that is their length, and no other Content-Length |
| Routes.OctetStream | app/main.py:121-131 | 200 with the file bytes, `Content-Type: application/octet-stream` and a `Content-Length` header that is their length, and no other Content-Length |
| Routes.ContentLengthReadsBack | app/main.py:97 | any Content-Length header such a response carries reads back with `int()` as the body length |
| Routes.RouteOf | app/main.py:72-135 | which branch a path takes; `RouteOfIff` states it for every path |
| Routes.Dispatch | app/main.py:67-135 | `handle_request`: the answer of the path's route; `Respond`'s contract and the route-by-route lemmas below state it |
| Routes.AcceptsGzip | app/main.py:81-83 | the gzip test on Accept-Encoding; `AcceptsGzipTokens` ties it to the token list |
| Routes.RouteOfIff | app/main.py:72-135 | `/` matches only exactly; each prefix route is taken exactly for the paths with that prefix, and the rest of the path is its argument |
| Routes.Respond | app/main.py:72-135 | every answer's Content-Length matches its body; the status is 200, 201 or 404, and 201/404 carry no headers or body; the files change only by a configured POST; raising happens exactly when opening the file fails |
| Routes.FilesResponse | app/main.py:109-133 | the same facts for the files route alone |
| Routes.RootRoute | app/main.py:72-77 | `/` answers 200 text/plain with Content-Length 0 and an empty body |
| Routes.EchoRoute | app/main.py:79-99 | `/echo/<s>` answers gzip text of `compress(s)` when Accept-Encoding accepts gzip, else `s` as plain text |
| Routes.AcceptsGzipTokens | app/main.py:81-83 | gzip is chosen exactly when "gzip" is among the stripped, lower-cased, comma-separated tokens |
| Routes.GzipInList | app/main.py:83 | gzip is accepted in a comma-joined list exactly when one side accepts it |
| Routes.GzipSingleToken | app/main.py:83 | a comma-free value accepts gzip exactly when it is "gzip" after lower-casing and trimming |
| Routes.UserAgentRoute | app/main.py:101-107 | `/user-agent...` reflects the User-Agent value, or "" when absent, with its length |
| Routes.FilesUnconfigured | app/main.py:111-112 | with no directory every files request is 404 and nothing changes |
| Routes.UploadFile | app/main.py:116-119 | POST stores the body under the name and answers 201 with nothing else |
| Routes.DownloadFile | app/main.py:121-131 | a non-POST request for an existing file answers its bytes as an octet stream |
| Routes.ReadOnlyFile | app/main.py:116-131 | a file that opens for reading but not for writing answers a non-POST request with its bytes, and a POST with the exception |
| Routes.UploadThenDownload | app/main.py:116-131 | after POSTing content, a non-POST request for the same name returns that content |
| Routes.MissingFile | app/main.py:121-133 | a non-POST request for an absent file is 404 |
| Routes.UnknownPath | app/main.py:135 | a path no route claims is 404 with no headers and no body |
| Connection.ErrorResponse | app/main.py:151-157 | a 500 whose body is the fixed prefix followed by the exception text, with `Content-Type: text/plain` and a `Content-Length` header that is the body length |
| Connection.Outcome | app/main.py:142-158 | the response and the files after one connection; `OutcomeWellFormed`, `BadRequestIff` and `ServerErrorIff` classify it |
| Connection.HeadFailureAnswers500 | app/main.py:142-158 | whatever makes the head raise is answered with the 500 for that exception, and nothing is written |
| Connection.MissingColonAnswers500 | app/main.py:142-158 | a header line without a colon (the unpacking at line 36) before the first blank line makes the answer a 500 and leaves the files alone |
| Connection.InvalidContentLengthAnswers500 | app/main.py:142-158 | a Content-Length that is not an integer literal (the `int()` at line 39) makes the answer the 500 naming that value, and leaves the files alone |
| Connection.OversizedBodyAnswers500 | app/main.py:142-158 | a Content-Length beyond what `recv` accepts (the call at line 42) makes the answer a 500 and nothing is written, whatever the route |
| Connection.OutcomeWellFormed | app/main.py:142-158 | every response's Content-Length matches its body; the status is one of 200, 201, 404, 400, 500; and a 400 has no headers and no body |
| Connection.HandleClient | app/main.py:142-158 | the bytes sent are the serialised outcome and the files are its store; an empty connection is answered with a bare 400 |
| Connection.BadRequestIff | app/main.py:143-145 | 400 is answered exactly when there is no request or the method is empty |
| Connection.ServerErrorIff | app/main.py:151-158 | 500 is answered exactly when parsing raised or the route table raised |
| Connection.ServerErrorBody | app/main.py:151-157 | every 500 is the error response for some exception's text |
| Connection.StoreChangesOnlyByUpload | app/main.py:143-149 | the files change only through a configured POST under `/files/`, which stores the request body |
| Connection.RequestReachesRoutes | app/main.py:143-149 | a well-formed request in the first read reaches the route table exactly as sent |

## Left out

- Sockets, threads and startup: `recv` becomes the chunk sequence. `sendall`, `close`, `threading`, `argparse`, `main`, HOST and PORT are left out. The response is returned instead of sent. A failure in `sendall` itself is not modelled.
- UTF-8: `decode("utf-8", errors="replace")` and `.encode("utf-8")` are identities on one alphabet. So each Content-Length equals the byte length only for ASCII text.
- `gzip.compress`: an uninterpreted function `compress`. Only the header choice and the length of its result are stated.
- `str(e)`: an uninterpreted function `describe` on the modelled exceptions.
- The filesystem: `os.path.join`, `os.path.isfile` and `open` become lookups in `Store`.
  - The directory matters only through being set and non-empty.
  - Path traversal and directory names are not modelled.
  - Whether `open(..., "wb")` raises is given by `Store.unwritable`, and whether `open(..., "rb")` raises by `Store.unreadable`.
  - The file is assumed to exist exactly when it is in `Store.files`.
- Python's `int()`: only an optional sign followed by ASCII digits is accepted. Underscores, surrounding whitespace and non-ASCII digits, which Python also accepts, are not.
- `str.lower()`: only ASCII letters are mapped. Python also lower-cases other letters.
- `ValueError` from unpacking the request line is modelled as the "no request" result it is caught into. Other exceptions that the Python runtime could raise are not modelled: in particular a Content-Length that fits `recv`'s size but is too large to allocate raises `MemoryError` in `recv` (a 500 with nothing written), which depends on the machine's memory; the model reads such a body instead.
- A write that fails after `open(full_path, "wb")` has truncated the file: the server then answers 500 with the file already changed. The model has only failures of `open` itself (`Store.unwritable`, `Store.unreadable`), so in the model a failed request never changes the files.
- SplitJoin: requires that no part contains the separator's first character. This hypothesis is stronger than "no part contains the separator", which does not suffice: the parts `["a", ""]` contain no `"aa"`, yet splitting `"aaa"` on `"aa"` gives `["", "a"]`. For the CRLF separator the hypothesis means no line holds a CR.
