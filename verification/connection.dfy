/** `handle_client`: read one request, answer 400 when there is none, hand
    it to the route table otherwise, and turn any exception raised on the
    way into a 500 whose body names the exception. The text of an
    exception (`str(e)`) is the given function `describe`. */
module Connection {
  import opened Wrappers
  import opened Strings
  import opened Framing
  import opened Errors
  import opened HttpResponse
  import opened HttpRequest
  import opened Routes

  const BadRequest: string := "HTTP/1.1 400 Bad Request"
  const ServerError: string := "HTTP/1.1 500 Internal Server Error"
  const ErrorPrefix: string := "Internal Server Error: "

  /** The 500 answer for an exception whose text is `message`. */
  function ErrorResponse(message: string): (r: Response)
    ensures r.status == ServerError && r.body == ErrorPrefix + message
    ensures ContentLengthMatches(r)
    ensures ("Content-Type", "text/plain") in r.headers
    ensures ("Content-Length", NatToString(|ErrorPrefix + message|)) in r.headers
  {
    var text := ErrorPrefix + message;
    var fields := [("Content-Type", "text/plain"), ("Content-Length", NatToString(|text|))];
    assert DeclaresLength(fields[1..], |text|);
    Response(ServerError, fields, text)
  }

  /** The parser found no request, or found one whose method is empty
      (`not method`). */
  predicate NoRequest(parsed: Result<Option<Request>, Error>) {
    match parsed
    case Success(None) => true
    case Success(Some(q)) => q.verb == []
    case Failure(_) => false
  }

  /** The answer to the route table's result: its response, or a 500 for
      the exception it raised. */
  function Answer(handled: Result<(Response, Store), Error>, store: Store,
                  describe: Error -> string): (Response, Store)
  {
    match handled
    case Success(rs) => rs
    case Failure(e) => (ErrorResponse(describe(e)), store)
  }

  /** What the server sends on one connection, and the files afterwards. */
  function Outcome(conn: Stream, directory: Option<string>, store: Store,
                   compress: string -> string, describe: Error -> string): (Response, Store)
  {
    match ReadRequest(conn)
    case Failure(e) => (ErrorResponse(describe(e)), store)
    case Success(None) => (Response(BadRequest, [], []), store)
    case Success(Some(q)) =>
      if q.verb == [] then (Response(BadRequest, [], []), store)
      else Answer(Dispatch(q.verb, q.path, q.headers, q.body, directory, store, compress), store, describe)
  }

  /** `handle_client` with the read loop of `parse_http_request`: the bytes
      sent back and the files afterwards. */
  method HandleClient(conn: Stream, directory: Option<string>, store: Store,
                      compress: string -> string, describe: Error -> string)
    returns (wire: string, after: Store)
    ensures wire == Serialise(Outcome(conn, directory, store, compress, describe).0)
    ensures after == Outcome(conn, directory, store, compress, describe).1
    ensures Delivered(conn) == [] ==> wire == BadRequest + BlankLine && after == store
  {
    var parsed := ParseHttpRequest(conn);
    match parsed
    case Failure(e) =>
      wire := Serialise(ErrorResponse(describe(e)));
      after := store;
    case Success(None) =>
      wire := BuildResponse(BadRequest, None, []);
      after := store;
      NoHeadersSameAsEmpty(BadRequest, []);
    case Success(Some(q)) =>
      if q.verb == [] {
        wire := BuildResponse(BadRequest, None, []);
        after := store;
        NoHeadersSameAsEmpty(BadRequest, []);
      } else {
        var handled := Dispatch(q.verb, q.path, q.headers, q.body, directory, store, compress);
        match handled
        case Failure(e) =>
          wire := Serialise(ErrorResponse(describe(e)));
          after := store;
        case Success((response, written)) =>
          wire := Serialise(response);
          after := written;
      }
  }

  // ---------------------------------------------------------------------
  // Classification of outcomes
  // ---------------------------------------------------------------------

  /** Every answer declares its body length correctly, has one of five
      statuses, and a 400 carries nothing but its status line. */
  lemma OutcomeWellFormed(conn: Stream, directory: Option<string>, store: Store,
                          compress: string -> string, describe: Error -> string)
    ensures var o := Outcome(conn, directory, store, compress, describe).0;
            && ContentLengthMatches(o)
            && (KnownStatus(o.status) || o.status == BadRequest || o.status == ServerError)
            && (o.status == BadRequest ==> o.headers == [] && o.body == [])
  {
  }

  /** 400 is answered exactly when there is no request. */
  lemma BadRequestIff(conn: Stream, directory: Option<string>, store: Store,
                      compress: string -> string, describe: Error -> string)
    ensures Outcome(conn, directory, store, compress, describe).0.status == BadRequest
            <==> NoRequest(ReadRequest(conn))
  {
  }

  /** 500 is answered exactly when reading the request raised, or the
      route table raised on a request. */
  lemma ServerErrorIff(conn: Stream, directory: Option<string>, store: Store,
                       compress: string -> string, describe: Error -> string)
    ensures var parsed := ReadRequest(conn);
            Outcome(conn, directory, store, compress, describe).0.status == ServerError
            <==> || parsed.Failure?
                 || (&& !NoRequest(parsed)
                     && Dispatch(parsed.value.value.verb, parsed.value.value.path, parsed.value.value.headers,
                                 parsed.value.value.body, directory, store, compress).Failure?)
  {
  }

  /** Whatever makes the head of the first read raise is answered with a
      500 naming that exception, and nothing is written. */
  lemma HeadFailureAnswers500(conn: Stream, directory: Option<string>, store: Store,
                              compress: string -> string, describe: Error -> string)
    requires ParseHead(Recv(conn, FirstReadSize).0).Failure?
    ensures Outcome(conn, directory, store, compress, describe)
            == (ErrorResponse(describe(ParseHead(Recv(conn, FirstReadSize).0).error)), store)
  {
  }

  /** A header line without a colon before the first blank line is not
      skipped: the request is answered with a 500 and nothing is written. */
  lemma MissingColonAnswers500(conn: Stream, directory: Option<string>, store: Store,
                               compress: string -> string, describe: Error -> string)
    requires var first := Recv(conn, FirstReadSize).0;
             && Find(first, BlankLine).Some?
             && var lines := Split(first[..Find(first, BlankLine).value], CRLF);
                && ParseRequestLine(lines[0]).Some?
                && exists i :: 0 <= i < |Block(lines[1..])| && Free(Block(lines[1..])[i], ":")
    ensures var o := Outcome(conn, directory, store, compress, describe);
            o.0.status == ServerError && o.1 == store
  {
    var first := Recv(conn, FirstReadSize).0;
    var lines := Split(first[..Find(first, BlankLine).value], CRLF);
    HeaderErrorIff(lines[1..], map[]);
    HeadFailureIff(first);
    HeadFailureAnswers500(conn, directory, store, compress, describe);
  }

  /** A Content-Length that is not an integer literal is not read as 0:
      the request is answered with a 500 naming that value, and nothing is
      written. */
  lemma InvalidContentLengthAnswers500(conn: Stream, directory: Option<string>, store: Store,
                                       compress: string -> string, describe: Error -> string)
    requires var first := Recv(conn, FirstReadSize).0;
             && Find(first, BlankLine).Some?
             && var lines := Split(first[..Find(first, BlankLine).value], CRLF);
                && ParseRequestLine(lines[0]).Some?
                && ParseFields(lines[1..], map[]).Success?
                && var hs := ParseFields(lines[1..], map[]).value;
                   "content-length" in hs && ParseInt(hs["content-length"]).None?
    ensures var first := Recv(conn, FirstReadSize).0;
            var lines := Split(first[..Find(first, BlankLine).value], CRLF);
            var hs := ParseFields(lines[1..], map[]).value;
            Outcome(conn, directory, store, compress, describe)
            == (ErrorResponse(describe(InvalidContentLength(hs["content-length"]))), store)
  {
    var first := Recv(conn, FirstReadSize).0;
    HeadFailureIff(first);
    HeadFailureAnswers500(conn, directory, store, compress, describe);
  }

  /** A Content-Length so large that the missing byte count does not fit
      `recv`'s size is answered with a 500, and nothing is written, even
      on a route that would write a file. */
  lemma OversizedBodyAnswers500(conn: Stream, h: Head, directory: Option<string>, store: Store,
                                compress: string -> string, describe: Error -> string)
    requires ParseHead(Recv(conn, FirstReadSize).0) == Success(Some(h))
    requires h.contentLength - |h.bodyStart| > MaxRecvSize
    ensures Outcome(conn, directory, store, compress, describe)
            == (ErrorResponse(describe(RecvTooLarge(h.contentLength - |h.bodyStart|))), store)
  {
    OversizedRaises(conn, h);
  }

  /** A 500 names the exception after a fixed prefix, whichever step
      raised it. */
  lemma ServerErrorBody(conn: Stream, directory: Option<string>, store: Store,
                        compress: string -> string, describe: Error -> string)
    requires Outcome(conn, directory, store, compress, describe).0.status == ServerError
    ensures var o := Outcome(conn, directory, store, compress, describe).0;
            exists e :: o == ErrorResponse(describe(e))
  {
    var parsed := ReadRequest(conn);
    if parsed.Failure? {
      assert Outcome(conn, directory, store, compress, describe).0 == ErrorResponse(describe(parsed.error));
    } else {
      var q := parsed.value.value;
      var handled := Dispatch(q.verb, q.path, q.headers, q.body, directory, store, compress);
      assert Outcome(conn, directory, store, compress, describe).0 == ErrorResponse(describe(handled.error));
    }
  }

  /** The files change only when a request uploads one and the write
      succeeds; then exactly that file holds the request body. */
  lemma StoreChangesOnlyByUpload(conn: Stream, directory: Option<string>, store: Store,
                                 compress: string -> string, describe: Error -> string)
    ensures var after := Outcome(conn, directory, store, compress, describe).1;
            var parsed := ReadRequest(conn);
            after != store ==>
              && !NoRequest(parsed) && parsed.Success?
              && IsUpload(parsed.value.value.verb, parsed.value.value.path, directory)
              && after == store.(files := store.files[RouteOf(parsed.value.value.path).name := parsed.value.value.body])
  {
  }

  /** A well-formed request that arrives in the first read reaches the
      route table exactly as it was sent. */
  lemma RequestReachesRoutes(m: string, p: string, v: string, fields: seq<Field>, body: string,
                             after: Stream, directory: Option<string>, store: Store,
                             compress: string -> string, describe: Error -> string)
    requires m != [] && Token(m) && Token(p) && Token(v)
    requires forall i :: 0 <= i < |fields| ==> WellFormedField(fields[i])
    requires var hs := FoldFields(fields, map[]);
             "content-length" in hs ==> hs["content-length"] == NatToString(|body|)
    requires |RenderRequest(m, p, v, fields, body)| <= FirstReadSize
    ensures Outcome([RenderRequest(m, p, v, fields, body)] + after, directory, store, compress, describe)
            == Answer(Dispatch(m, p, FoldFields(fields, map[]), body, directory, store, compress), store, describe)
  {
    RequestRoundTrip(m, p, v, fields, body, after);
  }
}
