/** `parse_http_request`: reading one request from a connection. The
    connection is the sequence of chunks successive `recv` calls see; the
    head must arrive in the first read, and the body is completed from
    later reads according to Content-Length. */
module HttpRequest {
  import opened Wrappers
  import opened Strings
  import opened Framing
  import opened Errors

  // ---------------------------------------------------------------------
  // The connection
  // ---------------------------------------------------------------------

  /** What the peer sends, chunk by chunk. An empty chunk, or the end of
      the sequence, is the peer closing the connection. */
  type Stream = seq<string>

  /** The size of the first read. */
  const FirstReadSize: nat := 1024

  /** The largest size `recv` accepts: `PY_SSIZE_T_MAX` on a 64-bit
      platform. A larger request raises before anything is read. */
  const MaxRecvSize: nat := 0x7FFF_FFFF_FFFF_FFFF

  /** Everything the peer sends before closing. */
  function Delivered(s: Stream): string {
    if |s| == 0 || s[0] == [] then [] else s[0] + Delivered(s[1..])
  }

  /** `conn.recv(n)`: at most `n` bytes of the next chunk; bytes beyond `n`
      stay in the connection for the next read. */
  function Recv(s: Stream, n: nat): (r: (string, Stream))
    requires n >= 1
    ensures |r.0| <= n
    ensures r.0 == [] <==> Delivered(s) == []
    ensures r.0 != [] ==> Delivered(s) == r.0 + Delivered(r.1)
  {
    if |s| == 0 then ([], [])
    else if |s[0]| <= n then (s[0], s[1..])
    else
      var c := s[0];
      var later := [c[n..]] + s[1..];
      assert later[1..] == s[1..];
      assert c == c[..n] + c[n..];
      (c[..n], later)
  }

  // ---------------------------------------------------------------------
  // The body
  // ---------------------------------------------------------------------

  function Min(a: int, b: int): int {
    if a <= b then a else b
  }

  /** The body a request ends up with: the bytes already received after
      the blank line, all of them, then the peer's further bytes until
      the declared length is reached or the peer closes. */
  function ExpectedBody(initial: string, later: Stream, contentLength: int): string {
    var d := Delivered(later);
    var missing := if contentLength > |initial| then contentLength - |initial| else 0;
    initial + d[..Min(missing, |d|)]
  }

  /** A negative Content-Length such as `-5` is accepted by `int()`, and
      the body is then just the bytes already received. */
  lemma NegativeContentLength(initial: string, later: Stream, n: nat)
    requires n > 0
    ensures ParseInt("-" + NatToString(n)) == Some(-(n as int))
    ensures ExpectedBody(initial, later, -(n as int)) == initial
  {
    SignedRoundTrip(n);
    assert Delivered(later)[..0] == [];
  }

  /** The read loop: while the body is shorter than Content-Length, ask
      for exactly the missing byte count; stop early on an empty read. */
  method ReadBody(initial: string, later: Stream, contentLength: int) returns (body: string)
    ensures body == ExpectedBody(initial, later, contentLength)
    ensures |initial| <= |body| && body[..|initial|] == initial
    ensures |initial| <= contentLength ==> |body| <= contentLength
    ensures |initial| >= contentLength ==> body == initial
    ensures |body| >= contentLength || body == initial + Delivered(later)
  {
    body := initial;
    var s := later;
    ghost var d := Delivered(later);
    while |body| < contentLength
      invariant |initial| <= |body| <= |initial| + |d|
      invariant body == initial + d[..|body| - |initial|]
      invariant Delivered(s) == d[|body| - |initial|..]
      invariant |initial| <= contentLength ==> |body| <= contentLength
      invariant |initial| >= contentLength ==> body == initial
      decreases contentLength - |body|
    {
      var (chunk, s') := Recv(s, contentLength - |body|);
      if chunk == [] {
        break;
      }
      TakeMore(d, |body| - |initial|, chunk, Delivered(s'));
      body := body + chunk;
      s := s';
    }
  }

  /** One read moves the boundary between what the body holds and what
      the peer still has to send. */
  lemma TakeMore(d: string, k: nat, chunk: string, more: string)
    requires k <= |d| && d[k..] == chunk + more
    ensures k + |chunk| <= |d|
    ensures d[..k + |chunk|] == d[..k] + chunk
    ensures d[k + |chunk|..] == more
  {
    assert d[k..][..|chunk|] == chunk;
    assert d[k..][|chunk|..] == more;
  }

  // ---------------------------------------------------------------------
  // The request line
  // ---------------------------------------------------------------------

  predicate NoSpace(s: string) {
    forall k :: 0 <= k < |s| ==> s[k] != ' '
  }

  /** `method, path, version = line.split(" ")`: `None` when the split
      does not give exactly three tokens. */
  function ParseRequestLine(line: string): (r: Option<(string, string, string)>)
    ensures r.Some? <==> |Split(line, " ")| == 3
    ensures r.Some? ==> var (m, p, v) := r.value;
                        line == m + " " + p + " " + v && NoSpace(m) && NoSpace(p) && NoSpace(v)
  {
    var toks := Split(line, " ");
    if |toks| == 3 then
      JoinSplit(line, " ");
      SplitPiecesFree(line, " ");
      FreeOfChar(toks[0], ' ');
      FreeOfChar(toks[1], ' ');
      FreeOfChar(toks[2], ' ');
      assert toks == [toks[0], toks[1], toks[2]];
      JoinThree(toks[0], toks[1], toks[2], " ");
      Some((toks[0], toks[1], toks[2]))
    else None
  }

  /** A request line is accepted exactly when it is three space-free
      tokens separated by single spaces, and then it gives those tokens. */
  lemma RequestLineRoundTrip(m: string, p: string, v: string)
    requires NoSpace(m) && NoSpace(p) && NoSpace(v)
    ensures ParseRequestLine(m + " " + p + " " + v) == Some((m, p, v))
  {
    var parts := [m, p, v];
    JoinThree(m, p, v, " ");
    SplitJoin(parts, " ");
  }

  // ---------------------------------------------------------------------
  // Header lines
  // ---------------------------------------------------------------------

  /** `not line.strip()`: the line that ends the header loop. */
  predicate IsBlank(line: string) {
    Strip(line) == []
  }

  /** The key and value a header line stores: split at the first `:`,
      the name stripped and lower-cased, the value stripped. */
  function FieldOf(line: string): (r: Option<(string, string)>)
    ensures r.None? <==> Free(line, ":")
  {
    match SplitOnce(line, ":")
    case None => None
    case Some((k, v)) => Some((Lower(Strip(k)), Strip(v)))
  }

  /** A header line with whitespace around its name and around its value
      stores the lower-cased bare name and the bare value. */
  lemma FieldOfPadded(a: string, k: string, b: string, c: string, v: string, d: string)
    requires AllSpace(a) && AllSpace(b) && AllSpace(c) && AllSpace(d)
    requires Trimmed(k) && Trimmed(v) && ':' !in k
    ensures FieldOf(a + k + b + ":" + c + v + d) == Some((Lower(k), v))
  {
    var name := a + k + b;
    assert forall i :: 0 <= i < |name| ==> name[i] != ':' by {
      assert forall i :: 0 <= i < |a| ==> name[i] == a[i];
      assert forall i :: |a| <= i < |a| + |k| ==> name[i] == k[i - |a|];
      assert forall i :: |a| + |k| <= i < |name| ==> name[i] == b[i - |a| - |k|];
    }
    SplitOnceAfterFree(name, ":", c + v + d);
    assert a + k + b + ":" + c + v + d == name + ":" + (c + v + d);
    StripPadded(a, k, b);
    StripPadded(c, v, d);
  }

  /** The header loop, left to right; a later duplicate overwrites an
      earlier one, a blank line stops the loop, and a non-blank line
      without a colon raises. */
  function ParseFields(lines: seq<string>, acc: map<string, string>): Result<map<string, string>, Error>
    decreases |lines|
  {
    if |lines| == 0 || IsBlank(lines[0]) then Success(acc)
    else match FieldOf(lines[0])
      case None => Failure(MalformedHeader(lines[0]))
      case Some(kv) => ParseFields(lines[1..], acc[kv.0 := kv.1])
  }

  /** The header lines the loop looks at: those before the first blank
      line. */
  function Block(lines: seq<string>): seq<string> {
    if |lines| == 0 || IsBlank(lines[0]) then []
    else [lines[0]] + Block(lines[1..])
  }

  /** The value of the last line in `ls` that stores key `k`. */
  function LastValue(ls: seq<string>, k: string): Option<string> {
    if |ls| == 0 then None
    else match LastValue(ls[1..], k)
      case Some(v) => Some(v)
      case None =>
        match FieldOf(ls[0])
        case Some(kv) => if kv.0 == k then Some(kv.1) else None
        case None => None
  }

  /** Last write wins: after a successful loop, key `k` holds the value
      of the last header line naming it, or the value it had before. */
  lemma {:induction false} HeadersLastWins(lines: seq<string>, acc: map<string, string>, k: string)
    requires ParseFields(lines, acc).Success?
    ensures var m := ParseFields(lines, acc).value;
            var last := LastValue(Block(lines), k);
            && (k in m <==> last.Some? || k in acc)
            && (k in m ==> m[k] == if last.Some? then last.value else acc[k])
    decreases |lines|
  {
    if |lines| > 0 && !IsBlank(lines[0]) {
      var kv := FieldOf(lines[0]).value;
      var acc' := acc[kv.0 := kv.1];
      assert ParseFields(lines, acc) == ParseFields(lines[1..], acc');
      HeadersLastWins(lines[1..], acc', k);
      var b := Block(lines[1..]);
      assert Block(lines) == [lines[0]] + b;
      LastValueCons(lines[0], b, k);
    }
  }

  lemma LastValueCons(l: string, b: seq<string>, k: string)
    ensures LastValue([l] + b, k) ==
            match LastValue(b, k)
            case Some(v) => Some(v)
            case None =>
              match FieldOf(l)
              case Some(kv) => if kv.0 == k then Some(kv.1) else None
              case None => None
  {
    assert ([l] + b)[1..] == b;
  }

  /** The loop raises exactly when some line before the first blank line
      has no colon, and the error names such a line. */
  lemma {:induction false} HeaderErrorIff(lines: seq<string>, acc: map<string, string>)
    ensures var r := ParseFields(lines, acc);
            r.Failure? <==> exists i :: 0 <= i < |Block(lines)| && Free(Block(lines)[i], ":")
    ensures var r := ParseFields(lines, acc);
            r.Failure? ==> r.error.MalformedHeader? && r.error.line in Block(lines) && Free(r.error.line, ":")
    decreases |lines|
  {
    if |lines| > 0 && !IsBlank(lines[0]) {
      var b := Block(lines);
      assert b[0] == lines[0];
      assert b[1..] == Block(lines[1..]);
      match FieldOf(lines[0])
      case None =>
      case Some(kv) =>
        HeaderErrorIff(lines[1..], acc[kv.0 := kv.1]);
        if exists i :: 0 <= i < |b| && Free(b[i], ":") {
          var i :| 0 <= i < |b| && Free(b[i], ":");
          assert i != 0;
          assert b[1..][i - 1] == b[i];
        }
        if exists i :: 0 <= i < |b[1..]| && Free(b[1..][i], ":") {
          var i :| 0 <= i < |b[1..]| && Free(b[1..][i], ":");
          assert b[i + 1] == b[1..][i];
        }
    }
  }

  /** Nothing after the first blank line has any effect. */
  lemma {:induction false} StopsAtBlank(lines: seq<string>, blank: string, tail: seq<string>, acc: map<string, string>)
    requires IsBlank(blank)
    ensures ParseFields(lines + [blank] + tail, acc) == ParseFields(lines, acc)
    decreases |lines|
  {
    var all := lines + [blank] + tail;
    if |lines| == 0 {
      assert all[0] == blank;
    } else {
      assert all[0] == lines[0];
      assert all[1..] == lines[1..] + [blank] + tail;
      if !IsBlank(lines[0]) {
        match FieldOf(lines[0])
        case None =>
        case Some(kv) => StopsAtBlank(lines[1..], blank, tail, acc[kv.0 := kv.1]);
      }
    }
  }

  // ---------------------------------------------------------------------
  // Content-Length
  // ---------------------------------------------------------------------

  /** `int(headers.get("content-length", 0))`. */
  function ContentLength(headers: map<string, string>): Result<int, Error> {
    if "content-length" !in headers then Success(0)
    else match ParseInt(headers["content-length"])
      case Some(n) => Success(n)
      case None => Failure(InvalidContentLength(headers["content-length"]))
  }

  // ---------------------------------------------------------------------
  // The head
  // ---------------------------------------------------------------------

  /** What the first read determines: the request line, the headers, the
      declared body length and the body bytes already received. */
  datatype Head = Head(verb: string, path: string, version: string,
                       headers: map<string, string>, contentLength: int, bodyStart: string)

  /** The request line is the head's first CRLF-separated line. */
  function RequestLineOf(head: string): string {
    Split(head, CRLF)[0]
  }

  /** Parsing the first read. `Success(None)` is `parse_http_request`'s "no request"
      tuple, `Failure` an exception. */
  function ParseHead(data: string): Result<Option<Head>, Error> {
    match Find(data, BlankLine)
    case None => Success(None)
    case Some(end) =>
      var lines := Split(data[..end], CRLF);
      match ParseRequestLine(lines[0])
      case None => Success(None)
      case Some((m, p, v)) =>
        match ParseFields(lines[1..], map[])
        case Failure(e) => Failure(e)
        case Success(hs) =>
          match ContentLength(hs)
          case Failure(e) => Failure(e)
          case Success(cl) => Success(Some(Head(m, p, v, hs, cl, data[end + 4..])))
  }

  /** Without a blank line in the first read there is no request. */
  lemma NoBlankLineNoRequest(data: string)
    requires Free(data, BlankLine)
    ensures ParseHead(data) == Success(None)
  {
    FindSpec(data, BlankLine);
  }

  /** The body starts exactly four bytes after the first CRLF CRLF, and
      everything from there on is kept. */
  lemma BodyStartsAfterBlankLine(data: string)
    requires ParseHead(data).Success? && ParseHead(data).value.Some?
    ensures var h := ParseHead(data).value.value;
            var end := |data| - |h.bodyStart| - 4;
            && end >= 0
            && FirstAt(data, BlankLine, end)
            && data[end + 4..] == h.bodyStart
  {
    var end := Find(data, BlankLine).value;
    HeadKeepsRest(data);
    FindSpec(data, BlankLine);
    assert |data[end + 4..]| == |data| - end - 4;
  }

  /** A parsed head comes from a first read with a blank line, and keeps
      everything after it. */
  lemma HeadKeepsRest(data: string)
    requires ParseHead(data).Success? && ParseHead(data).value.Some?
    ensures Find(data, BlankLine).Some?
    ensures ParseHead(data).value.value.bodyStart == data[Find(data, BlankLine).value + 4..]
  {
  }

  /** An accepted request line is three space-free tokens, separated by
      single spaces, at the very start of the first read. */
  lemma RequestLineAtStart(data: string)
    requires ParseHead(data).Success? && ParseHead(data).value.Some?
    ensures var h := ParseHead(data).value.value;
            var line := h.verb + " " + h.path + " " + h.version;
            && NoSpace(h.verb) && NoSpace(h.path) && NoSpace(h.version)
            && |line| <= |data| && data[..|line|] == line
  {
    var end := Find(data, BlankLine).value;
    var head := data[..end];
    var lines := Split(head, CRLF);
    JoinSplit(head, CRLF);
    JoinPrefix(lines, CRLF);
    assert data[..|lines[0]|] == head[..|lines[0]|];
  }

  /** A missing Content-Length means 0; a present one must be an integer
      literal, otherwise the head raises. */
  lemma ContentLengthRules(data: string)
    ensures var r := ParseHead(data);
            r.Success? && r.value.Some? ==>
              var h := r.value.value;
              && ("content-length" !in h.headers ==> h.contentLength == 0)
              && ("content-length" in h.headers ==> ParseInt(h.headers["content-length"]) == Some(h.contentLength))
    ensures var r := ParseHead(data);
            r.Failure? && r.error.InvalidContentLength? ==> ParseInt(r.error.text).None?
  {
    match Find(data, BlankLine)
    case None =>
    case Some(end) =>
      var lines := Split(data[..end], CRLF);
      match ParseRequestLine(lines[0])
      case None =>
      case Some(_) =>
        var hs := ParseFields(lines[1..], map[]);
        if hs.Failure? {
          HeaderErrorIff(lines[1..], map[]);
        }
  }

  /** Once the first read holds a blank line and an accepted request line,
      the head raises exactly when the header loop raises or the
      Content-Length it stored is not an integer literal. The exception is
      the loop's, or names that Content-Length value; otherwise the head
      carries the loop's map. */
  lemma HeadFailureIff(data: string)
    requires Find(data, BlankLine).Some?
    requires ParseRequestLine(Split(data[..Find(data, BlankLine).value], CRLF)[0]).Some?
    ensures var lines := Split(data[..Find(data, BlankLine).value], CRLF);
            var fs := ParseFields(lines[1..], map[]);
            var r := ParseHead(data);
            && (r.Failure? <==> fs.Failure? || ("content-length" in fs.value && ParseInt(fs.value["content-length"]).None?))
            && (fs.Failure? ==> r == Failure(fs.error))
            && (fs.Success? && "content-length" in fs.value && ParseInt(fs.value["content-length"]).None?
                ==> r == Failure(InvalidContentLength(fs.value["content-length"])))
            && (r.Success? ==> r.value.Some? && r.value.value.headers == fs.value)
  {
  }

  // ---------------------------------------------------------------------
  // The whole request
  // ---------------------------------------------------------------------

  datatype Request = Request(verb: string, path: string, version: string,
                             headers: map<string, string>, body: string)

  /** The outcome of `parse_http_request`, stated without a loop: the
      request, `None` for "no request", or the exception raised. */
  function ReadRequest(conn: Stream): Result<Option<Request>, Error> {
    var first := Recv(conn, FirstReadSize).0;
    var later := Recv(conn, FirstReadSize).1;
    if first == [] then Success(None)
    else match ParseHead(first)
      case Failure(e) => Failure(e)
      case Success(None) => Success(None)
      case Success(Some(h)) => Complete(h, later)
  }

  /** The request a parsed head ends up as once the body is read from the
      rest of the connection; asking `recv` for an oversized count raises. */
  function Complete(h: Head, later: Stream): Result<Option<Request>, Error> {
    var missing := h.contentLength - |h.bodyStart|;
    if missing > MaxRecvSize then Failure(RecvTooLarge(missing))
    else Success(Some(Request(h.verb, h.path, h.version, h.headers,
                              ExpectedBody(h.bodyStart, later, h.contentLength))))
  }

  /** An oversized missing byte count raises whatever the connection
      holds, and the body is never read. */
  lemma OversizedRaises(conn: Stream, h: Head)
    requires ParseHead(Recv(conn, FirstReadSize).0) == Success(Some(h))
    requires h.contentLength - |h.bodyStart| > MaxRecvSize
    ensures ReadRequest(conn) == Failure(RecvTooLarge(h.contentLength - |h.bodyStart|))
  {
    var first := Recv(conn, FirstReadSize).0;
    HeadKeepsRest(first);
    CompleteTooLarge(h, Recv(conn, FirstReadSize).1);
  }

  lemma CompleteTooLarge(h: Head, later: Stream)
    requires h.contentLength - |h.bodyStart| > MaxRecvSize
    ensures Complete(h, later) == Failure(RecvTooLarge(h.contentLength - |h.bodyStart|))
  {
  }

  /** `parse_http_request` itself: the first read, the head, then the
      body read loop. */
  method ParseHttpRequest(conn: Stream) returns (r: Result<Option<Request>, Error>)
    ensures r == ReadRequest(conn)
  {
    var (first, later) := Recv(conn, FirstReadSize);
    if first == [] {
      return Success(None);
    }
    var head := ParseHead(first);
    match head
    case Failure(e) =>
      r := Failure(e);
    case Success(None) =>
      r := Success(None);
    case Success(Some(h)) =>
      r := CompleteHead(h, later);
  }

  /** The read loop after a parsed head, guarded by the size `recv`
      accepts. */
  method CompleteHead(h: Head, later: Stream) returns (r: Result<Option<Request>, Error>)
    ensures r == Complete(h, later)
  {
    var missing := h.contentLength - |h.bodyStart|;
    if missing > MaxRecvSize {
      r := Failure(RecvTooLarge(missing));
    } else {
      var body := ReadBody(h.bodyStart, later, h.contentLength);
      r := Success(Some(Request(h.verb, h.path, h.version, h.headers, body)));
    }
  }

  /** The three ways to get "no request": nothing was sent, the first read
      holds no blank line, or its first line is not three tokens. */
  lemma NoRequestIff(conn: Stream)
    ensures var first := Recv(conn, FirstReadSize).0;
            ReadRequest(conn) == Success(None) <==>
              || Delivered(conn) == []
              || Free(first, BlankLine)
              || (Find(first, BlankLine).Some?
                  && ParseRequestLine(RequestLineOf(first[..Find(first, BlankLine).value])).None?)
  {
    var first := Recv(conn, FirstReadSize).0;
    FindSpec(first, BlankLine);
  }

  // ---------------------------------------------------------------------
  // Round trip: a well-formed request is read back as sent
  // ---------------------------------------------------------------------

  /** The text of a request as a client sends it. */
  function RenderRequest(m: string, p: string, v: string, fields: seq<Field>, body: string): string {
    Join([m + " " + p + " " + v] + FieldLines(fields), CRLF) + BlankLine + body
  }

  /** The header map a sequence of well-formed fields produces. */
  function FoldFields(fields: seq<Field>, acc: map<string, string>): map<string, string>
    decreases |fields|
  {
    if |fields| == 0 then acc
    else FoldFields(fields[1..], acc[Lower(fields[0].0) := fields[0].1])
  }

  predicate Token(s: string) {
    NoSpace(s) && NoCR(s)
  }

  lemma TokensLineNoCR(m: string, p: string, v: string)
    requires Token(m) && Token(p) && Token(v)
    ensures NoCR(m + " " + p + " " + v)
  {
    var line := m + " " + p + " " + v;
    forall k | 0 <= k < |line|
      ensures line[k] != '\r'
    {
      if k < |m| {
        assert line[k] == m[k];
      } else if |m| < k < |m| + 1 + |p| {
        assert line[k] == p[k - |m| - 1];
      } else if k > |m| + 1 + |p| {
        assert line[k] == v[k - |m| - |p| - 2];
      }
    }
  }

  /** A field the header loop reads back unchanged: the name has no colon,
      and neither part has surrounding whitespace or a CR. */
  predicate WellFormedField(f: Field) {
    && NoCR(f.0) && NoCR(f.1)
    && (forall k :: 0 <= k < |f.0| ==> f.0[k] != ':')
    && Trimmed(f.0) && Trimmed(f.1)
  }

  lemma FieldLineRead(f: Field)
    requires WellFormedField(f)
    ensures !IsBlank(FieldLine(f))
    ensures FieldOf(FieldLine(f)) == Some((Lower(f.0), f.1))
  {
    var line := FieldLine(f);
    assert line == f.0 + ":" + (" " + f.1);
    assert line[|f.0|] == ':';
    StripEmptyIffAllSpace(line);
    SplitOnceAfterFree(f.0, ":", " " + f.1);
    StripTrimmed(f.0);
    StripTrimmed(f.1);
    assert " " + f.1 == [' '] + f.1;
  }

  lemma ParseFieldsCons(l: string, rest: seq<string>, acc: map<string, string>, kv: (string, string))
    requires !IsBlank(l) && FieldOf(l) == Some(kv)
    ensures ParseFields([l] + rest, acc) == ParseFields(rest, acc[kv.0 := kv.1])
  {
    assert ([l] + rest)[1..] == rest;
  }

  lemma {:induction false} FieldsRoundTrip(fields: seq<Field>, acc: map<string, string>)
    requires forall i :: 0 <= i < |fields| ==> WellFormedField(fields[i])
    ensures ParseFields(FieldLines(fields), acc) == Success(FoldFields(fields, acc))
    decreases |fields|
  {
    if |fields| > 0 {
      var f := fields[0];
      FieldLineRead(f);
      var acc' := acc[Lower(f.0) := f.1];
      FieldLinesCons(fields);
      ParseFieldsCons(FieldLine(f), FieldLines(fields[1..]), acc, (Lower(f.0), f.1));
      FieldsRoundTrip(fields[1..], acc');
    }
  }

  lemma ParseHeadSome(data: string, end: nat, lines: seq<string>, m: string, p: string, v: string,
                      hs: map<string, string>, cl: int)
    requires Find(data, BlankLine) == Some(end) && Split(data[..end], CRLF) == lines
    requires ParseRequestLine(lines[0]) == Some((m, p, v))
    requires ParseFields(lines[1..], map[]) == Success(hs) && ContentLength(hs) == Success(cl)
    ensures ParseHead(data) == Success(Some(Head(m, p, v, hs, cl, data[end + 4..])))
  {
  }

  /** The head of a rendered request ends at its first blank line and
      splits back into the request line and the field lines. */
  lemma RenderedFraming(m: string, p: string, v: string, fields: seq<Field>, body: string)
    requires Token(m) && Token(p) && Token(v) && FieldsWithoutCR(fields)
    ensures var lines := [m + " " + p + " " + v] + FieldLines(fields);
            var h := Join(lines, CRLF);
            var text := RenderRequest(m, p, v, fields, body);
            && Find(text, BlankLine) == Some(|h|)
            && text[..|h|] == h
            && text[|h| + 4..] == body
            && Split(h, CRLF) == lines
  {
    var line := m + " " + p + " " + v;
    var lines := [line] + FieldLines(fields);
    var text := RenderRequest(m, p, v, fields, body);
    TokensLineNoCR(m, p, v);
    HeaderLinesFramable(line, fields);
    var h := Join(lines, CRLF);
    HeadEnd(lines, body);
    HeadLines(lines);
    assert text[..|h|] == h;
    assert text[|h| + 4..] == body;
  }

  /** The head of a rendered request parses back to its parts, and the
      whole text after the blank line is the start of the body. */
  lemma RenderedHead(m: string, p: string, v: string, fields: seq<Field>, body: string)
    requires Token(m) && Token(p) && Token(v)
    requires forall i :: 0 <= i < |fields| ==> WellFormedField(fields[i])
    requires ContentLength(FoldFields(fields, map[])).Success?
    ensures var hs := FoldFields(fields, map[]);
            ParseHead(RenderRequest(m, p, v, fields, body))
            == Success(Some(Head(m, p, v, hs, ContentLength(hs).value, body)))
  {
    var line := m + " " + p + " " + v;
    var lines := [line] + FieldLines(fields);
    var text := RenderRequest(m, p, v, fields, body);
    var h := Join(lines, CRLF);
    RenderedFraming(m, p, v, fields, body);
    RequestLineRoundTrip(m, p, v);
    assert lines[0] == line && lines[1..] == FieldLines(fields);
    FieldsRoundTrip(fields, map[]);
    var hs := FoldFields(fields, map[]);
    assert text[..|h|] == h;
    ParseHeadSome(text, |h|, lines, m, p, v, hs, ContentLength(hs).value);
  }

  /** A request whose tokens have no spaces or CRs, whose fields are well
      formed, whose Content-Length (if any) is the body length, and which
      arrives in the first read, is read back exactly as it was sent,
      whatever the peer sends afterwards. */
  lemma RequestRoundTrip(m: string, p: string, v: string, fields: seq<Field>, body: string, after: Stream)
    requires Token(m) && Token(p) && Token(v)
    requires forall i :: 0 <= i < |fields| ==> WellFormedField(fields[i])
    requires var hs := FoldFields(fields, map[]);
             "content-length" in hs ==> hs["content-length"] == NatToString(|body|)
    requires |RenderRequest(m, p, v, fields, body)| <= FirstReadSize
    ensures ReadRequest([RenderRequest(m, p, v, fields, body)] + after)
            == Success(Some(Request(m, p, v, FoldFields(fields, map[]), body)))
  {
    var text := RenderRequest(m, p, v, fields, body);
    var conn := [text] + after;
    assert conn[0] == text && conn[1..] == after;
    assert text != [] by {
      assert text[|text| - |body| - 4..|text| - |body|] == BlankLine;
    }
    assert Recv(conn, FirstReadSize) == (text, after);
    var hs := FoldFields(fields, map[]);
    ParseShowRoundTrip(|body|);
    var cl := ContentLength(hs).value;
    RenderedHead(m, p, v, fields, body);
    assert ExpectedBody(body, after, cl) == body;
  }
}
