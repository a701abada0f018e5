/** `handle_request`: the route table. Routes are tried in order, `/` by
    exact match and the others by prefix, and the first match answers.
    The filesystem under the configured directory is a `Store`, and
    `gzip.compress` is the given function `compress`. */
module Routes {
  import opened Wrappers
  import opened Strings
  import opened Framing
  import opened Errors
  import opened HttpResponse

  const OK: string := "HTTP/1.1 200 OK"
  const Created: string := "HTTP/1.1 201 Created"
  const NotFound: string := "HTTP/1.1 404 Not Found"

  /** The files the `/files/` route can see, by name; the names whose
      `open(..., "wb")` raises, and the names whose `open(..., "rb")`
      raises. A read-only file is in `unwritable` only. */
  datatype Store = Store(files: map<string, string>, unwritable: set<string>, unreadable: set<string>)

  predicate StartsWith(s: string, prefix: string) {
    |prefix| <= |s| && s[..|prefix|] == prefix
  }

  /** `headers.get(name, "")`. */
  function Header(headers: map<string, string>, name: string): string {
    if name in headers then headers[name] else ""
  }

  /** `file_directory` is truthy: set and not empty. */
  predicate Configured(directory: Option<string>) {
    directory.Some? && directory.value != []
  }

  // ---------------------------------------------------------------------
  // Content-Length
  // ---------------------------------------------------------------------

  /** Every Content-Length field among `fields` carries `str(n)`. */
  predicate DeclaresLength(fields: seq<Field>, n: nat) {
    |fields| == 0
    || ((fields[0].0 == "Content-Length" ==> fields[0].1 == NatToString(n))
        && DeclaresLength(fields[1..], n))
  }

  /** Every Content-Length header of `r` declares its body length. */
  predicate ContentLengthMatches(r: Response) {
    DeclaresLength(r.headers, |r.body|)
  }

  /** A client that reads any Content-Length header of such a response
      with `int()` gets the body length back. */
  lemma {:induction false} ContentLengthReadsBack(fields: seq<Field>, n: nat, i: nat)
    requires DeclaresLength(fields, n)
    requires i < |fields| && fields[i].0 == "Content-Length"
    ensures ParseInt(fields[i].1) == Some(n)
    decreases i
  {
    if i == 0 {
      ParseShowRoundTrip(n);
    } else {
      ContentLengthReadsBack(fields[1..], n, i - 1);
    }
  }

  /** `text/plain` content with its length. */
  function PlainText(body: string): (r: Response)
    ensures r.status == OK && r.body == body && ContentLengthMatches(r)
    ensures ("Content-Type", "text/plain") in r.headers
    ensures ("Content-Length", NatToString(|body|)) in r.headers
  {
    Response(OK, [("Content-Type", "text/plain"), ("Content-Length", NatToString(|body|))], body)
  }

  /** gzip-compressed `text/plain` content with its compressed length. */
  function GzipText(zipped: string): (r: Response)
    ensures r.status == OK && r.body == zipped && ContentLengthMatches(r)
    ensures ("Content-Type", "text/plain") in r.headers
    ensures ("Content-Encoding", "gzip") in r.headers
    ensures ("Content-Length", NatToString(|zipped|)) in r.headers
  {
    var fields := [("Content-Type", "text/plain"), ("Content-Encoding", "gzip"),
                   ("Content-Length", NatToString(|zipped|))];
    assert DeclaresLength(fields[2..], |zipped|);
    Response(OK, fields, zipped)
  }

  /** A file's bytes as `application/octet-stream` with their length. */
  function OctetStream(content: string): (r: Response)
    ensures r.status == OK && r.body == content && ContentLengthMatches(r)
    ensures ("Content-Type", "application/octet-stream") in r.headers
    ensures ("Content-Length", NatToString(|content|)) in r.headers
  {
    Response(OK, [("Content-Type", "application/octet-stream"), ("Content-Length", NatToString(|content|))], content)
  }

  // ---------------------------------------------------------------------
  // Accept-Encoding
  // ---------------------------------------------------------------------

  /** Every part stripped of surrounding whitespace. */
  function StripAll(parts: seq<string>): (r: seq<string>)
    ensures |r| == |parts|
    ensures forall i :: 0 <= i < |parts| ==> r[i] == Strip(parts[i])
  {
    seq(|parts|, i requires 0 <= i < |parts| => Strip(parts[i]))
  }

  /** `[enc.strip() for enc in accept_encoding.lower().split(",")]`. */
  function EncodingTokens(acceptEncoding: string): seq<string> {
    StripAll(Split(Lower(acceptEncoding), ","))
  }

  /** Some part, once stripped, is exactly `gzip`. */
  predicate GzipAmong(parts: seq<string>) {
    |parts| > 0 && (Strip(parts[0]) == "gzip" || GzipAmong(parts[1..]))
  }

  /** gzip is chosen when one of the comma-separated, lower-cased and
      stripped tokens is exactly `gzip`; q-values are not understood. */
  predicate AcceptsGzip(acceptEncoding: string) {
    GzipAmong(Split(Lower(acceptEncoding), ","))
  }

  /** The scan agrees with the token list: gzip is accepted exactly when
      `gzip` is one of the encoding tokens. */
  lemma {:induction false} GzipAmongTokens(parts: seq<string>)
    ensures GzipAmong(parts) <==> "gzip" in StripAll(parts)
    decreases |parts|
  {
    if |parts| > 0 {
      GzipAmongTokens(parts[1..]);
      assert StripAll(parts) == [Strip(parts[0])] + StripAll(parts[1..]);
    }
  }

  lemma AcceptsGzipTokens(acceptEncoding: string)
    ensures AcceptsGzip(acceptEncoding) <==> "gzip" in EncodingTokens(acceptEncoding)
  {
    GzipAmongTokens(Split(Lower(acceptEncoding), ","));
  }

  lemma {:induction false} GzipAmongAppend(a: seq<string>, b: seq<string>)
    ensures GzipAmong(a + b) <==> GzipAmong(a) || GzipAmong(b)
    decreases |a|
  {
    if |a| > 0 {
      assert (a + b)[0] == a[0] && (a + b)[1..] == a[1..] + b;
      GzipAmongAppend(a[1..], b);
    } else {
      assert a + b == b;
    }
  }

  /** gzip is accepted in a comma-separated list exactly when it is
      accepted by one side of the comma. */
  lemma GzipInList(x: string, y: string)
    ensures AcceptsGzip(x + "," + y) <==> AcceptsGzip(x) || AcceptsGzip(y)
  {
    LowerAppend(x + ",", y);
    LowerAppend(x, ",");
    assert Lower(",") == [','];
    SplitAppend(Lower(x), ',', Lower(y));
    GzipAmongAppend(Split(Lower(x), ","), Split(Lower(y), ","));
  }

  /** Without a comma there is a single token: gzip is accepted exactly
      when the value, trimmed and lower-cased, is `gzip`. */
  lemma GzipSingleToken(t: string)
    requires forall k :: 0 <= k < |t| ==> t[k] != ','
    ensures AcceptsGzip(t) <==> Strip(Lower(t)) == "gzip"
  {
    var l := Lower(t);
    assert forall k :: 0 <= k < |l| ==> l[k] != ',';
    FreeOfHead(l, ",");
    FindSpec(l, ",");
    assert Split(l, ",") == [l];
    assert GzipAmong([l]) <==> Strip(l) == "gzip";
  }

  // ---------------------------------------------------------------------
  // The routes
  // ---------------------------------------------------------------------

  /** Which branch of the route table a path takes: `/` by exact match,
      the others by prefix, in this order. */
  datatype Route = Root | Echo(content: string) | UserAgent | Files(name: string) | Unknown

  function RouteOf(path: string): Route {
    if path == "/" then Root
    else if StartsWith(path, "/echo/") then Echo(path[|"/echo/"|..])
    else if StartsWith(path, "/user-agent") then UserAgent
    else if StartsWith(path, "/files/") then Files(path[|"/files/"|..])
    else Unknown
  }

  predicate KnownStatus(status: string) {
    status == OK || status == Created || status == NotFound
  }

  const Missing: Response := Response(NotFound, [], [])

  /** The `/files/` route opens the file, and the open raises: an
      unwritable name that is written (POST), or an existing unreadable
      name that is read (any other method). */
  predicate OpenFails(verb: string, name: string, directory: Option<string>, store: Store) {
    Configured(directory)
    && (if verb == "POST" then name in store.unwritable
        else name in store.files && name in store.unreadable)
  }

  /** `/files/<name>`: POST writes the request body to the file, any other
      method reads it. Opening the file in a mode it refuses raises. */
  function FilesResponse(verb: string, name: string, body: string,
                         directory: Option<string>, store: Store): (r: Result<(Response, Store), Error>)
    ensures r.Success? ==> ContentLengthMatches(r.value.0) && KnownStatus(r.value.0.status)
    ensures r.Success? && r.value.0.status != OK ==> r.value.0.headers == [] && r.value.0.body == []
    ensures r.Success? ==>
              r.value.1 == if Configured(directory) && verb == "POST"
                           then store.(files := store.files[name := body])
                           else store
    ensures r.Failure? <==> OpenFails(verb, name, directory, store)
  {
    if !Configured(directory) then Success((Missing, store))
    else if verb == "POST" then
      if name in store.unwritable then Failure(FileError(name))
      else Success((Response(Created, [], []), store.(files := store.files[name := body])))
    else if name in store.files then
      if name in store.unreadable then Failure(FileError(name))
      else Success((OctetStream(store.files[name]), store))
    else Success((Missing, store))
  }

  /** The answer of one route. `Failure` is an exception from opening a
      file. */
  function Respond(verb: string, route: Route, headers: map<string, string>, body: string,
                   directory: Option<string>, store: Store, compress: string -> string)
    : (r: Result<(Response, Store), Error>)
    ensures r.Success? ==> ContentLengthMatches(r.value.0) && KnownStatus(r.value.0.status)
    ensures r.Success? && r.value.0.status != OK ==> r.value.0.headers == [] && r.value.0.body == []
    ensures r.Success? ==>
              r.value.1 == if route.Files? && Configured(directory) && verb == "POST"
                           then store.(files := store.files[route.name := body])
                           else store
    ensures r.Failure? <==> route.Files? && OpenFails(verb, route.name, directory, store)
  {
    match route
    case Root => Success((PlainText([]), store))
    case Echo(content) =>
      if AcceptsGzip(Header(headers, "accept-encoding")) then Success((GzipText(compress(content)), store))
      else Success((PlainText(content), store))
    case UserAgent => Success((PlainText(Header(headers, "user-agent")), store))
    case Files(name) => FilesResponse(verb, name, body, directory, store)
    case Unknown => Success((Missing, store))
  }

  /** A request that writes a file. */
  predicate IsUpload(verb: string, path: string, directory: Option<string>) {
    RouteOf(path).Files? && Configured(directory) && verb == "POST"
  }

  /** `handle_request`: route the path, then answer. */
  function Dispatch(verb: string, path: string, headers: map<string, string>, body: string,
                    directory: Option<string>, store: Store, compress: string -> string)
    : Result<(Response, Store), Error>
  {
    Respond(verb, RouteOf(path), headers, body, directory, store, compress)
  }

  /** Route precedence, for every path: `/` only by exact match, each
      prefix route exactly for the paths it names and no earlier route
      claims, and 404 for the rest. The prefixes exclude one another, so
      the order matters only in that `/` is tried first. */
  lemma RouteOfIff(path: string)
    ensures RouteOf(path).Root? <==> path == "/"
    ensures RouteOf(path).Echo? <==> StartsWith(path, "/echo/")
    ensures RouteOf(path).UserAgent? <==> StartsWith(path, "/user-agent")
    ensures RouteOf(path).Files? <==> StartsWith(path, "/files/")
    ensures RouteOf(path).Echo? ==> path == "/echo/" + RouteOf(path).content
    ensures RouteOf(path).Files? ==> path == "/files/" + RouteOf(path).name
  {
    if StartsWith(path, "/echo/") || StartsWith(path, "/user-agent") || StartsWith(path, "/files/") {
      assert |path| >= 6 && path[0] == '/';
      assert path[1] == 'e' <==> StartsWith(path, "/echo/");
      assert path[1] == 'u' <==> StartsWith(path, "/user-agent");
      assert path[1] == 'f' <==> StartsWith(path, "/files/");
    }
  }

  // ---------------------------------------------------------------------
  // Route by route
  // ---------------------------------------------------------------------

  lemma EchoPath(s: string)
    ensures RouteOf("/echo/" + s) == Echo(s)
  {
    var path := "/echo/" + s;
    assert path[..|"/echo/"|] == "/echo/" && path[|"/echo/"|..] == s;
  }

  lemma FilesPath(name: string)
    ensures RouteOf("/files/" + name) == Files(name)
  {
    var path := "/files/" + name;
    assert path[1] == 'f';
    assert path[..|"/files/"|] == "/files/" && path[|"/files/"|..] == name;
  }

  lemma UserAgentPath(path: string)
    requires StartsWith(path, "/user-agent")
    ensures RouteOf(path) == UserAgent
  {
    assert path[1] == 'u';
  }

  /** `/` answers 200 with an empty text body, whatever else the request
      carries. */
  lemma RootRoute(verb: string, headers: map<string, string>, body: string,
                  directory: Option<string>, store: Store, compress: string -> string)
    ensures Dispatch(verb, "/", headers, body, directory, store, compress)
            == Success((Response(OK, [("Content-Type", "text/plain"), ("Content-Length", "0")], []), store))
  {
    assert NatToString(0) == "0";
  }

  /** `/echo/<s>` answers `s` as plain text, or compressed as gzip text
      when the Accept-Encoding header (absent counts as empty) accepts
      gzip. */
  lemma EchoRoute(verb: string, s: string, headers: map<string, string>, body: string,
                  directory: Option<string>, store: Store, compress: string -> string)
    ensures var acceptEncoding := Header(headers, "accept-encoding");
            Dispatch(verb, "/echo/" + s, headers, body, directory, store, compress)
            == Success((if AcceptsGzip(acceptEncoding) then GzipText(compress(s)) else PlainText(s), store))
  {
    EchoPath(s);
  }

  /** `/user-agent...` reflects the User-Agent header, or an empty body
      when there is none. */
  lemma UserAgentRoute(verb: string, path: string, headers: map<string, string>, body: string,
                       directory: Option<string>, store: Store, compress: string -> string)
    requires StartsWith(path, "/user-agent")
    ensures var agent := Header(headers, "user-agent");
            Dispatch(verb, path, headers, body, directory, store, compress)
            == Success((Response(OK, [("Content-Type", "text/plain"), ("Content-Length", NatToString(|agent|))], agent), store))
  {
    UserAgentPath(path);
  }

  /** With no directory configured every `/files/` request is 404, never
      an error, and nothing is written. */
  lemma FilesUnconfigured(verb: string, name: string, headers: map<string, string>, body: string,
                          directory: Option<string>, store: Store, compress: string -> string)
    requires !Configured(directory)
    ensures Dispatch(verb, "/files/" + name, headers, body, directory, store, compress)
            == Success((Missing, store))
  {
    FilesPath(name);
  }

  /** POST under `/files/` writes the body to the named file and answers
      201 with nothing else. */
  lemma UploadFile(name: string, content: string, headers: map<string, string>,
                   directory: Option<string>, store: Store, compress: string -> string)
    requires Configured(directory) && name !in store.unwritable
    ensures Dispatch("POST", "/files/" + name, headers, content, directory, store, compress)
            == Success((Response(Created, [], []), store.(files := store.files[name := content])))
  {
    FilesPath(name);
  }

  /** Any other method under `/files/` answers an existing file's content
      as an octet stream, and writes nothing. */
  lemma DownloadFile(name: string, verb: string, headers: map<string, string>, body: string,
                     directory: Option<string>, store: Store, compress: string -> string)
    requires Configured(directory) && name in store.files && name !in store.unreadable && verb != "POST"
    ensures Dispatch(verb, "/files/" + name, headers, body, directory, store, compress)
            == Success((OctetStream(store.files[name]), store))
  {
    FilesPath(name);
  }

  /** A file uploaded with POST is what a later GET (or any non-POST
      request) of the same name returns. */
  lemma UploadThenDownload(name: string, content: string, verb: string,
                           h1: map<string, string>, h2: map<string, string>, b2: string,
                           directory: Option<string>, store: Store, compress: string -> string)
    requires Configured(directory) && name !in store.unwritable && name !in store.unreadable
    requires verb != "POST"
    ensures var path := "/files/" + name;
            var up := Dispatch("POST", path, h1, content, directory, store, compress);
            && up.Success? && up.value.0.status == Created
            && Dispatch(verb, path, h2, b2, directory, up.value.1, compress)
               == Success((OctetStream(content), up.value.1))
  {
    var written := store.(files := store.files[name := content]);
    UploadFile(name, content, h1, directory, store, compress);
    DownloadFile(name, verb, h2, b2, directory, written, compress);
  }

  /** A file that can be read but not written: a non-POST request gets
      its bytes, a POST raises and leaves it as it was. */
  lemma ReadOnlyFile(name: string, verb: string, headers: map<string, string>, body: string,
                     directory: Option<string>, store: Store, compress: string -> string)
    requires Configured(directory) && name in store.files
    requires name in store.unwritable && name !in store.unreadable
    requires verb != "POST"
    ensures Dispatch(verb, "/files/" + name, headers, body, directory, store, compress)
            == Success((OctetStream(store.files[name]), store))
    ensures Dispatch("POST", "/files/" + name, headers, body, directory, store, compress)
            == Failure(FileError(name))
  {
    FilesPath(name);
  }

  /** A non-POST request for a file that is not there is 404. */
  lemma MissingFile(verb: string, name: string, headers: map<string, string>, body: string,
                    directory: Option<string>, store: Store, compress: string -> string)
    requires verb != "POST" && name !in store.files
    ensures Dispatch(verb, "/files/" + name, headers, body, directory, store, compress)
            == Success((Missing, store))
  {
    FilesPath(name);
  }

  /** A path no route claims is 404 with no headers and no body. */
  lemma UnknownPath(verb: string, path: string, headers: map<string, string>, body: string,
                    directory: Option<string>, store: Store, compress: string -> string)
    requires path != "/" && !StartsWith(path, "/echo/") && !StartsWith(path, "/user-agent")
    requires !StartsWith(path, "/files/")
    ensures Dispatch(verb, path, headers, body, directory, store, compress)
            == Success((Missing, store))
  {
  }
}
