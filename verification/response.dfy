/** `build_response`: serialising a status line, headers in order and a
    raw body into the bytes sent back to the client. */
module HttpResponse {
  import opened Wrappers
  import opened Strings
  import opened Framing

  datatype Response = Response(status: string, headers: seq<Field>, body: string)

  /** The header block: every header followed by CRLF, in order. */
  function HeaderText(headers: seq<Field>): string {
    if |headers| == 0 then []
    else FieldLine(headers[0]) + CRLF + HeaderText(headers[1..])
  }

  /** The wire bytes for a status line, optional headers and a body.
      `None` stands for Python's `headers=None`. */
  function BuildResponse(status: string, headers: Option<seq<Field>>, body: string): (r: string)
    ensures |r| >= |status| + 4 + |body|
    ensures r[..|status| + 2] == status + CRLF
    ensures r[|r| - |body|..] == body
  {
    var hs := headers.GetOr([]);
    var r := status + CRLF + HeaderText(hs) + CRLF + body;
    assert r[|r| - |body|..] == body;
    r
  }

  function Serialise(r: Response): string {
    BuildResponse(r.status, Some(r.headers), r.body)
  }

  /** Omitting the headers is the same as passing none. */
  lemma NoHeadersSameAsEmpty(status: string, body: string)
    ensures BuildResponse(status, None, body) == BuildResponse(status, Some([]), body)
  {
  }

  /** The head of a response is the CRLF-join of the status line and the
      header lines. */
  lemma {:induction false} HeadAsJoin(x: string, headers: seq<Field>)
    ensures x + CRLF + HeaderText(headers) == Join([x] + FieldLines(headers), CRLF) + CRLF
    decreases |headers|
  {
    if |headers| > 0 {
      var l := FieldLine(headers[0]);
      var rest := FieldLines(headers[1..]);
      FieldLinesCons(headers);
      HeadAsJoin(x + CRLF + l, headers[1..]);
      calc {
        x + CRLF + HeaderText(headers);
        x + CRLF + (l + CRLF + HeaderText(headers[1..]));
        (x + CRLF + l) + CRLF + HeaderText(headers[1..]);
        Join([x + CRLF + l] + rest, CRLF) + CRLF;
        { JoinTwo(x, l, rest); }
        Join([x] + ([l] + rest), CRLF) + CRLF;
      }
      assert [x] + FieldLines(headers) == [x] + ([l] + rest);
    }
  }

  lemma JoinTwo(x: string, l: string, rest: seq<string>)
    ensures Join([x + CRLF + l] + rest, CRLF) == Join([x] + ([l] + rest), CRLF)
  {
    if |rest| == 0 {
      assert [x + CRLF + l] + rest == [x + CRLF + l];
      assert [x] + ([l] + rest) == [x, l];
      assert [x, l][1..] == [l];
    } else {
      JoinCons(x + CRLF + l, rest, CRLF);
      JoinCons(l, rest, CRLF);
      JoinCons(x, [l] + rest, CRLF);
    }
  }

  /** What a client reading the response sees: the first blank line ends
      the head, the head splits back into the status line followed by
      exactly the given header lines in order (none is added), and what
      follows is the body unchanged. */
  lemma ResponseFraming(r: Response)
    requires NoCR(r.status) && FieldsWithoutCR(r.headers)
    ensures var w := Serialise(r);
            var k := |w| - |r.body| - 4;
            && k >= 0
            && Find(w, BlankLine) == Some(k)
            && Split(w[..k], CRLF) == [r.status] + FieldLines(r.headers)
            && w[k + 4..] == r.body
  {
    var lines := [r.status] + FieldLines(r.headers);
    HeaderLinesFramable(r.status, r.headers);
    HeadAsJoin(r.status, r.headers);
    var h := Join(lines, CRLF);
    var w := Serialise(r);
    assert w == h + BlankLine + r.body;
    HeadEnd(lines, r.body);
    HeadLines(lines);
    assert w[..|h|] == h;
  }
}
