/** Line framing shared by requests and responses: a head made of lines
    separated by CRLF, ended by an empty line, then the body. */
module Framing {
  import opened Wrappers
  import opened Strings

  const CRLF: string := "\r\n"
  const BlankLine: string := "\r\n\r\n"

  /** A header as written: name and value, kept in insertion order. */
  type Field = (string, string)

  /** The text of one header line, without its line break. */
  function FieldLine(f: Field): string {
    f.0 + ": " + f.1
  }

  function FieldLines(fields: seq<Field>): seq<string> {
    seq(|fields|, i requires 0 <= i < |fields| => FieldLine(fields[i]))
  }

  lemma FieldLinesCons(fields: seq<Field>)
    requires |fields| > 0
    ensures FieldLines(fields) == [FieldLine(fields[0])] + FieldLines(fields[1..])
  {
    var a := FieldLines(fields);
    var b := [FieldLine(fields[0])] + FieldLines(fields[1..]);
    assert |a| == |b|;
    forall i | 0 <= i < |a|
      ensures a[i] == b[i]
    {
      if i > 0 {
        assert b[i] == FieldLines(fields[1..])[i - 1] == FieldLine(fields[1..][i - 1]);
      }
    }
  }

  predicate NoCR(s: string) {
    forall k :: 0 <= k < |s| ==> s[k] != '\r'
  }

  /** Lines a head can be built from so that its end is recognisable: no
      line holds a CR, and every line after the first is non-empty. */
  predicate Framable(lines: seq<string>) {
    && |lines| >= 1
    && (forall i :: 0 <= i < |lines| ==> NoCR(lines[i]))
    && (forall i :: 1 <= i < |lines| ==> lines[i] != [])
  }

  predicate FieldsWithoutCR(fields: seq<Field>) {
    forall i :: 0 <= i < |fields| ==> NoCR(fields[i].0) && NoCR(fields[i].1)
  }

  /** A first line followed by header lines is framable when no part
      holds a CR: every header line contains at least ": ". */
  lemma HeaderLinesFramable(first: string, fields: seq<Field>)
    requires NoCR(first) && FieldsWithoutCR(fields)
    ensures Framable([first] + FieldLines(fields))
  {
    var lines := [first] + FieldLines(fields);
    forall i | 1 <= i < |lines|
      ensures NoCR(lines[i]) && lines[i] != []
    {
      var f := fields[i - 1];
      assert lines[i] == FieldLine(f) == f.0 + (": " + f.1);
      assert lines[i][|f.0|] == ':';
    }
  }

  /** In a join of framable lines, every CR is a separator, so two
      positions further on starts a non-empty line, never another CR. */
  lemma {:induction false} SeparatorFollowedByLine(lines: seq<string>, j: int)
    requires Framable(lines)
    ensures var h := Join(lines, CRLF);
            0 <= j < |h| && h[j] == '\r' ==> j + 2 < |h| && h[j + 2] != '\r'
    decreases |lines|
  {
    var h := Join(lines, CRLF);
    if |lines| > 1 {
      var l0 := lines[0];
      var rest := lines[1..];
      var h2 := Join(rest, CRLF);
      assert h == l0 + CRLF + h2;
      if 0 <= j < |l0| {
        assert h[j] == l0[j];
      } else if j == |l0| {
        JoinPrefix(rest, CRLF);
        assert rest[0] != [] && NoCR(rest[0]);
        assert h[j + 2] == h2[0] == rest[0][0];
      } else if j >= |l0| + 2 {
        assert Framable(rest);
        SeparatorFollowedByLine(rest, j - |l0| - 2);
        if j < |h| {
          assert h[j] == h2[j - |l0| - 2];
          if j + 2 < |h| {
            assert h[j + 2] == h2[j - |l0|];
          }
        }
      }
    }
  }

  /** The first blank line of `head + CRLF CRLF + body` is the one right
      after the head, whatever the body holds. */
  lemma HeadEnd(lines: seq<string>, body: string)
    requires Framable(lines)
    ensures Find(Join(lines, CRLF) + BlankLine + body, BlankLine) == Some(|Join(lines, CRLF)|)
  {
    var h := Join(lines, CRLF);
    var t := h + BlankLine + body;
    assert t[|h|..|h| + 4] == BlankLine;
    forall j | 0 <= j < |h|
      ensures !OccursAt(t, BlankLine, j)
    {
      if j + 4 <= |t| {
        assert t[j..j + 4][0] == t[j] && t[j..j + 4][2] == t[j + 2];
        SeparatorFollowedByLine(lines, j);
        assert t[j] == h[j];
        if h[j] == '\r' {
          assert t[j + 2] == h[j + 2];
        }
      }
    }
    FindFirst(t, BlankLine, |h|);
  }

  /** Splitting a head on CRLF gives its lines back. */
  lemma HeadLines(lines: seq<string>)
    requires Framable(lines)
    ensures Split(Join(lines, CRLF), CRLF) == lines
  {
    SplitJoin(lines, CRLF);
  }
}
