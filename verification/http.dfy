/** The response the server writes: a status line, one `Content-Length` header
    field, an empty line and the body (the HTTP/1.1 message shape of section 2.1
    of RFC 9112), together with a parser that splits such a response back into
    its parts. */
module Http {

  import opened Options
  import opened Bytes
  import opened Decimal

  const CRLF: seq<byte> := [CR, LF]

  /** The end of the header section: the CRLF closing the last field line
      followed by the empty line. */
  const BlankLine: seq<byte> := [CR, LF, CR, LF]

  /** The header field name, colon and the single space the server writes. */
  const ContentLengthName: seq<byte> := Ascii("Content-Length: ")

  const HttpVersion: seq<byte> := Ascii("HTTP/1.1 ")

  /** A byte a reason phrase may hold under section 4 of RFC 9112: HTAB, SP,
      a visible ASCII character, or an obs-text byte. */
  predicate IsReasonByte(b: byte) {
    b == 9 || 32 <= b <= 126 || 128 <= b
  }

  /** A status line as section 4 of RFC 9112 shapes it for HTTP/1.1: the
      version, a space, a three-digit status code, a space and a reason phrase
      made of reason-phrase bytes only. */
  predicate IsStatusLine(line: seq<byte>) {
    && |line| >= 13
    && line[..9] == HttpVersion
    && AllDigits(line[9..12])
    && line[12] == Ascii(" ")[0]
    && forall i | 13 <= i < |line| :: IsReasonByte(line[i])
  }

  /** The three-digit status code of a status line, as a number. */
  function StatusCode(line: seq<byte>): nat
    requires IsStatusLine(line)
  {
    ParseDecimal(line[9..12])
  }

  /** A response as the parser sees it: the status line, the value of the
      `Content-Length` field and the bytes after the empty line. */
  datatype Response = Response(statusLine: seq<byte>, contentLength: nat, body: seq<byte>)

  /** The bytes of a response, with the length rendered as `{}` renders it. */
  function Encode(m: Response): seq<byte> {
    m.statusLine + CRLF + ContentLengthName + NatToDecimal(m.contentLength) + BlankLine + m.body
  }

  /** The bytes `format!("{}\r\nContent-Length: {}\r\n\r\n{}", ..)` produces for a
      status line and a body; the length is the body's length in bytes. */
  function Frame(statusLine: seq<byte>, body: seq<byte>): (r: seq<byte>)
    ensures StartsWith(r, statusLine + CRLF + ContentLengthName)
    ensures |body| <= |r| && r[|r| - |body|..] == body
    ensures NoCrLf(statusLine) ==> Decode(r) == Some(Response(statusLine, |body|, body))
  {
    var m := Response(statusLine, |body|, body);
    var r := Encode(m);
    assert r == statusLine + CRLF + ContentLengthName + (NatToDecimal(|body|) + BlankLine + body);
    assert r[|r| - |body|..] == body;
    if NoCrLf(statusLine) then DecodeEncode(m); r else r
  }

  /** `pattern` occurs in `s` starting at index `i`. */
  predicate OccursAt(s: seq<byte>, pattern: seq<byte>, i: nat) {
    i + |pattern| <= |s| && s[i..i + |pattern|] == pattern
  }

  /** The first index at or after `from` where `pattern` occurs. */
  function FindFrom(s: seq<byte>, pattern: seq<byte>, from: nat): (o: Option<nat>)
    ensures o.Some? ==> from <= o.value && OccursAt(s, pattern, o.value)
    ensures o.Some? ==> forall i | from <= i < o.value :: !OccursAt(s, pattern, i)
    ensures o.None? ==> forall i | from <= i :: !OccursAt(s, pattern, i)
    decreases |s| - from
  {
    if from + |pattern| > |s| then None
    else if s[from..from + |pattern|] == pattern then Some(from)
    else FindFrom(s, pattern, from + 1)
  }

  function Find(s: seq<byte>, pattern: seq<byte>): Option<nat> {
    FindFrom(s, pattern, 0)
  }

  /** The search finds exactly the first occurrence. */
  lemma FindFirst(s: seq<byte>, pattern: seq<byte>, k: nat)
    requires OccursAt(s, pattern, k)
    requires forall i | 0 <= i < k :: !OccursAt(s, pattern, i)
    ensures Find(s, pattern) == Some(k)
  {
  }

  /** The parts before and after the first occurrence of `pattern`. */
  function SplitAtFirst(s: seq<byte>, pattern: seq<byte>): (o: Option<(seq<byte>, seq<byte>)>)
    ensures o.Some? ==> s == o.value.0 + pattern + o.value.1
    ensures o.None? <==> Find(s, pattern).None?
  {
    match Find(s, pattern)
    case None => None
    case Some(i) =>
      assert s == s[..i] + s[i..i + |pattern|] + s[i + |pattern|..];
      Some((s[..i], s[i + |pattern|..]))
  }

  /** Splits a response at its first empty line, then the header section at its
      first CRLF, and reads the one field line as `Content-Length` with a value
      in canonical decimal; None when any of that fails. */
  function Decode(r: seq<byte>): Option<Response> {
    match SplitAtFirst(r, BlankLine)
    case None => None
    case Some((header, body)) =>
      match SplitAtFirst(header, CRLF)
      case None => None
      case Some((line, field)) =>
        var n := |ContentLengthName|;
        if StartsWith(field, ContentLengthName) && IsCanonical(field[n..]) then
          Some(Response(line, ParseDecimal(field[n..]), body))
        else
          None
  }

  /** In `line + CRLF + rest + BlankLine + body`, with no CR or LF in `line` or
      `rest` and `rest` not empty, the first empty line ends `rest`. */
  lemma FirstBlankLine(line: seq<byte>, rest: seq<byte>, body: seq<byte>)
    requires NoCrLf(line) && NoCrLf(rest) && |rest| > 0
    ensures Find(line + CRLF + rest + BlankLine + body, BlankLine)
            == Some(|line| + 2 + |rest|)
  {
    var header := line + CRLF + rest;
    var r := header + BlankLine + body;
    assert r == line + CRLF + rest + BlankLine + body;
    forall i | 0 <= i < |header|
      ensures !OccursAt(r, BlankLine, i)
    {
      if i < |line| {
        assert r[i] == line[i];
      } else if i == |line| {
        assert r[i + 2] == rest[0];
      } else if i == |line| + 1 {
        assert r[i] == LF;
      } else {
        assert r[i] == rest[i - |line| - 2];
      }
    }
    assert r[|header|..|header| + 4] == BlankLine;
    FindFirst(r, BlankLine, |header|);
  }

  /** In `line + CRLF + rest`, with no CR or LF in `line`, the first CRLF ends
      `line`. */
  lemma FirstCrlf(line: seq<byte>, rest: seq<byte>)
    requires NoCrLf(line)
    ensures Find(line + CRLF + rest, CRLF) == Some(|line|)
  {
    var s := line + CRLF + rest;
    forall i | 0 <= i < |line|
      ensures !OccursAt(s, CRLF, i)
    {
      assert s[i] == line[i];
    }
    assert s[|line|..|line| + 2] == CRLF;
    FindFirst(s, CRLF, |line|);
  }

  /** The header section of a framed response ends at the response's first
      empty line and everything after that line is the body, unchanged. It
      follows from `Frame`'s own guarantee that the response decodes. */
  lemma FrameSplitsAtBlankLine(statusLine: seq<byte>, body: seq<byte>)
    requires NoCrLf(statusLine)
    ensures var r := Frame(statusLine, body);
            var header := statusLine + CRLF + ContentLengthName + NatToDecimal(|body|);
            && Find(r, BlankLine) == Some(|header|)
            && r[..|header|] == header
            && r[|header| + 4..] == body
  {
  }

  /** Decoding undoes encoding whenever the status line is a single line. */
  lemma {:induction false} DecodeEncode(m: Response)
    requires NoCrLf(m.statusLine)
    ensures Decode(Encode(m)) == Some(m)
  {
    var digits := NatToDecimal(m.contentLength);
    var rest := ContentLengthName + digits;
    assert NoCrLf(rest) by {
      forall i | 0 <= i < |rest|
        ensures rest[i] != CR && rest[i] != LF
      {
        if i >= |ContentLengthName| {
          assert IsDigit(digits[i - |ContentLengthName|]);
        }
      }
    }
    var r := Encode(m);
    var header := m.statusLine + CRLF + rest;
    assert r == m.statusLine + CRLF + rest + BlankLine + m.body;
    FirstBlankLine(m.statusLine, rest, m.body);
    assert r[..|header|] == header;
    assert r[|header| + 4..] == m.body;
    FirstCrlf(m.statusLine, rest);
    assert header[..|m.statusLine|] == m.statusLine;
    assert header[|m.statusLine| + 2..] == rest;
    assert rest[|ContentLengthName|..] == digits;
    ParseNatToDecimal(m.contentLength);
  }

  /** Whatever decodes was produced by encoding what it decodes to: the parser
      accepts exactly the encoder's output. */
  lemma {:induction false} EncodeDecode(r: seq<byte>)
    requires Decode(r).Some?
    ensures Encode(Decode(r).value) == r
  {
    var (header, body) := SplitAtFirst(r, BlankLine).value;
    var (line, field) := SplitAtFirst(header, CRLF).value;
    var n := |ContentLengthName|;
    var digits := field[n..];
    assert field == ContentLengthName + digits by {
      assert field == field[..n] + field[n..];
    }
    NatToDecimalParse(digits);
    assert Decode(r).value == Response(line, ParseDecimal(digits), body);
  }

}
