/** What both versions of `handle_connection` share: the fixed request buffer,
    the request lines they recognise, the two pages they can answer with, and
    the step from a chosen page to the bytes written back. */
module Routing {

  import opened Options
  import opened Bytes
  import Decimal
  import Http

  /** The length of the zero-initialised buffer one `read` fills. */
  const BufferSize: nat := 1024

  /** The request line of a plain `GET /`. */
  const GetLine: seq<byte> := Ascii("GET / HTTP/1.1\r\n")

  /** The request line of the deliberately slow `GET /sleep`. */
  const SleepLine: seq<byte> := Ascii("GET /sleep HTTP/1.1\r\n")

  /** A routing outcome: the status line to answer with and the file whose
      text becomes the body. */
  datatype Page = Page(statusLine: seq<byte>, filename: string)

  const OkPage: Page := Page(Ascii("HTTP/1.1 200 OK"), "index.html")

  const NotFoundPage: Page := Page(Ascii("HTTP/1.1 404 NOT FOUND"), "404.html")

  /** The text of the files the server can read, by name, as UTF-8 bytes. A
      name that is absent stands for a file that cannot be read as text. Only
      maps whose every value is valid UTF-8 describe a state of the server: a
      file holding anything else makes `read_to_string` fail, so it belongs
      among the absent names. */
  type Files = map<string, seq<byte>>

  /** The index page carries a well-formed HTTP/1.1 status line with code 200. */
  lemma OkPageStatusLine()
    ensures Http.IsStatusLine(OkPage.statusLine) && Http.StatusCode(OkPage.statusLine) == 200
    ensures NoCrLf(OkPage.statusLine)
  {
    var line := OkPage.statusLine;
    var code := line[9..12];
    assert code == [50, 48, 48];
    assert Decimal.ParseDecimal(code[..1]) == 2;
    assert Decimal.ParseDecimal(code[..2]) == 20;
  }

  /** The not-found page carries a well-formed HTTP/1.1 status line with code 404. */
  lemma NotFoundPageStatusLine()
    ensures Http.IsStatusLine(NotFoundPage.statusLine) && Http.StatusCode(NotFoundPage.statusLine) == 404
    ensures NoCrLf(NotFoundPage.statusLine)
  {
    var line := NotFoundPage.statusLine;
    var code := line[9..12];
    assert code == [52, 48, 52];
    assert Decimal.ParseDecimal(code[..1]) == 4;
    assert Decimal.ParseDecimal(code[..2]) == 40;
  }

  /** The buffer after one `read` delivered `received`: those bytes first, the
      untouched zeros after them. */
  function ReadIntoBuffer(received: seq<byte>): (buffer: seq<byte>)
    requires |received| <= BufferSize
    ensures |buffer| == BufferSize
    ensures StartsWith(buffer, received)
    ensures forall i | |received| <= i < BufferSize :: buffer[i] == 0
  {
    received + seq(BufferSize - |received|, _ => 0)
  }

  /** A request line with no zero byte is seen in the buffer exactly when the
      read delivered it: the zero fill can neither complete nor fake it. */
  lemma {:induction false} BufferStartsWithReceived(received: seq<byte>, line: seq<byte>)
    requires |received| <= BufferSize && |line| <= BufferSize
    requires forall i | 0 <= i < |line| :: line[i] != 0
    ensures StartsWith(ReadIntoBuffer(received), line) <==> StartsWith(received, line)
  {
    var buffer := ReadIntoBuffer(received);
    assert buffer[..|received|] == received;
    if |received| < |line| {
      assert buffer[|received|] == 0 != line[|received|];
      assert !StartsWith(buffer, line) by {
        assert buffer[..|line|][|received|] == buffer[|received|];
      }
    }
    if StartsWith(buffer, line) {
      assert buffer[..|line|] == buffer[..|received|][..|line|];
    }
    if StartsWith(received, line) {
      assert buffer[..|line|] == buffer[..|received|][..|line|];
    }
  }

  /** The request lines contain no zero byte. */
  lemma RequestLinesNonZero()
    ensures forall i | 0 <= i < |GetLine| :: GetLine[i] != 0
    ensures forall i | 0 <= i < |SleepLine| :: SleepLine[i] != 0
  {
  }

  /** The two request lines differ at byte 5 (a space against `s`), so no
      buffer starts with both. This keeps the thread-pool server's
      five-second wait to `/sleep` requests: a `GET /` request never reaches
      that branch. */
  lemma RequestLinesExclusive(buffer: seq<byte>)
    ensures !(StartsWith(buffer, GetLine) && StartsWith(buffer, SleepLine))
  {
    assert GetLine[5] != SleepLine[5];
    if StartsWith(buffer, GetLine) && |SleepLine| <= |buffer| {
      assert buffer[..|GetLine|][5] == buffer[5] == buffer[..|SleepLine|][5];
    }
  }

  /** Reads the chosen page's file and frames it; None when the file cannot be
      read, where the source's `unwrap` panics and the connection goes
      unanswered. */
  function Respond(page: Page, files: Files): (response: Option<seq<byte>>)
    ensures response.Some? <==> page.filename in files
    ensures response.Some? && NoCrLf(page.statusLine) ==>
              Http.Decode(response.value)
              == Some(Http.Response(page.statusLine, |files[page.filename]|, files[page.filename]))
  {
    if page.filename in files then Some(Http.Frame(page.statusLine, files[page.filename])) else None
  }

}
