/** `handle_connection` of the thread-pool server (src/bin/main.rs): three-way
    routing on the start of the request buffer, then the framed response. */
module MultiRouteServer {

  import opened Options
  import opened Bytes
  import Http
  import opened Routing

  /** `GET /` is checked first, then `GET /sleep`; both answer with the index
      page, anything else with the not-found page. */
  function Route(buffer: seq<byte>): (page: Page)
    requires |buffer| == BufferSize
    ensures page == OkPage || page == NotFoundPage
    ensures page == OkPage <==> buffer[..16] == GetLine || buffer[..21] == SleepLine
    ensures Http.IsStatusLine(page.statusLine)
    ensures Http.StatusCode(page.statusLine) == 200 <==> page.filename == "index.html"
    ensures Http.StatusCode(page.statusLine) == 404 <==> page.filename == "404.html"
  {
    OkPageStatusLine();
    NotFoundPageStatusLine();
    if StartsWith(buffer, GetLine) then OkPage
    else if StartsWith(buffer, SleepLine) then OkPage
    else NotFoundPage
  }

  /** The same table with the two request lines checked the other way round. */
  function RouteSleepFirst(buffer: seq<byte>): Page
    requires |buffer| == BufferSize
  {
    if StartsWith(buffer, SleepLine) then OkPage
    else if StartsWith(buffer, GetLine) then OkPage
    else NotFoundPage
  }

  /** The order of the two checks cannot change the page, because both
      request lines pick the index page. What the order does decide is which
      branch runs, and only the `/sleep` branch waits five seconds; by
      `RequestLinesExclusive` no buffer reaches both, so the wait happens
      for `/sleep` requests only. */
  lemma RouteOrderIrrelevant(buffer: seq<byte>)
    requires |buffer| == BufferSize
    ensures Route(buffer) == RouteSleepFirst(buffer)
  {
  }

  /** Only the first 21 bytes of the buffer, the length of the longer request
      line, take part in the choice. */
  lemma RouteReadsOnlyPrefix(buffer1: seq<byte>, buffer2: seq<byte>)
    requires |buffer1| == BufferSize && |buffer2| == BufferSize
    requires buffer1[..21] == buffer2[..21]
    ensures Route(buffer1) == Route(buffer2)
  {
    assert buffer1[..16] == buffer1[..21][..16];
    assert buffer2[..16] == buffer2[..21][..16];
  }

  /** A read that delivered fewer bytes than `GET / HTTP/1.1\r\n`, the nothing
      of an unread all-zero buffer included, is answered as not found. */
  lemma ShortReadNotFound(received: seq<byte>)
    requires |received| < |GetLine|
    ensures Route(ReadIntoBuffer(received)) == NotFoundPage
  {
    RequestLinesNonZero();
    BufferStartsWithReceived(received, GetLine);
    BufferStartsWithReceived(received, SleepLine);
  }

  /** One connection: the bytes one `read` delivered and the readable files
      give the bytes written back, or None when the page's file cannot be read
      and the connection is dropped unanswered. */
  function HandleConnection(received: seq<byte>, files: Files): (response: Option<seq<byte>>)
    requires |received| <= BufferSize
    ensures var page := if StartsWith(received, GetLine) || StartsWith(received, SleepLine)
                        then OkPage else NotFoundPage;
            && (response.Some? <==> page.filename in files)
            && (response.Some? ==>
                  Http.Decode(response.value)
                  == Some(Http.Response(page.statusLine, |files[page.filename]|, files[page.filename])))
  {
    RequestLinesNonZero();
    BufferStartsWithReceived(received, GetLine);
    BufferStartsWithReceived(received, SleepLine);
    OkPageStatusLine();
    NotFoundPageStatusLine();
    Respond(Route(ReadIntoBuffer(received)), files)
  }

}
