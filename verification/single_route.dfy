/** `handle_connection` of the single-threaded server (src/main.rs): two-way
    routing on the start of the request buffer, then the same framed response. */
module SingleRouteServer {

  import opened Options
  import opened Bytes
  import Http
  import opened Routing
  import MultiRouteServer

  /** Only `GET /` answers with the index page; anything else is not found. */
  function Route(buffer: seq<byte>): (page: Page)
    requires |buffer| == BufferSize
    ensures page == OkPage || page == NotFoundPage
    ensures page == OkPage <==> buffer[..16] == GetLine
    ensures Http.IsStatusLine(page.statusLine)
    ensures Http.StatusCode(page.statusLine) == 200 <==> page.filename == "index.html"
    ensures Http.StatusCode(page.statusLine) == 404 <==> page.filename == "404.html"
  {
    OkPageStatusLine();
    NotFoundPageStatusLine();
    if StartsWith(buffer, GetLine) then OkPage else NotFoundPage
  }

  /** This server routes every buffer as the thread-pool server does, except a
      `GET /sleep` request, which it answers as not found where the other
      answers with the index page. */
  lemma RouteAgreesExceptSleep(buffer: seq<byte>)
    requires |buffer| == BufferSize
    ensures StartsWith(buffer, SleepLine) ==>
              Route(buffer) == NotFoundPage && MultiRouteServer.Route(buffer) == OkPage
    ensures !StartsWith(buffer, SleepLine) ==> Route(buffer) == MultiRouteServer.Route(buffer)
  {
    RequestLinesExclusive(buffer);
  }

  /** One connection, as in the thread-pool server but with the two-way table. */
  function HandleConnection(received: seq<byte>, files: Files): (response: Option<seq<byte>>)
    requires |received| <= BufferSize
    ensures var page := if StartsWith(received, GetLine) then OkPage else NotFoundPage;
            && (response.Some? <==> page.filename in files)
            && (response.Some? ==>
                  Http.Decode(response.value)
                  == Some(Http.Response(page.statusLine, |files[page.filename]|, files[page.filename])))
  {
    RequestLinesNonZero();
    BufferStartsWithReceived(received, GetLine);
    OkPageStatusLine();
    NotFoundPageStatusLine();
    Respond(Route(ReadIntoBuffer(received)), files)
  }

  /** Both servers write the same bytes for every request but `GET /sleep`. */
  lemma HandleConnectionAgreesExceptSleep(received: seq<byte>, files: Files)
    requires |received| <= BufferSize
    requires !StartsWith(received, SleepLine)
    ensures HandleConnection(received, files) == MultiRouteServer.HandleConnection(received, files)
  {
    RequestLinesNonZero();
    BufferStartsWithReceived(received, SleepLine);
    RouteAgreesExceptSleep(ReadIntoBuffer(received));
  }

}
