# rust-web-server: request routing and response framing

This project models the part of the server's `handle_connection` that does not
depend on the network or the file system. It exists in two versions:

- **thread-pool server** (`src/bin/main.rs`, module `MultiRouteServer`): one
  `read` fills a zero-initialised 1024-byte buffer. If the buffer starts with
  `GET / HTTP/1.1\r\n`, the answer is `HTTP/1.1 200 OK` with `index.html`. If it
  starts with `GET /sleep HTTP/1.1\r\n`, the answer is the same. Anything else
  gets `HTTP/1.1 404 NOT FOUND` with `404.html`.
- **single-threaded server** (`src/main.rs`, module `SingleRouteServer`): the
  same, but only `GET / HTTP/1.1\r\n` is recognised.

Both write `status line CRLF "Content-Length: " decimal-length CRLF CRLF body`,
which is the HTTP/1.1 message shape of section 2.1 of RFC 9112. The status line
follows section 4 of RFC 9112 and the field follows section 8.6 of RFC 9110.

Modules:

- `Options`: `Option`.
- `Bytes`: the `byte` type (`u8`), ASCII literals as bytes, and `StartsWith`
  (Rust's `<[u8]>::starts_with`).
- `Decimal`: `NatToDecimal`, the `{}` rendering of an unsigned integer, and
  `ParseDecimal`, its inverse.
- `Http`: `Frame`, the response `format!`. It also holds a `Decode` parser
  that splits a response at its first empty line and its first CRLF. `Decode`
  is the parser that inverts `Frame`; the two round-trip lemmas connect them.
- `Routing`: what both versions share. That is the buffer, the request lines,
  the two pages, the buffer after a `read`, and the step from a page to the
  framed file text.
- `MultiRouteServer` and `SingleRouteServer`: the two `handle_connection`s.

The bytes delivered by `read` and the readable files are parameters. The
files are a map from file name to the file's bytes. Only a map whose every
value is valid UTF-8 describes a state of the server. A name that is not in
the map stands for a file that `fs::read_to_string` fails on, including a file
that is not valid UTF-8. For that connection the model returns `None`: no
response is written.

The source's `unwrap` panics in that case, and what the panic does next
differs between the two servers:

- In the single-threaded server (`src/main.rs`), `main` calls
  `handle_connection` directly. The panic unwinds `main` and stops the server,
  so no later connection is served.
- In the thread-pool server (`src/bin/main.rs`), the connection runs as a pool
  job. The panic ends that job and also the worker thread running it, because
  the worker loop in `src/lib.rs` does not catch panics. The pool then has one
  worker fewer.

## Model

| member | source | states |
|---|---|---|
| Decimal.NatToDecimal | src/bin/main.rs:66 | The rendered Content-Length is non-empty and made only of ASCII digits. Its first digit is `0` exactly when the number is 0, so there is never a leading zero. |
| Decimal.ParseNatToDecimal | src/bin/main.rs:66 | Reading the rendered digits back as a decimal number gives the length that was rendered. |
| Decimal.NatToDecimalParse | src/main.rs:45 | Every canonical digit string is the rendering of its own value. So each length has exactly one rendering, and it is the one written. |
| Http.Frame | src/bin/main.rs:63-68 | The response starts with the status line, CRLF and `Content-Length: `, and ends with the body bytes unchanged. When the status line holds no CR or LF, the response decodes to that status line, a Content-Length equal to the body's byte length, and that body. |
| Http.FrameSplitsAtBlankLine | src/bin/main.rs:63-68 | When the status line is a single line, the first CRLF CRLF of a response lies right after the decimal length. Everything before it is the status line plus the `Content-Length` field line. Everything after it is exactly the body. |
| Http.DecodeEncode | src/main.rs:42-47 | The parser recovers the status line, the length and the body from any response written this way, provided the status line is a single line. |
| Http.EncodeDecode | src/main.rs:42-47 | Every byte string the parser accepts is the encoding of what it decodes to, whether or not its Content-Length matches the body. Together with `DecodeEncode`, encoding and decoding are inverse on responses whose status line holds no CR or LF. |
| Routing.ReadIntoBuffer | src/bin/main.rs:31-33 | After one `read`, the 1024-byte buffer starts with the delivered bytes and is zero beyond them. |
| Routing.BufferStartsWithReceived | src/bin/main.rs:31-45 | For a request line with no zero byte, the buffer starts with it exactly when the delivered bytes do. The zero fill can neither complete a partial request line nor fake one. |
| Routing.OkPageStatusLine | src/bin/main.rs:44 | `HTTP/1.1 200 OK` is a well-formed HTTP/1.1 status line (version, three-digit code, and a reason phrase of HTAB, SP, visible ASCII or obs-text bytes) with no CR or LF, and its code is 200. |
| Routing.NotFoundPageStatusLine | src/bin/main.rs:50 | `HTTP/1.1 404 NOT FOUND` is a well-formed HTTP/1.1 status line (version, three-digit code, and a reason phrase of HTAB, SP, visible ASCII or obs-text bytes) with no CR or LF, and its code is 404. |
| Routing.RequestLinesExclusive | src/bin/main.rs:37-47 | No buffer starts with both `GET / HTTP/1.1\r\n` and `GET /sleep HTTP/1.1\r\n`. So the five-second wait in the `/sleep` branch never happens for a `GET /` request. |
| Routing.Respond | src/bin/main.rs:61-68 | A response exists exactly when the page's file is readable. When the page's status line is a single line (true of both pages), the response decodes to that status line, the file's byte length and the file's text. |
| MultiRouteServer.Route | src/bin/main.rs:42-51 | The index page is chosen exactly when the buffer's first 16 bytes are `GET / HTTP/1.1\r\n` or its first 21 bytes are `GET /sleep HTTP/1.1\r\n`; otherwise it is the not-found page. The status line is well formed, and its code is 200 for `index.html` and 404 for `404.html`. |
| MultiRouteServer.RouteOrderIrrelevant | src/bin/main.rs:42-51 | Checking `/sleep` before `/` gives the same page for every buffer, because both request lines pick the index page. |
| MultiRouteServer.RouteReadsOnlyPrefix | src/bin/main.rs:37-45 | Two buffers that agree on their first 21 bytes get the same page. |
| MultiRouteServer.ShortReadNotFound | src/bin/main.rs:31-51 | A read that delivered fewer than 16 bytes is answered as not found. This covers the unread, all-zero buffer. |
| MultiRouteServer.HandleConnection | src/bin/main.rs:28-71 | A connection whose delivered bytes start with either request line is answered with the `index.html` text under a 200 status line. Every other connection is answered with the `404.html` text under a 404 line. In both cases the Content-Length equals the body's byte length. There is no answer when that file is unreadable. |
| SingleRouteServer.Route | src/main.rs:33-38 | The index page is chosen exactly when the buffer's first 16 bytes are `GET / HTTP/1.1\r\n`; otherwise it is the not-found page. The status line is well formed, with code 200 for `index.html` and 404 for `404.html`. |
| SingleRouteServer.RouteAgreesExceptSleep | src/main.rs:33-38 | A `/sleep` buffer gets 404 here and 200 from the thread-pool server. Every other buffer gets the same page from both servers. |
| SingleRouteServer.HandleConnection | src/main.rs:17-49 | A connection whose delivered bytes start with `GET / HTTP/1.1\r\n` is answered with the `index.html` text under a 200 status line. Every other connection, `/sleep` included, is answered with the `404.html` text under a 404 line. The Content-Length always equals the body's byte length. There is no answer when that file is unreadable. |
| SingleRouteServer.HandleConnectionAgreesExceptSleep | src/main.rs:33-47 | For every request that does not start with the `/sleep` line, both servers write the same bytes or both write nothing. |

## Left out

- `ThreadPool` and `Worker` (`src/lib.rs`): the pool exists for concurrency. It uses a channel, a shared mutex-guarded receiver and endless worker threads, and none of that is sequential logic this model can state.
- `main` in both files: binding `127.0.0.1:7878` and the accept loop are network I/O.
- What follows a failed file read: only the per-connection outcome (no response) is modelled. The model does not describe the single-threaded server stopping, or the thread-pool server losing the worker whose job panicked.
- `stream.read`: the delivered bytes are a parameter. At most 1024 bytes can be delivered, because that is the buffer's length. A `read` error and its `unwrap` panic are not modelled.
- `stream.write` and `stream.flush`: the model gives the bytes handed to `write`. A short write is not modelled. The source ignores the count `write` returns, so a short write would send a truncated response.
- `fs::read_to_string`: the file text is a parameter. A missing file and a file that is not valid UTF-8 are both modelled as a name absent from the map.
- `thread::sleep(Duration::from_secs(5))` on the `/sleep` route: this is timing only, so only the routing outcome is kept.
- `println!` and `String::from_utf8_lossy`: diagnostic output only.
- Decimal.NatToDecimal: renders every natural number, not only `usize` values. A body length is always a `usize`, and within that range the digits are the ones `{}` prints.
