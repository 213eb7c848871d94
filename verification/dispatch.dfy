/** `handle_connection` in src/main.rs: read one request line, classify it by
    exact match, read the chosen file and write the framed response. The
    socket and the file system are inputs: the outcome of reading the request
    line, and a map from file name to the bytes a successful read returns (a
    name missing from the map is a failed read). */
module Dispatch {
  import opened Wrappers
  import opened Bytes
  import opened Framing

  const RootRequest: string := "GET / HTTP/1.1"
  const SleepRequest: string := "GET /sleep HTTP/1.1"
  const StatusOk: string := "HTTP/1.1 200 OK"
  const StatusNotFound: string := "HTTP/1.1 404 NOT FOUND"
  const HelloFile: string := "hello.html"
  const NotFoundFile: string := "404.html"

  /** The (status line, file name) pair a request line selects. */
  datatype Route = Route(status: string, file: string)

  /** Exact-match classification of the request line; total, so every line
      gets a route. The five-second delay of the `/sleep` form is not part of
      the model. */
  function Classify(line: string): (r: Route)
    ensures line == RootRequest ==> r == Route(StatusOk, HelloFile)
    ensures line == SleepRequest ==> r == Route(StatusOk, HelloFile)
    ensures line != RootRequest && line != SleepRequest ==> r == Route(StatusNotFound, NotFoundFile)
    ensures r.status == StatusOk <==> r.file == HelloFile
    ensures r.status == StatusOk <==> line == RootRequest || line == SleepRequest
  {
    if line == RootRequest then Route(StatusOk, HelloFile)
    else if line == SleepRequest then Route(StatusOk, HelloFile)
    else Route(StatusNotFound, NotFoundFile)
  }

  /** Both status lines are single ASCII lines. */
  lemma StatusLinesAreAscii()
    ensures IsAscii(StatusOk) && NoLineBreak(Ascii(StatusOk))
    ensures IsAscii(StatusNotFound) && NoLineBreak(Ascii(StatusNotFound))
  {
  }

  /** What `lines().next()` yields: a line, a read error, or end of stream. */
  datatype LineRead = Line(text: string) | ReadError | Closed

  /** How one connection ends. `NoRequest` is the early `Ok(())` with nothing
      written; `FileError` is the `Err` from reading the file, again with
      nothing written; `Responded` carries the bytes handed to `write_all`. */
  datatype Handled = NoRequest | FileError(file: string) | Responded(response: seq<byte>) {
    /** The Rust function returned `Err`. */
    predicate IsError() {
      FileError?
    }
  }

  /** The status line bytes of a route: what `as_bytes` yields for an ASCII
      string, one byte per character. */
  function StatusBytes(route: Route): (b: seq<byte>)
    requires route.status == StatusOk || route.status == StatusNotFound
    ensures |b| == |route.status|
    ensures forall i :: 0 <= i < |b| ==> b[i] < 128 && b[i] == route.status[i] as int
    ensures NoLineBreak(b)
  {
    StatusLinesAreAscii();
    Ascii(route.status)
  }

  function HandleConnection(input: LineRead, files: map<string, seq<byte>>): (r: Handled)
    ensures r.NoRequest? <==> !input.Line?
    ensures r.IsError() <==> input.Line? && Classify(input.text).file !in files
    ensures r.IsError() ==> r.file == Classify(input.text).file
    ensures r.Responded? <==> input.Line? && Classify(input.text).file in files
    ensures r.Responded? ==>
      var route := Classify(input.text);
      ParseResponse(r.response) == Some(Parsed(StatusBytes(route), |files[route.file]|, files[route.file]))
    ensures r.Responded? ==>
      var route := Classify(input.text);
      r.response == Response(StatusBytes(route), files[route.file])
  {
    match input
    case ReadError => NoRequest
    case Closed => NoRequest
    case Line(text) =>
      var route := Classify(text);
      if route.file in files then
        var contents := files[route.file];
        ResponseRoundTrip(StatusBytes(route), contents);
        Responded(Response(StatusBytes(route), contents))
      else FileError(route.file)
  }
}
