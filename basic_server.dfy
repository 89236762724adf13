/** `handle_connection` of src/main.rs: the single-threaded server that
    answers `GET /` with the index page and everything else with the 404
    page. Only the pure part is modelled: the buffer contents decide the
    `(status, filename)` pair, and the response is the status line followed
    by the file. */
module BasicServer {
  import opened Http

  /** The `(status, filename)` choice: one prefix test. */
  function Route(buffer: seq<byte>): (r: Reply)
    ensures r == Served || r == Rejected
  {
    if StartsWith(buffer, GetRoot) then Served else Rejected
  }

  /** `GET /` is served with the index page; any other buffer gets the 404
      page, including a `GET /sleep` request, which this server does not
      know. */
  lemma RouteClassifies(buffer: seq<byte>)
    ensures Route(buffer) == Served <==> StartsWith(buffer, GetRoot)
    ensures Route(buffer) == Rejected <==> !StartsWith(buffer, GetRoot)
    ensures StartsWith(buffer, GetSleep) ==> Route(buffer) == Rejected
  {
    assert Ok200 != NotFound400 by { assert Ok200[9] != NotFound400[9]; }
    RequestLinesDiffer();
    if StartsWith(buffer, GetRoot) {
      StartsWithAt(buffer, GetRoot, 5);
    }
    if StartsWith(buffer, GetSleep) {
      StartsWithAt(buffer, GetSleep, 5);
    }
  }

  /** Only the first 16 bytes of the 512-byte buffer matter. */
  lemma RouteReadsFirst16Bytes(a: seq<byte>, b: seq<byte>)
    requires |a| == BufferSize && |b| == BufferSize
    requires a[..16] == b[..16]
    ensures Route(a) == Route(b)
  {
    RequestLinesHaveNoZero();
    StartsWithWithin(a, b, GetRoot, 16);
  }

  /** The pure part of `handle_connection`: copy `incoming`, the bytes the
      one `stream.read` call returned, into the zeroed buffer, pick the reply, and put the status line before the
      contents of the chosen file. `readFile` stands for `fs::read_to_string`. */
  function HandleConnection(incoming: seq<byte>, readFile: string -> string): (response: string)
    ensures StartsWith(incoming, GetRoot) ==> response == Ok200 + readFile(IndexFile)
    ensures !StartsWith(incoming, GetRoot) ==> response == NotFound400 + readFile(NotFoundFile)
  {
    RequestLinesHaveNoZero();
    FillBufferStartsWith(incoming, GetRoot);
    var reply := Route(FillBuffer(incoming));
    Respond(reply.status, readFile(reply.filename))
  }
}
