/** `handle_connection` of src/bin/main.rs: the pooled server, which serves
    the index page for `GET /` and, after a pause, for `GET /sleep`, and the
    404 page for everything else. Only the pure part is modelled: the buffer
    contents decide the `(status, filename)` pair, and the response is the
    status line followed by the file. */
module SleepServer {
  import opened Http
  import BasicServer

  /** The `(status, filename)` choice: `GET /` first, then `GET /sleep`. */
  function Route(buffer: seq<byte>): (r: Reply)
    ensures r == Served || r == Rejected
  {
    if StartsWith(buffer, GetRoot) then Served
    else if StartsWith(buffer, GetSleep) then Served
    else Rejected
  }

  /** No buffer starts with both request lines, since they differ at byte 5;
      so which of the two tests runs first cannot change the answer. */
  lemma RequestLinesExclusive(buffer: seq<byte>)
    ensures !(StartsWith(buffer, GetRoot) && StartsWith(buffer, GetSleep))
  {
    RequestLinesDiffer();
    if StartsWith(buffer, GetRoot) {
      StartsWithAt(buffer, GetRoot, 5);
    }
    if StartsWith(buffer, GetSleep) {
      StartsWithAt(buffer, GetSleep, 5);
    }
  }

  /** `GET /` and `GET /sleep` are served with the index page; any other
      buffer gets the 404 page. */
  lemma RouteClassifies(buffer: seq<byte>)
    ensures Route(buffer) == Served <==> StartsWith(buffer, GetRoot) || StartsWith(buffer, GetSleep)
    ensures Route(buffer) == Rejected <==> !StartsWith(buffer, GetRoot) && !StartsWith(buffer, GetSleep)
  {
  }

  /** Only the first 21 bytes of the 512-byte buffer matter. */
  lemma RouteReadsFirst21Bytes(a: seq<byte>, b: seq<byte>)
    requires |a| == BufferSize && |b| == BufferSize
    requires a[..21] == b[..21]
    ensures Route(a) == Route(b)
  {
    RequestLinesHaveNoZero();
    StartsWithWithin(a, b, GetRoot, 21);
    StartsWithWithin(a, b, GetSleep, 21);
  }

  /** This server answers as the server of src/main.rs does, except that it
      serves `GET /sleep`, which that one rejects. */
  lemma ExtendsBasicServer(buffer: seq<byte>)
    ensures !StartsWith(buffer, GetSleep) ==> Route(buffer) == BasicServer.Route(buffer)
    ensures StartsWith(buffer, GetSleep) ==>
              Route(buffer) == Served && BasicServer.Route(buffer) == Rejected
  {
    BasicServer.RouteClassifies(buffer);
  }

  /** The pure part of `handle_connection`: copy `incoming`, the bytes the
      one `stream.read` call returned, into the zeroed buffer, pick the reply, and put the status line before the
      contents of the chosen file. `readFile` stands for `fs::read_to_string`. */
  function HandleConnection(incoming: seq<byte>, readFile: string -> string): (response: string)
    ensures StartsWith(incoming, GetRoot) || StartsWith(incoming, GetSleep) ==>
              response == Ok200 + readFile(IndexFile)
    ensures !StartsWith(incoming, GetRoot) && !StartsWith(incoming, GetSleep) ==>
              response == NotFound400 + readFile(NotFoundFile)
  {
    RequestLinesHaveNoZero();
    FillBufferStartsWith(incoming, GetRoot);
    FillBufferStartsWith(incoming, GetSleep);
    var reply := Route(FillBuffer(incoming));
    Respond(reply.status, readFile(reply.filename))
  }
}
