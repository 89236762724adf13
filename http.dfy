/** What the two `handle_connection` functions (src/main.rs and
    src/bin/main.rs) share: the 512-byte request buffer, byte-prefix matching
    on it, the request lines they look for, the status lines, the file names,
    and the response `format!("{}{}", status, contents)`. */
module Http {

  newtype byte = b: int | 0 <= b < 256

  /** `let mut buffer = [0; 512];` */
  const BufferSize: nat := 512

  /** The bytes of an ASCII string, as a `b"..."` literal gives them. */
  function Ascii(s: string): (r: seq<byte>)
    requires forall k | 0 <= k < |s| :: s[k] as int < 256
    ensures |r| == |s|
    ensures forall k | 0 <= k < |s| :: r[k] as int == s[k] as int
  {
    seq(|s|, k requires 0 <= k < |s| => s[k] as int as byte)
  }

  /** `b"GET / HTTP/1.1\r\n"` */
  const GetRoot: seq<byte> := Ascii("GET / HTTP/1.1\r\n")

  /** `b"GET /sleep HTTP/1.1\r\n"` */
  const GetSleep: seq<byte> := Ascii("GET /sleep HTTP/1.1\r\n")

  const Ok200: string := "HTTP/1.1 200 OK \r\n\r\n"
  const NotFound400: string := "HTTP/1.1 400 Not found \r\n\r\n"
  const IndexFile: string := "index.html"
  const NotFoundFile: string := "404.html"

  /** The `(status, filename)` pair a handler picks. */
  datatype Reply = Reply(status: string, filename: string)

  const Served: Reply := Reply(Ok200, IndexFile)
  const Rejected: Reply := Reply(NotFound400, NotFoundFile)

  /** `<[u8]>::starts_with`. */
  predicate StartsWith(s: seq<byte>, prefix: seq<byte>)
  {
    |prefix| <= |s| && s[..|prefix|] == prefix
  }

  /** The buffer after `stream.read(&mut buffer)`: `incoming` is what that
      one call returned (possibly less than the client sent), at most 512
      bytes of it land in the buffer, and zeros follow. */
  function FillBuffer(incoming: seq<byte>): (buffer: seq<byte>)
    ensures |buffer| == BufferSize
    ensures forall k | 0 <= k < |incoming| && k < BufferSize :: buffer[k] == incoming[k]
    ensures forall k | |incoming| <= k < BufferSize :: buffer[k] == 0
  {
    var n := if |incoming| < BufferSize then |incoming| else BufferSize;
    incoming[..n] + seq(BufferSize - n, _ => 0)
  }

  /** `format!("{}{}", status, contents)`: the status line comes first and the
      file follows it unchanged. */
  function Respond(status: string, contents: string): (response: string)
    ensures |response| == |status| + |contents|
    ensures response[..|status|] == status
    ensures response[|status|..] == contents
  {
    status + contents
  }

  /** Neither request line contains a zero byte. */
  lemma RequestLinesHaveNoZero()
    ensures |GetRoot| == 16 && |GetSleep| == 21
    ensures forall k | 0 <= k < |GetRoot| :: GetRoot[k] != 0
    ensures forall k | 0 <= k < |GetSleep| :: GetSleep[k] != 0
  {
  }

  /** The two request lines differ at byte 5: a space against an `s`. */
  lemma RequestLinesDiffer()
    ensures |GetRoot| > 5 && |GetSleep| > 5
    ensures GetRoot[5] == 32 && GetSleep[5] == 115
  {
  }

  /** A buffer that starts with `prefix` agrees with it byte by byte. */
  lemma StartsWithAt(s: seq<byte>, prefix: seq<byte>, k: nat)
    requires StartsWith(s, prefix) && k < |prefix|
    ensures s[k] == prefix[k]
  {
  }

  /** A prefix match at most `n` bytes long depends only on the first `n`
      bytes. */
  lemma StartsWithWithin(a: seq<byte>, b: seq<byte>, prefix: seq<byte>, n: nat)
    requires |prefix| <= n <= |a| && n <= |b| && a[..n] == b[..n]
    ensures StartsWith(a, prefix) <==> StartsWith(b, prefix)
  {
  }

  /** Filling the zeroed buffer does not change which request lines match:
      the buffer starts with a line free of zero bytes exactly when the bytes
      the one `read` call returned do. A short read never matches. */
  lemma FillBufferStartsWith(incoming: seq<byte>, prefix: seq<byte>)
    requires |prefix| <= BufferSize
    requires forall k | 0 <= k < |prefix| :: prefix[k] != 0
    ensures StartsWith(FillBuffer(incoming), prefix) <==> StartsWith(incoming, prefix)
  {
    var buffer := FillBuffer(incoming);
    if |prefix| <= |incoming| {
      assert buffer[..|prefix|] == incoming[..|prefix|];
    } else {
      assert buffer[|incoming|] == 0 != prefix[|incoming|];
      assert buffer[..|prefix|][|incoming|] != prefix[|incoming|];
    }
  }
}
