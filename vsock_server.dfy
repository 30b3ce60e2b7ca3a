/** The connection handler of the enclave server, `handleHTTPConnection`: it reads one
    minimal HTTP/1.x request from the byte stream of an accepted connection and, once the
    header block is complete, writes one fixed JSON acknowledgement; on every earlier
    failure it writes nothing and the connection is closed.

    The stream is the whole sequence of bytes the peer sends; the handler reads it through a
    cursor. Two things the handler gets from its environment are parameters: what
    `fmt.Sscanf` reports for the `Content-Length` value, and how many bytes the single body
    `Read` is handed. */
module VsockServer {
  import opened GoStrings

  /** What the handler knows once the header block is read. */
  datatype Request = Request(
    requestMethod: string,
    path: string,
    headers: map<string, string>,
    body: string)

  datatype Outcome =
    | LineReadError           // the stream ends before the first '\n'
    | MalformedRequestLine    // the request line has fewer than 3 fields
    | HeaderReadError         // the stream ends before the blank line closing the headers
    | Ok(request: Request)

  /** What `fmt.Sscanf(value, "%d", &bodyBytes)` returns: how many items it scanned and
      whether it reported an error. */
  datatype ScanResult = ScanResult(count: nat, failed: bool)

  /** The one header the handler looks up, spelled exactly so: the lookup is case-sensitive. */
  const ContentLengthKey: string := "Content-Length"

  /** The cutset that `strings.TrimRight` strips from each header line. */
  const LineTerminators: string := "\r\n"

  /** The acknowledgement payload. */
  const JsonResponse: string := "{\"status\":\"success\",\"message\":\"Request acknowledged by Nitro Enclave\"}"

  /** The response, formatted with `%d` of the payload's length. */
  function Response(): string {
    "HTTP/1.1 200 OK\r\n" +
    "Content-Type: application/json\r\n" +
    "Content-Length: " + Decimal(|JsonResponse|) + "\r\n" +
    "\r\n" +
    JsonResponse
  }

  /** `i` is the index of the first colon of `line`. */
  ghost predicate FirstColonAt(line: string, i: nat) {
    i < |line| && line[i] == ':' && ':' !in line[..i]
  }

  /** One header line, already stripped of its line terminators: split at its first colon
      into a trimmed key and a trimmed value (`ParseHeaderLineAt` states the split). A line
      with no colon, or whose colon is its first byte, gives no header. */
  function ParseHeaderLine(line: string): (r: Option<(string, string)>)
    ensures r.None? <==> (':' !in line || line[0] == ':')
  {
    match IndexByte(line, ':')
    case None => None
    case Some(i) =>
      if i > 0 then Some((TrimSpace(line[..i]), TrimSpace(line[i + 1..])))
      else None
  }

  /** A header line whose first colon is at `i > 0` gives the key before it and the value
      after it, both trimmed. */
  lemma ParseHeaderLineAt(line: string, i: nat)
    requires FirstColonAt(line, i) && 0 < i
    ensures ParseHeaderLine(line) == Some((TrimSpace(line[..i]), TrimSpace(line[i + 1..])))
  {
    IndexByteAt(line, ':', i);
  }

  /** The effect of one header line on the header map: `headers[key] = value`. */
  function ApplyHeader(headers: map<string, string>, line: string): map<string, string> {
    match ParseHeaderLine(line)
    case None => headers
    case Some((key, value)) => headers[key := value]
  }

  /** The header loop, reading lines from `pos` on and adding them to `headers`: the map
      and the position just after the blank line, or `None` when the stream ends first. */
  function ReadHeaders(s: string, pos: nat, headers: map<string, string>): (r: Option<(map<string, string>, nat)>)
    requires pos <= |s|
    ensures r.Some? ==> pos < r.value.1 <= |s|
    decreases |s| - pos
  {
    match ReadString(s, pos, '\n')
    case None => None
    case Some(next) =>
      var line := TrimRight(s[pos..next], LineTerminators);
      if line == [] then Some((headers, next))
      else ReadHeaders(s, next, ApplyHeader(headers, line))
  }

  /** The header block read from `pos`: its lines, each stripped of trailing CR and LF bytes,
      and the position just after the blank line that ends it; `None` when the stream ends
      before a blank line. */
  function HeaderBlock(s: string, pos: nat): (r: Option<(seq<string>, nat)>)
    requires pos <= |s|
    ensures r.Some? ==> pos < r.value.1 <= |s|
    decreases |s| - pos
  {
    match ReadString(s, pos, '\n')
    case None => None
    case Some(next) =>
      var line := TrimRight(s[pos..next], LineTerminators);
      if line == [] then Some(([], next))
      else match HeaderBlock(s, next)
        case None => None
        case Some((lines, end)) => Some(([line] + lines, end))
  }

  /** The header lines applied to the map one after another, first line first. */
  function FoldHeaders(headers: map<string, string>, lines: seq<string>): map<string, string>
    decreases |lines|
  {
    if |lines| == 0 then headers else FoldHeaders(ApplyHeader(headers, lines[0]), lines[1..])
  }

  /** `n` zero bytes, what `make([]byte, n)` holds. */
  function Zeros(n: nat): (z: string)
    ensures |z| == n && forall i :: 0 <= i < n ==> z[i] == '\0'
  {
    seq(n, _ => '\0')
  }

  function Min(a: int, b: int): int {
    if a < b then a else b
  }

  /** The body is the first `n` bytes of the stream from `pos` on, then zero bytes. */
  ghost predicate FilledFromStream(s: string, pos: nat, body: string, n: nat) {
    pos + n <= |s| && n <= |body| && body[..n] == s[pos..pos + n] &&
    forall i :: n <= i < |body| ==> body[i] == '\0'
  }

  /** The body step. Only when the exact key `Content-Length` is present and the scan of its
      value reports no error and a positive count `cl` is a body read: a buffer of `cl` zero
      bytes, of which one `Read` fills at most `delivered` bytes from the stream. A short
      read leaves zero bytes at the end; a failed read is only logged by the handler. */
  function ReadBody(s: string, pos: nat, headers: map<string, string>, scan: string -> ScanResult, delivered: nat): (body: string)
    requires pos <= |s|
    ensures body != [] <==>
      (ContentLengthKey in headers && !scan(headers[ContentLengthKey]).failed && scan(headers[ContentLengthKey]).count > 0)
    ensures body != [] ==> |body| == scan(headers[ContentLengthKey]).count
    ensures exists n: nat :: n <= delivered && FilledFromStream(s, pos, body, n)
  {
    if ContentLengthKey in headers then
      var scanned := scan(headers[ContentLengthKey]);
      if !scanned.failed && scanned.count > 0 then
        var n := Min(Min(scanned.count, delivered), |s| - pos);
        var body := s[pos..pos + n] + Zeros(scanned.count - n);
        assert FilledFromStream(s, pos, body, n);
        body
      else
        assert FilledFromStream(s, pos, [], 0);
        []
    else
      assert FilledFromStream(s, pos, [], 0);
      []
  }

  /** What the handler makes of the stream `s`. */
  function ParseRequest(s: string, scan: string -> ScanResult, delivered: nat): Outcome {
    match ReadString(s, 0, '\n')
    case None => LineReadError
    case Some(lineEnd) =>
      var parts := Fields(s[..lineEnd]);
      if |parts| < 3 then MalformedRequestLine
      else match ReadHeaders(s, lineEnd, map[])
        case None => HeaderReadError
        case Some((headers, bodyStart)) =>
          Ok(Request(parts[0], parts[1], headers, ReadBody(s, bodyStart, headers, scan, delivered)))
  }

  /** The bytes the handler writes to the connection for the stream `s`. */
  function Transcript(s: string, scan: string -> ScanResult, delivered: nat): string {
    if ParseRequest(s, scan, delivered).Ok? then Response() else []
  }

  /** `handleHTTPConnection`: reads the request line, then the header block, then the body
      through a cursor over `input`, and appends the response to `written` when the header
      block is complete. Closing the connection is implicit. */
  method HandleConnection(input: string, scan: string -> ScanResult, delivered: nat)
    returns (outcome: Outcome, written: string)
    ensures outcome == ParseRequest(input, scan, delivered)
    ensures written == Transcript(input, scan, delivered)
  {
    written := [];
    var lineEnd := ReadString(input, 0, '\n');
    if lineEnd.None? {
      return LineReadError, written;
    }
    var parts := Fields(input[..lineEnd.value]);
    if |parts| < 3 {
      return MalformedRequestLine, written;
    }
    var requestMethod, path := parts[0], parts[1];
    var block := ReadHeaderLoop(input, lineEnd.value);
    if block.None? {
      return HeaderReadError, written;
    }
    var (headers, pos) := block.value;
    var body := ReadBodyStep(input, pos, headers, scan, delivered);
    outcome := Ok(Request(requestMethod, path, headers, body));
    written := written + Response();
  }

  /** The header loop of `handleHTTPConnection`: reads lines from `start` on, updating the
      header map in place, until a line that is empty once its trailing CR and LF bytes are
      stripped; `None` when the stream ends first. */
  method ReadHeaderLoop(input: string, start: nat) returns (block: Option<(map<string, string>, nat)>)
    requires start <= |input|
    ensures block == ReadHeaders(input, start, map[])
  {
    var headers: map<string, string> := map[];
    var pos := start;
    while true
      invariant start <= pos <= |input|
      invariant ReadHeaders(input, pos, headers) == ReadHeaders(input, start, map[])
      decreases |input| - pos
    {
      var next := ReadString(input, pos, '\n');
      if next.None? {
        return None;
      }
      var line := TrimRight(input[pos..next.value], LineTerminators);
      ghost var before := headers;
      assert ReadHeaders(input, pos, headers) ==
        if line == [] then Some((headers, next.value)) else ReadHeaders(input, next.value, ApplyHeader(headers, line));
      pos := next.value;
      if line == [] {
        break;
      }
      var colonIndex := IndexByte(line, ':');
      if colonIndex.Some? && colonIndex.value > 0 {
        var key := TrimSpace(line[..colonIndex.value]);
        var value := TrimSpace(line[colonIndex.value + 1..]);
        headers := headers[key := value];
      }
      assert headers == ApplyHeader(before, line);
    }
    return Some((headers, pos));
  }

  /** The body step of `handleHTTPConnection`, reading from `pos` on. */
  method ReadBodyStep(input: string, pos: nat, headers: map<string, string>, scan: string -> ScanResult, delivered: nat)
    returns (body: string)
    requires pos <= |input|
    ensures body == ReadBody(input, pos, headers, scan, delivered)
  {
    body := [];
    if ContentLengthKey in headers {
      var contentLength := headers[ContentLengthKey];
      var scanned := scan(contentLength);
      if !scanned.failed && scanned.count > 0 {
        var bodyBytes := Zeros(scanned.count);
        var n := Min(Min(scanned.count, delivered), |input| - pos);
        assert bodyBytes[n..] == Zeros(scanned.count - n);
        bodyBytes := input[pos..pos + n] + bodyBytes[n..];
        body := bodyBytes;
      }
    }
  }
}
