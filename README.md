# The enclave's vsock connection handler, modelled in Dafny

The enclave server accepts connections on a virtual socket (vsock). It hands each one to
`handleHTTPConnection` in `vsock-server.go`. The handler reads one minimal HTTP/1.x request
from the connection's byte stream:

1. the request line, split into whitespace-separated fields;
2. header lines until a line that is empty once its trailing CR and LF bytes are stripped;
3. when a `Content-Length` header is present, its value is scanned with `fmt.Sscanf`, and a
   body is read only when that scan succeeds with a positive count. As written, the scan
   always fails, so no body is ever read (see Findings below).

Once the header block is complete, it writes one fixed JSON acknowledgement. On every
earlier failure it writes nothing, and the deferred `Close` ends the connection.

The project has three modules:

- `GoStrings` (`go_strings.dfy`) models the Go library calls the handler is built from:
  - `bufio.Reader.ReadString`, as a cursor over the stream;
  - `strings.Index` for one byte, `strings.Fields`, `strings.TrimRight` and `strings.TrimSpace`;
  - the `%d` verb of `fmt`.

  Each one comes with lemmas about it:
  - any string made of words separated by runs of whitespace, with any whitespace before
    and after, splits back into those words under `Fields`;
  - `TrimSpace` removes exactly the whitespace margins;
  - reading back the digits `%d` prints gives the number printed.
- `VsockServer` (`vsock_server.dfy`) holds the handler itself.
  - The datatypes of the outcome (`LineReadError`, `MalformedRequestLine`,
    `HeaderReadError`, `Ok(request)`) and of the request.
  - A specification of what the handler makes of a stream (`ParseRequest`) and of the bytes
    it writes (`Transcript`).
  - The imperative handler. `HandleConnection` advances a cursor over the input. Its loop
    `ReadHeaderLoop` updates the header map in place. `ReadBodyStep` reassigns the body
    buffer. Each is proved equal to its specification.
- `VsockServerProperties` (`vsock_server_properties.dfy`) proves what the handler guarantees:
  - which streams are answered and which are dropped in silence;
  - how the header map is built;
  - that the body step never aborts;
  - that the answer is the same fixed response for every request.

The two inputs the handler takes from its environment are parameters:

- `scan`: what `fmt.Sscanf` reports for the `Content-Length` value, as a count and whether
  it failed;
- `delivered`: how many bytes the single body `Read` yields.

Bytes are modelled as characters, one per octet.

## Model

| member | source | states |
|---|---|---|
| GoStrings.IndexByte | vsock-server.go:111 | the result is the first index holding the byte, with no earlier occurrence; `None` only when the byte does not occur |
| GoStrings.IndexByteAt | vsock-server.go:111 | the first occurrence is found, whatever follows it |
| GoStrings.ReadString | vsock-server.go:78 | reading from `pos` ends just after the first `'\n'` from there on, with no `'\n'` before it; it fails exactly when no `'\n'` remains |
| GoStrings.TrimRight | vsock-server.go:103 | the result is a prefix of the line; every byte removed is in the cutset; the last byte kept is not in the cutset, so every trailing CR and LF goes, not just one CRLF |
| GoStrings.TrimSpace | vsock-server.go:113-114 | the result is the middle of the input between two all-whitespace margins, and neither of its ends is whitespace |
| GoStrings.TrimSpaceOfPadded | vsock-server.go:113-114 | any whitespace around a string whose ends are not whitespace is removed, and that string comes back whole |
| GoStrings.Fields | vsock-server.go:85 | every field is non-empty and holds no whitespace |
| GoStrings.FieldsKeepEveryNonSpace | vsock-server.go:85 | the fields laid end to end are exactly the input's non-whitespace bytes, in order |
| GoStrings.FieldsOfSeparated | vsock-server.go:85 | a string made of leading whitespace, then words separated by non-empty runs of whitespace, then trailing whitespace, splits into exactly those words; every string has that form, so each field is a maximal run of non-whitespace bytes |
| GoStrings.FieldsOfJoined | vsock-server.go:85 | the same, with no leading whitespace |
| GoStrings.FieldsOfUnwords | vsock-server.go:85 | splitting words joined by single spaces, with any trailing whitespace such as CRLF, gives those words back |
| GoStrings.FieldsSkipSpaces | vsock-server.go:85 | leading whitespace does not change the fields |
| GoStrings.Decimal | vsock-server.go:146 | `%d` of a number is a non-empty string of decimal digits with no leading zero |
| GoStrings.DecimalRoundTrip | vsock-server.go:146 | reading back the digits `%d` prints gives the number printed |
| VsockServer.ParseHeaderLine | vsock-server.go:111-116 | a header line gives no header exactly when it has no colon or its colon is its first byte |
| VsockServer.ParseHeaderLineAt | vsock-server.go:111-115 | a line whose first colon is at index `i > 0` gives the trimmed text before `i` as key and the trimmed text after it as value |
| VsockServer.ReadHeaders | vsock-server.go:93-117 | the header loop, when it finds the blank line, stops at a position past where it started and within the stream |
| VsockServer.HeaderBlock | vsock-server.go:95-108 | the header block, when complete, ends past where it started and within the stream |
| VsockServer.Zeros | vsock-server.go:126 | `make([]byte, n)` holds `n` zero bytes |
| VsockServer.ReadBody | vsock-server.go:119-133 | the body is non-empty exactly when the exact key `Content-Length` is present and the scan reports no error and a positive count; it then has that count as its length; it is always at most `delivered` bytes of the stream from the body start, then zero bytes |
| VsockServer.HandleConnection | vsock-server.go:71-156 | the imperative handler's outcome is `ParseRequest` of the input, and the bytes it writes are `Transcript` of the input |
| VsockServer.ReadHeaderLoop | vsock-server.go:93-117 | the loop that updates the header map in place computes `ReadHeaders` from the end of the request line with an empty map |
| VsockServer.ReadBodyStep | vsock-server.go:119-133 | the body step that reassigns the buffer computes `ReadBody` |
| VsockServerProperties.NoNewlineNothingWritten | vsock-server.go:78-82 | the outcome is `LineReadError` exactly when the stream has no `'\n'`, and then nothing is written |
| VsockServerProperties.RequestLineFields | vsock-server.go:84-91 | once the request line is read, the request is malformed exactly when the line has fewer than three fields, and then nothing is written; otherwise the method is field 0 and the path field 1 |
| VsockServerProperties.LaterFieldsIgnored | vsock-server.go:84-91 | two streams whose request lines both have at least three fields, agree on fields 0 and 1 and are followed by the same bytes get the same outcome and the same written bytes, so fields past the second play no part |
| VsockServerProperties.ReadStringShift | vsock-server.go:78 | reading a line depends only on the bytes from the cursor on: two streams that agree from their cursors read the same line, of the same length, and leave the same bytes unread |
| VsockServerProperties.ReadHeadersShift | vsock-server.go:93-117 | the header loop depends only on the bytes from where it starts: both fail or both give the same map, ending the same distance on, before the same bytes |
| VsockServerProperties.ReadBodyShift | vsock-server.go:119-133 | the body step depends only on the bytes from where the body starts |
| VsockServerProperties.RequestLineAt | vsock-server.go:78-85 | a request line of words joined by spaces and ended by CRLF at the start of the stream is read whole and splits back into those words |
| VsockServerProperties.ReadHeadersIsFold | vsock-server.go:93-117 | the header loop computes the same map as applying the header block's lines one after another, and stops where the block ends; it fails exactly when the block is incomplete |
| VsockServerProperties.HeaderBlockShape | vsock-server.go:102-108 | no line of a header block is empty, and the block ends just after a `'\n'` |
| VsockServerProperties.BlankLineEndsBlock | vsock-server.go:102-108 | a line made only of CR and LF bytes, however many, ends the header block and leaves the header map as it was |
| VsockServerProperties.HeaderLineContinuesBlock | vsock-server.go:102-108 | a line with any byte other than CR and LF does not end the block; its stripped text is the block's next line |
| VsockServerProperties.HeadersEofNothingWritten | vsock-server.go:95-100 | past a good request line, the outcome is `HeaderReadError` exactly when the header block is incomplete, and then nothing is written; otherwise the request holds the folded header map |
| VsockServerProperties.HeaderValueKeepsColons | vsock-server.go:111-114 | a line is split at its first colon, so the value keeps any later colons; key and value are trimmed |
| VsockServerProperties.HeaderLineSkipped | vsock-server.go:111-112 | a line with no colon, or with its colon first, changes nothing and is not an error |
| VsockServerProperties.FoldKeepsOtherKeys | vsock-server.go:115 | lines that do not set a key leave its entry, or its absence, as it was |
| VsockServerProperties.LastOccurrenceWins | vsock-server.go:115 | when a key is set more than once, the value of its last line is the one kept |
| VsockServerProperties.FirstLineWins | vsock-server.go:115 | a first line that sets a key, followed by none that sets it, decides its value |
| VsockServerProperties.KeysComeFromLines | vsock-server.go:113-115 | every key in the header map is, exactly as spelled, the trimmed key of some header line |
| VsockServerProperties.BodyOnlyForExactKey | vsock-server.go:121 | without the exact, case-sensitive key `Content-Length` the body stays empty |
| VsockServerProperties.BodyStepNeverAborts | vsock-server.go:124-139 | whatever the scan reports and however many bytes the read delivers, the outcome kind, method, path, headers and written bytes are the same |
| VsockServerProperties.GoSscanfIntoByteSlice | vsock-server.go:125 | `Sscanf` with `%d` into a `*[]byte` scans nothing and reports an error |
| VsockServerProperties.NoBodyAsWritten | vsock-server.go:121-133 | with that scan, every answered request has an empty body |
| VsockServerProperties.ScanContentLength | vsock-server.go:125 | the intended scan succeeds exactly on a non-empty string of digits, and then yields the number it denotes |
| VsockServerProperties.ScanOfDecimal | vsock-server.go:125 | the intended scan reads the decimal digits of a length `n` back as `n`, without error |
| VsockServerProperties.IntendedBodyIsDeclaredLength | vsock-server.go:125-131 | with the intended scan, a `Content-Length` of `n` whose `n` bytes are present and delivered gives exactly those bytes as the body |
| VsockServerProperties.ResponseWireFormat | vsock-server.go:142-149 | the response is, in order: the status line, `Content-Type: application/json`, `Content-Length: 70`, a blank line (each ended by CRLF), then the JSON payload, whose length is 70 |
| VsockServerProperties.ResponseIndependentOfRequest | vsock-server.go:141-155 | every stream whose header block is complete gets the same bytes, the fixed response, whatever its method, path, headers and body; every other stream gets nothing |
| VsockServerProperties.RequestLineThenHeaders | vsock-server.go:78-117 | a stream starting with a request line of at least three words and a complete header block is answered with the fixed response; its method and path are the first two words, its headers the block's lines applied in turn, and its body is read from just after the block |
| VsockServerProperties.ScenarioBadLine | vsock-server.go:84-89 | the one-field request `BADLINE\r\n\r\n` is malformed and gets no bytes |
| VsockServerProperties.ScenarioSpacedFields | vsock-server.go:85 | the request line `GET  /  HTTP/1.1\r\n`, with two spaces between its fields, splits into `GET`, `/` and `HTTP/1.1` |

## Left out

- `main` (vsock listener, `Accept` loop, per-connection goroutines, signal handling). This is I/O and concurrency over a foreign library.
- `client.go` and `server.go` are not part of this model. They are network and clock wrappers with no parsing logic.
- Logging and `conn.RemoteAddr()` are left out. They never change what is written.
- `conn.Write` and `conn.Close` errors are left out. The write is an append to the output sequence, and close is implicit. A write error changes nothing the handler does afterwards.
- `bufio` buffering is not modelled. The stream is a whole sequence read through a cursor, and what the single `reader.Read` of the body delivers is the parameter `delivered`.
- The exact behaviour of `fmt.Sscanf` is not modelled; it is the parameter `scan`. `GoSscanfIntoByteSlice` gives only its outcome for the `*[]byte` operand the handler passes.
- Whitespace is ASCII only. Go's `strings.Fields` and `strings.TrimSpace` also treat U+0085, U+00A0 and multi-byte Unicode spaces as whitespace.
- Characters stand for bytes, so no UTF-8 decoding is modelled.
- No text-level theorem says that a request serialised line by line as text is parsed back to its lines. `RequestLineThenHeaders` takes the header block as read by `HeaderBlock`. `BlankLineEndsBlock` and `HeaderLineContinuesBlock` state how that block is read, one line at a time.
- VsockServer.ReadHeaders: its contract states only the bounds of the end position. What it computes is stated by `ReadHeadersIsFold` and `HeaderBlockShape`.
- VsockServer.HeaderBlock: its contract states only the bounds of the end position. The shape of the block is in `HeaderBlockShape`.

How the code treats four details:

- Header names are kept as received. The lookup of `Content-Length` is exact and case-sensitive.
- The error the body `Read` returns never changes the outcome or the response. A failed read (`err != nil`) is only logged (vsock-server.go:128-130); a short read with no error is not even logged. So there is no body-read-failure outcome.
- The body buffer is `make([]byte, cl)`. After a short read its end is still zero bytes, so the body is the bytes the peer sent followed by zero bytes.
- The `Content-Length` of the response is 70, the length of the JSON payload.

## Findings

| source | as written | input that shows it | evidently intended | confidence | as-written member | corrected member |
|---|---|---|---|---|---|---|
| vsock-server.go:124-125 | `fmt.Sscanf(contentLength, "%d", &bodyBytes)` scans into a `*[]byte`, which `%d` does not accept, so it returns 0 items and an error, and the body is never read | `POST /x HTTP/1.1\r\nContent-Length: 5\r\n\r\nhello` gives an empty body | parse the value as a decimal length `n` and read `n` bytes | not executed | VsockServerProperties.NoBodyAsWritten | VsockServerProperties.IntendedBodyIsDeclaredLength |
