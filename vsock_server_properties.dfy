/** What the connection handler guarantees: which streams are answered, which are dropped
    in silence, how the header map is built, and that the answer never depends on the
    request. */
module VsockServerProperties {
  import opened GoStrings
  import opened VsockServer

  // ---------------------------------------------------------------------------------
  // Reading lines

  /** The line `ReadString` reads from `pos` ends at the first '\n' from there on. */
  lemma ReadStringAt(s: string, pos: nat, e: nat)
    requires pos < e <= |s| && s[e - 1] == '\n' && '\n' !in s[pos..e - 1]
    ensures ReadString(s, pos, '\n') == Some(e)
  {
    assert s[pos..][..e - 1 - pos] == s[pos..e - 1];
    IndexByteAt(s[pos..], '\n', e - 1 - pos);
  }

  // ---------------------------------------------------------------------------------
  // The request line

  /** With no '\n' in the stream the handler stops at the request line, and writes nothing;
      a stream with a '\n' always gets past this step. */
  lemma NoNewlineNothingWritten(s: string, scan: string -> ScanResult, delivered: nat)
    ensures ParseRequest(s, scan, delivered) == LineReadError <==> '\n' !in s
    ensures '\n' !in s ==> Transcript(s, scan, delivered) == []
  {
    assert s[0..] == s;
  }

  /** Once a request line `s[..e]` has been read, the request is malformed exactly when the
      line has fewer than three fields; otherwise the method is its first field and the
      path its second, and later fields play no part. A malformed request gets no answer. */
  lemma RequestLineFields(s: string, scan: string -> ScanResult, delivered: nat, e: nat)
    requires 0 < e <= |s| && s[e - 1] == '\n' && '\n' !in s[..e - 1]
    ensures ParseRequest(s, scan, delivered) == MalformedRequestLine <==> |Fields(s[..e])| < 3
    ensures ParseRequest(s, scan, delivered).Ok? ==>
      var r := ParseRequest(s, scan, delivered).request;
      r.requestMethod == Fields(s[..e])[0] && r.path == Fields(s[..e])[1]
    ensures |Fields(s[..e])| < 3 ==> Transcript(s, scan, delivered) == []
  {
    assert s[0..e - 1] == s[..e - 1];
    ReadStringAt(s, 0, e);
  }

  /** Fields past the second play no part: two streams whose request lines both have at
      least three fields, agree on the first two and are followed by the same bytes get
      the same outcome and the same answer. */
  lemma LaterFieldsIgnored(s1: string, e1: nat, s2: string, e2: nat, scan: string -> ScanResult, delivered: nat)
    requires 0 < e1 <= |s1| && s1[e1 - 1] == '\n' && '\n' !in s1[..e1 - 1]
    requires 0 < e2 <= |s2| && s2[e2 - 1] == '\n' && '\n' !in s2[..e2 - 1]
    requires |Fields(s1[..e1])| >= 3 && |Fields(s2[..e2])| >= 3
    requires Fields(s1[..e1])[0] == Fields(s2[..e2])[0] && Fields(s1[..e1])[1] == Fields(s2[..e2])[1]
    requires s1[e1..] == s2[e2..]
    ensures ParseRequest(s1, scan, delivered) == ParseRequest(s2, scan, delivered)
    ensures Transcript(s1, scan, delivered) == Transcript(s2, scan, delivered)
  {
    assert s1[0..e1 - 1] == s1[..e1 - 1];
    assert s2[0..e2 - 1] == s2[..e2 - 1];
    ReadStringAt(s1, 0, e1);
    ReadStringAt(s2, 0, e2);
    ReadHeadersShift(s1, e1, s2, e2, map[]);
    var r1 := ReadHeaders(s1, e1, map[]);
    if r1.Some? {
      var (headers, end1) := r1.value;
      var end2 := ReadHeaders(s2, e2, map[]).value.1;
      ReadBodyShift(s1, end1, s2, end2, headers, scan, delivered);
    }
  }

  // ---------------------------------------------------------------------------------
  // The header block

  /** The line read from `p1` in `s1` and from `p2` in `s2` is the same when the two streams
      agree from there on, and so is what follows it. */
  lemma ReadStringShift(s1: string, p1: nat, s2: string, p2: nat)
    requires p1 <= |s1| && p2 <= |s2| && s1[p1..] == s2[p2..]
    ensures ReadString(s1, p1, '\n').None? <==> ReadString(s2, p2, '\n').None?
    ensures ReadString(s1, p1, '\n').Some? ==>
      var next1, next2 := ReadString(s1, p1, '\n').value, ReadString(s2, p2, '\n').value;
      next1 - p1 == next2 - p2 && s1[p1..next1] == s2[p2..next2] && s1[next1..] == s2[next2..]
  {
    var r1 := ReadString(s1, p1, '\n');
    if r1.Some? {
      var k := r1.value - p1;
      assert s1[p1..p1 + k] == s1[p1..][..k];
      assert s2[p2..p2 + k] == s2[p2..][..k];
      assert s1[p1 + k..] == s1[p1..][k..];
      assert s2[p2 + k..] == s2[p2..][k..];
    }
  }

  /** The header loop does not depend on where in the stream it starts, only on the bytes
      from there on: the same map, ending the same distance on, before the same bytes. */
  lemma {:induction false} ReadHeadersShift(s1: string, p1: nat, s2: string, p2: nat, headers: map<string, string>)
    requires p1 <= |s1| && p2 <= |s2| && s1[p1..] == s2[p2..]
    ensures ReadHeaders(s1, p1, headers).None? <==> ReadHeaders(s2, p2, headers).None?
    ensures ReadHeaders(s1, p1, headers).Some? ==>
      var (h1, end1), (h2, end2) := ReadHeaders(s1, p1, headers).value, ReadHeaders(s2, p2, headers).value;
      h1 == h2 && end1 - p1 == end2 - p2 && s1[end1..] == s2[end2..]
    decreases |s1| - p1
  {
    ReadStringShift(s1, p1, s2, p2);
    var r1 := ReadString(s1, p1, '\n');
    if r1.Some? {
      var next1, next2 := r1.value, ReadString(s2, p2, '\n').value;
      var line := TrimRight(s1[p1..next1], LineTerminators);
      if line != [] {
        ReadHeadersShift(s1, next1, s2, next2, ApplyHeader(headers, line));
      }
    }
  }

  /** The body step reads the same bytes wherever the body starts, when the streams agree
      from there on. */
  lemma ReadBodyShift(s1: string, p1: nat, s2: string, p2: nat, headers: map<string, string>, scan: string -> ScanResult, delivered: nat)
    requires p1 <= |s1| && p2 <= |s2| && s1[p1..] == s2[p2..]
    ensures ReadBody(s1, p1, headers, scan, delivered) == ReadBody(s2, p2, headers, scan, delivered)
  {
    assert |s1| - p1 == |s2| - p2 by {
      assert |s1[p1..]| == |s2[p2..]|;
    }
    if ContentLengthKey in headers {
      var scanned := scan(headers[ContentLengthKey]);
      var n := Min(Min(scanned.count, delivered), |s1| - p1);
      assert s1[p1..p1 + n] == s1[p1..][..n];
      assert s2[p2..p2 + n] == s2[p2..][..n];
    }
  }

  /** The header loop computes the same map as applying the lines of the header block one
      after another, and stops at the same place; it fails exactly when there is no
      complete header block. */
  lemma {:induction false} ReadHeadersIsFold(s: string, pos: nat, headers: map<string, string>)
    requires pos <= |s|
    ensures ReadHeaders(s, pos, headers) ==
      match HeaderBlock(s, pos)
      case None => None
      case Some((lines, end)) => Some((FoldHeaders(headers, lines), end))
    decreases |s| - pos
  {
    match ReadString(s, pos, '\n')
    case None =>
    case Some(next) =>
      var line := TrimRight(s[pos..next], LineTerminators);
      if line != [] {
        ReadHeadersIsFold(s, next, ApplyHeader(headers, line));
        match HeaderBlock(s, next)
        case None =>
        case Some((lines, end)) =>
          var all := [line] + lines;
          assert all[0] == line && all[1..] == lines;
      }
  }

  /** The lines of a header block are none of them empty, and the block ends just after a
      '\n'. */
  lemma {:induction false} HeaderBlockShape(s: string, pos: nat)
    requires pos <= |s| && HeaderBlock(s, pos).Some?
    ensures forall k :: 0 <= k < |HeaderBlock(s, pos).value.0| ==> HeaderBlock(s, pos).value.0[k] != []
    ensures s[HeaderBlock(s, pos).value.1 - 1] == '\n'
    decreases |s| - pos
  {
    var next := ReadString(s, pos, '\n').value;
    var line := TrimRight(s[pos..next], LineTerminators);
    if line != [] {
      HeaderBlockShape(s, next);
      var rest := HeaderBlock(s, next).value.0;
      assert HeaderBlock(s, pos).value.0 == [line] + rest;
    }
  }

  /** Past a well-formed request line, the handler gives up without writing anything
      exactly when the stream ends before the blank line that closes the header block. */
  lemma HeadersEofNothingWritten(s: string, scan: string -> ScanResult, delivered: nat, e: nat)
    requires 0 < e <= |s| && s[e - 1] == '\n' && '\n' !in s[..e - 1]
    requires |Fields(s[..e])| >= 3
    ensures ParseRequest(s, scan, delivered) == HeaderReadError <==> HeaderBlock(s, e).None?
    ensures HeaderBlock(s, e).None? ==> Transcript(s, scan, delivered) == []
    ensures HeaderBlock(s, e).Some? ==>
      ParseRequest(s, scan, delivered).Ok? &&
      ParseRequest(s, scan, delivered).request.headers == FoldHeaders(map[], HeaderBlock(s, e).value.0)
  {
    assert s[0..e - 1] == s[..e - 1];
    ReadStringAt(s, 0, e);
    ReadHeadersIsFold(s, e, map[]);
  }

  /** `line` is a header line that sets `key`. */
  ghost predicate SetsKey(line: string, key: string) {
    ParseHeaderLine(line).Some? && ParseHeaderLine(line).value.0 == key
  }

  /** Lines that do not set `key` leave its entry, or its absence, as it was. */
  lemma {:induction false} FoldKeepsOtherKeys(headers: map<string, string>, lines: seq<string>, key: string)
    requires forall j :: 0 <= j < |lines| ==> !SetsKey(lines[j], key)
    ensures key in FoldHeaders(headers, lines) <==> key in headers
    ensures key in headers ==> FoldHeaders(headers, lines)[key] == headers[key]
    decreases |lines|
  {
    if |lines| > 0 {
      assert !SetsKey(lines[0], key);
      FoldKeepsOtherKeys(ApplyHeader(headers, lines[0]), lines[1..], key);
    }
  }

  /** For a repeated key the last line that sets it wins. */
  lemma {:induction false} LastOccurrenceWins(headers: map<string, string>, lines: seq<string>, i: nat, key: string, value: string)
    requires i < |lines| && ParseHeaderLine(lines[i]) == Some((key, value))
    requires forall j :: i < j < |lines| ==> !SetsKey(lines[j], key)
    ensures key in FoldHeaders(headers, lines) && FoldHeaders(headers, lines)[key] == value
    decreases |lines|
  {
    if i == 0 {
      FirstLineWins(headers, lines, key, value);
    } else {
      var rest := lines[1..];
      assert rest[i - 1] == lines[i];
      forall j | i - 1 < j < |rest|
        ensures !SetsKey(rest[j], key)
      {
        assert rest[j] == lines[j + 1];
      }
      LastOccurrenceWins(ApplyHeader(headers, lines[0]), rest, i - 1, key, value);
    }
  }

  /** A first line that sets `key`, followed by none that does, decides its value. */
  lemma FirstLineWins(headers: map<string, string>, lines: seq<string>, key: string, value: string)
    requires 0 < |lines| && ParseHeaderLine(lines[0]) == Some((key, value))
    requires forall j :: 0 < j < |lines| ==> !SetsKey(lines[j], key)
    ensures key in FoldHeaders(headers, lines) && FoldHeaders(headers, lines)[key] == value
  {
    var rest := lines[1..];
    forall j | 0 <= j < |rest|
      ensures !SetsKey(rest[j], key)
    {
      assert rest[j] == lines[j + 1];
    }
    FoldKeepsOtherKeys(ApplyHeader(headers, lines[0]), rest, key);
  }

  /** Every key of the header map comes, exactly as spelled, from some header line. */
  lemma KeysComeFromLines(lines: seq<string>, key: string)
    requires key in FoldHeaders(map[], lines)
    ensures exists j :: 0 <= j < |lines| && SetsKey(lines[j], key)
  {
    if forall j :: 0 <= j < |lines| ==> !SetsKey(lines[j], key) {
      FoldKeepsOtherKeys(map[], lines, key);
    }
  }

  /** A header line is split at its first colon, so the value may hold more colons; key
      and value are stripped of surrounding whitespace. */
  lemma HeaderValueKeepsColons(key: string, value: string)
    requires ':' !in key && key != []
    ensures ParseHeaderLine(key + ":" + value) == Some((TrimSpace(key), TrimSpace(value)))
  {
    var line := key + ":" + value;
    assert line[..|key|] == key && line[|key| + 1..] == value && line[|key|] == ':';
    ParseHeaderLineAt(line, |key|);
  }

  /** A line without a colon, or with its colon first, is skipped and changes nothing. */
  lemma HeaderLineSkipped(headers: map<string, string>, line: string)
    requires ':' !in line || (|line| > 0 && line[0] == ':')
    ensures ApplyHeader(headers, line) == headers
  {
  }

  /** The header block ends at the first line made only of CR and LF bytes, however many:
      `\n`, `\r\n` and `\r\r\n` all end it, and the header map is then left as it was. */
  lemma BlankLineEndsBlock(s: string, pos: nat, next: nat, headers: map<string, string>)
    requires pos <= |s| && ReadString(s, pos, '\n') == Some(next)
    requires forall i :: pos <= i < next ==> s[i] in LineTerminators
    ensures HeaderBlock(s, pos) == Some(([], next))
    ensures ReadHeaders(s, pos, headers) == Some((headers, next))
  {
  }

  /** A line with any other byte in it does not end the block: it is a header line. */
  lemma HeaderLineContinuesBlock(s: string, pos: nat, next: nat, k: nat)
    requires pos <= k < next <= |s| && ReadString(s, pos, '\n') == Some(next)
    requires s[k] !in LineTerminators
    ensures TrimRight(s[pos..next], LineTerminators) != []
    ensures HeaderBlock(s, pos) == match HeaderBlock(s, next)
      case None => None
      case Some((lines, end)) => Some(([TrimRight(s[pos..next], LineTerminators)] + lines, end))
  {
    assert s[pos..next][k - pos] == s[k];
  }

  // ---------------------------------------------------------------------------------
  // The body step

  /** Without the exact key `Content-Length` there is no body read, whatever other
      spelling of that header the request carries. */
  lemma BodyOnlyForExactKey(s: string, scan: string -> ScanResult, delivered: nat)
    requires ParseRequest(s, scan, delivered).Ok?
    requires ContentLengthKey !in ParseRequest(s, scan, delivered).request.headers
    ensures ParseRequest(s, scan, delivered).request.body == []
  {
  }

  /** The body step never stops the handler nor changes method, path or headers: whatever
      the scan reports and however many bytes the read delivers, the outcome and the bytes
      written are the same apart from the body. */
  lemma BodyStepNeverAborts(s: string, scan1: string -> ScanResult, delivered1: nat, scan2: string -> ScanResult, delivered2: nat)
    ensures ParseRequest(s, scan1, delivered1).Ok? <==> ParseRequest(s, scan2, delivered2).Ok?
    ensures !ParseRequest(s, scan1, delivered1).Ok? ==> ParseRequest(s, scan1, delivered1) == ParseRequest(s, scan2, delivered2)
    ensures ParseRequest(s, scan1, delivered1).Ok? ==>
      var r1, r2 := ParseRequest(s, scan1, delivered1).request, ParseRequest(s, scan2, delivered2).request;
      r1.requestMethod == r2.requestMethod && r1.path == r2.path && r1.headers == r2.headers
    ensures Transcript(s, scan1, delivered1) == Transcript(s, scan2, delivered2)
  {
  }

  /** What Go's `fmt.Sscanf` does with `%d` and a `*[]byte` operand: it rejects the verb
      for that operand, scanning nothing and returning an error. */
  function GoSscanfIntoByteSlice(value: string): (r: ScanResult)
    ensures r.failed && r.count == 0
  {
    ScanResult(0, true)
  }

  /** So, as written, the handler never reads a body. */
  lemma NoBodyAsWritten(s: string, delivered: nat)
    requires ParseRequest(s, GoSscanfIntoByteSlice, delivered).Ok?
    ensures ParseRequest(s, GoSscanfIntoByteSlice, delivered).request.body == []
  {
  }

  /** The evidently intended scan: the `Content-Length` value read as a decimal number. */
  function ScanContentLength(value: string): (r: ScanResult)
    ensures !r.failed <==> value != [] && forall i :: 0 <= i < |value| ==> IsDigit(value[i])
    ensures !r.failed ==> r.count == DigitsValue(value)
  {
    if value != [] && forall i :: 0 <= i < |value| ==> IsDigit(value[i]) then
      ScanResult(DigitsValue(value), false)
    else ScanResult(0, true)
  }

  /** The intended scan reads back the digits `%d` prints for a length `n` as `n`. */
  lemma ScanOfDecimal(n: nat)
    ensures ScanContentLength(Decimal(n)) == ScanResult(n, false)
  {
    DecimalRoundTrip(n);
  }

  /** With the intended scan, a declared length `Decimal(n)` whose bytes are all present and
      delivered yields exactly those `n` bytes as the body. */
  lemma IntendedBodyIsDeclaredLength(s: string, pos: nat, headers: map<string, string>, n: nat, delivered: nat)
    requires pos + n <= |s| && n <= delivered
    requires ContentLengthKey in headers && headers[ContentLengthKey] == Decimal(n)
    ensures ReadBody(s, pos, headers, ScanContentLength, delivered) == s[pos..pos + n]
  {
    ScanOfDecimal(n);
    assert Zeros(0) == [];
    assert s[pos..pos + n] + [] == s[pos..pos + n];
  }

  // ---------------------------------------------------------------------------------
  // The response

  /** The response, byte for byte: the status line, the two headers and a blank line, each
      ended by CRLF, then the payload, whose length of 70 is the `Content-Length`. */
  lemma ResponseWireFormat()
    ensures |JsonResponse| == 70
    ensures Response() ==
      "HTTP/1.1 200 OK\r\n" +
      "Content-Type: application/json\r\n" +
      "Content-Length: 70\r\n" +
      "\r\n" +
      JsonResponse
  {
    assert Decimal(70) == "70";
    assert "Content-Length: " + "70" + "\r\n" == "Content-Length: 70\r\n";
  }

  /** The main theorem: any two streams whose header blocks are complete get the same
      bytes, the fixed response, whatever their methods, paths, headers and bodies; any
      other stream gets nothing. */
  lemma ResponseIndependentOfRequest(
    s1: string, scan1: string -> ScanResult, delivered1: nat,
    s2: string, scan2: string -> ScanResult, delivered2: nat)
    ensures ParseRequest(s1, scan1, delivered1).Ok? ==> Transcript(s1, scan1, delivered1) == Response()
    ensures !ParseRequest(s1, scan1, delivered1).Ok? ==> Transcript(s1, scan1, delivered1) == []
    ensures ParseRequest(s1, scan1, delivered1).Ok? && ParseRequest(s2, scan2, delivered2).Ok? ==>
      Transcript(s1, scan1, delivered1) == Transcript(s2, scan2, delivered2)
  {
  }

  // ---------------------------------------------------------------------------------
  // Well-formed requests

  lemma {:induction false} UnwordsNoNewline(ws: seq<string>)
    requires forall k :: 0 <= k < |ws| ==> IsWord(ws[k])
    ensures '\n' !in Unwords(ws)
    decreases |ws|
  {
    if |ws| > 1 {
      UnwordsNoNewline(ws[1..]);
      assert IsWord(ws[0]);
      assert '\n' !in ws[0];
    } else if |ws| == 1 {
      assert IsWord(ws[0]);
    }
  }

  /** `h` then CRLF stand at `pos` in `s`. */
  ghost predicate CrlfAt(s: string, pos: nat, h: string) {
    pos + |h| + 2 <= |s| && (forall i :: 0 <= i < |h| ==> s[pos + i] == h[i]) &&
    s[pos + |h|] == '\r' && s[pos + |h| + 1] == '\n'
  }

  /** A request line of words with its CRLF at the start of the stream is read whole and
      split back into those words. */
  lemma RequestLineAt(s: string, words: seq<string>)
    requires forall k :: 0 <= k < |words| ==> IsWord(words[k])
    requires CrlfAt(s, 0, Unwords(words))
    ensures ReadString(s, 0, '\n') == Some(|Unwords(words)| + 2)
    ensures Fields(s[..|Unwords(words)| + 2]) == words
  {
    var u := Unwords(words);
    var e := |u| + 2;
    UnwordsNoNewline(words);
    assert s[..e] == u + "\r\n";
    assert s[0..e - 1] == u + "\r";
    assert '\n' !in u + "\r";
    ReadStringAt(s, 0, e);
    FieldsOfUnwords(words, "\r\n");
  }

  /** The outcome once the request line is known to end at `e` with fields `words`, and
      the header block from there to hold `lines` and end at `bodyStart`. */
  lemma ParseRequestOfParts(s: string, scan: string -> ScanResult, delivered: nat, e: nat, words: seq<string>, lines: seq<string>, bodyStart: nat)
    requires e <= |s| && ReadString(s, 0, '\n') == Some(e) && Fields(s[..e]) == words && |words| >= 3
    requires HeaderBlock(s, e) == Some((lines, bodyStart))
    ensures bodyStart <= |s|
    ensures ParseRequest(s, scan, delivered) ==
      Ok(Request(words[0], words[1], FoldHeaders(map[], lines), ReadBody(s, bodyStart, FoldHeaders(map[], lines), scan, delivered)))
  {
    ReadHeadersIsFold(s, e, map[]);
  }

  /** Every stream that starts with a request line of at least three words (method, path,
      and whatever else) and CRLF, and has a complete header block after it, is answered
      with the fixed response: the method and path are its first two words, the headers are
      the block's lines applied in order, and the body is read from just after the block. */
  lemma RequestLineThenHeaders(s: string, words: seq<string>, lines: seq<string>, bodyStart: nat, scan: string -> ScanResult, delivered: nat)
    requires |words| >= 3 && forall k :: 0 <= k < |words| ==> IsWord(words[k])
    requires CrlfAt(s, 0, Unwords(words))
    requires HeaderBlock(s, |Unwords(words)| + 2) == Some((lines, bodyStart))
    ensures bodyStart <= |s|
    ensures ParseRequest(s, scan, delivered) ==
      Ok(Request(words[0], words[1], FoldHeaders(map[], lines), ReadBody(s, bodyStart, FoldHeaders(map[], lines), scan, delivered)))
    ensures Transcript(s, scan, delivered) == Response()
  {
    RequestLineAt(s, words);
    ParseRequestOfParts(s, scan, delivered, |Unwords(words)| + 2, words, lines, bodyStart);
  }

  // ---------------------------------------------------------------------------------
  // Scenarios

  /** A request line with a single field is dropped without a word. */
  lemma ScenarioBadLine(scan: string -> ScanResult, delivered: nat)
    ensures ParseRequest("BADLINE\r\n\r\n", scan, delivered) == MalformedRequestLine
    ensures Transcript("BADLINE\r\n\r\n", scan, delivered) == []
  {
    var s := "BADLINE\r\n\r\n";
    assert s[..8] == "BADLINE\r";
    FieldsOfUnwords(["BADLINE"], "\r\n");
    assert s[..9] == Unwords(["BADLINE"]) + "\r\n";
    RequestLineFields(s, scan, delivered, 9);
  }

  /** Runs of several spaces between the fields of a request line count as one separator. */
  lemma ScenarioSpacedFields()
    ensures Fields("GET  /  HTTP/1.1\r\n") == ["GET", "/", "HTTP/1.1"]
  {
    var words, seps := ["GET", "/", "HTTP/1.1"], ["  ", "  ", "\r\n"];
    assert Joined(words, seps) == "GET  /  HTTP/1.1\r\n" by {
      assert words[3..] == [] && seps[3..] == [];
      assert Joined(words[2..], seps[2..]) == "HTTP/1.1\r\n";
      assert Joined(words[1..], seps[1..]) == "/  HTTP/1.1\r\n";
    }
    assert IsWord(words[0]) && IsWord(words[1]) && IsWord(words[2]);
    assert Separators(words, seps);
    FieldsOfSeparated("", words, seps);
    assert "" + Joined(words, seps) == Joined(words, seps);
  }
}
