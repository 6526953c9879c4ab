/** The response side of the wire protocol: the constants the server builds
    its responses from (app/server.go:15-22), the two response shapes it
    writes, and the reading of a response that a client performs. */
module Wire {
  import opened GoStrings
  import opened Fmt

  const Protocol := "HTTP/1.1 "
  const StatusOk := "200 OK"
  const StatusBadRequest := "400 Bad Request"
  const StatusNotFound := "404 Not Found"
  const ContentType := "Content-Type: text/plain"
  const ContentLength := "Content-Length: "
  /** The content type the file handler writes inline. */
  const OctetStreamType := "Content-Type: application/octet-stream"
  const CRLF := "\r\n"

  /** A response as a client sees it: status text (code and reason), the
      header lines, and the body. */
  datatype Response = Response(status: string, headers: seq<string>, body: string)

  /** Each header line followed by its line break. */
  function HeaderBlock(headers: seq<string>): string {
    if |headers| == 0 then "" else headers[0] + CRLF + HeaderBlock(headers[1..])
  }

  /** HTTP/1.1 framing: status line, header lines, an empty line, the body. */
  function Serialize(r: Response): string {
    Protocol + r.status + CRLF + HeaderBlock(r.headers) + CRLF + r.body
  }

  /** A response whose lines cannot be confused with the framing. */
  predicate WellFormed(r: Response) {
    && '\r' !in r.status
    && forall k :: 0 <= k < |r.headers| ==> r.headers[k] != "" && '\r' !in r.headers[k]
  }

  /** The index of the first empty line. */
  function FirstEmpty(lines: seq<string>): (r: Option<nat>)
    ensures r.Some? ==> r.value < |lines| && lines[r.value] == ""
    ensures r.Some? ==> forall j :: 0 <= j < r.value ==> lines[j] != ""
    ensures r.None? ==> forall j :: 0 <= j < |lines| ==> lines[j] != ""
  {
    if |lines| == 0 then None
    else if lines[0] == "" then Some(0)
    else match FirstEmpty(lines[1..])
      case None => None
      case Some(e) => Some(e + 1)
  }

  lemma {:induction false} JoinAroundBlankLine(headers: seq<string>, rest: seq<string>)
    requires |rest| >= 1
    ensures Join(headers + [""] + rest, CRLF) == HeaderBlock(headers) + CRLF + Join(rest, CRLF)
    decreases |headers|
  {
    if |headers| == 0 {
      assert headers + [""] + rest == [""] + rest;
      JoinCons("", rest, CRLF);
    } else {
      JoinAroundBlankLine(headers[1..], rest);
      assert headers + [""] + rest == [headers[0]] + (headers[1..] + [""] + rest);
      JoinCons(headers[0], headers[1..] + [""] + rest, CRLF);
    }
  }

  /** How a client reads a response: the status line must start with the
      protocol, the header lines run up to the first empty line, and the body
      is everything after that empty line's line break. Whatever it accepts
      is the serialisation of what it returns. */
  function Parse(wire: string): (r: Option<Response>)
    ensures r.Some? ==> Serialize(r.value) == wire
  {
    var lines := Split(wire, CRLF);
    if !HasPrefix(lines[0], Protocol) then None
    else match FirstEmpty(lines[1..])
      case None => None
      case Some(e) =>
        if e + 3 > |lines| then None
        else
          ParseFraming(wire, lines, e);
          Some(Response(lines[0][|Protocol|..], lines[1..e + 1], Join(lines[e + 2..], CRLF)))
  }

  /** Lines that join back to `wire`, with the protocol at the head of the
      first and an empty line at `e + 1`, frame exactly `wire`. */
  lemma ParseFraming(wire: string, lines: seq<string>, e: nat)
    requires |lines| >= e + 3 && lines == Split(wire, CRLF)
    requires HasPrefix(lines[0], Protocol) && lines[e + 1] == ""
    ensures Serialize(Response(lines[0][|Protocol|..], lines[1..e + 1], Join(lines[e + 2..], CRLF))) == wire
  {
    JoinOfSplit(wire, CRLF);
    LinesFraming(lines, e);
  }

  lemma {:induction false} LinesFraming(lines: seq<string>, e: nat)
    requires |lines| >= e + 3
    requires HasPrefix(lines[0], Protocol) && lines[e + 1] == ""
    ensures Serialize(Response(lines[0][|Protocol|..], lines[1..e + 1], Join(lines[e + 2..], CRLF))) == Join(lines, CRLF)
  {
    var status := lines[0][|Protocol|..];
    var headers := lines[1..e + 1];
    var rest := lines[e + 2..];
    var block := HeaderBlock(headers);
    var body := Join(rest, CRLF);
    assert lines == [lines[0]] + (headers + [""] + rest);
    JoinCons(lines[0], headers + [""] + rest, CRLF);
    JoinAroundBlankLine(headers, rest);
    assert lines[0] == Protocol + status;
    calc {
      Join(lines, CRLF);
      lines[0] + CRLF + Join(headers + [""] + rest, CRLF);
      (Protocol + status) + CRLF + (block + CRLF + body);
      Protocol + status + CRLF + block + CRLF + body;
    }
  }

  /** The lines of a serialised response. */
  function ResponseLines(r: Response): seq<string> {
    [Protocol + r.status] + r.headers + [""] + Split(r.body, CRLF)
  }

  lemma {:induction false} SerializeIsJoin(r: Response)
    ensures Join(ResponseLines(r), CRLF) == Serialize(r)
  {
    var rest := Split(r.body, CRLF);
    var statusLine := Protocol + r.status;
    var lines := r.headers + [""] + rest;
    JoinOfSplit(r.body, CRLF);
    JoinAroundBlankLine(r.headers, rest);
    JoinCons(statusLine, lines, CRLF);
    assert ResponseLines(r) == [statusLine] + lines;
    FramingAssociates(r.status, HeaderBlock(r.headers), r.body);
  }

  lemma FramingAssociates(status: string, block: string, body: string)
    ensures (Protocol + status) + CRLF + (block + CRLF + body) == Protocol + status + CRLF + block + CRLF + body
  {
  }

  lemma ResponseLinesAreLines(r: Response)
    requires WellFormed(r)
    ensures forall k :: 0 <= k < |ResponseLines(r)| ==> !Contains(ResponseLines(r)[k], CRLF)
  {
    var lines := ResponseLines(r);
    var rest := Split(r.body, CRLF);
    SplitJoin(r.body, CRLF);
    forall k | 0 <= k < |lines|
      ensures !Contains(lines[k], CRLF)
    {
      if k == 0 {
        NoCarriageReturnNoCRLF(Protocol + r.status);
      } else if k <= |r.headers| {
        assert lines[k] == r.headers[k - 1];
        NoCarriageReturnNoCRLF(r.headers[k - 1]);
      } else if k == |r.headers| + 1 {
        assert lines[k] == "";
        NoCarriageReturnNoCRLF("");
      } else {
        assert lines[k] == rest[k - |r.headers| - 2];
      }
    }
  }

  lemma FirstEmptyAfterHeaders(headers: seq<string>, rest: seq<string>)
    requires forall k :: 0 <= k < |headers| ==> headers[k] != ""
    ensures FirstEmpty(headers + [""] + rest) == Some(|headers|)
  {
    var lines := headers + [""] + rest;
    assert lines[|headers|] == "";
    assert forall k :: 0 <= k < |headers| ==> lines[k] == headers[k];
  }

  /** What the client's reading yields from the lines of a response. */
  lemma {:induction false} ParseOfLines(wire: string, status: string, headers: seq<string>, rest: seq<string>)
    requires forall k :: 0 <= k < |headers| ==> headers[k] != ""
    requires |rest| >= 1
    requires Split(wire, CRLF) == [Protocol + status] + headers + [""] + rest
    ensures Parse(wire) == Some(Response(status, headers, Join(rest, CRLF)))
  {
    var lines := Split(wire, CRLF);
    assert lines[0] == Protocol + status;
    assert HasPrefix(lines[0], Protocol);
    assert lines[0][|Protocol|..] == status;
    assert lines[1..] == headers + [""] + rest;
    FirstEmptyAfterHeaders(headers, rest);
    assert lines[1..|headers| + 1] == headers;
    assert lines[|headers| + 2..] == rest;
  }

  /** Serialisation is undone by the client's reading. */
  lemma ParseSerialize(r: Response)
    requires WellFormed(r)
    ensures Parse(Serialize(r)) == Some(r)
  {
    SerializeIsJoin(r);
    ResponseLinesAreLines(r);
    CRLFIsBorderFree();
    SplitOfJoin(ResponseLines(r), CRLF);
    SplitJoin(r.body, CRLF);
    ParseOfLines(Serialize(r), r.status, r.headers, Split(r.body, CRLF));
  }

  /** The value of the first header line that is "Content-Length: " followed
      by decimal digits, as a client reads it. */
  function ContentLengthOf(headers: seq<string>): (r: Option<nat>)
    ensures r.Some? ==> exists k :: 0 <= k < |headers| && HasPrefix(headers[k], ContentLength)
  {
    if |headers| == 0 then None
    else
      var value := TrimPrefix(headers[0], ContentLength);
      if HasPrefix(headers[0], ContentLength) && |value| > 0
         && forall k :: 0 <= k < |value| ==> IsDigit(value[k])
      then Some(ParseDecimal(value))
      else
        var r := ContentLengthOf(headers[1..]);
        assert r.Some? ==> exists k :: 1 <= k < |headers| && HasPrefix(headers[k], ContentLength);
        r
  }

  /** The announced Content-Length is the body's true length. */
  predicate LengthConsistent(r: Response) {
    ContentLengthOf(r.headers) == Some(|r.body|)
  }

  /** The status-only response: status line and empty line, no headers, no
      body (the writes at app/server.go:126, 138, 146, 154, 186, 194, 202). */
  function StatusResponse(status: string): string {
    Protocol + status + CRLF + CRLF
  }

  /** A client reads a status-only response as that status with no headers
      and an empty body. */
  lemma StatusResponseReadsBack(status: string)
    requires '\r' !in status
    ensures Parse(StatusResponse(status)) == Some(Response(status, [], ""))
  {
    assert StatusResponse(status) == Serialize(Response(status, [], ""));
    ParseSerialize(Response(status, [], ""));
  }

  /** `wire` opens with the status line of `status`. */
  predicate HasStatus(wire: string, status: string) {
    HasPrefix(wire, Protocol + status + CRLF)
  }

  lemma StatusResponseHasStatus(status: string)
    ensures HasStatus(StatusResponse(status), status)
  {
    assert StatusResponse(status) == (Protocol + status + CRLF) + CRLF;
  }

  /** The status lines of 200, 400 and 404 exclude one another. */
  lemma StatusesExclusive(wire: string)
    ensures !(HasStatus(wire, StatusOk) && HasStatus(wire, StatusBadRequest))
    ensures !(HasStatus(wire, StatusOk) && HasStatus(wire, StatusNotFound))
    ensures !(HasStatus(wire, StatusBadRequest) && HasStatus(wire, StatusNotFound))
  {
    if HasStatus(wire, StatusOk) {
      assert wire[9] == (Protocol + StatusOk + CRLF)[9] == '2';
    }
    if HasStatus(wire, StatusBadRequest) {
      assert wire[11] == (Protocol + StatusBadRequest + CRLF)[11] == '0';
    }
    if HasStatus(wire, StatusNotFound) {
      assert wire[9] == (Protocol + StatusNotFound + CRLF)[9] == '4';
      assert wire[11] == (Protocol + StatusNotFound + CRLF)[11] == '4';
    }
  }

  /** The 200 response with a body, as formatted at app/server.go:161, 176
      and 206: a content-type line, "Content-Length: " with `length`
      rendered by %d, an empty line, then the body verbatim. */
  function BodyResponse(contentType: string, length: nat, body: string): string {
    Protocol + StatusOk + CRLF + contentType + CRLF + ContentLength + FormatDecimal(length) + CRLF + CRLF + body
  }

  lemma BodyResponseHasStatus(contentType: string, length: nat, body: string)
    ensures HasStatus(BodyResponse(contentType, length, body), StatusOk)
    ensures HasSuffix(BodyResponse(contentType, length, body), body)
  {
    var head := Protocol + StatusOk + CRLF;
    var r := BodyResponse(contentType, length, body);
    assert r == head + (contentType + CRLF + ContentLength + FormatDecimal(length) + CRLF + CRLF) + body;
  }

  /** The two header lines of a body response. */
  function BodyHeaders(contentType: string, length: nat): seq<string> {
    [contentType, ContentLength + FormatDecimal(length)]
  }

  lemma BodyResponseFraming(contentType: string, length: nat, body: string)
    ensures BodyResponse(contentType, length, body) == Serialize(Response(StatusOk, BodyHeaders(contentType, length), body))
  {
    var headers := BodyHeaders(contentType, length);
    assert headers[1..][1..] == [];
    assert HeaderBlock(headers[1..]) == headers[1] + CRLF;
    assert HeaderBlock(headers) == contentType + CRLF + (ContentLength + FormatDecimal(length)) + CRLF;
  }

  lemma BodyHeadersWellFormed(contentType: string, length: nat, body: string)
    requires contentType != "" && '\r' !in contentType
    ensures WellFormed(Response(StatusOk, BodyHeaders(contentType, length), body))
  {
    var digits := FormatDecimal(length);
    assert '\r' !in digits by {
      forall k | 0 <= k < |digits| ensures digits[k] != '\r' {
        assert IsDigit(digits[k]);
      }
    }
    assert ContentLength + digits != "";
    assert '\r' !in ContentLength + digits;
  }

  lemma BodyResponseIsSerialized(contentType: string, length: nat, body: string)
    requires contentType != "" && '\r' !in contentType
    ensures Parse(BodyResponse(contentType, length, body)) == Some(Response(StatusOk, BodyHeaders(contentType, length), body))
  {
    BodyResponseFraming(contentType, length, body);
    BodyHeadersWellFormed(contentType, length, body);
    ParseSerialize(Response(StatusOk, BodyHeaders(contentType, length), body));
  }

  lemma ContentTypesHaveNoCR()
    ensures '\r' !in ContentType && '\r' !in OctetStreamType
  {
  }

  /** Neither content-type line can be taken for a Content-Length line. */
  lemma ContentTypesAreNotLengths()
    ensures !HasPrefix(ContentType, ContentLength)
    ensures !HasPrefix(OctetStreamType, ContentLength)
  {
    assert ContentType[8] != ContentLength[8];
    assert OctetStreamType[8] != ContentLength[8];
  }

  /** A client reads a body response as a 200 with the content-type line
      and a Content-Length of `length`, which matches the body exactly when
      `length` is the body's own length. */
  lemma BodyResponseReadsBack(contentType: string, length: nat, body: string)
    requires contentType == ContentType || contentType == OctetStreamType
    ensures Parse(BodyResponse(contentType, length, body))
            == Some(Response(StatusOk, [contentType, ContentLength + FormatDecimal(length)], body))
    ensures ContentLengthOf(Parse(BodyResponse(contentType, length, body)).value.headers) == Some(length)
    ensures LengthConsistent(Parse(BodyResponse(contentType, length, body)).value) <==> length == |body|
  {
    ContentTypesAreNotLengths();
    ContentTypesHaveNoCR();
    BodyResponseIsSerialized(contentType, length, body);
    var digits := FormatDecimal(length);
    var headers := [contentType, ContentLength + digits];
    assert HasPrefix(ContentLength + digits, ContentLength);
    assert TrimPrefix(ContentLength + digits, ContentLength) == digits;
    assert headers[1..] == [ContentLength + digits];
    assert ContentLengthOf(headers[1..]) == Some(ParseDecimal(digits));
  }
}
