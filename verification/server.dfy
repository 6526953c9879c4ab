/** The request-to-response pipeline of app/server.go with the sockets taken
    away: the bytes of one read go in, the bytes of the one write come out.
    The configuration is the parsed flags plus the filesystem, modelled as a
    map from path to file contents (a path that is absent cannot be opened or
    read). */
module Server {
  import opened GoStrings
  import opened Fmt
  import opened Wire

  /** The two places where the code indexes past the end of a Split result;
      Go panics there, and a panic in a connection goroutine that nothing
      recovers ends the whole process. */
  datatype PanicSite =
    | PathTokenMissing        // token [1] of the request line (app/server.go:143)
    | UserAgentValueMissing   // field [1] of a "User-Agent" line (app/server.go:171)

  /** Either the value a computation returns or the panic that stops it. */
  datatype Run<T> = Returns(value: T) | Panics(site: PanicSite)

  /** What handling one request does: write this response, or panic. */
  type Outcome = Run<string>

  datatype ServerConfig = ServerConfig(flags: map<string, string>, files: map<string, string>)

  /** Indexing a Go map: a missing key reads as the zero value "". */
  function Flag(flags: map<string, string>, name: string): (v: string)
    ensures name in flags ==> v == flags[name]
    ensures name !in flags ==> v == ""
  {
    if name in flags then flags[name] else ""
  }

  const OkResponse := StatusResponse(StatusOk)
  const BadRequestResponse := StatusResponse(StatusBadRequest)
  const NotFoundResponse := StatusResponse(StatusNotFound)

  /** The three status-only responses, byte for byte. */
  lemma OkResponseText()
    ensures OkResponse == "HTTP/1.1 200 OK\r\n\r\n"
  {
  }

  lemma BadRequestResponseText()
    ensures BadRequestResponse == "HTTP/1.1 400 Bad Request\r\n\r\n"
  {
  }

  lemma NotFoundResponseText()
    ensures NotFoundResponse == "HTTP/1.1 404 Not Found\r\n\r\n"
  {
  }

  const EchoPrefix := "/echo/"
  const FilesPrefix := "/files/"
  const UserAgentPath := "/user-agent"
  const UserAgentName := "User-Agent"

  /** handleHttpRequest: split the request into lines, take the method as the
      first space-separated token of line 0; a method shorter than two
      characters is a bad request. Only a GET can panic, every answer is a
      200, 400 or 404, and it is a 400 exactly when the method is short. */
  function HandleHttpRequest(data: string, config: ServerConfig): (o: Outcome)
    ensures var verb := Split(Split(data, CRLF)[0], " ")[0];
            && (o.Panics? ==> verb == "GET")
            && (o.Returns? ==> HasStatus(o.value, StatusOk) || HasStatus(o.value, StatusBadRequest)
                               || HasStatus(o.value, StatusNotFound))
            && (o.Returns? && HasStatus(o.value, StatusBadRequest) <==> |verb| < 2)
  {
    var lines := Split(data, CRLF);
    var verb := Split(lines[0], " ")[0];
    if |verb| < 2 then
      StatusResponseHasStatus(StatusBadRequest);
      Returns(BadRequestResponse)
    else
      match HandleMethod(verb, lines, config)
      case Panics(site) => Panics(site)
      case Returns(response) =>
        StatusesExclusive(response);
        Returns(response)
  }

  /** handleMethod: only GET is routed; every other method is answered 404.
      Only a GET can panic, and no answer is a 400. */
  function HandleMethod(verb: string, lines: seq<string>, config: ServerConfig): (o: Outcome)
    requires |lines| >= 1
    ensures o.Panics? ==> verb == "GET"
    ensures o.Returns? ==> HasStatus(o.value, StatusOk) || HasStatus(o.value, StatusNotFound)
    ensures verb != "GET" ==> o == Returns(NotFoundResponse)
  {
    if verb == "GET" then HandleGetRequest(lines, config)
    else
      StatusResponseHasStatus(StatusNotFound);
      Returns(NotFoundResponse)
  }

  /** A path one of the four routes of handleGetRequest accepts. */
  predicate Routed(path: string) {
    path == "/" || HasPrefix(path, EchoPrefix) || path == UserAgentPath || HasPrefix(path, FilesPrefix)
  }

  /** handleGetRequest: the path is token [1] of the request line; the first
      matching route wins. It panics at the path lookup exactly when the
      request line has no second token, reaches the header panic only on
      the user-agent route, answers 200 or 404, and 200 only on a route. */
  function HandleGetRequest(headerLines: seq<string>, config: ServerConfig): (o: Outcome)
    requires |headerLines| >= 1
    ensures o.Panics? ==> (o.site == PathTokenMissing <==> |Split(headerLines[0], " ")| < 2)
    ensures o.Returns? ==> |Split(headerLines[0], " ")| >= 2
    ensures o.Panics? && o.site == UserAgentValueMissing ==> Split(headerLines[0], " ")[1] == UserAgentPath
    ensures o.Returns? ==> HasStatus(o.value, StatusOk) || HasStatus(o.value, StatusNotFound)
    ensures o.Returns? && HasStatus(o.value, StatusOk) ==> Routed(Split(headerLines[0], " ")[1])
  {
    var tokens := Split(headerLines[0], " ");
    if |tokens| < 2 then Panics(PathTokenMissing)
    else
      var path := tokens[1];
      StatusResponseHasStatus(StatusOk);
      StatusResponseHasStatus(StatusNotFound);
      StatusesExclusive(NotFoundResponse);
      if path == "/" then Returns(OkResponse)
      else if HasPrefix(path, EchoPrefix) then Returns(WriteEcho(path))
      else if path == UserAgentPath then WriteUserAgent(headerLines)
      else if HasPrefix(path, FilesPrefix) then GetFile(headerLines, config)
      else Returns(NotFoundResponse)
  }

  /** writeEcho: the path after "/echo/" becomes the text/plain body. The
      answer is a 200 that ends with that text. */
  function WriteEcho(path: string): (r: string)
    ensures HasStatus(r, StatusOk)
    ensures HasPrefix(path, EchoPrefix) ==> HasSuffix(r, path[|EchoPrefix|..])
    ensures !HasPrefix(path, EchoPrefix) ==> HasSuffix(r, path)
  {
    var content := TrimPrefix(path, EchoPrefix);
    BodyResponseHasStatus(ContentType, |content|, content);
    BodyResponse(ContentType, |content|, content)
  }

  /** A client reading an echo response finds a 200 whose body, put back
      after "/echo/", is the path, and whose Content-Length is right. */
  lemma EchoReadsBack(path: string)
    requires HasPrefix(path, EchoPrefix)
    ensures Parse(WriteEcho(path)).Some?
    ensures Parse(WriteEcho(path)).value.status == StatusOk
    ensures EchoPrefix + Parse(WriteEcho(path)).value.body == path
    ensures LengthConsistent(Parse(WriteEcho(path)).value)
  {
    var content := TrimPrefix(path, EchoPrefix);
    BodyResponseReadsBack(ContentType, |content|, content);
  }

  /** The `for ... range headerLines` loop of writeUserAgent: the first line
      whose text before its first ':' is exactly "User-Agent" supplies the
      value, its second ':'-field with surrounding whitespace trimmed; no
      such line leaves the value "". */
  function ScanUserAgent(headerLines: seq<string>): (r: Run<string>)
    ensures r.Panics? ==> r.site == UserAgentValueMissing
    ensures r.Returns? && r.value != "" ==> !IsSpace(r.value[0]) && !IsSpace(r.value[|r.value| - 1])
  {
    if |headerLines| == 0 then Returns("")
    else
      var header := Split(headerLines[0], ":");
      if header[0] == UserAgentName then
        if |header| < 2 then Panics(UserAgentValueMissing)
        else Returns(TrimSpace(header[1]))
      else ScanUserAgent(headerLines[1..])
  }

  /** The first line naming User-Agent is exactly "User-Agent", with no ':'
      and so no field [1]. */
  predicate FirstUserAgentIsBare(headerLines: seq<string>) {
    exists k :: 0 <= k < |headerLines| && headerLines[k] == UserAgentName
                && forall j :: 0 <= j < k ==> !NamesUserAgent(headerLines[j])
  }

  /** A User-Agent line has a second ':'-field unless it is the bare name. */
  lemma UserAgentLineFields(line: string)
    requires NamesUserAgent(line)
    ensures |Split(line, ":")| >= 2 <==> line != UserAgentName
  {
    ContainsChar(UserAgentName, ':');
    if line == UserAgentName {
      IndexOfNone(line, ":");
    } else {
      assert line == UserAgentName + ":" + line[|UserAgentName| + 1..];
      SplitAfterPiece(UserAgentName, line[|UserAgentName| + 1..], ":");
    }
  }

  /** Skipping a line that does not name User-Agent changes nothing. */
  lemma FirstUserAgentIsBareTail(headerLines: seq<string>)
    requires |headerLines| > 0 && !NamesUserAgent(headerLines[0])
    ensures FirstUserAgentIsBare(headerLines) <==> FirstUserAgentIsBare(headerLines[1..])
  {
    var tail := headerLines[1..];
    if FirstUserAgentIsBare(headerLines) {
      var k :| 0 <= k < |headerLines| && headerLines[k] == UserAgentName
               && forall j :: 0 <= j < k ==> !NamesUserAgent(headerLines[j]);
      assert k != 0;
      assert tail[k - 1] == UserAgentName;
      assert forall j :: 0 <= j < k - 1 ==> tail[j] == headerLines[j + 1];
    }
    if FirstUserAgentIsBare(tail) {
      var k :| 0 <= k < |tail| && tail[k] == UserAgentName
               && forall j :: 0 <= j < k ==> !NamesUserAgent(tail[j]);
      assert headerLines[k + 1] == UserAgentName;
      assert forall j :: 1 <= j < k + 1 ==> headerLines[j] == tail[j - 1];
    }
  }

  /** When the first line names User-Agent, it alone decides. */
  lemma FirstUserAgentIsBareHead(headerLines: seq<string>)
    requires |headerLines| > 0 && NamesUserAgent(headerLines[0])
    ensures FirstUserAgentIsBare(headerLines) <==> headerLines[0] == UserAgentName
  {
    forall k | 0 <= k < |headerLines| && headerLines[k] == UserAgentName && headerLines[0] != UserAgentName
      ensures !(forall j :: 0 <= j < k ==> !NamesUserAgent(headerLines[j]))
    {
      assert k != 0;
    }
  }

  /** The scan panics exactly when the first line naming User-Agent is the
      bare name (app/server.go:171). */
  lemma {:induction false} ScanUserAgentPanics(headerLines: seq<string>)
    ensures ScanUserAgent(headerLines).Panics? <==> FirstUserAgentIsBare(headerLines)
    decreases |headerLines|
  {
    if |headerLines| > 0 {
      var line := headerLines[0];
      NamesUserAgentIsFirstField(line);
      if NamesUserAgent(line) {
        UserAgentLineFields(line);
        FirstUserAgentIsBareHead(headerLines);
      } else {
        ScanUserAgentPanics(headerLines[1..]);
        FirstUserAgentIsBareTail(headerLines);
      }
    }
  }

  /** A line is a User-Agent header line, in the code's case-sensitive sense:
      it is "User-Agent", or "User-Agent" followed by ':' and anything. */
  predicate NamesUserAgent(line: string) {
    HasPrefix(line, UserAgentName) && (|line| == |UserAgentName| || line[|UserAgentName|] == ':')
  }

  lemma FirstFieldNamesUserAgent(line: string)
    requires Split(line, ":")[0] == UserAgentName
    ensures NamesUserAgent(line)
  {
    var fields := Split(line, ":");
    SplitJoin(line, ":");
    if |fields| > 1 {
      JoinCons(fields[0], fields[1..], ":");
      assert fields == [fields[0]] + fields[1..];
      assert line == UserAgentName + ":" + Join(fields[1..], ":");
    } else {
      assert line == UserAgentName;
    }
  }

  lemma NamesUserAgentFirstField(line: string)
    requires NamesUserAgent(line)
    ensures Split(line, ":")[0] == UserAgentName
  {
    ContainsChar(UserAgentName, ':');
    if |line| == |UserAgentName| {
      assert line == UserAgentName;
      IndexOfNone(line, ":");
    } else {
      assert line == UserAgentName + ":" + line[|UserAgentName| + 1..];
      SplitAfterPiece(UserAgentName, line[|UserAgentName| + 1..], ":");
    }
  }

  /** The code's test, `strings.Split(line, ":")[0] == "User-Agent"`, is
      exactly NamesUserAgent. */
  lemma NamesUserAgentIsFirstField(line: string)
    ensures Split(line, ":")[0] == UserAgentName <==> NamesUserAgent(line)
  {
    if Split(line, ":")[0] == UserAgentName {
      FirstFieldNamesUserAgent(line);
    }
    if NamesUserAgent(line) {
      NamesUserAgentFirstField(line);
    }
  }

  /** writeUserAgent: a 200 echoing the scanned value, or the panic of a bare
      "User-Agent" line. */
  function WriteUserAgent(headerLines: seq<string>): (o: Outcome)
    ensures o.Panics? <==> ScanUserAgent(headerLines).Panics?
    ensures o.Returns? ==> HasStatus(o.value, StatusOk) && HasSuffix(o.value, ScanUserAgent(headerLines).value)
  {
    match ScanUserAgent(headerLines)
    case Panics(site) => Panics(site)
    case Returns(value) =>
      BodyResponseHasStatus(ContentType, |value|, value);
      Returns(BodyResponse(ContentType, |value|, value))
  }

  /** Whatever writeUserAgent writes, a client reads it as a 200 whose
      Content-Length matches its body. */
  lemma UserAgentLengthConsistent(headerLines: seq<string>)
    requires WriteUserAgent(headerLines).Returns?
    ensures Parse(WriteUserAgent(headerLines).value).Some?
    ensures Parse(WriteUserAgent(headerLines).value).value.status == StatusOk
    ensures LengthConsistent(Parse(WriteUserAgent(headerLines).value).value)
  {
    var value := ScanUserAgent(headerLines).value;
    BodyResponseReadsBack(ContentType, |value|, value);
  }

  /** The Content-Length getFile writes as the code stands: the literal 17,
      whatever the file holds (app/server.go:206). */
  const HardcodedFileLength := 17

  /** The 200 response app/server.go:206 writes for file contents `data`. */
  function FileResponseAsWritten(data: string): string {
    BodyResponse(OctetStreamType, HardcodedFileLength, data)
  }

  /** As written, a client reads the file contents back as the body, but the
      announced length is right only for a file of exactly 17 bytes. */
  lemma FileResponseAsWrittenReadsBack(data: string)
    ensures Parse(FileResponseAsWritten(data)) == Some(Response(StatusOk, [OctetStreamType, ContentLength + "17"], data))
    ensures LengthConsistent(Parse(FileResponseAsWritten(data)).value) <==> |data| == 17
  {
    BodyResponseReadsBack(OctetStreamType, HardcodedFileLength, data);
    FormatDecimalExamples();
  }

  /** An empty file is announced as 17 bytes long. */
  lemma EmptyFileAsWrittenMisframed()
    ensures Parse(FileResponseAsWritten("")).Some?
    ensures ContentLengthOf(Parse(FileResponseAsWritten("")).value.headers) == Some(17)
    ensures !LengthConsistent(Parse(FileResponseAsWritten("")).value)
  {
    FileResponseAsWrittenReadsBack("");
    BodyResponseReadsBack(OctetStreamType, HardcodedFileLength, "");
  }

  /** The 200 response for file contents `data` with the Content-Length the
      echo and user-agent handlers compute, the length of what is sent. */
  function FileResponse(data: string): string {
    BodyResponse(OctetStreamType, |data|, data)
  }

  /** A client reads the file contents back as the body, and the announced
      length is the file's length. */
  lemma FileResponseReadsBack(data: string)
    ensures Parse(FileResponse(data)) == Some(Response(StatusOk, BodyHeaders(OctetStreamType, |data|), data))
    ensures LengthConsistent(Parse(FileResponse(data)).value)
  {
    BodyResponseReadsBack(OctetStreamType, |data|, data);
  }

  /** The two agree exactly on 17-byte files. */
  lemma FileResponseAgreesAt17(data: string)
    ensures FileResponse(data) == FileResponseAsWritten(data) <==> |data| == 17
  {
    if FileResponse(data) == FileResponseAsWritten(data) {
      FileResponseReadsBack(data);
      FileResponseAsWrittenReadsBack(data);
    }
  }

  /** getFile: the path after "/files/" is appended to the configured
      directory and its doubled slashes collapsed; an empty directory, or a
      file that cannot be opened or read, is answered 404, and a readable
      file with the response of app/server.go:206 and its literal
      Content-Length 17. Like handleGetRequest it reads token [1] of the
      request line again, and panics where that token is missing. */
  function GetFile(headerLines: seq<string>, config: ServerConfig): (o: Outcome)
    requires |headerLines| >= 1
    ensures o.Panics? <==> |Split(headerLines[0], " ")| < 2
    ensures o.Panics? ==> o.site == PathTokenMissing
    ensures o.Returns? ==>
              var dir := Flag(config.flags, "directory");
              var key := FileKey(dir, Split(headerLines[0], " ")[1]);
              && (HasStatus(o.value, StatusNotFound) <==> dir == "" || key !in config.files)
              && (dir != "" && key in config.files ==>
                    && HasStatus(o.value, StatusOk)
                    && o.value == FileResponseAsWritten(config.files[key]))
  {
    var tokens := Split(headerLines[0], " ");
    if |tokens| < 2 then Panics(PathTokenMissing)
    else
      var filePath := TrimPrefix(tokens[1], FilesPrefix);
      var dir := Flag(config.flags, "directory");
      StatusResponseHasStatus(StatusNotFound);
      if dir == "" then Returns(NotFoundResponse)
      else
        var absolutePath := RemoveDuplicateSlash(dir + "/" + filePath);
        if absolutePath !in config.files then Returns(NotFoundResponse)
        else
          var response := FileResponseAsWritten(config.files[absolutePath]);
          BodyResponseHasStatus(OctetStreamType, HardcodedFileLength, config.files[absolutePath]);
          StatusesExclusive(response);
          Returns(response)
  }

  /** The filesystem path getFile opens for a request path. */
  function FileKey(dir: string, path: string): string {
    RemoveDuplicateSlash(dir + "/" + TrimPrefix(path, FilesPrefix))
  }

  /** removeDuplicateSlash: one strings.ReplaceAll pass turning each
      non-overlapping "//" into "/", guarded by strings.Contains; a path
      without "//" comes back unchanged and any other path gets shorter. */
  function RemoveDuplicateSlash(path: string): (r: string)
    ensures !Contains(path, "//") ==> r == path
    ensures Contains(path, "//") ==> |r| < |path|
  {
    if Contains(path, "//") then ReplaceAll(path, "//", "/") else path
  }

  /** The collapsed path is the path's "//"-pieces joined by single slashes;
      a single pass leaves a "//" behind exactly where the path had "///". */
  lemma RemoveDuplicateSlashPieces(path: string)
    ensures RemoveDuplicateSlash(path) == Join(Split(path, "//"), "/")
    ensures Contains(RemoveDuplicateSlash(path), "//") <==> Contains(path, "///")
  {
    ReplaceAllIsJoinOfSplit(path, "//", "/");
    SingleReplaceLeavesDouble(path);
    if !Contains(path, "//") {
      assert !Contains(path, "///") by {
        forall i: nat | i <= |path| ensures !OccursAt(path, i, "///") {
          assert !OccursAt(path, i, "//");
          if i + 3 <= |path| {
            assert path[i..i + 3][..2] == path[i..i + 2];
          }
        }
      }
    }
  }

  /** One pass is not a normalisation: "///" keeps a "//", so collapsing
      again changes the result once more. */
  lemma RemoveDuplicateSlashSinglePass()
    ensures RemoveDuplicateSlash("///") == "//"
    ensures RemoveDuplicateSlash(RemoveDuplicateSlash("///")) == "/"
  {
    var s := "///";
    StartsWithTwoSlashes(s);
    assert OccursAt(s, 0, "//");
    assert s[2..] == "/";
    assert ReplaceAll(s, "//", "/") == "/" + ReplaceAll("/", "//", "/");
    StartsWithTwoSlashes("//");
    assert OccursAt("//", 0, "//");
    assert ReplaceAll("//", "//", "/") == "/" + ReplaceAll("", "//", "/");
  }

  /** No slash in `path` is directly followed by another. */
  predicate SingleSlashes(path: string) {
    forall i :: 0 <= i < |path| - 1 ==> path[i] != '/' || path[i + 1] != '/'
  }

  /** A path whose slashes are all single is opened exactly as composed. */
  lemma SingleSlashesUnchanged(path: string)
    requires SingleSlashes(path)
    ensures !Contains(path, "//")
    ensures RemoveDuplicateSlash(path) == path
  {
    forall i: nat | i <= |path|
      ensures !OccursAt(path, i, "//")
    {
      StartsWithTwoSlashes(path[i..]);
      if i + 2 <= |path| {
        assert path[i..][..2] == path[i..i + 2];
      }
    }
  }

  /** Single slashes survive concatenation when the seam is not "//". */
  lemma SingleSlashesConcat(a: string, b: string)
    requires SingleSlashes(a) && SingleSlashes(b)
    requires |a| > 0 && a[|a| - 1] != '/'
    ensures SingleSlashes(a + b)
  {
    var s := a + b;
    forall i | 0 <= i < |s| - 1
      ensures s[i] != '/' || s[i + 1] != '/'
    {
      if i + 1 < |a| {
        assert s[i] == a[i] && s[i + 1] == a[i + 1];
      } else if i + 1 == |a| {
        assert s[i] == a[|a| - 1];
      } else {
        assert s[i] == b[i - |a|] && s[i + 1] == b[i + 1 - |a|];
      }
    }
  }

  lemma StartsWithTwoSlashes(x: string)
    ensures OccursAt(x, 0, "//") <==> |x| >= 2 && x[0] == '/' && x[1] == '/'
  {
    if |x| >= 2 {
      assert x[0..2] == [x[0], x[1]];
    }
  }

  lemma StartsWithThreeSlashes(x: string)
    ensures OccursAt(x, 0, "///") <==> |x| >= 3 && x[0] == '/' && x[1] == '/' && x[2] == '/'
  {
    if |x| >= 3 {
      assert x[0..3] == [x[0], x[1], x[2]];
    }
  }

  /** One pass of ReplaceAll(s, "//", "/") begins with a slash exactly when
      `s` does. */
  lemma SingleReplaceFirstChar(s: string)
    ensures |ReplaceAll(s, "//", "/")| > 0 && ReplaceAll(s, "//", "/")[0] == '/' <==> |s| > 0 && s[0] == '/'
  {
    StartsWithTwoSlashes(s);
  }

  /** One pass of ReplaceAll(s, "//", "/") still contains "//" exactly when
      `s` contains "///". */
  lemma {:induction false} SingleReplaceLeavesDouble(s: string)
    ensures Contains(ReplaceAll(s, "//", "/"), "//") <==> Contains(s, "///")
    decreases |s|
  {
    var r := ReplaceAll(s, "//", "/");
    StartsWithTwoSlashes(s);
    if |s| < 2 {
      assert forall i: nat :: !OccursAt(s, i, "///");
      assert forall i: nat :: !OccursAt(s, i, "//");
    } else {
      StartsWithThreeSlashes(s);
      ContainsTail(s, "///");
      StartsWithThreeSlashes(s[1..]);
      if OccursAt(s, 0, "//") {
        var t := s[2..];
        SingleReplaceLeavesDouble(t);
        SingleReplaceFirstChar(t);
        assert r == "/" + ReplaceAll(t, "//", "/");
        ContainsTail(r, "//");
        StartsWithTwoSlashes(r);
        assert r[1..] == ReplaceAll(t, "//", "/");
        assert s[1..][1..] == t;
        if |s[1..]| > 0 {
          ContainsTail(s[1..], "///");
        }
      } else {
        var t := s[1..];
        SingleReplaceLeavesDouble(t);
        SingleReplaceFirstChar(t);
        assert r == [s[0]] + ReplaceAll(t, "//", "/");
        ContainsTail(r, "//");
        StartsWithTwoSlashes(r);
        assert r[1..] == ReplaceAll(t, "//", "/");
      }
    }
  }
}
