/** What the server answers, stated over the shape of the request: the
    "\r\n"-separated lines of the raw text and the space-separated tokens of
    its first line. Every raw request has exactly one such shape
    (RequestShapeIsUnique, EveryRequestHasAShape), so these statements cover
    all inputs. */
module Properties {
  import opened GoStrings
  import opened Wire
  import opened Server

  /** `raw` is made of the lines `lines` joined by "\r\n", and its request
      line is made of the tokens `tokens` joined by single spaces. */
  predicate RequestOf(raw: string, lines: seq<string>, tokens: seq<string>) {
    && |lines| >= 1 && |tokens| >= 1
    && (forall k :: 0 <= k < |lines| ==> !Contains(lines[k], CRLF))
    && (forall k :: 0 <= k < |tokens| ==> ' ' !in tokens[k])
    && raw == Join(lines, CRLF)
    && lines[0] == Join(tokens, " ")
  }

  /** The lines and tokens of a request are the ones the code splits it into. */
  lemma RequestShapeIsUnique(raw: string, lines: seq<string>, tokens: seq<string>)
    requires RequestOf(raw, lines, tokens)
    ensures Split(raw, CRLF) == lines
    ensures Split(lines[0], " ") == tokens
  {
    CRLFIsBorderFree();
    SplitOfJoin(lines, CRLF);
    forall k | 0 <= k < |tokens|
      ensures !Contains(tokens[k], " ")
    {
      ContainsChar(tokens[k], ' ');
    }
    SplitOfJoin(tokens, " ");
  }

  /** Every raw request has a shape. */
  lemma EveryRequestHasAShape(raw: string)
    ensures RequestOf(raw, Split(raw, CRLF), Split(Split(raw, CRLF)[0], " "))
  {
    var tokens := Split(Split(raw, CRLF)[0], " ");
    SplitJoin(raw, CRLF);
    SplitJoin(Split(raw, CRLF)[0], " ");
    forall k | 0 <= k < |tokens|
      ensures ' ' !in tokens[k]
    {
      ContainsChar(tokens[k], ' ');
    }
  }

  /** A method token shorter than two characters, including the empty one of
      an empty request, is answered 400. */
  lemma ShortMethodIsBadRequest(raw: string, lines: seq<string>, tokens: seq<string>, config: ServerConfig)
    requires RequestOf(raw, lines, tokens) && |tokens[0]| < 2
    ensures HandleHttpRequest(raw, config) == Returns(BadRequestResponse)
  {
    RequestShapeIsUnique(raw, lines, tokens);
  }

  lemma EmptyRequestIsBadRequest(config: ServerConfig)
    ensures HandleHttpRequest("", config) == Returns(BadRequestResponse)
  {
    assert RequestOf("", [""], [""]);
    ShortMethodIsBadRequest("", [""], [""], config);
  }

  /** Any method other than GET is answered 404, never 405. */
  lemma NonGetIsNotFound(raw: string, lines: seq<string>, tokens: seq<string>, config: ServerConfig)
    requires RequestOf(raw, lines, tokens) && |tokens[0]| >= 2 && tokens[0] != "GET"
    ensures HandleHttpRequest(raw, config) == Returns(NotFoundResponse)
  {
    RequestShapeIsUnique(raw, lines, tokens);
  }

  /** A GET request line with no second token makes the code index past the
      end of the split (app/server.go:143). */
  lemma GetWithoutPathPanics(raw: string, lines: seq<string>, config: ServerConfig)
    requires RequestOf(raw, lines, ["GET"])
    ensures HandleHttpRequest(raw, config) == Panics(PathTokenMissing)
  {
    RequestShapeIsUnique(raw, lines, ["GET"]);
  }

  /** The request is a GET whose path token is `path`. */
  predicate GetOf(raw: string, lines: seq<string>, tokens: seq<string>, path: string) {
    RequestOf(raw, lines, tokens) && |tokens| >= 2 && tokens[0] == "GET" && tokens[1] == path
  }

  /** A GET is answered by its route. */
  lemma GetIsRouted(raw: string, lines: seq<string>, tokens: seq<string>, path: string, config: ServerConfig)
    requires GetOf(raw, lines, tokens, path)
    ensures Split(lines[0], " ") == tokens
    ensures HandleHttpRequest(raw, config) == HandleGetRequest(lines, config)
  {
    RequestShapeIsUnique(raw, lines, tokens);
  }

  /** The root probe: a GET of exactly "/" is a bare 200. */
  lemma RootProbe(raw: string, lines: seq<string>, tokens: seq<string>, config: ServerConfig)
    requires GetOf(raw, lines, tokens, "/")
    ensures HandleHttpRequest(raw, config) == Returns(OkResponse)
  {
    GetIsRouted(raw, lines, tokens, "/", config);
  }

  lemma EchoRouted(raw: string, lines: seq<string>, tokens: seq<string>, s: string, config: ServerConfig)
    requires GetOf(raw, lines, tokens, EchoPrefix + s)
    ensures HandleHttpRequest(raw, config) == Returns(WriteEcho(EchoPrefix + s))
    ensures TrimPrefix(EchoPrefix + s, EchoPrefix) == s
  {
    var path := EchoPrefix + s;
    GetIsRouted(raw, lines, tokens, path, config);
    assert HasPrefix(path, EchoPrefix) && path != "/";
  }

  /** The echo round trip: GET "/echo/" + s answers text/plain with s as the
      body, verbatim (slashes included), and its length as Content-Length. */
  lemma EchoRoundTrip(raw: string, lines: seq<string>, tokens: seq<string>, s: string, config: ServerConfig)
    requires GetOf(raw, lines, tokens, EchoPrefix + s)
    ensures HandleHttpRequest(raw, config).Returns?
    ensures Parse(HandleHttpRequest(raw, config).value) == Some(Response(StatusOk, BodyHeaders(ContentType, |s|), s))
    ensures LengthConsistent(Parse(HandleHttpRequest(raw, config).value).value)
  {
    EchoRouted(raw, lines, tokens, s, config);
    BodyResponseReadsBack(ContentType, |s|, s);
  }

  /** The four routes can never match the same path, so the dispatch order
      decides nothing beyond which test runs first. */
  lemma RoutesAreExclusive(path: string)
    ensures !(path == "/" && HasPrefix(path, EchoPrefix))
    ensures !(path == "/" && HasPrefix(path, FilesPrefix))
    ensures !(path == UserAgentPath && HasPrefix(path, EchoPrefix))
    ensures !(path == UserAgentPath && HasPrefix(path, FilesPrefix))
    ensures !(HasPrefix(path, EchoPrefix) && HasPrefix(path, FilesPrefix))
  {
    if HasPrefix(path, EchoPrefix) {
      assert path[1] == 'e';
      assert UserAgentPath[1] == 'u';
    }
    if HasPrefix(path, FilesPrefix) {
      assert path[1] == 'f';
      assert UserAgentPath[1] == 'u';
    }
  }

  /** A GET of any path outside the four routes is answered 404; "/echo"
      without its trailing slash is one of them. */
  lemma UnroutedGetIsNotFound(raw: string, lines: seq<string>, tokens: seq<string>, path: string, config: ServerConfig)
    requires GetOf(raw, lines, tokens, path)
    requires path != "/" && !HasPrefix(path, EchoPrefix) && path != UserAgentPath && !HasPrefix(path, FilesPrefix)
    ensures HandleHttpRequest(raw, config) == Returns(NotFoundResponse)
  {
    GetIsRouted(raw, lines, tokens, path, config);
  }

  lemma EchoWithoutSlashIsNotFound(raw: string, lines: seq<string>, tokens: seq<string>, config: ServerConfig)
    requires GetOf(raw, lines, tokens, "/echo")
    ensures HandleHttpRequest(raw, config) == Returns(NotFoundResponse)
  {
    assert !HasPrefix("/echo", EchoPrefix) && !HasPrefix("/echo", FilesPrefix);
    UnroutedGetIsNotFound(raw, lines, tokens, "/echo", config);
  }

  lemma UserAgentNameHasNoColon()
    ensures !Contains(UserAgentName, ":")
  {
    ContainsChar(UserAgentName, ':');
  }

  /** The text after "User-Agent:" runs up to the next ':'. */
  lemma FirstFieldOfValue(v: string, rest: string)
    requires ':' !in v && (rest == "" || rest[0] == ':')
    ensures Split(v + rest, ":")[0] == v
  {
    ContainsChar(v, ':');
    if rest == "" {
      assert v + rest == v;
      IndexOfNone(v, ":");
    } else {
      assert v + rest == v + ":" + rest[1..];
      SplitAfterPiece(v, rest[1..], ":");
    }
  }

  /** The ':'-fields of a User-Agent line: the name, then the text up to the
      next ':'. */
  lemma UserAgentFields(v: string, rest: string)
    requires ':' !in v && (rest == "" || rest[0] == ':')
    ensures |Split(UserAgentName + ":" + v + rest, ":")| >= 2
    ensures Split(UserAgentName + ":" + v + rest, ":")[0] == UserAgentName
    ensures Split(UserAgentName + ":" + v + rest, ":")[1] == v
  {
    UserAgentNameHasNoColon();
    assert UserAgentName + ":" + v + rest == UserAgentName + ":" + (v + rest);
    SplitAfterPiece(UserAgentName, v + rest, ":");
    FirstFieldOfValue(v, rest);
  }

  /** The user-agent value is the text between the first and second ':' of
      the first line that names User-Agent, whitespace-trimmed; whatever
      follows a second ':' is dropped. */
  lemma {:induction false} ScanFindsFirstUserAgent(headerLines: seq<string>, k: nat, v: string, rest: string)
    requires k < |headerLines| && headerLines[k] == UserAgentName + ":" + v + rest
    requires ':' !in v && (rest == "" || rest[0] == ':')
    requires forall j :: 0 <= j < k ==> !NamesUserAgent(headerLines[j])
    ensures ScanUserAgent(headerLines) == Returns(TrimSpace(v))
    decreases k
  {
    NamesUserAgentIsFirstField(headerLines[0]);
    if k == 0 {
      UserAgentFields(v, rest);
    } else {
      assert headerLines[1..][k - 1] == headerLines[k];
      ScanFindsFirstUserAgent(headerLines[1..], k - 1, v, rest);
    }
  }

  lemma BotLineFields()
    ensures "User-Agent: bot (+http://x)" == UserAgentName + ":" + " bot (+http" + "://x)"
    ensures ':' !in " bot (+http"
  {
    var line := "User-Agent: bot (+http://x)";
    assert line[..10] == UserAgentName;
    assert line[10..11] == ":";
    assert line[11..22] == " bot (+http";
    assert line[22..] == "://x)";
    assert line == line[..10] + line[10..11] + line[11..22] + line[22..];
  }

  lemma BotValueTrimmed()
    ensures TrimSpace(" bot (+http") == "bot (+http"
  {
    assert " bot (+http" == " " + "bot (+http" + "";
    TrimSpaceOfPadded(" ", "bot (+http", "");
  }

  /** The value ends at the next ':': a product comment holding a URL is cut
      inside the URL. */
  lemma UserAgentCutAtColon()
    ensures ScanUserAgent(["User-Agent: bot (+http://x)"]) == Returns("bot (+http")
  {
    BotLineFields();
    BotValueTrimmed();
    ScanFindsFirstUserAgent(["User-Agent: bot (+http://x)"], 0, " bot (+http", "://x)");
  }

  /** With no line naming User-Agent the value is "". */
  lemma {:induction false} ScanWithoutUserAgent(headerLines: seq<string>)
    requires forall j :: 0 <= j < |headerLines| ==> !NamesUserAgent(headerLines[j])
    ensures ScanUserAgent(headerLines) == Returns("")
    decreases |headerLines|
  {
    if |headerLines| > 0 {
      NamesUserAgentIsFirstField(headerLines[0]);
      assert forall j :: 0 <= j < |headerLines[1..]| ==> headerLines[1..][j] == headerLines[j + 1];
      ScanWithoutUserAgent(headerLines[1..]);
    }
  }

  lemma UserAgentRouted(raw: string, lines: seq<string>, tokens: seq<string>, config: ServerConfig)
    requires GetOf(raw, lines, tokens, UserAgentPath)
    ensures HandleHttpRequest(raw, config) == WriteUserAgent(lines)
  {
    GetIsRouted(raw, lines, tokens, UserAgentPath, config);
    RoutesAreExclusive(UserAgentPath);
  }

  /** User-Agent reflection on a GET of "/user-agent": the trimmed value is
      the body and its length the Content-Length. */
  lemma UserAgentReflected(raw: string, lines: seq<string>, tokens: seq<string>, k: nat, v: string, rest: string,
                           config: ServerConfig)
    requires GetOf(raw, lines, tokens, UserAgentPath)
    requires k < |lines| && lines[k] == UserAgentName + ":" + v + rest
    requires ':' !in v && (rest == "" || rest[0] == ':')
    requires forall j :: 0 <= j < k ==> !NamesUserAgent(lines[j])
    ensures HandleHttpRequest(raw, config) == Returns(BodyResponse(ContentType, |TrimSpace(v)|, TrimSpace(v)))
    ensures Parse(HandleHttpRequest(raw, config).value)
            == Some(Response(StatusOk, BodyHeaders(ContentType, |TrimSpace(v)|), TrimSpace(v)))
  {
    UserAgentRouted(raw, lines, tokens, config);
    ScanFindsFirstUserAgent(lines, k, v, rest);
    BodyResponseReadsBack(ContentType, |TrimSpace(v)|, TrimSpace(v));
  }

  /** Without a User-Agent line the answer is a 200 with an empty body. */
  lemma UserAgentAbsent(raw: string, lines: seq<string>, tokens: seq<string>, config: ServerConfig)
    requires GetOf(raw, lines, tokens, UserAgentPath)
    requires forall j :: 0 <= j < |lines| ==> !NamesUserAgent(lines[j])
    ensures HandleHttpRequest(raw, config) == Returns(BodyResponse(ContentType, 0, ""))
    ensures Parse(HandleHttpRequest(raw, config).value) == Some(Response(StatusOk, BodyHeaders(ContentType, 0), ""))
  {
    UserAgentRouted(raw, lines, tokens, config);
    ScanWithoutUserAgent(lines);
    BodyResponseReadsBack(ContentType, 0, "");
  }

  /** A first User-Agent line with no ':' at all has no field [1]
      (app/server.go:171). */
  lemma UserAgentBareNamePanics(raw: string, lines: seq<string>, tokens: seq<string>, k: nat, config: ServerConfig)
    requires GetOf(raw, lines, tokens, UserAgentPath)
    requires k < |lines| && lines[k] == UserAgentName
    requires forall j :: 0 <= j < k ==> !NamesUserAgent(lines[j])
    ensures HandleHttpRequest(raw, config) == Panics(UserAgentValueMissing)
  {
    UserAgentRouted(raw, lines, tokens, config);
    ScanUserAgentPanics(lines);
  }

  /** The path getFile opens for "/files/" + name: the directory, a slash
      and `name`, doubled slashes collapsed. */
  lemma FileKeyOfName(dir: string, name: string)
    ensures FileKey(dir, FilesPrefix + name) == RemoveDuplicateSlash(dir + "/" + name)
  {
    assert HasPrefix(FilesPrefix + name, FilesPrefix);
    assert TrimPrefix(FilesPrefix + name, FilesPrefix) == name;
  }

  /** "/files/" + name is dispatched to neither of the routes tested before it. */
  lemma FilesPathIsNotEarlierRoute(name: string)
    ensures HasPrefix(FilesPrefix + name, FilesPrefix)
    ensures FilesPrefix + name != "/" && FilesPrefix + name != UserAgentPath
    ensures !HasPrefix(FilesPrefix + name, EchoPrefix)
  {
    var path := FilesPrefix + name;
    assert path[1] == 'f';
    RoutesAreExclusive(path);
  }

  /** A GET of "/files/" + name is answered by the file handler, which looks
      up the directory, a slash and `name`, doubled slashes collapsed. */
  lemma FilesRoute(raw: string, lines: seq<string>, tokens: seq<string>, name: string, config: ServerConfig)
    requires GetOf(raw, lines, tokens, FilesPrefix + name)
    ensures Split(lines[0], " ") == tokens
    ensures HandleHttpRequest(raw, config) == GetFile(lines, config)
    ensures FileKey(Flag(config.flags, "directory"), FilesPrefix + name)
            == RemoveDuplicateSlash(Flag(config.flags, "directory") + "/" + name)
  {
    GetIsRouted(raw, lines, tokens, FilesPrefix + name, config);
    FilesPathIsNotEarlierRoute(name);
    FileKeyOfName(Flag(config.flags, "directory"), name);
  }

  /** A name without doubled or leading slashes, under a directory without
      doubled or trailing slashes, is opened exactly as directory, slash,
      name. */
  lemma FileKeyOfPlainName(dir: string, name: string)
    requires SingleSlashes(dir) && |dir| > 0 && dir[|dir| - 1] != '/'
    requires SingleSlashes(name) && (name == "" || name[0] != '/')
    ensures FileKey(dir, FilesPrefix + name) == dir + "/" + name
  {
    FileKeyOfName(dir, name);
    var tail := "/" + name;
    forall i | 0 <= i < |tail| - 1
      ensures tail[i] != '/' || tail[i + 1] != '/'
    {
      if i > 0 {
        assert tail[i] == name[i - 1] && tail[i + 1] == name[i];
      }
    }
    SingleSlashesConcat(dir, tail);
    assert dir + "/" + name == dir + tail;
    SingleSlashesUnchanged(dir + tail);
  }

  lemma FilesWithoutDirectoryIsNotFound(raw: string, lines: seq<string>, tokens: seq<string>, name: string,
                                        config: ServerConfig)
    requires GetOf(raw, lines, tokens, FilesPrefix + name)
    requires Flag(config.flags, "directory") == ""
    ensures HandleHttpRequest(raw, config) == Returns(NotFoundResponse)
  {
    FilesRoute(raw, lines, tokens, name, config);
  }

  lemma MissingFileIsNotFound(raw: string, lines: seq<string>, tokens: seq<string>, name: string,
                              config: ServerConfig)
    requires GetOf(raw, lines, tokens, FilesPrefix + name)
    requires RemoveDuplicateSlash(Flag(config.flags, "directory") + "/" + name) !in config.files
    ensures HandleHttpRequest(raw, config) == Returns(NotFoundResponse)
  {
    FilesRoute(raw, lines, tokens, name, config);
  }

  /** A readable file is served verbatim with the literal Content-Length 17
      of app/server.go:206: a client that trusts it reads the file correctly
      exactly when the file is 17 bytes long. */
  lemma FileServed(raw: string, lines: seq<string>, tokens: seq<string>, name: string, config: ServerConfig)
    requires GetOf(raw, lines, tokens, FilesPrefix + name)
    requires Flag(config.flags, "directory") != ""
    requires RemoveDuplicateSlash(Flag(config.flags, "directory") + "/" + name) in config.files
    ensures HandleHttpRequest(raw, config)
            == Returns(FileResponseAsWritten(config.files[RemoveDuplicateSlash(Flag(config.flags, "directory") + "/" + name)]))
    ensures var data := config.files[RemoveDuplicateSlash(Flag(config.flags, "directory") + "/" + name)];
            && Parse(HandleHttpRequest(raw, config).value) == Some(Response(StatusOk, [OctetStreamType, ContentLength + "17"], data))
            && (LengthConsistent(Parse(HandleHttpRequest(raw, config).value).value) <==> |data| == 17)
  {
    FilesRoute(raw, lines, tokens, name, config);
    FileResponseAsWrittenReadsBack(config.files[RemoveDuplicateSlash(Flag(config.flags, "directory") + "/" + name)]);
  }

  /** The request a test sends: `lines` joined by "\r\n". */
  lemma RequestOfCarriageReturnFree(raw: string, lines: seq<string>, tokens: seq<string>)
    requires |lines| >= 1 && |tokens| >= 1
    requires forall k :: 0 <= k < |lines| ==> '\r' !in lines[k]
    requires forall k :: 0 <= k < |tokens| ==> ' ' !in tokens[k]
    requires raw == Join(lines, CRLF) && lines[0] == Join(tokens, " ")
    ensures RequestOf(raw, lines, tokens)
  {
    forall k | 0 <= k < |lines|
      ensures !Contains(lines[k], CRLF)
    {
      NoCarriageReturnNoCRLF(lines[k]);
    }
  }
}
