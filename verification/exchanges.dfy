/** The exchanges of app/server_test.go, replayed on the model. Each test
    copies its request into a 1024-byte buffer, so the text the server reads
    ends with the zero bytes left in the buffer; `pad` stands for them (any
    text without a carriage return, which then forms the last line). */
module Exchanges {
  import opened GoStrings
  import opened Fmt
  import opened Wire
  import opened Server
  import opened Properties

  /** The directory flag setupTest sets,
      "/home/projects/codecrafters-http-server-go/testfiles", one path
      segment at a time. */
  const TestDirectory := "/home" + "/projects" + "/codecrafters-http-server-go" + "/testfiles"

  /** The file TestParseFile creates. */
  const TestFilePath := TestDirectory + "/testfile.txt"

  /** The parsed flags of setupTest and an in-memory filesystem holding
      `files`. */
  function TestConfig(files: map<string, string>): ServerConfig {
    ServerConfig(map["directory" := TestDirectory], files)
  }

  lemma JoinThree(a: string, b: string, c: string, sep: string)
    ensures Join([a, b, c], sep) == a + sep + b + sep + c
  {
    assert [a, b, c][1..] == [b, c];
    assert [b, c][1..] == [c];
    assert Join([b, c], sep) == b + sep + c;
    assert Join([a, b, c], sep) == a + sep + (b + sep + c);
  }

  /** The request the last four tests send: a request line, the Host and
      User-Agent headers, the empty line, then the padding. */
  function CurlRequest(requestLine: string, pad: string): seq<string> {
    [requestLine, "Host: localhost:4221", "User-Agent: curl/7.64.1", "", pad]
  }

  lemma CurlHeadersHaveNoCR()
    ensures '\r' !in "Host: localhost:4221"
    ensures '\r' !in "User-Agent: curl/7.64.1"
  {
  }

  lemma FiveLinesCarriageReturnFree(lines: seq<string>)
    requires |lines| == 5
    requires '\r' !in lines[0] && '\r' !in lines[1] && '\r' !in lines[2] && '\r' !in lines[3] && '\r' !in lines[4]
    ensures forall k :: 0 <= k < |lines| ==> '\r' !in lines[k]
  {
  }

  lemma CurlRequestShape(requestLine: string, tokens: seq<string>, pad: string)
    requires '\r' !in requestLine && '\r' !in pad
    requires |tokens| >= 1 && requestLine == Join(tokens, " ")
    requires forall k :: 0 <= k < |tokens| ==> ' ' !in tokens[k]
    ensures RequestOf(Join(CurlRequest(requestLine, pad), CRLF), CurlRequest(requestLine, pad), tokens)
  {
    var lines := CurlRequest(requestLine, pad);
    CurlHeadersHaveNoCR();
    FiveLinesCarriageReturnFree(lines);
    RequestOfCarriageReturnFree(Join(lines, CRLF), lines, tokens);
  }

  /** TestMyTCPServer: the root probe. */
  lemma RootExchange(pad: string, files: map<string, string>)
    requires '\r' !in pad
    ensures HandleHttpRequest("GET / HTTP/1.1\r\n\r\n" + pad, TestConfig(files))
            == Returns("HTTP/1.1 200 OK\r\n\r\n")
  {
    var raw := "GET / HTTP/1.1\r\n\r\n" + pad;
    var lines := ["GET / HTTP/1.1", "", pad];
    var tokens := ["GET", "/", "HTTP/1.1"];
    JoinThree("GET / HTTP/1.1", "", pad, CRLF);
    JoinThree("GET", "/", "HTTP/1.1", " ");
    assert "GET" + " " + "/" + " " + "HTTP/1.1" == "GET / HTTP/1.1";
    RequestOfCarriageReturnFree(raw, lines, tokens);
    RootProbe(raw, lines, tokens, TestConfig(files));
    OkResponseText();
  }

  /** A 200 with a body, line by line as the tests spell it. */
  lemma BodyResponseText(contentType: string, length: nat, body: string)
    requires contentType == ContentType || contentType == OctetStreamType
    ensures contentType == ContentType ==>
              BodyResponse(contentType, length, body)
              == "HTTP/1.1 200 OK\r\n" + "Content-Type: text/plain\r\n"
                 + "Content-Length: " + FormatDecimal(length) + "\r\n" + "\r\n" + body
    ensures contentType == OctetStreamType ==>
              BodyResponse(contentType, length, body)
              == "HTTP/1.1 200 OK\r\n" + "Content-Type: application/octet-stream\r\n"
                 + "Content-Length: " + FormatDecimal(length) + "\r\n" + "\r\n" + body
  {
    assert Protocol + StatusOk + CRLF == "HTTP/1.1 200 OK\r\n";
    assert ContentType + CRLF == "Content-Type: text/plain\r\n";
    assert OctetStreamType + CRLF == "Content-Type: application/octet-stream\r\n";
  }

  /** The text a test sends for a GET of `path`. */
  function CurlGet(path: string, pad: string): string {
    Join(CurlRequest("GET " + path + " HTTP/1.1", pad), CRLF)
  }

  /** A test's GET of `path` has the shape of a GET of `path`. */
  lemma CurlGetShape(path: string, pad: string)
    requires '\r' !in path && ' ' !in path && '\r' !in pad
    ensures GetOf(CurlGet(path, pad), CurlRequest("GET " + path + " HTTP/1.1", pad), ["GET", path, "HTTP/1.1"], path)
  {
    var requestLine := "GET " + path + " HTTP/1.1";
    var tokens := ["GET", path, "HTTP/1.1"];
    JoinThree("GET", path, "HTTP/1.1", " ");
    assert '\r' !in requestLine;
    CurlRequestShape(requestLine, tokens, pad);
  }

  lemma CurlEchoRouted(s: string, pad: string, config: ServerConfig)
    requires '\r' !in s && ' ' !in s && '\r' !in pad
    ensures HandleHttpRequest(CurlGet(EchoPrefix + s, pad), config) == Returns(WriteEcho(EchoPrefix + s))
  {
    var path := EchoPrefix + s;
    CurlGetShape(path, pad);
    EchoRouted(CurlGet(path, pad), CurlRequest("GET " + path + " HTTP/1.1", pad), ["GET", path, "HTTP/1.1"], s, config);
  }

  lemma EchoTestResponse()
    ensures WriteEcho(EchoPrefix + "yikes/dooby-Coo")
            == "HTTP/1.1 200 OK\r\n" + "Content-Type: text/plain\r\n" + "Content-Length: " + "15" + "\r\n"
               + "\r\n" + "yikes/dooby-Coo"
  {
    assert TrimPrefix(EchoPrefix + "yikes/dooby-Coo", EchoPrefix) == "yikes/dooby-Coo";
    FormatDecimalExamples();
    BodyResponseText(ContentType, 15, "yikes/dooby-Coo");
  }

  /** TestTCPBodyResponse: the echo of a path with slashes in it. */
  lemma EchoExchange(pad: string, files: map<string, string>)
    requires '\r' !in pad
    ensures HandleHttpRequest(CurlGet("/echo/yikes/dooby-Coo", pad), TestConfig(files))
            == Returns("HTTP/1.1 200 OK\r\n" + "Content-Type: text/plain\r\n" + "Content-Length: " + "15" + "\r\n"
                       + "\r\n" + "yikes/dooby-Coo")
  {
    var path := "/echo/yikes/dooby-Coo";
    assert path == EchoPrefix + "yikes/dooby-Coo" by {
      assert path[..|EchoPrefix|] == EchoPrefix;
      assert path[|EchoPrefix|..] == "yikes/dooby-Coo";
    }
    CurlEchoRouted("yikes/dooby-Coo", pad, TestConfig(files));
    EchoTestResponse();
  }

  lemma CurlUserAgentValue()
    ensures "User-Agent: curl/7.64.1" == UserAgentName + ":" + (" " + "curl/7.64.1") + ""
    ensures ':' !in " " + "curl/7.64.1"
    ensures !IsSpace("curl/7.64.1"[0]) && !IsSpace("curl/7.64.1"[|"curl/7.64.1"| - 1])
  {
  }

  /** One leading blank is trimmed away. */
  lemma TrimLeadingBlank(value: string)
    requires value != [] && !IsSpace(value[0]) && !IsSpace(value[|value| - 1])
    ensures TrimSpace(" " + value) == value
  {
    TrimSpaceOfPadded(" ", value, "");
    assert " " + value + "" == " " + value;
  }

  lemma CurlHostNotUserAgent()
    ensures !NamesUserAgent("Host: localhost:4221")
  {
    assert "Host: localhost:4221"[0] != UserAgentName[0];
  }

  lemma CurlUserAgentRouted(pad: string, config: ServerConfig)
    requires '\r' !in pad
    ensures HandleHttpRequest(CurlGet(UserAgentPath, pad), config)
            == Returns(BodyResponse(ContentType, |"curl/7.64.1"|, "curl/7.64.1"))
  {
    var lines := CurlRequest("GET " + UserAgentPath + " HTTP/1.1", pad);
    var raw := CurlGet(UserAgentPath, pad);
    var tokens := ["GET", UserAgentPath, "HTTP/1.1"];
    var value := "curl/7.64.1";
    var v := " " + value;
    CurlGetShape(UserAgentPath, pad);
    CurlUserAgentValue();
    CurlHostNotUserAgent();
    assert lines[0][0] != UserAgentName[0];
    assert forall j :: 0 <= j < 2 ==> !NamesUserAgent(lines[j]);
    UserAgentReflected(raw, lines, tokens, 2, v, "", config);
    TrimLeadingBlank(value);
  }

  /** TestParsingHeaders: the User-Agent value comes back trimmed. */
  lemma UserAgentExchange(pad: string, files: map<string, string>)
    requires '\r' !in pad
    ensures HandleHttpRequest(CurlGet("/user-agent", pad), TestConfig(files))
            == Returns("HTTP/1.1 200 OK\r\n" + "Content-Type: text/plain\r\n" + "Content-Length: " + "11" + "\r\n"
                       + "\r\n" + "curl/7.64.1")
  {
    CurlUserAgentRouted(pad, TestConfig(files));
    FormatDecimalExamples();
    BodyResponseText(ContentType, 11, "curl/7.64.1");
  }

  /** getFile composes the test file's path with no slash to collapse. */
  lemma TestFileKey()
    ensures RemoveDuplicateSlash(TestDirectory + "/" + "testfile.txt") == TestFilePath
  {
    assert SingleSlashes("/home");
    assert SingleSlashes("/projects");
    assert SingleSlashes("/codecrafters-http-server-go");
    assert SingleSlashes("/testfiles");
    assert SingleSlashes("/testfile.txt");
    SingleSlashesConcat("/home", "/projects");
    SingleSlashesConcat("/home" + "/projects", "/codecrafters-http-server-go");
    SingleSlashesConcat("/home" + "/projects" + "/codecrafters-http-server-go", "/testfiles");
    SingleSlashesConcat(TestDirectory, "/testfile.txt");
    assert TestDirectory + "/" + "testfile.txt" == TestFilePath;
    SingleSlashesUnchanged(TestFilePath);
  }

  lemma CurlFilesShape(name: string, pad: string)
    requires '\r' !in name && ' ' !in name && '\r' !in pad
    ensures GetOf(CurlGet(FilesPrefix + name, pad), CurlRequest("GET " + (FilesPrefix + name) + " HTTP/1.1", pad),
                  ["GET", FilesPrefix + name, "HTTP/1.1"], FilesPrefix + name)
  {
    CurlGetShape(FilesPrefix + name, pad);
  }

  /** TestParseFile: the file is served with its contents. */
  lemma FileExchange(pad: string)
    requires '\r' !in pad
    ensures HandleHttpRequest(CurlGet("/files/testfile.txt", pad), TestConfig(map[TestFilePath := "Hello, test data!"]))
            == Returns("HTTP/1.1 200 OK\r\n" + "Content-Type: application/octet-stream\r\n" + "Content-Length: " + "17"
                       + "\r\n" + "\r\n" + "Hello, test data!")
  {
    assert FilesPrefix + "testfile.txt" == "/files/testfile.txt" by {
      var path := "/files/testfile.txt";
      assert path[..|FilesPrefix|] == FilesPrefix;
      assert path[|FilesPrefix|..] == "testfile.txt";
    }
    var config := TestConfig(map[TestFilePath := "Hello, test data!"]);
    var path := FilesPrefix + "testfile.txt";
    CurlFilesShape("testfile.txt", pad);
    TestFileKey();
    FileServed(CurlGet(path, pad), CurlRequest("GET " + path + " HTTP/1.1", pad),
               ["GET", path, "HTTP/1.1"], "testfile.txt", config);
    FormatDecimalExamples();
    BodyResponseText(OctetStreamType, HardcodedFileLength, "Hello, test data!");
  }

  /** TestParseFileNotFound: the same request against an empty filesystem. */
  lemma FileNotFoundExchange(pad: string)
    requires '\r' !in pad
    ensures HandleHttpRequest(CurlGet("/files/testfile.txt", pad), TestConfig(map[]))
            == Returns("HTTP/1.1 404 Not Found\r\n\r\n")
  {
    assert FilesPrefix + "testfile.txt" == "/files/testfile.txt" by {
      var path := "/files/testfile.txt";
      assert path[..|FilesPrefix|] == FilesPrefix;
      assert path[|FilesPrefix|..] == "testfile.txt";
    }
    var path := FilesPrefix + "testfile.txt";
    CurlFilesShape("testfile.txt", pad);
    MissingFileIsNotFound(CurlGet(path, pad), CurlRequest("GET " + path + " HTTP/1.1", pad),
                          ["GET", path, "HTTP/1.1"], "testfile.txt", TestConfig(map[]));
    NotFoundResponseText();
  }
}
