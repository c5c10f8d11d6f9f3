/**
 * server.c's request handler, serveContent in the forked child: fgets reads the request line
 * from the connection's stdio stream, sscanf splits it, the header loop reads lines until one
 * is "\r\n", and serveError, serveStatic or serveDynamic answer on the same stream. Unlike
 * mini_server.c the target is not decoded, the Content-Length name is matched without regard
 * to case, and a connection that closes before the empty line leaves the loop spinning.
 */
module TinyServer {
  import opened Bytes
  import opened Words
  import opened CString
  import opened Socket
  import opened UriCodec
  import opened Routing
  import opened Dispatch

  /** char buf[MAXSIZE] and every other array of serveContent. */
  const BUF_SIZE: nat := MAXSIZE

  const CRLF: seq<byte> := [CR, LF]
  const CONTENT_LENGTH: seq<byte> := Ascii("content-length:")

  /** sscanf(buf, "%s %s %s", method, uri, version) over the first line, into arrays not yet written. */
  function RequestLine(line: seq<byte>): (r: (seq<byte>, seq<byte>))
    requires |line| < BUF_SIZE && NoNul(line)
    ensures |r.1| == BUF_SIZE && |CStr(r.1)| <= MAXSIZE - 3
    ensures |Tokens(line)| >= 1 ==> r.0 == Tokens(line)[0]
    ensures |Tokens(line)| >= 2 ==> CStr(r.1) == Tokens(line)[1]
  {
    var ts := Tokens(line);
    TokensWithin(line);
    var verb := if |ts| >= 1 then ts[0] else [];
    if |ts| >= 2 then
      SecondTokenBound(line);
      CStrOfTerminated(ts[1], Zeros(BUF_SIZE - |ts[1]| - 1));
      (verb, ts[1] + [NUL] + Zeros(BUF_SIZE - |ts[1]| - 1))
    else (verb, Zeros(BUF_SIZE))
  }

  /** For a POST: buf[15] = '\0', then strcasecmp against "Content-Length:" and atoi(&buf[16]). */
  function HeaderStep(buf: seq<byte>, verb: seq<byte>, payloadSize: int): (r: (seq<byte>, int))
    requires |buf| == BUF_SIZE
    ensures |r.0| == BUF_SIZE
  {
    if verb != POST then (buf, payloadSize)
    else
      var b := buf[15 := NUL];
      (b, if Lower(CStr(b)) == CONTENT_LENGTH then Atoi(CStr(b[16..])) else payloadSize)
  }

  /** Where the header loop leaves off: after "\r\n" (ends) or spinning at the end of the stream. */
  datatype Lines = Lines(ends: bool, consumed: nat, buf: seq<byte>, payloadSize: int)

  /**
   * while (strcmp(buf, "\r\n")) { fgets(buf, MAXSIZE, stream); ... }: once fgets returns NULL
   * it does so on every later pass and leaves buf as it is, so the state after that pass is
   * the state of every later pass, and the loop either exits then or never does.
   */
  function ScanLines(rest: seq<byte>, buf: seq<byte>, verb: seq<byte>, payloadSize: int): (s: Lines)
    requires |buf| == BUF_SIZE
    ensures |s.buf| == BUF_SIZE && s.consumed <= |rest|
    decreases |rest|
  {
    if CStr(buf) == CRLF then Lines(true, 0, buf, payloadSize)
    else
      var r := Fgets(rest, BUF_SIZE, buf);
      var (b, n) := HeaderStep(r.buf, verb, payloadSize);
      if !r.ok then Lines(CStr(b) == CRLF, 0, b, n)
      else Shift(ScanLines(rest[r.consumed..], b, verb, n), r.consumed)
  }

  /** The same end of the loop, reached k bytes further into the stream. */
  function Shift(s: Lines, k: nat): Lines
  {
    s.(consumed := s.consumed + k)
  }

  /** One pass of the loop, for a buffer that does not yet hold "\r\n". */
  lemma ScanLinesStep(rest: seq<byte>, buf: seq<byte>, verb: seq<byte>, payloadSize: int)
    requires |buf| == BUF_SIZE && CStr(buf) != CRLF
    ensures var r := Fgets(rest, BUF_SIZE, buf);
      var h := HeaderStep(r.buf, verb, payloadSize);
      ScanLines(rest, buf, verb, payloadSize) ==
        if !r.ok then Lines(CStr(h.0) == CRLF, 0, h.0, h.1)
        else Shift(ScanLines(rest[r.consumed..], h.0, verb, h.1), r.consumed)
  {
  }

  /** At the end of the stream a second pass changes nothing: the loop's state is a fixed point. */
  lemma HeaderStepIdempotent(buf: seq<byte>, verb: seq<byte>, payloadSize: int)
    requires |buf| == BUF_SIZE
    ensures var (b, n) := HeaderStep(buf, verb, payloadSize); HeaderStep(b, verb, n) == (b, n)
  {
    var b := buf[15 := NUL];
    assert b[15 := NUL] == b;
  }

  /** strcasecmp: "content-length:" in any mixture of cases gives the number that follows. */
  lemma ContentLengthAnyCase(buf: seq<byte>, n: nat, payloadSize: int)
    requires |buf| == BUF_SIZE && NoNul(buf[..15]) && Lower(buf[..15]) == CONTENT_LENGTH
    requires CStr(buf[16..]) == Dec(n)
    ensures HeaderStep(buf, POST, payloadSize).1 == n
  {
    var b := buf[15 := NUL];
    assert b[..15] == buf[..15] && b[16..] == buf[16..];
    CStrOfTerminatedAt(b, 15);
    CStrOfNoNul(b[..15]);
    AtoiDec(n, []);
    assert Dec(n) + [] == Dec(n);
  }

  /** Only a POST reads Content-Length, and it leaves the C string in buf no longer than it was. */
  lemma HeaderStepCuts(buf: seq<byte>, verb: seq<byte>, payloadSize: int)
    requires |buf| == BUF_SIZE
    ensures IsPrefix(CStr(HeaderStep(buf, verb, payloadSize).0), CStr(buf))
    ensures verb != POST ==> HeaderStep(buf, verb, payloadSize) == (buf, payloadSize)
  {
    if verb == POST {
      var b := buf[15 := NUL];
      CStrOfTerminatedAt(b, 15);
      assert b[..15] == buf[..15];
      CStrOfTake(buf, 15);
    }
  }

  /** The buffer starts with the header name in some mixture of cases, with no NUL before byte 15. */
  predicate NamesLength(buf: seq<byte>)
  {
    |buf| >= 15 && NoNul(buf[..15]) && Lower(buf[..15]) == CONTENT_LENGTH
  }

  /** Without the name at its front, buf[15] = '\0' and strcasecmp leave payloadSize alone. */
  lemma HeaderStepNeedsName(buf: seq<byte>, verb: seq<byte>, payloadSize: int)
    requires |buf| == BUF_SIZE && !NamesLength(buf)
    ensures HeaderStep(buf, verb, payloadSize).1 == payloadSize
    ensures !NamesLength(HeaderStep(buf, verb, payloadSize).0)
  {
    if verb == POST {
      var b := buf[15 := NUL];
      assert b[..15] == buf[..15];
      var c := CStr(b);
      if |c| == 15 {
        assert c == b[..15];
      }
    }
  }

  /** fgets puts the name at the front of buf only if the stream holds it, in some case. */
  lemma FgetsNeedsName(rest: seq<byte>, buf: seq<byte>)
    requires |buf| == BUF_SIZE && !NamesLength(buf) && !Contains(Lower(rest), CONTENT_LENGTH)
    ensures !NamesLength(Fgets(rest, BUF_SIZE, buf).buf)
  {
    FgetsCases(rest, BUF_SIZE, buf);
    var r := Fgets(rest, BUF_SIZE, buf);
    if r.ok {
      if r.consumed >= 15 {
        assert r.buf[..15] == rest[..15];
        LowerSlice(rest, 0, 15);
        assert Lower(rest)[..15] == Lower(rest[..15]);
        PrefixContains(Lower(rest), CONTENT_LENGTH, 15);
      } else {
        assert r.buf[..15][r.consumed] == NUL;
      }
    }
  }

  /**
   * The whole header loop: when the client's bytes hold no "content-length:" in any case, and
   * the buffer does not start with it, payloadSize ends the loop as it began.
   */
  lemma {:induction false} NoLengthLineKeepsSize(rest: seq<byte>, buf: seq<byte>, verb: seq<byte>, payloadSize: int)
    requires |buf| == BUF_SIZE && !NamesLength(buf) && !Contains(Lower(rest), CONTENT_LENGTH)
    ensures ScanLines(rest, buf, verb, payloadSize).payloadSize == payloadSize
    decreases |rest|
  {
    if CStr(buf) != CRLF {
      var r := Fgets(rest, BUF_SIZE, buf);
      FgetsNeedsName(rest, buf);
      HeaderStepNeedsName(r.buf, verb, payloadSize);
      if r.ok {
        var h := HeaderStep(r.buf, verb, payloadSize);
        LowerSlice(rest, r.consumed, |rest|);
        assert rest[r.consumed..|rest|] == rest[r.consumed..];
        assert Lower(rest)[r.consumed..] == Lower(rest[r.consumed..]);
        ContainsOfDrop(Lower(rest), CONTENT_LENGTH, r.consumed);
        NoLengthLineKeepsSize(rest[r.consumed..], h.0, verb, h.1);
      }
    }
  }

  /** "<name> N" for a name strcasecmp takes for "Content-Length:" (so with no NUL, CR or LF). */
  function LengthField(name: seq<byte>, n: nat): (f: seq<byte>)
    requires Lower(name) == CONTENT_LENGTH
    ensures |f| == 16 + |Dec(n)| && f[..15] == name && f[16..] == Dec(n)
    ensures LF !in f && NoNul(f) && NoNul(name)
  {
    var f := name + [SP] + Dec(n);
    assert CONTENT_LENGTH == [99, 111, 110, 116, 101, 110, 116, 45, 108, 101, 110, 103, 116, 104, 58];
    assert forall i :: 0 <= i < |name| ==> ToLower(name[i]) == CONTENT_LENGTH[i] >= 45;
    assert forall i :: 0 <= i < |f| ==> f[i] != LF && f[i] != NUL by {
      forall i | 0 <= i < |f| ensures f[i] != LF && f[i] != NUL {
        if i < 15 { assert f[i] == name[i]; }
        else if i >= 16 { assert f[i] == Dec(n)[i - 16]; }
      }
    }
    assert f[..15] == name && f[16..] == Dec(n);
    f
  }

  /** The buffer fgets leaves after "<name> N\r\n": strcasecmp matches and atoi reads N. */
  lemma HeaderStepOfField(name: seq<byte>, n: nat, buf: seq<byte>, payloadSize: int)
    requires Lower(name) == CONTENT_LENGTH && |buf| == BUF_SIZE
    requires var f := LengthField(name, n) + CRLF; |f| < BUF_SIZE && buf[..|f|] == f && buf[|f|] == NUL
    ensures HeaderStep(buf, POST, payloadSize) == (buf[15 := NUL], n) && CStr(buf[15 := NUL]) == name
  {
    var field := LengthField(name, n);
    var b := buf[15 := NUL];
    assert b[..15] == (field + CRLF)[..15] == name;
    CStrOfTerminatedAt(b, 15);
    CStrOfNoNul(name);
    var f := field + CRLF;
    var digits := b[16..];
    assert b[16..|f|] == buf[16..|f|] == f[16..];
    assert f[16..] == field[16..] + CRLF;
    assert digits[..|Dec(n)| + 2] == b[16..|f|];
    assert digits[|Dec(n)| + 2] == buf[|f|] == NUL;
    CStrOfTerminatedAt(digits, |Dec(n)| + 2);
    assert NoNul(Dec(n) + CRLF) by {
      forall i | 0 <= i < |Dec(n) + CRLF| ensures (Dec(n) + CRLF)[i] != NUL {
        if i < |Dec(n)| { assert (Dec(n) + CRLF)[i] == field[16 + i]; }
      }
    }
    CStrOfNoNul(Dec(n) + CRLF);
    assert !IsDigit(CRLF[0]);
    AtoiDec(n, CRLF);
  }

  /** For a POST, the line "<name> N\r\n" and then "\r\n": the loop ends with payloadSize = N. */
  lemma ScanLengthField(name: seq<byte>, n: nat, body: seq<byte>, buf: seq<byte>, payloadSize: int)
    requires Lower(name) == CONTENT_LENGTH && |LengthField(name, n)| + 3 < BUF_SIZE
    requires |buf| == BUF_SIZE && CStr(buf) != CRLF
    ensures var s := ScanLines(LengthField(name, n) + CRLF + (CRLF + body), buf, POST, payloadSize);
      s.ends && s.consumed == |LengthField(name, n)| + 4 && s.payloadSize == n
  {
    var field := LengthField(name, n);
    var p := field + [CR];
    var rest := field + CRLF + (CRLF + body);
    assert LF !in p;
    assert rest == p + [LF] + (CRLF + body);
    FgetsOfLine(p, CRLF + body, BUF_SIZE, buf);
    var r := Fgets(rest, BUF_SIZE, buf);
    assert p + [LF] == field + CRLF;
    HeaderStepOfField(name, n, r.buf, payloadSize);
    var b := r.buf[15 := NUL];
    assert CStr(b) != CRLF;
    ScanLinesStep(rest, buf, POST, payloadSize);
    assert rest[r.consumed..] == CRLF + body;
    EmptyLineEnds(b, POST, n, body);
  }

  /** A line with no CR can never be "\r\n". */
  predicate NoCr(s: seq<byte>)
  {
    CR !in s
  }

  /** What starts or ends a CR-free sequence is CR-free. */
  lemma NoCrPieces(p: seq<byte>, s: seq<byte>, k: nat)
    requires NoCr(s) && IsPrefix(p, s) && k <= |s|
    ensures NoCr(p) && NoCr(s[k..])
  {
    assert forall i :: 0 <= i < |p| ==> p[i] == s[i];
    assert forall i :: 0 <= i < |s| - k ==> s[k..][i] == s[k + i];
  }

  /** A CR-free stream and buffer leave a CR-free line after one pass of the loop. */
  lemma NoCrPass(rest: seq<byte>, buf: seq<byte>, verb: seq<byte>, payloadSize: int)
    requires |buf| == BUF_SIZE && NoCr(rest) && NoCr(CStr(buf))
    ensures var r := Fgets(rest, BUF_SIZE, buf); NoCr(CStr(HeaderStep(r.buf, verb, payloadSize).0))
    ensures var r := Fgets(rest, BUF_SIZE, buf); NoCr(rest[r.consumed..])
  {
    var r := Fgets(rest, BUF_SIZE, buf);
    if r.ok {
      CStrOfTerminatedAt(r.buf, r.consumed);
      var line := r.buf[..r.consumed];
      assert line == rest[..r.consumed];
      assert IsPrefix(CStr(r.buf), rest) by {
        assert IsPrefix(CStr(line), line);
      }
      NoCrPieces(CStr(r.buf), rest, r.consumed);
    }
    HeaderStepCuts(r.buf, verb, payloadSize);
    NoCrPieces(CStr(HeaderStep(r.buf, verb, payloadSize).0), CStr(r.buf), 0);
  }

  /** If the client never sends a CR, the loop never sees "\r\n": it spins once the client is done. */
  lemma {:induction false} NoCrNeverEnds(rest: seq<byte>, buf: seq<byte>, verb: seq<byte>, payloadSize: int)
    requires |buf| == BUF_SIZE && NoCr(rest) && NoCr(CStr(buf))
    ensures !ScanLines(rest, buf, verb, payloadSize).ends
    decreases |rest|
  {
    assert CStr(buf) != CRLF by { assert CRLF[0] == CR; }
    ScanLinesStep(rest, buf, verb, payloadSize);
    NoCrPass(rest, buf, verb, payloadSize);
    var r := Fgets(rest, BUF_SIZE, buf);
    var h := HeaderStep(r.buf, verb, payloadSize);
    assert CStr(h.0) != CRLF by { assert CRLF[0] == CR; }
    if r.ok {
      FgetsCases(rest, BUF_SIZE, buf);
      NoCrNeverEnds(rest[r.consumed..], h.0, verb, h.1);
    }
  }

  // ---------------------------------------------------------------------------------------
  // The response bytes: every fprintf and the final write, in order.

  const HTTP_VERSION: seq<byte> := Ascii("HTTP/1.1 ")
  const ERROR_HEADERS: seq<byte> := Ascii("Server: Minimal HTTP Server\nContent-type: text/html\n\r\n")
  const ERROR_PAGE_OPEN: seq<byte> := Ascii("<html>\n<head><title>Web Server Error</title></head>\n")
  const OK_LINE: seq<byte> := Ascii("HTTP/1.1 200 OK\n")
  const SERVER_LINE: seq<byte> := Ascii("Server: Minimal HTTP Server\n")
  const DYNAMIC_SERVER_LINE: seq<byte> := Ascii("Server: Minimal HTTP Server\n\r\n")
  const CONTENT_TYPE_FIELD: seq<byte> := Ascii("Content-type: ")
  const CONTENT_LENGTH_FIELD: seq<byte> := Ascii("Content-length: ")
  const END_OF_HEADERS: seq<byte> := Ascii("\n\r\n")

  /** "HTTP/1.1 %s %s\n" */
  function StatusLine(code: seq<byte>, msg: seq<byte>): seq<byte>
  {
    HTTP_VERSION + code + [SP] + msg + [LF]
  }

  /** "<body>\n<h1>%s: %s</h1>\n" */
  function ErrorTitle(code: seq<byte>, msg: seq<byte>): seq<byte>
  {
    Ascii("<body>\n<h1>") + code + Ascii(": ") + msg + Ascii("</h1>\n")
  }

  /** "<p>%s: %s</p>\n</body>\n</html>\n" with the long message, which every caller makes the short one. */
  function ErrorCause(msg: seq<byte>, cause: seq<byte>): seq<byte>
  {
    Ascii("<p>") + msg + Ascii(": ") + cause + Ascii("</p>\n</body>\n</html>\n")
  }

  /** serveError: status line and headers, then, except for HEAD, the page naming the cause. */
  function ErrorResponse(verb: seq<byte>, cause: seq<byte>, code: seq<byte>, msg: seq<byte>): (r: seq<byte>)
    ensures IsPrefix(StatusLine(code, msg) + ERROR_HEADERS, r)
  {
    StatusLine(code, msg) + ERROR_HEADERS
      + (if verb == HEAD then [] else ERROR_PAGE_OPEN + ErrorTitle(code, msg) + ErrorCause(msg, cause))
  }

  /** "Content-type: %s\n" */
  function TypeLine(path: seq<byte>): seq<byte>
  {
    CONTENT_TYPE_FIELD + MimeType(path) + [LF]
  }

  /** "Content-length: %d\n\r\n" */
  function LengthLine(size: nat): seq<byte>
  {
    CONTENT_LENGTH_FIELD + (Dec(size) + END_OF_HEADERS)
  }

  function StaticHeaders(path: seq<byte>, size: nat): seq<byte>
  {
    OK_LINE + SERVER_LINE + TypeLine(path) + LengthLine(size)
  }

  /** serveStatic: the four header lines, then, except for HEAD, the file written to the socket. */
  function StaticResponse(verb: seq<byte>, path: seq<byte>, content: seq<byte>): (r: seq<byte>)
    ensures IsPrefix(StaticHeaders(path, |content|), r)
  {
    StaticHeaders(path, |content|) + (if verb == HEAD then [] else content)
  }

  /** serveDynamic's two header lines. */
  const DYNAMIC_HEADERS: seq<byte> := OK_LINE + DYNAMIC_SERVER_LINE

  /** A HEAD request gets exactly the headers a GET gets, and nothing after them. */
  lemma HeadIsGetWithoutBody(path: seq<byte>, content: seq<byte>, cause: seq<byte>, code: seq<byte>, msg: seq<byte>)
    ensures StaticResponse(HEAD, path, content) == StaticHeaders(path, |content|)
    ensures StaticResponse(GET, path, content) == StaticHeaders(path, |content|) + content
    ensures ErrorResponse(HEAD, cause, code, msg) == StatusLine(code, msg) + ERROR_HEADERS
    ensures IsPrefix(ErrorResponse(HEAD, cause, code, msg), ErrorResponse(GET, cause, code, msg))
  {
    MethodsDistinct();
  }

  /** The error page of any method but HEAD names its cause: the path for 404 and 403. */
  lemma ErrorPageNamesCause(verb: seq<byte>, cause: seq<byte>, code: seq<byte>, msg: seq<byte>)
    requires verb != HEAD
    ensures Contains(ErrorResponse(verb, cause, code, msg), cause)
  {
    var pre := Ascii("<p>") + msg + Ascii(": ");
    var post := Ascii("</p>\n</body>\n</html>\n");
    assert ErrorCause(msg, cause) == pre + cause + post;
    ContainsInConcat(pre, cause, post);
    var front := StatusLine(code, msg) + ERROR_HEADERS + (ERROR_PAGE_OPEN + ErrorTitle(code, msg));
    assert ErrorResponse(verb, cause, code, msg) == front + ErrorCause(msg, cause) + [] by {
      Assoc(StatusLine(code, msg) + ERROR_HEADERS, ERROR_PAGE_OPEN + ErrorTitle(code, msg), ErrorCause(msg, cause));
    }
    var i := ContainsWitness(ErrorCause(msg, cause), cause);
    var whole := front + ErrorCause(msg, cause) + [];
    assert whole[|front| + i..|front| + i + |cause|] == ErrorCause(msg, cause)[i..i + |cause|];
    ContainsAt(whole, cause, |front| + i);
  }

  /**
   * The headers end with "Content-length: N\n\r\n", where atoi reads N back as the number of
   * body bytes that follow them.
   */
  lemma ContentLengthIsBodyLength(path: seq<byte>, content: seq<byte>)
    ensures var h := StaticHeaders(path, |content|);
      var v := Dec(|content|) + END_OF_HEADERS;
      && |h| >= |v| && h[|h| - |v|..] == v
      && Atoi(v) == |content| == |StaticResponse(GET, path, content)| - |h|
  {
    var n := |content|;
    var v := Dec(n) + END_OF_HEADERS;
    var h := StaticHeaders(path, n);
    var front := OK_LINE + SERVER_LINE + TypeLine(path);
    assert h == front + LengthLine(n);
    assert LengthLine(n)[|CONTENT_LENGTH_FIELD|..] == v;
    assert h[|h| - |v|..] == LengthLine(n)[|CONTENT_LENGTH_FIELD|..];
    assert END_OF_HEADERS[0] == LF;
    AtoiDec(n, END_OF_HEADERS);
    MethodsDistinct();
  }

  // ---------------------------------------------------------------------------------------
  // The whole exchange.

  /** cgiArgs once analyzeRequest has copied the query into the fresh array. */
  function ArgsBuffer(args: seq<byte>): (b: seq<byte>)
    ensures |b| == BUF_SIZE
    ensures |args| < BUF_SIZE ==> b == args + [NUL] + Zeros(BUF_SIZE - |args| - 1)
  {
    var b := (args + [NUL] + Zeros(BUF_SIZE))[..BUF_SIZE];
    assert |args| < BUF_SIZE ==> b == args + [NUL] + Zeros(BUF_SIZE - |args| - 1) by {
      if |args| < BUF_SIZE {
        forall i | 0 <= i < BUF_SIZE ensures b[i] == (args + [NUL] + Zeros(BUF_SIZE - |args| - 1))[i] {
        }
      }
    }
    b
  }

  /** The query string of a program: the target's, or what fgets(cgiArgs, payloadSize + 1) reads over it. */
  function ProgramQuery(args: seq<byte>, payloadSize: int, rest: seq<byte>): (r: (seq<byte>, nat))
    requires payloadSize + 1 <= BUF_SIZE
    ensures r.1 <= |rest|
  {
    var f := Fgets(rest, payloadSize + 1, ArgsBuffer(args));
    (CStr(f.buf), f.consumed)
  }

  /**
   * serveContent after the header loop: the verdict, and for a CGI program its headers and,
   * unless HEAD, the program with QUERY_STRING from the target or, for POST, from fgets.
   */
  function Answer(verb: seq<byte>, route: Route, fs: FileSystem, payloadSize: int, rest: seq<byte>): (r: Response)
    ensures r.consumed <= |rest|
  {
    match Decide(verb, route, fs, payloadSize)
    case Reject(cause, code, msg) => Response(ErrorResponse(verb, cause, code, msg), Answered, 0)
    case ServeFile(path, content) => Response(StaticResponse(verb, path, content), Answered, 0)
    case RunCgi(path, readsBody) =>
      if !readsBody then
        Response(DYNAMIC_HEADERS, if verb == HEAD then Answered else Exec(path, route.args), 0)
      else if payloadSize + 1 > BUF_SIZE then Response([], Overrun, 0)
      else
        var (query, used) := ProgramQuery(route.args, payloadSize, rest);
        Response(DYNAMIC_HEADERS, Exec(path, query), used)
  }

  /** The first fgets: the line it leaves is shorter than the buffer. */
  function FirstLine(input: seq<byte>): (r: FgetsRead)
    ensures |r.buf| == BUF_SIZE && r.consumed <= |input| && |CStr(r.buf)| < BUF_SIZE
  {
    Fgets(input, BUF_SIZE, Zeros(BUF_SIZE))
  }

  /** The route's pieces fit the arrays analyzeRequest fills. */
  lemma RouteFits(u: seq<byte>)
    requires |u| <= MAXSIZE - 3
    ensures |RouteOf(u).path| < BUF_SIZE && |RouteOf(u).args| < BUF_SIZE
  {
    assert |DOT| == 1 && |DEFAULT_FILE| == 10;
  }

  /** What serveContent knows once the header loop is left: method, uri array, the loop's end, bytes read. */
  datatype Request = Request(verb: seq<byte>, uri: seq<byte>, lines: Lines, used: nat)

  /** The first fgets and sscanf, then the header loop, on the bytes the client sends. */
  function ReadRequest(input: seq<byte>): (q: Request)
    ensures q.used <= |input| && |q.uri| == BUF_SIZE && |CStr(q.uri)| <= MAXSIZE - 3
  {
    var first := FirstLine(input);
    var line := RequestLine(CStr(first.buf));
    var s := ScanLines(input[first.consumed..], first.buf, line.0, -1);
    Request(line.0, line.1, s, first.consumed + s.consumed)
  }

  /**
   * A POST with one Content-Length header, in any case: the request line gives the method and
   * the target as sent, and the loop ends at the empty line with payloadSize = N.
   */
  lemma PostWithLengthRequest(target: seq<byte>, version: seq<byte>, name: seq<byte>, n: nat, body: seq<byte>)
    requires IsWord(target) && IsWord(version) && NoNul(POST + [SP] + target + [SP] + version)
    requires |POST + [SP] + target + [SP] + version| + 3 < BUF_SIZE
    requires Lower(name) == CONTENT_LENGTH && |LengthField(name, n)| + 3 < BUF_SIZE
    ensures var line := POST + [SP] + target + [SP] + version;
      var q := ReadRequest(line + CRLF + (LengthField(name, n) + CRLF + (CRLF + body)));
      && q.verb == POST && CStr(q.uri) == target && q.lines.ends && q.lines.payloadSize == n
      && q.used == |line| + |LengthField(name, n)| + 6
  {
    var line := POST + [SP] + target + [SP] + version;
    var more := LengthField(name, n) + CRLF + (CRLF + body);
    var input := line + CRLF + more;
    assert POST == [80, 79, 83, 84];
    RequestLineHasNoLf(POST, target, version);
    FirstLineOfRequest(line, more);
    var first := FirstLine(input);
    TokensOfThreeWords(POST, target, version, CRLF);
    assert input[first.consumed..] == more;
    assert CStr(first.buf) != CRLF by { assert |CStr(first.buf)| > 2; }
    ScanLengthField(name, n, body, first.buf, -1);
  }

  /** A request with no "content-length:" in any case leaves payloadSize at -1, whatever the method. */
  lemma NoLengthLineMeansMinusOne(input: seq<byte>)
    requires !Contains(Lower(input), CONTENT_LENGTH)
    ensures ReadRequest(input).lines.payloadSize == -1
  {
    var first := FirstLine(input);
    assert !NamesLength(Zeros(BUF_SIZE)) by { assert Zeros(BUF_SIZE)[..15][0] == NUL; }
    FgetsNeedsName(input, Zeros(BUF_SIZE));
    LowerSlice(input, first.consumed, |input|);
    assert input[first.consumed..|input|] == input[first.consumed..];
    assert Lower(input)[first.consumed..] == Lower(input[first.consumed..]);
    ContainsOfDrop(Lower(input), CONTENT_LENGTH, first.consumed);
    NoLengthLineKeepsSize(input[first.consumed..], first.buf, RequestLine(CStr(first.buf)).0, -1);
  }

  /** serveContent for a connection whose client sends input. */
  function Respond(input: seq<byte>, fs: FileSystem): (r: Response)
    ensures r.consumed <= |input|
  {
    RespondTo(ReadRequest(input), input, fs)
  }

  /** serveContent once the header loop has been left as q says. */
  function RespondTo(q: Request, input: seq<byte>, fs: FileSystem): (r: Response)
    requires q.used <= |input| && |CStr(q.uri)| <= MAXSIZE - 3
    ensures r.consumed <= |input|
  {
    if !q.lines.ends then Response([], Hang, q.used)
    else
      var a := Answer(q.verb, RouteOf(CStr(q.uri)), fs, q.lines.payloadSize, input[q.used..]);
      a.(consumed := q.used + a.consumed)
  }

  /** A client that connects and closes without a byte leaves the handler spinning. */
  lemma EmptyConnectionHangs(fs: FileSystem)
    ensures Respond([], fs).outcome == Hang
  {
    var first := FirstLine([]);
    assert first.buf == Zeros(BUF_SIZE);
    assert CStr(first.buf) != CRLF;
  }

  /**
   * A client that ends its lines with LF alone (or sends no CR at all) never sends "\r\n":
   * the handler answers nothing and spins (mini_server.c answers 400 instead).
   */
  lemma LfOnlyRequestHangs(input: seq<byte>, fs: FileSystem)
    requires NoCr(input)
    ensures Respond(input, fs).outcome == Hang && Respond(input, fs).output == []
  {
    var first := FirstLine(input);
    var (verb, uri) := RequestLine(CStr(first.buf));
    assert NoCr(CStr(first.buf)) by {
      if first.ok {
        CStrOfTerminatedAt(first.buf, first.consumed);
        forall i | 0 <= i < |CStr(first.buf)| ensures CStr(first.buf)[i] != CR {
          assert CStr(first.buf)[i] == first.buf[..first.consumed][i] == input[i];
        }
      } else {
        assert first.buf == Zeros(BUF_SIZE);
      }
    }
    var rest := input[first.consumed..];
    assert NoCr(rest) by {
      forall i | 0 <= i < |rest| ensures rest[i] != CR { assert rest[i] == input[first.consumed + i]; }
    }
    NoCrNeverEnds(rest, first.buf, verb, -1);
  }

  /** No byte of a request line made of words and single spaces is a line feed. */
  lemma RequestLineHasNoLf(a: seq<byte>, b: seq<byte>, c: seq<byte>)
    requires IsWord(a) && IsWord(b) && IsWord(c)
    ensures LF !in a + [SP] + b + [SP] + c
  {
    var line := a + [SP] + b + [SP] + c;
    forall i | 0 <= i < |line| ensures line[i] != LF {
      if i < |a| { assert line[i] == a[i]; }
      else if i == |a| { }
      else if i < |a| + 1 + |b| { assert line[i] == b[i - |a| - 1]; }
      else if i == |a| + 1 + |b| { }
      else { assert line[i] == c[i - |a| - 2 - |b|]; }
    }
  }

  /** The first fgets on "line\r\n...": the buffer holds the line with its CR LF. */
  lemma FirstLineOfRequest(line: seq<byte>, more: seq<byte>)
    requires LF !in line && NoNul(line) && |line| + 3 < BUF_SIZE
    ensures var f := FirstLine(line + CRLF + more);
      f.consumed == |line| + 2 && CStr(f.buf) == line + CRLF
  {
    var p := line + [CR];
    assert LF !in p;
    assert line + CRLF + more == p + [LF] + more;
    FgetsOfLine(p, more, BUF_SIZE, Zeros(BUF_SIZE));
    var f := Fgets(p + [LF] + more, BUF_SIZE, Zeros(BUF_SIZE));
    CStrOfTerminatedAt(f.buf, |p| + 1);
    assert p + [LF] == line + CRLF;
    assert NoNul(line + CRLF);
    CStrOfNoNul(line + CRLF);
  }

  /** The empty line that ends the headers: fgets reads it and the loop exits. */
  lemma EmptyLineEnds(buf: seq<byte>, verb: seq<byte>, payloadSize: int, body: seq<byte>)
    requires |buf| == BUF_SIZE && CStr(buf) != CRLF
    ensures var s := ScanLines(CRLF + body, buf, verb, payloadSize);
      s.ends && s.consumed == 2 && s.payloadSize == payloadSize
  {
    FgetsOfLine([CR], body, BUF_SIZE, buf);
    assert CRLF + body == [CR] + [LF] + body;
    var r := Fgets(CRLF + body, BUF_SIZE, buf);
    CStrOfTerminatedAt(r.buf, 2);
    assert r.buf[..2] == CRLF;
    CStrOfNoNul(CRLF);
    var (b, n) := HeaderStep(r.buf, verb, payloadSize);
    HeaderStepCuts(r.buf, verb, payloadSize);
    if verb == POST {
      CStrOfTerminatedAt(b, 2);
      assert b[..2] == CRLF;
      assert |Lower(CStr(b))| == 2;
    }
    assert ScanLines((CRLF + body)[2..], b, verb, n) == Lines(true, 0, b, n);
  }

  /**
   * A well-formed request line ended by "\r\n", then the empty line: its first two words are
   * the method and the target, kept as sent, no Content-Length is seen, and the loop exits
   * after both lines.
   */
  lemma WellFormedRequest(verb: seq<byte>, target: seq<byte>, version: seq<byte>, body: seq<byte>, fs: FileSystem)
    requires IsWord(verb) && IsWord(target) && IsWord(version)
    requires NoNul(verb + [SP] + target + [SP] + version)
    requires |verb + [SP] + target + [SP] + version| + 3 < BUF_SIZE
    ensures var line := verb + [SP] + target + [SP] + version;
      var input := line + CRLF + (CRLF + body);
      var first := FirstLine(input);
      var (v, uri) := RequestLine(CStr(first.buf));
      var s := ScanLines(input[first.consumed..], first.buf, v, -1);
      && v == verb && CStr(uri) == target
      && s.ends && first.consumed + s.consumed == |line| + 4 && s.payloadSize == -1
  {
    var line := verb + [SP] + target + [SP] + version;
    var input := line + CRLF + (CRLF + body);
    RequestLineHasNoLf(verb, target, version);
    FirstLineOfRequest(line, CRLF + body);
    var first := FirstLine(input);
    TokensOfThreeWords(verb, target, version, CRLF);
    assert CStr(first.buf) == line + CRLF;
    assert input[first.consumed..] == CRLF + body;
    assert CStr(first.buf) != CRLF by { assert |CStr(first.buf)| > 2; }
    var (v, uri) := RequestLine(CStr(first.buf));
    EmptyLineEnds(first.buf, v, -1, body);
  }

  /** A POST body without LF and at least Content-Length bytes long: the program's query is exactly those bytes. */
  lemma PostQueryIsBody(args: seq<byte>, n: nat, rest: seq<byte>)
    requires n + 1 <= BUF_SIZE
    requires n <= |rest| && LF !in rest[..n] && NoNul(rest[..n])
    ensures ProgramQuery(args, n, rest) == (rest[..n], n)
  {
    var buf := ArgsBuffer(args);
    var f := Fgets(rest, n + 1, buf);
    if n > 0 {
      assert LF !in rest[..Min(n, |rest|)] by { assert rest[..Min(n, |rest|)] == rest[..n]; }
      assert f.consumed == n;
    }
    CStrOfTerminatedAt(f.buf, f.consumed);
    assert f.buf[..n] == rest[..n];
    CStrOfNoNul(rest[..n]);
  }

  /** A negative Content-Length (below -1, which is answered 411) makes fgets read nothing: the target's query stays. */
  lemma NegativeLengthKeepsTargetQuery(args: seq<byte>, n: int, rest: seq<byte>)
    requires |args| < BUF_SIZE && NoNul(args) && n <= -1
    ensures ProgramQuery(args, n, rest) == (args, 0)
  {
    CStrOfTerminated(args, Zeros(BUF_SIZE - |args| - 1));
  }

  /** A HEAD request is always answered or left spinning; no program is started for it. */
  lemma HeadStartsNoProgram(input: seq<byte>, fs: FileSystem)
    requires RequestLine(CStr(FirstLine(input).buf)).0 == HEAD
    ensures !Respond(input, fs).outcome.Exec? && !Respond(input, fs).outcome.Overrun?
  {
    MethodsDistinct();
  }

  // ---------------------------------------------------------------------------------------
  // The handler on its stream.

  /** sscanf(buf, "%s %s %s", method, uri, version): the method, and the target copied into uri. */
  method ScanRequestLine(buf: array<byte>, uri: array<byte>) returns (verb: seq<byte>)
    requires buf != uri && buf.Length == BUF_SIZE && uri.Length == BUF_SIZE && uri[..] == Zeros(BUF_SIZE)
    requires |CStr(buf[..])| < BUF_SIZE
    modifies uri
    ensures (verb, uri[..]) == RequestLine(CStr(buf[..]))
  {
    var line := CStr(buf[..]);
    var ts := Tokens(line);
    TokensWithin(line);
    verb := [];
    if |ts| >= 1 {
      verb := ts[0];
    }
    if |ts| >= 2 {
      SecondTokenBound(line);
      StrCpy(uri, ts[1]);
      assert uri[..] == ts[1] + [NUL] + Zeros(BUF_SIZE - |ts[1]| - 1);
    }
  }

  /** The body of the header loop for a POST: buf[15] = '\0' and the case-blind Content-Length test. */
  method ReadContentLength(buf: array<byte>, verb: seq<byte>, payloadSize: int) returns (payloadSize': int)
    requires buf.Length == BUF_SIZE
    modifies buf
    ensures (buf[..], payloadSize') == HeaderStep(old(buf[..]), verb, payloadSize)
  {
    payloadSize' := payloadSize;
    if verb == POST {
      buf[15] := NUL;
      if Lower(CStr(buf[..])) == CONTENT_LENGTH {
        payloadSize' := Atoi(CStr(buf[16..]));
      }
    }
  }

  /** One pass of the header loop: fgets(buf, MAXSIZE, stream), then the Content-Length test. */
  method ReadHeaderLine(sock: Connection, buf: array<byte>, verb: seq<byte>, payloadSize: int)
    returns (ok: bool, payloadSize': int)
    requires sock.Valid() && buf.Length == BUF_SIZE
    modifies sock`pos, buf
    ensures sock.Valid()
    ensures var r := Fgets(old(sock.Rest()), BUF_SIZE, old(buf[..]));
      ok == r.ok && sock.pos == old(sock.pos) + r.consumed && (buf[..], payloadSize') == HeaderStep(r.buf, verb, payloadSize)
  {
    ok := sock.ReadLineStdio(buf, BUF_SIZE);
    payloadSize' := ReadContentLength(buf, verb, payloadSize);
  }

  /**
   * The header loop. When fgets returns NULL the loop would run on in that same state forever;
   * the method stops there and reports whether that state is the one that exits.
   */
  method SkipHeaders(sock: Connection, buf: array<byte>, verb: seq<byte>) returns (ends: bool, payloadSize: int)
    requires sock.Valid() && buf.Length == BUF_SIZE
    modifies sock`pos, buf
    ensures sock.Valid() && sock.input == old(sock.input)
    ensures var s := ScanLines(old(sock.Rest()), old(buf[..]), verb, -1);
      ends == s.ends && payloadSize == s.payloadSize && sock.pos == old(sock.pos) + s.consumed
  {
    ghost var total := ScanLines(sock.Rest(), buf[..], verb, -1);
    ghost var pos0 := sock.pos;
    payloadSize := -1;
    while CStr(buf[..]) != CRLF
      invariant sock.Valid() && pos0 <= sock.pos
      invariant Shift(ScanLines(sock.Rest(), buf[..], verb, payloadSize), sock.pos - pos0) == total
      decreases |sock.input| - sock.pos
    {
      ghost var rest := sock.Rest();
      ScanLinesStep(rest, buf[..], verb, payloadSize);
      ghost var r := Fgets(rest, BUF_SIZE, buf[..]);
      var ok;
      ok, payloadSize := ReadHeaderLine(sock, buf, verb, payloadSize);
      if !ok {
        return CStr(buf[..]) == CRLF, payloadSize;
      }
      assert sock.Rest() == rest[r.consumed..];
    }
    ends := true;
  }

  /** serveError: the three header lines and, except for HEAD, the three lines of the page. */
  method ServeError(sock: Connection, verb: seq<byte>, cause: seq<byte>, code: seq<byte>, msg: seq<byte>)
    modifies sock`output
    ensures sock.output == old(sock.output) + ErrorResponse(verb, cause, code, msg)
  {
    ghost var out := sock.output;
    var status := StatusLine(code, msg);
    sock.Print(status);
    sock.Print(ERROR_HEADERS);
    ghost var head := status + ERROR_HEADERS;
    assert sock.output == out + head by { Assoc(out, status, ERROR_HEADERS); }
    if verb == HEAD {
      return;
    }
    sock.Print(ERROR_PAGE_OPEN);
    var title := ErrorTitle(code, msg);
    sock.Print(title);
    var reason := ErrorCause(msg, cause);
    sock.Print(reason);
    assert sock.output == out + (head + (ERROR_PAGE_OPEN + title + reason)) by {
      Assoc(out, head, ERROR_PAGE_OPEN);
      Assoc(out, head + ERROR_PAGE_OPEN, title);
      Assoc(out, head + ERROR_PAGE_OPEN + title, reason);
      Assoc(head, ERROR_PAGE_OPEN, title);
      Assoc(head, ERROR_PAGE_OPEN + title, reason);
    }
  }

  /** serveStatic: the four header lines, then, except for HEAD, write(fdConnect, fp, fsize). */
  method ServeStatic(sock: Connection, verb: seq<byte>, path: seq<byte>, content: seq<byte>)
    modifies sock`output
    ensures sock.output == old(sock.output) + StaticResponse(verb, path, content)
  {
    ghost var out := sock.output;
    var ftype := TypeLine(path);
    sock.Print(OK_LINE);
    sock.Print(SERVER_LINE);
    sock.Print(ftype);
    var length := LengthLine(|content|);
    sock.Print(length);
    assert sock.output == out + StaticHeaders(path, |content|) by {
      Assoc(out, OK_LINE, SERVER_LINE);
      Assoc(out, OK_LINE + SERVER_LINE, ftype);
      Assoc(out, OK_LINE + SERVER_LINE + ftype, length);
    }
    if verb == HEAD {
      return;
    }
    sock.Print(content);
    Assoc(out, StaticHeaders(path, |content|), content);
  }

  /** serveDynamic: the two header lines, then, except for HEAD, the program with QUERY_STRING set. */
  method ServeDynamic(sock: Connection, verb: seq<byte>, path: seq<byte>, query: seq<byte>)
    returns (outcome: Outcome)
    modifies sock`output
    ensures sock.output == old(sock.output) + DYNAMIC_HEADERS
    ensures outcome == if verb == HEAD then Answered else Exec(path, query)
  {
    sock.Print(OK_LINE);
    sock.Print(DYNAMIC_SERVER_LINE);
    if verb == HEAD {
      return Answered;
    }
    return Exec(path, query);
  }

  /** The program branch: 411 for a POST without Content-Length, fgets of the body for a POST, then serveDynamic. */
  method RunProgram(sock: Connection, verb: seq<byte>, route: Route, cgiArgs: array<byte>, payloadSize: int)
    returns (outcome: Outcome)
    requires sock.Valid() && Supported(verb) && route.kind == Dynamic
    requires |route.args| < BUF_SIZE && NoNul(route.args)
    requires cgiArgs.Length == BUF_SIZE && cgiArgs[..] == ArgsBuffer(route.args)
    modifies sock, cgiArgs
    ensures sock.Valid() && sock.input == old(sock.input)
    ensures var a := Answer(verb, route, map[route.path := File(true, true, true, [])], payloadSize, old(sock.Rest()));
      outcome == a.outcome && sock.output == old(sock.output) + a.output && sock.pos == old(sock.pos) + a.consumed
  {
    ProgramAnswer(verb, route, payloadSize, sock.Rest());
    if verb == POST && payloadSize == -1 {
      ServeError(sock, verb, verb, C411, LENGTH_REQUIRED);
      return Answered;
    }
    if verb == POST && payloadSize + 1 > BUF_SIZE {
      return Overrun;
    }
    var query := ProgramArgs(sock, verb, route.args, cgiArgs, payloadSize);
    MethodsDistinct();
    outcome := ServeDynamic(sock, verb, route.path, query);
  }

  /** The query string the program gets: the target's, or for a POST the body fgets reads over it. */
  method ProgramArgs(sock: Connection, verb: seq<byte>, args: seq<byte>, cgiArgs: array<byte>, payloadSize: int)
    returns (query: seq<byte>)
    requires sock.Valid() && (verb == POST ==> payloadSize + 1 <= BUF_SIZE)
    requires |args| < BUF_SIZE && NoNul(args)
    requires cgiArgs.Length == BUF_SIZE && cgiArgs[..] == ArgsBuffer(args)
    modifies sock`pos, cgiArgs
    ensures sock.Valid()
    ensures verb == POST ==>
      var (q, used) := ProgramQuery(args, payloadSize, old(sock.Rest()));
      query == q && sock.pos == old(sock.pos) + used
    ensures verb != POST ==> query == args && sock.pos == old(sock.pos)
  {
    if verb == POST {
      var _ := sock.ReadLineStdio(cgiArgs, payloadSize + 1);
    } else {
      CStrOfTerminated(args, Zeros(BUF_SIZE - |args| - 1));
    }
    query := CStr(cgiArgs[..]);
  }

  /** Answer for a program the mode lets run: 411, an overrun, or its headers and QUERY_STRING. */
  lemma ProgramAnswer(verb: seq<byte>, route: Route, payloadSize: int, rest: seq<byte>)
    requires Supported(verb) && route.kind == Dynamic
    ensures Answer(verb, route, map[route.path := File(true, true, true, [])], payloadSize, rest) ==
      if verb == POST && payloadSize == -1 then Response(ErrorResponse(verb, verb, C411, LENGTH_REQUIRED), Answered, 0)
      else if verb == POST && payloadSize + 1 > BUF_SIZE then Response([], Overrun, 0)
      else if verb == POST then
        var (query, used) := ProgramQuery(route.args, payloadSize, rest);
        Response(DYNAMIC_HEADERS, Exec(route.path, query), used)
      else Response(DYNAMIC_HEADERS, if verb == HEAD then Answered else Exec(route.path, route.args), 0)
  {
    MethodsDistinct();
  }

  /** Only whether the file is there and what the mode allows matter once it is a program. */
  lemma AnswerOfProgram(verb: seq<byte>, route: Route, fs: FileSystem, payloadSize: int, rest: seq<byte>)
    requires Supported(verb) && route.kind == Dynamic && route.path in fs && Permitted(fs[route.path], Dynamic)
    ensures Answer(verb, route, fs, payloadSize, rest)
      == Answer(verb, route, map[route.path := File(true, true, true, [])], payloadSize, rest)
  {
  }

  /** Answer for a supported method: 404, 403, the static file, or the program as ProgramAnswer has it. */
  lemma RouteAnswer(verb: seq<byte>, route: Route, fs: FileSystem, payloadSize: int, rest: seq<byte>)
    requires Supported(verb)
    ensures Answer(verb, route, fs, payloadSize, rest) ==
      if route.path !in fs then Response(ErrorResponse(verb, route.path, C404, NOT_FOUND), Answered, 0)
      else if !Permitted(fs[route.path], route.kind) then
        Response(ErrorResponse(verb, route.path, C403, FORBIDDEN), Answered, 0)
      else if route.kind == Static then
        Response(StaticResponse(verb, route.path, fs[route.path].content), Answered, 0)
      else Answer(verb, route, map[route.path := File(true, true, true, [])], payloadSize, rest)
  {
    if route.path in fs && Permitted(fs[route.path], route.kind) && route.kind == Dynamic {
      AnswerOfProgram(verb, route, fs, payloadSize, rest);
    }
  }

  /** stat and the mode test on the built path, then the static file or the program. */
  method ServeRoute(sock: Connection, verb: seq<byte>, route: Route, cgiArgs: array<byte>, fs: FileSystem, payloadSize: int)
    returns (outcome: Outcome)
    requires sock.Valid() && Supported(verb)
    requires |route.args| < BUF_SIZE && NoNul(route.args)
    requires cgiArgs.Length == BUF_SIZE && cgiArgs[..] == ArgsBuffer(route.args)
    modifies sock, cgiArgs
    ensures sock.Valid() && sock.input == old(sock.input)
    ensures var a := Answer(verb, route, fs, payloadSize, old(sock.Rest()));
      outcome == a.outcome && sock.output == old(sock.output) + a.output && sock.pos == old(sock.pos) + a.consumed
  {
    RouteAnswer(verb, route, fs, payloadSize, sock.Rest());
    var path := route.path;
    if path !in fs {
      ServeError(sock, verb, path, C404, NOT_FOUND);
      return Answered;
    }
    var meta := fs[path];
    if !meta.isRegular || (!meta.userRead && route.kind == Static) || (!meta.userExec && route.kind == Dynamic) {
      ServeError(sock, verb, path, C403, FORBIDDEN);
      return Answered;
    }
    if route.kind == Static {
      ServeStatic(sock, verb, path, meta.content);
      return Answered;
    }
    outcome := RunProgram(sock, verb, route, cgiArgs, payloadSize);
  }

  /** serveContent from the method check on: 501, then analyzeRequest into fresh arrays, then the route. */
  method AnswerRequest(sock: Connection, verb: seq<byte>, uri: array<byte>, fs: FileSystem, payloadSize: int)
    returns (outcome: Outcome)
    requires sock.Valid() && uri.Length == BUF_SIZE && |CStr(uri[..])| <= MAXSIZE - 3
    modifies sock, uri
    ensures sock.Valid() && sock.input == old(sock.input)
    ensures var a := Answer(verb, RouteOf(old(CStr(uri[..]))), fs, payloadSize, old(sock.Rest()));
      outcome == a.outcome && sock.output == old(sock.output) + a.output && sock.pos == old(sock.pos) + a.consumed
  {
    var u := CStr(uri[..]);
    RouteFits(u);
    if !Supported(verb) {
      ServeError(sock, verb, verb, C501, NOT_IMPLEMENTED);
      return Answered;
    }
    var route := RouteOf(u);
    var cgiArgs := AnalyzeRequest(uri);
    outcome := ServeRoute(sock, verb, route, cgiArgs, fs, payloadSize);
  }

  /** analyzeRequest(uri, fname, cgiArgs) on fresh arrays: the query lands in cgiArgs. */
  method AnalyzeRequest(uri: array<byte>) returns (cgiArgs: array<byte>)
    requires uri.Length == BUF_SIZE && |CStr(uri[..])| <= MAXSIZE - 3
    modifies uri
    ensures fresh(cgiArgs) && cgiArgs.Length == BUF_SIZE
    ensures cgiArgs[..] == ArgsBuffer(RouteOf(old(CStr(uri[..]))).args)
  {
    RouteFits(CStr(uri[..]));
    var fname := new byte[BUF_SIZE](_ => NUL);
    cgiArgs := new byte[BUF_SIZE](_ => NUL);
    assert cgiArgs[..] == Zeros(BUF_SIZE);
    var _ := ParseUri(uri, fname, cgiArgs);
    ZerosDrop(BUF_SIZE, |RouteOf(old(CStr(uri[..]))).args| + 1);
  }

  /**
   * serveContent in the child: the first fgets and sscanf on fresh arrays, the header loop,
   * then the answer. A loop left spinning ends the model with Hang and nothing written.
   */
  method ServeContent(sock: Connection, fs: FileSystem) returns (outcome: Outcome)
    requires sock.Valid()
    modifies sock
    ensures sock.Valid() && sock.input == old(sock.input)
    ensures var r := Respond(old(sock.Rest()), fs);
      outcome == r.outcome && sock.output == old(sock.output) + r.output && sock.pos == old(sock.pos) + r.consumed
  {
    ghost var input := sock.Rest();
    var uri := new byte[BUF_SIZE](_ => NUL);
    var verb, ends, payloadSize := ReadRequestHead(sock, uri);
    ghost var q := ReadRequest(input);
    DropDrop(sock.input, old(sock.pos), q.used);
    outcome := AnswerRead(sock, input, q, fs, verb, uri, ends, payloadSize);
  }

  /** serveContent after the header loop: spinning forever, or the answer from the method check on. */
  method AnswerRead(sock: Connection, ghost input: seq<byte>, ghost q: Request, fs: FileSystem,
                    verb: seq<byte>, uri: array<byte>, ends: bool, payloadSize: int)
    returns (outcome: Outcome)
    requires sock.Valid() && q.used <= |input| && |CStr(q.uri)| <= MAXSIZE - 3 && sock.Rest() == input[q.used..]
    requires verb == q.verb && uri.Length == BUF_SIZE && uri[..] == q.uri
    requires ends == q.lines.ends && payloadSize == q.lines.payloadSize
    modifies sock, uri
    ensures sock.Valid() && sock.input == old(sock.input)
    ensures var r := RespondTo(q, input, fs);
      outcome == r.outcome && sock.output == old(sock.output) + r.output && sock.pos == old(sock.pos) - q.used + r.consumed
  {
    if !ends {
      return Hang;
    }
    outcome := AnswerRequest(sock, verb, uri, fs, payloadSize);
  }

  /** The first fgets(buf, MAXSIZE, stream) and sscanf into fresh arrays, then the header loop. */
  method ReadRequestHead(sock: Connection, uri: array<byte>) returns (verb: seq<byte>, ends: bool, payloadSize: int)
    requires sock.Valid() && uri.Length == BUF_SIZE && uri[..] == Zeros(BUF_SIZE)
    modifies sock`pos, uri
    ensures sock.Valid() && sock.input == old(sock.input)
    ensures var q := ReadRequest(old(sock.Rest()));
      && verb == q.verb && uri[..] == q.uri && ends == q.lines.ends && payloadSize == q.lines.payloadSize
      && sock.pos == old(sock.pos) + q.used
  {
    ghost var input := sock.Rest();
    var buf := new byte[BUF_SIZE](_ => NUL);
    assert buf[..] == Zeros(BUF_SIZE);
    verb := ReadRequestLine(sock, buf, uri);
    ghost var rest := sock.Rest();
    DropDrop(sock.input, old(sock.pos), FirstLine(input).consumed);
    assert rest == input[FirstLine(input).consumed..];
    ends, payloadSize := SkipHeaders(sock, buf, verb);
  }

  /** The first fgets(buf, MAXSIZE, stream) and sscanf, on fresh arrays. */
  method ReadRequestLine(sock: Connection, buf: array<byte>, uri: array<byte>) returns (verb: seq<byte>)
    requires sock.Valid() && buf != uri && buf.Length == BUF_SIZE && uri.Length == BUF_SIZE
    requires buf[..] == Zeros(BUF_SIZE) && uri[..] == Zeros(BUF_SIZE)
    modifies sock`pos, buf, uri
    ensures sock.Valid() && sock.input == old(sock.input)
    ensures var first := FirstLine(old(sock.Rest()));
      && buf[..] == first.buf && sock.pos == old(sock.pos) + first.consumed
      && (verb, uri[..]) == RequestLine(CStr(first.buf))
  {
    var _ := sock.ReadLineStdio(buf, BUF_SIZE);
    verb := ScanRequestLine(buf, uri);
  }
}
