/**
 * mini_server.c's request handler: serve_content reads the request line and headers with
 * recv_line, decodes the target, routes it, and answers with serve_error, serve_static or
 * serve_dynamic over send_nbytes. The header loop is modelled twice: ScanHeaders states what
 * it computes over the bytes the client sends, ReadHeaders runs it on the buffers.
 */
module MiniServer {
  import opened Bytes
  import opened Words
  import opened CString
  import opened Socket
  import opened UriCodec
  import opened Routing
  import opened Dispatch

  /** char buffer[MAXSIZE + EOLSIZE]: the line buffer. */
  const LINE_SIZE: nat := MAXSIZE + 2
  /** char uri[MAXSIZE + 1] and the other string buffers. */
  const STR_SIZE: nat := MAXSIZE + 1

  const CONTENT_LENGTH: seq<byte> := Ascii("Content-Length:")
  const INVALID_LINE: seq<byte> := Ascii("Invalid Line")

  /** The header loop's variables between two lines (the version is read but never used). */
  datatype Head = Head(buf: seq<byte>, verb: seq<byte>, uri: seq<byte>, sizePayload: int)

  /** The buffers have their sizes, and the target fits the file name buffer with "." before it. */
  predicate HeadOk(h: Head)
  {
    |h.buf| == LINE_SIZE && |h.uri| == STR_SIZE && |CStr(h.uri)| <= MAXSIZE - 2
  }

  /** Before the first line: method[0] = '\0', size_payload = -1, buffers not yet written. */
  function Initial(): (h: Head)
    ensures HeadOk(h) && h.verb == [] && h.sizePayload == -1
  {
    Head(Zeros(LINE_SIZE), [], Zeros(STR_SIZE), -1)
  }

  /** decode_uri(uri): the decoded target, cut at a decoded NUL, then NUL; the old bytes after it. */
  function DecodedBuffer(u: seq<byte>): (r: seq<byte>)
    requires |u| == STR_SIZE && |CStr(u)| <= MAXSIZE - 2
    ensures |r| == STR_SIZE && CStr(r) == CStr(Decode(CStr(u))) && |CStr(r)| <= MAXSIZE - 2
  {
    var d := CStr(Decode(CStr(u)));
    CStrOfTerminated(d, u[|d| + 1..]);
    d + [NUL] + u[|d| + 1..]
  }

  /**
   * While no method is known: sscanf(buffer, "%s %s %s", ...) stores the first token, if any,
   * as the method and copies the second, if any, over uri; then decode_uri(uri) runs.
   */
  function RequestLineStep(line: seq<byte>, uri: seq<byte>): (r: (seq<byte>, seq<byte>))
    requires |line| <= MAXSIZE && NoNul(line)
    requires |uri| == STR_SIZE && |CStr(uri)| <= MAXSIZE - 2
    ensures |r.1| == STR_SIZE && |CStr(r.1)| <= MAXSIZE - 2
  {
    var ts := Tokens(line);
    TokensWithin(line);
    var verb := if |ts| >= 1 then ts[0] else [];
    if |ts| >= 2 then
      SecondTokenBound(line);
      var u := ts[1] + [NUL] + uri[|ts[1]| + 1..];
      CStrOfTerminated(ts[1], uri[|ts[1]| + 1..]);
      (verb, DecodedBuffer(u))
    else
      (verb, DecodedBuffer(uri))
  }

  /** For a POST: buffer[15] = '\0', then a line starting "Content-Length:" sets atoi(&buffer[16]). */
  function ContentLengthStep(buf: seq<byte>, sizePayload: int): (r: (seq<byte>, int))
    requires |buf| == LINE_SIZE
    ensures r.0 == buf[15 := NUL]
  {
    var b := buf[15 := NUL];
    if b[..15] == CONTENT_LENGTH then (b, Atoi(CStr(b[16..]))) else (b, sizePayload)
  }

  /** One pass of the loop body after recv_line has left a line in h.buf. */
  function LineStep(h: Head): (g: Head)
    requires HeadOk(h) && |CStr(h.buf)| <= MAXSIZE
    ensures HeadOk(g)
  {
    var (verb, uri) := if |h.verb| == 0 then RequestLineStep(CStr(h.buf), h.uri) else (h.verb, h.uri);
    if verb == POST then
      var (b, n) := ContentLengthStep(h.buf, h.sizePayload);
      Head(b, verb, uri, n)
    else
      Head(h.buf, verb, uri, h.sizePayload)
  }

  /** Where the header loop stops: after an empty line (ok), or at a line recv_line rejects. */
  datatype Scan = Scan(ok: bool, consumed: nat, head: Head)

  function Shift(s: Scan, d: nat): Scan
  {
    s.(consumed := s.consumed + d)
  }

  /** The header loop over the bytes still to come: a line per pass until the empty one. */
  function ScanHeaders(rest: seq<byte>, h: Head): (s: Scan)
    requires HeadOk(h)
    ensures HeadOk(s.head) && s.consumed <= |rest|
    decreases |rest|
  {
    var r := ReadLine(rest, LINE_SIZE, h.buf);
    if r.k == -1 then Scan(false, r.consumed, h.(buf := r.buf))
    else
      CStrOfTerminatedAt(r.buf, r.k);
      var g := LineStep(h.(buf := r.buf));
      if r.k == 0 then Scan(true, r.consumed, g)
      else Shift(ScanHeaders(rest[r.consumed..], g), r.consumed)
  }

  /** One pass of the header loop: the line recv_line returns, and how the loop goes on from it. */
  lemma ScanStep(rest: seq<byte>, h: Head)
    requires HeadOk(h)
    ensures var r := ReadLine(rest, LINE_SIZE, h.buf);
      && (r.k >= 0 ==> |CStr(r.buf)| <= MAXSIZE && r.consumed == r.k + 2)
      && (r.k == -1 ==> ScanHeaders(rest, h) == Scan(false, r.consumed, h.(buf := r.buf)))
      && (r.k == 0 ==> ScanHeaders(rest, h) == Scan(true, r.consumed, LineStep(h.(buf := r.buf))))
      && (r.k > 0 ==>
        ScanHeaders(rest, h) == Shift(ScanHeaders(rest[r.consumed..], LineStep(h.(buf := r.buf))), r.consumed))
  {
    var r := ReadLine(rest, LINE_SIZE, h.buf);
    if r.k >= 0 {
      CStrOfTerminatedAt(r.buf, r.k);
    }
  }

  /** Once a method is known no later line changes it. */
  lemma {:induction false} ScanKeepsVerb(rest: seq<byte>, h: Head)
    requires HeadOk(h) && |h.verb| > 0
    ensures ScanHeaders(rest, h).head.verb == h.verb
    decreases |rest|
  {
    var r := ReadLine(rest, LINE_SIZE, h.buf);
    if r.k > 0 {
      CStrOfTerminatedAt(r.buf, r.k);
      ScanKeepsVerb(rest[r.consumed..], LineStep(h.(buf := r.buf)));
    }
  }

  /** Only a POST reads Content-Length: for any other method size_payload stays as it was. */
  lemma {:induction false} NoLengthUnlessPost(rest: seq<byte>, h: Head)
    requires HeadOk(h) && h.verb != POST && ScanHeaders(rest, h).head.verb != POST
    ensures ScanHeaders(rest, h).head.sizePayload == h.sizePayload
    decreases |rest|
  {
    var r := ReadLine(rest, LINE_SIZE, h.buf);
    if r.k >= 0 {
      CStrOfTerminatedAt(r.buf, r.k);
      var g := LineStep(h.(buf := r.buf));
      if g.verb == POST {
        MethodsDistinct();
        assert |g.verb| > 0;
        if r.k > 0 {
          ScanKeepsVerb(rest[r.consumed..], g);
        }
      }
      if r.k > 0 {
        NoLengthUnlessPost(rest[r.consumed..], g);
      }
    }
  }

  /**
   * Where the header loop stops depends on the bytes alone, not on what the lines say:
   * whether it ends at an empty line, and how many bytes it has taken by then.
   */
  function ScanExtent(rest: seq<byte>): (r: (bool, nat))
    ensures r.1 <= |rest|
    decreases |rest|
  {
    match FirstLineEnd(rest, LINE_SIZE)
    case None => (false, Min(LINE_SIZE, |rest|))
    case Some(e) =>
      if e == 1 then (true, 2)
      else
        var t := ScanExtent(rest[e + 1..]);
        (t.0, e + 1 + t.1)
  }

  /** The header loop stops where ScanExtent says, whatever the buffers held before. */
  lemma {:induction false} ScanExtentOf(rest: seq<byte>, h: Head)
    requires HeadOk(h)
    ensures ScanHeaders(rest, h).ok == ScanExtent(rest).0
    ensures ScanHeaders(rest, h).consumed == ScanExtent(rest).1
    decreases |rest|
  {
    ScanStep(rest, h);
    var r := ReadLine(rest, LINE_SIZE, h.buf);
    if r.k > 0 {
      ScanExtentOf(rest[r.consumed..], LineStep(h.(buf := r.buf)));
    }
  }

  /** The first c bytes of s end with CR LF that opens s or follows an LF: an empty line. */
  predicate EndsWithEmptyLine(s: seq<byte>, c: nat)
  {
    2 <= c <= |s| && s[c - 2] == CR && s[c - 1] == LF && (c == 2 || s[c - 3] == LF)
  }

  /** The bytes alone end the loop only right after CR LF that follows a line end or opens the input. */
  lemma {:induction false} ExtentEndsAtEmptyLine(rest: seq<byte>)
    requires ScanExtent(rest).0
    ensures EndsWithEmptyLine(rest, ScanExtent(rest).1)
    decreases |rest|
  {
    var e := FirstLineEnd(rest, LINE_SIZE).value;
    LineEndAt(rest, e);
    if e > 1 {
      var t := rest[e + 1..];
      ExtentEndsAtEmptyLine(t);
      EmptyLineShift(rest, e + 1, ScanExtent(t).1);
    }
  }

  /** The matcher completes only on an LF right after a CR. */
  lemma LineEndAt(s: seq<byte>, e: nat)
    requires EndsLineAt(s, e)
    ensures 1 <= e && s[e - 1] == CR && s[e] == LF
  {
    assert s[..e][e - 1] == s[e - 1];
  }

  /** The loop stops right after CR LF that follows a line end (or opens the input): an empty line. */
  lemma ScanEndsAtEmptyLine(rest: seq<byte>, h: Head)
    requires HeadOk(h) && ScanHeaders(rest, h).ok
    ensures var c := ScanHeaders(rest, h).consumed;
      c >= 2 && rest[c - 2] == CR && rest[c - 1] == LF && (c == 2 || rest[c - 3] == LF)
  {
    ScanExtentOf(rest, h);
    ExtentEndsAtEmptyLine(rest);
  }

  /** An empty line found in rest[d..], just after a line end, sits at the same place in rest. */
  lemma EmptyLineShift(rest: seq<byte>, d: nat, c: nat)
    requires 1 <= d <= |rest| && rest[d - 1] == LF && EndsWithEmptyLine(rest[d..], c)
    ensures EndsWithEmptyLine(rest, d + c)
  {
    var t := rest[d..];
    assert t[c - 2] == rest[d + c - 2] && t[c - 1] == rest[d + c - 1];
    if c > 2 {
      assert t[c - 3] == rest[d + c - 3];
    }
  }

  /** recv_line on a line with no LF and no CR at its end: the C string left in the buffer is the line. */
  lemma ReadPlainLine(line: seq<byte>, more: seq<byte>, buf: seq<byte>)
    requires LF !in line && TrailingCRs(line) == 0 && NoNul(line) && |line| <= MAXSIZE && |buf| == LINE_SIZE
    ensures var r := ReadLine(line + EOL + more, LINE_SIZE, buf);
      r.k == |line| && r.consumed == |line| + 2 && r.buf[|line|] == NUL && CStr(r.buf) == line
  {
    ReadLineOfPlainLine(line, more, LINE_SIZE, buf);
    var r := ReadLine(line + EOL + more, LINE_SIZE, buf);
    CStrOfTerminatedAt(r.buf, |line|);
    CStrOfNoNul(line);
  }

  /** sscanf on a line of three words: the method is the first, the target is copied over uri and decoded. */
  lemma RequestLineStepOfWords(line: seq<byte>, verb: seq<byte>, target: seq<byte>, version: seq<byte>, uri: seq<byte>)
    requires Tokens(line) == [verb, target, version] && |line| <= MAXSIZE && NoNul(line)
    requires |uri| == STR_SIZE && |CStr(uri)| <= MAXSIZE - 2
    ensures RequestLineStep(line, uri).0 == verb
    ensures CStr(RequestLineStep(line, uri).1) == CStr(Decode(target))
  {
    TokensWithin(line);
    SecondTokenBound(line);
    CStrOfTerminated(target, uri[|target| + 1..]);
  }

  /** A request line whose words are a method, a target and a version: sscanf picks out the first two. */
  lemma RequestLineOfWords(line: seq<byte>, verb: seq<byte>, target: seq<byte>, version: seq<byte>, h: Head)
    requires Tokens(line) == [verb, target, version] && IsPrefix(verb, line) && |verb| > 0
    requires HeadOk(h) && h.verb == [] && |CStr(h.buf)| <= MAXSIZE && CStr(h.buf) == line
    ensures LineStep(h).verb == verb && CStr(LineStep(h).uri) == CStr(Decode(target))
    ensures LineStep(h).sizePayload == h.sizePayload
  {
    RequestLineStepOfWords(line, verb, target, version, h.uri);
    if verb == POST {
      assert h.buf[0] == line[0] == verb[0] == 80;
      assert CONTENT_LENGTH[0] == 67;
      assert h.buf[15 := NUL][..15][0] == h.buf[0];
    }
  }

  /** The empty line after the method is known changes neither the method nor size_payload. */
  lemma EmptyLineKeepsHead(h: Head)
    requires HeadOk(h) && |h.verb| > 0 && h.buf[0] == NUL
    ensures LineStep(h).verb == h.verb && LineStep(h).sizePayload == h.sizePayload
  {
    if h.verb == POST {
      assert CONTENT_LENGTH[0] == 67;
      assert h.buf[15 := NUL][..15][0] == NUL;
    }
  }

  /**
   * A well-formed request line followed by an empty line: the words it holds become the
   * method and the decoded target, no Content-Length is seen, and the loop consumes both lines.
   */
  lemma WellFormedRequest(verb: seq<byte>, target: seq<byte>, version: seq<byte>, body: seq<byte>)
    requires IsWord(verb) && IsWord(target) && IsWord(version)
    requires NoNul(verb + [SP] + target + [SP] + version)
    requires |verb + [SP] + target + [SP] + version| <= MAXSIZE
    ensures var line := verb + [SP] + target + [SP] + version;
      var s := ScanHeaders(line + EOL + (EOL + body), Initial());
      && s.ok && s.consumed == |line| + 4 && s.head.verb == verb
      && CStr(s.head.uri) == CStr(Decode(target)) && s.head.sizePayload == -1
  {
    var line := verb + [SP] + target + [SP] + version;
    var h0 := Initial();
    PlainRequestLine(verb, target, version);
    ScanPlainLine(line, EOL + body, h0);
    var r := ReadLine(line + EOL + (EOL + body), LINE_SIZE, h0.buf);
    TokensOfThreeWords(verb, target, version, []);
    assert line + [] == line;
    RequestLineOfWords(line, verb, target, version, h0.(buf := r.buf));
    ScanEmptyLine(body, LineStep(h0.(buf := r.buf)));
  }

  /** "Content-Length: N", the header line a client sends for a body of N bytes. */
  function LengthField(n: nat): (f: seq<byte>)
    ensures |f| == 16 + |Dec(n)| && f[..15] == CONTENT_LENGTH && f[16..] == Dec(n)
    ensures LF !in f && TrailingCRs(f) == 0 && NoNul(f)
  {
    var f := CONTENT_LENGTH + [SP] + Dec(n);
    assert CONTENT_LENGTH == [67, 111, 110, 116, 101, 110, 116, 45, 76, 101, 110, 103, 116, 104, 58];
    assert f[..15] == CONTENT_LENGTH && f[16..] == Dec(n);
    assert forall i :: 0 <= i < |f| ==> f[i] != LF && f[i] != NUL && f[i] != CR by {
      forall i | 0 <= i < |f| ensures f[i] != LF && f[i] != NUL && f[i] != CR {
        if i >= 16 { assert f[i] == Dec(n)[i - 16]; }
      }
    }
    f
  }

  /** For a POST, "Content-Length: N" and then the empty line: the loop stops with size_payload = N. */
  lemma ScanLengthField(n: nat, body: seq<byte>, g: Head)
    requires HeadOk(g) && g.verb == POST && |LengthField(n)| <= MAXSIZE
    ensures var s := ScanHeaders(LengthField(n) + EOL + (EOL + body), g);
      && s.ok && s.consumed == |LengthField(n)| + 4 && s.head.verb == POST && s.head.uri == g.uri
      && s.head.sizePayload == n
  {
    var field := LengthField(n);
    ScanPlainLine(field, EOL + body, g);
    ReadPlainLine(field, EOL + body, g.buf);
    var r := ReadLine(field + EOL + (EOL + body), LINE_SIZE, g.buf);
    LengthFieldReadsBack(n, r.buf, g.sizePayload);
    ScanEmptyLine(body, LineStep(g.(buf := r.buf)));
  }

  /** The buffer recv_line leaves after "Content-Length: N\r\n": strncmp matches and atoi reads N. */
  lemma LengthFieldReadsBack(n: nat, buf: seq<byte>, sizePayload: int)
    requires |buf| == LINE_SIZE && |LengthField(n)| < LINE_SIZE
    requires buf[..|LengthField(n)|] == LengthField(n) && buf[|LengthField(n)|] == NUL
    ensures ContentLengthStep(buf, sizePayload).1 == n
  {
    var field := LengthField(n);
    var digits := buf[16..];
    assert digits[..|Dec(n)|] == field[16..] == Dec(n);
    assert digits[|Dec(n)|] == NUL;
    CStrOfTerminatedAt(digits, |Dec(n)|);
    assert NoNul(Dec(n)) by {
      forall i | 0 <= i < |Dec(n)| ensures Dec(n)[i] != NUL { assert field[16 + i] == Dec(n)[i]; }
    }
    CStrOfNoNul(Dec(n));
    assert buf[..15] == field[..15];
    ContentLengthReadsBack(buf, n, sizePayload);
  }

  /**
   * A POST with one Content-Length header: the loop reads the request line, then the header,
   * and stops at the empty line with the method, the decoded target and size_payload = N.
   */
  lemma PostWithLengthRequest(target: seq<byte>, version: seq<byte>, n: nat, body: seq<byte>)
    requires IsWord(target) && IsWord(version)
    requires NoNul(POST + [SP] + target + [SP] + version)
    requires |POST + [SP] + target + [SP] + version| <= MAXSIZE && |LengthField(n)| <= MAXSIZE
    ensures var line := POST + [SP] + target + [SP] + version;
      var s := ScanHeaders(line + EOL + (LengthField(n) + EOL + (EOL + body)), Initial());
      && s.ok && s.consumed == |line| + |LengthField(n)| + 6 && s.head.verb == POST
      && CStr(s.head.uri) == CStr(Decode(target)) && s.head.sizePayload == n
  {
    assert POST == [80, 79, 83, 84];
    var g := RequestLinePass(POST, target, version, LengthField(n) + EOL + (EOL + body));
    ScanLengthField(n, body, g);
  }

  /** The first pass over a request line of three words: the state the loop goes on from. */
  lemma RequestLinePass(verb: seq<byte>, target: seq<byte>, version: seq<byte>, more: seq<byte>) returns (g: Head)
    requires IsWord(verb) && IsWord(target) && IsWord(version)
    requires NoNul(verb + [SP] + target + [SP] + version)
    requires |verb + [SP] + target + [SP] + version| <= MAXSIZE
    ensures var line := verb + [SP] + target + [SP] + version;
      && HeadOk(g) && g.verb == verb && CStr(g.uri) == CStr(Decode(target)) && g.sizePayload == -1
      && ScanHeaders(line + EOL + more, Initial()) == Shift(ScanHeaders(more, g), |line| + 2)
  {
    var line := verb + [SP] + target + [SP] + version;
    var h0 := Initial();
    PlainRequestLine(verb, target, version);
    ScanPlainLine(line, more, h0);
    var r := ReadLine(line + EOL + more, LINE_SIZE, h0.buf);
    TokensOfThreeWords(verb, target, version, []);
    assert line + [] == line;
    RequestLineOfWords(line, verb, target, version, h0.(buf := r.buf));
    g := LineStep(h0.(buf := r.buf));
  }

  /** A request line of words and single spaces holds no LF and does not end in CR. */
  lemma PlainRequestLine(verb: seq<byte>, target: seq<byte>, version: seq<byte>)
    requires IsWord(verb) && IsWord(target) && IsWord(version)
    ensures var line := verb + [SP] + target + [SP] + version;
      LF !in line && TrailingCRs(line) == 0
  {
    var line := verb + [SP] + target + [SP] + version;
    forall i | 0 <= i < |line| ensures line[i] != LF && line[i] != CR {
      RequestLineByte(verb, target, version, i);
    }
    assert line[|line| - 1] != CR;
  }

  /** A non-empty plain line and its CR LF make one pass of the loop, which goes on with what follows. */
  lemma ScanPlainLine(line: seq<byte>, more: seq<byte>, h: Head)
    requires HeadOk(h) && LF !in line && TrailingCRs(line) == 0 && NoNul(line) && 0 < |line| <= MAXSIZE
    ensures var r := ReadLine(line + EOL + more, LINE_SIZE, h.buf);
      && CStr(r.buf) == line && |CStr(r.buf)| <= MAXSIZE
      && ScanHeaders(line + EOL + more, h) == Shift(ScanHeaders(more, LineStep(h.(buf := r.buf))), |line| + 2)
  {
    ReadPlainLine(line, more, h.buf);
    assert (line + EOL + more)[|line| + 2..] == more;
  }

  /** The empty line, once the method is known, ends the loop and keeps method, target and size_payload. */
  lemma ScanEmptyLine(body: seq<byte>, g: Head)
    requires HeadOk(g) && |g.verb| > 0
    ensures var s := ScanHeaders(EOL + body, g);
      && s.ok && s.consumed == 2 && s.head.verb == g.verb && s.head.uri == g.uri
      && s.head.sizePayload == g.sizePayload
  {
    assert [] + EOL + body == EOL + body;
    CStrOfNoNul([]);
    ReadPlainLine([], body, g.buf);
    var r := ReadLine(EOL + body, LINE_SIZE, g.buf);
    EmptyLineKeepsHead(g.(buf := r.buf));
  }

  /** No byte of a request line made of words and single spaces is CR or LF. */
  lemma RequestLineByte(a: seq<byte>, b: seq<byte>, c: seq<byte>, i: nat)
    requires IsWord(a) && IsWord(b) && IsWord(c) && i < |a + [SP] + b + [SP] + c|
    ensures (a + [SP] + b + [SP] + c)[i] != LF && (a + [SP] + b + [SP] + c)[i] != CR
  {
    var line := a + [SP] + b + [SP] + c;
    if i < |a| { assert line[i] == a[i]; }
    else if i == |a| { }
    else if i < |a| + 1 + |b| { assert line[i] == b[i - |a| - 1]; }
    else if i == |a| + 1 + |b| { }
    else { assert line[i] == c[i - |a| - 2 - |b|]; }
  }

  /** "Content-Length: N" read by a POST: atoi of the bytes after the space gives N back. */
  lemma ContentLengthReadsBack(buf: seq<byte>, n: nat, sizePayload: int)
    requires |buf| == LINE_SIZE && buf[..15] == CONTENT_LENGTH && CStr(buf[16..]) == Dec(n)
    ensures ContentLengthStep(buf, sizePayload).1 == n
  {
    var b := buf[15 := NUL];
    assert b[..15] == buf[..15] && b[16..] == buf[16..];
    AtoiDec(n, []);
    assert Dec(n) + [] == Dec(n);
  }

  /** "Content-Length:7", with no space: byte 15 is cut and atoi sees the line's end, so 0. */
  lemma GluedLengthReadsZero(buf: seq<byte>, sizePayload: int)
    requires |buf| == LINE_SIZE && buf[..15] == CONTENT_LENGTH && buf[16] == NUL
    ensures ContentLengthStep(buf, sizePayload).1 == 0
  {
    var b := buf[15 := NUL];
    assert b[..15] == buf[..15] && b[16..][0] == NUL;
  }

  /** The header name is compared case-sensitively: "content-length: 7" leaves size_payload alone. */
  lemma LowerCaseLengthIgnored(buf: seq<byte>, sizePayload: int)
    requires |buf| == LINE_SIZE && buf[0] == 'c' as int as byte
    ensures ContentLengthStep(buf, sizePayload).1 == sizePayload
  {
    assert CONTENT_LENGTH[0] == 'C' as int as byte;
    assert buf[15 := NUL][..15][0] == buf[0];
  }

  /**
   * strncmp(buffer, "Content-Length:", 15) matches only a line that starts with the name: a
   * shorter line has its NUL before byte 15, so the bytes left from earlier lines never count.
   */
  lemma ContentLengthNeedsName(buf: seq<byte>, sizePayload: int, k: nat)
    requires |buf| == LINE_SIZE && k < LINE_SIZE && buf[k] == NUL && !IsPrefix(CONTENT_LENGTH, buf[..k])
    ensures ContentLengthStep(buf, sizePayload).1 == sizePayload
  {
    var b := buf[15 := NUL];
    if k < 15 {
      assert CONTENT_LENGTH == [67, 111, 110, 116, 101, 110, 116, 45, 76, 101, 110, 103, 116, 104, 58];
      assert b[..15][k] == NUL != CONTENT_LENGTH[k];
    } else {
      assert b[..15] == buf[..k][..15];
    }
  }

  /**
   * The whole header loop: when no "Content-Length:" appears anywhere in what the client sends,
   * size_payload ends as it began (-1 from Initial), whatever the method.
   */
  lemma {:induction false} NoLengthLineKeepsSize(rest: seq<byte>, h: Head)
    requires HeadOk(h) && !Contains(rest, CONTENT_LENGTH)
    ensures ScanHeaders(rest, h).head.sizePayload == h.sizePayload
    decreases |rest|
  {
    ReadLineCases(rest, LINE_SIZE, h.buf);
    var r := ReadLine(rest, LINE_SIZE, h.buf);
    if r.k >= 0 {
      CStrOfTerminatedAt(r.buf, r.k);
      PrefixContains(rest, CONTENT_LENGTH, r.k);
      ContentLengthNeedsName(r.buf, h.sizePayload, r.k);
      var g := LineStep(h.(buf := r.buf));
      assert g.sizePayload == h.sizePayload;
      if r.k > 0 {
        ContainsOfDrop(rest, CONTENT_LENGTH, r.consumed);
        NoLengthLineKeepsSize(rest[r.consumed..], g);
      }
    }
  }

  /** A client that ends its lines with LF alone never completes one: 400 Bad Request. */
  lemma LfOnlyRequestIsBadRequest(input: seq<byte>, fs: FileSystem)
    requires CR !in input
    ensures Respond(input, fs) == Response(ErrorResponse([], INVALID_LINE, C400, BAD_REQUEST), Answered, Min(LINE_SIZE, |input|))
  {
    forall i | 0 <= i < |input| ensures !EndsLineAt(input, i) {
      if |input[..i]| > 0 { assert input[..i][|input[..i]| - 1] == input[i - 1]; }
    }
    var r := ReadLine(input, LINE_SIZE, Initial().buf);
    assert r.k == -1;
  }

  // ---------------------------------------------------------------------------------------
  // The response bytes.

  const CRLF: seq<byte> := [CR, LF]
  const HTTP_VERSION: seq<byte> := Ascii("HTTP/1.1 ")
  const ERROR_HEADERS: seq<byte> := Ascii("Server: Minimal HTTP Server\r\nContent-Type: text/html\r\n\r\n")
  const ERROR_BODY_OPEN: seq<byte> := Ascii("<html><head><title>Web Server Error</title></head><body><h1>")
  const OK_HEADERS: seq<byte> := Ascii("HTTP/1.1 200 OK\r\nServer: Minimal HTTP Server\r\n")
  const DYNAMIC_HEADERS: seq<byte> := Ascii("HTTP/1.1 200 OK\r\nServer: Minimal HTTP Server\r\n\r\n")
  const CONTENT_TYPE_FIELD: seq<byte> := Ascii("Content-Type: ")
  const CONTENT_LENGTH_FIELD: seq<byte> := Ascii("\r\nContent-Length: ")
  const END_OF_HEADERS: seq<byte> := Ascii("\r\n\r\n")

  /** "HTTP/1.1 %s %s\r\n" */
  function StatusLine(code: seq<byte>, msg: seq<byte>): seq<byte>
  {
    HTTP_VERSION + code + [SP] + msg + CRLF
  }

  /** "%s: %s</h1><p>%s</p></body></html>\r\n" */
  function ErrorBodyLine(code: seq<byte>, msg: seq<byte>, cause: seq<byte>): seq<byte>
  {
    code + Ascii(": ") + msg + Ascii("</h1><p>") + cause + Ascii("</p></body></html>\r\n")
  }

  /** The error page: the fixed opening, then the line with the code, message and cause. */
  function ErrorPage(code: seq<byte>, msg: seq<byte>, cause: seq<byte>): seq<byte>
  {
    ERROR_BODY_OPEN + ErrorBodyLine(code, msg, cause)
  }

  /** serve_error: status line and headers, then, except for HEAD, the page naming the cause. */
  function ErrorResponse(verb: seq<byte>, cause: seq<byte>, code: seq<byte>, msg: seq<byte>): (r: seq<byte>)
    ensures IsPrefix(StatusLine(code, msg) + ERROR_HEADERS, r)
  {
    StatusLine(code, msg) + ERROR_HEADERS + (if verb == HEAD then [] else ErrorPage(code, msg, cause))
  }

  /** "Content-Type: %s", the type check_ftype picks. */
  function TypeField(path: seq<byte>): seq<byte>
  {
    CONTENT_TYPE_FIELD + MimeType(path)
  }

  /** The number after "Content-Length: " and the end of the headers. */
  function LengthValue(size: nat): seq<byte>
  {
    Dec(size) + END_OF_HEADERS
  }

  /** What serve_static formats into its second header buffer. */
  function StaticFields(path: seq<byte>, size: nat): seq<byte>
  {
    TypeField(path) + (CONTENT_LENGTH_FIELD + LengthValue(size))
  }

  /** serve_static's headers: type from the table, length in decimal, then the empty line. */
  function StaticHeaders(path: seq<byte>, size: nat): seq<byte>
  {
    OK_HEADERS + StaticFields(path, size)
  }

  /**
   * serve_static: the headers, then, except for HEAD, the file's bytes. An empty file cannot be
   * mapped (mmap refuses a length of 0), so it gets a 404 page after the 200 headers.
   */
  function StaticResponse(verb: seq<byte>, path: seq<byte>, content: seq<byte>): (r: seq<byte>)
    ensures IsPrefix(StaticHeaders(path, |content|), r)
  {
    StaticHeaders(path, |content|)
      + (if verb == HEAD then [] else if |content| == 0 then ErrorResponse(verb, path, C404, NOT_FOUND) else content)
  }

  /** The empty file: 200 and "Content-Length: 0", then a 404 page the client reads as a second response. */
  lemma EmptyFileGetsTwoResponses(verb: seq<byte>, path: seq<byte>)
    requires verb != HEAD
    ensures var r := StaticResponse(verb, path, []);
      var h := StaticHeaders(path, 0);
      IsPrefix(h, r) && IsPrefix(StatusLine(C404, NOT_FOUND), r[|h|..]) && Contains(r[|h|..], path)
  {
    var h := StaticHeaders(path, 0);
    var e := ErrorResponse(verb, path, C404, NOT_FOUND);
    var r := StaticResponse(verb, path, []);
    assert r == h + e;
    assert r[|h|..] == e;
    ErrorPageNamesCause(verb, path, C404, NOT_FOUND);
    var line := StatusLine(C404, NOT_FOUND);
    assert IsPrefix(line + ERROR_HEADERS, e);
    assert e[..|line|] == (line + ERROR_HEADERS)[..|line|] == line;
  }

  /** A HEAD request gets exactly the headers a GET gets, and nothing after them. */
  lemma HeadIsGetWithoutBody(path: seq<byte>, content: seq<byte>, cause: seq<byte>, code: seq<byte>, msg: seq<byte>)
    ensures StaticResponse(HEAD, path, content) == StaticHeaders(path, |content|)
    ensures |content| > 0 ==> StaticResponse(GET, path, content) == StaticHeaders(path, |content|) + content
    ensures ErrorResponse(HEAD, cause, code, msg) == StatusLine(code, msg) + ERROR_HEADERS
    ensures IsPrefix(ErrorResponse(HEAD, cause, code, msg), ErrorResponse(GET, cause, code, msg))
  {
    MethodsDistinct();
  }

  /** The error page of any method but HEAD names its cause: the path for 404 and 403. */
  lemma ErrorPageNamesCause(verb: seq<byte>, cause: seq<byte>, code: seq<byte>, msg: seq<byte>)
    requires verb != HEAD
    ensures Contains(ErrorResponse(verb, cause, code, msg), cause)
  {
    var tail := Ascii("</p></body></html>\r\n");
    var line := ErrorBodyLine(code, msg, cause);
    var pre := code + Ascii(": ") + msg + Ascii("</h1><p>");
    assert line == pre + cause + tail;
    ContainsInConcat(pre, cause, tail);
    var front := StatusLine(code, msg) + ERROR_HEADERS + ERROR_BODY_OPEN;
    assert ErrorResponse(verb, cause, code, msg) == front + line + [] by {
      Assoc(StatusLine(code, msg) + ERROR_HEADERS, ERROR_BODY_OPEN, line);
    }
    ContainsGrows(front, line, [], cause);
  }

  /** An occurrence inside b is an occurrence inside a + b + c. */
  lemma ContainsGrows(a: seq<byte>, b: seq<byte>, c: seq<byte>, pat: seq<byte>)
    requires Contains(b, pat)
    ensures Contains(a + b + c, pat)
  {
    var i := ContainsWitness(b, pat);
    assert (a + b + c)[|a| + i..|a| + i + |pat|] == b[i..i + |pat|];
    ContainsAt(a + b + c, pat, |a| + i);
  }

  /**
   * The headers end with the Content-Length field, whose value atoi reads back as the number
   * of body bytes that follow the headers.
   */
  lemma ContentLengthIsBodyLength(path: seq<byte>, content: seq<byte>)
    requires |content| > 0
    ensures var h := StaticHeaders(path, |content|);
      var v := LengthValue(|content|);
      && h[|h| - |v|..] == v && h[|h| - |v| - |CONTENT_LENGTH_FIELD|..|h| - |v|] == CONTENT_LENGTH_FIELD
      && Atoi(v) == |content| == |StaticResponse(GET, path, content)| - |h|
  {
    var n := |content|;
    LastPieces(OK_HEADERS, TypeField(path), CONTENT_LENGTH_FIELD, LengthValue(n));
    LengthValueReadsBack(n);
    MethodsDistinct();
    assert StaticResponse(GET, path, content) == StaticHeaders(path, n) + content;
  }

  /** atoi stops at the CR that ends the Content-Length line. */
  lemma LengthValueReadsBack(n: nat)
    ensures Atoi(LengthValue(n)) == n
  {
    assert END_OF_HEADERS[0] == CR;
    AtoiDec(n, END_OF_HEADERS);
  }

  // ---------------------------------------------------------------------------------------
  // The whole exchange.

  /**
   * serve_content after the header loop: the verdict, and for a CGI program its headers and,
   * unless HEAD, the program with QUERY_STRING from the target or, for POST, from the body.
   */
  function Answer(verb: seq<byte>, route: Route, fs: FileSystem, sizePayload: int, rest: seq<byte>): (r: Response)
    ensures r.consumed <= |rest|
  {
    match Decide(verb, route, fs, sizePayload)
    case Reject(cause, code, msg) => Response(ErrorResponse(verb, cause, code, msg), Answered, 0)
    case ServeFile(path, content) => Response(StaticResponse(verb, path, content), Answered, 0)
    case RunCgi(path, readsBody) =>
      if !readsBody then
        Response(DYNAMIC_HEADERS, if verb == HEAD then Answered else Exec(path, route.args), 0)
      else if sizePayload > MAXSIZE then Response([], Overrun, 0)
      else
        var body := rest[..Min(Max(sizePayload, 0), |rest|)];
        Response(DYNAMIC_HEADERS, Exec(path, CStr(body)), |body|)
  }

  /** serve_content for a connection whose client sends input. */
  function Respond(input: seq<byte>, fs: FileSystem): (r: Response)
    ensures r.consumed <= |input|
  {
    RespondTo(ScanHeaders(input, Initial()), input, fs)
  }

  /** serve_content once the header loop has stopped as s says. */
  function RespondTo(s: Scan, input: seq<byte>, fs: FileSystem): (r: Response)
    requires HeadOk(s.head) && s.consumed <= |input|
    ensures r.consumed <= |input|
  {
    if !s.ok then Response(ErrorResponse(s.head.verb, INVALID_LINE, C400, BAD_REQUEST), Answered, s.consumed)
    else
      var a := Answer(s.head.verb, RouteOf(CStr(s.head.uri)), fs, s.head.sizePayload, input[s.consumed..]);
      a.(consumed := s.consumed + a.consumed)
  }

  /** The handler always finishes: it answers, starts a program, or overruns; it never loops. */
  lemma RespondNeverHangs(input: seq<byte>, fs: FileSystem)
    ensures Respond(input, fs).outcome != Hang
  {
  }

  /** A HEAD request is always answered in full, and no program is ever started for it. */
  lemma HeadIsAlwaysAnswered(input: seq<byte>, fs: FileSystem)
    requires ScanHeaders(input, Initial()).head.verb == HEAD
    ensures Respond(input, fs).outcome == Answered
  {
    MethodsDistinct();
  }

  /** After the header loop, a supported method on a path stat cannot find gets 404 naming the path. */
  lemma AnswerMissingFile(verb: seq<byte>, route: Route, fs: FileSystem, sizePayload: int, rest: seq<byte>)
    requires Supported(verb) && route.path !in fs
    ensures Answer(verb, route, fs, sizePayload, rest)
      == Response(ErrorResponse(verb, route.path, C404, NOT_FOUND), Answered, 0)
  {
  }

  /** A GET or POST of a path that is not there is answered 404 with a page naming the path. */
  lemma MissingFileIsNotFound(input: seq<byte>, fs: FileSystem)
    requires var s := ScanHeaders(input, Initial());
      s.ok && (s.head.verb == GET || s.head.verb == POST) && RouteOf(CStr(s.head.uri)).path !in fs
    ensures var s := ScanHeaders(input, Initial());
      var r := Respond(input, fs);
      && r.outcome == Answered && Contains(r.output, RouteOf(CStr(s.head.uri)).path)
      && IsPrefix(StatusLine(C404, NOT_FOUND) + ERROR_HEADERS, r.output)
  {
    var s := ScanHeaders(input, Initial());
    var route := RouteOf(CStr(s.head.uri));
    MethodsDistinct();
    AnswerMissingFile(s.head.verb, route, fs, s.head.sizePayload, input[s.consumed..]);
    ErrorPageNamesCause(s.head.verb, route.path, C404, NOT_FOUND);
  }

  // ---------------------------------------------------------------------------------------
  // The handler on its buffers.

  /** sscanf on the request line and decode_uri(uri), while no method is known. */
  method ScanRequestLine(buffer: array<byte>, uri: array<byte>) returns (verb: seq<byte>)
    requires buffer != uri && |CStr(buffer[..])| <= MAXSIZE
    requires uri.Length == STR_SIZE && |CStr(uri[..])| <= MAXSIZE - 2
    modifies uri
    ensures (verb, uri[..]) == RequestLineStep(CStr(buffer[..]), old(uri[..]))
  {
    var line := CStr(buffer[..]);
    var ts := Tokens(line);
    TokensWithin(line);
    verb := if |ts| >= 1 then ts[0] else [];
    if |ts| >= 2 {
      SecondTokenBound(line);
      StrCpy(uri, ts[1]);
    }
    ghost var copied := uri[..];
    RequestLineStepOf(line, old(uri[..]), copied);
    DecodeUri(uri);
    assert uri[..] == DecodedBuffer(copied);
  }

  /** RequestLineStep as ScanRequestLine computes it: the method, and the second word copied, then decoded. */
  lemma RequestLineStepOf(line: seq<byte>, uri: seq<byte>, copied: seq<byte>)
    requires |line| <= MAXSIZE && NoNul(line)
    requires |uri| == STR_SIZE && |CStr(uri)| <= MAXSIZE - 2
    requires var ts := Tokens(line);
      copied == if |ts| >= 2 && |ts[1]| < |uri| then ts[1] + [NUL] + uri[|ts[1]| + 1..] else uri
    ensures |copied| == STR_SIZE && |CStr(copied)| <= MAXSIZE - 2
    ensures var ts := Tokens(line);
      RequestLineStep(line, uri) == (if |ts| >= 1 then ts[0] else [], DecodedBuffer(copied))
  {
    var ts := Tokens(line);
    TokensWithin(line);
    if |ts| >= 2 {
      SecondTokenBound(line);
      CStrOfTerminated(ts[1], uri[|ts[1]| + 1..]);
    }
  }

  /** For a POST: buffer[15] = '\0' and, when the line is "Content-Length:...", atoi(&buffer[16]). */
  method ReadContentLength(buffer: array<byte>, sizePayload: int) returns (sizePayload': int)
    requires buffer.Length == LINE_SIZE
    modifies buffer
    ensures (buffer[..], sizePayload') == ContentLengthStep(old(buffer[..]), sizePayload)
  {
    buffer[15] := NUL;
    sizePayload' := sizePayload;
    if buffer[..15] == CONTENT_LENGTH {
      sizePayload' := Atoi(CStr(buffer[16..]));
    }
  }

  /** The loop body after recv_line: the request line while no method is known, then Content-Length. */
  method ApplyLine(buffer: array<byte>, uri: array<byte>, verb: seq<byte>, sizePayload: int)
    returns (verb': seq<byte>, sizePayload': int)
    requires buffer != uri && HeadOk(Head(buffer[..], verb, uri[..], sizePayload))
    requires |CStr(buffer[..])| <= MAXSIZE
    modifies buffer, uri
    ensures Head(buffer[..], verb', uri[..], sizePayload')
      == LineStep(Head(old(buffer[..]), verb, old(uri[..]), sizePayload))
  {
    verb', sizePayload' := verb, sizePayload;
    if |verb| == 0 {
      verb' := ScanRequestLine(buffer, uri);
    }
    if verb' == POST {
      sizePayload' := ReadContentLength(buffer, sizePayload);
    }
  }

  /** serve_content's header loop: while(length) { length = recv_line(...); ... }. */
  method ReadHeaders(sock: Connection, buffer: array<byte>, uri: array<byte>)
    returns (ok: bool, verb: seq<byte>, sizePayload: int)
    requires sock.Valid() && buffer != uri && HeadOk(Head(buffer[..], [], uri[..], -1))
    modifies sock`pos, buffer, uri
    ensures sock.Valid() && sock.input == old(sock.input)
    ensures var s := ScanHeaders(old(sock.Rest()), Head(old(buffer[..]), [], old(uri[..]), -1));
      && ok == s.ok && verb == s.head.verb && sizePayload == s.head.sizePayload
      && uri[..] == s.head.uri && sock.pos == old(sock.pos) + s.consumed
  {
    ghost var total := ScanHeaders(sock.Rest(), Head(buffer[..], [], uri[..], -1));
    ghost var pos0 := sock.pos;
    verb, sizePayload := [], -1;
    while true
      invariant sock.Valid() && sock.input == old(sock.input) && pos0 <= sock.pos
      invariant HeadOk(Head(buffer[..], verb, uri[..], sizePayload))
      invariant Shift(ScanHeaders(sock.Rest(), Head(buffer[..], verb, uri[..], sizePayload)), sock.pos - pos0) == total
      decreases |sock.input| - sock.pos
    {
      ghost var h := Head(buffer[..], verb, uri[..], sizePayload);
      ghost var rest := sock.Rest();
      ScanStep(rest, h);
      var length := sock.RecvLine(buffer, LINE_SIZE);
      ghost var r := ReadLine(rest, LINE_SIZE, h.buf);
      if length == -1 {
        return false, verb, sizePayload;
      }
      CStrOfTerminatedAt(buffer[..], length);
      verb, sizePayload := ApplyLine(buffer, uri, verb, sizePayload);
      assert sock.Rest() == rest[r.consumed..];
      if length == 0 {
        return true, verb, sizePayload;
      }
    }
  }

  /** serve_error: each formatted piece handed to send_nbytes, the page left out for HEAD. */
  method ServeError(sock: Connection, verb: seq<byte>, cause: seq<byte>, code: seq<byte>, msg: seq<byte>)
    modifies sock`output
    ensures sock.output == old(sock.output) + ErrorResponse(verb, cause, code, msg)
  {
    SendPieces(sock, StatusLine(code, msg), ERROR_HEADERS, ERROR_BODY_OPEN, ErrorBodyLine(code, msg, cause), verb != HEAD);
  }

  /** Two header pieces, then two body pieces unless the body is left out, each sent whole. */
  method SendPieces(sock: Connection, h1: seq<byte>, h2: seq<byte>, b1: seq<byte>, b2: seq<byte>, body: bool)
    modifies sock`output
    ensures sock.output == old(sock.output) + (h1 + h2 + (if body then b1 + b2 else []))
  {
    ghost var out := sock.output;
    SendBoth(sock, h1, h2);
    if body {
      SendBoth(sock, b1, b2);
      Assoc(out, h1 + h2, b1 + b2);
    }
  }

  /** send_nbytes(confd, a, strlen(a)) and then the same for b. */
  method SendBoth(sock: Connection, a: seq<byte>, b: seq<byte>)
    modifies sock`output
    ensures sock.output == old(sock.output) + (a + b)
  {
    ghost var out := sock.output;
    sock.SendNBytes(a, |a|);
    assert a[..|a|] == a;
    sock.SendNBytes(b, |b|);
    assert b[..|b|] == b;
    Assoc(out, a, b);
  }

  /** serve_static: the two header buffers, then, except for HEAD, the mapped file or the 404 for an empty one. */
  method ServeStatic(sock: Connection, verb: seq<byte>, path: seq<byte>, content: seq<byte>)
    modifies sock`output
    ensures sock.output == old(sock.output) + StaticResponse(verb, path, content)
  {
    ghost var out := sock.output;
    ghost var headers := StaticHeaders(path, |content|);
    SendBoth(sock, OK_HEADERS, StaticFields(path, |content|));
    if verb == HEAD {
      assert headers + [] == headers;
      return;
    }
    if |content| == 0 {
      ServeError(sock, verb, path, C404, NOT_FOUND);
      Assoc(out, headers, ErrorResponse(verb, path, C404, NOT_FOUND));
    } else {
      sock.SendNBytes(content, |content|);
      assert content[..|content|] == content;
      Assoc(out, headers, content);
    }
  }

  /** serve_dynamic: the headers, then, except for HEAD, the program with QUERY_STRING set. */
  method ServeDynamic(sock: Connection, verb: seq<byte>, path: seq<byte>, query: seq<byte>)
    returns (outcome: Outcome)
    modifies sock`output
    ensures sock.output == old(sock.output) + DYNAMIC_HEADERS
    ensures outcome == if verb == HEAD then Answered else Exec(path, query)
  {
    sock.SendNBytes(DYNAMIC_HEADERS, |DYNAMIC_HEADERS|);
    if verb == HEAD {
      return Answered;
    }
    return Exec(path, query);
  }

  /** recv_nbytes(confd, cgiargs, size_payload) followed by the terminator it does not write. */
  method ReadPostBody(sock: Connection, cgiargs: array<byte>, n: int)
    requires sock.Valid() && n <= MAXSIZE && cgiargs.Length == STR_SIZE
    modifies sock`pos, cgiargs
    ensures sock.Valid() && sock.input == old(sock.input)
    ensures var m := Min(Max(n, 0), |old(sock.Rest())|);
      sock.pos == old(sock.pos) + m && CStr(cgiargs[..]) == CStr(old(sock.Rest())[..m])
  {
    ghost var rest := sock.Rest();
    var before := sock.pos;
    sock.RecvNBytes(cgiargs, n);
    var m := sock.pos - before;
    cgiargs[m] := NUL;
    assert cgiargs[..m] == rest[..m];
    CStrOfTerminatedAt(cgiargs[..], m);
  }

  /** The program branch: 411 for a POST without Content-Length, the body for a POST, then serve_dynamic. */
  method RunProgram(sock: Connection, verb: seq<byte>, route: Route, cgiargs: array<byte>, sizePayload: int)
    returns (outcome: Outcome)
    requires sock.Valid() && Supported(verb) && route.kind == Dynamic
    requires cgiargs.Length == STR_SIZE && CStr(cgiargs[..]) == route.args
    modifies sock, cgiargs
    ensures sock.Valid() && sock.input == old(sock.input)
    ensures var a := Answer(verb, route, map[route.path := File(true, true, true, [])], sizePayload, old(sock.Rest()));
      outcome == a.outcome && sock.output == old(sock.output) + a.output && sock.pos == old(sock.pos) + a.consumed
  {
    ProgramAnswer(verb, route, sizePayload, sock.Rest());
    if verb == POST {
      if sizePayload == -1 {
        ServeError(sock, verb, verb, C411, LENGTH_REQUIRED);
        return Answered;
      }
      if sizePayload > MAXSIZE {
        return Overrun;
      }
      ReadPostBody(sock, cgiargs, sizePayload);
    }
    MethodsDistinct();
    outcome := ServeDynamic(sock, verb, route.path, CStr(cgiargs[..]));
  }

  /** Answer for a program the mode lets run: 411, an overrun, or its headers and QUERY_STRING. */
  lemma ProgramAnswer(verb: seq<byte>, route: Route, sizePayload: int, rest: seq<byte>)
    requires Supported(verb) && route.kind == Dynamic
    ensures Answer(verb, route, map[route.path := File(true, true, true, [])], sizePayload, rest) ==
      if verb == POST && sizePayload == -1 then Response(ErrorResponse(verb, verb, C411, LENGTH_REQUIRED), Answered, 0)
      else if verb == POST && sizePayload > MAXSIZE then Response([], Overrun, 0)
      else if verb == POST then
        var body := rest[..Min(Max(sizePayload, 0), |rest|)];
        Response(DYNAMIC_HEADERS, Exec(route.path, CStr(body)), |body|)
      else Response(DYNAMIC_HEADERS, if verb == HEAD then Answered else Exec(route.path, route.args), 0)
  {
    MethodsDistinct();
  }

  /** Only whether the file is there and what the mode allows matter once it is a program. */
  lemma AnswerOfProgram(verb: seq<byte>, route: Route, fs: FileSystem, sizePayload: int, rest: seq<byte>)
    requires Supported(verb) && route.kind == Dynamic && route.path in fs && Permitted(fs[route.path], Dynamic)
    ensures Answer(verb, route, fs, sizePayload, rest)
      == Answer(verb, route, map[route.path := File(true, true, true, [])], sizePayload, rest)
  {
  }

  /** Answer for a supported method: 404, 403, the static file, or the program as ProgramAnswer has it. */
  lemma RouteAnswer(verb: seq<byte>, route: Route, fs: FileSystem, sizePayload: int, rest: seq<byte>)
    requires Supported(verb)
    ensures Answer(verb, route, fs, sizePayload, rest) ==
      if route.path !in fs then Response(ErrorResponse(verb, route.path, C404, NOT_FOUND), Answered, 0)
      else if !Permitted(fs[route.path], route.kind) then
        Response(ErrorResponse(verb, route.path, C403, FORBIDDEN), Answered, 0)
      else if route.kind == Static then
        Response(StaticResponse(verb, route.path, fs[route.path].content), Answered, 0)
      else Answer(verb, route, map[route.path := File(true, true, true, [])], sizePayload, rest)
  {
    if route.path in fs && Permitted(fs[route.path], route.kind) && route.kind == Dynamic {
      AnswerOfProgram(verb, route, fs, sizePayload, rest);
    }
  }

  /** stat and the mode test on the built path, then the static file or the program. */
  method ServeRoute(sock: Connection, verb: seq<byte>, route: Route, cgiargs: array<byte>, fs: FileSystem, sizePayload: int)
    returns (outcome: Outcome)
    requires sock.Valid() && Supported(verb)
    requires cgiargs.Length == STR_SIZE && CStr(cgiargs[..]) == route.args
    modifies sock, cgiargs
    ensures sock.Valid() && sock.input == old(sock.input)
    ensures var a := Answer(verb, route, fs, sizePayload, old(sock.Rest()));
      outcome == a.outcome && sock.output == old(sock.output) + a.output && sock.pos == old(sock.pos) + a.consumed
  {
    RouteAnswer(verb, route, fs, sizePayload, sock.Rest());
    var path := route.path;
    if path !in fs {
      ServeError(sock, verb, path, C404, NOT_FOUND);
      return Answered;
    }
    var meta := fs[path];
    if !meta.isRegular || (!meta.userRead && route.kind == Static) || (!meta.userExec && route.kind == Dynamic) {
      ServeError(sock, verb, path, C403, FORBIDDEN);
      return Answered;
    }
    if route.kind == Static {
      ServeStatic(sock, verb, path, meta.content);
      return Answered;
    }
    outcome := RunProgram(sock, verb, route, cgiargs, sizePayload);
  }

  /** A target the header loop accepts leaves room for "." and "index.html" in the file name buffer. */
  lemma RouteFits(u: seq<byte>)
    requires |u| <= MAXSIZE - 2
    ensures |RouteOf(u).path| <= MAXSIZE - 1 && |RouteOf(u).args| <= |u|
  {
    var r := RouteOf(u);
    assert |DOT| == 1 && |DEFAULT_FILE| == 10;
  }

  /** serve_content from the method check on: 501, then parse_uri into fresh buffers, then the route. */
  method AnswerRequest(sock: Connection, verb: seq<byte>, uri: array<byte>, fs: FileSystem, sizePayload: int)
    returns (outcome: Outcome)
    requires sock.Valid() && uri.Length == STR_SIZE && |CStr(uri[..])| <= MAXSIZE - 2
    modifies sock, uri
    ensures sock.Valid() && sock.input == old(sock.input)
    ensures var a := Answer(verb, RouteOf(old(CStr(uri[..]))), fs, sizePayload, old(sock.Rest()));
      outcome == a.outcome && sock.output == old(sock.output) + a.output && sock.pos == old(sock.pos) + a.consumed
  {
    if !Supported(verb) {
      ServeError(sock, verb, verb, C501, NOT_IMPLEMENTED);
      return Answered;
    }
    var route, cgiargs := AnalyzeRequest(uri);
    outcome := ServeRoute(sock, verb, route, cgiargs, fs, sizePayload);
  }

  /** parse_uri(uri, fname, cgiargs) into fresh buffers: the route, and the query left in cgiargs. */
  method AnalyzeRequest(uri: array<byte>) returns (route: Route, cgiargs: array<byte>)
    requires uri.Length == STR_SIZE && |CStr(uri[..])| <= MAXSIZE - 2
    modifies uri
    ensures fresh(cgiargs) && route == RouteOf(old(CStr(uri[..])))
    ensures cgiargs.Length == STR_SIZE && CStr(cgiargs[..]) == route.args
  {
    route := RouteOf(CStr(uri[..]));
    var fname := new byte[STR_SIZE](_ => NUL);
    cgiargs := new byte[STR_SIZE](_ => NUL);
    RouteFits(CStr(uri[..]));
    var ctype := ParseUri(uri, fname, cgiargs);
    CStrOfTerminated(route.args, cgiargs[|route.args| + 1..]);
  }

  /** serve_content: the header loop on fresh buffers, then 400 for a rejected line or the answer. */
  method ServeContent(sock: Connection, fs: FileSystem) returns (outcome: Outcome)
    requires sock.Valid()
    modifies sock
    ensures sock.Valid() && sock.input == old(sock.input)
    ensures var r := Respond(old(sock.Rest()), fs);
      outcome == r.outcome && sock.output == old(sock.output) + r.output && sock.pos == old(sock.pos) + r.consumed
  {
    ghost var input := sock.Rest();
    var ok, verb, uri, sizePayload := ReadRequestHead(sock);
    ghost var s := ScanHeaders(input, Initial());
    DropDrop(sock.input, old(sock.pos), s.consumed);
    outcome := AnswerScanned(sock, input, s, fs, ok, verb, uri, sizePayload);
  }

  /** serve_content after its header loop stopped as s says: 400, or the answer to the request. */
  method AnswerScanned(sock: Connection, ghost input: seq<byte>, ghost s: Scan, fs: FileSystem,
                       ok: bool, verb: seq<byte>, uri: array<byte>, sizePayload: int)
    returns (outcome: Outcome)
    requires sock.Valid() && HeadOk(s.head) && s.consumed <= |input| && sock.Rest() == input[s.consumed..]
    requires ok == s.ok && verb == s.head.verb && sizePayload == s.head.sizePayload && uri[..] == s.head.uri
    modifies sock, uri
    ensures sock.Valid() && sock.input == old(sock.input)
    ensures var r := RespondTo(s, input, fs);
      outcome == r.outcome && sock.output == old(sock.output) + r.output && sock.pos == old(sock.pos) - s.consumed + r.consumed
  {
    if !ok {
      ServeError(sock, verb, INVALID_LINE, C400, BAD_REQUEST);
      return Answered;
    }
    outcome := AnswerRequest(sock, verb, uri, fs, sizePayload);
  }

  /** The char arrays serve_content declares, and its header loop over them. */
  method ReadRequestHead(sock: Connection) returns (ok: bool, verb: seq<byte>, uri: array<byte>, sizePayload: int)
    requires sock.Valid()
    modifies sock`pos
    ensures fresh(uri) && sock.Valid() && sock.input == old(sock.input)
    ensures var s := ScanHeaders(old(sock.Rest()), Initial());
      && ok == s.ok && verb == s.head.verb && sizePayload == s.head.sizePayload
      && uri[..] == s.head.uri && sock.pos == old(sock.pos) + s.consumed
  {
    var buffer := new byte[LINE_SIZE](_ => NUL);
    uri := new byte[STR_SIZE](_ => NUL);
    assert buffer[..] == Initial().buf && uri[..] == Initial().uri;
    ok, verb, sizePayload := ReadHeaders(sock, buffer, uri);
  }

  // ---------------------------------------------------------------------------------------
  // Two places where the C code does what its authors evidently did not mean.

  /**
   * recv_nbytes over cgiargs as serve_content calls it: the body's bytes are copied to the
   * front, but no NUL follows them, so QUERY_STRING runs on into what parse_uri left there.
   */
  function PostQueryAsWritten(cgiargs: seq<byte>, body: seq<byte>): (r: seq<byte>)
    requires |body| <= |cgiargs|
    ensures IsPrefix(CStr(body), r) && |r| <= |cgiargs|
  {
    var buf := body + cgiargs[|body|..];
    assert buf[..|body|] == body;
    CStrOfTake(buf, |body|);
    CStr(buf)
  }

  /** The as-written read: recv_nbytes alone, leaving cgiargs unterminated after the body. */
  method ReadPostBodyAsWritten(sock: Connection, cgiargs: array<byte>, n: int)
    requires sock.Valid() && n <= MAXSIZE && cgiargs.Length == STR_SIZE
    modifies sock`pos, cgiargs
    ensures sock.Valid() && sock.input == old(sock.input)
    ensures var m := Min(Max(n, 0), |old(sock.Rest())|);
      sock.pos == old(sock.pos) + m && CStr(cgiargs[..]) == PostQueryAsWritten(old(cgiargs[..]), old(sock.Rest())[..m])
  {
    ghost var rest := sock.Rest();
    ghost var before := cgiargs[..];
    sock.RecvNBytes(cgiargs, n);
    ghost var m := Min(Max(n, 0), |rest|);
    assert cgiargs[..] == rest[..m] + before[m..];
  }

  /** A body shorter than the target's query is followed by the rest of that query. */
  lemma {:induction false} StaleQueryTail(args: seq<byte>, tail: seq<byte>, body: seq<byte>)
    requires NoNul(args) && NoNul(body) && |body| <= |args|
    ensures PostQueryAsWritten(args + [NUL] + tail, body) == body + args[|body|..]
  {
    var rest := args[|body|..];
    assert (args + [NUL] + tail)[|body|..] == rest + [NUL] + tail;
    assert body + (rest + [NUL] + tail) == (body + rest) + [NUL] + tail;
    assert NoNul(body + rest) by {
      forall i | 0 <= i < |body + rest| ensures (body + rest)[i] != NUL {
        if i >= |body| { assert (body + rest)[i] == args[i]; }
      }
    }
    CStrOfTerminated(body + rest, tail);
  }

  /** POST /cgi-bin/p?abcdef with the body "a=1": the program sees "a=1def" as written, "a=1" as intended. */
  lemma StaleQueryExample()
    ensures PostQueryAsWritten(Ascii("abcdef") + [NUL] + Zeros(STR_SIZE - 7), Ascii("a=1")) == Ascii("a=1def")
    ensures CStr(Ascii("a=1")) == Ascii("a=1")
  {
    var args: seq<byte> := [97, 98, 99, 100, 101, 102];
    var body: seq<byte> := [97, 61, 49];
    assert Ascii("abcdef") == args;
    assert Ascii("a=1") == body;
    StaleQueryTail(args, Zeros(STR_SIZE - 7), body);
    assert body + args[3..] == [97, 61, 49, 100, 101, 102] == Ascii("a=1def");
    CStrOfNoNul(body);
  }

  /** The size of char buffer[128], into which serve_error formats each piece. */
  const ERROR_BUFFER: nat := 128

  /** As written, for a piece longer than the buffer, sprintf writes past buffer's end. */
  function ErrorOutcomeAsWritten(verb: seq<byte>, cause: seq<byte>, code: seq<byte>, msg: seq<byte>): (r: Outcome)
    ensures r == Answered || r == Overrun
    ensures verb != HEAD ==> (r == Overrun <==> |code| + |msg| + |cause| > 97)
    ensures verb == HEAD ==> (r == Overrun <==> |code| + |msg| > 115)
  {
    if |StatusLine(code, msg)| + 1 > ERROR_BUFFER
      || (verb != HEAD && |ErrorBodyLine(code, msg, cause)| + 1 > ERROR_BUFFER)
    then Overrun
    else Answered
  }

  /** The 404 page for a missing path of 86 bytes or more does not fit: every such request overruns. */
  lemma LongMissingPathOverruns(verb: seq<byte>, path: seq<byte>)
    requires verb != HEAD
    ensures ErrorOutcomeAsWritten(verb, path, C404, NOT_FOUND) == Overrun <==> |path| >= 86
  {
    assert |ErrorBodyLine(C404, NOT_FOUND, path)| == 42 + |path|;
    assert |StatusLine(C404, NOT_FOUND)| == 24;
  }

  /**
   * Every error page of the chain after the header loop, not only the 404: as written it
   * overruns for a 501 whose method is 80 bytes or more, and for a 404 or 403 whose path is
   * 86 bytes or more; the 411 page, whose cause is "POST", always fits. The model answers
   * each of them with the whole page.
   */
  lemma RejectionOverrunsAsWritten(verb: seq<byte>, route: Route, fs: FileSystem, sizePayload: int, rest: seq<byte>)
    requires verb != HEAD && Decide(verb, route, fs, sizePayload).Reject?
    ensures var v := Decide(verb, route, fs, sizePayload);
      && Answer(verb, route, fs, sizePayload, rest) == Response(ErrorResponse(verb, v.cause, v.code, v.msg), Answered, 0)
      && (ErrorOutcomeAsWritten(verb, v.cause, v.code, v.msg) == Overrun <==>
        || (!Supported(verb) && |verb| >= 80)
        || (Supported(verb) && v.code != C411 && |route.path| >= 86))
  {
    CodesDistinct();
    if !Supported(verb) {
      assert |C501| == 3 && |NOT_IMPLEMENTED| == 15;
    } else if route.path !in fs {
      assert |C404| == 3 && |NOT_FOUND| == 9;
    } else if !Permitted(fs[route.path], route.kind) {
      assert |C403| == 3 && |FORBIDDEN| == 9;
    } else {
      assert Decide(verb, route, fs, sizePayload) == Reject(verb, C411, LENGTH_REQUIRED) && verb == POST;
      assert |C411| == 3 && |LENGTH_REQUIRED| == 15 && |POST| == 4;
    }
  }

  /** Any request that reaches a 404 for so long a path overruns as written; the model answers it. */
  lemma MissingLongPathAsWritten(input: seq<byte>, fs: FileSystem)
    requires var s := ScanHeaders(input, Initial());
      && s.ok && (s.head.verb == GET || s.head.verb == POST)
      && RouteOf(CStr(s.head.uri)).path !in fs && |RouteOf(CStr(s.head.uri)).path| >= 86
    ensures var s := ScanHeaders(input, Initial());
      var path := RouteOf(CStr(s.head.uri)).path;
      && ErrorOutcomeAsWritten(s.head.verb, path, C404, NOT_FOUND) == Overrun
      && Respond(input, fs).outcome == Answered && Contains(Respond(input, fs).output, path)
  {
    var s := ScanHeaders(input, Initial());
    MethodsDistinct();
    LongMissingPathOverruns(s.head.verb, RouteOf(CStr(s.head.uri)).path);
    MissingFileIsNotFound(input, fs);
  }
}
