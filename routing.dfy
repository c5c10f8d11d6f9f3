/**
 * The request router (mini_server.c parse_uri, server.c analyzeRequest: the same code) and
 * the content-type table (check_ftype, checkFileType: the same code).
 */
module Routing {
  import opened Bytes
  import opened CString

  const CGI_BIN: seq<byte> := Ascii("cgi-bin")
  const QMARK: byte := 63
  const DOT: seq<byte> := Ascii(".")
  const ROOT: seq<byte> := Ascii("/")
  const DEFAULT_FILE: seq<byte> := Ascii("index.html")

  datatype Kind = Static | Dynamic

  /** What routing makes of a target: its kind, the target as cut at '?', the path, the query. */
  datatype Route = Route(kind: Kind, uri: seq<byte>, path: seq<byte>, args: seq<byte>)

  /**
   * Dynamic exactly when "cgi-bin" occurs anywhere in the target (its query included); only a
   * dynamic target is cut at its first '?', the rest becoming the query; the path is "." and the
   * target, with "index.html" added for the static target "/" alone.
   */
  function RouteOf(u: seq<byte>): (r: Route)
    ensures r.kind == Dynamic <==> Contains(u, CGI_BIN)
    ensures IsPrefix(r.uri, u)
    ensures r.kind == Dynamic && QMARK in u ==> u == r.uri + [QMARK] + r.args && QMARK !in r.uri
    ensures !(r.kind == Dynamic && QMARK in u) ==> r.uri == u && r.args == []
    ensures r.path == DOT + r.uri + (if r.kind == Static && r.uri == ROOT then DEFAULT_FILE else [])
  {
    if Contains(u, CGI_BIN) then
      match IndexOf(u, QMARK)
      case Some(q) =>
        assert u == u[..q] + [QMARK] + u[q + 1..];
        Route(Dynamic, u[..q], DOT + u[..q], u[q + 1..])
      case None => Route(Dynamic, u, DOT + u, [])
    else
      Route(Static, u, DOT + u + (if u == ROOT then DEFAULT_FILE else []), [])
  }

  /** The literals routing copies into fname hold no NUL. */
  lemma LiteralsNoNul()
    ensures NoNul(DOT) && NoNul(DEFAULT_FILE)
  {
    assert DOT == [46];
    assert DEFAULT_FILE == [105, 110, 100, 101, 120, 46, 104, 116, 109, 108];
  }

  /**
   * parse_uri(uri, fname, cgiargs) / analyzeRequest(uri, fname, cgiArgs): empties cgiargs,
   * for a dynamic target copies what follows '?' into it and writes NUL over the '?', then
   * builds fname with strcpy/strcat; returns 1 for dynamic, 0 for static.
   */
  method ParseUri(uri: array<byte>, fname: array<byte>, cgiargs: array<byte>) returns (ctype: int)
    requires uri != fname && uri != cgiargs && fname != cgiargs
    requires |RouteOf(CStr(uri[..])).path| < fname.Length && |CStr(uri[..])| < cgiargs.Length
    modifies uri, fname, cgiargs
    ensures var r := RouteOf(old(CStr(uri[..])));
      && ctype == (if r.kind == Dynamic then 1 else 0)
      && CStr(uri[..]) == r.uri && CStr(fname[..]) == r.path
      && cgiargs[..] == r.args + [NUL] + old(cgiargs[|r.args| + 1..])
  {
    ctype := SplitQuery(uri, cgiargs);
    var cut := CStr(uri[..]);
    LiteralsNoNul();
    BuildPath(fname, cut, ctype == 0 && cut == ROOT);
  }

  /** The first half of parse_uri: classify, then move the query of a dynamic target to cgiargs. */
  method SplitQuery(uri: array<byte>, cgiargs: array<byte>) returns (ctype: int)
    requires uri != cgiargs && |CStr(uri[..])| < cgiargs.Length
    modifies uri, cgiargs
    ensures var r := RouteOf(old(CStr(uri[..])));
      && ctype == (if r.kind == Dynamic then 1 else 0)
      && CStr(uri[..]) == r.uri
      && cgiargs[..] == r.args + [NUL] + old(cgiargs[|r.args| + 1..])
  {
    var u := CStr(uri[..]);
    ctype := if Contains(u, CGI_BIN) then 1 else 0;
    var p := IndexOf(u, QMARK);
    ghost var c0 := cgiargs[..];
    StrCpy(cgiargs, []);
    if ctype == 1 && p.Some? {
      RouteOfSplit(u, p.value);
      ghost var c1 := cgiargs[..];
      MoveQuery(uri, cgiargs, p.value);
      KeptTail(c0, c1, |u| - p.value);
    }
  }

  /** The '?' at q becomes the end of the target and what follows it is copied to cgiargs. */
  method MoveQuery(uri: array<byte>, cgiargs: array<byte>, q: nat)
    requires uri != cgiargs && q < |CStr(uri[..])| < cgiargs.Length
    modifies uri, cgiargs
    ensures CStr(uri[..]) == old(CStr(uri[..]))[..q]
    ensures cgiargs[..] == old(CStr(uri[..]))[q + 1..] + [NUL] + old(cgiargs[|CStr(uri[..])| - q..])
  {
    var u := CStr(uri[..]);
    var args := u[q + 1..];
    StrCpy(cgiargs, args);
    Truncate(uri, q);
  }

  /** Bytes of a buffer past index k >= 1 survive a strcpy of the empty string. */
  lemma KeptTail(c0: seq<byte>, c1: seq<byte>, k: nat)
    requires 1 <= k <= |c0| && c1 == [NUL] + c0[1..]
    ensures c1[k..] == c0[k..]
  {
  }

  /** A dynamic C-string target with its first '?' at q: cut there, the rest a C string too. */
  lemma RouteOfSplit(u: seq<byte>, q: nat)
    requires NoNul(u) && Contains(u, CGI_BIN) && IndexOf(u, QMARK) == Some(q)
    ensures RouteOf(u) == Route(Dynamic, u[..q], DOT + u[..q], u[q + 1..])
    ensures NoNul(u[q + 1..]) && q < |CStr(u)| == |u|
  {
    CStrOfNoNul(u);
    NoNulDrop(u, q + 1);
  }

  /** The second half of parse_uri: fname := "." + uri, then "index.html" when asked. */
  method BuildPath(fname: array<byte>, u: seq<byte>, addDefault: bool)
    requires NoNul(u) && NoNul(DOT) && NoNul(DEFAULT_FILE)
    requires |DOT + u + (if addDefault then DEFAULT_FILE else [])| < fname.Length
    modifies fname
    ensures CStr(fname[..]) == DOT + u + (if addDefault then DEFAULT_FILE else [])
  {
    StrCpy(fname, DOT);
    StrCat(fname, u);
    if addDefault {
      StrCat(fname, DEFAULT_FILE);
    }
  }

  /** A dynamic target is cut at its first '?', wherever "cgi-bin" occurs. */
  lemma RouteOfQuery(head: seq<byte>, query: seq<byte>)
    requires QMARK !in head && Contains(head + [QMARK] + query, CGI_BIN)
    ensures RouteOf(head + [QMARK] + query) == Route(Dynamic, head, DOT + head, query)
  {
    var u := head + [QMARK] + query;
    assert u[|head|] == QMARK && u[..|head|] == head && u[|head| + 1..] == query;
  }

  /** A CGI target: the query after the first "?" is split off. */
  lemma RouteOfCgiTarget()
    ensures RouteOf(Ascii("/cgi-bin/echo?name=bob"))
      == Route(Dynamic, Ascii("/cgi-bin/echo"), Ascii("./cgi-bin/echo"), Ascii("name=bob"))
  {
    var head: seq<byte> := [47, 99, 103, 105, 45, 98, 105, 110, 47, 101, 99, 104, 111];
    var query: seq<byte> := [110, 97, 109, 101, 61, 98, 111, 98];
    assert Ascii("/cgi-bin/echo") == head;
    assert Ascii("./cgi-bin/echo") == DOT + head;
    assert Ascii("name=bob") == query;
    assert Ascii("/cgi-bin/echo?name=bob") == head + [QMARK] + query;
    assert Contains(head + [QMARK] + query, CGI_BIN) by {
      assert head == [47] + CGI_BIN + [47, 101, 99, 104, 111];
      ContainsInConcat([47], CGI_BIN, [47, 101, 99, 104, 111] + [QMARK] + query);
    }
    RouteOfQuery(head, query);
  }

  /** The site root "/" names the default file ./index.html. */
  lemma RouteOfRoot()
    ensures RouteOf(Ascii("/")) == Route(Static, Ascii("/"), Ascii("./index.html"), [])
  {
    assert ROOT == [47];
    assert CGI_BIN[0] == 99;
    NotContainsByByte(ROOT, CGI_BIN, 0);
    assert DOT == [46];
    assert Ascii("./index.html") == DOT + ROOT + DEFAULT_FILE;
  }

  /** "cgi-bin" in the query alone makes the target dynamic, and the path ignores it. */
  lemma QueryDecidesKind()
    ensures RouteOf(Ascii("/x?cgi-bin")) == Route(Dynamic, Ascii("/x"), Ascii("./x"), Ascii("cgi-bin"))
  {
    var head: seq<byte> := [47, 120];
    assert Ascii("/x") == head;
    assert Ascii("./x") == DOT + head;
    assert Ascii("/x?cgi-bin") == head + [QMARK] + CGI_BIN;
    assert Contains(head + [QMARK] + CGI_BIN, CGI_BIN) by {
      ContainsInConcat(head + [QMARK], CGI_BIN, []);
      assert head + [QMARK] + CGI_BIN + [] == head + [QMARK] + CGI_BIN;
    }
    RouteOfQuery(head, CGI_BIN);
  }

  /** A static target keeps its query in the path it names, and only the exact "/" gets the default. */
  lemma StaticKeepsQuery()
    ensures RouteOf(Ascii("/?a")) == Route(Static, Ascii("/?a"), Ascii("./?a"), [])
    ensures RouteOf(Ascii("/d/")).path == Ascii("./d/")
  {
    assert CGI_BIN[0] == 99;
    assert ROOT == [47];
    var a: seq<byte> := [47, QMARK, 97];
    assert Ascii("/?a") == a;
    NotContainsByByte(a, CGI_BIN, 0);
    assert Ascii("./?a") == DOT + a;
    var d: seq<byte> := [47, 100, 47];
    assert Ascii("/d/") == d;
    NotContainsByByte(d, CGI_BIN, 0);
    assert Ascii("./d/") == DOT + d;
  }

  const HTML: seq<byte> := Ascii(".html")
  const GIF: seq<byte> := Ascii(".gif")
  const PNG: seq<byte> := Ascii(".png")
  const JPG: seq<byte> := Ascii(".jpg")
  const MP4: seq<byte> := Ascii(".mp4")

  const TEXT_HTML: seq<byte> := Ascii("text/html")
  const IMAGE_GIF: seq<byte> := Ascii("image/gif")
  const IMAGE_PNG: seq<byte> := Ascii("image/png")
  const IMAGE_JPEG: seq<byte> := Ascii("image/jpeg")
  const VIDEO_MP4: seq<byte> := Ascii("video/mp4")
  const TEXT_PLAIN: seq<byte> := Ascii("text/plain")

  /** The ordered (extension, type) table; the first extension contained in the path wins. */
  const MIME_TABLE: seq<(seq<byte>, seq<byte>)> :=
    [(HTML, TEXT_HTML), (GIF, IMAGE_GIF), (PNG, IMAGE_PNG), (JPG, IMAGE_JPEG), (MP4, VIDEO_MP4)]

  /** The six types are distinct byte strings. */
  lemma TypesDistinct()
    ensures TEXT_PLAIN !in {TEXT_HTML, IMAGE_GIF, IMAGE_PNG, IMAGE_JPEG, VIDEO_MP4}
    ensures TEXT_HTML !in {IMAGE_GIF, IMAGE_PNG, IMAGE_JPEG, VIDEO_MP4}
  {
    assert TEXT_HTML[0] == 116 && TEXT_HTML[5] == 104;
    assert TEXT_PLAIN[0] == 116 && TEXT_PLAIN[5] == 112;
    assert IMAGE_GIF[0] == 105 && IMAGE_PNG[0] == 105 && IMAGE_JPEG[0] == 105;
    assert VIDEO_MP4[0] == 118;
  }

  /** check_ftype / checkFileType: a chain of strstr tests, "text/plain" when none matches. */
  function MimeType(fname: seq<byte>): (r: seq<byte>)
    ensures r in [TEXT_HTML, IMAGE_GIF, IMAGE_PNG, IMAGE_JPEG, VIDEO_MP4, TEXT_PLAIN]
  {
    if Contains(fname, HTML) then TEXT_HTML
    else if Contains(fname, GIF) then IMAGE_GIF
    else if Contains(fname, PNG) then IMAGE_PNG
    else if Contains(fname, JPG) then IMAGE_JPEG
    else if Contains(fname, MP4) then VIDEO_MP4
    else TEXT_PLAIN
  }

  /** text/html exactly for a path containing ".html"; text/plain exactly when no extension occurs. */
  lemma MimeTypeCases(fname: seq<byte>)
    ensures MimeType(fname) == TEXT_HTML <==> Contains(fname, HTML)
    ensures MimeType(fname) == TEXT_PLAIN <==>
      !Contains(fname, HTML) && !Contains(fname, GIF) && !Contains(fname, PNG)
      && !Contains(fname, JPG) && !Contains(fname, MP4)
  {
    TypesDistinct();
  }

  /** The table read from the front: the type of the first entry whose extension occurs in fname. */
  function Lookup(table: seq<(seq<byte>, seq<byte>)>, fname: seq<byte>): (r: Option<nat>)
    ensures r.Some? ==> r.value < |table| && Contains(fname, table[r.value].0)
    ensures r.Some? ==> forall k :: 0 <= k < r.value ==> !Contains(fname, table[k].0)
    ensures r.None? ==> forall k :: 0 <= k < |table| ==> !Contains(fname, table[k].0)
  {
    if table == [] then None
    else if Contains(fname, table[0].0) then Some(0)
    else match Lookup(table[1..], fname)
      case None => None
      case Some(k) => Some(k + 1)
  }

  /** The if-chain is the ordered table: first contained extension wins, text/plain otherwise. */
  lemma MimeTypeIsFirstMatch(fname: seq<byte>)
    ensures MimeType(fname) == match Lookup(MIME_TABLE, fname)
      case Some(k) => MIME_TABLE[k].1
      case None => TEXT_PLAIN
  {
    assert MIME_TABLE[0] == (HTML, TEXT_HTML) && MIME_TABLE[1] == (GIF, IMAGE_GIF);
    assert MIME_TABLE[2] == (PNG, IMAGE_PNG) && MIME_TABLE[3] == (JPG, IMAGE_JPEG);
    assert MIME_TABLE[4] == (MP4, VIDEO_MP4);
    match Lookup(MIME_TABLE, fname)
    case None =>
      assert !Contains(fname, MIME_TABLE[0].0) && !Contains(fname, MIME_TABLE[1].0);
      assert !Contains(fname, MIME_TABLE[2].0) && !Contains(fname, MIME_TABLE[3].0);
      assert !Contains(fname, MIME_TABLE[4].0);
    case Some(k) =>
      if k >= 1 { assert !Contains(fname, MIME_TABLE[0].0); }
      if k >= 2 { assert !Contains(fname, MIME_TABLE[1].0); }
      if k >= 3 { assert !Contains(fname, MIME_TABLE[2].0); }
      if k >= 4 { assert !Contains(fname, MIME_TABLE[3].0); }
  }

  /** Containment, not suffix: the first table entry found anywhere decides. */
  lemma MimeTypeExamples()
    ensures MimeType(Ascii("./a/b.html")) == TEXT_HTML
    ensures MimeType(Ascii("./x.html.png")) == TEXT_HTML
  {
    assert HTML == [46, 104, 116, 109, 108];
    assert Contains(Ascii("./a/b.html"), HTML) by {
      assert Ascii("./a/b.html") == [46, 47, 97, 47, 98] + HTML + [];
      ContainsInConcat([46, 47, 97, 47, 98], HTML, []);
    }
    assert Contains(Ascii("./x.html.png"), HTML) by {
      assert Ascii("./x.html.png") == [46, 47, 120] + HTML + [46, 112, 110, 103];
      ContainsInConcat([46, 47, 120], HTML, [46, 112, 110, 103]);
    }
  }

  /** A path lacking the letter after the dot of every extension is served as text/plain. */
  lemma PlainWithoutExtensionLetters(fname: seq<byte>)
    requires HTML[1] !in fname && GIF[1] !in fname && PNG[1] !in fname
    requires JPG[1] !in fname && MP4[1] !in fname
    ensures MimeType(fname) == TEXT_PLAIN
  {
    NotContainsByByte(fname, HTML, 1);
    NotContainsByByte(fname, GIF, 1);
    NotContainsByByte(fname, PNG, 1);
    NotContainsByByte(fname, JPG, 1);
    NotContainsByByte(fname, MP4, 1);
  }

  /** A path naming none of the five extensions is served as text/plain. */
  lemma MimeTypeDefault()
    ensures MimeType(Ascii("./noext")) == TEXT_PLAIN
  {
    var n: seq<byte> := [46, 47, 110, 111, 101, 120, 116];
    assert Ascii("./noext") == n;
    assert HTML[1] == 104 && GIF[1] == 103 && PNG[1] == 112 && JPG[1] == 106 && MP4[1] == 109;
    PlainWithoutExtensionLetters(n);
  }
}
