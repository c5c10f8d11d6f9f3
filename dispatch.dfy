/**
 * The decision both request handlers take once the request line is known
 * (mini_server.c serve_content, server.c serveContent: the same chain of tests):
 * unsupported method, missing file, forbidden file, static file, CGI program.
 */
module Dispatch {
  import opened Bytes
  import opened Routing

  /** What stat reports about a path, and the bytes open and mmap would then deliver. */
  datatype File = File(isRegular: bool, userRead: bool, userExec: bool, content: seq<byte>)

  /** The document tree the handler sees, keyed by the path handed to stat ("./..."). */
  type FileSystem = map<seq<byte>, File>

  const GET: seq<byte> := Ascii("GET")
  const HEAD: seq<byte> := Ascii("HEAD")
  const POST: seq<byte> := Ascii("POST")

  const C400: seq<byte> := Ascii("400")
  const C403: seq<byte> := Ascii("403")
  const C404: seq<byte> := Ascii("404")
  const C411: seq<byte> := Ascii("411")
  const C501: seq<byte> := Ascii("501")

  const BAD_REQUEST: seq<byte> := Ascii("Bad Request")
  const FORBIDDEN: seq<byte> := Ascii("Forbidden")
  const NOT_FOUND: seq<byte> := Ascii("Not found")
  const LENGTH_REQUIRED: seq<byte> := Ascii("Length Required")
  const NOT_IMPLEMENTED: seq<byte> := Ascii("Not Implemented")

  predicate Supported(verb: seq<byte>)
  {
    verb == GET || verb == HEAD || verb == POST
  }

  /** The mode test: a regular file, readable by its owner to be served, executable to be run. */
  predicate Permitted(f: File, kind: Kind)
    ensures !f.isRegular ==> !Permitted(f, kind)
    ensures f.isRegular && f.userRead && f.userExec ==> Permitted(f, kind)
  {
    f.isRegular && (kind == Static ==> f.userRead) && (kind == Dynamic ==> f.userExec)
  }

  /** What the handler goes on to do: an error page with its cause, a file, or a CGI program. */
  datatype Verdict =
    | Reject(cause: seq<byte>, code: seq<byte>, msg: seq<byte>)
    | ServeFile(path: seq<byte>, content: seq<byte>)
    | RunCgi(path: seq<byte>, readsBody: bool)

  /** How a request ends for the model. */
  datatype Outcome =
    | Answered                                     // the whole response has been written
    | Exec(path: seq<byte>, query: seq<byte>)      // the CGI program runs with QUERY_STRING = query
    | Overrun                                      // the C code writes past the end of a buffer here
    | Hang                                         // the header loop repeats one state forever

  /** What one connection makes a handler do: bytes written, how it ends, bytes read. */
  datatype Response = Response(output: seq<byte>, outcome: Outcome, consumed: nat)

  lemma CodesDistinct()
    ensures C400 != C403 && C400 != C404 && C400 != C411 && C400 != C501
    ensures C403 != C404 && C403 != C411 && C403 != C501
    ensures C404 != C411 && C404 != C501 && C411 != C501
  {
    assert C400 == [52, 48, 48] && C403 == [52, 48, 51] && C404 == [52, 48, 52];
    assert C411 == [52, 49, 49] && C501 == [53, 48, 49];
  }

  lemma MethodsDistinct()
    ensures GET != HEAD && GET != POST && HEAD != POST
  {
    assert GET == [71, 69, 84] && HEAD == [72, 69, 65, 68] && POST == [80, 79, 83, 84];
  }

  /**
   * The chain after the header loop: 501 for a method other than GET, HEAD and POST (its
   * cause is the method), 404 when stat finds no file, 403 when the mode forbids it (both
   * naming the path), the file for a static target, and for a dynamic one 411 when a POST
   * came without Content-Length, else the program, which reads the body of a POST first.
   */
  function Decide(verb: seq<byte>, route: Route, fs: FileSystem, sizePayload: int): (r: Verdict)
    ensures r.ServeFile? || r.RunCgi? ==>
      Supported(verb) && route.path in fs && Permitted(fs[route.path], route.kind)
    ensures r.RunCgi? ==> r.path == route.path && (r.readsBody <==> verb == POST) && (r.readsBody ==> sizePayload != -1)
  {
    if !Supported(verb) then Reject(verb, C501, NOT_IMPLEMENTED)
    else if route.path !in fs then Reject(route.path, C404, NOT_FOUND)
    else if !Permitted(fs[route.path], route.kind) then Reject(route.path, C403, FORBIDDEN)
    else if route.kind == Static then ServeFile(route.path, fs[route.path].content)
    else if verb == POST && sizePayload == -1 then Reject(verb, C411, LENGTH_REQUIRED)
    else RunCgi(route.path, verb == POST)
  }

  /** Each verdict of the chain, and exactly the inputs that lead to it. */
  lemma DecideCases(verb: seq<byte>, route: Route, fs: FileSystem, sizePayload: int)
    ensures var v := Decide(verb, route, fs, sizePayload);
      && (!Supported(verb) <==> v == Reject(verb, C501, NOT_IMPLEMENTED))
      && (Supported(verb) && route.path !in fs <==> v == Reject(route.path, C404, NOT_FOUND))
      && (Supported(verb) && route.path in fs && !Permitted(fs[route.path], route.kind)
        <==> v == Reject(route.path, C403, FORBIDDEN))
      && (v.ServeFile? <==>
        Supported(verb) && route.path in fs && Permitted(fs[route.path], route.kind) && route.kind == Static)
      && (v.ServeFile? ==> v == ServeFile(route.path, fs[route.path].content))
      && (v == Reject(verb, C411, LENGTH_REQUIRED) <==>
        && Supported(verb) && route.path in fs && Permitted(fs[route.path], route.kind)
        && route.kind == Dynamic && verb == POST && sizePayload == -1)
      && (v.RunCgi? ==> v == RunCgi(route.path, verb == POST) && route.kind == Dynamic)
  {
    CodesDistinct();
  }

  /** HEAD is decided exactly as GET: the same file, the same program, the same errors. */
  lemma HeadDecidedAsGet(route: Route, fs: FileSystem, sizePayload: int)
    ensures Decide(HEAD, route, fs, sizePayload) == Decide(GET, route, fs, sizePayload)
  {
    MethodsDistinct();
  }

  /** Only a POST to a program looks at the Content-Length the headers gave. */
  lemma LengthOnlyMattersForPost(verb: seq<byte>, route: Route, fs: FileSystem, n: int, m: int)
    requires verb != POST || route.kind == Static
    ensures Decide(verb, route, fs, n) == Decide(verb, route, fs, m)
  {
  }

  /** Any Content-Length other than -1, even a negative one, lets a POST through to its program. */
  lemma PostWithLengthRuns(route: Route, fs: FileSystem, n: int)
    requires route.kind == Dynamic && route.path in fs && Permitted(fs[route.path], Dynamic)
    ensures Decide(POST, route, fs, n) == if n == -1 then Reject(POST, C411, LENGTH_REQUIRED)
      else RunCgi(route.path, true)
  {
  }
}
