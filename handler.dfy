/** `handle_connection`: read the request, look the file up under `public/`,
    send it with status 200 or a small page with status 404, and close. */
module Handler {
  import opened Wrappers
  import opened SeqFacts
  import opened Errors
  import opened Utf8
  import opened PyText
  import opened PyDict
  import opened Stream
  import opened RequestParser
  import opened ResponseBuilder

  /** The files `get_payload` can open, with their contents, keyed by the path
      string exactly as it is passed, with no normalisation. */
  type Files = map<string, seq<byte>>

  /** `get_payload(path)`: the contents of the file at `path`, if there is one. */
  function GetPayload(files: Files, path: string): Option<seq<byte>> {
    if path in files then Some(files[path]) else None
  }

  /** The file a request path names: `/` stands for `index.html`, and every path
      is taken relative to `public/`. */
  function ResolvePath(path: string): string {
    "public/" + (if path == "/" then "index.html" else path)
  }

  /** The body of the 404 response, `<h1>Not found</h1>`: the opening tag, the
      text and the closing tag. */
  const NotFoundPage: string := "<h1>" + "Not found" + "</h1>"

  /** The response `handle_connection` sends: its status, its headers and its
      body. */
  datatype Reply = Reply(code: int, message: string, headers: Dict, body: seq<byte>)

  /** The reply to `req` given the files there are. */
  function ReplyFor(req: Request, files: Files): Reply {
    var headers := [("content-type", "text/html")];
    match GetPayload(files, ResolvePath(req.path))
    case None => Reply(404, "Not Found", headers, Encode(NotFoundPage))
    case Some(b) => Reply(200, "OK", headers, b)
  }

  /** What goes out on the connection for a reply: the head, then the body. */
  function ReplyBytes(rep: Reply): seq<byte> {
    Encode(HeadText(rep.code, rep.message, rep.headers, |rep.body|)) + rep.body
  }

  /** `handle_connection(connection)`. When the request cannot be read or parsed
      the function raises before it writes anything, and the connection stays open. */
  method HandleConnection(conn: Connection, files: Files) returns (r: Result<Reply, Error>)
    requires conn.Valid()
    modifies conn`pos, conn`output, conn`closed
    ensures conn.Valid() && conn.input == old(conn.input)
    ensures conn.pos == CollectLines(old(conn.input), old(conn.pos)).next
    ensures r == match RequestAt(old(conn.input), old(conn.pos))
                 case Failure(e) => Failure(e)
                 case Success(req) => Success(ReplyFor(req, files))
    ensures r.Success? ==> conn.output == old(conn.output) + ReplyBytes(r.value) && conn.closed
    ensures r.Failure? ==> conn.output == old(conn.output) && conn.closed == old(conn.closed)
  {
    var request := ReadRequest(conn);
    if request.Failure? {
      return Failure(request.error);
    }
    var reply := Respond(conn, request.value, files);
    r := Success(reply);
  }

  /** The rest of `handle_connection` once the request is read: build the
      response, send it, and close the connection. */
  method Respond(conn: Connection, req: Request, files: Files) returns (reply: Reply)
    modifies conn`output, conn`closed
    ensures reply == ReplyFor(req, files)
    ensures conn.output == old(conn.output) + ReplyBytes(reply) && conn.closed
  {
    ghost var before := conn.output;
    var response := BuildResponse(req, files);
    var sent := response.SendResponse(conn);
    conn.Close();
    reply := Reply(response.code, response.message, response.headers, response.payload.bytes);
    AppendAssoc(before, Encode(HeadText(reply.code, reply.message, reply.headers, |reply.body|)), reply.body);
  }

  /** The response `handle_connection` builds for `req`, before it is sent. */
  method BuildResponse(req: Request, files: Files) returns (response: Response)
    ensures fresh(response) && response.Valid()
    ensures var rep := ReplyFor(req, files);
      && response.payload == Raw(rep.body) && response.contentLength == |rep.body|
      && response.code == rep.code && response.message == rep.message && response.headers == rep.headers
  {
    var path := req.path;
    if path == "/" {
      path := "index.html";
    }
    path := "public/" + path;
    assert path == ResolvePath(req.path);
    response := new Response();
    response.AddHeader("content-type", "text/html");
    var payload := GetPayload(files, path);
    if payload.None? {
      response.SetPayload(PyStr(NotFoundPage));
      response.SetStatusCode(404);
      response.SetStatusMessage("Not Found");
    } else {
      response.SetPayload(PyBytes(payload.value));
    }
  }

  /** A file that exists is sent with status 200 and its contents as the body. */
  lemma FoundReply(req: Request, files: Files)
    requires ResolvePath(req.path) in files
    ensures ReplyFor(req, files) == Reply(200, "OK", [("content-type", "text/html")], files[ResolvePath(req.path)])
  {
  }

  /** A file that does not exist gives status 404, the `content-type` header and
      the 18-byte not-found page. */
  lemma MissingReply(req: Request, files: Files)
    requires ResolvePath(req.path) !in files
    ensures var rep := ReplyFor(req, files);
      && rep.code == 404 && rep.message == "Not Found"
      && rep.headers == [("content-type", "text/html")]
      && Decode(rep.body) == Some(NotFoundPage) && |rep.body| == 18
  {
    DecodeEncode(NotFoundPage);
    EncodeAppend("<h1>" + "Not found", "</h1>");
    EncodeAppend("<h1>", "Not found");
  }

  /** The status is 200 exactly when the file exists, and 404 otherwise. */
  lemma ReplyCode(req: Request, files: Files)
    ensures ReplyFor(req, files).code == 200 <==> ResolvePath(req.path) in files
    ensures ReplyFor(req, files).code == 404 <==> ResolvePath(req.path) !in files
  {
  }

  /** Two request paths give the same lookup key exactly when they are equal, or
      one is `/` and the other `index.html`. */
  lemma ResolvePathSame(p: string, q: string)
    ensures ResolvePath(p) == ResolvePath(q)
            <==> p == q || (p == "/" && q == "index.html") || (p == "index.html" && q == "/")
  {
    var a := if p == "/" then "index.html" else p;
    var b := if q == "/" then "index.html" else q;
    if ResolvePath(p) == ResolvePath(q) {
      assert a == ResolvePath(p)[7..] && b == ResolvePath(q)[7..];
    }
  }

  /** The path is upper-cased before it is looked up, so a name that holds an
      ASCII lower-case letter is never the key looked up, except `index.html`, which
      `/` stands for. */
  lemma LowerCaseNamesUnreachable(lines: seq<string>, name: string, i: nat)
    requires ParsedRequest(lines).Success?
    requires i < |name| && IsLowerLetter(name[i]) && name != "index.html"
    ensures ResolvePath(ParsedRequest(lines).value.path) != "public/" + name
  {
    var req := ParsedRequest(lines).value;
    ParsedUpperCase(lines);
    assert ("public/" + name)[7..] == name;
    if req.path != "/" {
      assert ResolvePath(req.path)[7..] == req.path;
      assert name[i] !in req.path;
    }
  }
}
