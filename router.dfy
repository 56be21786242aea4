/** Routing in handle_client: the if-chain over the parsed path, and the
    file branch it delegates to. The filesystem is an oracle: a map from
    the paths stat() finds to whether fopen() succeeds on them and, if so,
    what they hold. */
module Router {
  import opened CLib
  import opened ServerH
  import opened Writer

  datatype FileEntry = Unopenable | Readable(data: seq<char>)

  /** The paths stat() succeeds on. */
  type FileSystem = map<string, FileEntry>

  /** The branch of the if-chain a path takes. */
  datatype Route = Files(name: string) | UserAgentPage | Root | Echo(rest: string) | Unmatched

  /** The tests in the source's order: strncmp against "/files/" over 7
      characters, strcmp against "/user-agent" and "/", strncmp against
      "/echo/" over 6. The tests are exclusive, so each route holds exactly
      when its own test does, whatever the order. */
  function Dispatch(path: string): (r: Route)
    ensures r.Files? <==> "/files/" <= path
    ensures r.Files? ==> path == "/files/" + r.name
    ensures r.UserAgentPage? <==> path == "/user-agent"
    ensures r.Root? <==> path == "/"
    ensures r.Echo? <==> "/echo/" <= path
    ensures r.Echo? ==> path == "/echo/" + r.rest
  {
    StrNEqIsPrefix(path, "/files/");
    StrNEqIsPrefix(path, "/echo/");
    RoutesExclusive(path);
    if StrNEq(path, "/files/", 7) then Files(path[7..])
    else if path == "/user-agent" then UserAgentPage
    else if path == "/" then Root
    else if StrNEq(path, "/echo/", 6) then Echo(path[6..])
    else Unmatched
  }

  /** No path passes two of the routing tests. */
  lemma RoutesExclusive(path: string)
    ensures "/files/" <= path ==> path != "/user-agent" && path != "/" && !("/echo/" <= path)
    ensures "/echo/" <= path ==> path != "/user-agent" && path != "/"
  {
    if "/files/" <= path {
      assert path[1] == 'f';
    }
    if "/echo/" <= path {
      assert path[1] == 'e';
    }
  }

  /** snprintf(filepath, BUFFER_SIZE, "%s/%s", dir, name). */
  function FilePath(dir: string, name: string): (p: string)
    ensures |p| < BUFFER_SIZE && p <= dir + "/" + name
    ensures |dir| + 1 + |name| < BUFFER_SIZE ==> p == dir + "/" + name
    ensures |p| == if |dir| + 1 + |name| < BUFFER_SIZE then |dir| + 1 + |name| else BUFFER_SIZE - 1
  {
    Truncate(dir + "/" + name, BUFFER_SIZE - 1)
  }

  /** The file branch: 404 when stat fails, 500 when fopen fails, the
      file's content otherwise. */
  function ServeFile(dir: string, name: string, fs: FileSystem): (r: Response)
    ensures r == Text(NotFound, "Not Found") <==> FilePath(dir, name) !in fs
    ensures r == Text(InternalServerError, "Internal Server Error")
            <==> FilePath(dir, name) in fs && fs[FilePath(dir, name)].Unopenable?
    ensures r.File? <==> FilePath(dir, name) in fs && fs[FilePath(dir, name)].Readable?
    ensures r.File? ==> r.data == fs[FilePath(dir, name)].data
    ensures r.Text? ==> NUL !in r.message && |r.message| < BUFFER_SIZE
  {
    var p := FilePath(dir, name);
    if p !in fs then Text(NotFound, "Not Found")
    else match fs[p]
      case Unopenable => Text(InternalServerError, "Internal Server Error")
      case Readable(data) => File(data)
  }

  /** The response for a parsed request. */
  function Respond(path: string, userAgent: string, dir: string, fs: FileSystem): (r: Response)
    ensures "/files/" <= path ==> r == ServeFile(dir, path[7..], fs)
    ensures path == "/user-agent" ==> r == Text(Ok, userAgent)
    ensures path == "/" ==> r == Text(Ok, "OK")
    ensures "/echo/" <= path ==> r == Text(Ok, path[6..])
    ensures !("/files/" <= path) && path != "/user-agent" && path != "/" && !("/echo/" <= path)
            ==> r == Text(NotFound, "Not Found")
  {
    match Dispatch(path)
    case Files(name) => ServeFile(dir, name, fs)
    case UserAgentPage => Text(Ok, userAgent)
    case Root => Text(Ok, "OK")
    case Echo(rest) => Text(Ok, rest)
    case Unmatched => Text(NotFound, "Not Found")
  }

  /** Every text message the router builds from a terminated path and
      User-Agent fits the message buffer and has no terminator inside. */
  lemma RespondFits(path: string, userAgent: string, dir: string, fs: FileSystem)
    requires NUL !in path && |path| < BUFFER_SIZE
    requires NUL !in userAgent && |userAgent| < BUFFER_SIZE
    ensures Respond(path, userAgent, dir, fs).Text? ==>
              NUL !in Respond(path, userAgent, dir, fs).message
              && |Respond(path, userAgent, dir, fs).message| < BUFFER_SIZE
  {
    var r := Respond(path, userAgent, dir, fs);
    match Dispatch(path)
    case Files(name) =>
      assert r == ServeFile(dir, name, fs);
    case UserAgentPage =>
      assert r == Text(Ok, userAgent);
    case Root =>
      assert r == Text(Ok, "OK");
    case Echo(rest) =>
      assert r == Text(Ok, rest);
      assert forall c :: c in rest ==> c in path;
    case Unmatched =>
      assert r == Text(NotFound, "Not Found");
  }

  /** The second send of the file branch as the source writes it, for a
      file shorter than BUFFER_SIZE: fread fills the message buffer with
      the file and a terminator, snprintf then writes the octet-stream
      header and its terminator over the start of the same buffer, and
      file_size bytes of that buffer are sent. */
  function FileBodyAsWritten(data: seq<char>): (body: seq<char>)
    requires |data| < BUFFER_SIZE
    ensures |body| == |data|
  {
    var header := OctetHeader(|data|);
    seq(|data|, k requires 0 <= k < |data| =>
      if k < |header| then header[k] else if k == |header| then NUL else data[k])
  }

  /** As written, the body sent for a file is not the file: it starts with
      the header's own "H", so every file that does not start with 'H'
      (the one-byte file "x", say) is answered wrongly. A file no longer
      than the header is answered with a piece of the header; of a longer
      one, only what lies past the header and its terminator survives. */
  lemma FileBodyAsWrittenIsNotTheFile(data: seq<char>)
    requires 0 < |data| < BUFFER_SIZE
    ensures FileBodyAsWritten(data)[0] == 'H'
    ensures data[0] != 'H' ==> FileBodyAsWritten(data) != data
    ensures |data| <= |OctetHeader(|data|)| ==> FileBodyAsWritten(data) == OctetHeader(|data|)[..|data|]
    ensures |OctetHeader(|data|)| < |data| ==>
              FileBodyAsWritten(data) == OctetHeader(|data|) + [NUL] + data[|OctetHeader(|data|)| + 1..]
  {
    OctetHeaderFits(|data|);
    assert OctetHeader(|data|)[0] == 'H';
  }

  /** The sends of the file branch as written. */
  function FileSendsAsWritten(data: seq<char>): (s: seq<string>)
    requires |data| < BUFFER_SIZE
    ensures |s| == 2 && NUL !in s[0] && |s[1]| == |data|
    ensures s[0] == Header(200, "OK", OCTET_STREAM, |data|)
  {
    OctetHeaderFits(|data|);
    [OctetHeader(|data|), FileBodyAsWritten(data)]
  }

  /** What the client reads of the file branch as written: status 200,
      octet-stream, and a body of the file's length that is not the file. */
  lemma FileAsWrittenOnWire(data: seq<char>)
    requires |data| < BUFFER_SIZE
    ensures ParseResponse(Wire(FileSendsAsWritten(data)))
         == Some(Message(200, "OK", OCTET_STREAM, FileBodyAsWritten(data)))
  {
    var body := FileBodyAsWritten(data);
    OctetHeaderFits(|data|);
    assert Wire(FileSendsAsWritten(data)) == OctetHeader(|data|) + body by {
      assert Wire([body]) == body + Wire([]);
    }
    HeaderRoundTrip(200, "OK", OCTET_STREAM, body);
  }

  /** The file branch on the message buffer: fread of the file and a
      terminator after it, snprintf of the octet-stream header over the
      start of the same buffer, then a send of strlen bytes and a send of
      file_size bytes of that buffer. */
  method FileBranch(message: array<char>, data: seq<char>) returns (sends: seq<string>)
    requires message.Length == BUFFER_SIZE && |data| < BUFFER_SIZE
    modifies message
    ensures sends == FileSendsAsWritten(data)
  {
    forall k | 0 <= k < |data| {
      message[k] := data[k];
    }
    message[|data|] := NUL;
    ghost var read := message[..];
    assert read[..|data|] == data;
    var header := OctetHeader(|data|);
    StrCpy(message, header);
    sends := [CStr(message[..]), message[..|data|]];
    HeaderOverlay(data, read, message[..]);
  }

  /** A buffer that held the file and now spells the octet-stream header,
      unchanged past the header's terminator, starts with the as-written
      body. */
  lemma HeaderOverlay(data: seq<char>, read: seq<char>, buf: seq<char>)
    requires |data| < BUFFER_SIZE && |read| == |buf| == BUFFER_SIZE
    requires read[..|data|] == data
    requires CStr(buf) == OctetHeader(|data|)
    requires buf[|OctetHeader(|data|)| + 1..] == read[|OctetHeader(|data|)| + 1..]
    ensures buf[..|data|] == FileBodyAsWritten(data)
  {
    var header := OctetHeader(|data|);
    forall k | 0 <= k < |data|
      ensures buf[k] == FileBodyAsWritten(data)[k]
    {
      if k < |header| {
        assert buf[k] == header[k];
      } else if k > |header| {
        assert buf[k] == buf[|header| + 1..][k - |header| - 1] == read[k] == data[k];
      }
    }
  }
}
