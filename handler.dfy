/** handle_client as a whole: the received bytes (or the failed receive)
    in, the sends (or an overrun) out. The Exchange function is the specification and
    HandleClient the imperative body proved against it; the lemmas read
    the sends back as a client does. */
module Handler {
  import opened CLib
  import opened ServerH
  import opened Writer
  import opened Parser
  import opened Router

  /** What recv() returned: an error, or the bytes it stored into the
      zero-initialised request buffer. */
  datatype Received = RecvFailed | Received(bytes: seq<char>)

  /** What one connection produces: the sends, in order, or a write past
      the message buffer (for a file of BUFFER_SIZE bytes or more, the
      file branch's fread, or the NUL stored after what it read), after
      which C promises nothing. */
  datatype Outcome = Sent(sends: seq<string>) | Overrun

  /** How handle_client answers a response: text through send_response,
      a file through the file branch as written. */
  function Answer(r: Response): (o: Outcome)
    ensures o.Overrun? <==> r.File? && |r.data| >= BUFFER_SIZE
    ensures o.Sent? ==> |o.sends| == 2
    ensures r.Text? ==> o.Sent? && |o.sends| == 2 && o.sends[1] == CStr(r.message)
    ensures r.File? && o.Sent? ==>
              |o.sends| == 2 && |o.sends[1]| == |r.data|
              && o.sends[0] == Header(200, "OK", OCTET_STREAM, |r.data|)
  {
    match r
    case Text(code, message) => Sent(SendResponse(code, message))
    case File(data) => if |data| < BUFFER_SIZE then Sent(FileSendsAsWritten(data)) else Overrun
  }

  /** The outcome of handle_client for one connection. A failed receive is
      answered with a 500; an unsupported method closes the connection
      without an answer; any other request is routed. The path is read
      from PathStart, so the bare request "GET", for which the source reads
      one byte past its copy, is routed on the empty path. */
  function Exchange(rcv: Received, dir: string, fs: FileSystem): (o: Outcome)
    ensures o.Sent? ==> o.sends == [] || |o.sends| == 2
    ensures o == Sent([]) <==> rcv.Received? && ClassifyMethod(CStr(rcv.bytes)).None?
    ensures o.Overrun? ==> rcv.Received? && exists p :: p in fs && fs[p].Readable? && |fs[p].data| >= BUFFER_SIZE
  {
    match rcv
    case RecvFailed => Sent(SendResponse(InternalServerError, "Internal Server Error"))
    case Received(bytes) =>
      var content := CStr(bytes);
      if ClassifyMethod(content).None? then Sent([])
      else Answer(Respond(PathOf(content), UserAgentOf(content), dir, fs))
  }

  /** The body of handle_client: strdup of the buffer into a terminated
      array, the method test, the path and User-Agent filled into a fresh
      Request, the route taken on what they spell, and the file branch
      run on a fresh message buffer. */
  method HandleClient(rcv: Received, dir: string, fs: FileSystem) returns (outcome: Outcome)
    ensures outcome == Exchange(rcv, dir, fs)
  {
    match rcv
    case RecvFailed =>
      outcome := Sent(SendResponse(InternalServerError, "Internal Server Error"));
    case Received(bytes) =>
      var text := CStr(bytes);
      var content := new char[|text| + 1](i requires 0 <= i <= |text| => if i < |text| then text[i] else NUL);
      assert content[..content.Length - 1] == text;
      var m := ClassifyMethod(content[..content.Length - 1]);
      if m.None? {
        outcome := Sent([]);
        return;
      }
      var request := new Request();
      request.httpMethod := m.value;
      request.ReadPath(content);
      request.ReadUserAgent(content);
      outcome := Reply(Respond(CStr(request.path[..]), CStr(request.userAgent[..]), dir, fs));
  }

  /** The sending half of handle_client: send_response for a text
      message, the file branch on a fresh message buffer for a file. */
  method Reply(response: Response) returns (outcome: Outcome)
    ensures outcome == Answer(response)
  {
    match response
    case Text(code, message) =>
      outcome := Sent(SendResponse(code, message));
    case File(data) =>
      if |data| < BUFFER_SIZE {
        var message := new char[BUFFER_SIZE];
        var sends := FileBranch(message, data);
        outcome := Sent(sends);
      } else {
        outcome := Overrun;
      }
  }

  /** What a client reads from an outcome; nothing after an overrun. */
  function ClientReads(o: Outcome): Option<Message>
  {
    match o
    case Sent(sends) => ParseResponse(Wire(sends))
    case Overrun => None
  }

  /** What a client reads of a response answered as handle_client does. */
  function Reading(r: Response): Option<Message>
  {
    match r
    case Text(code, message) => Some(Message(CodeValue(code), Reason(code), TEXT_PLAIN, message))
    case File(data) =>
      if |data| < BUFFER_SIZE then Some(Message(200, "OK", OCTET_STREAM, FileBodyAsWritten(data))) else None
  }

  /** A failed receive reaches the client as status 500 with send_response's
      reason phrase for every non-200 code, "Not Found". */
  lemma RecvFailureOnWire(dir: string, fs: FileSystem)
    ensures ClientReads(Exchange(RecvFailed, dir, fs))
         == Some(Message(500, "Not Found", TEXT_PLAIN, "Internal Server Error"))
  {
    FailureReplyOnWire();
  }

  /** The reply to a failed receive, as the client parses it. */
  lemma FailureReplyOnWire()
    ensures ParseResponse(Wire(SendResponse(InternalServerError, "Internal Server Error")))
         == Some(Message(500, "Not Found", TEXT_PLAIN, "Internal Server Error"))
  {
    TextOnWire(InternalServerError, "Internal Server Error");
  }

  /** A response handle_client answers reaches the client as `Reading`
      says: a terminated text message that fits the buffer intact, a file
      with its as-written body, a file of BUFFER_SIZE bytes or more not at
      all. */
  lemma AnswerOnWire(r: Response)
    requires r.Text? ==> NUL !in r.message && |r.message| < BUFFER_SIZE
    ensures ClientReads(Answer(r)) == Reading(r)
    ensures Answer(r).Overrun? <==> r.File? && |r.data| >= BUFFER_SIZE
  {
    match r
    case Text(code, message) =>
      var sends := SendResponse(code, message);
      assert Answer(r) == Sent(sends);
      TextOnWire(code, message);
      assert ClientReads(Sent(sends)) == ParseResponse(Wire(sends));
    case File(data) =>
      if |data| < BUFFER_SIZE {
        var sends := FileSendsAsWritten(data);
        assert Answer(r) == Sent(sends);
        FileAsWrittenOnWire(data);
        assert ClientReads(Sent(sends)) == ParseResponse(Wire(sends));
      }
  }

  /** Every routed request is answered with the router's response to the
      parsed path and User-Agent, and reaches the client as `Reading` of
      that response. */
  lemma RoutedOnWire(bytes: seq<char>, dir: string, fs: FileSystem)
    requires ClassifyMethod(CStr(bytes)).Some?
    ensures Exchange(Received(bytes), dir, fs)
         == Answer(Respond(PathOf(CStr(bytes)), UserAgentOf(CStr(bytes)), dir, fs))
    ensures ClientReads(Exchange(Received(bytes), dir, fs))
         == Reading(Respond(PathOf(CStr(bytes)), UserAgentOf(CStr(bytes)), dir, fs))
  {
    var content := CStr(bytes);
    var path := PathOf(content);
    var ua := UserAgentOf(content);
    var r := Respond(path, ua, dir, fs);
    assert Exchange(Received(bytes), dir, fs) == Answer(r);
    ParsedFieldsTerminated(content);
    RespondFits(path, ua, dir, fs);
    AnswerOnWire(r);
  }

  /** The path and User-Agent read from a C string are C strings that fit
      their buffers. */
  lemma ParsedFieldsTerminated(content: string)
    requires NUL !in content
    ensures NUL !in PathOf(content) && |PathOf(content)| < BUFFER_SIZE
    ensures NUL !in UserAgentOf(content) && |UserAgentOf(content)| < BUFFER_SIZE
  {
    var path := PathOf(content);
    assert path <= content[PathStart(content)..];
    assert forall c :: c in path ==> c in content[PathStart(content)..];
  }

  /** A request line "GET <target> ..." routes on exactly `target`. */
  lemma GetOnWire(target: string, rest: string, dir: string, fs: FileSystem)
    requires NUL !in target && ' ' !in target && |target| < BUFFER_SIZE
    ensures Exchange(Received("GET " + target + " " + rest), dir, fs)
         == Answer(Respond(target, UserAgentOf(CStr("GET " + target + " " + rest)), dir, fs))
    ensures ClientReads(Exchange(Received("GET " + target + " " + rest), dir, fs))
         == Reading(Respond(target, UserAgentOf(CStr("GET " + target + " " + rest)), dir, fs))
  {
    var bytes := "GET " + target + " " + rest;
    var line := "GET " + target + " ";
    assert bytes == line + rest;
    CStrConcat(line, rest);
    var content := CStr(bytes);
    assert content == "GET " + target + (" " + CStr(rest));
    PathOfRequestLine(content, "GET ", target, " " + CStr(rest));
    assert "GET" <= content;
    RoutedOnWire(bytes, dir, fs);
  }

  /** "GET /echo/<s>" is answered 200 with body `s`. */
  lemma EchoOnWire(s: string, rest: string, dir: string, fs: FileSystem)
    requires NUL !in s && ' ' !in s && |s| < BUFFER_SIZE - 6
    ensures ClientReads(Exchange(Received("GET " + ("/echo/" + s) + " " + rest), dir, fs))
         == Some(Message(200, "OK", TEXT_PLAIN, s))
  {
    GetOnWire("/echo/" + s, rest, dir, fs);
    assert ("/echo/" + s)[6..] == s;
  }

  /** "GET /" is answered 200 with body "OK". */
  lemma RootOnWire(rest: string, dir: string, fs: FileSystem)
    ensures ClientReads(Exchange(Received("GET " + "/" + " " + rest), dir, fs))
         == Some(Message(200, "OK", TEXT_PLAIN, "OK"))
  {
    GetOnWire("/", rest, dir, fs);
  }

  /** "GET /user-agent" is answered 200 with the extracted User-Agent. */
  lemma UserAgentPageOnWire(rest: string, dir: string, fs: FileSystem)
    ensures ClientReads(Exchange(Received("GET " + "/user-agent" + " " + rest), dir, fs))
         == Some(Message(200, "OK", TEXT_PLAIN, UserAgentOf(CStr("GET " + "/user-agent" + " " + rest))))
  {
    GetOnWire("/user-agent", rest, dir, fs);
  }

  /** "GET /files/<name>": 404 when the joined path does not exist, 500
      (with the reason phrase "Not Found") when it cannot be opened, and
      200 octet-stream otherwise, with the as-written body of the file's
      length, or an overrun for a file of BUFFER_SIZE bytes or more. */
  lemma FilesOnWire(name: string, rest: string, dir: string, fs: FileSystem)
    requires NUL !in name && ' ' !in name && |name| < BUFFER_SIZE - 7
    ensures var outcome := Exchange(Received("GET " + ("/files/" + name) + " " + rest), dir, fs);
            var reply := ClientReads(outcome);
            var p := FilePath(dir, name);
            && (p !in fs ==> reply == Some(Message(404, "Not Found", TEXT_PLAIN, "Not Found")))
            && (p in fs && fs[p].Unopenable? ==>
                  reply == Some(Message(500, "Not Found", TEXT_PLAIN, "Internal Server Error")))
            && (p in fs && fs[p].Readable? && |fs[p].data| < BUFFER_SIZE ==>
                  reply == Some(Message(200, "OK", OCTET_STREAM, FileBodyAsWritten(fs[p].data))))
            && (p in fs && fs[p].Readable? && |fs[p].data| >= BUFFER_SIZE ==> outcome == Overrun)
  {
    var bytes := "GET " + ("/files/" + name) + " " + rest;
    GetOnWire("/files/" + name, rest, dir, fs);
    assert ("/files/" + name)[7..] == name;
    assert Exchange(Received(bytes), dir, fs) == Answer(ServeFile(dir, name, fs));
    ServeFileOnWire(dir, name, fs);
  }

  /** The file branch's three outcomes as the client reads them. */
  lemma ServeFileOnWire(dir: string, name: string, fs: FileSystem)
    ensures var outcome := Answer(ServeFile(dir, name, fs));
            var reply := ClientReads(outcome);
            var p := FilePath(dir, name);
            && (p !in fs ==> reply == Some(Message(404, "Not Found", TEXT_PLAIN, "Not Found")))
            && (p in fs && fs[p].Unopenable? ==>
                  reply == Some(Message(500, "Not Found", TEXT_PLAIN, "Internal Server Error")))
            && (p in fs && fs[p].Readable? && |fs[p].data| < BUFFER_SIZE ==>
                  reply == Some(Message(200, "OK", OCTET_STREAM, FileBodyAsWritten(fs[p].data))))
            && (p in fs && fs[p].Readable? && |fs[p].data| >= BUFFER_SIZE ==> outcome == Overrun)
  {
    var p := FilePath(dir, name);
    var r := ServeFile(dir, name, fs);
    if p !in fs {
      assert r == Text(NotFound, "Not Found");
      TextAnswerOnWire(NotFound, "Not Found");
    } else if fs[p].Unopenable? {
      assert r == Text(InternalServerError, "Internal Server Error");
      TextAnswerOnWire(InternalServerError, "Internal Server Error");
    } else {
      assert r == File(fs[p].data);
      AnswerOnWire(r);
    }
  }

  /** A terminated text message that fits the buffer reaches the client
      with its code, send_response's reason phrase and exactly its text. */
  lemma TextAnswerOnWire(code: HttpCode, message: string)
    requires NUL !in message && |message| < BUFFER_SIZE
    ensures ClientReads(Answer(Text(code, message)))
         == Some(Message(CodeValue(code), Reason(code), TEXT_PLAIN, message))
  {
    AnswerOnWire(Text(code, message));
  }

  /** A POST request's path is read from offset 4, which is the space after
      "POST", so it is empty and every POST is answered 404. */
  lemma PostOnWire(rest: string, dir: string, fs: FileSystem)
    ensures ClientReads(Exchange(Received("POST " + rest), dir, fs))
         == Some(Message(404, "Not Found", TEXT_PLAIN, "Not Found"))
  {
    var bytes := "POST " + rest;
    CStrConcat("POST ", rest);
    var content := CStr(bytes);
    assert content == "POST" + [] + (" " + CStr(rest));
    PathOfRequestLine(content, "POST", [], " " + CStr(rest));
    assert "POST" <= content;
    assert !("GET" <= content) by {
      assert content[0] == 'P';
    }
    RoutedOnWire(bytes, dir, fs);
  }
}
