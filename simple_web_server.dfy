/** The simple transfer server: it waits for a DHCP address, then answers
    one HTTP request per connection, routing on the path alone: the index
    page, a download of any stored file, or a test file created on demand
    (`/create/<n>mb`) and sent back at once. */
module SimpleWebServer {
  import opened Base
  import opened Text
  import opened Http
  import opened Wire

  /** Address polls before giving up on DHCP. */
  const PollLimit: nat := 15
  /** What `ifconfig()` reports while no address is assigned. */
  const Unassigned: string := "0.0.0.0"
  /** Chunk size of the file writer. */
  const WriteChunk: nat := 4096
  /** Chunk size of the file sender. */
  const SendChunk: nat := 8192

  // ---------------------------------------------------------------------
  // DHCP wait
  // ---------------------------------------------------------------------

  /** The first of the polls `from .. PollLimit - 1` that reports an
      address, if any. */
  function FirstAssigned(poll: nat -> string, from: nat): (r: Option<nat>)
    requires from <= PollLimit
    decreases PollLimit - from
    ensures r.Some? ==> from <= r.value < PollLimit && poll(r.value) != Unassigned
                        && forall j :: from <= j < r.value ==> poll(j) == Unassigned
    ensures r.None? ==> forall j :: from <= j < PollLimit ==> poll(j) == Unassigned
  {
    if from == PollLimit then None
    else if poll(from) != Unassigned then Some(from)
    else FirstAssigned(poll, from + 1)
  }

  // ---------------------------------------------------------------------
  // Requests and routes
  // ---------------------------------------------------------------------

  /** The path of a received request, or None when the handler returns
      without answering: an empty request, or a first line that does not
      unpack into three fields by `split(' ', 2)`. */
  function RequestPath(request: string): Option<string> {
    if request == "" then None
    else
      var parts := SplitN(Strip(Split(request, '\n')[0]), ' ', 2);
      if |parts| != 3 then None else Some(parts[1])
  }

  /** `Create(number)`: the path was `/create/<number>mb`. */
  datatype Route = Index | Download(name: string) | Create(number: string) | NotFound

  /** `/` is the index, `/download/<name>` sends a file, `/create/<s>` with
      `s` ending in `mb` creates and sends a file, anything else is 404. */
  function RouteOf(path: string): (r: Route)
    ensures r.Download? ==> path == "/download/" + r.name
    ensures r.Create? ==> path == "/create/" + r.number + "mb"
  {
    if path == "/" then Index
    else if StartsWith(path, "/download/") then Download(path[10..])
    else if StartsWith(path, "/create/") && EndsWith(path[8..], "mb") then
      var s := path[8..];
      assert path == path[..8] + s[..|s| - 2] + s[|s| - 2..];
      Create(s[..|s| - 2])
    else NotFound
  }

  /** `f"test_{size_str}.bin"`. */
  function CreatedName(number: string): string {
    "test_" + number + "mb.bin"
  }

  // ---------------------------------------------------------------------
  // Creating a test file
  // ---------------------------------------------------------------------

  /** The bytes the writer aims at: a size below one writes nothing. */
  function Target(sizeBytes: int): (n: nat)
    ensures n == Max(sizeBytes, 0)
  {
    if sizeBytes > 0 then sizeBytes else 0
  }

  // ---------------------------------------------------------------------
  // Responses
  // ---------------------------------------------------------------------

  const NotFoundPage: Response := ErrorPage(404, "Not Found", "<h1>404 Not Found</h1>")

  function ErrorReply(message: string): Response {
    ErrorPage(500, "Internal Server Error", "<h1>Error: " + message + "</h1>")
  }

  const CreateFailedPage: Response := ErrorReply("Failed to create file")

  /** What `serve_file` sends: 404 for a missing file, otherwise the head
      with the file's size and the file in 8 KiB chunks. */
  function FileReply(files: map<string, seq<byte>>, name: string): seq<seq<byte>> {
    if name !in files then [Utf8(Render(NotFoundPage))]
    else [Utf8(Render(FileOk(name, |files[name]|)))] + Stream(files[name], |files[name]|, SendChunk, 0)
  }

  /** What a request leaves behind: the buffers sent and the file system. */
  datatype Outcome = Outcome(sent: seq<seq<byte>>, files: map<string, seq<byte>>)

  /** `create_and_serve` for a file of `sizeBytes` bytes: once the open went
      through, the written file replaces any earlier one; it is sent when
      every write went through, a 500 page otherwise. Only `name` can
      change. */
  function CreateOutcome(files: map<string, seq<byte>>, sizeBytes: int, name: string, fault: Fault): (out: Outcome)
    ensures forall other :: other != name ==> (other in out.files <==> other in files)
    ensures forall other :: other != name && other in files ==> out.files[other] == files[other]
  {
    var after := FilesAfterCreate(files, name, Target(sizeBytes), WriteChunk, fault);
    if CreateFails(Target(sizeBytes), WriteChunk, fault) then Outcome([Utf8(Render(CreateFailedPage))], after)
    else Outcome(FileReply(after, name), after)
  }

  /** What the handler does once the request is routed. `index` is the index
      page's text; `bytesOf(number)` is `int(float(number) * 1024 * 1024)`,
      None when the conversion raises; `fault` says whether the open or a
      chunk write raises. */
  function RouteOutcome(files: map<string, seq<byte>>, route: Route, index: string,
                        bytesOf: string -> Option<int>, fault: Fault): Outcome
  {
    match route
    case Index => Outcome([Utf8(Render(HtmlOk(index)))], files)
    case Download(name) => Outcome(FileReply(files, name), files)
    case Create(number) =>
      (match bytesOf(number)
       case None => Outcome([], files)
       case Some(size) => CreateOutcome(files, size, CreatedName(number), fault))
    case NotFound => Outcome([Utf8(Render(NotFoundPage))], files)
  }

  /** Everything one received request causes. `request` is None when
      receiving or decoding raised. */
  function RequestOutcome(files: map<string, seq<byte>>, request: Option<string>, index: string,
                          bytesOf: string -> Option<int>, fault: Fault): Outcome
  {
    if request.None? then Outcome([], files)
    else match RequestPath(request.value)
      case None => Outcome([], files)
      case Some(path) => RouteOutcome(files, RouteOf(path), index, bytesOf, fault)
  }

  // ---------------------------------------------------------------------
  // Properties of the handler
  // ---------------------------------------------------------------------

  /** The first line unpacks into three fields exactly when it holds at
      least two spaces; otherwise nothing is sent and no file changes. */
  lemma SilentUnlessThreeFields(files: map<string, seq<byte>>, request: string, index: string,
                                bytesOf: string -> Option<int>, fault: Fault)
    requires request != ""
    ensures var line := Strip(Split(request, '\n')[0]);
            RequestPath(request).Some? <==> Count(line, ' ') >= 2
    ensures var line := Strip(Split(request, '\n')[0]);
            Count(line, ' ') < 2 ==> RequestOutcome(files, Some(request), index, bytesOf, fault) == Outcome([], files)
  {
    SplitNLength(Strip(Split(request, '\n')[0]), ' ', 2);
  }

  /** A well-formed request line is answered by the route of its path. */
  lemma OutcomeOfRequestLine(files: map<string, seq<byte>>, verb: string, path: string, version: string,
                             rest: string, index: string, bytesOf: string -> Option<int>, fault: Fault)
    requires verb != [] && path != [] && version != []
    requires NoSpace(verb) && NoSpace(path) && NoSpace(version)
    ensures RequestOutcome(files, Some(verb + " " + path + " " + version + "\r\n" + rest), index, bytesOf, fault)
            == RouteOutcome(files, RouteOf(path), index, bytesOf, fault)
  {
    RequestPathOfLine(verb, path, version, rest);
  }

  /** A request line of three space-free fields yields its middle one. */
  lemma RequestPathOfLine(verb: string, path: string, version: string, rest: string)
    requires verb != [] && path != [] && version != []
    requires NoSpace(verb) && NoSpace(path) && NoSpace(version)
    ensures RequestPath(verb + " " + path + " " + version + "\r\n" + rest) == Some(path)
  {
    var request := verb + " " + path + " " + version + "\r\n" + rest;
    assert |request| > 0;
    RequestLineSplit(verb, path, version, rest);
    PathOfParts(request, [verb, path, version]);
  }

  lemma PathOfParts(request: string, parts: seq<string>)
    requires request != "" && SplitN(Strip(Split(request, '\n')[0]), ' ', 2) == parts && |parts| == 3
    ensures RequestPath(request) == Some(parts[1])
  {
  }

  /** The method plays no part: any two methods get the same answer. */
  lemma MethodIgnored(files: map<string, seq<byte>>, verb1: string, verb2: string, path: string, version: string,
                      rest: string, index: string, bytesOf: string -> Option<int>, fault: Fault)
    requires verb1 != [] && verb2 != [] && path != [] && version != []
    requires NoSpace(verb1) && NoSpace(verb2) && NoSpace(path) && NoSpace(version)
    ensures RequestOutcome(files, Some(verb1 + " " + path + " " + version + "\r\n" + rest), index, bytesOf, fault)
            == RequestOutcome(files, Some(verb2 + " " + path + " " + version + "\r\n" + rest), index, bytesOf, fault)
  {
    OutcomeOfRequestLine(files, verb1, path, version, rest, index, bytesOf, fault);
    OutcomeOfRequestLine(files, verb2, path, version, rest, index, bytesOf, fault);
  }

  /** A stored file is sent as its head, declaring its size, followed by
      exactly its bytes; a missing one is answered 404. */
  lemma FileReplySendsWholeFile(files: map<string, seq<byte>>, name: string)
    ensures var reply := FileReply(files, name);
            if name !in files then reply == [Utf8(Render(NotFoundPage))]
            else |reply| >= 1 && reply[0] == Utf8(Render(FileOk(name, |files[name]|)))
                 && HeaderValue(FileOk(name, |files[name]|).headers, "Content-Length") == Some(NatToDecimal(|files[name]|))
                 && Flatten(reply[1..]) == files[name]
  {
    if name in files {
      var reply := FileReply(files, name);
      assert reply[1..] == Stream(files[name], |files[name]|, SendChunk, 0);
      StreamSendsWholeFile(files[name], |files[name]|, SendChunk);
      FileOkHeaders(name, |files[name]|);
    }
  }

  /** `/create/<n>mb` whose size converts writes the pattern file
      `test_<n>mb.bin` of that many bytes (none for a size below one) and,
      when every write went through, sends it back whole; a failed write
      leaves the partial file, and an open that raises leaves every file as
      it was; both are answered 500. No other file changes. */
  lemma CreateWritesPattern(files: map<string, seq<byte>>, number: string, size: int, index: string,
                            bytesOf: string -> Option<int>, fault: Fault)
    requires bytesOf(number) == Some(size)
    ensures var name := CreatedName(number);
            var out := RouteOutcome(files, Create(number), index, bytesOf, fault);
            (fault.OpenFails? ==> out.files == files)
            && (!fault.OpenFails? ==> out.files == files[name := Pattern(BytesWritten(Target(size), WriteChunk, fault))])
            && (CreateFails(Target(size), WriteChunk, fault) ==> out.sent == [Utf8(Render(CreateFailedPage))])
            && (!CreateFails(Target(size), WriteChunk, fault) ==>
                  |out.sent| >= 1 && out.sent[0] == Utf8(Render(FileOk(name, Target(size))))
                  && Flatten(out.sent[1..]) == Pattern(Target(size)))
  {
    var name := CreatedName(number);
    if !fault.OpenFails? {
      var after := files[name := Pattern(BytesWritten(Target(size), WriteChunk, fault))];
      FileReplySendsWholeFile(after, name);
    }
  }

  /** A `/create/` path whose size part does not end in `mb` is 404, and a
      size that does not convert gets no answer; neither touches a file. */
  lemma CreateRejects(files: map<string, seq<byte>>, path: string, index: string,
                      bytesOf: string -> Option<int>, fault: Fault)
    requires StartsWith(path, "/create/")
    ensures !EndsWith(path[8..], "mb") ==>
              RouteOutcome(files, RouteOf(path), index, bytesOf, fault) == Outcome([Utf8(Render(NotFoundPage))], files)
    ensures EndsWith(path[8..], "mb") && bytesOf(path[8..|path| - 2]) == None ==>
              RouteOutcome(files, RouteOf(path), index, bytesOf, fault) == Outcome([], files)
  {
    assert path != "/" && path[1] == 'c';
    assert !StartsWith(path, "/download/");
    var t := path[8..];
    if |t| >= 2 {
      assert t[..|t| - 2] == path[8..|path| - 2];
    }
  }

  // ---------------------------------------------------------------------
  // The server
  // ---------------------------------------------------------------------

  class Server {
    var ipAddress: Option<string>

    constructor ()
      ensures ipAddress.None?
    {
      ipAddress := None;
    }

    /** `setup_network`: poll the interface up to 15 times and keep the
        first address reported. `lanOk` is false when bringing the
        interface up raised. An empty address counts as none. */
    method SetupNetwork(lanOk: bool, poll: nat -> string) returns (ok: bool)
      modifies this
      ensures !lanOk ==> !ok && ipAddress == old(ipAddress)
      ensures lanOk ==> ipAddress == match FirstAssigned(poll, 0)
                                     case None => old(ipAddress)
                                     case Some(k) => Some(poll(k))
      ensures lanOk ==> (ok <==> ipAddress.Some? && ipAddress.value != "")
    {
      if !lanOk {
        return false;
      }
      var timeout: nat := PollLimit;
      while timeout > 0
        invariant timeout <= PollLimit
        invariant ipAddress == old(ipAddress)
        invariant FirstAssigned(poll, 0) == FirstAssigned(poll, PollLimit - timeout)
      {
        var config := poll(PollLimit - timeout);
        if config != Unassigned {
          ipAddress := Some(config);
          break;
        }
        timeout := timeout - 1;
      }
      ok := ipAddress.Some? && ipAddress.value != "";
    }

    /** `create_large_file`: write the pattern in chunks of at most 4 KiB.
        An open that raises changes nothing; a raising chunk write leaves
        what was written before it. */
    method CreateLargeFile(fs: FileStore, sizeBytes: int, filename: string, fault: Fault) returns (ok: bool)
      modifies fs
      ensures fs.files == FilesAfterCreate(old(fs.files), filename, Target(sizeBytes), WriteChunk, fault)
      ensures !fault.OpenFails? ==> fs.files[filename] == Pattern(BytesWritten(Target(sizeBytes), WriteChunk, fault))
      ensures ok <==> !CreateFails(Target(sizeBytes), WriteChunk, fault)
    {
      if fault.OpenFails? {
        return false;
      }
      fs.files := fs.files[filename := []];
      var written: nat := 0;
      var k: nat := 0;
      while written < sizeBytes
        invariant written == Min(k * WriteChunk, Target(sizeBytes))
        invariant fault.ChunkFails? ==> k <= fault.chunk
        invariant fs.files == old(fs.files)[filename := Pattern(written)]
        decreases sizeBytes - written
      {
        var remaining := Min(WriteChunk, sizeBytes - written);
        var chunk: seq<byte> := [];
        var i := 0;
        while i < remaining
          invariant i <= remaining
          invariant |chunk| == i && forall q :: 0 <= q < i ==> chunk[q] as int == (written + q) % 256
        {
          chunk := chunk + [((written + i) % 256) as byte];
          i := i + 1;
        }
        if fault == ChunkFails(k) {
          return false;
        }
        PatternExtend(written, chunk);
        fs.files := fs.files[filename := fs.files[filename] + chunk];
        written := written + remaining;
        k := k + 1;
      }
      ok := true;
    }

    /** `serve_404`. */
    method Serve404(sock: ClientSocket)
      modifies sock
      ensures sock.log == old(sock.log) + [Utf8(Render(NotFoundPage))] && sock.closed == old(sock.closed)
    {
      sock.Send(Utf8(Render(NotFoundPage)));
    }

    /** `serve_error(message)`. */
    method ServeError(sock: ClientSocket, message: string)
      modifies sock
      ensures sock.log == old(sock.log) + [Utf8(Render(ErrorReply(message)))] && sock.closed == old(sock.closed)
    {
      sock.Send(Utf8(Render(ErrorReply(message))));
    }

    /** `serve_index`, its page text given. */
    method ServeIndex(sock: ClientSocket, index: string)
      modifies sock
      ensures sock.log == old(sock.log) + [Utf8(Render(HtmlOk(index)))] && sock.closed == old(sock.closed)
    {
      sock.Send(Utf8(Render(HtmlOk(index))));
    }

    /** `serve_file`: 404 for a missing file, otherwise the head with the
        file's size and then the file in 8 KiB chunks. */
    method ServeFile(sock: ClientSocket, fs: FileStore, filename: string)
      modifies sock
      ensures sock.closed == old(sock.closed)
      ensures sock.log == old(sock.log) + FileReply(fs.files, filename)
    {
      if filename !in fs.files {
        Serve404(sock);
        return;
      }
      var content := fs.files[filename];
      ghost var before := sock.log;
      var head := Utf8(Render(FileOk(filename, |content|)));
      sock.Send(head);
      ghost var chunks := Stream(content, |content|, SendChunk, 0);
      var sent := StreamFile(sock, content, |content|, SendChunk);
      Assoc(before, [head], chunks);
    }

    /** `create_and_serve`: create the file, then send it or a 500 page. */
    method CreateAndServe(sock: ClientSocket, fs: FileStore, sizeBytes: int, filename: string, fault: Fault)
      modifies sock, fs
      ensures sock.closed == old(sock.closed)
      ensures var out := CreateOutcome(old(fs.files), sizeBytes, filename, fault);
              sock.log == old(sock.log) + out.sent && fs.files == out.files
    {
      var ok := CreateLargeFile(fs, sizeBytes, filename, fault);
      if ok {
        ServeFile(sock, fs, filename);
      } else {
        ServeError(sock, "Failed to create file");
      }
    }

    /** The routing part of `handle_request`. */
    method Respond(sock: ClientSocket, fs: FileStore, path: string, index: string,
                   bytesOf: string -> Option<int>, fault: Fault)
      modifies sock, fs
      ensures sock.closed == old(sock.closed)
      ensures sock.log == old(sock.log) + RouteOutcome(old(fs.files), RouteOf(path), index, bytesOf, fault).sent
      ensures fs.files == RouteOutcome(old(fs.files), RouteOf(path), index, bytesOf, fault).files
    {
      if path == "/" {
        assert RouteOf(path) == Index;
        ServeIndex(sock, index);
      } else if StartsWith(path, "/download/") {
        assert RouteOf(path) == Download(path[10..]);
        ServeFile(sock, fs, path[10..]);
      } else {
        RespondCreate(sock, fs, path, index, bytesOf, fault);
      }
    }

    /** The rest of the routing: `/create/<s>mb`, or 404. */
    method RespondCreate(sock: ClientSocket, fs: FileStore, path: string, index: string,
                         bytesOf: string -> Option<int>, fault: Fault)
      requires path != "/" && !StartsWith(path, "/download/")
      modifies sock, fs
      ensures sock.closed == old(sock.closed)
      ensures sock.log == old(sock.log) + RouteOutcome(old(fs.files), RouteOf(path), index, bytesOf, fault).sent
      ensures fs.files == RouteOutcome(old(fs.files), RouteOf(path), index, bytesOf, fault).files
    {
      if StartsWith(path, "/create/") {
        var sizeStr := path[8..];
        if EndsWith(sizeStr, "mb") {
          var number := sizeStr[..|sizeStr| - 2];
          assert RouteOf(path) == Create(number);
          var size := bytesOf(number);
          if size.None? {
            return;
          }
          CreateAndServe(sock, fs, size.value, CreatedName(number), fault);
        } else {
          assert RouteOf(path) == NotFound;
          Serve404(sock);
        }
      } else {
        assert RouteOf(path) == NotFound;
        Serve404(sock);
      }
    }

    /** `handle_request`: answer one request and always close the
        connection. `request` is None when receiving or decoding raised. */
    method HandleRequest(sock: ClientSocket, fs: FileStore, request: Option<string>, index: string,
                         bytesOf: string -> Option<int>, fault: Fault)
      modifies sock, fs
      ensures sock.closed
      ensures sock.log == old(sock.log) + RequestOutcome(old(fs.files), request, index, bytesOf, fault).sent
      ensures fs.files == RequestOutcome(old(fs.files), request, index, bytesOf, fault).files
    {
      if request.Some? && request.value != "" {
        var lines := Split(request.value, '\n');
        var parts := SplitN(Strip(lines[0]), ' ', 2);
        if |parts| == 3 {
          Respond(sock, fs, parts[1], index, bytesOf, fault);
        }
      }
      sock.Close();
    }
  }
}
