/** The network transfer tester: it writes patterned test files to flash,
    keeps a catalogue of them (a Python dict, so insertion-ordered), answers
    one HTTP request per connection (the catalogue page, a catalogued file,
    404 or 405), checks a file's leading pattern, and removes its files. */
module NetworkTester {
  import opened Base
  import opened Text
  import opened Http
  import opened Wire

  const ChunkSize: nat := 8192
  const MiB: nat := 1024 * 1024

  // ---------------------------------------------------------------------
  // The catalogue (`test_files`)
  // ---------------------------------------------------------------------

  datatype Entry = Entry(name: string, size: nat)

  predicate UniqueNames(cat: seq<Entry>) {
    forall i, j :: 0 <= i < j < |cat| ==> cat[i].name != cat[j].name
  }

  /** `test_files.get(name)`. */
  function Lookup(cat: seq<Entry>, name: string): (r: Option<nat>)
    ensures r.Some? <==> exists k :: 0 <= k < |cat| && cat[k].name == name
  {
    if cat == [] then None
    else if cat[0].name == name then Some(cat[0].size)
    else Lookup(cat[1..], name)
  }

  /** `test_files[name] = size`: an existing key keeps its place, a new key
      goes last. */
  function Assign(cat: seq<Entry>, name: string, size: nat): seq<Entry> {
    if cat == [] then [Entry(name, size)]
    else if cat[0].name == name then [Entry(name, size)] + cat[1..]
    else [cat[0]] + Assign(cat[1..], name, size)
  }

  function Names(cat: seq<Entry>): (ns: seq<string>)
    ensures |ns| == |cat| && forall k :: 0 <= k < |cat| ==> ns[k] == cat[k].name
  {
    seq(|cat|, k requires 0 <= k < |cat| => cat[k].name)
  }

  /** After an assignment the key maps to the new size and no other key
      changes. */
  lemma {:induction false} AssignLookup(cat: seq<Entry>, name: string, size: nat, other: string)
    ensures Lookup(Assign(cat, name, size), other) == if other == name then Some(size) else Lookup(cat, other)
  {
    if cat != [] && cat[0].name != name {
      AssignLookup(cat[1..], name, size, other);
      assert Assign(cat, name, size)[1..] == Assign(cat[1..], name, size);
    }
  }

  /** Re-assigning a key keeps the order of the keys; a new key is appended. */
  lemma {:induction false} AssignOrder(cat: seq<Entry>, name: string, size: nat)
    ensures Lookup(cat, name).Some? ==> Names(Assign(cat, name, size)) == Names(cat)
    ensures Lookup(cat, name).None? ==> Names(Assign(cat, name, size)) == Names(cat) + [name]
  {
    if cat == [] {
      assert Names([Entry(name, size)]) == [name];
    } else if cat[0].name != name {
      AssignOrder(cat[1..], name, size);
      assert Assign(cat, name, size) == [cat[0]] + Assign(cat[1..], name, size);
      assert cat == [cat[0]] + cat[1..];
      NamesCons(cat[0], cat[1..]);
      NamesCons(cat[0], Assign(cat[1..], name, size));
      Assoc([cat[0].name], Names(cat[1..]), [name]);
    } else {
      assert cat == [cat[0]] + cat[1..];
      NamesCons(cat[0], cat[1..]);
      NamesCons(Entry(name, size), cat[1..]);
    }
  }

  lemma NamesCons(e: Entry, rest: seq<Entry>)
    ensures Names([e] + rest) == [e.name] + Names(rest)
  {
  }

  /** Assignment never duplicates a key. */
  lemma {:induction false} AssignUnique(cat: seq<Entry>, name: string, size: nat)
    requires UniqueNames(cat)
    ensures UniqueNames(Assign(cat, name, size))
  {
    if cat != [] && cat[0].name != name {
      AssignUnique(cat[1..], name, size);
      var r := Assign(cat, name, size);
      assert r == [cat[0]] + Assign(cat[1..], name, size);
      forall j | 1 <= j < |r|
        ensures r[0].name != r[j].name
      {
        AssignLookup(cat[1..], name, size, cat[0].name);
        assert Lookup(Assign(cat[1..], name, size), cat[0].name) == Lookup(cat[1..], cat[0].name);
        assert Lookup(cat[1..], cat[0].name).None?;
        assert r[j] == Assign(cat[1..], name, size)[j - 1];
      }
    } else if cat != [] {
      assert Assign(cat, name, size)[1..] == cat[1..];
    }
  }

  // ---------------------------------------------------------------------
  // Requests and routes
  // ---------------------------------------------------------------------

  /** Method and path of a received request, or None when the handler
      returns without answering: an empty request, or a first line with
      fewer than two space-separated fields. */
  function RequestFields(request: string): Option<(string, string)> {
    if request == "" then None
    else
      var line := Strip(Split(request, '\n')[0]);
      var parts := Split(line, ' ');
      if |parts| < 2 then None else Some((parts[0], parts[1]))
  }

  datatype Route = FileList | TestFile(name: string) | NotFound | NotAllowed

  /** GET `/` lists the files, GET `/test_*.bin` sends one, any other GET
      path is 404 and any other method is 405. */
  function RouteOf(verb: string, path: string): (r: Route)
    ensures r.TestFile? ==> "/" + r.name == path
  {
    if verb != "GET" then NotAllowed
    else if path == "/" then FileList
    else if StartsWith(path, "/test_") && EndsWith(path, ".bin") then TestFile(path[1..])
    else NotFound
  }

  // ---------------------------------------------------------------------
  // Responses
  // ---------------------------------------------------------------------

  const NotFoundPage: Response := ErrorPage(404, "Not Found", "<html><body><h1>404 Not Found</h1></body></html>")
  const NotAllowedPage: Response :=
    ErrorPage(405, "Method Not Allowed", "<html><body><h1>405 Method Not Allowed</h1></body></html>")

  const ListingHead: string :=
    "<!DOCTYPE html>\n<html>\n<head>\n    <title>RA6M5 Network Test Files</title>\n    <style>\n"
    + "        body { font-family: Arial, sans-serif; margin: 40px; }\n"
    + "        .file-list { margin: 20px 0; }\n"
    + "        .file-item { margin: 10px 0; padding: 10px; border: 1px solid #ccc; }\n"
    + "        .download-btn { background: #007cba; color: white; padding: 8px 16px; text-decoration: none; border-radius: 4px; }\n"
    + "    </style>\n</head>\n<body>\n    <h1>RA6M5 Network Test Files</h1>\n    <p>Board IP: "
  const ListingOpen: string := "</p>\n    <div class=\"file-list\">\n"
  const ListingTail: string :=
    "\n    </div>\n    <p><em>Use these files to test maximum transfer speeds and sizes.</em></p>\n</body>\n</html>\n"

  /** The fixed text of the listing page around the address and the file
      blocks. */
  datatype Layout = Layout(head: string, open: string, tail: string)

  const Listing: Layout := Layout(ListingHead, ListingOpen, ListingTail)

  /** One catalogue entry on the page; `mbText` renders the size in MiB with
      one decimal (a float format). */
  function Item(e: Entry, mbText: nat -> string): string {
    "\n        <div class=\"file-item\">\n            <strong>" + e.name + "</strong> ("
    + mbText(e.size) + "MB, " + Thousands(e.size) + " bytes)<br>\n            <a href=\"/"
    + e.name + "\" class=\"download-btn\">Download</a>\n        </div>\n"
  }

  /** The entries' blocks in catalogue order, each rendered by `item`. */
  function Items(cat: seq<Entry>, item: Entry -> string): string {
    if cat == [] then "" else Items(cat[..|cat| - 1], item) + item(cat[|cat| - 1])
  }

  /** `Item` with the size formatting fixed. */
  function ItemRenderer(mbText: nat -> string): Entry -> string {
    e => Item(e, mbText)
  }

  /** The blocks of the page for a catalogue. */
  function ListingItems(cat: seq<Entry>, mbText: nat -> string): string {
    Items(cat, ItemRenderer(mbText))
  }

  function ListingPage(layout: Layout, ip: string, cat: seq<Entry>, mbText: nat -> string): string {
    layout.head + ip + layout.open + ListingItems(cat, mbText) + layout.tail
  }

  /** Building the page one block at a time. */
  lemma ListingItemsSnoc(cat: seq<Entry>, mbText: nat -> string, k: nat)
    requires k < |cat|
    ensures ListingItems(cat[..k + 1], mbText) == ListingItems(cat[..k], mbText) + Item(cat[k], mbText)
  {
    ItemsSnoc(cat, ItemRenderer(mbText), k);
  }

  lemma {:induction false} ItemsAppend(a: seq<Entry>, b: seq<Entry>, item: Entry -> string)
    ensures Items(a + b, item) == Items(a, item) + Items(b, item)
    decreases |b|
  {
    if b == [] {
      assert a + b == a;
    } else {
      var b' := b[..|b| - 1];
      assert (a + b)[..|a + b| - 1] == a + b';
      assert (a + b)[|a + b| - 1] == b[|b| - 1];
      ItemsAppend(a, b', item);
    }
  }

  /** The page shows every catalogued file, with its size and its link, in
      catalogue order. */
  lemma ListingShowsEveryFile(layout: Layout, ip: string, cat: seq<Entry>, mbText: nat -> string, k: nat)
    requires k < |cat|
    ensures ListingPage(layout, ip, cat, mbText)
            == layout.head + ip + layout.open + ListingItems(cat[..k], mbText)
               + Item(cat[k], mbText) + ListingItems(cat[k + 1..], mbText) + layout.tail
  {
    var item := ItemRenderer(mbText);
    ItemsSplitAt(cat, item, k);
    assert item(cat[k]) == Item(cat[k], mbText);
    Regroup(layout.head, ip, layout.open, Items(cat[..k], item), Item(cat[k], mbText),
            Items(cat[k + 1..], item), layout.tail);
  }

  lemma Regroup(a: string, b: string, c: string, x: string, y: string, z: string, t: string)
    ensures a + b + c + (x + y + z) + t == a + b + c + x + y + z + t
  {
  }

  /** The blocks of a catalogue are those before entry `k`, entry `k`'s own,
      and those after it. */
  lemma ItemsSplitAt(cat: seq<Entry>, item: Entry -> string, k: nat)
    requires k < |cat|
    ensures Items(cat, item) == Items(cat[..k], item) + item(cat[k]) + Items(cat[k + 1..], item)
  {
    ItemsSnoc(cat, item, k);
    SliceConcat(cat, k + 1, k + 1);
    ItemsAppend(cat[..k + 1], cat[k + 1..], item);
  }

  /** The blocks of the first `k + 1` entries. */
  lemma ItemsSnoc(cat: seq<Entry>, item: Entry -> string, k: nat)
    requires k < |cat|
    ensures Items(cat[..k + 1], item) == Items(cat[..k], item) + item(cat[k])
  {
    var front := cat[..k + 1];
    assert front[..|front| - 1] == cat[..k] && front[|front| - 1] == cat[k];
  }

  /** What the handler sends for a catalogued or unknown test file: 404 when
      the name is not catalogued; otherwise the head with the catalogued size
      and, when the file can be opened, the chunked transfer. */
  function FileReply(cat: seq<Entry>, files: map<string, seq<byte>>, name: string): seq<seq<byte>> {
    match Lookup(cat, name)
    case None => [Utf8(Render(NotFoundPage))]
    case Some(size) =>
      [Utf8(Render(FileOk(name, size)))]
      + (if name in files then Stream(files[name], size, ChunkSize, 0) else [])
  }

  /** Everything the handler sends for one received request. `request` is
      None when receiving or decoding failed. Without an address the page
      cannot be built (the concatenation raises) and nothing is sent. */
  function Reply(layout: Layout, ip: Option<string>, cat: seq<Entry>, files: map<string, seq<byte>>,
                 request: Option<string>, mbText: nat -> string): seq<seq<byte>>
  {
    if request.None? then []
    else match RequestFields(request.value)
      case None => []
      case Some(fields) => RouteReply(layout, ip, cat, files, RouteOf(fields.0, fields.1), mbText)
  }

  /** What the handler sends once the request is routed. */
  function RouteReply(layout: Layout, ip: Option<string>, cat: seq<Entry>, files: map<string, seq<byte>>,
                      route: Route, mbText: nat -> string): seq<seq<byte>>
  {
    match route
    case FileList =>
      if ip.None? then [] else [Utf8(Render(HtmlOk(ListingPage(layout, ip.value, cat, mbText))))]
    case TestFile(name) => FileReply(cat, files, name)
    case NotFound => [Utf8(Render(NotFoundPage))]
    case NotAllowed => [Utf8(Render(NotAllowedPage))]
  }

  // ---------------------------------------------------------------------
  // Properties of the handler
  // ---------------------------------------------------------------------

  /** A request whose first line is `method path version` followed by CR LF
      yields that method and path. */
  lemma RequestLineFields(verb: string, path: string, version: string, rest: string)
    requires verb != [] && path != [] && version != []
    requires NoSpace(verb) && NoSpace(path) && NoSpace(version)
    ensures RequestFields(verb + " " + path + " " + version + "\r\n" + rest) == Some((verb, path))
  {
    var request := verb + " " + path + " " + version + "\r\n" + rest;
    assert |request| > 0;
    RequestLineSplit(verb, path, version, rest);
    FieldsOfParts(request, [verb, path, version]);
  }

  lemma FieldsOfParts(request: string, parts: seq<string>)
    requires request != "" && Split(Strip(Split(request, '\n')[0]), ' ') == parts && |parts| >= 2
    ensures RequestFields(request) == Some((parts[0], parts[1]))
  {
  }

  /** No answer at all when receiving failed, the request was empty or its
      first line has fewer than two fields; the socket is still closed. */
  lemma SilentOnUnparsableRequest(layout: Layout, ip: Option<string>, cat: seq<Entry>, files: map<string, seq<byte>>,
                                  request: Option<string>, mbText: nat -> string)
    requires request.None? || request.value == ""
             || |Split(Strip(Split(request.value, '\n')[0]), ' ')| < 2
    ensures Reply(layout, ip, cat, files, request, mbText) == []
  {
  }

  /** A well-formed request line is answered by the route of its method and
      path. */
  lemma ReplyOfRequestLine(layout: Layout, ip: Option<string>, cat: seq<Entry>, files: map<string, seq<byte>>,
                           verb: string, path: string, version: string, rest: string, mbText: nat -> string)
    requires verb != [] && path != [] && version != []
    requires NoSpace(verb) && NoSpace(path) && NoSpace(version)
    ensures Reply(layout, ip, cat, files, Some(verb + " " + path + " " + version + "\r\n" + rest), mbText)
            == RouteReply(layout, ip, cat, files, RouteOf(verb, path), mbText)
  {
    RequestLineFields(verb, path, version, rest);
  }

  /** Any method but GET is answered 405, whatever the path. */
  lemma NonGetIsNotAllowed(layout: Layout, ip: Option<string>, cat: seq<Entry>, files: map<string, seq<byte>>,
                           verb: string, path: string, version: string, rest: string, mbText: nat -> string)
    requires verb != [] && path != [] && version != []
    requires NoSpace(verb) && NoSpace(path) && NoSpace(version)
    requires verb != "GET"
    ensures Reply(layout, ip, cat, files, Some(verb + " " + path + " " + version + "\r\n" + rest), mbText)
            == [Utf8(Render(NotAllowedPage))]
  {
    ReplyOfRequestLine(layout, ip, cat, files, verb, path, version, rest, mbText);
  }

  /** A GET of a catalogued test file whose stored contents have the
      catalogued size is answered by the file head and then exactly the
      file's bytes; a test-file name that is not catalogued is answered 404
      even when the file exists. */
  lemma GetOfTestFile(layout: Layout, ip: Option<string>, cat: seq<Entry>, files: map<string, seq<byte>>,
                      name: string, version: string, rest: string, mbText: nat -> string)
    requires version != [] && NoSpace(name) && NoSpace(version)
    requires StartsWith("/" + name, "/test_") && EndsWith("/" + name, ".bin")
    ensures var reply := Reply(layout, ip, cat, files, Some("GET /" + name + " " + version + "\r\n" + rest), mbText);
            match Lookup(cat, name)
            case None => reply == [Utf8(Render(NotFoundPage))]
            case Some(size) =>
              |reply| >= 1 && reply[0] == Utf8(Render(FileOk(name, size)))
              && (name in files && |files[name]| == size ==> Flatten(reply[1..]) == files[name])
  {
    var path := "/" + name;
    assert NoSpace(path) by {
      assert forall k :: 1 <= k < |path| ==> path[k] == name[k - 1];
    }
    assert "GET /" + name + " " + version + "\r\n" + rest == "GET" + " " + path + " " + version + "\r\n" + rest;
    ReplyOfRequestLine(layout, ip, cat, files, "GET", path, version, rest, mbText);
    assert path != "/";
    assert RouteOf("GET", path) == TestFile(name) by {
      assert path[1..] == name;
    }
    FileReplyStreams(cat, files, name);
  }

  /** The answer for a catalogued file is its head and then, when the stored
      file has the catalogued size, exactly its bytes. */
  lemma FileReplyStreams(cat: seq<Entry>, files: map<string, seq<byte>>, name: string)
    ensures var reply := FileReply(cat, files, name);
            match Lookup(cat, name)
            case None => reply == [Utf8(Render(NotFoundPage))]
            case Some(size) =>
              |reply| >= 1 && reply[0] == Utf8(Render(FileOk(name, size)))
              && (name in files && |files[name]| == size ==> Flatten(reply[1..]) == files[name])
  {
    match Lookup(cat, name)
    case None =>
    case Some(size) =>
      var reply := FileReply(cat, files, name);
      if name in files && |files[name]| == size {
        var chunks := Stream(files[name], size, ChunkSize, 0);
        assert reply[1..] == chunks;
        StreamSendsWholeFile(files[name], size, ChunkSize);
      }
  }

  /** GET `/` is answered by the catalogue page, whose declared length is
      its length in characters; that is the byte count on the wire exactly
      when the page is ASCII. Without an address nothing is sent. */
  lemma GetOfIndex(layout: Layout, ip: Option<string>, cat: seq<Entry>, files: map<string, seq<byte>>,
                   version: string, rest: string, mbText: nat -> string)
    requires version != [] && NoSpace(version)
    ensures var reply := Reply(layout, ip, cat, files, Some("GET / " + version + "\r\n" + rest), mbText);
            match ip
            case None => reply == []
            case Some(a) =>
              var page := ListingPage(layout, a, cat, mbText);
              reply == [Utf8(Render(HtmlOk(page)))]
              && HeaderValue(HtmlOk(page).headers, "Content-Length") == Some(NatToDecimal(|page|))
              && (|Utf8(page)| == |page| <==> IsAscii(page))
  {
    assert NoSpace("/");
    assert "GET / " + version + "\r\n" + rest == "GET" + " " + "/" + " " + version + "\r\n" + rest;
    ReplyOfRequestLine(layout, ip, cat, files, "GET", "/", version, rest, mbText);
    if ip.Some? {
      var page := ListingPage(layout, ip.value, cat, mbText);
      HtmlOkHeaders(page);
      Utf8LengthIsCharCountIffAscii(page);
    }
  }

  // ---------------------------------------------------------------------
  // Test files
  // ---------------------------------------------------------------------

  /** `f"test_{size_mb}mb.bin"` for a whole number of MiB. */
  function TestFileName(sizeMb: nat): string {
    "test_" + NatToDecimal(sizeMb) + "mb.bin"
  }

  /** The integrity check's verdict: the file exists, has at least 1 KiB,
      and its first 1024 bytes follow the pattern. */
  predicate IntegrityHolds(files: map<string, seq<byte>>, name: string) {
    name in files && |files[name]| >= 1024
    && forall i :: 0 <= i < 1024 ==> files[name][i] as int == i % 256
  }

  /** A completely written test file passes the check exactly when it has at
      least 1 KiB; a file cut short by a failed write passes under the same
      condition on what reached flash. */
  lemma PatternFilePassesIntegrity(files: map<string, seq<byte>>, name: string, n: nat)
    requires name in files && files[name] == Pattern(n)
    ensures IntegrityHolds(files, name) <==> n >= 1024
  {
  }

  class Tester {
    /** The text of the listing page, fixed when the tester starts. */
    const layout: Layout
    var ipAddress: Option<string>
    /** `test_files`. */
    var catalog: seq<Entry>

    predicate Valid()
      reads this
    {
      UniqueNames(catalog)
    }

    /** `__init__`: no address yet and an empty catalogue. */
    constructor ()
      ensures Valid() && layout == Listing && ipAddress == None && catalog == []
    {
      layout := Listing;
      ipAddress := None;
      catalog := [];
    }

    /** `setup_network`: `config` is the address `lan.ifconfig()` reports, or
        None when the LAN driver raised before reporting one. A reported
        address is stored even when it is `0.0.0.0`, which still makes the
        setup fail; a raise leaves the address as it was. */
    method SetupNetwork(config: Option<string>) returns (ok: bool)
      modifies this`ipAddress
      ensures config.None? ==> !ok && ipAddress == old(ipAddress)
      ensures config.Some? ==> ipAddress == config && (ok <==> config.value != "0.0.0.0")
    {
      if config.None? {
        return false;
      }
      ipAddress := config;
      ok := config.value != "0.0.0.0";
    }

    /** `create_test_file(size_mb, filename)`: write `size_mb` MiB of the
        pattern in 8 KiB chunks to `filename` (by default
        `test_<size_mb>mb.bin`), then catalogue the file. An open that
        raises changes nothing; a raising write leaves the partial file on
        flash; either way the catalogue stays as it was. */
    method CreateTestFile(fs: FileStore, sizeMb: nat, filename: Option<string>, fault: Fault) returns (r: Option<string>)
      requires Valid()
      modifies this, fs
      ensures Valid() && ipAddress == old(ipAddress)
      ensures var name := if filename.Some? then filename.value else TestFileName(sizeMb);
              var size := sizeMb * MiB;
              fs.files == FilesAfterCreate(old(fs.files), name, size, ChunkSize, fault)
              && (!fault.OpenFails? ==> fs.files[name] == Pattern(BytesWritten(size, ChunkSize, fault)))
              && (CreateFails(size, ChunkSize, fault) ==> r.None? && catalog == old(catalog))
              && (!CreateFails(size, ChunkSize, fault) ==> r == Some(name) && catalog == Assign(old(catalog), name, size))
    {
      var name := if filename.Some? then filename.value else TestFileName(sizeMb);
      var size := sizeMb * MiB;
      if fault.OpenFails? {
        return None;
      }
      fs.files := fs.files[name := []];
      var i: nat := 0;
      var k: nat := 0;
      while i < size
        invariant i == Min(k * ChunkSize, size)
        invariant fault.ChunkFails? ==> k <= fault.chunk
        invariant fs.files == old(fs.files)[name := Pattern(i)]
        invariant catalog == old(catalog) && ipAddress == old(ipAddress)
        decreases size - i
      {
        var remaining := Min(ChunkSize, size - i);
        var chunk: seq<byte> := [];
        var j := 0;
        while j < remaining
          invariant j <= remaining
          invariant |chunk| == j && forall q :: 0 <= q < j ==> chunk[q] as int == (i + q) % 256
        {
          chunk := chunk + [((i + j) % 256) as byte];
          j := j + 1;
        }
        if fault == ChunkFails(k) {
          return None;
        }
        PatternExtend(i, chunk);
        fs.files := fs.files[name := fs.files[name] + chunk];
        i := i + remaining;
        k := k + 1;
      }
      AssignUnique(catalog, name, size);
      catalog := Assign(catalog, name, size);
      r := Some(name);
    }

    /** `verify_file_integrity(name)`: compare the first 1 KiB with the
        pattern. */
    method VerifyFileIntegrity(fs: FileStore, name: string) returns (ok: bool)
      ensures ok <==> IntegrityHolds(fs.files, name)
    {
      if name !in fs.files {
        return false;
      }
      var content := fs.files[name];
      var first := content[..Min(1024, |content|)];
      if |first| != 1024 {
        return false;
      }
      var i := 0;
      while i < 1024
        invariant i <= 1024
        invariant forall q :: 0 <= q < i ==> first[q] as int == q % 256
      {
        if first[i] as int != i % 256 {
          return false;
        }
        i := i + 1;
      }
      if |content| > 1024 {
        var last := content[|content| - 1024..];
        if |last| != 1024 {
          return false;
        }
      }
      return true;
    }

    /** `cleanup_test_files()`: remove every catalogued file (a missing one
        is skipped) and empty the catalogue. */
    method CleanupTestFiles(fs: FileStore)
      modifies this, fs
      ensures fs.files == old(fs.files) - (set e | e in old(catalog) :: e.name)
      ensures catalog == [] && ipAddress == old(ipAddress) && Valid()
    {
      var names := Names(catalog);
      var k := 0;
      while k < |names|
        invariant k <= |names|
        invariant fs.files == old(fs.files) - (set q | q in names[..k])
        invariant catalog == old(catalog) && ipAddress == old(ipAddress)
      {
        assert names[..k + 1] == names[..k] + [names[k]];
        fs.files := fs.files - {names[k]};
        k := k + 1;
      }
      assert names[..k] == names;
      assert (set q | q in names) == (set e | e in old(catalog) :: e.name) by {
        forall q | q in names
          ensures q in (set e | e in old(catalog) :: e.name)
        {
          var j :| 0 <= j < |names| && names[j] == q;
          assert catalog[j] in old(catalog);
        }
        forall e | e in old(catalog)
          ensures e.name in names
        {
          var j :| 0 <= j < |catalog| && catalog[j] == e;
          assert names[j] == e.name;
        }
      }
      catalog := [];
    }

    /** `serve_404`. */
    method Serve404(sock: ClientSocket)
      modifies sock
      ensures sock.log == old(sock.log) + [Utf8(Render(NotFoundPage))] && sock.closed == old(sock.closed)
    {
      sock.Send(Utf8(Render(NotFoundPage)));
    }

    /** `serve_405`. */
    method Serve405(sock: ClientSocket)
      modifies sock
      ensures sock.log == old(sock.log) + [Utf8(Render(NotAllowedPage))] && sock.closed == old(sock.closed)
    {
      sock.Send(Utf8(Render(NotAllowedPage)));
    }

    /** The page-building loop of `serve_file_list`: the head with the
        address, one block per catalogued file, then the tail. */
    method BuildListing(ip: string, mbText: nat -> string) returns (html: string)
      ensures html == ListingPage(layout, ip, catalog, mbText)
    {
      html := layout.head + ip + layout.open;
      ghost var prefix := html;
      assert catalog[..0] == [];
      var k := 0;
      while k < |catalog|
        invariant k <= |catalog|
        invariant html == prefix + ListingItems(catalog[..k], mbText)
      {
        ListingItemsSnoc(catalog, mbText, k);
        Assoc(prefix, ListingItems(catalog[..k], mbText), Item(catalog[k], mbText));
        html := html + Item(catalog[k], mbText);
        k := k + 1;
      }
      assert catalog[..k] == catalog;
      html := html + layout.tail;
    }

    /** `serve_file_list`: build the page and send it; without an address
        the page cannot be built and nothing is sent. */
    method ServeFileList(sock: ClientSocket, mbText: nat -> string)
      modifies sock
      ensures sock.closed == old(sock.closed)
      ensures sock.log == old(sock.log)
              + (if ipAddress.None? then [] else [Utf8(Render(HtmlOk(ListingPage(layout, ipAddress.value, catalog, mbText))))])
    {
      if ipAddress.None? {
        return;
      }
      var html := BuildListing(ipAddress.value, mbText);
      sock.Send(Utf8(Render(HtmlOk(html))));
    }

    /** `serve_file`: 404 for a name not in the catalogue; otherwise the head
        with the catalogued size, then the file in 8 KiB chunks. A file that
        cannot be opened ends the answer after the head. */
    method ServeFile(sock: ClientSocket, fs: FileStore, name: string)
      modifies sock
      ensures sock.closed == old(sock.closed)
      ensures sock.log == old(sock.log) + FileReply(catalog, fs.files, name)
    {
      var size := Lookup(catalog, name);
      if size.None? {
        Serve404(sock);
        return;
      }
      ghost var before := sock.log;
      var head := Utf8(Render(FileOk(name, size.value)));
      sock.Send(head);
      if name !in fs.files {
        return;
      }
      ghost var chunks := Stream(fs.files[name], size.value, ChunkSize, 0);
      assert FileReply(catalog, fs.files, name) == [head] + chunks;
      var sent := StreamFile(sock, fs.files[name], size.value, ChunkSize);
      Assoc(before, [head], chunks);
    }

    /** The routing part of `handle_http_request`: answer a request with
        the given method and path. */
    method Respond(sock: ClientSocket, fs: FileStore, verb: string, path: string, mbText: nat -> string)
      modifies sock
      ensures sock.closed == old(sock.closed)
      ensures sock.log == old(sock.log) + RouteReply(layout, ipAddress, catalog, fs.files, RouteOf(verb, path), mbText)
    {
      if verb == "GET" {
        RespondGet(sock, fs, path, mbText);
      } else {
        assert RouteOf(verb, path) == NotAllowed;
        Serve405(sock);
      }
    }

    /** A GET request: the listing, a test file or 404. */
    method RespondGet(sock: ClientSocket, fs: FileStore, path: string, mbText: nat -> string)
      modifies sock
      ensures sock.closed == old(sock.closed)
      ensures sock.log == old(sock.log) + RouteReply(layout, ipAddress, catalog, fs.files, RouteOf("GET", path), mbText)
    {
      ghost var route := RouteOf("GET", path);
      ghost var reply := RouteReply(layout, ipAddress, catalog, fs.files, route, mbText);
      if path == "/" {
        assert route == FileList;
        assert reply == if ipAddress.None? then []
                        else [Utf8(Render(HtmlOk(ListingPage(layout, ipAddress.value, catalog, mbText))))];
        ServeFileList(sock, mbText);
      } else if StartsWith(path, "/test_") && EndsWith(path, ".bin") {
        assert route == TestFile(path[1..]);
        assert reply == FileReply(catalog, fs.files, path[1..]);
        ServeFile(sock, fs, path[1..]);
      } else {
        assert route == NotFound;
        assert reply == [Utf8(Render(NotFoundPage))];
        Serve404(sock);
      }
    }

    /** `handle_http_request`: answer one request and always close the
        connection. `request` is None when receiving or decoding raised. */
    method HandleHttpRequest(sock: ClientSocket, fs: FileStore, request: Option<string>, mbText: nat -> string)
      modifies sock
      ensures sock.closed
      ensures sock.log == old(sock.log) + Reply(layout, ipAddress, catalog, fs.files, request, mbText)
    {
      ghost var answer := Reply(layout, ipAddress, catalog, fs.files, request, mbText);
      if request.Some? && request.value != "" {
        var lines := Split(request.value, '\n');
        var line := Strip(lines[0]);
        var parts := Split(line, ' ');
        assert RequestFields(request.value) == if |parts| < 2 then None else Some((parts[0], parts[1]));
        if |parts| >= 2 {
          Respond(sock, fs, parts[0], parts[1], mbText);
        } else {
          assert answer == [];
        }
      } else {
        assert answer == [];
      }
      sock.Close();
    }
  }
}
