/** HTTP/1.1 responses as the two test servers write them: a status line,
    header lines, an empty line and the body, every line ended by CR LF.
    The lemmas show that a client reading the text back recovers the status
    code and, at the first empty line, exactly the body. */
module Http {
  import opened Base
  import opened Text

  datatype Header = Header(name: string, value: string)

  datatype Response = Response(status: nat, reason: string, headers: seq<Header>, body: string)

  const CrLf: string := "\r\n"

  /** Text holding no line break. */
  predicate NoBreak(s: string) {
    forall i :: 0 <= i < |s| ==> s[i] != '\r' && s[i] != '\n'
  }

  /** A line that is not empty and holds no line break. */
  predicate PlainLine(l: string) {
    |l| >= 1 && NoBreak(l)
  }

  predicate PlainHeader(h: Header) {
    PlainLine(h.name) && NoBreak(h.value)
  }

  function StatusLine(r: Response): string {
    "HTTP/1.1 " + NatToDecimal(r.status) + " " + r.reason
  }

  function HeaderLine(h: Header): string {
    h.name + ": " + h.value
  }

  /** The lines before the empty line. */
  function HeadLines(r: Response): (ls: seq<string>)
    ensures |ls| == |r.headers| + 1 && ls[0] == StatusLine(r)
    ensures forall k :: 0 <= k < |r.headers| ==> ls[k + 1] == HeaderLine(r.headers[k])
  {
    [StatusLine(r)] + seq(|r.headers|, k requires 0 <= k < |r.headers| => HeaderLine(r.headers[k]))
  }

  /** Every line followed by CR LF. */
  function Terminated(ls: seq<string>): (t: string)
    ensures ls != [] ==> |t| >= 2 && t[|t| - 2] == '\r' && t[|t| - 1] == '\n'
  {
    if ls == [] then "" else ls[0] + CrLf + Terminated(ls[1..])
  }

  /** The response text: head lines, the empty line, the body. */
  function Render(r: Response): string {
    Terminated(HeadLines(r)) + CrLf + r.body
  }

  /** No reason phrase, header name or header value breaks a line. */
  predicate WellFormed(r: Response) {
    NoBreak(r.reason) && forall k :: 0 <= k < |r.headers| ==> PlainHeader(r.headers[k])
  }

  lemma NoBreakAppend(a: string, b: string)
    requires NoBreak(a) && NoBreak(b)
    ensures NoBreak(a + b)
  {
    forall i | 0 <= i < |a + b|
      ensures (a + b)[i] != '\r' && (a + b)[i] != '\n'
    {
      if i >= |a| {
        assert (a + b)[i] == b[i - |a|];
      }
    }
  }

  /** The value of the first header called `name`. */
  function HeaderValue(hs: seq<Header>, name: string): (v: Option<string>)
    ensures v.Some? ==> exists k :: 0 <= k < |hs| && hs[k] == Header(name, v.value)
  {
    if hs == [] then None
    else if hs[0].name == name then Some(hs[0].value)
    else HeaderValue(hs[1..], name)
  }

  /** The first header with a name is the one whose value is found. */
  lemma {:induction false} HeaderValueAt(hs: seq<Header>, name: string, k: nat)
    requires k < |hs| && hs[k].name == name
    requires forall j :: 0 <= j < k ==> hs[j].name != name
    ensures HeaderValue(hs, name) == Some(hs[k].value)
  {
    if k > 0 {
      HeaderValueAt(hs[1..], name, k - 1);
    }
  }

  // ---------------------------------------------------------------------
  // Reading a response back
  // ---------------------------------------------------------------------

  /** An empty line (CR LF CR LF) begins at `k`. */
  predicate BlankAt(s: string, k: nat) {
    k + 4 <= |s| && s[k] == '\r' && s[k + 1] == '\n' && s[k + 2] == '\r' && s[k + 3] == '\n'
  }

  /** What follows the first CR LF CR LF at or after `k`. */
  function BodyFrom(s: string, k: nat): Option<string>
    decreases |s| - k
  {
    if k + 4 > |s| then None
    else if BlankAt(s, k) then Some(s[k + 4..])
    else BodyFrom(s, k + 1)
  }

  function BodyOf(s: string): Option<string> {
    BodyFrom(s, 0)
  }

  /** The leading run of decimal digits. */
  function TakeDigits(s: string): (d: string)
    ensures AllDigits(d) && |d| <= |s| && d == s[..|d|]
  {
    if s != [] && '0' <= s[0] <= '9' then [s[0]] + TakeDigits(s[1..]) else []
  }

  /** The status code a client reads from the status line. */
  function StatusOf(s: string): Option<nat> {
    if StartsWith(s, "HTTP/1.1 ") && TakeDigits(s[9..]) != []
    then Some(DecimalValue(TakeDigits(s[9..])))
    else None
  }

  lemma {:induction false} TakeDigitsStops(d: string, rest: string)
    requires AllDigits(d)
    requires rest == [] || !('0' <= rest[0] <= '9')
    ensures TakeDigits(d + rest) == d
    decreases |d|
  {
    if d == [] {
      assert d + rest == rest;
    } else {
      assert (d + rest)[0] == d[0] && (d + rest)[1..] == d[1..] + rest;
      TakeDigitsStops(d[1..], rest);
    }
  }

  /** A client recovers the status code from the rendered text. */
  lemma StatusRoundTrip(r: Response)
    ensures StatusOf(Render(r)) == Some(r.status)
  {
    var dec := NatToDecimal(r.status);
    var rest := " " + r.reason + CrLf + Terminated(HeadLines(r)[1..]) + CrLf + r.body;
    var s := Render(r);
    assert s == "HTTP/1.1 " + (dec + rest);
    assert s[9..] == dec + rest;
    TakeDigitsStops(dec, rest);
    DecimalRoundTrip(r.status);
  }

  lemma {:induction false} BodyFromSkips(s: string, k: nat, b: nat)
    requires k <= b && BlankAt(s, b)
    requires forall j :: k <= j < b ==> !BlankAt(s, j)
    ensures BodyFrom(s, k) == Some(s[b + 4..])
    decreases b - k
  {
    if k < b {
      BodyFromSkips(s, k + 1, b);
    }
  }

  /** Inside terminated plain lines followed by one more CR LF, the first
      empty line is the one after the last line. */
  lemma {:induction false} NoBlankInsideLines(ls: seq<string>, tail: string, j: nat)
    requires |ls| >= 1 && forall k :: 0 <= k < |ls| ==> PlainLine(ls[k])
    requires j + 2 < |Terminated(ls)|
    ensures !BlankAt(Terminated(ls) + CrLf + tail, j)
    decreases |ls|
  {
    var l, rest := ls[0], ls[1..];
    var t' := Terminated(rest) + CrLf + tail;
    var t := Terminated(ls) + CrLf + tail;
    assert t == l + CrLf + t';
    assert |Terminated(ls)| == |l| + 2 + |Terminated(rest)|;
    if j + 1 < |l| {
      assert t[j + 1] == l[j + 1];
    } else if j + 1 == |l| {
      assert t[j] == l[j];
    } else if j == |l| {
      assert rest != [];
      assert PlainLine(rest[0]);
      assert t'[0] == rest[0][0];
      assert t[j + 2] == t'[0];
    } else if j == |l| + 1 {
      assert t[j] == '\n';
    } else {
      var j' := j - |l| - 2;
      assert rest != [];
      NoBlankInsideLines(rest, tail, j');
      assert t[j..] == t'[j'..];
    }
  }

  /** A client that takes what follows the first empty line gets exactly the
      body, whatever the body contains. */
  lemma BodyRoundTrip(r: Response)
    requires WellFormed(r)
    ensures BodyOf(Render(r)) == Some(r.body)
  {
    var ls := HeadLines(r);
    forall k | 0 <= k < |ls|
      ensures PlainLine(ls[k])
    {
      if k == 0 {
        var d := NatToDecimal(r.status);
        assert ls[0] == "HTTP/1.1 " + d + " " + r.reason;
        forall i | 0 <= i < |ls[0]|
          ensures ls[0][i] != '\r' && ls[0][i] != '\n'
        {
          if i < 9 {
          } else if i < 9 + |d| {
            assert ls[0][i] == d[i - 9];
          } else if i == 9 + |d| {
          } else {
            assert ls[0][i] == r.reason[i - 10 - |d|];
          }
        }
      } else {
        var h := r.headers[k - 1];
        assert ls[k] == h.name + ": " + h.value;
        forall i | 0 <= i < |ls[k]|
          ensures ls[k][i] != '\r' && ls[k][i] != '\n'
        {
          if i < |h.name| {
            assert ls[k][i] == h.name[i];
          } else if i < |h.name| + 2 {
          } else {
            assert ls[k][i] == h.value[i - |h.name| - 2];
          }
        }
      }
    }
    var t := Terminated(ls);
    var s := Render(r);
    var b := |t| - 2;
    forall j | 0 <= j < b
      ensures !BlankAt(s, j)
    {
      NoBlankInsideLines(ls, r.body, j);
    }
    assert s == t + CrLf + r.body;
    assert BlankAt(s, b);
    BodyFromSkips(s, 0, b);
    assert s[b + 4..] == r.body;
  }

  // ---------------------------------------------------------------------
  // The responses the servers send
  // ---------------------------------------------------------------------

  /** The headers of the HTML page answer, `length` being its decimal
      Content-Length. */
  function HtmlHeaders(length: string): seq<Header> {
    [Header("Content-Type", "text/html"), Header("Content-Length", length), Header("Connection", "close")]
  }

  /** The headers sent before a file's bytes. */
  function FileHeaders(filename: string, length: string): seq<Header> {
    [Header("Content-Type", "application/octet-stream"),
     Header("Content-Length", length),
     Header("Content-Disposition", "attachment; filename=\"" + filename + "\""),
     Header("Connection", "close")]
  }

  /** The HTML page answer. */
  function HtmlOk(html: string): (r: Response)
    ensures r.status == 200 && r.body == html
  {
    Response(200, "OK", HtmlHeaders(NatToDecimal(|html|)), html)
  }

  /** The head sent before a file's bytes: its body is empty. */
  function FileOk(filename: string, size: nat): (r: Response)
    ensures r.status == 200 && r.body == ""
  {
    Response(200, "OK", FileHeaders(filename, NatToDecimal(size)), "")
  }

  /** An error page: no Content-Length header; the body ends at close. */
  function ErrorPage(status: nat, reason: string, body: string): (r: Response)
    ensures r.status == status && r.body == body
    ensures HeaderValue(r.headers, "Content-Length").None?
    ensures HeaderValue(r.headers, "Allow").None?
  {
    Response(status, reason, [Header("Content-Type", "text/html"), Header("Connection", "close")], body)
  }

  lemma HtmlHeadersLookup(length: string)
    ensures HeaderValue(HtmlHeaders(length), "Content-Length") == Some(length)
    ensures HeaderValue(HtmlHeaders(length), "Connection") == Some("close")
  {
    var hs := HtmlHeaders(length);
    assert |hs[0].name| == 12 && |hs[1].name| == 14 && |hs[2].name| == 10;
    HeaderValueAt(hs, "Content-Length", 1);
    HeaderValueAt(hs, "Connection", 2);
  }

  /** The page answer declares the page's length in characters and asks
      for the connection to close. */
  lemma HtmlOkHeaders(html: string)
    ensures HeaderValue(HtmlOk(html).headers, "Content-Length") == Some(NatToDecimal(|html|))
    ensures HeaderValue(HtmlOk(html).headers, "Connection") == Some("close")
  {
    HtmlHeadersLookup(NatToDecimal(|html|));
  }

  lemma FileHeadersLookup(filename: string, length: string)
    ensures HeaderValue(FileHeaders(filename, length), "Content-Length") == Some(length)
    ensures HeaderValue(FileHeaders(filename, length), "Content-Disposition")
            == Some("attachment; filename=\"" + filename + "\"")
  {
    var hs := FileHeaders(filename, length);
    assert |hs[0].name| == 12 && |hs[1].name| == 14 && |hs[2].name| == 19;
    HeaderValueAt(hs, "Content-Length", 1);
    HeaderValueAt(hs, "Content-Disposition", 2);
  }

  /** The file head declares the catalogued size and names the file as an
      attachment. */
  lemma FileOkHeaders(filename: string, size: nat)
    ensures HeaderValue(FileOk(filename, size).headers, "Content-Length") == Some(NatToDecimal(size))
    ensures HeaderValue(FileOk(filename, size).headers, "Content-Disposition")
            == Some("attachment; filename=\"" + filename + "\"")
  {
    FileHeadersLookup(filename, NatToDecimal(size));
  }

  lemma DigitsNoBreak(d: string)
    requires AllDigits(d)
    ensures NoBreak(d)
  {
  }

  lemma HtmlHeadersPlain(length: string)
    requires NoBreak(length)
    ensures forall k :: 0 <= k < |HtmlHeaders(length)| ==> PlainHeader(HtmlHeaders(length)[k])
  {
    var hs := HtmlHeaders(length);
    assert PlainHeader(hs[0]) && PlainHeader(hs[1]) && PlainHeader(hs[2]);
  }

  /** The fixed responses are well formed, so their bodies read back. */
  lemma FixedResponsesWellFormed(html: string, status: nat, reason: string, body: string)
    requires NoBreak(reason)
    ensures WellFormed(HtmlOk(html))
    ensures WellFormed(ErrorPage(status, reason, body))
  {
    DigitsNoBreak(NatToDecimal(|html|));
    HtmlHeadersPlain(NatToDecimal(|html|));
    assert PlainHeader(Header("Content-Type", "text/html"));
    assert PlainHeader(Header("Connection", "close"));
  }

  lemma DispositionNoBreak(filename: string)
    requires NoBreak(filename)
    ensures NoBreak("attachment; filename=\"" + filename + "\"")
  {
    var pre := "attachment; filename=\"";
    assert NoBreak(pre);
    assert NoBreak("\"");
    NoBreakAppend(pre, filename);
    NoBreakAppend(pre + filename, "\"");
  }

  lemma FileHeadersPlain(filename: string, length: string)
    requires NoBreak(filename) && NoBreak(length)
    ensures forall k :: 0 <= k < |FileHeaders(filename, length)| ==> PlainHeader(FileHeaders(filename, length)[k])
  {
    DispositionNoBreak(filename);
    FixedFileHeadersPlain();
    var hs := FileHeaders(filename, length);
    assert hs[1] == Header("Content-Length", length);
    assert hs[2] == Header("Content-Disposition", "attachment; filename=\"" + filename + "\"");
  }

  lemma FixedFileHeadersPlain()
    ensures PlainHeader(Header("Content-Type", "application/octet-stream"))
    ensures PlainHeader(Header("Connection", "close"))
    ensures PlainLine("Content-Length") && PlainLine("Content-Disposition")
  {
  }

  /** The file head is well formed when the filename holds no line break. */
  lemma FileOkWellFormed(filename: string, size: nat)
    requires NoBreak(filename)
    ensures WellFormed(FileOk(filename, size))
  {
    DigitsNoBreak(NatToDecimal(size));
    FileHeadersPlain(filename, NatToDecimal(size));
  }
}
