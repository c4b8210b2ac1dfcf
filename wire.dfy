/** What the servers touch outside themselves: a client socket (the
    sequence of buffers handed to `send`, and whether it was closed) and the
    board's file system (file name to contents). Also the chunked transfer
    loop both servers use to send a file, and the position-derived byte
    pattern both write into their test files. */
module Wire {
  import opened Base

  /** An accepted client connection. */
  class ClientSocket {
    /** Every buffer passed to `send`, in order. */
    var log: seq<seq<byte>>
    var closed: bool

    constructor ()
      ensures log == [] && !closed
    {
      log := [];
      closed := false;
    }

    method Send(data: seq<byte>)
      modifies this
      ensures log == old(log) + [data] && closed == old(closed)
    {
      log := log + [data];
    }

    method Close()
      modifies this
      ensures log == old(log) && closed
    {
      closed := true;
    }
  }

  /** How writing a test file goes: every write succeeds, `open(name, 'wb')`
      raises before anything is created or truncated, or chunk write number
      `chunk` raises after the earlier chunks reached flash. */
  datatype Fault = NoFault | OpenFails | ChunkFails(chunk: nat)

  /** The flash file system: every file's name and contents. */
  class FileStore {
    var files: map<string, seq<byte>>

    constructor (initial: map<string, seq<byte>>)
      ensures files == initial
    {
      files := initial;
    }
  }

  /** All bytes of a sequence of buffers, in order. */
  function Flatten(chunks: seq<seq<byte>>): seq<byte> {
    if chunks == [] then [] else chunks[0] + Flatten(chunks[1..])
  }

  lemma {:induction false} FlattenAppend(a: seq<seq<byte>>, b: seq<seq<byte>>)
    ensures Flatten(a + b) == Flatten(a) + Flatten(b)
    decreases |a|
  {
    if a == [] {
      assert a + b == b;
    } else {
      assert (a + b)[0] == a[0] && (a + b)[1..] == a[1..] + b;
      FlattenAppend(a[1..], b);
    }
  }

  /** The buffers the transfer loop sends once `sent` bytes of `content` have
      gone out: while fewer than `size` bytes were sent, read up to `chunk`
      more bytes from the file position (which equals `sent`) and stop when
      the read comes back empty. */
  function Stream(content: seq<byte>, size: nat, chunk: nat, sent: nat): (cs: seq<seq<byte>>)
    requires chunk > 0 && sent <= |content|
    decreases |content| - sent
    ensures forall k :: 0 <= k < |cs| ==> 1 <= |cs[k]| <= chunk
  {
    if sent >= size || sent == |content| then []
    else
      var e := Min(sent + chunk, |content|);
      [content[sent..e]] + Stream(content, size, chunk, e)
  }

  /** The loop sends a stretch of the file from the position `sent` on,
      stopping at the end of the file or at the first chunk boundary at or
      past `size`: it never stops short of `size` unless the file ends, and
      it overshoots `size` by less than one chunk. */
  lemma {:induction false} StreamSendsPrefix(content: seq<byte>, size: nat, chunk: nat, sent: nat)
    requires chunk > 0 && sent <= |content|
    decreases |content| - sent
    ensures var f := Flatten(Stream(content, size, chunk, sent));
            sent + |f| <= |content| && f == content[sent..sent + |f|]
            && (sent + |f| == |content| || sent + |f| >= size)
            && (sent < size ==> sent + |f| < size + chunk)
            && (sent >= size ==> f == [])
  {
    if !(sent >= size || sent == |content|) {
      var e := Min(sent + chunk, |content|);
      StreamSendsPrefix(content, size, chunk, e);
      var rest := Flatten(Stream(content, size, chunk, e));
      assert Flatten(Stream(content, size, chunk, sent)) == content[sent..e] + rest by {
        assert Stream(content, size, chunk, sent)[1..] == Stream(content, size, chunk, e);
      }
      assert content[sent..e] + content[e..e + |rest|] == content[sent..e + |rest|];
    }
  }

  /** A file no longer than the declared size is sent whole, whatever the
      chunk size. */
  lemma StreamSendsWholeFile(content: seq<byte>, size: nat, chunk: nat)
    requires chunk > 0 && |content| <= size
    ensures Flatten(Stream(content, size, chunk, 0)) == content
  {
    StreamSendsPrefix(content, size, chunk, 0);
  }

  /** A file that ends before the declared size leaves the transfer short:
      fewer bytes than the Content-Length go out. */
  lemma StreamShortFile(content: seq<byte>, size: nat, chunk: nat)
    requires chunk > 0 && |content| < size
    ensures |Flatten(Stream(content, size, chunk, 0))| < size
  {
    StreamSendsWholeFile(content, size, chunk);
  }

  /** One turn of the transfer loop. */
  lemma StreamStep(content: seq<byte>, size: nat, chunk: nat, sent: nat)
    requires chunk > 0 && sent < size && sent < |content|
    ensures var e := Min(sent + chunk, |content|);
            Stream(content, size, chunk, sent) == [content[sent..e]] + Stream(content, size, chunk, e)
            && |Flatten(Stream(content, size, chunk, sent))|
               == (e - sent) + |Flatten(Stream(content, size, chunk, e))|
  {
    var e := Min(sent + chunk, |content|);
    var rest := Stream(content, size, chunk, e);
    FlattenAppend([content[sent..e]], rest);
    assert Flatten([content[sent..e]]) == content[sent..e];
  }

  /** Nothing more is sent once `size` bytes went out or the file ended. */
  lemma StreamDone(content: seq<byte>, size: nat, chunk: nat, sent: nat)
    requires chunk > 0 && sent <= |content|
    requires sent >= size || sent == |content|
    ensures Stream(content, size, chunk, sent) == []
  {
  }

  /** The chunked transfer: after the headers, send the file `chunk` bytes at
      a time until `size` bytes went out or the file ends. */
  method StreamFile(sock: ClientSocket, content: seq<byte>, size: nat, chunk: nat) returns (sent: nat)
    requires chunk > 0
    modifies sock
    ensures sock.log == old(sock.log) + Stream(content, size, chunk, 0)
    ensures sock.closed == old(sock.closed)
    ensures sent == |Flatten(Stream(content, size, chunk, 0))|
  {
    ghost var target := old(sock.log) + Stream(content, size, chunk, 0);
    ghost var total := |Flatten(Stream(content, size, chunk, 0))|;
    sent := 0;
    while sent < size
      invariant sent <= |content|
      invariant target == sock.log + Stream(content, size, chunk, sent)
      invariant total == sent + |Flatten(Stream(content, size, chunk, sent))|
      invariant sock.closed == old(sock.closed)
      decreases |content| - sent
    {
      var e := Min(sent + chunk, |content|);
      var piece := content[sent..e];
      if piece == [] {
        assert sent == |content|;
        break;
      }
      StreamStep(content, size, chunk, sent);
      ghost var before := sock.log;
      ghost var rest := Stream(content, size, chunk, e);
      assert before + ([piece] + rest) == before + [piece] + rest;
      sock.Send(piece);
      sent := e;
    }
    StreamDone(content, size, chunk, sent);
  }

  /** The test-file contents: byte `p` is `p & 0xFF`. */
  function Pattern(n: nat): (p: seq<byte>)
    ensures |p| == n && forall i :: 0 <= i < n ==> p[i] as int == i % 256
  {
    seq(n, i => (i % 256) as byte)
  }

  /** A shorter pattern is a prefix of a longer one. */
  lemma PatternPrefix(m: nat, n: nat)
    requires m <= n
    ensures Pattern(n)[..m] == Pattern(m)
  {
  }

  /** Extending the pattern by the bytes for positions `n .. n + k - 1`. */
  lemma PatternExtend(n: nat, piece: seq<byte>)
    requires forall i :: 0 <= i < |piece| ==> piece[i] as int == (n + i) % 256
    ensures Pattern(n) + piece == Pattern(n + |piece|)
  {
  }

  /** Whether chunk write number `fault.chunk` raises: it is one of the
      chunks of at most `chunk` bytes the writer reaches before `size`
      bytes are on flash. */
  predicate WriteFails(size: nat, chunk: nat, fault: Fault) {
    fault.ChunkFails? && fault.chunk * chunk < size
  }

  /** Whether writing the file ends in the writer's `except` branch. */
  predicate CreateFails(size: nat, chunk: nat, fault: Fault) {
    fault.OpenFails? || WriteFails(size, chunk, fault)
  }

  /** The bytes on flash after writing `size` bytes in chunks of `chunk`,
      once the open went through. */
  function BytesWritten(size: nat, chunk: nat, fault: Fault): (n: nat)
    ensures n <= size
    ensures n < size <==> WriteFails(size, chunk, fault)
  {
    if WriteFails(size, chunk, fault) then fault.chunk * chunk else size
  }

  /** The file system after the writer wrote `name`: untouched when the
      open raised; otherwise `name` holds the pattern up to what reached
      flash, and no other file changes. */
  function FilesAfterCreate(files: map<string, seq<byte>>, name: string, size: nat, chunk: nat, fault: Fault): (r: map<string, seq<byte>>)
    ensures fault.OpenFails? ==> r == files
    ensures !fault.OpenFails? ==> name in r && |r[name]| == BytesWritten(size, chunk, fault)
    ensures forall other :: other != name ==> (other in r <==> other in files)
    ensures forall other :: other != name && other in files ==> r[other] == files[other]
  {
    if fault.OpenFails? then files else files[name := Pattern(BytesWritten(size, chunk, fault))]
  }
}
