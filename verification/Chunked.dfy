/**
 The chunked writer and reader of externals/httplib/httplib.h over a socket that hands out
 and takes in bytes in pieces of any size.  An unreliable socket may also fail.
 */
module Chunked {
  import opened ChunkedSpec
  import opened Text
  import opened Wrappers

  const RECV_BUFSIZ := 4096

  function Min(a: nat, b: nat): nat {
    if a <= b then a else b
  }

  // ----- reading -----

  class Socket {
    var rest: string              // the bytes still to arrive
    const reliable: bool

    constructor (data: string, reliable: bool)
      ensures rest == data && this.reliable == reliable
    {
      rest, this.reliable := data, reliable;
    }

    /** recv: some of the bytes, 0 at the end, -1 for an error. */
    method Recv(max: nat) returns (n: int, data: string)
      modifies this
      ensures n < 0 ==> !reliable && data == "" && rest == old(rest)
      ensures n >= 0 ==> n == |data| <= max && old(rest) == data + rest
      ensures n == 0 ==> max == 0 || old(rest) == ""
    {
      if !reliable {
        var failed: bool := *;
        if failed { return -1, ""; }
      }
      if max == 0 || rest == "" { return 0, ""; }
      var bound := Min(max, |rest|);
      var k: int :| 1 <= k <= bound;
      n, data := k, rest[..k];
      rest := rest[k..];
    }
  }

  class SocketStream {
    const sock: Socket
    var readBuff: string
    var readBuffOff: nat
    var readBuffContentSize: nat

    constructor (sock: Socket)
      ensures Valid() && this.sock == sock && Remaining() == sock.rest
    {
      this.sock := sock;
      readBuff, readBuffOff, readBuffContentSize := "", 0, 0;
    }

    ghost predicate Valid()
      reads this
    {
      readBuffContentSize <= |readBuff|
    }

    /** Everything that reading can still give. */
    ghost function Remaining(): string
      requires Valid()
      reads this, sock
    {
      (if readBuffOff < readBuffContentSize then readBuff[readBuffOff..readBuffContentSize] else "") + sock.rest
    }

    method Read(size: nat) returns (n: int, data: string)
      requires Valid()
      modifies this, sock
      ensures Valid()
      ensures n < 0 ==> !sock.reliable && data == "" && Remaining() == old(Remaining())
      ensures n >= 0 ==> n == |data| <= size && old(Remaining()) == data + Remaining()
      ensures n == 0 ==> size == 0 || old(Remaining()) == ""
    {
      if readBuffOff < readBuffContentSize {
        var remaining := readBuffContentSize - readBuffOff;
        var k := if size <= remaining then size else remaining;
        data := readBuff[readBuffOff..readBuffOff + k];
        readBuffOff := readBuffOff + k;
        return k, data;
      }
      readBuffOff, readBuffContentSize := 0, 0;
      if size < RECV_BUFSIZ {
        var got;
        n, got := sock.Recv(RECV_BUFSIZ);
        if n <= 0 { return n, ""; }
        readBuff := got;
        if n <= size { return n, got; }
        data := got[..size];
        readBuffOff, readBuffContentSize := size, n;
        assert got == data + got[size..];
        return size, data;
      }
      n, data := sock.Recv(size);
    }
  }

  /** Reading a line off `all` gives `line` and leaves `rest`. */
  ghost predicate TakesLine(all: string, line: string, rest: string) {
    all != "" && line == FirstLine(all) && rest == AfterLine(all)
  }

  lemma TakesLast(line: string)
    requires '\n' !in line && line != ""
    ensures TakesLine(line, line, "")
  {
    assert line[..|line|] == line;
    IndexOfAt(line, '\n', |line|);
  }

  lemma TakesOne(line: string, rest: string)
    requires '\n' !in line
    ensures TakesLine(line + ['\n'] + rest, line + ['\n'], rest)
  {
    LineAt(line, rest);
  }

  class StreamLineReader {
    const strm: SocketStream
    const fixed: array<char>
    var used: nat
    var glowable: string

    constructor (strm: SocketStream, fixed: array<char>)
      requires fixed.Length >= 2
      ensures Valid() && this.strm == strm && this.fixed == fixed
    {
      this.strm, this.fixed := strm, fixed;
      used, glowable := 0, "";
    }

    ghost predicate Valid()
      reads this, fixed
    {
      && used < fixed.Length && fixed.Length >= 2
      && (used > 0 ==> fixed[used] == '\0')
      && (glowable != "" ==> used == fixed.Length - 1)
    }

    /** What ptr() and size() describe. */
    function Content(): string
      requires Valid()
      reads this, fixed
    {
      if glowable == "" then fixed[..used] else glowable
    }

    /** Keeps a byte, in the fixed buffer while it has room and in the growable one after that. */
    method Append(c: char)
      requires Valid()
      modifies this, fixed
      ensures Valid() && Content() == old(Content()) + [c]
    {
      if used < fixed.Length - 1 {
        fixed[used] := c;
        used := used + 1;
        fixed[used] := '\0';
        assert fixed[..used] == old(fixed[..used]) + [c];
      } else {
        if glowable == "" {
          assert fixed[used] == '\0';
          glowable := fixed[..used];
        }
        glowable := glowable + [c];
      }
    }

    method Getline() returns (ok: bool)
      requires Valid() && strm.Valid()
      modifies this, fixed, strm, strm.sock
      ensures Valid() && strm.Valid()
      ensures ok ==> TakesLine(old(strm.Remaining()), Content(), strm.Remaining())
      ensures strm.sock.reliable ==> ok == (old(strm.Remaining()) != "")
    {
      ghost var all := strm.Remaining();
      used := 0;
      glowable := "";
      assert Content() == "";
      ok := FillLine(all);
    }

    /** Collects bytes up to the end of the line. */
    method FillLine(ghost all: string) returns (ok: bool)
      requires Valid() && strm.Valid() && Content() == "" && strm.Remaining() == all
      modifies this, fixed, strm, strm.sock
      ensures Valid() && strm.Valid() && (ok ==> TakesLine(all, Content(), strm.Remaining()))
      ensures strm.sock.reliable ==> ok == (all != "")
    {
      hide TakesLine, Content, SocketStream.Remaining;
      ghost var line, left := "", all;
      var i := 0;
      while true
        invariant Valid() && strm.Valid() && Content() == line && strm.Remaining() == left
        invariant i == |line| && all == line + left && '\n' !in line
        decreases |left|
      {
        var n, byte := GetByte();
        if n < 0 { return false; }
        if n == 0 {
          if i == 0 { return false; }
          assert line == all;
          TakesLast(all);
          return true;
        }
        i := i + 1;
        if byte == '\n' {
          assert all == line + ['\n'] + left[1..];
          TakesOne(line, left[1..]);
          return true;
        }
        line, left := line + [byte], left[1..];
      }
    }

    /** Reads one byte and keeps it. */
    method GetByte() returns (n: int, byte: char)
      requires Valid() && strm.Valid()
      modifies this, fixed, strm, strm.sock
      ensures Valid() && strm.Valid()
      ensures n <= 0 ==> Content() == old(Content()) && strm.Remaining() == old(strm.Remaining())
      ensures n < 0 ==> !strm.sock.reliable
      ensures n == 0 ==> old(strm.Remaining()) == ""
      ensures n > 0 ==> Content() == old(Content()) + [byte] && old(strm.Remaining()) == [byte] + strm.Remaining()
    {
      var data;
      n, data := strm.Read(1);
      byte := '\0';
      if n > 0 {
        byte := data[0];
        Append(byte);
      }
    }
  }

  /** What a content receiver or a progress callback answers; a willing one never refuses. */
  method IsAccepted(willing: bool) returns (r: bool)
    ensures willing ==> r
  {
    r := true;
    if !willing { r := *; }
  }

  /** Reads exactly `len` bytes, in pieces. */
  method ReadContentWithLength(strm: SocketStream, len: nat, willing: bool) returns (ok: bool, body: string)
    requires strm.Valid()
    modifies strm, strm.sock
    ensures strm.Valid()
    ensures |body| <= len && old(strm.Remaining()) == body + strm.Remaining()
    ensures ok ==> |body| == len
    ensures strm.sock.reliable && willing ==> ok == (len <= |old(strm.Remaining())|)
  {
    body := "";
    ghost var all := strm.Remaining();
    var r := 0;
    while r < len
      invariant strm.Valid() && r == |body| <= len && all == body + strm.Remaining()
    {
      var readLen := len - r;
      var n, data := strm.Read(Min(readLen, RECV_BUFSIZ));
      if n <= 0 { return false, body; }
      body := body + data;
      var accepted := IsAccepted(willing);
      if !accepted { return false, body; }
      r := r + n;
      accepted := IsAccepted(willing);
      if !accepted { return false, body; }
    }
    return true, body;
  }

  /** Reads to the end of the stream. */
  method ReadContentWithoutLength(strm: SocketStream, willing: bool) returns (ok: bool, body: string)
    requires strm.Valid()
    modifies strm, strm.sock
    ensures strm.Valid() && (strm.sock.reliable && willing ==> ok)
    ensures old(strm.Remaining()) == body + strm.Remaining()
    ensures ok ==> strm.Remaining() == ""
  {
    body := "";
    ghost var all := strm.Remaining();
    while true
      invariant strm.Valid() && all == body + strm.Remaining()
      decreases |strm.Remaining()|
    {
      var n, data := strm.Read(RECV_BUFSIZ);
      if n < 0 { return false, body; }
      if n == 0 { return true, body; }
      Assoc(body, data, strm.Remaining());
      body := body + data;
      var accepted := IsAccepted(willing);
      if !accepted { return false, body; }
    }
  }

  /** The trailer section: everything up to the empty line. */
  method SkipTrailer(strm: SocketStream, lines: StreamLineReader) returns (ok: bool)
    requires lines.Valid() && strm.Valid() && lines.strm == strm
    modifies lines, lines.fixed, strm, strm.sock
    ensures lines.Valid() && strm.Valid()
    ensures ok ==> AfterTrailer(old(strm.Remaining())) == Some(strm.Remaining())
    ensures strm.sock.reliable ==> ok == AfterTrailer(old(strm.Remaining())).Some?
  {
    hide FirstLine, AfterLine;
    ghost var all := strm.Remaining();
    ok := lines.Getline();
    if !ok { return; }
    ghost var here := all;
    while lines.Content() != "\r\n"
      invariant lines.Valid() && strm.Valid() && here != "" && AfterTrailer(all) == AfterTrailer(here)
      invariant lines.Content() == FirstLine(here) && strm.Remaining() == AfterLine(here)
      decreases |here|
    {
      if |lines.Content()| > MAX_HEADER { return false; }
      AfterLineShorter(here);
      here := strm.Remaining();
      ok := lines.Getline();
      if !ok { return false; }
    }
    return true;
  }

  lemma AfterLineShorter(s: string)
    requires s != ""
    ensures |AfterLine(s)| < |s|
  {
  }

  /** Reads a chunked message off the stream. */
  method ReadContentChunked(strm: SocketStream, willing: bool) returns (ok: bool, body: string)
    requires strm.Valid()
    modifies strm, strm.sock
    ensures strm.Valid()
    ensures ok ==> ReadMessage(old(strm.Remaining())) == Some(Message(body, strm.Remaining()))
    ensures strm.sock.reliable && willing ==> ok == ReadMessage(old(strm.Remaining())).Some?
  {
    hide FirstLine, AfterLine, StrToUl, AfterTrailer;
    ghost var all := strm.Remaining();
    body := "";
    var buf := new char[16](_ => '\0');
    var lines := new StreamLineReader(strm, buf);
    ghost var here := all;
    ok := lines.Getline();
    if !ok { return; }
    WithNoBody(ReadMessage(all));
    var chunkLen := 0;
    while true
      invariant lines.Valid() && strm.Valid() && here != ""
      invariant lines.Content() == FirstLine(here) && strm.Remaining() == AfterLine(here)
      invariant ReadMessage(all) == WithBody(body, ReadMessage(here))
      decreases |here|
    {
      var size := StrToUl(lines.Content());
      if size.None? { return false, body; }
      chunkLen := size.value;
      if chunkLen == ULONG_MAX { return false, body; }
      if chunkLen == 0 { break; }
      AfterLineShorter(here);
      var more, data := ReadContentWithLength(strm, chunkLen, willing);
      if !more { return false, body; }
      ghost var s2 := strm.Remaining();
      assert AfterLine(here)[..chunkLen] == data && AfterLine(here)[chunkLen..] == s2;
      ok := lines.Getline();
      if !ok { return false, body; }
      if lines.Content() != "\r\n" { return false, body; }
      AfterLineShorter(s2);
      ghost var next := strm.Remaining();
      ok := lines.Getline();
      if !ok { return false, body; }
      WithBodyTwice(body, data, ReadMessage(next));
      here := next;
      body := body + data;
    }
    ok := SkipTrailer(strm, lines);
    assert body + "" == body;
  }

  function WithBody(body: string, m: Option<Message>): Option<Message> {
    match m
    case None => None
    case Some(x) => Some(x.(body := body + x.body))
  }

  lemma WithNoBody(m: Option<Message>)
    ensures WithBody("", m) == m
  {
    if m.Some? { assert "" + m.value.body == m.value.body; }
  }

  lemma WithBodyTwice(a: string, b: string, m: Option<Message>)
    ensures WithBody(a, WithBody(b, m)) == WithBody(a + b, m)
  {
    if m.Some? { assert a + (b + m.value.body) == a + b + m.value.body; }
  }

  // ----- writing -----

  method FromIToHex(n0: nat) returns (ret: string)
    ensures ret == Hex(n0)
  {
    hide LowerHexDigit;
    var n := n0;
    ret := [LowerHexDigit(n % 16)];
    n := n / 16;
    while n > 0
      invariant Hex(n0) == if n > 0 then Hex(n) + ret else ret
    {
      assert Hex(n) == if n < 16 then [LowerHexDigit(n)] else Hex(n / 16) + [LowerHexDigit(n % 16)];
      ret := [LowerHexDigit(n % 16)] + ret;
      n := n / 16;
    }
  }

  class OutStream {
    var sent: string
    const reliable: bool

    constructor (reliable: bool)
      ensures sent == "" && this.reliable == reliable
    {
      sent, this.reliable := "", reliable;
    }

    method IsWritable() returns (r: bool)
      ensures reliable ==> r
    {
      r := true;
      if !reliable { r := *; }
    }

    /** Takes at least one byte of `data`, or fails. */
    method Write(data: string) returns (n: int)
      requires data != ""
      modifies this
      ensures n < 0 ==> !reliable && sent == old(sent)
      ensures n >= 0 ==> 1 <= n <= |data| && sent == old(sent) + data[..n]
    {
      if !reliable {
        var failed: bool := *;
        if failed { return -1; }
      }
      n :| 1 <= n <= |data|;
      sent := sent + data[..n];
    }
  }

  method WriteData(strm: OutStream, data: string) returns (ok: bool)
    modifies strm
    ensures ok ==> strm.sent == old(strm.sent) + data
    ensures strm.reliable ==> ok
  {
    var offset := 0;
    while offset < |data|
      invariant 0 <= offset <= |data| && strm.sent == old(strm.sent) + data[..offset]
    {
      var length := strm.Write(data[offset..]);
      if length < 0 { return false; }
      assert data[..offset] + data[offset..][..length] == data[..offset + length];
      offset := offset + length;
    }
    return true;
  }

  /** What a content provider does with the sink. */
  datatype Op = Write(data: string) | Done

  /** One call of the provider: what it does with the sink, in order, and whether it wants to go on. */
  datatype Call = Call(ops: seq<Op>, goesOn: bool)

  /** The data sink of the chunked writer, with the identity compressor and no trailers. */
  class ChunkedWriter {
    const strm: OutStream
    var offset: nat
    var dataAvailable: bool
    var ok: bool

    constructor (strm: OutStream)
      ensures this.strm == strm && offset == 0 && dataAvailable && ok
    {
      this.strm := strm;
      offset, dataAvailable, ok := 0, true, true;
    }

    method Write(data: string) returns (r: bool)
      modifies this, strm
      ensures r == ok && (!old(ok) ==> !ok && strm.sent == old(strm.sent) && dataAvailable == old(dataAvailable))
      ensures ok ==> strm.sent == old(strm.sent) + Chunk(data) && dataAvailable == (data != "")
      ensures ok ==> offset == old(offset) + |data|
      ensures old(ok) && strm.reliable ==> ok
    {
      if ok {
        dataAvailable := |data| > 0;
        offset := offset + |data|;
        if data != "" {
          var size := FromIToHex(|data|);
          var chunk := size + "\r\n" + data + "\r\n";
          var writable := strm.IsWritable();
          if !writable {
            ok := false;
          } else {
            ok := WriteData(strm, chunk);
          }
        }
      }
      r := ok;
    }

    method Finish()
      modifies this, strm
      ensures !old(ok) ==> !ok && strm.sent == old(strm.sent)
      ensures ok ==> strm.sent == old(strm.sent) + LAST && !dataAvailable
      ensures old(ok) && strm.reliable ==> ok
    {
      if !ok { return; }
      dataAvailable := false;
      var sent := WriteData(strm, "0\r\n");
      if !sent { ok := false; }
      sent := WriteData(strm, "\r\n");
      if !sent { ok := false; }
      assert LAST == "0\r\n" + "\r\n";
    }
  }

  // ----- what a provider's calls come to -----

  /** The bytes that these operations send. */
  function Wire(ops: seq<Op>): string {
    if ops == [] then "" else OpText(ops[0]) + Wire(ops[1..])
  }

  function OpText(op: Op): string {
    if op.Done? then LAST else Chunk(op.data)
  }

  lemma {:induction false} WireConcat(a: seq<Op>, b: seq<Op>)
    ensures Wire(a + b) == Wire(a) + Wire(b)
  {
    hide OpText;
    if a == [] {
      assert a + b == b;
    } else {
      WireConcat(a[1..], b);
      assert (a + b)[1..] == a[1..] + b;
      Assoc(OpText(a[0]), Wire(a[1..]), Wire(b));
    }
  }

  lemma {:induction false} WireMore(ops: seq<Op>, op: Op)
    ensures Wire(ops + [op]) == Wire(ops) + OpText(op)
  {
    hide OpText;
    WireConcat(ops, [op]);
    assert [op][1..] == [];
  }

  /** Does the call end the writer's loop?  Only what it does last decides: an empty write does, too. */
  predicate Stops(call: Call) {
    !call.goesOn || (call.ops != [] && (call.ops[|call.ops| - 1].Done? || call.ops[|call.ops| - 1].data == ""))
  }

  /** The operations of all the calls that are made. */
  function Made(calls: seq<Call>): seq<Op> {
    if calls == [] then [] else calls[0].ops + if Stops(calls[0]) then [] else Made(calls[1..])
  }

  /** Ending the message, as the last thing a call does, ends the loop: no later call is made. */
  lemma {:induction false} NothingAfterDone(calls: seq<Call>, ops: seq<Op>)
    requires calls != [] && calls[0].ops == ops + [Done]
    ensures Made(calls) == ops + [Done]
  {
  }

  /** A call that writes something last, or nothing at all, is followed by the next one, if it wants to go on. */
  lemma {:induction false} GoesOnAfterData(calls: seq<Call>, data: string)
    requires calls != [] && calls[0].goesOn && data != ""
    requires calls[0].ops == [] || exists ops :: calls[0].ops == ops + [Write(data)]
    ensures Made(calls) == calls[0].ops + Made(calls[1..])
  {
  }

  /** Does no call that is made give up? */
  predicate NeverCancels(calls: seq<Call>) {
    calls == [] || (calls[0].goesOn && (Stops(calls[0]) || NeverCancels(calls[1..])))
  }

  /** The part of the provider's calls that runs one call. */
  method RunCall(sink: ChunkedWriter, ops: seq<Op>)
    requires sink.ok
    modifies sink, sink.strm
    ensures sink.ok ==> sink.strm.sent == old(sink.strm.sent) + Wire(ops)
    ensures sink.ok ==> sink.dataAvailable == if ops == [] then old(sink.dataAvailable) else !Stops(Call(ops, true))
    ensures sink.strm.reliable ==> sink.ok
  {
    hide Wire, Chunk;
    NoWire();
    for i := 0 to |ops|
      invariant sink.ok ==> sink.strm.sent == old(sink.strm.sent) + Wire(ops[..i])
      invariant sink.ok ==>
        sink.dataAvailable == if i == 0 then old(sink.dataAvailable) else !Stops(Call(ops[..i], true))
      invariant sink.strm.reliable ==> sink.ok
    {
      assert ops[..i + 1] == ops[..i] + [ops[i]];
      WireMore(ops[..i], ops[i]);
      match ops[i] {
        case Done => sink.Finish();
        case Write(data) => var _ := sink.Write(data);
      }
    }
    assert ops[..|ops|] == ops;
  }

  lemma NoWire()
    ensures Wire([]) == ""
  {
  }

  /** The writer's loop; running out of calls stands for the server shutting down. */
  method WriteContentChunked(strm: OutStream, calls: seq<Call>) returns (r: bool)
    modifies strm
    ensures r || strm.reliable ==> strm.sent == old(strm.sent) + Wire(Made(calls))
    ensures strm.reliable ==> r == NeverCancels(calls)
  {
    hide Wire, Chunk, Made, NeverCancels, Stops;
    var sink := new ChunkedWriter(strm);
    var i := 0;
    MadeNothing();
    assert calls[0..] == calls;
    while sink.dataAvailable && i < |calls|
      invariant fresh(sink) && sink.strm == strm && 0 <= i <= |calls| && sink.ok
      invariant old(strm.sent) + Wire(Made(calls))
             == strm.sent + if sink.dataAvailable then Wire(Made(calls[i..])) else ""
      invariant NeverCancels(calls) == (sink.dataAvailable ==> NeverCancels(calls[i..]))
    {
      ghost var rest := calls[i..];
      assert rest[1..] == calls[i + 1..];
      MadeFirst(rest, strm.sent);
      var writable := strm.IsWritable();
      if !writable { return false; }
      RunCall(sink, calls[i].ops);
      StopsSays(calls[i]);
      if !calls[i].goesOn { return false; }
      if !sink.ok { return false; }
      i := i + 1;
    }
    assert calls[|calls|..] == [];
    return true;
  }

  lemma MadeNothing()
    ensures Wire(Made([])) == "" && NeverCancels([])
  {
  }

  lemma StopsSays(call: Call)
    ensures Stops(call) == (!call.goesOn || (call.ops != [] && Stops(Call(call.ops, true))))
  {
  }

  lemma {:induction false} MadeFirst(calls: seq<Call>, sent: string)
    requires calls != []
    ensures sent + Wire(Made(calls))
         == sent + Wire(calls[0].ops) + if Stops(calls[0]) then "" else Wire(Made(calls[1..]))
    ensures NeverCancels(calls) == (calls[0].goesOn && (Stops(calls[0]) || NeverCancels(calls[1..])))
  {
    hide Wire, Stops;
    var first := Wire(calls[0].ops);
    if Stops(calls[0]) {
      assert calls[0].ops + [] == calls[0].ops;
    } else {
      var more := Wire(Made(calls[1..]));
      WireConcat(calls[0].ops, Made(calls[1..]));
      Assoc(sent, first, more);
    }
  }

  // ----- reading it back -----

  /** Sizes fit the reader's integer. */
  predicate AreShort(ops: seq<Op>) {
    forall i :: 0 <= i < |ops| ==> ops[i].Write? ==> |ops[i].data| < ULONG_MAX
  }

  /** Everything written before the message is ended. */
  function Data(ops: seq<Op>): string {
    if ops == [] || ops[0].Done? then "" else ops[0].data + Data(ops[1..])
  }

  /** What is sent after the message is ended. */
  function Behind(ops: seq<Op>): string {
    if ops == [] then "" else if ops[0].Done? then Wire(ops[1..]) else Behind(ops[1..])
  }

  /** A reader gets the message if and only if it was ended, and then all that was written to it. */
  lemma {:induction false} OpsRead(ops: seq<Op>, tail: string)
    requires AreShort(ops)
    ensures Done in ops ==> ReadMessage(Wire(ops) + tail) == Some(Message(Data(ops), Behind(ops) + tail))
    ensures Done !in ops && tail == "" ==> ReadMessage(Wire(ops) + tail) == None
  {
    hide ReadMessage, Chunk;
    if ops == [] {
      ReadsNothing();
    } else {
      assert ops == [ops[0]] + ops[1..];
      WireFirst(ops, tail);
      if ops[0].Done? {
        ReadsLast(Wire(ops[1..]) + tail);
      } else {
        OpsRead(ops[1..], tail);
        ReadsWrite(ops[0].data, Wire(ops[1..]) + tail);
      }
    }
  }

  lemma {:induction false} WireFirst(ops: seq<Op>, tail: string)
    requires ops != []
    ensures Wire(ops) + tail == OpText(ops[0]) + (Wire(ops[1..]) + tail)
  {
    hide OpText;
    Assoc(OpText(ops[0]), Wire(ops[1..]), tail);
  }

  lemma {:induction false} ReadsWrite(data: string, more: string)
    requires |data| < ULONG_MAX
    ensures ReadMessage(Chunk(data) + more) == WithBody(data, ReadMessage(more))
  {
    if data == "" {
      ChunkOfNothing();
      assert "" + more == more;
      WithNoBody(ReadMessage(more));
    } else {
      hide ReadMessage, Chunk;
      ReadsChunk(data, more);
    }
  }

  lemma ReadsNothing()
    ensures ReadMessage("") == None
  {
  }

  lemma ChunkOfNothing()
    ensures Chunk("") == ""
  {
  }

  /** The operations of all calls, whether they come to be made or not. */
  function AllOps(calls: seq<Call>): seq<Op> {
    if calls == [] then [] else calls[0].ops + AllOps(calls[1..])
  }

  /** Call number k ends the message, and no call before it stops the loop. */
  ghost predicate EndsAt(calls: seq<Call>, k: nat) {
    k < |calls| && Done in calls[k].ops && forall i :: 0 <= i < k ==> !Stops(calls[i])
  }

  lemma {:induction false} MadeEnds(calls: seq<Call>)
    ensures Done in Made(calls) <==> exists k :: EndsAt(calls, k)
    ensures Done in Made(calls) ==> Data(Made(calls)) == Data(AllOps(calls))
  {
    hide Stops;
    if calls != [] {
      MadeEnds(calls[1..]);
      if Done in calls[0].ops {
        assert EndsAt(calls, 0);
        DataEnded(calls[0].ops, if Stops(calls[0]) then [] else Made(calls[1..]));
        DataEnded(calls[0].ops, AllOps(calls[1..]));
      } else {
        if k: nat :| EndsAt(calls[1..], k) && !Stops(calls[0]) { assert EndsAt(calls, k + 1); }
        if k: nat :| EndsAt(calls, k) { assert EndsAt(calls[1..], k - 1); }
        DataGoesOn(calls[0].ops, Made(calls[1..]));
        DataGoesOn(calls[0].ops, AllOps(calls[1..]));
      }
    }
  }

  lemma {:induction false} DataEnded(a: seq<Op>, b: seq<Op>)
    requires Done in a
    ensures Data(a + b) == Data(a)
  {
    if a[0].Write? {
      DataEnded(a[1..], b);
      assert (a + b)[1..] == a[1..] + b;
    }
  }

  lemma {:induction false} DataGoesOn(a: seq<Op>, b: seq<Op>)
    requires Done !in a
    ensures Data(a + b) == Data(a) + Data(b)
  {
    if a == [] {
      assert a + b == b;
    } else {
      DataGoesOn(a[1..], b);
      assert (a + b)[1..] == a[1..] + b;
      Assoc(a[0].data, Data(a[1..]), Data(b));
    }
  }

  lemma {:induction false} MadeShort(calls: seq<Call>)
    requires AreShort(AllOps(calls))
    ensures AreShort(Made(calls))
  {
    if calls != [] {
      hide AreShort, Stops;
      ShortSplit(calls[0].ops, AllOps(calls[1..]));
      MadeShort(calls[1..]);
      ShortConcat(calls[0].ops, Made(calls[1..]));
      assert calls[0].ops + [] == calls[0].ops;
    }
  }

  lemma ShortSplit(a: seq<Op>, b: seq<Op>)
    requires AreShort(a + b)
    ensures AreShort(a) && AreShort(b)
  {
    assert forall i :: 0 <= i < |a| ==> (a + b)[i] == a[i];
    assert forall i :: 0 <= i < |b| ==> (a + b)[|a| + i] == b[i];
  }

  lemma ShortConcat(a: seq<Op>, b: seq<Op>)
    requires AreShort(a)
    ensures AreShort(b) ==> AreShort(a + b)
  {
  }

  /**
   Whatever a provider does in however many calls, a reader of what was sent gets a message if and only if a call that
   ends it is reached: no call before it may give up or have an empty write as the last thing it does.  Then the reader
   gets everything written up to the end.
   */
  lemma {:induction false} ProviderReads(calls: seq<Call>)
    requires AreShort(AllOps(calls))
    ensures ReadMessage(Wire(Made(calls))).Some? <==> exists k :: EndsAt(calls, k)
    ensures (exists k :: EndsAt(calls, k)) ==>
      ReadMessage(Wire(Made(calls))) == Some(Message(Data(AllOps(calls)), Behind(Made(calls))))
  {
    hide EndsAt, ReadMessage, Wire, Made, AllOps;
    MadeShort(calls);
    MadeEnds(calls);
    OpsRead(Made(calls), "");
    var (text, behind) := (Wire(Made(calls)), Behind(Made(calls)));
    assert text + "" == text && behind + "" == behind;
  }

  // ----- writes in groups, and then the end -----

  function Writes(group: seq<string>): (ops: seq<Op>)
    ensures |ops| == |group| && forall i :: 0 <= i < |ops| ==> ops[i] == Write(group[i])
  {
    seq(|group|, i requires 0 <= i < |group| => Write(group[i]))
  }

  /** A provider that makes each group of writes in one call, and ends the message with the last group. */
  function Script(groups: seq<seq<string>>): seq<Call>
    requires groups != []
  {
    if |groups| == 1 then [Call(Writes(groups[0]) + [Done], true)]
    else [Call(Writes(groups[0]), true)] + Script(groups[1..])
  }

  function ConcatAll(groups: seq<seq<string>>): string {
    if groups == [] then "" else Concat(groups[0]) + ConcatAll(groups[1..])
  }

  /** Does a group other than the last end in an empty write? */
  ghost predicate BreaksOff(groups: seq<seq<string>>) {
    exists i :: 0 <= i < |groups| - 1 && groups[i] != [] && groups[i][|groups[i]| - 1] == ""
  }

  lemma {:induction false} DataOfWrites(group: seq<string>)
    ensures Data(Writes(group)) == Concat(group) && Done !in Writes(group)
  {
    if group != [] {
      DataOfWrites(group[1..]);
      assert Writes(group)[1..] == Writes(group[1..]);
    }
  }

  lemma {:induction false} DataOfEnd(tail: seq<Op>)
    ensures Data([Done] + tail) == "" && Behind([Done] + tail) == Wire(tail)
  {
    assert ([Done] + tail)[1..] == tail;
  }

  lemma {:induction false} BehindGoesOn(a: seq<Op>, b: seq<Op>)
    requires Done !in a
    ensures Behind(a + b) == Behind(b)
  {
    if a == [] {
      assert a + b == b;
    } else {
      BehindGoesOn(a[1..], b);
      assert (a + b)[1..] == a[1..] + b;
    }
  }

  /** What such a provider does before it breaks off or ends. */
  lemma {:induction false} ScriptMade(groups: seq<seq<string>>)
    requires groups != []
    ensures Done in Made(Script(groups)) <==> !BreaksOff(groups)
    ensures !BreaksOff(groups) ==>
      Data(Made(Script(groups))) == ConcatAll(groups) && Behind(Made(Script(groups))) == ""
  {
    hide Data, Behind, Writes, Concat;
    var first, rest := Writes(groups[0]), groups[1..];
    DataOfWrites(groups[0]);
    if |groups| == 1 {
      assert rest == [] && Script(groups)[1..] == [];
      assert Made(Script(groups)) == first + [Done] + [];
      DataGoesOn(first, [Done]);
      BehindGoesOn(first, [Done]);
      DataOfEnd([]);
      NoWire();
      assert first + [Done] + [] == first + [Done] && [Done] + [] == [Done];
      assert Concat(groups[0]) + "" == Concat(groups[0]);
    } else {
      ScriptMade(rest);
      StopsAfter(groups[0]);
      assert Script(groups)[1..] == Script(rest);
      assert BreaksOff(groups) <==> Stops(Call(first, true)) || BreaksOff(rest) by { BreaksOffFirst(groups); }
      if !Stops(Call(first, true)) {
        DataGoesOn(first, Made(Script(rest)));
        BehindGoesOn(first, Made(Script(rest)));
      }
    }
  }

  lemma StopsAfter(group: seq<string>)
    ensures Stops(Call(Writes(group), true)) <==> group != [] && group[|group| - 1] == ""
  {
  }

  lemma BreaksOffFirst(groups: seq<seq<string>>)
    requires |groups| > 1
    ensures BreaksOff(groups) <==> (groups[0] != [] && groups[0][|groups[0]| - 1] == "") || BreaksOff(groups[1..])
  {
    var rest := groups[1..];
    if i :| 0 <= i < |rest| - 1 && rest[i] != [] && rest[i][|rest[i]| - 1] == "" {
      assert groups[i + 1] == rest[i];
    }
  }

  ghost predicate AllShort(groups: seq<seq<string>>) {
    forall i, j :: 0 <= i < |groups| && 0 <= j < |groups[i]| ==> |groups[i][j]| < ULONG_MAX
  }

  lemma {:induction false} ScriptShort(groups: seq<seq<string>>)
    requires groups != [] && AllShort(groups)
    ensures AreShort(Made(Script(groups)))
  {
    if |groups| > 1 {
      var rest := groups[1..];
      assert forall i, j :: 0 <= i < |rest| && 0 <= j < |rest[i]| ==> rest[i][j] == groups[i + 1][j];
      ScriptShort(rest);
      assert Script(groups)[1..] == Script(rest);
    } else {
      assert Script(groups)[1..] == [];
    }
  }

  /**
   The round trip: writes in any grouping and then the end are read back in full if and only if no call but the last
   has an empty write as the last thing it does.  Empty writes elsewhere do no harm.
   */
  lemma {:induction false} ScriptReads(groups: seq<seq<string>>, tail: string)
    requires groups != [] && AllShort(groups)
    ensures !BreaksOff(groups) ==>
      ReadMessage(Wire(Made(Script(groups))) + tail) == Some(Message(ConcatAll(groups), tail))
    ensures BreaksOff(groups) ==> ReadMessage(Wire(Made(Script(groups)))) == None
  {
    hide BreaksOff, ReadMessage, Wire, Made, Script;
    ScriptMade(groups);
    ScriptShort(groups);
    var ops := Made(Script(groups));
    OpsRead(ops, if BreaksOff(groups) then "" else tail);
    assert Wire(ops) + "" == Wire(ops) && "" + tail == tail;
  }

  // ----- end to end -----

  /** Runs a provider on a reliable socket; the bytes that go over the wire. */
  method Send(calls: seq<Call>) returns (ok: bool, wire: string)
    ensures ok == NeverCancels(calls) && wire == Wire(Made(calls))
  {
    hide Wire, Made, NeverCancels;
    var sender := new OutStream(true);
    ok := WriteContentChunked(sender, calls);
    wire := sender.sent;
  }

  /** Reads a message from a reliable socket, and then what is left. */
  method Receive(wire: string) returns (m: Option<Message>)
    ensures m == ReadMessage(wire)
  {
    hide ReadMessage, SocketStream.Remaining;
    var sock := new Socket(wire, true);
    var strm := new SocketStream(sock);
    var ok, body := ReadContentChunked(strm, true);
    if !ok { return None; }
    var all, rest := ReadContentWithoutLength(strm, true);
    assert rest + strm.Remaining() == rest;
    m := Some(Message(body, rest));
  }

  /**
   Sending data in writes of any grouping and reading it back: whatever pieces the two sockets move the bytes in, the
   reader gets all of the data and stops right behind the message.
   */
  method SendAndReceive(groups: seq<seq<string>>, tail: string) returns (m: Option<Message>)
    requires groups != [] && AllShort(groups) && !BreaksOff(groups)
    ensures m == Some(Message(ConcatAll(groups), tail))
  {
    hide ReadMessage, Wire, Made, Script, ConcatAll, BreaksOff;
    var _, wire := Send(Script(groups));
    ScriptReads(groups, tail);
    m := Receive(wire + tail);
  }
}
