/** The server loop of src/buse.cpp over a socket that hands over and takes as few or as many
    bytes per call as it likes. */
module Buse {
  import opened Bytes
  import opened Options
  import opened NbdWire
  import M = Message

  /** The server's end of the socket pair: `input` is everything the client has still to
      send before it closes, `output` everything it was sent. */
  class Socket {
    var input: seq<byte>
    var output: seq<byte>
    /** Whether reading a request header may fail or fall short. */
    const faulty: bool

    constructor (input: seq<byte>, faulty: bool)
      ensures this.input == input && this.faulty == faulty && output == []
    {
      this.input, this.output, this.faulty := input, [], faulty;
    }

    /** read: some of what is there, and 0 only at the end. */
    method Read(buf: array<byte>, at: nat, count: nat) returns (n: nat)
      requires 0 < count && at + count <= buf.Length
      modifies this`input, buf
      ensures n <= count && n <= |old(input)| && (n == 0 <==> old(input) == [])
      ensures input == old(input)[n..] && buf[..] == Splice(old(buf[..]), at, old(input)[..n])
    {
      if input == [] {
        return 0;
      }
      n :| 1 <= n && n <= count && n <= |input|;
      var _ := M.PutBytes(buf, at, input[..n]);
      input := input[n..];
    }

    /** The read of a request header: -1 on an error. */
    method ReadHeader(buf: array<byte>) returns (n: int)
      requires buf.Length == REQUEST_SIZE
      modifies this`input, buf
      ensures -1 <= n <= REQUEST_SIZE && n <= |old(input)| && (n == 0 <==> old(input) == [])
      ensures n >= 0 ==> input == old(input)[n..] && buf[..] == Splice(old(buf[..]), 0, old(input)[..n])
      ensures n < 0 ==> input == old(input)
      ensures !faulty ==> n == REQUEST_SIZE || n == |old(input)|
    {
      if input == [] {
        return 0;
      }
      if faulty {
        n :| (n == -1 || 1 <= n) && n <= REQUEST_SIZE && n <= |input|;
      } else {
        n := if |input| < REQUEST_SIZE then |input| else REQUEST_SIZE;
      }
      if n >= 0 {
        var _ := M.PutBytes(buf, 0, input[..n]);
        input := input[n..];
      }
    }

    /** write: at least one byte is taken. */
    method Write(buf: array<byte>, at: nat, count: nat) returns (n: nat)
      requires 0 < count && at + count <= buf.Length
      modifies this`output
      ensures 1 <= n <= count && output == old(output) + buf[at..at + n]
    {
      n :| 1 <= n <= count;
      output := output + buf[at..at + n];
    }
  }

  /** read_all: false is the failed assertion when the client closes too early. */
  method ReadAll(sk: Socket, buf: array<byte>, length: nat) returns (ok: bool)
    requires length == buf.Length
    modifies sk`input, buf
    ensures ok <==> length <= |old(sk.input)|
    ensures ok ==> buf[..] == old(sk.input)[..length] && sk.input == old(sk.input)[length..]
  {
    var at, count := 0, length;
    ghost var input := sk.input;
    while count > 0
      invariant 0 <= at && 0 <= count && at + count == length && at <= |input|
      invariant sk.input == input[at..] && buf[..at] == input[..at]
    {
      var n := sk.Read(buf, at, count);
      if n == 0 {
        return false;
      }
      assert buf[..at + n] == input[..at + n];
      at, count := at + n, count - n;
    }
    assert buf[..] == buf[..at];
    ok := true;
  }

  /** write_all. */
  method WriteAll(sk: Socket, buf: array<byte>)
    modifies sk`output
    ensures sk.output == old(sk.output) + buf[..]
  {
    var at, count := 0, buf.Length;
    while count > 0
      invariant 0 <= at && 0 <= count && at + count == buf.Length
      invariant sk.output == old(sk.output) + buf[..at]
    {
      var n := sk.Write(buf, at, count);
      assert buf[..at] + buf[at..at + n] == buf[..at + n];
      at, count := at + n, count - n;
    }
    assert buf[..at] == buf[..];
  }

  // ----- the operations of the server's user -----

  datatype OpCall =
    | ReadCall(len: nat, from: nat, error: i32, data: seq<byte>)
    | WriteCall(data: seq<byte>, from: nat, error: i32)
    | DiscCall
    | FlushCall(error: i32)
    | TrimCall(from: nat, len: nat, error: i32)

  /** buse_operations, with a record of the calls. What an operation returns is its own
      affair. */
  class Operations {
    const caps: Caps
    var calls: seq<OpCall>

    constructor (caps: Caps)
      ensures this.caps == caps && calls == []
    {
      this.caps, calls := caps, [];
    }

    method Read(chunk: array<byte>, from: u64) returns (error: i32)
      requires caps.read
      modifies this, chunk
      ensures calls == old(calls) + [ReadCall(chunk.Length, from, error, chunk[..])]
    {
      error := *;
      Scribble(chunk);
      calls := calls + [ReadCall(chunk.Length, from, error, chunk[..])];
    }

    method Write(chunk: array<byte>, from: u64) returns (error: i32)
      requires caps.write
      modifies this
      ensures calls == old(calls) + [WriteCall(chunk[..], from, error)]
    {
      error := *;
      calls := calls + [WriteCall(chunk[..], from, error)];
    }

    method Disc()
      requires caps.disc
      modifies this
      ensures calls == old(calls) + [DiscCall]
    {
      calls := calls + [DiscCall];
    }

    method Flush() returns (error: i32)
      requires caps.flush
      modifies this
      ensures calls == old(calls) + [FlushCall(error)]
    {
      error := *;
      calls := calls + [FlushCall(error)];
    }

    method Trim(from: u64, len: u32) returns (error: i32)
      requires caps.trim
      modifies this
      ensures calls == old(calls) + [TrimCall(from, len, error)]
    {
      error := *;
      calls := calls + [TrimCall(from, len, error)];
    }
  }

  /** Leaves anything in the chunk, as malloc does and as a read may. */
  method Scribble(chunk: array<byte>)
    modifies chunk
  {
    var i := 0;
    while i < chunk.Length {
      chunk[i] := *;
      i := i + 1;
    }
  }

  /** The call an exchange makes, if the operation is there. */
  function CallOf(caps: Caps, x: Exchange): seq<OpCall> {
    var r := x.packet.request;
    if !Supplied(caps, r.command) then []
    else
      match r.command
      case CmdRead => [ReadCall(r.len, r.from, x.error, x.data)]
      case CmdWrite => [WriteCall(x.packet.payload, r.from, x.error)]
      case CmdDisc => [DiscCall]
      case CmdFlush => [FlushCall(x.error)]
      case CmdTrim => [TrimCall(r.from, r.len, x.error)]
  }

  function Calls(caps: Caps, xs: seq<Exchange>): seq<OpCall> {
    if xs == [] then [] else Calls(caps, xs[..|xs| - 1]) + CallOf(caps, xs[|xs| - 1])
  }

  // ----- one request -----

  /** struct nbd_reply with the magic and this request's handle in place. */
  predicate Prepared(reply: seq<byte>, r: Request) {
    |reply| == REPLY_SIZE && reply[..4] == BE(REPLY_MAGIC, 4) && reply[8..] == r.handle
  }

  /** A store to reply.error. */
  method SetError(reply: array<byte>, error: u32, ghost r: Request)
    requires Prepared(reply[..], r)
    modifies reply
    ensures Prepared(reply[..], r) && reply[4..8] == LE(error, 4)
    ensures reply[..] == BE(REPLY_MAGIC, 4) + LE(error, 4) + r.handle
  {
    ghost var was := reply[..];
    var _ := M.PutInt(reply, 4, error, 4);
    hide LE, BE;
    assert reply[..4] == was[..4] && reply[8..] == was[8..];
    assert reply[4..8] == LE(error, 4);
    assert reply[..] == reply[..4] + reply[4..8] + reply[8..];
  }

  /** What serving `r` did, if its payload was all there. */
  twostate predicate Served(sk: Socket, ops: Operations, r: Request, x: Exchange)
    reads sk, ops
  {
    var n := PayloadLength(r);
    && ValidExchange(x) && n <= |old(sk.input)| && x.packet == Packet(r, old(sk.input)[..n])
    && sk.input == old(sk.input)[n..]
    && sk.output == old(sk.output) + Reply(ops.caps, x)
    && ops.calls == old(ops.calls) + CallOf(ops.caps, x)
  }

  method ServeRead(sk: Socket, ops: Operations, reply: array<byte>, r: Request) returns (ghost x: Exchange)
    requires r.command == CmdRead && Prepared(reply[..], r)
    modifies sk, ops, reply
    ensures Prepared(reply[..], r) && Served(sk, ops, r, x)
  {
    var chunk := new byte[r.len];
    Scribble(chunk);
    ghost var result: i32 := 0;
    if ops.caps.read {
      var error := ops.Read(chunk, r.from);
      result := error;
      SetError(reply, M.Unsigned(error), r);
    } else {
      SetError(reply, Ntohl(EPERM), r);
    }
    x := Exchange(Packet(r, []), result, chunk[..]);
    hide BE, LE;
    WriteAll(sk, reply);
    WriteAll(sk, chunk);
    Assoc(old(sk.output), reply[..], chunk[..]);
  }

  method ServeWrite(sk: Socket, ops: Operations, reply: array<byte>, r: Request) returns (ok: bool, ghost x: Exchange)
    requires r.command == CmdWrite && Prepared(reply[..], r)
    modifies sk, ops, reply
    ensures Prepared(reply[..], r) && (ok <==> PayloadLength(r) <= |old(sk.input)|)
    ensures ok ==> Served(sk, ops, r, x)
    ensures !ok ==> sk.output == old(sk.output) && ops.calls == old(ops.calls)
  {
    var chunk := new byte[r.len];
    ok := ReadAll(sk, chunk, r.len);
    x := Exchange(Packet(r, chunk[..]), 0, []);
    if !ok {
      return;
    }
    if ops.caps.write {
      var error := ops.Write(chunk, r.from);
      x := x.(error := error);
      SetError(reply, M.Unsigned(error), r);
    } else {
      SetError(reply, Ntohl(EPERM), r);
    }
    hide BE, LE;
    WriteAll(sk, reply);
    assert reply[..] + [] == reply[..];
  }

  /** NBD_CMD_FLUSH and NBD_CMD_TRIM: the error stays 0 if the operation is missing. */
  method ServeFlushOrTrim(sk: Socket, ops: Operations, reply: array<byte>, r: Request) returns (ghost x: Exchange)
    requires (r.command == CmdFlush || r.command == CmdTrim) && Prepared(reply[..], r) && reply[4..8] == LE(0, 4)
    modifies sk, ops, reply
    ensures Prepared(reply[..], r) && Served(sk, ops, r, x)
  {
    x := Exchange(Packet(r, []), 0, []);
    hide BE, LE;
    if r.command == CmdFlush && ops.caps.flush {
      var error := ops.Flush();
      x := x.(error := error);
      SetError(reply, M.Unsigned(error), r);
    } else if r.command == CmdTrim && ops.caps.trim {
      var error := ops.Trim(r.from, r.len);
      x := x.(error := error);
      SetError(reply, M.Unsigned(error), r);
    }
    assert reply[..] == reply[..4] + reply[4..8] + reply[8..];
    WriteAll(sk, reply);
    assert reply[..] + [] == reply[..];
  }

  /** Everything but NBD_CMD_DISC: the handle is copied and the error cleared, then the
      switch. */
  method ServeOne(sk: Socket, ops: Operations, reply: array<byte>, r: Request) returns (ok: bool, ghost x: Exchange)
    requires r.command != CmdDisc && reply.Length == REPLY_SIZE && reply[..4] == BE(REPLY_MAGIC, 4)
    modifies sk, ops, reply
    ensures reply[..4] == BE(REPLY_MAGIC, 4) && (ok <==> PayloadLength(r) <= |old(sk.input)|)
    ensures ok ==> Served(sk, ops, r, x)
    ensures !ok ==> sk.output == old(sk.output) && ops.calls == old(ops.calls)
  {
    ghost var was := reply[..];
    var _ := M.PutBytes(reply, 8, r.handle);
    hide BE, LE;
    assert reply[..4] == was[..4] && reply[8..] == r.handle;
    SetError(reply, 0, r);
    ok := true;
    if r.command == CmdRead {
      x := ServeRead(sk, ops, reply, r);
    } else if r.command == CmdWrite {
      ok, x := ServeWrite(sk, ops, reply, r);
    } else {
      x := ServeFlushOrTrim(sk, ops, reply, r);
    }
  }

  lemma FieldArrives(b: seq<byte>, at: nat, w: nat)
    requires at + w <= |b|
    ensures w == 4 ==> M.Field(b, at, w) < 0x1_0000_0000 && Ntohl(M.Field(b, at, w)) == BigU32(b, at)
    ensures w == 8 ==> M.Field(b, at, w) < 0x1_0000_0000_0000_0000 && Ntohll(M.Field(b, at, w)) == BigU64(b, at)
  {
    FieldsArrive(b[at..at + w]);
    hide FromLE, FromBE, Ntohl, Ntohll;
  }

  lemma ComparesConverted(n: u32, magic: u32)
    ensures n == Ntohl(magic) <==> Ntohl(n) == magic
  {
    NtohlTwice(n);
    NtohlTwice(magic);
    hide Ntohl;
  }

  /** A 32-bit field, in the byte order of the machine, and a converted one of 64 bits. */
  method GetU32(request: array<byte>, at: nat) returns (n: u32)
    requires at + 4 <= request.Length
    ensures Ntohl(n) == BigU32(request[..], at)
  {
    FieldArrives(request[..], at, 4);
    var field, _ := M.GetInt(request, at, 4);
    hide M.Field, BigU32, Ntohl;
    n := field;
  }

  method GetFrom(request: array<byte>, at: nat) returns (n: u64)
    requires at + 8 <= request.Length
    ensures n == BigU64(request[..], at)
  {
    FieldArrives(request[..], at, 8);
    var field, _ := M.GetInt(request, at, 8);
    hide M.Field, BigU64, Ntohll;
    n := Ntohll(field);
  }

  /** The fields of struct nbd_request, or nothing if an assertion on them fails. */
  method TakeRequest(request: array<byte>) returns (r: Option<Request>)
    requires request.Length == REQUEST_SIZE
    ensures r == DecodeRequest(request[..])
  {
    hide Ntohl, BigU32, BigU64;
    var magic := GetU32(request, 0);
    var command := GetU32(request, 4);
    var from := GetFrom(request, 16);
    var len := GetU32(request, 24);
    ComparesConverted(magic, REQUEST_MAGIC);
    if magic != Ntohl(REQUEST_MAGIC) {
      return None;
    }
    match FromCode(Ntohl(command)) {
      case None => r := None;
      case Some(c) => r := Some(Request(c, request[..][8..16], from, Ntohl(len)));
    }
  }

  // ----- the loop -----

  datatype Outcome = Success | Failure | Aborted

  /** What the server has to go by, and what it has done. */
  datatype Io = Io(input: seq<byte>, output: seq<byte>, calls: seq<OpCall>)

  function View(sk: Socket, ops: Operations): Io
    reads sk, ops
  {
    Io(sk.input, sk.output, ops.calls)
  }

  /** The exchange `x` leads from `b` to `c`. */
  predicate Answers(caps: Caps, b: Io, c: Io, x: Exchange) {
    && ValidExchange(x) && Walk(b.input) == Walked([x.packet] + Walk(c.input).packets, Walk(c.input).stop)
    && c.output == b.output + Reply(caps, x) && c.calls == b.calls + CallOf(caps, x)
  }

  /** The disc operation is called for a disconnect that is acted on. */
  function FinalCall(caps: Caps, outcome: Outcome, stop: Stop): seq<OpCall> {
    if outcome == Success && stop.Disconnect? && caps.disc then [DiscCall] else []
  }

  /** The server stops at `b`, leaving `c`. Unless reading a header may fail or fall short,
      it stops only where the requests do, and reports success exactly if they stop in good
      order. */
  predicate Stops(caps: Caps, faulty: bool, b: Io, c: Io, outcome: Outcome) {
    var w := Walk(b.input);
    && c.output == b.output && c.calls == b.calls + FinalCall(caps, outcome, w.stop)
    && (!faulty || outcome == Success ==> w.packets == [])
    && (outcome == Success ==> !w.stop.Broken? && c.input == StopBytes(w.stop))
    && (!faulty ==> outcome == if w.stop.Broken? then Aborted else Success)
  }

  /** The exchanges `xs` lead from `a` to `b`. */
  predicate SoFar(caps: Caps, a: Io, b: Io, xs: seq<Exchange>) {
    && (forall k :: 0 <= k < |xs| ==> ValidExchange(xs[k]))
    && b.output == a.output + Replies(caps, xs) && b.calls == a.calls + Calls(caps, xs)
    && Walk(a.input) == Walked(Packets(xs) + Walk(b.input).packets, Walk(b.input).stop)
  }

  /** Whatever the client sent, the server answers a prefix of its requests, one reply each
      and in order, and calls the matching operation once for each, with the request's
      arguments. Unless reading a header failed or fell short, it answers all the requests
      there are, stops where they stop, and reports success exactly if they stop in good
      order. */
  predicate Conversation(caps: Caps, faulty: bool, a: Io, c: Io, outcome: Outcome, xs: seq<Exchange>) {
    var w := Walk(a.input);
    && (forall k :: 0 <= k < |xs| ==> ValidExchange(xs[k]))
    && Packets(xs) <= w.packets
    && c.output == a.output + Replies(caps, xs)
    && c.calls == a.calls + Calls(caps, xs) + FinalCall(caps, outcome, w.stop)
    && (!faulty || outcome == Success ==> Packets(xs) == w.packets)
    && (outcome == Success ==> !w.stop.Broken? && c.input == StopBytes(w.stop))
    && (!faulty ==> outcome == if w.stop.Broken? then Aborted else Success)
  }

  lemma NothingSoFar(caps: Caps, a: Io)
    ensures SoFar(caps, a, a, [])
  {
  }

  lemma OneMore(caps: Caps, a: Io, b: Io, c: Io, xs: seq<Exchange>, x: Exchange)
    requires SoFar(caps, a, b, xs) && Answers(caps, b, c, x)
    ensures SoFar(caps, a, c, xs + [x])
  {
    hide Reply, CallOf, Walk, ValidExchange;
    assert (xs + [x])[..|xs|] == xs;
    Assoc(a.output, Replies(caps, xs), Reply(caps, x));
    Assoc(a.calls, Calls(caps, xs), CallOf(caps, x));
    assert Packets(xs + [x]) == Packets(xs) + [x.packet];
    Assoc(Packets(xs), [x.packet], Walk(c.input).packets);
  }

  lemma Conclude(caps: Caps, faulty: bool, a: Io, b: Io, c: Io, outcome: Outcome, xs: seq<Exchange>)
    requires SoFar(caps, a, b, xs) && Stops(caps, faulty, b, c, outcome)
    ensures Conversation(caps, faulty, a, c, outcome, xs)
  {
    hide Replies, Calls, Walk, ValidExchange, FinalCall;
  }

  lemma SliceOfRest(b: seq<byte>, i: nat, n: nat)
    requires i + n <= |b|
    ensures b[i..][..n] == b[i..i + n] && b[i..][n..] == b[i + n..]
  {
  }

  /** What Walk makes of a whole, readable header. */
  lemma WalkHeader(input: seq<byte>, r: Request)
    requires |input| >= REQUEST_SIZE && DecodeRequest(input[..REQUEST_SIZE]) == Some(r)
    ensures var rest, n := input[REQUEST_SIZE..], PayloadLength(r);
            && (r.command == CmdDisc ==> Walk(input) == Walked([], Disconnect(rest)))
            && (r.command != CmdDisc && n > |rest| ==> Walk(input) == Walked([], Broken))
            && (r.command != CmdDisc && n <= |rest| ==>
                  Walk(input) == Walked([Packet(r, rest[..n])] + Walk(rest[n..]).packets, Walk(rest[n..]).stop))
  {
    var n := PayloadLength(r);
    hide DecodeRequest;
    if r.command != CmdDisc && REQUEST_SIZE + n <= |input| {
      SliceOfRest(input, REQUEST_SIZE, n);
    }
  }

  /** The read of a header and the assertions on it: a request, or why the loop ends. */
  method NextRequest(sk: Socket, request: array<byte>) returns (r: Option<Request>, outcome: Outcome)
    requires request.Length == REQUEST_SIZE
    modifies sk`input, request
    ensures r.Some? ==>
              && |old(sk.input)| >= REQUEST_SIZE && DecodeRequest(old(sk.input)[..REQUEST_SIZE]) == r
              && sk.input == old(sk.input)[REQUEST_SIZE..]
    ensures r.None? && outcome == Success ==> old(sk.input) == [] && sk.input == []
    ensures r.None? && outcome != Success && !sk.faulty ==> outcome == Aborted && Walk(old(sk.input)) == Walked([], Broken)
  {
    ghost var before := sk.input;
    r, outcome := None, Aborted;
    hide BE, LE, EncodePacket, BigU32, BigU64;
    var n := sk.ReadHeader(request);
    if n <= 0 {
      outcome := if n == 0 then Success else Failure;
    } else if n == REQUEST_SIZE {
      assert request[..] == before[..REQUEST_SIZE];
      r := TakeRequest(request);
    }
  }

  datatype Turn = Answered | Over(outcome: Outcome)

  /** One turn of the loop. */
  method ServeNext(sk: Socket, ops: Operations, request: array<byte>, reply: array<byte>) returns (turn: Turn, ghost x: Exchange)
    requires request != reply && request.Length == REQUEST_SIZE && reply.Length == REPLY_SIZE
    requires reply[..4] == BE(REPLY_MAGIC, 4)
    modifies sk, ops, request, reply
    ensures reply[..4] == BE(REPLY_MAGIC, 4)
    ensures turn.Answered? ==> Answers(ops.caps, old(View(sk, ops)), View(sk, ops), x) && |sk.input| < |old(sk.input)|
    ensures turn.Over? ==> Stops(ops.caps, sk.faulty, old(View(sk, ops)), View(sk, ops), turn.outcome)
  {
    ghost var before := sk.input;
    x := Exchange(Packet(Request(CmdDisc, [0, 0, 0, 0, 0, 0, 0, 0], 0, 0), []), 0, []);
    assert before == [] ==> Walk(before) == Walked([], End);
    hide BE, LE, EncodePacket, DecodeRequest, Reply, CallOf, Walk;
    var r, outcome := NextRequest(sk, request);
    if r.None? {
      return Over(outcome), x;
    }
    WalkHeader(before, r.value);
    if r.value.command == CmdDisc {
      if ops.caps.disc {
        ops.Disc();
      }
      return Over(Success), x;
    }
    var ok;
    ok, x := ServeOne(sk, ops, reply, r.value);
    turn := if ok then Answered else Over(Aborted);
  }

  /** serve_nbd. */
  method ServeNbd(sk: Socket, ops: Operations) returns (outcome: Outcome, ghost xs: seq<Exchange>)
    modifies sk, ops
    ensures Conversation(ops.caps, sk.faulty, old(View(sk, ops)), View(sk, ops), outcome, xs)
  {
    var request, reply := new byte[REQUEST_SIZE], new byte[REPLY_SIZE];
    var _ := M.PutInt(reply, 0, Ntohl(REPLY_MAGIC), 4);
    StoresConverted(REPLY_MAGIC);
    assert reply[..4] == LE(Ntohl(REPLY_MAGIC), 4);
    hide BE, LE, SoFar, Answers, Stops, Conversation;
    ghost var a := View(sk, ops);
    xs := [];
    NothingSoFar(ops.caps, a);
    while true
      invariant SoFar(ops.caps, a, View(sk, ops), xs)
      invariant reply[..4] == BE(REPLY_MAGIC, 4)
      decreases |sk.input|
    {
      ghost var b := View(sk, ops);
      var turn, x := ServeNext(sk, ops, request, reply);
      if turn.Over? {
        Conclude(ops.caps, sk.faulty, a, b, View(sk, ops), turn.outcome, xs);
        return turn.outcome, xs;
      }
      OneMore(ops.caps, a, b, View(sk, ops), xs, x);
      xs := xs + [x];
    }
  }

  /** Main theorem, from the client's side: of a stream of whole requests, a server whose
      header reads are whole has consumed everything up to the end or past the disconnect,
      and answered each request once and in order, with its handle and the bytes a read asked
      for. */
  lemma ClientGetsOneAnswerEach(ps: seq<Packet>, stop: Stop, caps: Caps, a: Io, c: Io, outcome: Outcome, xs: seq<Exchange>)
    requires forall k :: 0 <= k < |ps| ==> ValidPacket(ps[k])
    requires SentBy(a.input, ps, stop) && Conversation(caps, false, a, c, outcome, xs)
    ensures outcome == Success && c.input == StopBytes(stop)
    ensures |xs| == |ps| && forall k :: 0 <= k < |ps| ==> xs[k].packet == ps[k] && |xs[k].data| == DataLength(ps[k].request)
    ensures a.output <= c.output
    ensures Understand(Requests(xs), c.output[|a.output|..], false) == Some(AnswersTo(caps, xs, false))
    ensures forall k :: 0 <= k < |ps| ==>
              var r, answer := ps[k].request, AnswersTo(caps, xs, false)[k];
              && answer.handle == r.handle && answer.data == xs[k].data
              && |answer.data| == (if r.command == CmdRead then r.len else 0)
              && |ps[k].payload| == (if r.command == CmdWrite then r.len else 0)
  {
    WalkFindsWhatWasSent(a.input, ps, stop);
    EveryRequestAnsweredOnce(caps, xs);
    hide Walk, SentBy, Understand, Replies, Calls, AnswersTo;
    assert c.output[|a.output|..] == Replies(caps, xs);
    forall k | 0 <= k < |xs|
      ensures xs[k].packet == ps[k]
    {
      assert Packets(xs)[k] == xs[k].packet;
      AnswerBelongs(caps, xs[k]);
    }
  }

  lemma AnswerBelongs(caps: Caps, x: Exchange)
    requires ValidExchange(x)
    ensures var r, answer := x.packet.request, AnswerTo(caps, x, false);
            && answer.handle == r.handle && answer.data == x.data
            && |answer.data| == (if r.command == CmdRead then r.len else 0)
            && |x.packet.payload| == (if r.command == CmdWrite then r.len else 0)
  {
  }

  /** The call is that of the request's operation, with the request's numbers, its payload,
      and the data and the error that the operation gave. */
  predicate CallMatches(call: OpCall, x: Exchange) {
    var r := x.packet.request;
    && (r.command == CmdRead ==> call.ReadCall? && call.len == r.len && call.from == r.from && call.data == x.data && call.error == x.error)
    && (r.command == CmdWrite ==> call.WriteCall? && call.data == x.packet.payload && call.from == r.from && call.error == x.error)
    && (r.command == CmdFlush ==> call.FlushCall? && call.error == x.error)
    && (r.command == CmdTrim ==> call.TrimCall? && call.from == r.from && call.len == r.len && call.error == x.error)
  }

  lemma {:induction false} OneCallEach(caps: Caps, xs: seq<Exchange>)
    requires caps.read && caps.write && caps.flush && caps.trim
    requires forall k :: 0 <= k < |xs| ==> ValidExchange(xs[k])
    ensures |Calls(caps, xs)| == |xs| && forall k :: 0 <= k < |xs| ==> CallMatches(Calls(caps, xs)[k], xs[k])
  {
    if xs != [] {
      var n := |xs| - 1;
      OneCallEach(caps, xs[..n]);
      assert |CallOf(caps, xs[n])| == 1 && CallMatches(CallOf(caps, xs[n])[0], xs[n]);
      hide CallOf, CallMatches;
      assert forall k :: 0 <= k < n ==> xs[..n][k] == xs[k];
    }
  }

  /** What a request leads to: the call of its operation, with what the client sent, and for
      the client what the operation gave. (The error arrives with its bytes reversed.) */
  predicate CalledAndAnswered(call: OpCall, p: Packet, answer: Answer) {
    var r := p.request;
    && (r.command == CmdRead ==> call.ReadCall? && call.from == r.from && call.len == r.len
                                 && call.data == answer.data && answer.error == Ntohl(M.Unsigned(call.error)))
    && (r.command == CmdWrite ==> call.WriteCall? && call.from == r.from && call.data == p.payload
                                  && answer.error == Ntohl(M.Unsigned(call.error)))
    && (r.command == CmdFlush ==> call.FlushCall? && answer.error == Ntohl(M.Unsigned(call.error)))
    && (r.command == CmdTrim ==> call.TrimCall? && call.from == r.from && call.len == r.len
                                 && answer.error == Ntohl(M.Unsigned(call.error)))
  }

  lemma EachCalledAndAnswered(caps: Caps, call: OpCall, x: Exchange)
    requires caps == Caps(true, true, true, true, true) && CallMatches(call, x)
    ensures CalledAndAnswered(call, x.packet, AnswerTo(caps, x, false))
  {
    hide Ntohl;
  }

  /** Main theorem, from the side of the operations: if all are supplied, each request of a
      stream of whole requests leads to one call, in order. A read and a write are called
      with the offset the client sent, a read and a trim with its length, a write with its
      payload; and what a read operation gave is what the client receives. A disconnect
      leads to one more call, the last. */
  lemma OperationsGetWhatWasSent(ps: seq<Packet>, stop: Stop, caps: Caps, a: Io, c: Io, outcome: Outcome, xs: seq<Exchange>)
    returns (made: seq<OpCall>)
    requires caps == Caps(true, true, true, true, true)
    requires forall k :: 0 <= k < |ps| ==> ValidPacket(ps[k])
    requires SentBy(a.input, ps, stop) && Conversation(caps, false, a, c, outcome, xs)
    ensures c.calls == a.calls + made + (if stop.Disconnect? then [DiscCall] else [])
    ensures |made| == |xs| == |ps|
    ensures forall k :: 0 <= k < |ps| ==> CalledAndAnswered(made[k], ps[k], AnswersTo(caps, xs, false)[k])
  {
    CallsOfStream(ps, stop, caps, a, c, outcome, xs);
    hide Walk, SentBy, Conversation, ValidPacket;
    made := Calls(caps, xs);
    EveryoneCalledAndAnswered(caps, xs);
  }

  lemma EveryoneCalledAndAnswered(caps: Caps, xs: seq<Exchange>)
    requires caps == Caps(true, true, true, true, true) && forall k :: 0 <= k < |xs| ==> ValidExchange(xs[k])
    ensures |Calls(caps, xs)| == |xs|
    ensures forall k :: 0 <= k < |xs| ==> CalledAndAnswered(Calls(caps, xs)[k], xs[k].packet, AnswersTo(caps, xs, false)[k])
  {
    OneCallEach(caps, xs);
    hide Calls, CallMatches, CalledAndAnswered, AnswerTo;
    forall k | 0 <= k < |xs|
      ensures CalledAndAnswered(Calls(caps, xs)[k], xs[k].packet, AnswersTo(caps, xs, false)[k])
    {
      EachCalledAndAnswered(caps, Calls(caps, xs)[k], xs[k]);
    }
  }

  lemma CallsOfStream(ps: seq<Packet>, stop: Stop, caps: Caps, a: Io, c: Io, outcome: Outcome, xs: seq<Exchange>)
    requires caps.disc && forall k :: 0 <= k < |ps| ==> ValidPacket(ps[k])
    requires SentBy(a.input, ps, stop) && Conversation(caps, false, a, c, outcome, xs)
    ensures c.calls == a.calls + Calls(caps, xs) + (if stop.Disconnect? then [DiscCall] else [])
    ensures |xs| == |ps| && forall k :: 0 <= k < |xs| ==> xs[k].packet == ps[k] && ValidExchange(xs[k])
  {
    WalkFindsWhatWasSent(a.input, ps, stop);
    hide Walk, SentBy, Calls, Replies, ValidExchange, ValidPacket;
    forall k | 0 <= k < |xs|
      ensures xs[k].packet == ps[k]
    {
      assert Packets(xs)[k] == xs[k].packet;
    }
  }

  /** An operation that was not supplied is never called. */
  lemma {:induction false} OnlySuppliedAreCalled(caps: Caps, xs: seq<Exchange>)
    ensures forall call :: call in Calls(caps, xs) ==>
              (call.ReadCall? ==> caps.read) && (call.WriteCall? ==> caps.write) && (call.DiscCall? ==> caps.disc)
              && (call.FlushCall? ==> caps.flush) && (call.TrimCall? ==> caps.trim)
  {
    if xs != [] {
      OnlySuppliedAreCalled(caps, xs[..|xs| - 1]);
    }
  }

  /** What a read sends without a read operation is what malloc left in the chunk: any bytes
      of the right length complete a conversation, so they are surely zero exactly if none
      were asked for. */
  lemma UnsuppliedReadSendsZerosIff(caps: Caps, r: Request)
    requires r.command == CmdRead && !caps.read
    ensures forall data: seq<byte> :: |data| == r.len ==> MaySend(caps, r, data)
    ensures (forall data: seq<byte> :: MaySend(caps, r, data) ==> forall k :: 0 <= k < |data| ==> data[k] == 0) <==> r.len == 0
  {
    hide Conversation, Reply;
    forall data: seq<byte> | |data| == r.len
      ensures MaySend(caps, r, data)
    {
      AnyDataWillDo(caps, r, data);
    }
    if r.len > 0 {
      var ones: seq<byte> := seq(r.len, _ => 1);
      assert MaySend(caps, r, ones) && ones[0] != 0;
    }
  }

  /** A client that sends `r` and closes may be sent `data`. */
  ghost predicate MaySend(caps: Caps, r: Request, data: seq<byte>) {
    var x := Exchange(Packet(r, []), 0, data);
    |data| == r.len && Conversation(caps, false, Io(EncodeRequest(r), [], []), Io([], Reply(caps, x), []), Success, [x])
  }

  lemma OneReadAlone(r: Request)
    requires r.command == CmdRead
    ensures Walk(EncodeRequest(r)) == Walked([Packet(r, [])], End)
  {
    var p := Packet(r, []);
    assert [p][1..] == [] && EncodePackets([]) == [];
    assert EncodePackets([p]) == EncodeRequest(r);
    hide Walk, EncodeRequest, EncodePackets;
    WalkFindsWhatWasSent(EncodeRequest(r), [p], End);
  }

  lemma OneExchange(caps: Caps, x: Exchange)
    ensures Replies(caps, [x]) == Reply(caps, x) && Calls(caps, [x]) == CallOf(caps, x) && Packets([x]) == [x.packet]
  {
    hide Reply, CallOf;
    assert [x][..0] == [];
    assert Replies(caps, []) == [] && Calls(caps, []) == [];
  }

  lemma AnyDataWillDo(caps: Caps, r: Request, data: seq<byte>)
    requires r.command == CmdRead && !caps.read && |data| == r.len
    ensures MaySend(caps, r, data)
  {
    OneReadAlone(r);
    hide Walk, EncodeRequest;
    OneExchangeIsAConversation(caps, EncodeRequest(r), Exchange(Packet(r, []), 0, data));
  }

  lemma OneExchangeIsAConversation(caps: Caps, input: seq<byte>, x: Exchange)
    requires ValidExchange(x) && Walk(input) == Walked([x.packet], End) && CallOf(caps, x) == []
    ensures Conversation(caps, false, Io(input, [], []), Io([], Reply(caps, x), []), Success, [x])
  {
    OneExchange(caps, x);
    hide Walk, ValidExchange, Reply, CallOf, Replies, Calls, Packets;
    assert [] + Replies(caps, [x]) == Reply(caps, x);
    assert [] + Calls(caps, [x]) + FinalCall(caps, Success, End) == [];
  }
}
