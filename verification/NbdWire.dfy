/** The bytes of the NBD transmission phase as src/buse.cpp reads and writes them: requests
    with their payload, simple replies with their data, all in network byte order. */
module NbdWire {
  import opened Bytes
  import opened Options
  import M = Message

  type u32 = M.u32
  type u64 = M.u64
  type i32 = M.i32

  // ----- byte order -----

  function Reverse(b: seq<byte>): (r: seq<byte>)
    ensures |r| == |b|
    ensures forall k :: 0 <= k < |b| ==> r[k] == b[|b| - 1 - k]
  {
    seq(|b|, k requires 0 <= k < |b| => b[|b| - 1 - k])
  }

  /** Network byte order. */
  function BE(n: nat, w: nat): (r: seq<byte>)
    ensures |r| == w
  {
    Reverse(LE(n, w))
  }

  function FromBE(b: seq<byte>): nat {
    FromLE(Reverse(b))
  }

  lemma ReverseTwice(b: seq<byte>)
    ensures Reverse(Reverse(b)) == b
  {
  }

  lemma ReverseConcat(a: seq<byte>, b: seq<byte>)
    ensures Reverse(a + b) == Reverse(b) + Reverse(a)
  {
  }

  lemma BERoundTrip(n: nat, w: nat)
    requires n < Pow256(w)
    ensures FromBE(BE(n, w)) == n
  {
    LERoundTrip(n, w);
    hide LE, FromLE, Reverse;
    ReverseTwice(LE(n, w));
  }

  lemma FromBERoundTrip(b: seq<byte>)
    ensures FromBE(b) < Pow256(|b|) && BE(FromBE(b), |b|) == b
  {
    FromLERoundTrip(Reverse(b));
    hide LE, FromLE, Reverse, Pow256;
    ReverseTwice(b);
  }

  /** ntohl and htonl on a little-endian machine. */
  function Ntohl(n: u32): u32 {
    Widths();
    FromBERoundTrip(LE(n, 4));
    FromBE(LE(n, 4))
  }

  /** ntohll: the two halves are swapped, and each is byte-swapped on its own. */
  function Ntohll(a: u64): u64 {
    var lo, hi := a % 0x1_0000_0000, a / 0x1_0000_0000;
    Ntohl(lo) * 0x1_0000_0000 + Ntohl(hi)
  }

  lemma {:induction false} FromLEConcat(a: seq<byte>, b: seq<byte>)
    ensures FromLE(a + b) == FromLE(a) + Pow256(|a|) * FromLE(b)
  {
    if a == [] {
      assert a + b == b;
    } else {
      FromLEConcat(a[1..], b);
      assert (a + b)[1..] == a[1..] + b;
      assert 256 * (Pow256(|a| - 1) * FromLE(b)) == Pow256(|a|) * FromLE(b);
    }
  }

  lemma LEHalves(a: u64)
    ensures LE(a, 8) == LE(a % 0x1_0000_0000, 4) + LE(a / 0x1_0000_0000, 4)
  {
    var lo, hi := a % 0x1_0000_0000, a / 0x1_0000_0000;
    Widths();
    LERoundTrip(lo, 4);
    LERoundTrip(hi, 4);
    FromLEConcat(LE(lo, 4), LE(hi, 4));
    FromLERoundTrip(LE(lo, 4) + LE(hi, 4));
    hide LE, FromLE;
    assert FromLE(LE(lo, 4) + LE(hi, 4)) == a;
  }

  lemma ReversedHalves(lo: seq<byte>, hi: seq<byte>)
    requires |lo| == 4 && |hi| == 4
    ensures FromBE(lo + hi) == FromBE(hi) + 0x1_0000_0000 * FromBE(lo)
  {
    Widths();
    ReverseConcat(lo, hi);
    FromLEConcat(Reverse(hi), Reverse(lo));
    hide FromLE, Reverse;
  }

  lemma NtohllIs(a: u64)
    ensures Ntohll(a) == FromBE(LE(a, 8))
  {
    var lo, hi := a % 0x1_0000_0000, a / 0x1_0000_0000;
    LEHalves(a);
    ReversedHalves(LE(lo, 4), LE(hi, 4));
    NtohlIs(lo);
    NtohlIs(hi);
    hide LE, Ntohl, FromBE;
  }

  /** Together they reverse all eight bytes. */
  lemma NtohllReverses(a: u64)
    ensures LE(Ntohll(a), 8) == Reverse(LE(a, 8))
    ensures Ntohll(a) == FromBE(LE(a, 8))
  {
    NtohllIs(a);
    FromLERoundTrip(Reverse(LE(a, 8)));
    hide LE, FromLE, Reverse, Ntohll;
  }

  /** htonll is ntohll: applied twice, it gives the number back. */
  lemma NtohllIsItsOwnInverse(a: u64)
    ensures Ntohll(Ntohll(a)) == a
  {
    Widths();
    NtohllReverses(a);
    NtohllReverses(Ntohll(a));
    BERoundTrip(a, 8);
    hide Ntohll;
  }

  /** A field the client wrote in network byte order, read as an integer of the machine and
      then converted, is the number the client meant. */
  lemma FieldsArrive(b: seq<byte>)
    ensures |b| == 4 ==> FromLE(b) < 0x1_0000_0000 && Ntohl(FromLE(b)) == FromBE(b)
    ensures |b| == 8 ==> FromLE(b) < 0x1_0000_0000_0000_0000 && Ntohll(FromLE(b)) == FromBE(b)
  {
    Widths();
    FromLERoundTrip(b);
    hide LE, FromLE, Ntohll;
    if |b| == 8 {
      NtohllReverses(FromLE(b));
    }
  }

  /** A converted number, stored as an integer of the machine, is in network byte order. */
  lemma StoresConverted(n: u32)
    ensures LE(Ntohl(n), 4) == BE(n, 4)
  {
    Widths();
    FromLERoundTrip(Reverse(LE(n, 4)));
    hide LE, FromLE;
  }

  lemma NtohlTwice(n: u32)
    ensures Ntohl(Ntohl(n)) == n
  {
    Widths();
    StoresConverted(n);
    BERoundTrip(n, 4);
    hide BE, FromBE, LE;
    NtohlIs(Ntohl(n));
  }

  lemma NtohlIs(n: u32)
    ensures Ntohl(n) == FromBE(LE(n, 4))
  {
  }

  // ----- requests -----

  const REQUEST_MAGIC: u32 := 0x25609513
  const REPLY_MAGIC: u32 := 0x67446698
  const EPERM: u32 := 1
  const REQUEST_SIZE := 28
  const REPLY_SIZE := 16

  datatype Command = CmdRead | CmdWrite | CmdDisc | CmdFlush | CmdTrim

  function Code(c: Command): u32 {
    match c
    case CmdRead => 0
    case CmdWrite => 1
    case CmdDisc => 2
    case CmdFlush => 3
    case CmdTrim => 4
  }

  function FromCode(n: u32): Option<Command> {
    if n == 0 then Some(CmdRead)
    else if n == 1 then Some(CmdWrite)
    else if n == 2 then Some(CmdDisc)
    else if n == 3 then Some(CmdFlush)
    else if n == 4 then Some(CmdTrim)
    else None
  }

  /** The handle is opaque to the server: eight bytes. */
  type Handle = h: seq<byte> | |h| == 8 witness [0, 0, 0, 0, 0, 0, 0, 0]

  datatype Request = Request(command: Command, handle: Handle, from: u64, len: u32)

  function PayloadLength(r: Request): nat {
    if r.command == CmdWrite then r.len else 0
  }

  function DataLength(r: Request): nat {
    if r.command == CmdRead then r.len else 0
  }

  function EncodeRequest(r: Request): (b: seq<byte>)
    ensures |b| == REQUEST_SIZE
  {
    BE(REQUEST_MAGIC, 4) + BE(Code(r.command), 4) + r.handle + BE(r.from, 8) + BE(r.len, 4)
  }

  function BigU32(b: seq<byte>, at: nat): u32
    requires at + 4 <= |b|
  {
    Widths();
    FromBERoundTrip(b[at..at + 4]);
    FromBE(b[at..at + 4])
  }

  function BigU64(b: seq<byte>, at: nat): u64
    requires at + 8 <= |b|
  {
    Widths();
    FromBERoundTrip(b[at..at + 8]);
    FromBE(b[at..at + 8])
  }

  function DecodeRequest(b: seq<byte>): Option<Request>
    requires |b| == REQUEST_SIZE
  {
    if BigU32(b, 0) != REQUEST_MAGIC then None
    else match FromCode(BigU32(b, 4))
      case None => None
      case Some(c) => Some(Request(c, b[8..16], BigU64(b, 16), BigU32(b, 24)))
  }

  /** Parts of a concatenation, found again by their places. */
  lemma Cut(a: seq<byte>, b: seq<byte>)
    ensures (a + b)[..|a|] == a && (a + b)[|a|..] == b
  {
  }

  lemma Cut3(a: seq<byte>, b: seq<byte>, c: seq<byte>)
    ensures var s := a + b + c; s[..|a|] == a && s[|a|..|a| + |b|] == b && s[|a| + |b|..] == c
  {
  }

  lemma Cut5(a: seq<byte>, b: seq<byte>, c: seq<byte>, d: seq<byte>, e: seq<byte>)
    ensures var s, i, j, k := a + b + c + d + e, |a| + |b|, |a| + |b| + |c|, |a| + |b| + |c| + |d|;
            s[0..|a|] == a && s[|a|..i] == b && s[i..j] == c && s[j..k] == d && s[k..k + |e|] == e
  {
  }

  lemma RequestFields(r: Request)
    ensures var b := EncodeRequest(r);
            && BigU32(b, 0) == REQUEST_MAGIC && BigU32(b, 4) == Code(r.command) && b[8..16] == r.handle
            && BigU64(b, 16) == r.from && BigU32(b, 24) == r.len
  {
    Widths();
    BERoundTrip(REQUEST_MAGIC, 4);
    BERoundTrip(Code(r.command), 4);
    BERoundTrip(r.from, 8);
    BERoundTrip(r.len, 4);
    hide BE, FromBE, Pow256, Code;
    Cut5(BE(REQUEST_MAGIC, 4), BE(Code(r.command), 4), r.handle, BE(r.from, 8), BE(r.len, 4));
  }

  lemma RequestRoundTrip(r: Request)
    ensures DecodeRequest(EncodeRequest(r)) == Some(r)
  {
    RequestFields(r);
    hide BigU32, BigU64, EncodeRequest;
  }

  lemma RequestIsExact(b: seq<byte>)
    requires |b| == REQUEST_SIZE && DecodeRequest(b).Some?
    ensures EncodeRequest(DecodeRequest(b).value) == b
  {
    FromBERoundTrip(b[0..4]);
    FromBERoundTrip(b[4..8]);
    FromBERoundTrip(b[16..24]);
    FromBERoundTrip(b[24..28]);
    hide BE, FromBE;
    assert b == b[0..4] + b[4..8] + b[8..16] + b[16..24] + b[24..28];
  }

  lemma FourBytesBE(n: u32)
    ensures BE(n, 4) == [n / 0x100_0000, n / 0x1_0000 % 0x100, n / 0x100 % 0x100, n % 0x100]
  {
    FourBytes(n);
    hide LE;
  }

  /** The bytes of a request header: the magic, the command, the handle as it is, the offset
      and the length, all most significant byte first. */
  lemma HeaderBytes(r: Request)
    ensures var b := EncodeRequest(r);
            && b[0..4] == [0x25, 0x60, 0x95, 0x13]
            && b[4..8] == [0, 0, 0, match r.command case CmdRead => 0 case CmdWrite => 1 case CmdDisc => 2 case CmdFlush => 3 case CmdTrim => 4]
            && b[8..16] == r.handle && Reverse(b[16..24]) == LE(r.from, 8)
            && b[24..28] == [r.len / 0x100_0000, r.len / 0x1_0000 % 0x100, r.len / 0x100 % 0x100, r.len % 0x100]
  {
    FourBytesBE(REQUEST_MAGIC);
    FourBytesBE(Code(r.command));
    FourBytesBE(r.len);
    ReverseTwice(LE(r.from, 8));
    Cut5(BE(REQUEST_MAGIC, 4), BE(Code(r.command), 4), r.handle, BE(r.from, 8), BE(r.len, 4));
    hide LE, Reverse;
  }

  // ----- the stream of requests -----

  datatype Packet = Packet(request: Request, payload: seq<byte>)

  predicate ValidPacket(p: Packet) {
    p.request.command != CmdDisc && |p.payload| == PayloadLength(p.request)
  }

  function EncodePacket(p: Packet): seq<byte> {
    EncodeRequest(p.request) + p.payload
  }

  function EncodePackets(ps: seq<Packet>): seq<byte> {
    if ps == [] then [] else EncodePacket(ps[0]) + EncodePackets(ps[1..])
  }

  /** Why a stream stops being requests to serve. */
  datatype Stop =
    | End                          // the client closed it between two requests
    | Disconnect(rest: seq<byte>)  // NBD_CMD_DISC, and what follows it
    | Broken                       // a header or payload cut short, a wrong magic, an unknown command

  datatype Walked = Walked(packets: seq<Packet>, stop: Stop)

  /** A stream of bytes as the requests it holds, and why they stop. */
  function Walk(input: seq<byte>): Walked
    decreases |input|
  {
    if input == [] then Walked([], End)
    else if |input| < REQUEST_SIZE then Walked([], Broken)
    else
      match DecodeRequest(input[..REQUEST_SIZE])
      case None => Walked([], Broken)
      case Some(r) =>
        var end := REQUEST_SIZE + PayloadLength(r);
        if r.command == CmdDisc then Walked([], Disconnect(input[REQUEST_SIZE..]))
        else if |input| < end then Walked([], Broken)
        else
          var w := Walk(input[end..]);
          Walked([Packet(r, input[REQUEST_SIZE..end])] + w.packets, w.stop)
  }

  function StopBytes(stop: Stop): (rest: seq<byte>)
    requires !stop.Broken?
  {
    if stop.End? then [] else stop.rest
  }

  /** What a client sends: packets, and then possibly a disconnect followed by anything. */
  ghost predicate SentBy(input: seq<byte>, ps: seq<Packet>, stop: Stop) {
    match stop
    case End => input == EncodePackets(ps)
    case Broken => false
    case Disconnect(rest) =>
      exists d: Request :: d.command == CmdDisc && input == EncodePackets(ps) + EncodeRequest(d) + rest
  }

  lemma Assoc<T>(a: seq<T>, b: seq<T>, c: seq<T>)
    ensures (a + b) + c == a + (b + c)
  {
  }

  lemma FirstAndRest<T>(s: seq<T>, more: seq<T>)
    requires s != []
    ensures [s[0]] + s[1..] == s && [s[0]] + (s[1..] + more) == s + more
  {
  }

  lemma WalkStep(p: Packet, rest: seq<byte>)
    requires ValidPacket(p)
    ensures Walk(EncodePacket(p) + rest) == Walked([p] + Walk(rest).packets, Walk(rest).stop)
  {
    RequestRoundTrip(p.request);
    Cut3(EncodeRequest(p.request), p.payload, rest);
    hide DecodeRequest, EncodeRequest;
  }

  lemma {:induction false} WalkPackets(ps: seq<Packet>, tail: seq<byte>)
    requires forall k :: 0 <= k < |ps| ==> ValidPacket(ps[k])
    ensures Walk(EncodePackets(ps) + tail) == Walked(ps + Walk(tail).packets, Walk(tail).stop)
  {
    hide Walk, EncodePacket, ValidPacket;
    if ps == [] {
      assert EncodePackets(ps) + tail == tail;
      assert ps + Walk(tail).packets == Walk(tail).packets;
    } else {
      WalkPackets(ps[1..], tail);
      WalkStep(ps[0], EncodePackets(ps[1..]) + tail);
      Assoc(EncodePacket(ps[0]), EncodePackets(ps[1..]), tail);
      FirstAndRest(ps, Walk(tail).packets);
    }
  }

  lemma WalkDisconnect(d: Request, rest: seq<byte>)
    requires d.command == CmdDisc
    ensures Walk(EncodeRequest(d) + rest) == Walked([], Disconnect(rest))
  {
    RequestRoundTrip(d);
    Cut(EncodeRequest(d), rest);
    hide DecodeRequest, EncodeRequest;
  }

  /** Framing: walking what a client sent gives back exactly its requests. */
  lemma WalkFindsWhatWasSent(input: seq<byte>, ps: seq<Packet>, stop: Stop)
    requires forall k :: 0 <= k < |ps| ==> ValidPacket(ps[k])
    requires SentBy(input, ps, stop)
    ensures Walk(input) == Walked(ps, stop)
  {
    hide EncodePackets, EncodeRequest, EncodePacket, DecodeRequest, ValidPacket;
    if stop.End? {
      WalkPackets(ps, []);
      assert EncodePackets(ps) + [] == input;
      assert ps + [] == ps;
    } else {
      var d: Request :| d.command == CmdDisc && input == EncodePackets(ps) + EncodeRequest(d) + stop.rest;
      var tail := EncodeRequest(d) + stop.rest;
      WalkDisconnect(d, stop.rest);
      WalkPackets(ps, tail);
      hide Walk;
      Assoc(EncodePackets(ps), EncodeRequest(d), stop.rest);
      assert ps + [] == ps;
    }
  }

  /** The first packet of a stream, as Walk sees it. */
  lemma WalkStepBack(input: seq<byte>)
    requires Walk(input).packets != []
    ensures var p := Walk(input).packets[0];
            && ValidPacket(p) && |EncodePacket(p)| <= |input|
            && input == EncodePacket(p) + input[|EncodePacket(p)|..]
            && Walk(input) == Walked([p] + Walk(input[|EncodePacket(p)|..]).packets, Walk(input[|EncodePacket(p)|..]).stop)
  {
    RequestIsExact(input[..REQUEST_SIZE]);
    hide DecodeRequest, EncodeRequest;
  }

  /** And the other way round: the packets account for every byte up to where they stop. */
  lemma {:induction false} WalkIsExact(input: seq<byte>)
    ensures var w := Walk(input);
            && (forall k :: 0 <= k < |w.packets| ==> ValidPacket(w.packets[k]))
            && EncodePackets(w.packets) <= input
            && (!w.stop.Broken? ==> SentBy(input, w.packets, w.stop))
    decreases |input|
  {
    var w := Walk(input);
    if w.packets == [] {
      if w.stop.Disconnect? {
        RequestIsExact(input[..REQUEST_SIZE]);
        hide DecodeRequest, EncodeRequest;
        assert input == EncodePackets([]) + EncodeRequest(DecodeRequest(input[..REQUEST_SIZE]).value) + w.stop.rest;
      }
    } else {
      WalkStepBack(input);
      var p := w.packets[0];
      var rest := input[|EncodePacket(p)|..];
      assert |EncodePacket(p)| >= REQUEST_SIZE;
      WalkIsExact(rest);
      hide Walk, EncodePacket, EncodeRequest, ValidPacket, SentBy;
      assert w.packets[1..] == Walk(rest).packets;
      ExtendPrefix(EncodePacket(p), EncodePackets(Walk(rest).packets), rest);
      if !w.stop.Broken? {
        SentByStep(w.packets, rest, w.stop);
      }
    }
  }

  lemma ExtendPrefix(a: seq<byte>, b: seq<byte>, rest: seq<byte>)
    requires b <= rest
    ensures a + b <= a + rest
  {
  }

  lemma SentByStep(ps: seq<Packet>, rest: seq<byte>, stop: Stop)
    requires ps != [] && SentBy(rest, ps[1..], stop)
    ensures SentBy(EncodePacket(ps[0]) + rest, ps, stop)
  {
    hide EncodePacket, EncodeRequest;
    var first, others := EncodePacket(ps[0]), EncodePackets(ps[1..]);
    if stop.Disconnect? {
      var d: Request :| d.command == CmdDisc && rest == others + EncodeRequest(d) + stop.rest;
      Assoc(first, others, EncodeRequest(d));
      Assoc(first, others + EncodeRequest(d), stop.rest);
    }
  }

  // ----- replies -----

  /** Which operations the user of the server supplied. */
  datatype Caps = Caps(read: bool, write: bool, disc: bool, flush: bool, trim: bool)

  /** A request that was served: what the operation returned, and the data of a read. */
  datatype Exchange = Exchange(packet: Packet, error: i32, data: seq<byte>)

  predicate ValidExchange(x: Exchange) {
    ValidPacket(x.packet) && |x.data| == DataLength(x.packet.request)
  }

  /** Whether the command's operation is there to be called. */
  predicate Supplied(caps: Caps, c: Command) {
    match c
    case CmdRead => caps.read
    case CmdWrite => caps.write
    case CmdDisc => caps.disc
    case CmdFlush => caps.flush
    case CmdTrim => caps.trim
  }

  /** The error field as stored: what an operation returned is stored as it is, in the byte
      order of the machine; the server's own EPERM and 0 are converted. */
  function StoredError(caps: Caps, x: Exchange): u32 {
    if Supplied(caps, x.packet.request.command) then M.Unsigned(x.error)
    else if x.packet.request.command == CmdRead || x.packet.request.command == CmdWrite then Ntohl(EPERM)
    else 0
  }

  function Reply(caps: Caps, x: Exchange): seq<byte> {
    BE(REPLY_MAGIC, 4) + LE(StoredError(caps, x), 4) + x.packet.request.handle + x.data
  }

  function Replies(caps: Caps, xs: seq<Exchange>): seq<byte> {
    if xs == [] then [] else Replies(caps, xs[..|xs| - 1]) + Reply(caps, xs[|xs| - 1])
  }

  function Packets(xs: seq<Exchange>): (ps: seq<Packet>)
    ensures |ps| == |xs| && forall k :: 0 <= k < |xs| ==> ps[k] == xs[k].packet
  {
    seq(|xs|, k requires 0 <= k < |xs| => xs[k].packet)
  }

  lemma {:induction false} RepliesFromFront(caps: Caps, xs: seq<Exchange>)
    requires xs != []
    ensures Replies(caps, xs) == Reply(caps, xs[0]) + Replies(caps, xs[1..])
  {
    var n := |xs| - 1;
    if n > 0 {
      RepliesFromFront(caps, xs[..n]);
      hide Reply;
      assert xs[..n][1..] == xs[1..][..n - 1] && xs[1..][n - 1] == xs[n];
      assert Replies(caps, xs[1..]) == Replies(caps, xs[1..][..n - 1]) + Reply(caps, xs[n]);
    } else {
      assert xs[..n] == [] && xs[1..] == [];
    }
  }

  // ----- the client's side of the replies -----

  datatype Answer = Answer(handle: seq<byte>, error: u32, data: seq<byte>)

  /** A client that reads one reply per request. After the reply to a read it takes as many
      bytes as it asked for; if `standard`, as the NBD protocol has it, only when the error
      field is zero. */
  function Understand(rs: seq<Request>, output: seq<byte>, standard: bool): Option<seq<Answer>>
    decreases |rs|
  {
    if rs == [] then (if output == [] then Some([]) else None)
    else if |output| < REPLY_SIZE || BigU32(output, 0) != REPLY_MAGIC then None
    else
      var error := BigU32(output, 4);
      var end := REPLY_SIZE + if standard && error != 0 then 0 else DataLength(rs[0]);
      if |output| < end then None
      else
        match Understand(rs[1..], output[end..], standard)
        case None => None
        case Some(rest) => Some([Answer(output[8..16], error, output[REPLY_SIZE..end])] + rest)
  }

  function Requests(xs: seq<Exchange>): (rs: seq<Request>)
    ensures |rs| == |xs| && forall k :: 0 <= k < |xs| ==> rs[k] == xs[k].packet.request
  {
    seq(|xs|, k requires 0 <= k < |xs| => xs[k].packet.request)
  }

  /** What the reply to `x` should tell the client. */
  function AnswerTo(caps: Caps, x: Exchange, standard: bool): Answer {
    var error := Ntohl(StoredError(caps, x));
    Answer(x.packet.request.handle, error, if standard && error != 0 then [] else x.data)
  }

  function AnswersTo(caps: Caps, xs: seq<Exchange>, standard: bool): (r: seq<Answer>)
    ensures |r| == |xs| && forall k :: 0 <= k < |xs| ==> r[k] == AnswerTo(caps, xs[k], standard)
  {
    seq(|xs|, k requires 0 <= k < |xs| => AnswerTo(caps, xs[k], standard))
  }

  /** A failed read for which the server sends data all the same. */
  predicate SendsDataAfterError(caps: Caps, x: Exchange) {
    Ntohl(StoredError(caps, x)) != 0 && x.data != []
  }

  lemma ReplyParts(caps: Caps, x: Exchange, rest: seq<byte>)
    requires ValidExchange(x)
    ensures var b := Reply(caps, x) + rest;
            && |b| == REPLY_SIZE + |x.data| + |rest|
            && BigU32(b, 0) == REPLY_MAGIC && BigU32(b, 4) == Ntohl(StoredError(caps, x))
            && b[8..16] == x.packet.request.handle && b[16..16 + |x.data|] == x.data && b[16 + |x.data|..] == rest
  {
    Widths();
    BERoundTrip(REPLY_MAGIC, 4);
    hide BE, FromBE, LE, StoredError, Pow256;
    Cut5(BE(REPLY_MAGIC, 4), LE(StoredError(caps, x), 4), x.packet.request.handle, x.data, rest);
    NtohlIs(StoredError(caps, x));
  }

  lemma UnderstandStep(caps: Caps, x: Exchange, rs: seq<Request>, rest: seq<byte>, standard: bool)
    requires ValidExchange(x) && !(standard && SendsDataAfterError(caps, x))
    ensures Understand([x.packet.request] + rs, Reply(caps, x) + rest, standard)
            == match Understand(rs, rest, standard)
               case None => None
               case Some(others) => Some([AnswerTo(caps, x, standard)] + others)
  {
    ReplyParts(caps, x, rest);
    hide BigU32, Reply, StoredError, Ntohl;
    assert ([x.packet.request] + rs)[1..] == rs;
  }

  lemma ListsFromFront(caps: Caps, xs: seq<Exchange>, standard: bool)
    requires xs != []
    ensures Requests(xs) == [xs[0].packet.request] + Requests(xs[1..])
    ensures AnswersTo(caps, xs, standard) == [AnswerTo(caps, xs[0], standard)] + AnswersTo(caps, xs[1..], standard)
  {
    hide AnswerTo, Requests, AnswersTo;
    forall k | 0 < k < |xs|
      ensures Requests(xs)[k] == Requests(xs[1..])[k - 1]
      ensures AnswersTo(caps, xs, standard)[k] == AnswersTo(caps, xs[1..], standard)[k - 1]
    {
      assert xs[1..][k - 1] == xs[k];
    }
  }

  /** A client that takes data exactly when it is sent understands all of it. */
  lemma {:induction false} ClientUnderstands(caps: Caps, xs: seq<Exchange>, standard: bool)
    requires forall k :: 0 <= k < |xs| ==> ValidExchange(xs[k]) && !(standard && SendsDataAfterError(caps, xs[k]))
    ensures Understand(Requests(xs), Replies(caps, xs), standard) == Some(AnswersTo(caps, xs, standard))
  {
    hide Reply, AnswerTo, SendsDataAfterError, ValidExchange;
    if xs != [] {
      RepliesFromFront(caps, xs);
      ClientUnderstands(caps, xs[1..], standard);
      UnderstandStep(caps, xs[0], Requests(xs[1..]), Replies(caps, xs[1..]), standard);
      ListsFromFront(caps, xs, standard);
      hide Understand, Replies, Requests, AnswersTo;
    }
  }

  /** The bytes of a reply: its magic, four bytes of error, the request's handle, and then
      the data. */
  lemma ReplyBytes(caps: Caps, x: Exchange)
    ensures var b := Reply(caps, x);
            && |b| == 16 + |x.data| && b[0..4] == [0x67, 0x44, 0x66, 0x98]
            && b[8..16] == x.packet.request.handle && b[16..] == x.data
  {
    FourBytesBE(REPLY_MAGIC);
    hide BE, LE, StoredError;
  }

  /** One reply per request, in order, each with its request's handle and, after a read,
      exactly the bytes asked for: a client that always takes the data understands all of
      it, and nothing is left over. */
  lemma EveryRequestAnsweredOnce(caps: Caps, xs: seq<Exchange>)
    requires forall k :: 0 <= k < |xs| ==> ValidExchange(xs[k])
    ensures Understand(Requests(xs), Replies(caps, xs), false) == Some(AnswersTo(caps, xs, false))
  {
    hide Understand, Requests, Replies, AnswersTo, ValidExchange;
    ClientUnderstands(caps, xs, false);
  }

  /** The bytes of data an answer says there were. */
  function AnswerBytes(r: seq<Answer>): nat {
    if r == [] then 0 else |r[0].data| + AnswerBytes(r[1..])
  }

  lemma {:induction false} UnderstoodLength(rs: seq<Request>, output: seq<byte>, standard: bool)
    requires Understand(rs, output, standard).Some?
    ensures |output| == REPLY_SIZE * |rs| + AnswerBytes(Understand(rs, output, standard).value)
    decreases |rs|
  {
    hide BigU32;
    if rs != [] {
      var end := REPLY_SIZE + if standard && BigU32(output, 4) != 0 then 0 else DataLength(rs[0]);
      UnderstoodLength(rs[1..], output[end..], standard);
      var r := Understand(rs, output, standard).value;
      assert r[1..] == Understand(rs[1..], output[end..], standard).value;
    }
  }

  lemma {:induction false} LengthsDiffer(caps: Caps, xs: seq<Exchange>)
    requires forall k :: 0 <= k < |xs| ==> ValidExchange(xs[k])
    ensures |Replies(caps, xs)| >= REPLY_SIZE * |xs| + AnswerBytes(AnswersTo(caps, xs, true))
    ensures (exists k :: 0 <= k < |xs| && SendsDataAfterError(caps, xs[k])) ==>
              |Replies(caps, xs)| > REPLY_SIZE * |xs| + AnswerBytes(AnswersTo(caps, xs, true))
  {
    hide StoredError, BE, LE;
    if xs != [] {
      RepliesFromFront(caps, xs);
      LengthsDiffer(caps, xs[1..]);
      assert AnswersTo(caps, xs, true)[1..] == AnswersTo(caps, xs[1..], true);
      forall k | 0 < k < |xs| && SendsDataAfterError(caps, xs[k])
        ensures exists j :: 0 <= j < |xs[1..]| && SendsDataAfterError(caps, xs[1..][j])
      {
        assert xs[1..][k - 1] == xs[k];
      }
    }
  }

  /** The NBD protocol sends no data after an error. This server does, so a client that
      follows the protocol stays in step exactly when no failed read asked for any bytes. */
  lemma StandardClientStaysInStepIff(caps: Caps, xs: seq<Exchange>)
    requires forall k :: 0 <= k < |xs| ==> ValidExchange(xs[k])
    ensures Understand(Requests(xs), Replies(caps, xs), true) == Some(AnswersTo(caps, xs, true))
            <==> forall k :: 0 <= k < |xs| ==> !SendsDataAfterError(caps, xs[k])
  {
    if forall k :: 0 <= k < |xs| ==> !SendsDataAfterError(caps, xs[k]) {
      ClientUnderstands(caps, xs, true);
    } else {
      LengthsDiffer(caps, xs);
      if Understand(Requests(xs), Replies(caps, xs), true).Some? {
        UnderstoodLength(Requests(xs), Replies(caps, xs), true);
      }
    }
  }

  /** A word that reads the same from both ends. */
  predicate Symmetric(n: u32) {
    n % 0x100 == n / 0x100_0000 && n / 0x100 % 0x100 == n / 0x1_0000 % 0x100
  }

  lemma FourBytes(n: u32)
    ensures LE(n, 4) == [n % 0x100, n / 0x100 % 0x100, n / 0x1_0000 % 0x100, n / 0x100_0000]
  {
    var n1, n2 := n / 0x100, n / 0x1_0000;
    assert n1 / 0x100 == n2 && n2 / 0x100 == n / 0x100_0000;
    assert LE(n, 4) == [n % 256] + LE(n1, 3);
    assert LE(n1, 3) == [n1 % 256] + LE(n2, 2);
    assert LE(n2, 2) == [n2 % 256] + LE(n2 / 0x100, 1);
    assert LE(n2 / 0x100, 1) == [n2 / 0x100 % 256];
  }

  lemma SwapKeepsIff(n: u32)
    ensures Ntohl(n) == n <==> Symmetric(n)
  {
    var b, r := LE(n, 4), Reverse(LE(n, 4));
    Widths();
    FourBytes(n);
    StoresConverted(n);
    LERoundTrip(n, 4);
    LERoundTrip(Ntohl(n), 4);
    hide LE, FromLE, Ntohl;
    assert Ntohl(n) == n <==> r == b;
    assert r == b <==> r[0] == b[0] && r[1] == b[1];
  }

  lemma ZeroIsSymmetric()
    ensures Ntohl(0) == 0
  {
    SwapKeepsIff(0);
  }

  /** An errno an operation returns reaches the client with its bytes reversed: as it was
      meant exactly if it reads the same from both ends. Of the values that fit one byte,
      that is success alone; the server's own EPERM arrives as meant. */
  lemma OperationErrorsArriveReversed(caps: Caps, x: Exchange)
    requires ValidExchange(x)
    ensures Supplied(caps, x.packet.request.command) ==>
              (AnswerTo(caps, x, true).error == M.Unsigned(x.error) <==> Symmetric(M.Unsigned(x.error)))
    ensures Supplied(caps, x.packet.request.command) && 0 <= x.error < 256 ==>
              (AnswerTo(caps, x, true).error == x.error <==> x.error == 0)
    ensures !Supplied(caps, x.packet.request.command) && (x.packet.request.command == CmdRead || x.packet.request.command == CmdWrite) ==>
              AnswerTo(caps, x, true).error == 1
    ensures !Supplied(caps, x.packet.request.command) && (x.packet.request.command == CmdFlush || x.packet.request.command == CmdTrim) ==>
              AnswerTo(caps, x, true).error == 0
  {
    ZeroIsSymmetric();
    if Supplied(caps, x.packet.request.command) {
      SwapKeepsIff(M.Unsigned(x.error));
    }
    NtohlTwice(EPERM);
    hide Ntohl;
  }

  /** Every read from a server without a read operation fails and is sent data. */
  lemma UnsuppliedReadSendsData(caps: Caps, x: Exchange)
    requires ValidExchange(x) && x.packet.request.command == CmdRead && !caps.read && x.packet.request.len > 0
    ensures SendsDataAfterError(caps, x)
  {
    NtohlTwice(EPERM);
    hide Ntohl;
  }

  /** A client that follows the protocol does lose step: here after one read of one byte from
      such a server. */
  lemma OneFailedReadLosesStep()
    ensures var caps := Caps(false, true, true, true, true);
            var x := Exchange(Packet(Request(CmdRead, [1, 2, 3, 4, 5, 6, 7, 8], 0, 1), []), 0, [9]);
            ValidExchange(x) && Understand(Requests([x]), Replies(caps, [x]), true) != Some(AnswersTo(caps, [x], true))
  {
    var caps := Caps(false, true, true, true, true);
    var x := Exchange(Packet(Request(CmdRead, [1, 2, 3, 4, 5, 6, 7, 8], 0, 1), []), 0, [9]);
    UnsuppliedReadSendsData(caps, x);
    hide Understand, Replies, SendsDataAfterError;
    StandardClientStaysInStepIff(caps, [x]);
    assert [x][0] == x;
  }
}
