/** Message framing and dispatch of src/inputproxy.cpp: requests cut out of the TCP stream
    of the NBD side, and datagrams exchanged with the minions. */
module InputProxy {
  import opened Bytes
  import opened Message
  import Protocol
  import ProtocolInvariant
  import Raid
  import ResponseManager

  // ----- the TCP stream -----

  datatype Request =
    | ReadArgs(offset: u64, size: u32)
    | WriteArgs(offset: u64, size: u32, data: seq<byte>)
    | UnknownKey          // the message factory has no constructor for the key

  /** The frame kind the peeked key selects: anything but a write is taken for a read. */
  function StreamKind(key: u32): Kind {
    if key == NBD_WRITE_MSG then NBDWrite else NBDRead
  }

  /** A whole frame has arrived, and its length fits the int that recv is given. */
  predicate FrameArrived(b: seq<byte>) {
    |b| >= HEADER_SIZE && var n := FrameSize(StreamKind(U32At(b, 0)), U32At(b, 4)); n <= |b| && n < 0x8000_0000
  }

  function SupplyArgs(m: Msg): Request
    requires m.NBDReadMsg? || m.NBDWriteMsg?
  {
    if m.NBDWriteMsg? then WriteArgs(m.offset, m.size, m.data) else ReadArgs(m.offset, m.size)
  }

  /** The first request of the stream and the number of bytes it takes. */
  function NextRequest(b: seq<byte>): (Request, nat)
    requires FrameArrived(b)
  {
    var key, size := U32At(b, 0), U32At(b, 4);
    if key != NBD_WRITE_MSG && key != NBD_READ_MSG then (UnknownKey, 0)
    else (SupplyArgs(Decode(StreamKind(key), b).m), FrameSize(StreamKind(key), size))
  }

  /** All requests of a stream, for as long as whole known frames follow each other, and
      what is left. */
  function AllRequests(b: seq<byte>): (seq<Request>, seq<byte>)
    decreases |b|
  {
    if !FrameArrived(b) || NextRequest(b).0.UnknownKey? then ([], b)
    else
      var (r, n) := NextRequest(b);
      var (rs, left) := AllRequests(b[n..]);
      ([r] + rs, left)
  }

  /** The request `r` is what the first frame of `b` says, byte by byte, and `left` is what
      follows that frame. */
  ghost predicate TakenFrom(b: seq<byte>, r: Request, left: seq<byte>) {
    && |b| >= 40
    && var key, size, offset := FromLE(b[0..4]), FromLE(b[4..8]), FromLE(b[32..40]);
    && (key == 30 ==> 40 + size <= |b| && left == b[40 + size..]
                      && r.WriteArgs? && r.offset == offset && r.size == size && r.data == b[40..40 + size])
    && (key == 31 ==> left == b[40..] && r.ReadArgs? && r.offset == offset && r.size == size)
    && (key != 30 && key != 31 ==> left == b && r.UnknownKey?)
  }

  lemma NextRequestTakes(b: seq<byte>)
    requires FrameArrived(b)
    ensures NextRequest(b).1 <= |b| && TakenFrom(b, NextRequest(b).0, b[NextRequest(b).1..])
  {
    hide FromLE;
  }

  method Receive(stream: seq<byte>, size: nat) returns (buffer: array<byte>)
    requires size <= |stream|
    ensures fresh(buffer) && buffer[..] == stream[..size]
  {
    buffer := new byte[size](i requires 0 <= i < size => stream[i]);
  }

  class NBDProxy {
    var incoming: seq<byte>

    constructor (incoming: seq<byte>)
      ensures this.incoming == incoming
    {
      this.incoming := incoming;
    }

    /** NBDProxy::GetArgsKey: peek at key and size, then receive that one frame. */
    method GetArgsKey() returns (r: Request)
      requires FrameArrived(incoming)
      modifies this
      ensures r == NextRequest(old(incoming)).0 && incoming == old(incoming)[NextRequest(old(incoming)).1..]
      ensures TakenFrom(old(incoming), r, incoming)
    {
      NextRequestTakes(incoming);
      var peeked := Receive(incoming, 8);
      var key, size, at;
      Widths();
      key, at := GetInt(peeked, 0, 4);
      size, at := GetInt(peeked, at, 4);
      assert incoming[..8][0..4] == incoming[0..4] && incoming[..8][4..8] == incoming[4..8];
      assert peeked[..] == incoming[..8];
      if key != NBD_WRITE_MSG && key != NBD_READ_MSG {
        return UnknownKey;
      }
      var kind := if key == NBD_WRITE_MSG then NBDWrite else NBDRead;
      var n := FixedSize(kind) + if key == NBD_WRITE_MSG then size else 0;
      var buffer := Receive(incoming, n);
      LongerBuffer(kind, incoming, n);
      var d, _ := FromBuffer(kind, buffer);
      incoming := incoming[n..];
      r := SupplyArgs(d.m);
    }
  }

  lemma SameSlice(b: seq<byte>, n: nat, at: nat, w: nat)
    requires at + w <= n <= |b|
    ensures b[..n][at..at + w] == b[at..at + w]
  {
  }

  lemma SamePrefix(b: seq<byte>, n: nat, m: nat)
    requires m <= n <= |b|
    ensures b[..n][..m] == b[..m]
  {
  }

  lemma SameHeader(b: seq<byte>, n: nat)
    requires HEADER_SIZE <= n <= |b|
    ensures U32At(b[..n], 0) == U32At(b, 0) && U32At(b[..n], 4) == U32At(b, 4) && UidAt(b[..n], 8) == UidAt(b, 8)
  {
    SameSlice(b, n, 0, 4);
    SameSlice(b, n, 4, 4);
    SameSlice(b, n, 8, 4);
    SameSlice(b, n, 12, 8);
    SameSlice(b, n, 20, 4);
    SameSlice(b, n, 24, 8);
    hide FromLE;
  }

  lemma SameParse(k: Kind, b: seq<byte>, n: nat)
    requires |b| >= HEADER_SIZE && n == FrameSize(k, U32At(b, 4)) <= |b|
    ensures HoldsFrame(k, b[..n]) && Parse(k, b[..n]) == Parse(k, b)
  {
    SameHeader(b, n);
    var size := U32At(b, 4);
    if k == Read || k == Write || k == NBDRead || k == NBDWrite {
      SameSlice(b, n, 32, 8);
      SameSlice(b, n, 40, if CarriesData(k) then size else 0);
    } else {
      SameSlice(b, n, 33, if CarriesData(k) then size else 0);
    }
    hide U32At, UidAt, FromLE;
  }

  lemma SameChecksum(k: Kind, b: seq<byte>, n: nat)
    requires |b| >= HEADER_SIZE && n == FrameSize(k, U32At(b, 4)) <= |b| && HoldsFrame(k, b[..n])
    ensures ChecksumOk(k, b[..n]) == ChecksumOk(k, b)
  {
    SameHeader(b, n);
    SamePrefix(b, n, n - 1);
    hide U32At, XorFold;
  }

  /** Decoding looks at no byte beyond the frame. */
  lemma LongerBuffer(k: Kind, b: seq<byte>, n: nat)
    requires |b| >= HEADER_SIZE && n == FrameSize(k, U32At(b, 4)) <= |b|
    ensures HoldsFrame(k, b[..n]) && Decode(k, b[..n]) == Decode(k, b)
    ensures U32At(b[..n], 0) == U32At(b, 0)
  {
    SameHeader(b, n);
    SameParse(k, b, n);
    SameChecksum(k, b, n);
    hide U32At, Parse, ChecksumOk, FrameSize, HoldsFrame;
  }

  /** A message as NBD::NBDRead and NBD::NBDWrite construct it, short enough for recv. */
  predicate IsNbdMessage(m: Msg) {
    && Valid(m)
    && (m.NBDReadMsg? || m.NBDWriteMsg?)
    && m.key == (if m.NBDWriteMsg? then NBD_WRITE_MSG else NBD_READ_MSG)
    && FrameSize(KindOf(m), m.size) < 0x8000_0000
  }

  type NbdMsg = m: Msg | IsNbdMessage(m) witness NBDReadMsg(NBD_READ_MSG, 0, Uid(0, 0, 0, 0), 0)

  function EncodeAll(ms: seq<NbdMsg>): seq<byte> {
    if ms == [] then [] else Encode(ms[0]) + EncodeAll(ms[1..])
  }

  function Requests(ms: seq<NbdMsg>): seq<Request> {
    if ms == [] then [] else [SupplyArgs(ms[0])] + Requests(ms[1..])
  }

  lemma FirstFrame(m: NbdMsg, rest: seq<byte>)
    ensures FrameArrived(Encode(m) + rest)
    ensures NextRequest(Encode(m) + rest) == (SupplyArgs(m), |Encode(m)|)
  {
    SizesAgree(m);
    EncodingIsAFrame(m, rest);
    RoundTrip(m, rest);
  }

  /** Main theorem of the framing: whatever requests are sent back to back, the receiver
      cuts out exactly those requests and exactly their bytes. */
  lemma {:induction false} StreamRoundTrip(ms: seq<NbdMsg>, rest: seq<byte>)
    requires !FrameArrived(rest)
    ensures AllRequests(EncodeAll(ms) + rest) == (Requests(ms), rest)
  {
    if ms == [] {
      assert EncodeAll(ms) + rest == rest;
    } else {
      var tail := EncodeAll(ms[1..]) + rest;
      StreamRoundTrip(ms[1..], rest);
      assert EncodeAll(ms) + rest == Encode(ms[0]) + tail;
      FirstFrame(ms[0], tail);
      hide Encode, NextRequest, FrameArrived;
      assert (Encode(ms[0]) + tail)[|Encode(ms[0])|..] == tail;
    }
  }

  /** A request says what the message `m` said. */
  predicate Says(r: Request, m: Msg) {
    match m
    case NBDWriteMsg(_, size, _, offset, data) => r.WriteArgs? && r.offset == offset && r.size == size && r.data == data
    case NBDReadMsg(_, size, _, offset) => r.ReadArgs? && r.offset == offset && r.size == size
    case _ => false
  }

  lemma {:induction false} RequestsSay(ms: seq<NbdMsg>)
    ensures |Requests(ms)| == |ms| && forall k :: 0 <= k < |ms| ==> Says(Requests(ms)[k], ms[k])
  {
    if ms != [] {
      RequestsSay(ms[1..]);
    }
  }

  /** Main theorem of the framing, from the sender's side: the k-th request cut from the
      stream is a write, or a read, of exactly the offset, size and data of the k-th message. */
  lemma EveryRequestIsWhatWasSent(ms: seq<NbdMsg>, rest: seq<byte>)
    requires !FrameArrived(rest)
    ensures var (rs, left) := AllRequests(EncodeAll(ms) + rest);
            && left == rest && |rs| == |ms|
            && forall k :: 0 <= k < |ms| ==>
                 && (ms[k].NBDWriteMsg? ==> rs[k] == WriteArgs(ms[k].offset, ms[k].size, ms[k].data))
                 && (ms[k].NBDReadMsg? ==> rs[k] == ReadArgs(ms[k].offset, ms[k].size))
  {
    StreamRoundTrip(ms, rest);
    RequestsSay(ms);
    hide AllRequests, EncodeAll, Requests, FrameArrived;
    forall k | 0 <= k < |ms|
      ensures Says(Requests(ms)[k], ms[k])
    {
    }
  }

  // ----- datagrams -----

  datatype Received = Got(m: Msg) | Rejected | UnknownKind

  /** MasterProxy::GetArgsKey on a minion, and ResponseProxy::GetArgsKey on the master: the
      kind that the peeked key selects. */
  function MinionKind(key: u32): Kind {
    if key == WRITE_MSG_KEY then Write else Read
  }

  function MasterKind(key: u32): Kind {
    if key == WRITE_MINION_MSG_KEY then MinionWrite else MinionRead
  }

  function OnMinion(b: seq<byte>): Received
    requires |b| >= HEADER_SIZE && HoldsFrame(MinionKind(U32At(b, 0)), b)
  {
    var key := U32At(b, 0);
    if key != WRITE_MSG_KEY && key != READ_MSG_KEY then UnknownKind
    else match Decode(MinionKind(key), b)
      case Accepted(m) => Got(m)
      case ChecksumMismatch => Rejected
  }

  function OnMaster(b: seq<byte>): Received
    requires |b| >= HEADER_SIZE && HoldsFrame(MasterKind(U32At(b, 0)), b)
  {
    var key := U32At(b, 0);
    if key != WRITE_MINION_MSG_KEY && key != READ_MINION_MSG_KEY then UnknownKind
    else match Decode(MasterKind(key), b)
      case Accepted(m) => Got(m)
      case ChecksumMismatch => Rejected
  }

  /** The fields besides the counter that a ThreadSafeUID carries. */
  datatype Stamp = Stamp(timestamp: u64, pid: i32, ip: u64)

  function ToUid(k: ResponseManager.Key, t: Stamp): Uid {
    Uid(k, t.timestamp, t.pid, t.ip)
  }

  ghost predicate Sendable(p: Protocol.Datagram) {
    match p
    case WriteReq(_, at, data, _) => at < 0x1_0000_0000_0000_0000 && |data| < 0x1_0000_0000
    case ReadReq(_, at, size, _) => at < 0x1_0000_0000_0000_0000 && size < 0x1_0000_0000
    case WriteAck(_) => true
    case ReadAck(_, bytes) => |bytes| < 0x1_0000_0000
  }

  /** Every datagram of every reachable state fits the fields of its message. */
  lemma InFlightIsSendable(s: Protocol.State, p: Protocol.Datagram)
    requires ProtocolInvariant.Inv(s) && p in s.net
    ensures Sendable(p)
  {
    assert ProtocolInvariant.DatagramOk(s, p);
    if p.WriteReq? {
      var w := s.writeCmds[s.owner[p.uid].w];
      Raid.RequestHits(w.off, |w.data|, w.off);
    } else if p.ReadReq? || p.ReadAck? {
      var r := s.readCmds[s.owner[p.uid].r];
      Raid.RequestHits(r.off, r.size, r.off);
    }
  }

  /** The message each datagram of the protocol is sent as: MinionProxy::WriteRequest and
      ReadRequest, MasterProxy::WriteResponse and ReadResponse. */
  function ToWire(p: Protocol.Datagram, t: Stamp): Msg
    requires Sendable(p)
  {
    match p
    case WriteReq(_, at, data, uid) => WriteMsg(WRITE_MSG_KEY, |data|, ToUid(uid, t), at, data)
    case ReadReq(_, at, size, uid) => ReadMsg(READ_MSG_KEY, size, ToUid(uid, t), at)
    case WriteAck(uid) => MinionWriteMsg(WRITE_MINION_MSG_KEY, 0, ToUid(uid, t), true)
    case ReadAck(uid, bytes) => MinionReadMsg(READ_MINION_MSG_KEY, |bytes|, ToUid(uid, t), true, bytes)
  }

  /** The datagram a receiver acts on; `to` is the minion it arrived at. */
  function FromWire(m: Msg, to: nat): Protocol.Datagram
    requires Valid(m) && !m.NBDReadMsg? && !m.NBDWriteMsg?
  {
    match m
    case WriteMsg(_, _, uid, offset, data) => Protocol.WriteReq(to, offset, data, uid.counter)
    case ReadMsg(_, size, uid, offset) => Protocol.ReadReq(to, offset, size, uid.counter)
    case MinionWriteMsg(_, _, uid, _) => Protocol.WriteAck(uid.counter)
    case MinionReadMsg(_, _, uid, _, data) => Protocol.ReadAck(uid.counter, data)
  }

  /** The receiver computes the length that was sent, picks the right kind, accepts the frame,
      and acts on the same request or answer, carrying the same identifier. */
  ghost predicate ArrivesAsSent(p: Protocol.Datagram, t: Stamp)
    requires Sendable(p)
  {
    var m, b := ToWire(p, t), Encode(ToWire(p, t));
    && |b| >= HEADER_SIZE && Valid(m)
    && (p.WriteReq? || p.ReadReq? ==>
          HoldsFrame(MinionKind(U32At(b, 0)), b) && |b| == FrameSize(MinionKind(U32At(b, 0)), U32At(b, 4))
          && OnMinion(b) == Got(m) && FromWire(m, p.to) == p)
    && (p.WriteAck? || p.ReadAck? ==>
          HoldsFrame(MasterKind(U32At(b, 0)), b) && |b| == FrameSize(MasterKind(U32At(b, 0)), U32At(b, 4))
          && OnMaster(b) == Got(m) && FromWire(m, 0) == p)
  }

  /** Every datagram that fits the fields of its message survives the wire. */
  lemma DatagramRoundTrip(p: Protocol.Datagram, t: Stamp)
    requires Sendable(p)
    ensures ArrivesAsSent(p, t)
  {
    var m := ToWire(p, t);
    SizesAgree(m);
    EncodingIsAFrame(m, []);
    RoundTrip(m, []);
    assert Encode(m) + [] == Encode(m);
  }

  /** So in every reachable state whatever is in flight arrives as what it is. */
  lemma WhateverIsInFlightArrives(s: Protocol.State, p: Protocol.Datagram, t: Stamp)
    requires ProtocolInvariant.Inv(s) && p in s.net
    ensures Sendable(p)
    ensures ArrivesAsSent(p, t)
  {
    InFlightIsSendable(s, p);
    hide ProtocolInvariant.Inv, Sendable, ArrivesAsSent;
    DatagramRoundTrip(p, t);
  }

  /** The bytes each datagram travels as: which key, and where its numbers and data lie. */
  lemma DatagramLayout(p: Protocol.Datagram, t: Stamp)
    requires Sendable(p)
    ensures var b := Encode(ToWire(p, t));
            && |b| >= 33 && FromLE(b[8..12]) == p.uid
            && (p.WriteReq? ==> |b| == 41 + |p.data| && FromLE(b[0..4]) == 8 && FromLE(b[4..8]) == |p.data|
                                && FromLE(b[32..40]) == p.at && b[40..40 + |p.data|] == p.data)
            && (p.ReadReq? ==> |b| == 41 && FromLE(b[0..4]) == 9 && FromLE(b[4..8]) == p.size && FromLE(b[32..40]) == p.at)
            && (p.WriteAck? ==> |b| == 33 && FromLE(b[0..4]) == 29 && b[32] == 1)
            && (p.ReadAck? ==> |b| == 33 + |p.bytes| && FromLE(b[0..4]) == 28 && FromLE(b[4..8]) == |p.bytes|
                               && b[32] == 1 && b[33..] == p.bytes)
  {
    Layout(ToWire(p, t));
    hide Encode, FromLE;
  }
}
