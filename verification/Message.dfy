/** The six messages of src/message.cpp: their encoding into a buffer and their decoding. */
module Message {
  import opened Bytes

  type u32 = n: int | 0 <= n < 0x1_0000_0000
  type u64 = n: int | 0 <= n < 0x1_0000_0000_0000_0000
  type i32 = n: int | -0x8000_0000 <= n < 0x8000_0000

  const WRITE_MSG_KEY := 8
  const READ_MSG_KEY := 9
  const READ_MINION_MSG_KEY := 28
  const WRITE_MINION_MSG_KEY := 29
  const NBD_WRITE_MSG := 30
  const NBD_READ_MSG := 31

  /** The fields of a ThreadSafeUID that travel. */
  datatype Uid = Uid(counter: u32, timestamp: u64, pid: i32, ip: u64)

  datatype Msg =
    | ReadMsg(key: u32, size: u32, uid: Uid, offset: u64)
    | WriteMsg(key: u32, size: u32, uid: Uid, offset: u64, data: seq<byte>)
    | MinionReadMsg(key: u32, size: u32, uid: Uid, success: bool, data: seq<byte>)
    | MinionWriteMsg(key: u32, size: u32, uid: Uid, success: bool)
    | NBDReadMsg(key: u32, size: u32, uid: Uid, offset: u64)
    | NBDWriteMsg(key: u32, size: u32, uid: Uid, offset: u64, data: seq<byte>)

  datatype Kind = Read | Write | MinionRead | MinionWrite | NBDRead | NBDWrite

  function KindOf(m: Msg): Kind {
    match m
    case ReadMsg(_, _, _, _) => Read
    case WriteMsg(_, _, _, _, _) => Write
    case MinionReadMsg(_, _, _, _, _) => MinionRead
    case MinionWriteMsg(_, _, _, _) => MinionWrite
    case NBDReadMsg(_, _, _, _) => NBDRead
    case NBDWriteMsg(_, _, _, _, _) => NBDWrite
  }

  predicate CarriesData(k: Kind) {
    k == Write || k == MinionRead || k == NBDWrite
  }

  predicate HasChecksum(k: Kind) {
    k == Read || k == Write
  }

  /** A message that carries data carries as much as its size field says. */
  predicate Valid(m: Msg) {
    CarriesData(KindOf(m)) ==> |m.data| == m.size
  }

  // ----- the encoding -----

  const UID_SIZE := 24
  const HEADER_SIZE := 32

  function Unsigned(n: i32): u32 {
    if n < 0 then n + 0x1_0000_0000 else n
  }

  function Signed(n: u32): i32 {
    if n >= 0x8000_0000 then n - 0x1_0000_0000 else n
  }

  function EncodeUid(u: Uid): (r: seq<byte>)
    ensures |r| == UID_SIZE
  {
    LE(u.counter, 4) + LE(u.timestamp, 8) + LE(Unsigned(u.pid), 4) + LE(u.ip, 8)
  }

  function EncodeHeader(m: Msg): (r: seq<byte>)
    ensures |r| == HEADER_SIZE
  {
    LE(m.key, 4) + LE(m.size, 4) + EncodeUid(m.uid)
  }

  function EncodeBool(b: bool): seq<byte> {
    if b then [1] else [0]
  }

  /** What follows the header, up to the checksum. */
  function EncodeBody(m: Msg): seq<byte> {
    match m
    case ReadMsg(_, _, _, offset) => LE(offset, 8)
    case WriteMsg(_, _, _, offset, data) => LE(offset, 8) + data
    case MinionReadMsg(_, _, _, success, data) => EncodeBool(success) + data
    case MinionWriteMsg(_, _, _, success) => EncodeBool(success)
    case NBDReadMsg(_, _, _, offset) => LE(offset, 8)
    case NBDWriteMsg(_, _, _, offset, data) => LE(offset, 8) + data
  }

  function Checksum(k: Kind, covered: seq<byte>): seq<byte> {
    if HasChecksum(k) then [XorFold(covered)] else []
  }

  function Encode(m: Msg): seq<byte> {
    var covered := EncodeHeader(m) + EncodeBody(m);
    covered + Checksum(KindOf(m), covered)
  }

  /** GetBufferSize: for a MinionReadMsg it leaves out the data. */
  function GetBufferSize(m: Msg): nat {
    FixedSize(KindOf(m)) + if KindOf(m) == Write || KindOf(m) == NBDWrite then m.size else 0
  }

  /** GetBufferSize of a default-constructed message, whose size field is 0. */
  function FixedSize(k: Kind): nat {
    match k
    case Read => HEADER_SIZE + 8 + 1
    case Write => HEADER_SIZE + 8 + 1
    case MinionRead => HEADER_SIZE + 1
    case MinionWrite => HEADER_SIZE + 1
    case NBDRead => HEADER_SIZE + 8
    case NBDWrite => HEADER_SIZE + 8
  }

  /** The bytes a receiver asks for after peeking at the size field of a frame. */
  function FrameSize(k: Kind, size: nat): nat {
    FixedSize(k) + if CarriesData(k) then size else 0
  }

  /** Every sender passes as many bytes to its socket as the encoding has, and the receiver
      computes the same number from the kind and the size field alone. */
  lemma SizesAgree(m: Msg)
    requires Valid(m)
    ensures |Encode(m)| == FrameSize(KindOf(m), m.size)
    ensures |Encode(m)| == GetBufferSize(m) + if m.MinionReadMsg? then m.size else 0
  {
  }

  // ----- writing through a cursor -----

  lemma SpliceTwice(s: seq<byte>, at: nat, a: seq<byte>, b: seq<byte>)
    requires at + |a| + |b| <= |s|
    ensures Splice(Splice(s, at, a), at + |a|, b) == Splice(s, at, a + b)
  {
  }

  /** A store of an unsigned integer of `w` bytes through the cursor. */
  method PutInt(buffer: array<byte>, at: nat, n: nat, w: nat) returns (cursor: nat)
    requires at + w <= buffer.Length
    modifies buffer
    ensures buffer[..] == Splice(old(buffer[..]), at, LE(n, w)) && cursor == at + w
    decreases w
  {
    if w == 0 {
      return at;
    }
    ghost var was := buffer[..];
    buffer[at] := n % 256;
    assert buffer[..] == Splice(was, at, [n % 256]);
    cursor := PutInt(buffer, at + 1, n / 256, w - 1);
    SpliceTwice(was, at, [n % 256], LE(n / 256, w - 1));
  }

  /** memcpy into the buffer. */
  method PutBytes(buffer: array<byte>, at: nat, data: seq<byte>) returns (cursor: nat)
    requires at + |data| <= buffer.Length
    modifies buffer
    ensures buffer[..] == Splice(old(buffer[..]), at, data) && cursor == at + |data|
  {
    ghost var was := buffer[..];
    forall k | 0 <= k < |data| {
      buffer[at + k] := data[k];
    }
    assert buffer[..] == Splice(was, at, data);
    cursor := at + |data|;
  }

  method PutUid(buffer: array<byte>, at: nat, u: Uid) returns (cursor: nat)
    requires at + UID_SIZE <= buffer.Length
    modifies buffer
    ensures buffer[..] == Splice(old(buffer[..]), at, EncodeUid(u)) && cursor == at + UID_SIZE
  {
    ghost var was := buffer[..];
    cursor := PutInt(buffer, at, u.counter, 4);
    cursor := PutInt(buffer, cursor, u.timestamp, 8);
    SpliceTwice(was, at, LE(u.counter, 4), LE(u.timestamp, 8));
    cursor := PutInt(buffer, cursor, Unsigned(u.pid), 4);
    SpliceTwice(was, at, LE(u.counter, 4) + LE(u.timestamp, 8), LE(Unsigned(u.pid), 4));
    cursor := PutInt(buffer, cursor, u.ip, 8);
    SpliceTwice(was, at, LE(u.counter, 4) + LE(u.timestamp, 8) + LE(Unsigned(u.pid), 4), LE(u.ip, 8));
  }

  method PutHeader(buffer: array<byte>, at: nat, m: Msg) returns (cursor: nat)
    requires at + HEADER_SIZE <= buffer.Length
    modifies buffer
    ensures buffer[..] == Splice(old(buffer[..]), at, EncodeHeader(m)) && cursor == at + HEADER_SIZE
  {
    ghost var was := buffer[..];
    cursor := PutInt(buffer, at, m.key, 4);
    cursor := PutInt(buffer, cursor, m.size, 4);
    SpliceTwice(was, at, LE(m.key, 4), LE(m.size, 4));
    cursor := PutUid(buffer, cursor, m.uid);
    SpliceTwice(was, at, LE(m.key, 4) + LE(m.size, 4), EncodeUid(m.uid));
  }

  /** CalculateChecksum. */
  method CalculateChecksum(data: array<byte>, start: nat, length: nat) returns (checksum: byte)
    requires start + length <= data.Length
    ensures checksum == XorFold(data[start..start + length])
  {
    checksum := 0;
    var i := 0;
    while i < length
      invariant 0 <= i <= length
      invariant checksum == XorFold(data[start..start + i])
    {
      assert data[start..start + i + 1] == data[start..start + i] + [data[start + i]];
      checksum := Xor(checksum, data[start + i]);
      i := i + 1;
    }
  }

  lemma MinionEncoding(m: Msg)
    requires Valid(m) && (m.MinionReadMsg? || m.MinionWriteMsg?)
    ensures var flag, data := EncodeBool(m.success), if m.MinionReadMsg? then m.data else [];
            && Encode(m) == EncodeHeader(m) + flag + data && |flag| == 1
            && GetBufferSize(m) == HEADER_SIZE + 1
            && (data == [] ==> Encode(m) == EncodeHeader(m) + flag)
  {
    hide EncodeHeader, XorFold;
  }

  /** ToBuffer of the two messages a minion answers with. The cursor returned for a
      MinionReadMsg is memcpy's destination, the start of the data. */
  method MinionToBuffer(m: Msg, buffer: array<byte>, at: nat) returns (cursor: nat)
    requires Valid(m) && (m.MinionReadMsg? || m.MinionWriteMsg?) && at + |Encode(m)| <= buffer.Length
    modifies buffer
    ensures buffer[..] == Splice(old(buffer[..]), at, Encode(m)) && cursor == at + GetBufferSize(m)
  {
    MinionEncoding(m);
    hide EncodeHeader, EncodeBool, Encode, GetBufferSize, Splice;
    ghost var was := buffer[..];
    var flag := EncodeBool(m.success);
    cursor := PutHeader(buffer, at, m);
    cursor := PutBytes(buffer, cursor, flag);
    SpliceTwice(was, at, EncodeHeader(m), flag);
    if m.MinionReadMsg? {
      var _ := PutBytes(buffer, cursor, m.data);
      SpliceTwice(was, at, EncodeHeader(m) + flag, m.data);
    }
  }

  /** The header, offset and data of the other four messages. */
  method PutRequest(m: Msg, buffer: array<byte>, at: nat) returns (cursor: nat)
    requires Valid(m) && !m.MinionReadMsg? && !m.MinionWriteMsg? && at + HEADER_SIZE + |EncodeBody(m)| <= buffer.Length
    modifies buffer
    ensures buffer[..] == Splice(old(buffer[..]), at, EncodeHeader(m) + EncodeBody(m))
    ensures cursor == at + HEADER_SIZE + |EncodeBody(m)|
  {
    hide EncodeHeader, Splice, LE, XorFold;
    ghost var was := buffer[..];
    cursor := PutHeader(buffer, at, m);
    cursor := PutInt(buffer, cursor, m.offset, 8);
    SpliceTwice(was, at, EncodeHeader(m), LE(m.offset, 8));
    if m.WriteMsg? || m.NBDWriteMsg? {
      cursor := PutBytes(buffer, cursor, m.data);
      SpliceTwice(was, at, EncodeHeader(m) + LE(m.offset, 8), m.data);
      assert EncodeHeader(m) + LE(m.offset, 8) + m.data == EncodeHeader(m) + EncodeBody(m);
    }
  }

  /** ToBuffer of every kind. */
  method ToBuffer(m: Msg, buffer: array<byte>, at: nat) returns (cursor: nat)
    requires Valid(m) && at + |Encode(m)| <= buffer.Length
    modifies buffer
    ensures buffer[..] == Splice(old(buffer[..]), at, Encode(m)) && cursor == at + GetBufferSize(m)
  {
    SizesAgree(m);
    if m.MinionReadMsg? || m.MinionWriteMsg? {
      cursor := MinionToBuffer(m, buffer, at);
      return;
    }
    hide EncodeHeader, EncodeBody, XorFold, Splice;
    ghost var was := buffer[..];
    var covered := EncodeHeader(m) + EncodeBody(m);
    cursor := PutRequest(m, buffer, at);
    if m.ReadMsg? || m.WriteMsg? {
      assert buffer[at..cursor] == covered;
      var checksum := CalculateChecksum(buffer, at, cursor - at);
      cursor := PutBytes(buffer, cursor, [checksum]);
      SpliceTwice(was, at, covered, [checksum]);
    } else {
      assert covered == Encode(m);
    }
  }

  // ----- decoding -----

  datatype Decoded = Accepted(m: Msg) | ChecksumMismatch

  function Field(b: seq<byte>, at: nat, w: nat): (n: nat)
    requires at + w <= |b|
    ensures n < Pow256(w)
  {
    FromLERoundTrip(b[at..at + w]);
    FromLE(b[at..at + w])
  }

  function U32At(b: seq<byte>, at: nat): u32
    requires at + 4 <= |b|
  {
    Widths();
    Field(b, at, 4)
  }

  function U64At(b: seq<byte>, at: nat): u64
    requires at + 8 <= |b|
  {
    Widths();
    Field(b, at, 8)
  }

  function UidAt(b: seq<byte>, at: nat): Uid
    requires at + UID_SIZE <= |b|
  {
    Uid(U32At(b, at), U64At(b, at + 4), Signed(U32At(b, at + 12)), U64At(b, at + 16))
  }

  /** The buffer holds a frame of kind `k`, as far as its own size field says. */
  predicate HoldsFrame(k: Kind, b: seq<byte>) {
    |b| >= HEADER_SIZE && |b| >= FrameSize(k, U32At(b, 4))
  }

  /** The message the fields of a frame spell, whatever its checksum says. */
  function Parse(k: Kind, b: seq<byte>): (m: Msg)
    requires HoldsFrame(k, b)
    ensures KindOf(m) == k && Valid(m)
  {
    var key, size, uid := U32At(b, 0), U32At(b, 4), UidAt(b, 8);
    match k
    case Read => ReadMsg(key, size, uid, U64At(b, 32))
    case Write => WriteMsg(key, size, uid, U64At(b, 32), b[40..40 + size])
    case MinionRead => MinionReadMsg(key, size, uid, b[32] != 0, b[33..33 + size])
    case MinionWrite => MinionWriteMsg(key, size, uid, b[32] != 0)
    case NBDRead => NBDReadMsg(key, size, uid, U64At(b, 32))
    case NBDWrite => NBDWriteMsg(key, size, uid, U64At(b, 32), b[40..40 + size])
  }

  predicate ChecksumOk(k: Kind, b: seq<byte>)
    requires HoldsFrame(k, b)
  {
    HasChecksum(k) ==>
      var n := FrameSize(k, U32At(b, 4)) - 1; XorFold(b[..n]) == b[n]
  }

  function Decode(k: Kind, b: seq<byte>): Decoded
    requires HoldsFrame(k, b)
  {
    if ChecksumOk(k, b) then Accepted(Parse(k, b)) else ChecksumMismatch
  }

  method GetInt(buffer: array<byte>, at: nat, w: nat) returns (n: nat, cursor: nat)
    requires at + w <= buffer.Length
    ensures n == Field(buffer[..], at, w) && cursor == at + w
  {
    n, cursor := 0, at + w;
    FromLERoundTrip(buffer[at..at + w]);
    var i := w;
    while i > 0
      invariant 0 <= i <= w
      invariant n == FromLE(buffer[at + i..at + w])
    {
      i := i - 1;
      assert buffer[at + i..at + w][1..] == buffer[at + i + 1..at + w];
      n := buffer[at + i] + 256 * n;
    }
    assert buffer[..][at..at + w] == buffer[at..at + w];
  }

  /** FromBuffer of AMessage, which every kind starts with. */
  method GetHeader(buffer: array<byte>) returns (key: u32, size: u32, uid: Uid, cursor: nat)
    requires buffer.Length >= HEADER_SIZE
    ensures key == U32At(buffer[..], 0) && size == U32At(buffer[..], 4) && uid == UidAt(buffer[..], 8)
    ensures cursor == HEADER_SIZE
  {
    hide Field;
    Widths();
    var counter, timestamp, pid, ip;
    key, cursor := GetInt(buffer, 0, 4);
    size, cursor := GetInt(buffer, cursor, 4);
    counter, cursor := GetInt(buffer, cursor, 4);
    timestamp, cursor := GetInt(buffer, cursor, 8);
    pid, cursor := GetInt(buffer, cursor, 4);
    ip, cursor := GetInt(buffer, cursor, 8);
    uid := Uid(counter, timestamp, Signed(pid), ip);
  }

  method GetBytes(buffer: array<byte>, at: nat, w: nat) returns (data: seq<byte>, cursor: nat)
    requires at + w <= buffer.Length
    ensures data == buffer[..][at..at + w] && cursor == at + w
  {
    data, cursor := buffer[at..at + w], at + w;
  }

  /** FromBuffer: reads the fields through the cursor and, for the two kinds that have one,
      compares the checksum last. */
  method FromBuffer(k: Kind, buffer: array<byte>) returns (d: Decoded, cursor: nat)
    requires HoldsFrame(k, buffer[..])
    ensures d == Decode(k, buffer[..]) && cursor == FrameSize(k, U32At(buffer[..], 4))
  {
    hide UidAt, U32At, Field, XorFold;
    Widths();
    var key, size, uid, offset;
    key, size, uid, cursor := GetHeader(buffer);
    if k == MinionRead || k == MinionWrite {
      var success := buffer[cursor] != 0;
      cursor := cursor + 1;
      if k == MinionWrite {
        return Accepted(MinionWriteMsg(key, size, uid, success)), cursor;
      }
      var data;
      data, cursor := GetBytes(buffer, cursor, size);
      return Accepted(MinionReadMsg(key, size, uid, success, data)), cursor;
    }
    offset, cursor := GetInt(buffer, cursor, 8);
    var data := [];
    if k == Write || k == NBDWrite {
      data, cursor := GetBytes(buffer, cursor, size);
    }
    if k == NBDRead {
      return Accepted(NBDReadMsg(key, size, uid, offset)), cursor;
    }
    if k == NBDWrite {
      return Accepted(NBDWriteMsg(key, size, uid, offset, data)), cursor;
    }
    var calculated := CalculateChecksum(buffer, 0, cursor);
    var received := buffer[cursor];
    assert buffer[0..cursor] == buffer[..][..cursor];
    cursor := cursor + 1;
    if received != calculated {
      return ChecksumMismatch, cursor;
    }
    d := Accepted(if k == Read then ReadMsg(key, size, uid, offset) else WriteMsg(key, size, uid, offset, data));
  }

  // ----- decoding undoes encoding -----

  lemma IntInside(pre: seq<byte>, n: nat, w: nat, post: seq<byte>)
    requires n < Pow256(w)
    ensures |pre + LE(n, w) + post| == |pre| + w + |post|
    ensures Field(pre + LE(n, w) + post, |pre|, w) == n
  {
  }

  /** Each header field sits where the decoder looks for it. */
  lemma HeaderRoundTrip(m: Msg, rest: seq<byte>)
    ensures var b := EncodeHeader(m) + rest;
            U32At(b, 0) == m.key && U32At(b, 4) == m.size && UidAt(b, 8) == m.uid
  {
    hide LE, Field;
    Widths();
    var key, size, u := LE(m.key, 4), LE(m.size, 4), m.uid;
    var c, t, p, i := LE(u.counter, 4), LE(u.timestamp, 8), LE(Unsigned(u.pid), 4), LE(u.ip, 8);
    var b := EncodeHeader(m) + rest;
    assert b == [] + key + (size + c + t + p + i + rest);
    IntInside([], m.key, 4, size + c + t + p + i + rest);
    assert b == key + size + (c + t + p + i + rest);
    IntInside(key, m.size, 4, c + t + p + i + rest);
    assert b == (key + size) + c + (t + p + i + rest);
    IntInside(key + size, u.counter, 4, t + p + i + rest);
    assert b == (key + size + c) + t + (p + i + rest);
    IntInside(key + size + c, u.timestamp, 8, p + i + rest);
    assert b == (key + size + c + t) + p + (i + rest);
    IntInside(key + size + c + t, Unsigned(u.pid), 4, i + rest);
    assert b == (key + size + c + t + p) + i + rest;
    IntInside(key + size + c + t + p, u.ip, 8, rest);
  }

  lemma EncodingIsAFrame(m: Msg, rest: seq<byte>)
    requires Valid(m)
    ensures HoldsFrame(KindOf(m), Encode(m) + rest) && U32At(Encode(m) + rest, 4) == m.size
    ensures U32At(Encode(m) + rest, 0) == m.key && UidAt(Encode(m) + rest, 8) == m.uid
  {
    SizesAgree(m);
    var tail := EncodeBody(m) + Checksum(KindOf(m), EncodeHeader(m) + EncodeBody(m)) + rest;
    assert Encode(m) + rest == EncodeHeader(m) + tail;
    HeaderRoundTrip(m, tail);
  }

  lemma Middle(pre: seq<byte>, f: seq<byte>, post: seq<byte>)
    ensures (pre + f + post)[|pre|..|pre| + |f|] == f
    ensures |f| > 0 ==> (pre + f + post)[|pre|] == f[0]
  {
  }

  /** Where the decoder finds the parts of a request after its header `h`. */
  lemma RequestParts(h: seq<byte>, offset: u64, data: seq<byte>, check: seq<byte>, rest: seq<byte>)
    requires |h| == HEADER_SIZE
    ensures var b := h + (LE(offset, 8) + data) + check + rest;
            && U64At(b, 32) == offset && b[40..40 + |data|] == data
            && b[..40 + |data|] == h + (LE(offset, 8) + data)
            && (|check| > 0 ==> b[40 + |data|] == check[0])
  {
    Widths();
    var b := h + (LE(offset, 8) + data) + check + rest;
    assert b == h + LE(offset, 8) + (data + check + rest);
    IntInside(h, offset, 8, data + check + rest);
    assert b == (h + LE(offset, 8)) + data + (check + rest);
    Middle(h + LE(offset, 8), data, check + rest);
    Middle(h + (LE(offset, 8) + data), check, rest);
  }

  /** The same for an answer. */
  lemma AnswerParts(h: seq<byte>, success: bool, data: seq<byte>, rest: seq<byte>)
    requires |h| == HEADER_SIZE
    ensures var b := h + (EncodeBool(success) + data) + rest;
            (b[32] != 0 <==> success) && b[33..33 + |data|] == data
  {
  }

  lemma ParseUndoesEncode(m: Msg, rest: seq<byte>)
    requires Valid(m) && HoldsFrame(KindOf(m), Encode(m) + rest)
    requires var b := Encode(m) + rest; U32At(b, 0) == m.key && U32At(b, 4) == m.size && UidAt(b, 8) == m.uid
    ensures Parse(KindOf(m), Encode(m) + rest) == m
  {
    hide U32At, U64At, UidAt, XorFold, EncodeHeader, LE;
    var b, h := Encode(m) + rest, EncodeHeader(m);
    if m.MinionReadMsg? || m.MinionWriteMsg? {
      var data := if m.MinionReadMsg? then m.data else [];
      assert b == h + (EncodeBool(m.success) + data) + rest;
      AnswerParts(h, m.success, data, rest);
    } else {
      var data := if m.WriteMsg? || m.NBDWriteMsg? then m.data else [];
      assert EncodeBody(m) == LE(m.offset, 8) + data;
      RequestParts(h, m.offset, data, Checksum(KindOf(m), h + EncodeBody(m)), rest);
    }
  }

  lemma ChecksumPart(covered: seq<byte>, rest: seq<byte>)
    ensures var b := covered + [XorFold(covered)] + rest; b[..|covered|] == covered && b[|covered|] == XorFold(covered)
  {
  }

  lemma ChecksumUndoesEncode(m: Msg, rest: seq<byte>)
    requires Valid(m) && HoldsFrame(KindOf(m), Encode(m) + rest) && U32At(Encode(m) + rest, 4) == m.size
    ensures ChecksumOk(KindOf(m), Encode(m) + rest)
  {
    if HasChecksum(KindOf(m)) {
      SizesAgree(m);
      hide U32At, XorFold, EncodeHeader, EncodeBody, LE;
      var covered := EncodeHeader(m) + EncodeBody(m);
      ChecksumPart(covered, rest);
      assert Encode(m) == covered + [XorFold(covered)];
    }
  }

  /** FromBuffer after ToBuffer gives back every field, whatever follows in the buffer. */
  lemma RoundTrip(m: Msg, rest: seq<byte>)
    requires Valid(m)
    ensures HoldsFrame(KindOf(m), Encode(m) + rest)
    ensures Decode(KindOf(m), Encode(m) + rest) == Accepted(m)
  {
    EncodingIsAFrame(m, rest);
    ParseUndoesEncode(m, rest);
    ChecksumUndoesEncode(m, rest);
  }

  lemma SplitAnswer(b: seq<byte>)
    requires |b| > HEADER_SIZE
    ensures b == b[..32] + [b[32]] + b[33..]
    ensures |b| == 33 ==> b == b[..32] + [b[32]]
  {
  }

  lemma ParsedAnswer(k: Kind, b: seq<byte>)
    requires (k == MinionRead || k == MinionWrite) && HoldsFrame(k, b) && |b| == FrameSize(k, U32At(b, 4))
    ensures var m := Parse(k, b);
            && (m.MinionReadMsg? || m.MinionWriteMsg?) && (b[32] <= 1 ==> EncodeBool(m.success) == [b[32]])
            && (if k == MinionRead then m.MinionReadMsg? && m.data == b[33..] else m.MinionWriteMsg? && |b| == 33)
  {
    hide U32At, UidAt;
  }

  /** The success byte is written as 0 or 1 and read as a truth value. */
  lemma AnswerIsExactIff(k: Kind, b: seq<byte>)
    requires (k == MinionRead || k == MinionWrite) && HoldsFrame(k, b) && |b| == FrameSize(k, U32At(b, 4))
    ensures Encode(Parse(k, b)) == b <==> b[32] <= 1
  {
    HeaderIsExact(k, b);
    ParsedAnswer(k, b);
    MinionEncoding(Parse(k, b));
    SplitAnswer(b);
    FlagByte(Parse(k, b));
    hide EncodeHeader, Encode, Parse, U32At;
  }

  lemma FlagByte(m: Msg)
    requires Valid(m) && (m.MinionReadMsg? || m.MinionWriteMsg?)
    ensures |Encode(m)| > 32 && Encode(m)[32] == EncodeBool(m.success)[0] <= 1
  {
    MinionEncoding(m);
    hide EncodeHeader, Encode;
  }

  lemma RequestIsExact(k: Kind, b: seq<byte>)
    requires k != MinionRead && k != MinionWrite && HoldsFrame(k, b) && |b| == FrameSize(k, U32At(b, 4)) && ChecksumOk(k, b)
    ensures Encode(Parse(k, b)) == b
  {
    hide Field, LE;
    var m, n := Parse(k, b), if HasChecksum(k) then |b| - 1 else |b|;
    HeaderIsExact(k, b);
    IntBack(b, 32, 8);
    hide EncodeHeader, XorFold, U32At, UidAt;
    assert b[..n] == b[..32] + (b[32..40] + b[40..n]);
    assert LE(m.offset, 8) == b[32..40];
    assert EncodeBody(m) == b[32..40] + b[40..n];
    assert b == b[..n] + b[n..];
  }

  /** A decoded frame is the encoding of what it was decoded to, that is, the decoder drops
      nothing: exactly if, in an answer, the success byte is 0 or 1. */
  lemma DecodingIsExact(k: Kind, b: seq<byte>)
    requires HoldsFrame(k, b) && |b| == FrameSize(k, U32At(b, 4)) && Decode(k, b).Accepted?
    ensures Encode(Decode(k, b).m) == b <==> (k == MinionRead || k == MinionWrite ==> b[32] <= 1)
  {
    hide Encode, Parse, ChecksumOk, U32At, FrameSize;
    if k == MinionRead || k == MinionWrite {
      AnswerIsExactIff(k, b);
    } else {
      RequestIsExact(k, b);
    }
  }

  lemma ParsedHeader(k: Kind, b: seq<byte>)
    requires HoldsFrame(k, b)
    ensures var m := Parse(k, b); m.key == U32At(b, 0) && m.size == U32At(b, 4) && m.uid == UidAt(b, 8)
  {
  }

  lemma Join(b: seq<byte>, i: nat, j: nat, k: nat)
    requires i <= j <= k <= |b|
    ensures b[i..j] + b[j..k] == b[i..k]
  {
  }

  lemma SignedBack(n: u32)
    ensures Unsigned(Signed(n)) == n
  {
  }

  lemma UidIsExact(b: seq<byte>, at: nat)
    requires at + UID_SIZE <= |b|
    ensures EncodeUid(UidAt(b, at)) == b[at..at + UID_SIZE]
  {
    IntBack(b, at, 4);
    IntBack(b, at + 4, 8);
    IntBack(b, at + 12, 4);
    IntBack(b, at + 16, 8);
    SignedBack(U32At(b, at + 12));
    hide Field, LE, Signed, Unsigned;
    Join(b, at, at + 4, at + 12);
    Join(b, at, at + 12, at + 16);
    Join(b, at, at + 16, at + 24);
  }

  lemma HeaderIsExact(k: Kind, b: seq<byte>)
    requires HoldsFrame(k, b)
    ensures EncodeHeader(Parse(k, b)) == b[..32]
  {
    ParsedHeader(k, b);
    hide Parse, Field, LE, EncodeUid, UidAt;
    IntBack(b, 0, 4);
    IntBack(b, 4, 4);
    UidIsExact(b, 8);
    Join(b, 0, 4, 8);
    Join(b, 0, 8, 32);
    assert b[..32] == b[0..32];
  }

  lemma IntBack(b: seq<byte>, at: nat, w: nat)
    requires at + w <= |b|
    ensures LE(Field(b, at, w), w) == b[at..at + w]
  {
    FromLERoundTrip(b[at..at + w]);
  }

  // ----- the layout on the wire -----

  lemma SplitUid(b: seq<byte>, u: Uid)
    requires |b| >= HEADER_SIZE && UidAt(b, 8) == u
    ensures FromLE(b[8..12]) == u.counter && FromLE(b[12..20]) == u.timestamp
    ensures FromLE(b[20..24]) == if u.pid < 0 then u.pid + 0x1_0000_0000 else u.pid
    ensures FromLE(b[24..32]) == u.ip
  {
    hide FromLE;
  }

  /** What follows the header: the offset or the success byte, the data, the checksum. */
  lemma BodyLayout(m: Msg)
    requires Valid(m) && |Encode(m)| >= HEADER_SIZE
    ensures var b := Encode(m);
            && (m.ReadMsg? ==> |b| == 41 && FromLE(b[32..40]) == m.offset && b[40] == XorFold(b[..40]))
            && (m.WriteMsg? ==> |b| == 41 + m.size && FromLE(b[32..40]) == m.offset && b[40..40 + m.size] == m.data
                                && b[40 + m.size] == XorFold(b[..40 + m.size]))
            && (m.MinionReadMsg? ==> |b| == 33 + m.size && b[32] == (if m.success then 1 else 0) && b[33..] == m.data)
            && (m.MinionWriteMsg? ==> |b| == 33 && b[32] == (if m.success then 1 else 0))
            && (m.NBDReadMsg? ==> |b| == 40 && FromLE(b[32..40]) == m.offset)
            && (m.NBDWriteMsg? ==> |b| == 40 + m.size && FromLE(b[32..40]) == m.offset && b[40..] == m.data)
  {
    SizesAgree(m);
    var b, h := Encode(m), EncodeHeader(m);
    if m.MinionReadMsg? || m.MinionWriteMsg? {
      MinionEncoding(m);
      hide EncodeHeader, FromLE, XorFold, Encode;
    } else {
      var data := if m.WriteMsg? || m.NBDWriteMsg? then m.data else [];
      var check := Checksum(KindOf(m), h + EncodeBody(m));
      assert EncodeBody(m) == LE(m.offset, 8) + data;
      hide EncodeHeader, FromLE, XorFold, LE;
      RequestParts(h, m.offset, data, check, []);
      assert b == h + (LE(m.offset, 8) + data) + check + [];
    }
  }

  /** Where every field of every kind lies in the bytes that are sent. */
  lemma Layout(m: Msg)
    requires Valid(m)
    ensures var b := Encode(m);
            && |b| >= 32 && FromLE(b[0..4]) == m.key && FromLE(b[4..8]) == m.size
            && FromLE(b[8..12]) == m.uid.counter && FromLE(b[12..20]) == m.uid.timestamp
            && FromLE(b[20..24]) == (if m.uid.pid < 0 then m.uid.pid + 0x1_0000_0000 else m.uid.pid)
            && FromLE(b[24..32]) == m.uid.ip
            && (m.ReadMsg? ==> |b| == 41 && FromLE(b[32..40]) == m.offset && b[40] == XorFold(b[..40]))
            && (m.WriteMsg? ==> |b| == 41 + m.size && FromLE(b[32..40]) == m.offset && b[40..40 + m.size] == m.data
                                && b[40 + m.size] == XorFold(b[..40 + m.size]))
            && (m.MinionReadMsg? ==> |b| == 33 + m.size && b[32] == (if m.success then 1 else 0) && b[33..] == m.data)
            && (m.MinionWriteMsg? ==> |b| == 33 && b[32] == (if m.success then 1 else 0))
            && (m.NBDReadMsg? ==> |b| == 40 && FromLE(b[32..40]) == m.offset)
            && (m.NBDWriteMsg? ==> |b| == 40 + m.size && FromLE(b[32..40]) == m.offset && b[40..] == m.data)
  {
    EncodingIsAFrame(m, []);
    assert Encode(m) + [] == Encode(m);
    SplitUid(Encode(m), m.uid);
    BodyLayout(m);
    hide Encode, FromLE, XorFold, UidAt;
  }
}
