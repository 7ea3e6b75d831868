/** The inductive invariant of the protocol: what every action keeps. */
module ProtocolInvariant {
  import opened Bytes
  import opened Raid
  import opened ResponseManager
  import opened Protocol

  // ----- the parts of the invariant -----

  /** Every identifier in use was handed out once, to one request. */
  ghost predicate KeysOk(s: State) {
    && (forall k :: k in s.owner ==> IndexOf(k) < s.made && OwnerOk(s, k, s.owner[k]))
    && (forall w, side :: 0 <= w < |s.writeCmds| ==>
          var k := KeyFor(s.writeCmds[w], side); k in s.owner && s.owner[k] == OfWrite(w, side))
    && (forall r :: 0 <= r < |s.readCmds| ==>
          var k := s.readCmds[r].uid; k in s.owner && s.owner[k] == OfRead(r))
  }

  ghost predicate OwnerOk(s: State, k: Key, ow: Owner) {
    match ow
    case OfWrite(w, side) => w < |s.writeCmds| && k == KeyFor(s.writeCmds[w], side)
    case OfRead(r) => r < |s.readCmds| && k == s.readCmds[r].uid
  }

  /** The minion that `w` was sent to on this side has applied exactly that write. */
  ghost predicate Applied(s: State, w: nat, side: Side)
    requires w < |s.writeCmds|
  {
    Request(s.writeCmds[w], side) in s.executed
  }

  ghost predicate DatagramOk(s: State, p: Datagram)
    requires WellSized(s) && KeysOk(s)
  {
    p.uid in s.owner &&
    match p
    case WriteReq(_, _, _, k) =>
      s.owner[k].OfWrite? && p == Request(s.writeCmds[s.owner[k].w], s.owner[k].side) && p !in s.executed
    case WriteAck(k) =>
      s.owner[k].OfWrite? && Applied(s, s.owner[k].w, s.owner[k].side) && k !in s.registered
    case ReadReq(_, _, _, k) =>
      s.owner[k].OfRead? && p == ReadRequest(s.readCmds[s.owner[k].r]) && !s.readCmds[s.owner[k].r].answered
    case ReadAck(k, bytes) =>
      s.owner[k].OfRead? && !s.readCmds[s.owner[k].r].answered && AnswerOk(s, s.readCmds[s.owner[k].r], bytes)
  }

  /** The bytes of an answer agree with the confirmed content wherever it is determined. */
  ghost predicate AnswerOk(s: State, r: Read, bytes: seq<byte>)
    requires |s.flat| == CAPACITY
  {
    && InStripe(r.off, r.size) && |bytes| == r.size
    && (InStripeFits(r.off, r.size);
        forall o: nat :: Covers(r.off, r.size, o) && o !in s.uncertain ==> bytes[o - r.off] == s.flat[o])
  }

  ghost predicate NetOk(s: State)
    requires WellSized(s) && KeysOk(s)
  {
    && (forall p :: p in s.net ==> DatagramOk(s, p))
    && (forall p, q :: p in s.net && q in s.net && p.uid == q.uid ==> p == q)
  }

  /** Registered responses, finished polls and confirmed writes all go back to requests
      that minions have executed. */
  ghost predicate AcksOk(s: State)
    requires KeysOk(s)
  {
    && (forall p :: p in s.executed ==>
          p.WriteReq? && p.uid in s.owner && s.owner[p.uid].OfWrite?
          && p == Request(s.writeCmds[s.owner[p.uid].w], s.owner[p.uid].side))
    && (forall k :: k in s.registered ==>
          k in s.owner
          && (s.owner[k].OfWrite? ==> Applied(s, s.owner[k].w, s.owner[k].side))
          && (s.owner[k].OfRead? ==> s.readCmds[s.owner[k].r].answered))
    && (forall k :: IsDone(s.watch, k) ==> k in s.registered)
    && (forall w :: 0 <= w < |s.writeCmds| && s.writeCmds[w].outcome == Confirmed ==>
          Applied(s, w, Og) && Applied(s, w, Backup))
  }

  /** Outstanding requests do not conflict. */
  ghost predicate PairsOk(s: State) {
    && (forall r :: 0 <= r < |s.readCmds| ==> InStripe(s.readCmds[r].off, s.readCmds[r].size))
    && (forall v, w :: 0 <= v < w < |s.writeCmds| && s.writeCmds[v].outcome == Pending && s.writeCmds[w].outcome == Pending ==>
          Disjoint(s.writeCmds[v].off, |s.writeCmds[v].data|, s.writeCmds[w].off, |s.writeCmds[w].data|))
    && (forall w, r :: 0 <= w < |s.writeCmds| && 0 <= r < |s.readCmds| && s.writeCmds[w].outcome == Pending && !s.readCmds[r].answered ==>
          Disjoint(s.writeCmds[w].off, |s.writeCmds[w].data|, s.readCmds[r].off, s.readCmds[r].size))
  }

  ghost predicate PendingOn(s: State, w: int, o: nat) {
    0 <= w < |s.writeCmds| && s.writeCmds[w].outcome == Pending && Covers(s.writeCmds[w].off, |s.writeCmds[w].data|, o)
  }

  /** The copy of logical byte `o` on one side. */
  function Copy(s: State, o: nat, side: Side): byte
    requires WellSized(s) && o < CAPACITY
  {
    DeployedMap(o);
    var loc := LocFor(o, side);
    s.disks[loc.minion][loc.at]
  }

  ghost predicate CopyOk(s: State, o: nat, side: Side)
    requires WellSized(s) && o < CAPACITY
  {
    && (o !in s.uncertain && (forall w :: !PendingOn(s, w, o)) ==> Copy(s, o, side) == s.flat[o])
    && (forall w :: PendingOn(s, w, o) ==>
          && (Applied(s, w, side) && (o !in s.uncertain || s.writeCmds[w].clean) ==>
                Copy(s, o, side) == s.writeCmds[w].data[o - s.writeCmds[w].off])
          && (!Applied(s, w, side) && o !in s.uncertain ==> Copy(s, o, side) == s.flat[o]))
  }

  /** Both copies of every byte: equal to the confirmed content, or to the data of the one
      pending write on that byte once its minion applied it. */
  ghost predicate CopiesOk(s: State)
    requires WellSized(s)
  {
    forall o, side :: 0 <= o < CAPACITY ==> CopyOk(s, o, side)
  }

  /** A datagram of a write that is no longer pending can only disturb bytes that count as
      uncertain and that no clean write is pending on. */
  ghost predicate StaleOk(s: State)
    requires KeysOk(s)
  {
    forall p, o :: p in s.net && StaleOn(s, p, o) ==>
      o in s.uncertain && forall w :: PendingOn(s, w, o) ==> !s.writeCmds[w].clean
  }

  ghost predicate StaleOn(s: State, p: Datagram, o: nat) {
    && p.WriteReq? && p.uid in s.owner && s.owner[p.uid].OfWrite? && s.owner[p.uid].w < |s.writeCmds|
    && var w := s.writeCmds[s.owner[p.uid].w];
    w.outcome != Pending && Covers(w.off, |w.data|, o)
  }

  // ----- the history of replies -----

  /** The value of the last write to byte `o` reported as successful, or 0. */
  function LastConfirmed(log: seq<Reply>, o: nat): byte {
    if log == [] then 0
    else match log[|log| - 1]
      case WriteSucceeded(_, off, data) =>
        if Covers(off, |data|, o) then data[o - off] else LastConfirmed(log[..|log| - 1], o)
      case _ => LastConfirmed(log[..|log| - 1], o)
  }

  /** Some write to byte `o` was reported as given up. */
  ghost predicate EverGivenUp(log: seq<Reply>, o: nat) {
    exists k :: 0 <= k < |log| && log[k].WriteFailed? && Covers(log[k].off, log[k].size, o)
  }

  /** What a read returned, judged by the replies before it. */
  ghost predicate ReplyCorrect(before: seq<Reply>, reply: Reply) {
    reply.ReadReturned? ==>
      forall j :: 0 <= j < |reply.bytes| && !EverGivenUp(before, reply.off + j) ==>
        reply.bytes[j] == LastConfirmed(before, reply.off + j)
  }

  function About(reply: Reply): Owner {
    match reply
    case WriteSucceeded(w, _, _) => OfWrite(w, Og)
    case WriteFailed(w, _, _, _) => OfWrite(w, Og)
    case ReadReturned(r, _, _) => OfRead(r)
  }

  ghost predicate Finished(s: State, ow: Owner) {
    match ow
    case OfWrite(w, _) => w < |s.writeCmds| && s.writeCmds[w].outcome != Pending
    case OfRead(r) => r < |s.readCmds| && s.readCmds[r].answered
  }

  ghost predicate LogOk(s: State)
    requires |s.flat| == CAPACITY
  {
    && (forall o :: 0 <= o < CAPACITY ==> s.flat[o] == LastConfirmed(s.log, o))
    && (forall o :: o in s.uncertain ==> EverGivenUp(s.log, o))
    && (forall k :: 0 <= k < |s.log| ==> ReplyCorrect(s.log[..k], s.log[k]))
    && (forall k :: 0 <= k < |s.log| ==> Finished(s, About(s.log[k])))
    && (forall j, k :: 0 <= j < k < |s.log| ==> About(s.log[j]) != About(s.log[k]))
  }

  ghost predicate Inv(s: State) {
    && s.made <= WRAP && InRange(s.counters)
    && WellSized(s) && KeysOk(s) && NetOk(s) && AcksOk(s) && PairsOk(s) && CopiesOk(s) && StaleOk(s) && LogOk(s)
  }

  // ----- every action keeps the invariant -----

  lemma InitHolds()
    ensures Inv(Init())
  {
    var s := Init();
    forall o, side | 0 <= o < CAPACITY
      ensures CopyOk(s, o, side)
    {
      DeployedMap(o);
    }
  }

  /** Same requests, up to how far they have got. */
  ghost predicate SameIssued(s: State, t: State) {
    && |t.writeCmds| == |s.writeCmds| && |t.readCmds| == |s.readCmds|
    && (forall w :: 0 <= w < |s.writeCmds| ==> t.writeCmds[w] == s.writeCmds[w].(outcome := t.writeCmds[w].outcome))
    && (forall r :: 0 <= r < |s.readCmds| ==>
          t.readCmds[r] == s.readCmds[r].(answered := t.readCmds[r].answered, polled := t.readCmds[r].polled))
  }

  lemma KeysFrame(s: State, t: State)
    requires KeysOk(s) && SameIssued(s, t) && t.owner == s.owner && s.made <= t.made
    ensures KeysOk(t)
  {
    forall w, side | 0 <= w < |t.writeCmds|
      ensures KeyFor(t.writeCmds[w], side) in t.owner && t.owner[KeyFor(t.writeCmds[w], side)] == OfWrite(w, side)
    {
      assert KeyFor(t.writeCmds[w], side) == KeyFor(s.writeCmds[w], side);
    }
  }

  lemma NetFrame(s: State, t: State)
    requires WellSized(s) && KeysOk(s) && WellSized(t) && KeysOk(t) && NetOk(s)
    requires SameIssued(s, t) && t.owner == s.owner && t.net <= s.net
    requires t.executed == s.executed && t.registered == s.registered && t.flat == s.flat && t.uncertain == s.uncertain
    requires forall r :: 0 <= r < |s.readCmds| ==> t.readCmds[r].answered == s.readCmds[r].answered
    ensures NetOk(t)
  {
    forall p | p in t.net
      ensures DatagramOk(t, p)
    {
      assert DatagramOk(s, p);
    }
  }

  lemma AcksFrame(s: State, t: State)
    requires KeysOk(s) && KeysOk(t) && AcksOk(s)
    requires t.writeCmds == s.writeCmds && SameIssued(s, t) && t.owner == s.owner
    requires t.executed == s.executed && t.registered == s.registered
    requires forall k :: IsDone(t.watch, k) ==> IsDone(s.watch, k)
    requires forall r :: 0 <= r < |s.readCmds| ==> t.readCmds[r].answered == s.readCmds[r].answered
    ensures AcksOk(t)
  {
  }

  lemma PairsFrame(s: State, t: State)
    requires PairsOk(s) && t.writeCmds == s.writeCmds && SameIssued(s, t)
    requires forall r :: 0 <= r < |s.readCmds| ==> s.readCmds[r].answered ==> t.readCmds[r].answered
    ensures PairsOk(t)
  {
  }

  lemma CopiesFrame(s: State, t: State)
    requires WellSized(s) && WellSized(t) && CopiesOk(s)
    requires t.writeCmds == s.writeCmds && t.executed == s.executed
    requires t.disks == s.disks && t.flat == s.flat && t.uncertain == s.uncertain
    ensures CopiesOk(t)
  {
    forall o, side | 0 <= o < CAPACITY
      ensures CopyOk(t, o, side)
    {
      assert CopyOk(s, o, side);
      assert forall w :: PendingOn(s, w, o) == PendingOn(t, w, o);
    }
  }

  lemma StaleFrame(s: State, t: State)
    requires KeysOk(s) && KeysOk(t) && StaleOk(s)
    requires t.writeCmds == s.writeCmds && t.owner == s.owner && t.uncertain == s.uncertain
    requires forall p :: p in t.net && p.WriteReq? ==> p in s.net
    ensures StaleOk(t)
  {
    forall p, o | p in t.net && StaleOn(t, p, o)
      ensures o in t.uncertain && forall w :: PendingOn(t, w, o) ==> !t.writeCmds[w].clean
    {
      assert StaleOn(s, p, o);
      assert forall w :: PendingOn(t, w, o) ==> PendingOn(s, w, o);
    }
  }

  lemma LogFrame(s: State, t: State)
    requires |s.flat| == CAPACITY && LogOk(s)
    requires t.log == s.log && t.flat == s.flat && t.uncertain == s.uncertain
    requires forall ow :: Finished(s, ow) ==> Finished(t, ow)
    ensures LogOk(t)
  {
  }

  lemma LoseKeeps(s: State, p: Datagram)
    requires Inv(s) && p in s.net
    ensures Inv(Apply(s, Lose(p)))
  {
    hide LocFor, KeysOk, NetOk, AcksOk, PairsOk, CopiesOk, StaleOk, LogOk;
    var t := Apply(s, Lose(p));
    KeysFrame(s, t);
    NetFrame(s, t);
    AcksFrame(s, t);
    PairsFrame(s, t);
    CopiesFrame(s, t);
    StaleFrame(s, t);
    LogFrame(s, t);
  }

  lemma OtherUidKeeps(s: State)
    requires Inv(s) && Enabled(s, OtherUid)
    ensures Inv(Apply(s, OtherUid))
  {
    hide LocFor, KeysOk, NetOk, AcksOk, PairsOk, CopiesOk, StaleOk, LogOk;
    var t := Apply(s, OtherUid);
    KeysFrame(s, t);
    NetFrame(s, t);
    AcksFrame(s, t);
    PairsFrame(s, t);
    CopiesFrame(s, t);
    StaleFrame(s, t);
    LogFrame(s, t);
  }

  lemma PollReadKeeps(s: State, r: nat)
    requires Inv(s) && Enabled(s, PollRead(r))
    ensures Inv(Apply(s, PollRead(r)))
  {
    hide LocFor, KeysOk, NetOk, AcksOk, PairsOk, CopiesOk, StaleOk, LogOk;
    var t := Apply(s, PollRead(r));
    KeysFrame(s, t);
    NetFrame(s, t);
    AcksFrame(s, t);
    PairsFrame(s, t);
    CopiesFrame(s, t);
    StaleFrame(s, t);
    LogFrame(s, t);
  }

  lemma IssueReadKeeps(s: State, off: nat, size: nat)
    requires Inv(s) && Enabled(s, IssueRead(off, size))
    ensures Inv(Apply(s, IssueRead(off, size)))
  {
    hide LocFor, Request, KeysOk, NetOk, AcksOk, CopiesOk, StaleOk, LogOk;
    var t := Apply(s, IssueRead(off, size));
    KeysRepeatEvery32Bits(s.made, s.made);
    FreshKey(s, s.made);
    IssueReadFits(s, off, size);
    IssueReadKeys(s, off, size);
    IssueReadNet(s, off, size);
    NewRequestsKeepAcks(s, t);
    assert PairsOk(t);
    CopiesFrame(s, t);
    IssueReadStale(s, off, size);
    LogFrame(s, t);
  }

  lemma IssueReadFits(s: State, off: nat, size: nat)
    requires WellSized(s) && Enabled(s, IssueRead(off, size))
    ensures WellSized(ApplyIssueRead(s, off, size))
  {
  }

  lemma FreshKey(s: State, n: nat)
    requires KeysOk(s) && s.made <= n < WRAP
    ensures KeyOf(n) !in s.owner
  {
  }

  lemma IssueReadKeys(s: State, off: nat, size: nat)
    requires KeysOk(s) && KeyOf(s.made) !in s.owner && IndexOf(KeyOf(s.made)) == s.made
    ensures KeysOk(ApplyIssueRead(s, off, size))
  {
  }

  /** Datagrams of old requests are not affected by new requests; datagrams with new keys
      cannot be confused with them. */
  lemma NewDatagramsKeepNet(s: State, t: State)
    requires WellSized(s) && KeysOk(s) && WellSized(t) && KeysOk(t) && NetOk(s)
    requires t.executed == s.executed && t.registered == s.registered && t.flat == s.flat && t.uncertain == s.uncertain
    requires s.writeCmds <= t.writeCmds && s.readCmds <= t.readCmds
    requires forall k :: k in s.owner ==> k in t.owner && t.owner[k] == s.owner[k]
    requires forall p :: p in t.net && p !in s.net ==> p.uid !in s.owner && DatagramOk(t, p)
    requires forall p, q :: p in t.net && q in t.net && p !in s.net && q !in s.net && p.uid == q.uid ==> p == q
    ensures NetOk(t)
  {
    hide LocFor;
    forall p | p in t.net
      ensures DatagramOk(t, p) && (p in s.net ==> p.uid in s.owner)
    {
      if p in s.net {
        assert DatagramOk(s, p);
      }
    }
  }

  lemma IssueReadNet(s: State, off: nat, size: nat)
    requires WellSized(s) && KeysOk(s) && NetOk(s) && Enabled(s, IssueRead(off, size))
    requires KeyOf(s.made) !in s.owner
    requires var t := ApplyIssueRead(s, off, size); WellSized(t) && KeysOk(t)
    ensures NetOk(ApplyIssueRead(s, off, size))
  {
    hide LocFor, KeyOf, NetOk;
    NewDatagramsKeepNet(s, ApplyIssueRead(s, off, size));
  }

  /** New pending requests with fresh keys leave the responses of the old ones as they are. */
  lemma NewRequestsKeepAcks(s: State, t: State)
    requires KeysOk(s) && KeysOk(t) && AcksOk(s)
    requires s.writeCmds <= t.writeCmds && s.readCmds <= t.readCmds
    requires forall k :: k in s.owner ==> k in t.owner && t.owner[k] == s.owner[k]
    requires forall w :: |s.writeCmds| <= w < |t.writeCmds| ==> t.writeCmds[w].outcome == Pending
    requires t.executed == s.executed && t.registered == s.registered
    requires forall k :: IsDone(t.watch, k) ==> IsDone(s.watch, k)
    ensures AcksOk(t)
  {
    hide Request;
    forall k | k in t.registered
      ensures k in t.owner
      ensures t.owner[k].OfWrite? ==> Applied(t, t.owner[k].w, t.owner[k].side)
      ensures t.owner[k].OfRead? ==> t.readCmds[t.owner[k].r].answered
    {
      assert OwnerOk(s, k, s.owner[k]);
    }
    forall p | p in t.executed
      ensures p.WriteReq? && p.uid in t.owner && t.owner[p.uid].OfWrite?
      ensures p == Request(t.writeCmds[t.owner[p.uid].w], t.owner[p.uid].side)
    {
      assert OwnerOk(s, p.uid, s.owner[p.uid]);
    }
  }

  lemma IssueReadStale(s: State, off: nat, size: nat)
    requires WellSized(s) && KeysOk(s) && StaleOk(s) && KeyOf(s.made) !in s.owner
    requires KeysOk(ApplyIssueRead(s, off, size)) && NetOk(s)
    ensures StaleOk(ApplyIssueRead(s, off, size))
  {
    var t := ApplyIssueRead(s, off, size);
    forall p, o | p in t.net && StaleOn(t, p, o)
      ensures o in t.uncertain && forall w :: PendingOn(t, w, o) ==> !t.writeCmds[w].clean
    {
      assert DatagramOk(s, p);
      assert StaleOn(s, p, o);
      assert forall w :: PendingOn(t, w, o) ==> PendingOn(s, w, o);
    }
  }

  // -- a write is issued --

  lemma IssueWriteKeeps(s: State, off: nat, data: seq<byte>)
    requires Inv(s) && Enabled(s, IssueWrite(off, data))
    ensures Inv(Apply(s, IssueWrite(off, data)))
  {
    hide LocFor, Request, NothingInFlightOn, KeysOk, NetOk, AcksOk, PairsOk, CopiesOk, StaleOk, LogOk;
    var t := ApplyIssueWrite(s, off, data);
    KeysRepeatEvery32Bits(s.made, s.made + 1);
    KeysRepeatEvery32Bits(s.made + 1, s.made);
    FreshKey(s, s.made);
    FreshKey(s, s.made + 1);
    IssueWriteFits(s, off, data);
    IssueWriteKeys(s, off, data);
    IssueWriteNet(s, off, data);
    NewRequestsKeepAcks(s, t);
    IssueWritePairs(s, off, data);
    IssueWriteCopies(s, off, data);
    IssueWriteStale(s, off, data);
    LogFrame(s, t);
  }

  lemma IssueWriteFits(s: State, off: nat, data: seq<byte>)
    requires WellSized(s) && Enabled(s, IssueWrite(off, data))
    ensures WellSized(ApplyIssueWrite(s, off, data))
  {
  }

  lemma IssueWriteKeys(s: State, off: nat, data: seq<byte>)
    requires KeysOk(s) && KeyOf(s.made) !in s.owner && KeyOf(s.made + 1) !in s.owner && KeyOf(s.made) != KeyOf(s.made + 1)
    requires IndexOf(KeyOf(s.made)) == s.made && IndexOf(KeyOf(s.made + 1)) == s.made + 1
    ensures KeysOk(ApplyIssueWrite(s, off, data))
  {
    hide LocFor, KeyOf, IndexOf, Request, NothingInFlightOn;
    var t := ApplyIssueWrite(s, off, data);
    forall w, side | 0 <= w < |t.writeCmds|
      ensures KeyFor(t.writeCmds[w], side) in t.owner && t.owner[KeyFor(t.writeCmds[w], side)] == OfWrite(w, side)
    {
      if w < |s.writeCmds| {
        assert KeyFor(s.writeCmds[w], side) in s.owner;
      }
    }
  }

  lemma IssueWriteNet(s: State, off: nat, data: seq<byte>)
    requires WellSized(s) && KeysOk(s) && NetOk(s) && AcksOk(s)
    requires KeyOf(s.made) !in s.owner && KeyOf(s.made + 1) !in s.owner && KeyOf(s.made) != KeyOf(s.made + 1)
    requires var t := ApplyIssueWrite(s, off, data); WellSized(t) && KeysOk(t)
    ensures NetOk(ApplyIssueWrite(s, off, data))
  {
    hide LocFor, KeyOf, NothingInFlightOn, NetOk, AcksOk;
    var t := ApplyIssueWrite(s, off, data);
    var n := |s.writeCmds|;
    assert t.writeCmds[n].og == KeyOf(s.made) && t.writeCmds[n].backup == KeyOf(s.made + 1);
    NewRequestOk(s, t, Og);
    NewRequestOk(s, t, Backup);
    NewDatagramsKeepNet(s, t);
  }

  lemma NewRequestOk(s: State, t: State, side: Side)
    requires WellSized(t) && KeysOk(t) && KeysOk(s) && AcksOk(s) && t.executed == s.executed
    requires |t.writeCmds| > 0 && KeyFor(t.writeCmds[|t.writeCmds| - 1], side) !in s.owner
    ensures DatagramOk(t, Request(t.writeCmds[|t.writeCmds| - 1], side))
  {
    hide LocFor;
  }

  lemma IssueWritePairs(s: State, off: nat, data: seq<byte>)
    requires PairsOk(s) && NoConflict(s, off, |data|, true)
    ensures PairsOk(ApplyIssueWrite(s, off, data))
  {
  }

  lemma IssueWriteCopies(s: State, off: nat, data: seq<byte>)
    requires WellSized(s) && KeysOk(s) && AcksOk(s) && CopiesOk(s)
    requires KeyOf(s.made) !in s.owner && KeyOf(s.made + 1) !in s.owner && NoConflict(s, off, |data|, true)
    requires WellSized(ApplyIssueWrite(s, off, data))
    ensures CopiesOk(ApplyIssueWrite(s, off, data))
  {
    hide LocFor, KeyOf, NothingInFlightOn;
    var t := ApplyIssueWrite(s, off, data);
    var n := |s.writeCmds|;
    assert forall side :: !Applied(t, n, side);
    forall o, side | 0 <= o < CAPACITY
      ensures CopyOk(t, o, side)
    {
      assert CopyOk(s, o, side);
      assert forall w :: w != n ==> PendingOn(s, w, o) == PendingOn(t, w, o);
      assert !PendingOn(s, n, o);
    }
  }

  lemma IssueWriteStale(s: State, off: nat, data: seq<byte>)
    requires WellSized(s) && KeysOk(s) && NetOk(s) && StaleOk(s)
    requires KeyOf(s.made) !in s.owner && KeyOf(s.made + 1) !in s.owner && KeyOf(s.made) != KeyOf(s.made + 1)
    requires KeysOk(ApplyIssueWrite(s, off, data))
    ensures StaleOk(ApplyIssueWrite(s, off, data))
  {
    hide LocFor, KeyOf;
    var t := ApplyIssueWrite(s, off, data);
    var n := |s.writeCmds|;
    forall p, o | p in t.net && StaleOn(t, p, o)
      ensures o in t.uncertain && forall w :: PendingOn(t, w, o) ==> !t.writeCmds[w].clean
    {
      assert p in s.net && DatagramOk(s, p);
      assert StaleOn(s, p, o);
      assert forall w :: w != n && PendingOn(t, w, o) ==> PendingOn(s, w, o);
      if PendingOn(t, n, o) {
        assert IsWriteReqOn(s.writeCmds, s.owner, p, off, |data|);
      }
    }
  }

  // -- a minion executes a request --

  lemma ExecuteWriteKeeps(s: State, p: Datagram)
    requires Inv(s) && p in s.net && p.WriteReq?
    ensures Inv(Apply(s, Execute(p)))
  {
    hide LocFor, KeysOk, AcksOk, PairsOk, CopiesOk, StaleOk, LogOk;
    var t := Apply(s, Execute(p));
    assert DatagramOk(s, p);
    assert WellSized(t);
    KeysFrame(s, t);
    ExecuteWriteNet(s, p);
    ExecuteWriteAcks(s, p);
    PairsFrame(s, t);
    ExecuteWriteCopies(s, p);
    StaleFrame(s, t);
    LogFrame(s, t);
  }

  lemma ExecuteWriteNet(s: State, p: Datagram)
    requires WellSized(s) && KeysOk(s) && NetOk(s) && AcksOk(s) && p in s.net && p.WriteReq?
    requires var t := ApplyExecute(s, p); WellSized(t) && KeysOk(t)
    ensures NetOk(ApplyExecute(s, p))
  {
    hide LocFor;
    var t := ApplyExecute(s, p);
    assert DatagramOk(s, p);
    forall q | q in t.net
      ensures DatagramOk(t, q)
    {
      if q in s.net {
        assert DatagramOk(s, q);
      }
    }
  }

  lemma ExecuteWriteAcks(s: State, p: Datagram)
    requires WellSized(s) && KeysOk(s) && NetOk(s) && AcksOk(s) && p in s.net && p.WriteReq?
    requires KeysOk(ApplyExecute(s, p))
    ensures AcksOk(ApplyExecute(s, p))
  {
    hide LocFor;
    assert DatagramOk(s, p);
    assert forall w, side :: 0 <= w < |s.writeCmds| && Applied(s, w, side) ==> Applied(ApplyExecute(s, p), w, side);
  }

  /** Executing a request changes one side of the bytes its write covers, and nothing else. */
  lemma ExecuteWriteBytes(s: State, p: Datagram, o: nat, side: Side)
    requires WellSized(s) && KeysOk(s) && p in s.net && p.WriteReq? && DatagramOk(s, p) && o < CAPACITY
    requires WellSized(ApplyExecute(s, p))
    ensures var ow := s.owner[p.uid];
            var x := s.writeCmds[ow.w];
            Copy(ApplyExecute(s, p), o, side)
            == if side == ow.side && Covers(x.off, |x.data|, o) then x.data[o - x.off] else Copy(s, o, side)
  {
    var x := s.writeCmds[s.owner[p.uid].w];
    RequestHits(x.off, |x.data|, o);
  }

  /** Executing a write request makes exactly that write applied on that side. */
  lemma ExecuteApplies(s: State, p: Datagram, side: Side)
    requires WellSized(s) && KeysOk(s) && p in s.net && p.WriteReq? && DatagramOk(s, p)
    ensures var t, ow := ApplyExecute(s, p), s.owner[p.uid];
            forall w :: 0 <= w < |s.writeCmds| ==>
              Applied(t, w, side) == (Applied(s, w, side) || (w == ow.w && side == ow.side))
  {
    hide LocFor;
    var t, ow := ApplyExecute(s, p), s.owner[p.uid];
    forall w | 0 <= w < |s.writeCmds|
      ensures Applied(t, w, side) == (Applied(s, w, side) || (w == ow.w && side == ow.side))
    {
      assert Request(s.writeCmds[w], side) == p ==> s.owner[p.uid] == OfWrite(w, side);
    }
  }

  lemma ExecuteWriteCopies(s: State, p: Datagram)
    requires WellSized(s) && KeysOk(s) && NetOk(s) && PairsOk(s) && CopiesOk(s) && StaleOk(s) && p in s.net && p.WriteReq?
    requires WellSized(ApplyExecute(s, p))
    ensures CopiesOk(ApplyExecute(s, p))
  {
    assert DatagramOk(s, p);
    forall o, side | 0 <= o < CAPACITY
      ensures CopyOk(ApplyExecute(s, p), o, side)
    {
      ExecuteWriteBytes(s, p, o, side);
      ExecuteWriteCopy(s, p, o, side);
    }
  }

  lemma ExecuteWriteCopy(s: State, p: Datagram, o: nat, side: Side)
    requires WellSized(s) && KeysOk(s) && PairsOk(s) && StaleOk(s) && p in s.net && p.WriteReq? && DatagramOk(s, p)
    requires o < CAPACITY && CopyOk(s, o, side) && WellSized(ApplyExecute(s, p))
    requires var ow := s.owner[p.uid];
             var x := s.writeCmds[ow.w];
             Copy(ApplyExecute(s, p), o, side)
             == if side == ow.side && Covers(x.off, |x.data|, o) then x.data[o - x.off] else Copy(s, o, side)
    ensures CopyOk(ApplyExecute(s, p), o, side)
  {
    ExecuteApplies(s, p, side);
    var t, ow := ApplyExecute(s, p), s.owner[p.uid];
    assert t.flat == s.flat && t.uncertain == s.uncertain && t.writeCmds == s.writeCmds;
    assert forall w :: PendingOn(t, w, o) == PendingOn(s, w, o);
    hide LocFor, Copy, Request, Applied, ApplyExecute, Splice, WellSized;
    if side == ow.side && Covers(s.writeCmds[ow.w].off, |s.writeCmds[ow.w].data|, o) {
      if s.writeCmds[ow.w].outcome == Pending {
        assert PendingOn(s, ow.w, o);
        assert forall w :: PendingOn(s, w, o) ==> w == ow.w;
        hide KeysOk, PairsOk, StaleOk, DatagramOk;
        ExecutedCopy(s, t, ow.w, o, side);
      } else {
        assert StaleOn(s, p, o);
        hide KeysOk, PairsOk, DatagramOk, StaleOn;
        StaleCopy(s, t, o, side);
      }
    } else {
      hide KeysOk, PairsOk, StaleOk, DatagramOk;
      UntouchedCopy(s, t, ow.w, ow.side, o, side);
    }
  }

  /** The one pending write on the byte has been applied on this side. */
  lemma ExecutedCopy(s: State, t: State, w: nat, o: nat, side: Side)
    requires WellSized(t) && o < CAPACITY && t.writeCmds == s.writeCmds && PendingOn(t, w, o)
    requires forall v :: PendingOn(t, v, o) ==> v == w
    requires Applied(t, w, side) && Copy(t, o, side) == t.writeCmds[w].data[o - t.writeCmds[w].off]
    ensures CopyOk(t, o, side)
  {
    hide Copy, Applied, WellSized;
  }

  /** A datagram of an abandoned write has changed a byte that counts as uncertain. */
  lemma StaleCopy(s: State, t: State, o: nat, side: Side)
    requires WellSized(t) && o < CAPACITY && t.writeCmds == s.writeCmds && t.uncertain == s.uncertain
    requires o in s.uncertain && forall w :: PendingOn(t, w, o) ==> !t.writeCmds[w].clean
    ensures CopyOk(t, o, side)
  {
    hide Copy, Applied, WellSized;
  }

  /** The datagram did not touch this copy of the byte. */
  lemma UntouchedCopy(s: State, t: State, w: nat, on: Side, o: nat, side: Side)
    requires WellSized(s) && WellSized(t) && o < CAPACITY && CopyOk(s, o, side)
    requires t.writeCmds == s.writeCmds && t.uncertain == s.uncertain && t.flat == s.flat && w < |s.writeCmds|
    requires Copy(t, o, side) == Copy(s, o, side)
    requires side != on || !Covers(s.writeCmds[w].off, |s.writeCmds[w].data|, o)
    requires forall v :: 0 <= v < |s.writeCmds| ==> Applied(t, v, side) == (Applied(s, v, side) || (v == w && side == on))
    ensures CopyOk(t, o, side)
  {
    hide Copy, Applied, WellSized;
    assert forall v :: PendingOn(t, v, o) == PendingOn(s, v, o);
    assert forall v :: PendingOn(t, v, o) ==> Applied(t, v, side) == Applied(s, v, side);
  }

  lemma ExecuteReadKeeps(s: State, p: Datagram)
    requires Inv(s) && p in s.net && p.ReadReq?
    ensures Inv(Apply(s, Execute(p)))
  {
    hide LocFor, KeysOk, AcksOk, PairsOk, CopiesOk, StaleOk, LogOk;
    var t := Apply(s, Execute(p));
    assert DatagramOk(s, p);
    assert WellSized(t);
    KeysFrame(s, t);
    ExecuteReadAnswer(s, p);
    ExecuteReadNet(s, p);
    AcksFrame(s, t);
    PairsFrame(s, t);
    CopiesFrame(s, t);
    StaleFrame(s, t);
    LogFrame(s, t);
  }

  lemma ExecuteReadAnswer(s: State, p: Datagram)
    requires WellSized(s) && KeysOk(s) && NetOk(s) && PairsOk(s) && CopiesOk(s) && p in s.net && p.ReadReq?
    ensures p.uid in s.owner && s.owner[p.uid].OfRead? && s.owner[p.uid].r < |s.readCmds|
    ensures AnswerOk(s, s.readCmds[s.owner[p.uid].r], s.disks[p.to][p.at..p.at + p.size])
  {
    assert DatagramOk(s, p);
    var r := s.owner[p.uid].r;
    var x := s.readCmds[r];
    var bytes := s.disks[p.to][p.at..p.at + p.size];
    InStripeFits(x.off, x.size);
    forall o: nat | Covers(x.off, x.size, o) && o !in s.uncertain
      ensures bytes[o - x.off] == s.flat[o]
    {
      RequestHits(x.off, x.size, o);
      assert bytes[o - x.off] == Copy(s, o, Og);
      assert CopyOk(s, o, Og);
      assert forall w :: !PendingOn(s, w, o);
    }
  }

  lemma ExecuteReadNet(s: State, p: Datagram)
    requires WellSized(s) && KeysOk(s) && NetOk(s) && p in s.net && p.ReadReq?
    requires p.uid in s.owner && s.owner[p.uid].OfRead? && s.owner[p.uid].r < |s.readCmds|
    requires AnswerOk(s, s.readCmds[s.owner[p.uid].r], s.disks[p.to][p.at..p.at + p.size])
    requires var t := ApplyExecute(s, p); WellSized(t) && KeysOk(t)
    ensures NetOk(ApplyExecute(s, p))
  {
    hide LocFor;
    var t := ApplyExecute(s, p);
    assert DatagramOk(s, p);
    forall q | q in t.net
      ensures DatagramOk(t, q)
    {
      if q in s.net {
        assert DatagramOk(s, q);
      }
    }
  }

  // -- the master receives an answer --

  lemma ReceiveWriteKeeps(s: State, p: Datagram)
    requires Inv(s) && p in s.net && p.WriteAck?
    ensures Inv(Apply(s, Receive(p)))
  {
    hide LocFor, AcksOk, PairsOk, CopiesOk, StaleOk, LogOk;
    var t := Apply(s, Receive(p));
    assert DatagramOk(s, p);
    KeysFrame(s, t);
    ReceiveNet(s, p);
    ReceiveAcks(s, p);
    PairsFrame(s, t);
    CopiesFrame(s, t);
    StaleFrame(s, t);
    LogFrame(s, t);
  }

  lemma ReceiveReadKeeps(s: State, p: Datagram)
    requires Inv(s) && p in s.net && p.ReadAck?
    ensures Inv(Apply(s, Receive(p)))
  {
    hide LocFor, AcksOk, PairsOk, CopiesOk, StaleOk, LogOk;
    var t := Apply(s, Receive(p));
    assert DatagramOk(s, p);
    KeysFrame(s, t);
    ReceiveNet(s, p);
    ReceiveAcks(s, p);
    PairsFrame(s, t);
    CopiesFrame(s, t);
    StaleFrame(s, t);
    ReceiveReadLog(s, p);
  }

  lemma ReceiveNet(s: State, p: Datagram)
    requires WellSized(s) && KeysOk(s) && NetOk(s) && p in s.net && (p.WriteAck? || p.ReadAck?)
    requires var t := ApplyReceive(s, p); WellSized(t) && KeysOk(t)
    ensures NetOk(ApplyReceive(s, p))
  {
    hide LocFor;
    var t := ApplyReceive(s, p);
    assert DatagramOk(s, p);
    forall q | q in t.net
      ensures DatagramOk(t, q)
    {
      assert DatagramOk(s, q);
      assert q.uid != p.uid;
    }
  }

  lemma ReceiveAcks(s: State, p: Datagram)
    requires WellSized(s) && KeysOk(s) && NetOk(s) && AcksOk(s) && p in s.net && (p.WriteAck? || p.ReadAck?)
    requires KeysOk(ApplyReceive(s, p))
    ensures AcksOk(ApplyReceive(s, p))
  {
    hide LocFor, Request, KeyFor, CopiesOk, InStripe;
    var t := ApplyReceive(s, p);
    assert DatagramOk(s, p);
    assert t.writeCmds == s.writeCmds && t.owner == s.owner && t.executed == s.executed;
    forall k | k in t.registered
      ensures k in t.owner
      ensures t.owner[k].OfWrite? ==> Applied(t, t.owner[k].w, t.owner[k].side)
      ensures t.owner[k].OfRead? ==> t.readCmds[t.owner[k].r].answered
    {
      assert k == p.uid || k in s.registered;
    }
  }

  lemma ReceiveReadLog(s: State, p: Datagram)
    requires WellSized(s) && KeysOk(s) && NetOk(s) && LogOk(s) && PairsOk(s) && p in s.net && p.ReadAck?
    ensures LogOk(ApplyReceive(s, p))
  {
    assert DatagramOk(s, p);
    AnswerIsCorrect(s, p);
    hide LocFor, LastConfirmed, ReplyCorrect, LogOk, AnswerOk, PairsOk;
    var r := s.owner[p.uid].r;
    LogGrows(s, ApplyReceive(s, p), ReadReturned(r, s.readCmds[r].off, p.bytes));
  }

  lemma AnswerIsCorrect(s: State, p: Datagram)
    requires WellSized(s) && KeysOk(s) && LogOk(s) && p.ReadAck? && DatagramOk(s, p)
    ensures var r := s.owner[p.uid].r; ReplyCorrect(s.log, ReadReturned(r, s.readCmds[r].off, p.bytes))
  {
    var r := s.owner[p.uid].r;
    hide KeysOk, LogOk, WellSized, ReplyCorrect, InStripe;
    CertainBytesAreConfirmed(s, s.readCmds[r], p.bytes, r);
  }

  lemma CertainBytesAreConfirmed(s: State, x: Read, bytes: seq<byte>, r: nat)
    requires |s.flat| == CAPACITY && LogOk(s) && AnswerOk(s, x, bytes)
    ensures ReplyCorrect(s.log, ReadReturned(r, x.off, bytes))
  {
    InStripeFits(x.off, x.size);
    hide LastConfirmed, EverGivenUp, InStripe, Finished, About;
    forall j | 0 <= j < |bytes| && !EverGivenUp(s.log, x.off + j)
      ensures bytes[j] == LastConfirmed(s.log, x.off + j)
    {
      assert Covers(x.off, x.size, x.off + j);
      assert x.off + j !in s.uncertain;
    }
  }

  lemma GivenUpGrows(log: seq<Reply>, reply: Reply, o: nat)
    ensures EverGivenUp(log, o) ==> EverGivenUp(log + [reply], o)
    ensures reply.WriteFailed? && Covers(reply.off, reply.size, o) ==> EverGivenUp(log + [reply], o)
  {
    var after := log + [reply];
    assert after[|log|] == reply;
    if EverGivenUp(log, o) {
      var k :| 0 <= k < |log| && log[k].WriteFailed? && Covers(log[k].off, log[k].size, o);
      assert after[k] == log[k];
    }
  }

  lemma RepliesStayCorrect(log: seq<Reply>, reply: Reply)
    requires forall k :: 0 <= k < |log| ==> ReplyCorrect(log[..k], log[k])
    requires ReplyCorrect(log, reply)
    ensures var after := log + [reply]; forall k :: 0 <= k < |after| ==> ReplyCorrect(after[..k], after[k])
  {
    hide ReplyCorrect;
    var after := log + [reply];
    forall k | 0 <= k < |after|
      ensures ReplyCorrect(after[..k], after[k])
    {
      assert after[..k] == log[..k];
    }
    assert log[..|log|] == log;
  }

  lemma LastConfirmedGrows(log: seq<Reply>, reply: Reply, o: nat)
    ensures LastConfirmed(log + [reply], o)
            == if reply.WriteSucceeded? && Covers(reply.off, |reply.data|, o) then reply.data[o - reply.off] else LastConfirmed(log, o)
  {
    assert (log + [reply])[..|log|] == log;
  }

  /** Appending one correct reply about a request that had none. */
  lemma LogGrows(s: State, t: State, reply: Reply)
    requires |s.flat| == CAPACITY && LogOk(s) && |t.flat| == CAPACITY
    requires t.log == s.log + [reply] && ReplyCorrect(s.log, reply)
    requires !Finished(s, About(reply)) && Finished(t, About(reply))
    requires forall ow :: Finished(s, ow) ==> Finished(t, ow)
    requires forall o :: 0 <= o < CAPACITY ==>
               t.flat[o] == if reply.WriteSucceeded? && Covers(reply.off, |reply.data|, o) then reply.data[o - reply.off] else s.flat[o]
    requires forall o :: o in t.uncertain ==> o in s.uncertain || (reply.WriteFailed? && Covers(reply.off, reply.size, o))
    ensures LogOk(t)
  {
    RepliesStayCorrect(s.log, reply);
    hide ReplyCorrect, LastConfirmed, EverGivenUp, Finished, About;
    forall o | o in t.uncertain
      ensures EverGivenUp(t.log, o)
    {
      GivenUpGrows(s.log, reply, o);
    }
    forall o | 0 <= o < CAPACITY
      ensures t.flat[o] == LastConfirmed(t.log, o)
    {
      LastConfirmedGrows(s.log, reply, o);
    }
  }

  // -- a poll of a write --

  lemma PollWriteKeeps(s: State, w: nat)
    requires Inv(s) && Enabled(s, PollWrite(w))
    ensures Inv(Apply(s, PollWrite(w)))
  {
    InStripeFits(s.writeCmds[w].off, |s.writeCmds[w].data|);
    var t := AfterAsking(s, w);
    AskingKeeps(s, w);
    match VerdictOf(s, w)
    case Again =>
    case Success => ConfirmKeeps(t, w);
    case v => AbandonKeeps(t, w, v);
  }

  /** A poll that reports success found both responses, so both minions applied the write. */
  lemma AskingKeeps(s: State, w: nat)
    requires Inv(s) && Enabled(s, PollWrite(w))
    ensures Inv(AfterAsking(s, w))
    ensures VerdictOf(s, w) == Success ==> Applied(s, w, Og) && Applied(s, w, Backup)
  {
    hide LocFor, KeysOk, NetOk, AcksOk, PairsOk, CopiesOk, StaleOk, LogOk;
    var t := AfterAsking(s, w);
    KeysFrame(s, t);
    NetFrame(s, t);
    PollLowersMeasure(s.watch, s.counters, s.writeCmds[w].og, s.writeCmds[w].backup, 1);
    AcksFrame(s, t);
    PairsFrame(s, t);
    CopiesFrame(s, t);
    StaleFrame(s, t);
    LogFrame(s, t);
    SuccessIsSound(s, w);
  }

  lemma SuccessIsSound(s: State, w: nat)
    requires KeysOk(s) && AcksOk(s) && w < |s.writeCmds|
    ensures VerdictOf(s, w) == Success ==> Applied(s, w, Og) && Applied(s, w, Backup)
  {
    hide LocFor;
    var x := s.writeCmds[w];
    assert s.owner[KeyFor(x, Og)] == OfWrite(w, Og) && s.owner[KeyFor(x, Backup)] == OfWrite(w, Backup);
  }

  lemma ConfirmKeeps(s: State, w: nat)
    requires Inv(s) && Enabled(s, PollWrite(w)) && FitsDevice(s, w)
    requires Applied(s, w, Og) && Applied(s, w, Backup)
    ensures Inv(Confirm(s, w))
  {
    hide LocFor, NetOk, AcksOk, PairsOk, StaleOk, CopyOk, LogOk;
    var t := Confirm(s, w);
    KeysFrame(s, t);
    DecidedNet(s, t, w);
    DecidedAcks(s, t, w);
    DecidedPairs(s, t, w);
    forall o, side | 0 <= o < CAPACITY
      ensures CopyOk(t, o, side)
    {
      ConfirmCopy(s, w, o, side);
    }
    ConfirmStale(s, w);
    ConfirmLog(s, w);
  }

  lemma ConfirmLog(s: State, w: nat)
    requires WellSized(s) && LogOk(s) && Enabled(s, PollWrite(w)) && FitsDevice(s, w)
    ensures LogOk(Confirm(s, w))
  {
    hide LogOk, LastConfirmed;
    var t := Confirm(s, w);
    assert forall ow :: Finished(s, ow) ==> Finished(t, ow);
    LogGrows(s, t, t.log[|s.log|]);
  }

  lemma AbandonKeeps(s: State, w: nat, verdict: Verdict)
    requires Inv(s) && Enabled(s, PollWrite(w)) && FitsDevice(s, w)
    ensures Inv(Abandon(s, w, verdict))
  {
    hide LocFor, NetOk, AcksOk, PairsOk, StaleOk, CopyOk, LogOk;
    var t := Abandon(s, w, verdict);
    KeysFrame(s, t);
    DecidedNet(s, t, w);
    DecidedAcks(s, t, w);
    DecidedPairs(s, t, w);
    forall o, side | 0 <= o < CAPACITY
      ensures CopyOk(t, o, side)
    {
      AbandonCopy(s, w, verdict, o, side);
    }
    AbandonStale(s, w, verdict);
    AbandonLog(s, w, verdict);
  }

  lemma AbandonLog(s: State, w: nat, verdict: Verdict)
    requires WellSized(s) && LogOk(s) && Enabled(s, PollWrite(w)) && FitsDevice(s, w)
    ensures LogOk(Abandon(s, w, verdict))
  {
    hide LogOk, LastConfirmed;
    var t := Abandon(s, w, verdict);
    assert forall ow :: Finished(s, ow) ==> Finished(t, ow);
    LogGrows(s, t, t.log[|s.log|]);
  }

  /** Write `w` is decided one way or the other; its bytes are all that may change. */
  ghost predicate Decided(s: State, t: State, w: nat) {
    && w < |s.writeCmds| && s.writeCmds[w].outcome == Pending && s.writeCmds[w].off + |s.writeCmds[w].data| <= CAPACITY
    && |t.writeCmds| == |s.writeCmds| && t.writeCmds[w].outcome != Pending
    && t.writeCmds == s.writeCmds[w := s.writeCmds[w].(outcome := t.writeCmds[w].outcome)]
    && t.readCmds == s.readCmds && t.owner == s.owner && t.net == s.net && t.watch == s.watch && t.counters == s.counters
    && t.executed == s.executed && t.registered == s.registered && t.disks == s.disks
    && |s.flat| == |t.flat| == CAPACITY
    && (forall o :: 0 <= o < CAPACITY && !Covers(s.writeCmds[w].off, |s.writeCmds[w].data|, o) ==>
          t.flat[o] == s.flat[o] && (o in t.uncertain <==> o in s.uncertain))
  }

  lemma DecidedNet(s: State, t: State, w: nat)
    requires WellSized(s) && KeysOk(s) && NetOk(s) && PairsOk(s) && WellSized(t) && KeysOk(t) && Decided(s, t, w)
    ensures NetOk(t)
  {
    hide LocFor;
    forall q | q in t.net
      ensures DatagramOk(t, q)
    {
      assert DatagramOk(s, q);
      if q.ReadAck? {
        DecidedAnswer(s, t, w, s.owner[q.uid].r, q.bytes);
      }
    }
  }

  lemma DecidedAnswer(s: State, t: State, w: nat, r: nat, bytes: seq<byte>)
    requires PairsOk(s) && Decided(s, t, w) && r < |s.readCmds| && !s.readCmds[r].answered
    requires AnswerOk(s, s.readCmds[r], bytes)
    ensures AnswerOk(t, s.readCmds[r], bytes)
  {
  }

  lemma DecidedAcks(s: State, t: State, w: nat)
    requires KeysOk(s) && AcksOk(s) && KeysOk(t) && Decided(s, t, w)
    requires t.writeCmds[w].outcome == Confirmed ==> Applied(s, w, Og) && Applied(s, w, Backup)
    ensures AcksOk(t)
  {
    hide LocFor;
    assert forall v, side :: 0 <= v < |s.writeCmds| ==> Request(s.writeCmds[v], side) == Request(t.writeCmds[v], side);
  }

  lemma DecidedPairs(s: State, t: State, w: nat)
    requires PairsOk(s) && Decided(s, t, w)
    ensures PairsOk(t)
  {
  }

  /** What is pending on byte `o` after write `w` was decided. */
  lemma DecidedPending(s: State, t: State, w: nat, o: nat)
    requires PairsOk(s) && Decided(s, t, w)
    ensures forall v :: PendingOn(t, v, o) <==> PendingOn(s, v, o) && v != w
    ensures PendingOn(s, w, o) ==> forall v :: !PendingOn(t, v, o)
    ensures forall v, side :: 0 <= v < |s.writeCmds| ==> Applied(t, v, side) == Applied(s, v, side)
    ensures forall v :: 0 <= v < |s.writeCmds| ==> t.writeCmds[v].clean == s.writeCmds[v].clean
    ensures forall v :: 0 <= v < |s.writeCmds| ==> t.writeCmds[v].data == s.writeCmds[v].data && t.writeCmds[v].off == s.writeCmds[v].off
  {
  }

  lemma SameCopy(s: State, t: State, o: nat, side: Side)
    requires WellSized(s) && WellSized(t) && s.disks == t.disks && o < CAPACITY
    ensures Copy(t, o, side) == Copy(s, o, side)
  {
  }

  /** What a confirmation does to the confirmed content and the certainty of byte `o`. */
  lemma ConfirmByte(s: State, w: nat, o: nat)
    requires WellSized(s) && FitsDevice(s, w) && o < CAPACITY
    ensures var t, x := Confirm(s, w), s.writeCmds[w];
            && |t.flat| == CAPACITY
            && t.flat[o] == (if Covers(x.off, |x.data|, o) then x.data[o - x.off] else s.flat[o])
            && (o in t.uncertain <==> o in s.uncertain && !(x.clean && Covers(x.off, |x.data|, o)))
  {
  }

  lemma ConfirmCopy(s: State, w: nat, o: nat, side: Side)
    requires WellSized(s) && PairsOk(s) && Enabled(s, PollWrite(w)) && FitsDevice(s, w)
    requires o < CAPACITY && CopyOk(s, o, side) && WellSized(Confirm(s, w))
    requires Applied(s, w, Og) && Applied(s, w, Backup)
    ensures CopyOk(Confirm(s, w), o, side)
  {
    var t := Confirm(s, w);
    SameCopy(s, t, o, side);
    DecidedPending(s, t, w, o);
    ConfirmByte(s, w, o);
    assert Covers(s.writeCmds[w].off, |s.writeCmds[w].data|, o) == PendingOn(s, w, o);
    hide LocFor, Copy, Applied, Confirm, Request, PairsOk, WellSized, Enabled;
    if PendingOn(s, w, o) {
      ConfirmCoveredCopy(s, t, w, o, side);
    } else {
      ConfirmOtherCopy(s, t, w, o, side);
    }
  }

  lemma ConfirmCoveredCopy(s: State, t: State, w: nat, o: nat, side: Side)
    requires WellSized(s) && WellSized(t) && o < CAPACITY && CopyOk(s, o, side)
    requires PendingOn(s, w, o) && Applied(s, w, side) && Copy(t, o, side) == Copy(s, o, side)
    requires forall v :: !PendingOn(t, v, o)
    requires t.flat[o] == s.writeCmds[w].data[o - s.writeCmds[w].off]
    requires o !in t.uncertain ==> o !in s.uncertain || s.writeCmds[w].clean
    ensures CopyOk(t, o, side)
  {
    hide Copy, Applied, WellSized;
  }

  lemma ConfirmOtherCopy(s: State, t: State, w: nat, o: nat, side: Side)
    requires WellSized(s) && WellSized(t) && o < CAPACITY && CopyOk(s, o, side)
    requires !PendingOn(s, w, o) && Copy(t, o, side) == Copy(s, o, side)
    requires forall v :: PendingOn(t, v, o) <==> PendingOn(s, v, o) && v != w
    requires |t.writeCmds| == |s.writeCmds| && forall v :: 0 <= v < |s.writeCmds| ==>
               Applied(t, v, side) == Applied(s, v, side) && t.writeCmds[v].clean == s.writeCmds[v].clean
               && t.writeCmds[v].data == s.writeCmds[v].data && t.writeCmds[v].off == s.writeCmds[v].off
    requires t.flat[o] == s.flat[o] && (o in t.uncertain <==> o in s.uncertain)
    ensures CopyOk(t, o, side)
  {
    hide Copy, Applied, WellSized;
    assert forall v :: PendingOn(t, v, o) <==> PendingOn(s, v, o);
  }

  lemma AbandonCopy(s: State, w: nat, verdict: Verdict, o: nat, side: Side)
    requires WellSized(s) && PairsOk(s) && Enabled(s, PollWrite(w)) && FitsDevice(s, w)
    requires o < CAPACITY && CopyOk(s, o, side) && WellSized(Abandon(s, w, verdict))
    ensures CopyOk(Abandon(s, w, verdict), o, side)
  {
    var t := Abandon(s, w, verdict);
    SameCopy(s, t, o, side);
    hide LocFor, Copy, Applied;
    DecidedPending(s, t, w, o);
    assert Covers(s.writeCmds[w].off, |s.writeCmds[w].data|, o) == PendingOn(s, w, o);
    if !PendingOn(s, w, o) {
      assert forall v :: PendingOn(t, v, o) <==> PendingOn(s, v, o);
    }
  }

  lemma ConfirmStale(s: State, w: nat)
    requires WellSized(s) && KeysOk(s) && NetOk(s) && PairsOk(s) && StaleOk(s) && Enabled(s, PollWrite(w)) && FitsDevice(s, w)
    requires Applied(s, w, Og) && Applied(s, w, Backup) && KeysOk(Confirm(s, w))
    ensures StaleOk(Confirm(s, w))
  {
    hide LocFor;
    var t := Confirm(s, w);
    forall p, o | p in t.net && StaleOn(t, p, o)
      ensures o in t.uncertain && forall v :: PendingOn(t, v, o) ==> !t.writeCmds[v].clean
    {
      assert DatagramOk(s, p);
      assert s.owner[p.uid].w != w;
      assert StaleOn(s, p, o);
      DecidedPending(s, t, w, o);
      assert PendingOn(s, w, o) ==> !s.writeCmds[w].clean;
    }
  }

  lemma AbandonStale(s: State, w: nat, verdict: Verdict)
    requires WellSized(s) && KeysOk(s) && PairsOk(s) && StaleOk(s) && Enabled(s, PollWrite(w)) && FitsDevice(s, w)
    requires KeysOk(Abandon(s, w, verdict))
    ensures StaleOk(Abandon(s, w, verdict))
  {
    hide LocFor;
    var t := Abandon(s, w, verdict);
    forall p, o | p in t.net && StaleOn(t, p, o)
      ensures o in t.uncertain && forall v :: PendingOn(t, v, o) ==> !t.writeCmds[v].clean
    {
      DecidedPending(s, t, w, o);
      if s.owner[p.uid].w == w {
        assert PendingOn(s, w, o);
      } else {
        assert StaleOn(s, p, o);
      }
    }
  }

  // -- any action --

  lemma EveryActionKeeps(s: State, a: Action)
    requires Inv(s) && Enabled(s, a)
    ensures Inv(Apply(s, a))
  {
    match a
    case IssueWrite(off, data) => IssueWriteKeeps(s, off, data);
    case IssueRead(off, size) => IssueReadKeeps(s, off, size);
    case OtherUid => OtherUidKeeps(s);
    case Lose(p) => LoseKeeps(s, p);
    case Execute(p) => if p.WriteReq? { ExecuteWriteKeeps(s, p); } else { ExecuteReadKeeps(s, p); }
    case Receive(p) => if p.WriteAck? { ReceiveWriteKeeps(s, p); } else { ReceiveReadKeeps(s, p); }
    case PollWrite(w) => PollWriteKeeps(s, w);
    case PollRead(r) => PollReadKeeps(s, r);
  }
}
