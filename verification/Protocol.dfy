/** The mirrored device as a protocol: the master, three minions and the datagrams
    between them, one action per command, datagram or poll. */
module Protocol {
  import opened Bytes
  import opened Raid
  import opened ResponseManager

  datatype Datagram =
    | WriteReq(to: nat, at: nat, data: seq<byte>, uid: Key)
    | ReadReq(to: nat, at: nat, size: nat, uid: Key)
    | WriteAck(uid: Key)
    | ReadAck(uid: Key, bytes: seq<byte>)

  datatype Outcome = Pending | Confirmed | GivenUp

  /** A write the master issued. `clean` records that no datagram of an abandoned write
      to the same bytes was in flight when it was issued. */
  datatype Write = Write(off: nat, data: seq<byte>, og: Key, backup: Key, outcome: Outcome, clean: bool)

  datatype Read = Read(off: nat, size: nat, uid: Key, answered: bool, polled: bool)

  /** What the master sends back over TCP: the observable history of the device. */
  datatype Reply =
    | WriteSucceeded(w: nat, off: nat, data: seq<byte>)
    | WriteFailed(w: nat, off: nat, size: nat, verdict: Verdict)
    | ReadReturned(r: nat, off: nat, bytes: seq<byte>)

  datatype Side = Og | Backup
  datatype Owner = OfWrite(w: nat, side: Side) | OfRead(r: nat)

  datatype State = State(
    // master
    made: nat, watch: Watchlist, counters: Counters, writeCmds: seq<Write>, readCmds: seq<Read>, log: seq<Reply>,
    // network and minions
    net: set<Datagram>, disks: seq<seq<byte>>,
    // bookkeeping no component reads: who a key was issued to, which requests minions have
    // executed, which responses were ever registered, the last confirmed content of the
    // device and the bytes whose content is not determined
    owner: map<Key, Owner>, executed: set<Datagram>, registered: set<Key>,
    flat: seq<byte>, uncertain: set<nat>)

  function Init(): State {
    State(0, map[], Counters(0, 0), [], [], [], {}, seq(MINIONS, _ => seq(DISK, _ => 0)),
          map[], {}, {}, seq(CAPACITY, _ => 0), {})
  }

  datatype Action =
    | IssueWrite(off: nat, data: seq<byte>)
    | IssueRead(off: nat, size: nat)
    | OtherUid                      // a ThreadSafeUID constructed for any other message
    | Lose(p: Datagram)
    | Execute(p: Datagram)          // a minion executes a request and answers it
    | Receive(p: Datagram)          // the master receives an answer
    | PollWrite(w: nat)
    | PollRead(r: nat)

  // ----- requests -----

  function KeyFor(w: Write, side: Side): Key {
    if side == Og then w.og else w.backup
  }

  function LocFor(off: nat, side: Side): Loc {
    OffsetToProxy(off)[if side == Og then 0 else 1]
  }

  /** The datagram that carries write `w` to one of its two minions. */
  function Request(w: Write, side: Side): Datagram {
    var loc := LocFor(w.off, side);
    WriteReq(loc.minion, loc.at, w.data, KeyFor(w, side))
  }

  function ReadRequest(r: Read): Datagram {
    var loc := LocFor(r.off, Og);
    ReadReq(loc.minion, loc.at, r.size, r.uid)
  }

  predicate Disjoint(off: nat, size: nat, off': nat, size': nat) {
    off + size <= off' || off' + size' <= off
  }

  /** No outstanding request conflicts with a new one: a write must not overlap any
      outstanding request, a read must not overlap an outstanding write. */
  predicate NoConflict(s: State, off: nat, size: nat, write: bool) {
    && (forall w :: 0 <= w < |s.writeCmds| && s.writeCmds[w].outcome == Pending ==>
          Disjoint(off, size, s.writeCmds[w].off, |s.writeCmds[w].data|))
    && (write ==> forall r :: 0 <= r < |s.readCmds| && !s.readCmds[r].answered ==>
          Disjoint(off, size, s.readCmds[r].off, s.readCmds[r].size))
  }

  predicate IsWriteReqOn(writeCmds: seq<Write>, owner: map<Key, Owner>, p: Datagram, off: nat, size: nat) {
    p.WriteReq? && p.uid in owner && var ow := owner[p.uid];
    ow.OfWrite? && ow.w < |writeCmds| && !Disjoint(off, size, writeCmds[ow.w].off, |writeCmds[ow.w].data|)
  }

  predicate NothingInFlightOn(s: State, off: nat, size: nat) {
    forall p :: p in s.net ==> !IsWriteReqOn(s.writeCmds, s.owner, p, off, size)
  }

  function Range(off: nat, size: nat): (r: set<nat>)
    ensures forall o: nat :: o in r <==> Covers(off, size, o)
  {
    set o | off <= o < off + size && Covers(off, size, o)
  }

  // ----- actions -----

  predicate FitsStore(s: State, p: Datagram)
    requires p.WriteReq? || p.ReadReq?
  {
    && p.to < |s.disks|
    && p.at + (if p.WriteReq? then |p.data| else p.size) <= |s.disks[p.to]|
  }

  predicate Enabled(s: State, a: Action) {
    match a
    case IssueWrite(off, data) =>
      s.made + 2 <= WRAP && InStripe(off, |data|) && NoConflict(s, off, |data|, true)
    case IssueRead(off, size) =>
      s.made + 1 <= WRAP && InStripe(off, size) && NoConflict(s, off, size, false)
    case OtherUid => s.made + 1 <= WRAP
    case Lose(p) => p in s.net
    case Execute(p) => p in s.net && (p.WriteReq? || p.ReadReq?)
    case Receive(p) => p in s.net && (p.WriteAck? || p.ReadAck?)
    case PollWrite(w) => w < |s.writeCmds| && s.writeCmds[w].outcome == Pending
    case PollRead(r) => r < |s.readCmds| && !s.readCmds[r].polled
  }

  /** WriteCommand::Execute. */
  function ApplyIssueWrite(s: State, off: nat, data: seq<byte>): State {
    var og, backup := KeyOf(s.made), KeyOf(s.made + 1);
    var w := Write(off, data, og, backup, Pending, NothingInFlightOn(s, off, |data|));
    s.(made := s.made + 2,
       watch := s.watch[og := Processing][backup := Processing],
       writeCmds := s.writeCmds + [w],
       net := s.net + {Request(w, Og), Request(w, Backup)},
       owner := s.owner[og := OfWrite(|s.writeCmds|, Og)][backup := OfWrite(|s.writeCmds|, Backup)])
  }

  /** ReadCommand::Execute. */
  function ApplyIssueRead(s: State, off: nat, size: nat): State {
    var uid := KeyOf(s.made);
    var r := Read(off, size, uid, false, false);
    s.(made := s.made + 1,
       watch := s.watch[uid := Processing],
       readCmds := s.readCmds + [r],
       net := s.net + {ReadRequest(r)},
       owner := s.owner[uid := OfRead(|s.readCmds|)])
  }

  /** MinionWriteCmd::Execute and MinionReadCmd::Execute. */
  function ApplyExecute(s: State, p: Datagram): State
    requires p.WriteReq? || p.ReadReq?
    requires FitsStore(s, p)
  {
    var disk := s.disks[p.to];
    if p.WriteReq? then
      s.(net := s.net - {p} + {WriteAck(p.uid)},
         disks := s.disks[p.to := Splice(disk, p.at, p.data)],
         executed := s.executed + {p})
    else
      s.(net := s.net - {p} + {ReadAck(p.uid, disk[p.at..p.at + p.size])})
  }

  /** ResponseProxy::GetArgsKey: a read answer is forwarded to the kernel side at once. */
  function ApplyReceive(s: State, p: Datagram): State
    requires p.WriteAck? || p.ReadAck?
  {
    var t := s.(net := s.net - {p}, watch := s.watch[p.uid := Done], registered := s.registered + {p.uid});
    if p.ReadAck? && p.uid in s.owner && s.owner[p.uid].OfRead? && s.owner[p.uid].r < |s.readCmds| then
      var r := s.owner[p.uid].r;
      t.(readCmds := s.readCmds[r := s.readCmds[r].(answered := true)],
         log := s.log + [ReadReturned(r, s.readCmds[r].off, p.bytes)])
    else t
  }

  predicate FitsDevice(s: State, w: nat) {
    w < |s.writeCmds| && s.writeCmds[w].off + |s.writeCmds[w].data| <= |s.flat|
  }

  /** The master reports write `w` as successful. */
  function Confirm(s: State, w: nat): State
    requires FitsDevice(s, w)
  {
    var x := s.writeCmds[w];
    s.(writeCmds := s.writeCmds[w := x.(outcome := Confirmed)],
       log := s.log + [WriteSucceeded(w, x.off, x.data)],
       flat := Splice(s.flat, x.off, x.data),
       uncertain := if x.clean then s.uncertain - Range(x.off, |x.data|) else s.uncertain)
  }

  /** The master reports write `w` as given up. */
  function Abandon(s: State, w: nat, verdict: Verdict): State
    requires FitsDevice(s, w)
  {
    var x := s.writeCmds[w];
    s.(writeCmds := s.writeCmds[w := x.(outcome := GivenUp)],
       log := s.log + [WriteFailed(w, x.off, |x.data|, verdict)],
       uncertain := s.uncertain + Range(x.off, |x.data|))
  }

  /** The state after the polling function of write `w` has asked for both responses. */
  function AfterAsking(s: State, w: nat): State
    requires w < |s.writeCmds|
  {
    var p := Poll(s.watch, s.counters, s.writeCmds[w].og, s.writeCmds[w].backup);
    s.(watch := p.0, counters := p.1)
  }

  function VerdictOf(s: State, w: nat): Verdict
    requires w < |s.writeCmds|
  {
    Poll(s.watch, s.counters, s.writeCmds[w].og, s.writeCmds[w].backup).2
  }

  /** The polling function of write `w`. */
  function ApplyPollWrite(s: State, w: nat): State
    requires FitsDevice(s, w)
  {
    match VerdictOf(s, w)
    case Again => AfterAsking(s, w)
    case Success => Confirm(AfterAsking(s, w), w)
    case v => Abandon(AfterAsking(s, w), w, v)
  }

  /** The polling function of a read; it sends nothing. */
  function ApplyPollRead(s: State, r: nat): State
    requires r < |s.readCmds|
  {
    var x := s.readCmds[r];
    s.(watch := Asked(s.watch, x.uid), readCmds := s.readCmds[r := x.(polled := IsDone(s.watch, x.uid))])
  }

  /** What an action touches exists; the invariant of ProtocolInvariant implies it. */
  predicate WellSized(s: State) {
    && |s.flat| == CAPACITY
    && |s.disks| == MINIONS && (forall m :: 0 <= m < MINIONS ==> |s.disks[m]| == DISK)
    && (forall w :: 0 <= w < |s.writeCmds| ==> InStripe(s.writeCmds[w].off, |s.writeCmds[w].data|))
    && (forall p :: p in s.net && (p.WriteReq? || p.ReadReq?) ==> FitsStore(s, p))
  }

  function Apply(s: State, a: Action): State
    requires WellSized(s) && Enabled(s, a)
  {
    match a
    case IssueWrite(off, data) => ApplyIssueWrite(s, off, data)
    case IssueRead(off, size) => ApplyIssueRead(s, off, size)
    case OtherUid => s.(made := s.made + 1)
    case Lose(p) => s.(net := s.net - {p})
    case Execute(p) => ApplyExecute(s, p)
    case Receive(p) => ApplyReceive(s, p)
    case PollWrite(w) => InStripeFits(s.writeCmds[w].off, |s.writeCmds[w].data|); ApplyPollWrite(s, w)
    case PollRead(r) => ApplyPollRead(s, r)
  }

  lemma InStripeFits(off: nat, size: nat)
    requires InStripe(off, size)
    ensures off + size <= CAPACITY
  {
  }
}
