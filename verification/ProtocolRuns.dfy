/** What the protocol guarantees over whole runs: every interleaving of commands, polls,
    executions, deliveries and losses. */
module ProtocolRuns {
  import opened Bytes
  import opened Raid
  import opened ResponseManager
  import opened Protocol
  import opened ProtocolInvariant

  ghost predicate Step(s: State, a: Action, t: State) {
    WellSized(s) && Enabled(s, a) && t == Apply(s, a)
  }

  /** A run is a sequence of states with the action that leads from each to the next. */
  ghost predicate Run(ss: seq<State>, acts: seq<Action>) {
    |ss| == |acts| + 1 && forall k :: 0 <= k < |acts| ==> Step(ss[k], acts[k], ss[k + 1])
  }

  ghost predicate RunFromInit(ss: seq<State>, acts: seq<Action>) {
    Run(ss, acts) && ss[0] == Init()
  }

  lemma {:induction false} EveryStateOk(ss: seq<State>, acts: seq<Action>, k: nat)
    requires Run(ss, acts) && Inv(ss[0]) && k < |ss|
    ensures Inv(ss[k])
  {
    if k > 0 {
      EveryStateOk(ss, acts, k - 1);
      assert Step(ss[k - 1], acts[k - 1], ss[k]);
      EveryActionKeeps(ss[k - 1], acts[k - 1]);
    }
  }

  lemma EveryReachableStateOk(ss: seq<State>, acts: seq<Action>, k: nat)
    requires RunFromInit(ss, acts) && k < |ss|
    ensures Inv(ss[k])
  {
    InitHolds();
    EveryStateOk(ss, acts, k);
  }

  // ----- the device is a flat byte array -----

  /** Main theorem. Every read the master ever answered returned, for each byte that no
      write reported as given up had covered, the last value reported as written, or 0;
      and no request was ever answered twice. */
  lemma DeviceRefinesFlatArray(ss: seq<State>, acts: seq<Action>, n: nat)
    requires RunFromInit(ss, acts) && n < |ss|
    ensures var log := ss[n].log;
            && (forall k :: 0 <= k < |log| && log[k].ReadReturned? ==>
                  forall j :: 0 <= j < |log[k].bytes| && !EverGivenUp(log[..k], log[k].off + j) ==>
                    log[k].bytes[j] == LastConfirmed(log[..k], log[k].off + j))
            && (forall j, k :: 0 <= j < k < |log| ==> About(log[j]) != About(log[k]))
  {
    EveryReachableStateOk(ss, acts, n);
    forall k | 0 <= k < |ss[n].log| && ss[n].log[k].ReadReturned?
      ensures ReplyCorrect(ss[n].log[..k], ss[n].log[k])
    {
    }
  }

  /** The same at the moment of the answer, for every byte that is not uncertain. Bytes
      stop being uncertain when a write issued with nothing abandoned in flight to them is
      confirmed, so a device that gave up a write can be trusted again. */
  lemma AnswersAreCorrect(s: State, p: Datagram)
    requires Inv(s) && Enabled(s, Receive(p)) && p.ReadAck?
    ensures var t := Apply(s, Receive(p));
            exists r :: 0 <= r < |s.readCmds| && s.readCmds[r].uid == p.uid && !s.readCmds[r].answered
              && t.log == s.log + [ReadReturned(r, s.readCmds[r].off, p.bytes)] && |p.bytes| == s.readCmds[r].size
              && forall o: nat :: Covers(s.readCmds[r].off, |p.bytes|, o) && o !in s.uncertain ==>
                   p.bytes[o - s.readCmds[r].off] == LastConfirmed(s.log, o)
  {
    assert DatagramOk(s, p);
    var r := s.owner[p.uid].r;
    InStripeFits(s.readCmds[r].off, s.readCmds[r].size);
    assert s.readCmds[r].uid == p.uid;
  }

  lemma ConfirmationRestoresCertainty(s: State, w: nat, o: nat)
    requires Inv(s) && Enabled(s, PollWrite(w)) && VerdictOf(s, w) == Success
    requires s.writeCmds[w].clean && Covers(s.writeCmds[w].off, |s.writeCmds[w].data|, o) && o < CAPACITY
    ensures var t := Apply(s, PollWrite(w));
            o !in t.uncertain && forall side :: Copy(t, o, side) == s.writeCmds[w].data[o - s.writeCmds[w].off]
  {
    hide NetOk, AcksOk, StaleOk, LogOk, KeysOk;
    EveryActionKeeps(s, PollWrite(w));
    InStripeFits(s.writeCmds[w].off, |s.writeCmds[w].data|);
    var t := Apply(s, PollWrite(w));
    assert t == Confirm(AfterAsking(s, w), w);
    assert PendingOn(s, w, o);
    forall side
      ensures Copy(t, o, side) == s.writeCmds[w].data[o - s.writeCmds[w].off]
    {
      assert CopyOk(t, o, side);
      assert forall v :: PendingOn(t, v, o) ==> PendingOn(s, v, o) && v != w;
    }
  }

  /** A device with no request outstanding accepts every request inside a stripe, so runs
      that issue one request at a time are covered by all of the above. */
  lemma OneAtATimeHasNoConflicts(s: State, off: nat, size: nat)
    requires forall w :: 0 <= w < |s.writeCmds| ==> s.writeCmds[w].outcome != Pending
    requires forall r :: 0 <= r < |s.readCmds| ==> s.readCmds[r].answered
    ensures NoConflict(s, off, size, true) && NoConflict(s, off, size, false)
  {
  }

  // ----- acknowledgements -----

  /** An acknowledgement in flight or registered means the minion the write was sent to
      executed exactly that write; each is registered at most once; and a write that was
      reported as successful is applied by both minions. */
  lemma AcksAreSound(ss: seq<State>, acts: seq<Action>, n: nat)
    requires RunFromInit(ss, acts) && n < |ss|
    ensures var s := ss[n];
            forall w, side :: 0 <= w < |s.writeCmds| ==>
              var k := KeyFor(s.writeCmds[w], side);
              && (WriteAck(k) in s.net || IsDone(s.watch, k) || s.writeCmds[w].outcome == Confirmed ==>
                    Request(s.writeCmds[w], side) in s.executed)
              && (WriteAck(k) in s.net ==> k !in s.registered)
  {
    EveryReachableStateOk(ss, acts, n);
    var s := ss[n];
    hide LocFor;
    forall w, side | 0 <= w < |s.writeCmds|
      ensures var k := KeyFor(s.writeCmds[w], side);
              && (WriteAck(k) in s.net || IsDone(s.watch, k) || s.writeCmds[w].outcome == Confirmed ==> Applied(s, w, side))
              && (WriteAck(k) in s.net ==> k !in s.registered)
    {
      var k := KeyFor(s.writeCmds[w], side);
      assert s.owner[k] == OfWrite(w, side);
      if WriteAck(k) in s.net {
        assert DatagramOk(s, WriteAck(k));
      }
    }
  }

  // ----- mirroring -----

  /** Both copies of a byte hold the last confirmed value unless a pending write covers the
      byte or its content is uncertain. */
  lemma CopiesAgree(ss: seq<State>, acts: seq<Action>, n: nat, o: nat)
    requires RunFromInit(ss, acts) && n < |ss| && o < CAPACITY
    requires o !in ss[n].uncertain && forall w :: !PendingOn(ss[n], w, o)
    ensures WellSized(ss[n])
    ensures Copy(ss[n], o, Og) == Copy(ss[n], o, Backup) == LastConfirmed(ss[n].log, o)
  {
    EveryReachableStateOk(ss, acts, n);
    assert CopyOk(ss[n], o, Og) && CopyOk(ss[n], o, Backup);
  }

  /** The side whose copy of `o` is not on the lost minion. */
  function Surviving(lost: nat, o: nat): Side {
    if LocFor(o, Og).minion != lost then Og else Backup
  }

  /** The device as read from the two minions that remain. */
  function RebuiltDevice(s: State, lost: nat): seq<byte>
    requires WellSized(s)
  {
    seq(CAPACITY, o requires 0 <= o < CAPACITY => Copy(s, o, Surviving(lost, o)))
  }

  /** The lost minion's store as copied from the two minions that remain. */
  function RebuiltDisk(s: State, lost: nat): seq<byte>
    requires WellSized(s) && lost < MINIONS
  {
    seq(DISK, at requires 0 <= at < DISK =>
      EveryPhysicalByteOnce(MINIONS, STRIPE, Loc(lost, at));
      var o := LogicalOf(MINIONS, STRIPE, Loc(lost, at));
      Copy(s, o, Surviving(lost, o)))
  }

  ghost predicate Settled(s: State) {
    s.uncertain == {} && forall w :: 0 <= w < |s.writeCmds| ==> s.writeCmds[w].outcome != Pending
  }

  /** Main theorem of mirroring. With no write outstanding and no byte uncertain (in
      particular when no write was ever given up), any one minion can be lost: the two that
      remain hold the last confirmed value of every byte of the device, and everything the
      lost one stored. */
  lemma AnyMinionCanBeLost(ss: seq<State>, acts: seq<Action>, n: nat, lost: nat)
    requires RunFromInit(ss, acts) && n < |ss| && Settled(ss[n]) && lost < MINIONS
    ensures WellSized(ss[n])
    ensures forall o :: 0 <= o < CAPACITY ==> LocFor(o, Surviving(lost, o)).minion != lost
    ensures forall o :: 0 <= o < CAPACITY ==> RebuiltDevice(ss[n], lost)[o] == LastConfirmed(ss[n].log, o)
    ensures RebuiltDisk(ss[n], lost) == ss[n].disks[lost]
  {
    EveryReachableStateOk(ss, acts, n);
    SettledCopiesRebuild(ss[n], lost);
    hide LocFor, KeysOk, NetOk, AcksOk, PairsOk, CopiesOk, StaleOk;
  }

  lemma SettledCopiesRebuild(s: State, lost: nat)
    requires Inv(s) && Settled(s) && lost < MINIONS
    ensures forall o :: 0 <= o < CAPACITY ==> LocFor(o, Surviving(lost, o)).minion != lost
    ensures RebuiltDevice(s, lost) == s.flat
    ensures RebuiltDisk(s, lost) == s.disks[lost]
  {
    forall o | 0 <= o < CAPACITY
      ensures LocFor(o, Surviving(lost, o)).minion != lost
      ensures Copy(s, o, Og) == Copy(s, o, Backup) == s.flat[o]
    {
      DeployedMap(o);
      assert CopyOk(s, o, Og) && CopyOk(s, o, Backup);
    }
    forall at | 0 <= at < DISK
      ensures RebuiltDisk(s, lost)[at] == s.disks[lost][at]
    {
      LostByte(s, lost, at);
    }
  }

  lemma LostByte(s: State, lost: nat, at: nat)
    requires WellSized(s) && lost < MINIONS && at < DISK
    requires forall o :: 0 <= o < CAPACITY ==> Copy(s, o, Og) == Copy(s, o, Backup)
    ensures var o := LogicalOf(MINIONS, STRIPE, Loc(lost, at));
            o < CAPACITY && Copy(s, o, Surviving(lost, o)) == s.disks[lost][at]
  {
    EveryPhysicalByteOnce(MINIONS, STRIPE, Loc(lost, at));
    var o := LogicalOf(MINIONS, STRIPE, Loc(lost, at));
    assert Loc(lost, at) == LocFor(o, Og) || Loc(lost, at) == LocFor(o, Backup);
    assert s.disks[lost][at] == Copy(s, o, Og) || s.disks[lost][at] == Copy(s, o, Backup);
  }

  // ----- polling ends -----

  function PendingCount(ws: seq<Write>): nat {
    if ws == [] then 0
    else PendingCount(ws[..|ws| - 1]) + if ws[|ws| - 1].outcome == Pending then 1 else 0
  }

  lemma {:induction false} PendingCountUpdate(ws: seq<Write>, w: nat, x: Write)
    requires w < |ws| && ws[w].outcome == Pending
    ensures PendingCount(ws) > 0
    ensures PendingCount(ws[w := x]) == if x.outcome == Pending then PendingCount(ws) else PendingCount(ws) - 1
  {
    var n := |ws| - 1;
    if w < n {
      PendingCountUpdate(ws[..n], w, x);
      assert ws[w := x][..n] == ws[..n][w := x];
    } else {
      assert ws[w := x][..n] == ws[..n];
    }
  }

  function Polls(acts: seq<Action>): nat {
    if acts == [] then 0 else (if acts[0].PollWrite? then 1 else 0) + Polls(acts[1..])
  }

  function Measure(s: State): int {
    99 * PendingCount(s.writeCmds) - (s.counters.og + s.counters.backup)
  }

  lemma StepLowersMeasure(s: State, a: Action)
    requires Inv(s) && Enabled(s, a) && !a.IssueWrite?
    ensures var t := Apply(s, a);
            && Measure(t) <= Measure(s) - (if a.PollWrite? then 1 else 0)
            && (a.PollWrite? ==> Measure(s) >= 1)
  {
    hide LocFor, Request, NetOk, AcksOk, CopiesOk, StaleOk, LogOk, PairsOk, NothingInFlightOn, KeysOk, Poll;
    if a.PollWrite? {
      var x := s.writeCmds[a.w];
      PendingCountUpdate(s.writeCmds, a.w, x.(outcome := Confirmed));
      PollLowersMeasure(s.watch, s.counters, x.og, x.backup, PendingCount(s.writeCmds));
      PendingCountUpdate(s.writeCmds, a.w, x.(outcome := GivenUp));
    }
  }

  /** With no new writes, N outstanding writes cost at most 99*N polls, whatever is
      acknowledged, lost or delivered meanwhile; and while a write is still outstanding
      fewer polls than that have happened. */
  lemma {:induction false} PollingEnds(ss: seq<State>, acts: seq<Action>)
    requires Run(ss, acts) && Inv(ss[0])
    requires forall k :: 0 <= k < |acts| ==> !acts[k].IssueWrite?
    ensures Polls(acts) <= 99 * PendingCount(ss[0].writeCmds)
    ensures Polls(acts) <= if Measure(ss[0]) > 0 then Measure(ss[0]) else 0
    ensures Polls(acts) + Measure(ss[|acts|]) <= Measure(ss[0])
    ensures PendingCount(ss[|acts|].writeCmds) > 0 ==> Polls(acts) < 99 * PendingCount(ss[0].writeCmds)
    decreases |acts|
  {
    hide Inv, Apply, Enabled, WellSized, Init;
    if acts != [] {
      assert Step(ss[0], acts[0], ss[1]);
      EveryActionKeeps(ss[0], acts[0]);
      StepLowersMeasure(ss[0], acts[0]);
      PollingEnds(ss[1..], acts[1..]);
    }
    EveryStateOk(ss, acts, |acts|);
    CountersBounded(ss[0]);
    CountersBounded(ss[|acts|]);
  }

  lemma CountersBounded(s: State)
    requires Inv(s)
    ensures s.counters.og + s.counters.backup <= 98
  {
  }

  // ----- exactly when a write is reported as successful -----

  ghost predicate BothDone(s: State, w: nat)
    requires w < |s.writeCmds|
  {
    IsDone(s.watch, s.writeCmds[w].og) && IsDone(s.watch, s.writeCmds[w].backup)
  }

  /** A registered response that is no longer in the table: some poll consumed it. */
  ghost predicate Spent(s: State, k: Key) {
    k in s.registered && !IsDone(s.watch, k)
  }

  lemma OwnKeysDiffer(s: State, w: nat, v: nat)
    requires KeysOk(s) && w < |s.writeCmds| && v < |s.writeCmds|
    ensures s.writeCmds[w].og != s.writeCmds[v].backup
    ensures v != w ==> s.writeCmds[w].og != s.writeCmds[v].og && s.writeCmds[w].backup != s.writeCmds[v].backup
  {
    assert s.owner[KeyFor(s.writeCmds[w], Og)] == OfWrite(w, Og) && s.owner[KeyFor(s.writeCmds[w], Backup)] == OfWrite(w, Backup);
    assert s.owner[KeyFor(s.writeCmds[v], Og)] == OfWrite(v, Og) && s.owner[KeyFor(s.writeCmds[v], Backup)] == OfWrite(v, Backup);
  }

  /** The one step that turns a pending write into a successful one; it removes both keys
      and sends exactly one reply. */
  lemma SuccessStep(s: State, a: Action, w: nat)
    requires Inv(s) && Enabled(s, a) && w < |s.writeCmds| && s.writeCmds[w].outcome == Pending
    ensures var t := Apply(s, a);
            && w < |t.writeCmds| && t.writeCmds[w].og == s.writeCmds[w].og && t.writeCmds[w].backup == s.writeCmds[w].backup
            && (t.writeCmds[w].outcome == Confirmed <==> a == PollWrite(w) && BothDone(s, w))
            && (a == PollWrite(w) && BothDone(s, w) ==>
                  && t.log == s.log + [WriteSucceeded(w, s.writeCmds[w].off, s.writeCmds[w].data)]
                  && s.writeCmds[w].og !in t.watch && s.writeCmds[w].backup !in t.watch)
            && (a == PollWrite(w) && !BothDone(s, w) ==>
                  && (IsDone(s.watch, s.writeCmds[w].og) ==> Spent(t, s.writeCmds[w].og))
                  && (IsDone(s.watch, s.writeCmds[w].backup) ==> Spent(t, s.writeCmds[w].backup)))
  {
    hide LocFor, Request, NetOk, CopiesOk, StaleOk, LogOk, PairsOk, NothingInFlightOn;
    OwnKeysDiffer(s, w, w);
  }

  lemma WriteStays(s: State, a: Action, w: nat)
    requires Inv(s) && Enabled(s, a) && w < |s.writeCmds|
    ensures w < |Apply(s, a).writeCmds|
    ensures Apply(s, a).writeCmds[w] == s.writeCmds[w].(outcome := Apply(s, a).writeCmds[w].outcome)
  {
    hide LocFor, Request, NetOk, AcksOk, CopiesOk, StaleOk, LogOk, PairsOk, KeysOk;
  }

  lemma FinishedStays(s: State, a: Action, w: nat)
    requires Inv(s) && Enabled(s, a) && w < |s.writeCmds| && s.writeCmds[w].outcome != Pending
    ensures w < |Apply(s, a).writeCmds| && Apply(s, a).writeCmds[w] == s.writeCmds[w]
  {
    hide LocFor, Request, NetOk, AcksOk, CopiesOk, StaleOk, LogOk, PairsOk, KeysOk;
  }

  lemma SpentAcrossIssue(s: State, a: Action, k: Key)
    requires Inv(s) && Enabled(s, a) && Spent(s, k) && (a.IssueWrite? || a.IssueRead?)
    ensures Spent(Apply(s, a), k)
  {
    hide LocFor, Request, NetOk, CopiesOk, StaleOk, LogOk, PairsOk, NothingInFlightOn, KeyOf, Splice, Range, NoConflict, InStripe;
    FreshKey(s, s.made);
    if a.IssueWrite? {
      FreshKey(s, s.made + 1);
    }
  }

  lemma SpentAcrossReceive(s: State, p: Datagram, k: Key)
    requires Inv(s) && Enabled(s, Receive(p)) && Spent(s, k)
    ensures Spent(Apply(s, Receive(p)), k)
  {
  }

  /** A consumed response is never seen again. */
  lemma SpentStays(s: State, a: Action, k: Key)
    requires Inv(s) && Enabled(s, a) && Spent(s, k)
    ensures Spent(Apply(s, a), k)
  {
    hide LocFor, Request, KeysOk, NetOk, AcksOk, CopiesOk, StaleOk, LogOk, PairsOk, Splice, Range;
    if a.IssueWrite? || a.IssueRead? {
      SpentAcrossIssue(s, a, k);
    } else if a.Receive? {
      SpentAcrossReceive(s, a.p, k);
    }
  }

  /** Only a poll of the write itself takes its responses out of the table. */
  lemma DoneStaysUntilPolled(s: State, a: Action, w: nat, side: Side)
    requires Inv(s) && Enabled(s, a) && w < |s.writeCmds| && a != PollWrite(w)
    requires IsDone(s.watch, KeyFor(s.writeCmds[w], side))
    ensures IsDone(Apply(s, a).watch, KeyFor(s.writeCmds[w], side))
  {
    hide LocFor, Request, NetOk, CopiesOk, StaleOk, LogOk, PairsOk, NothingInFlightOn, KeyOf;
    var k := KeyFor(s.writeCmds[w], side);
    assert s.owner[k] == OfWrite(w, side);
    match a
    case IssueWrite(_, _) =>
      FreshKey(s, s.made);
      FreshKey(s, s.made + 1);
    case IssueRead(_, _) =>
      FreshKey(s, s.made);
    case PollWrite(v) =>
      OwnKeysDiffer(s, w, v);
      OwnKeysDiffer(s, v, w);
    case PollRead(r) =>
      assert s.owner[s.readCmds[r].uid] == OfRead(r);
    case _ =>
  }

  /** Over a whole run: a write is reported as successful exactly when one of its polls,
      made while it was pending, found both responses, and no two polls can do so. */
  lemma {:induction false} SuccessIffOnePollFoundBoth(ss: seq<State>, acts: seq<Action>, w: nat, n: nat)
    requires RunFromInit(ss, acts) && n < |ss| && w < |ss[n].writeCmds|
    ensures ss[n].writeCmds[w].outcome == Confirmed <==> exists k :: 0 <= k < n && FoundBoth(ss[k], acts[k], w)
    ensures forall j, k :: 0 <= j < k < n && FoundBoth(ss[j], acts[j], w) ==> !FoundBoth(ss[k], acts[k], w)
  {
    hide Inv, Apply, WellSized, Enabled;
    if n > 0 {
      EveryReachableStateOk(ss, acts, n - 1);
      var s, a, t := ss[n - 1], acts[n - 1], ss[n];
      assert Step(s, a, t);
      if w < |s.writeCmds| {
        SuccessIffOnePollFoundBoth(ss, acts, w, n - 1);
        if s.writeCmds[w].outcome == Pending {
          SuccessStep(s, a, w);
        } else {
          FinishedStays(s, a, w);
        }
      } else {
        NewWriteIsPending(s, a, w);
        forall k | 0 <= k < n
          ensures |ss[k].writeCmds| <= w
        {
          WritesOnlyGrow(ss, acts, k, n - 1);
        }
      }
    }
  }

  ghost predicate FoundBoth(s: State, a: Action, w: nat) {
    a == PollWrite(w) && w < |s.writeCmds| && s.writeCmds[w].outcome == Pending && BothDone(s, w)
  }

  lemma NewWriteIsPending(s: State, a: Action, w: nat)
    requires WellSized(s) && Enabled(s, a) && |s.writeCmds| <= w < |Apply(s, a).writeCmds|
    ensures Apply(s, a).writeCmds[w].outcome == Pending
  {
    hide LocFor, Request, NothingInFlightOn, KeyOf, FitsStore;
  }

  lemma StepGrows(s: State, a: Action)
    requires WellSized(s) && Enabled(s, a)
    ensures |s.writeCmds| <= |Apply(s, a).writeCmds|
  {
  }

  lemma {:induction false} WritesOnlyGrow(ss: seq<State>, acts: seq<Action>, k: nat, n: nat)
    requires Run(ss, acts) && k <= n < |ss|
    ensures |ss[k].writeCmds| <= |ss[n].writeCmds|
    decreases n - k
  {
    hide WellSized, Enabled, Apply;
    if k < n {
      assert Step(ss[k], acts[k], ss[k + 1]);
      StepGrows(ss[k], acts[k]);
      WritesOnlyGrow(ss, acts, k + 1, n);
    }
  }

  /** A poll that finds only one of the two responses throws it away, and the write can
      never be reported as successful afterwards. */
  lemma {:induction false} HalfAnswerIsLost(ss: seq<State>, acts: seq<Action>, w: nat, i: nat, n: nat)
    requires RunFromInit(ss, acts) && i < n < |ss| && acts[i] == PollWrite(w)
    requires w < |ss[i].writeCmds| && IsDone(ss[i].watch, ss[i].writeCmds[w].og) != IsDone(ss[i].watch, ss[i].writeCmds[w].backup)
    ensures w < |ss[n].writeCmds| && ss[n].writeCmds[w].outcome != Confirmed
    ensures ss[n].writeCmds[w].outcome == Pending ==> Spent(ss[n], ss[n].writeCmds[w].og) || Spent(ss[n], ss[n].writeCmds[w].backup)
  {
    hide Inv, Apply, WellSized, Init;
    EveryReachableStateOk(ss, acts, n - 1);
    assert Step(ss[n - 1], acts[n - 1], ss[n]);
    if i == n - 1 {
      SuccessStep(ss[i], acts[i], w);
    } else {
      HalfAnswerIsLost(ss, acts, w, i, n - 1);
      var s, a := ss[n - 1], acts[n - 1];
      WriteStays(s, a, w);
      if s.writeCmds[w].outcome == Pending {
        SuccessStep(s, a, w);
        if Spent(s, s.writeCmds[w].og) {
          SpentStays(s, a, s.writeCmds[w].og);
        } else {
          SpentStays(s, a, s.writeCmds[w].backup);
        }
      } else {
        FinishedStays(s, a, w);
      }
    }
  }

  /** Two responses registered between consecutive polls of a write are both still there
      at the second poll, which then reports success once and removes both keys. */
  lemma BothAnswersBetweenPolls(ss: seq<State>, acts: seq<Action>, w: nat, i: nat, j: nat)
    requires RunFromInit(ss, acts) && i <= j < |acts| && w < |ss[i].writeCmds|
    requires forall k :: i <= k < j ==> acts[k] != PollWrite(w)
    requires acts[j] == PollWrite(w)
    requires forall side :: KeyFor(ss[i].writeCmds[w], side) !in ss[i].registered
    requires forall side :: KeyFor(ss[i].writeCmds[w], side) in ss[j].registered
    ensures w < |ss[j].writeCmds| && ss[j + 1].log == ss[j].log + [WriteSucceeded(w, ss[j].writeCmds[w].off, ss[j].writeCmds[w].data)]
    ensures forall side :: KeyFor(ss[i].writeCmds[w], side) !in ss[j + 1].watch
  {
    EveryReachableStateOk(ss, acts, j);
    assert Step(ss[j], acts[j], ss[j + 1]);
    forall side: Side
      ensures w < |ss[j].writeCmds| && KeyFor(ss[j].writeCmds[w], side) == KeyFor(ss[i].writeCmds[w], side)
      ensures IsDone(ss[j].watch, KeyFor(ss[i].writeCmds[w], side))
    {
      RegisteredStaysDone(ss, acts, w, side, i, j);
    }
    assert ss[j].writeCmds[w].og == KeyFor(ss[i].writeCmds[w], Og) && ss[j].writeCmds[w].backup == KeyFor(ss[i].writeCmds[w], Backup);
    SuccessStep(ss[j], acts[j], w);
  }

  /** A response enters the table as it is registered. */
  lemma RegisteredOrDone(s: State, a: Action, k: Key)
    requires Inv(s) && Enabled(s, a)
    ensures k in Apply(s, a).registered ==> k in s.registered || IsDone(Apply(s, a).watch, k)
  {
    hide LocFor, Request, NothingInFlightOn;
  }

  lemma {:induction false} RegisteredStaysDone(ss: seq<State>, acts: seq<Action>, w: nat, side: Side, i: nat, j: nat)
    requires RunFromInit(ss, acts) && i <= j < |ss| && w < |ss[i].writeCmds|
    requires forall k :: i <= k < j ==> acts[k] != PollWrite(w)
    requires KeyFor(ss[i].writeCmds[w], side) !in ss[i].registered
    ensures w < |ss[j].writeCmds| && KeyFor(ss[j].writeCmds[w], side) == KeyFor(ss[i].writeCmds[w], side)
    ensures KeyFor(ss[i].writeCmds[w], side) in ss[j].registered ==> IsDone(ss[j].watch, KeyFor(ss[i].writeCmds[w], side))
  {
    hide Inv, Apply, Enabled, WellSized, Init;
    if i < j {
      RegisteredStaysDone(ss, acts, w, side, i, j - 1);
      EveryReachableStateOk(ss, acts, j - 1);
      assert Step(ss[j - 1], acts[j - 1], ss[j]);
      var s, a, k := ss[j - 1], acts[j - 1], KeyFor(ss[i].writeCmds[w], side);
      WriteStays(s, a, w);
      RegisteredOrDone(s, a, k);
      if k in s.registered {
        DoneStaysUntilPolled(s, a, w, side);
      }
    }
  }
}
