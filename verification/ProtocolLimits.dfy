/** What the protocol does not guarantee, each with a run that shows it and the exact
    condition under which it does: that a read is answered, and that a write whose two copies
    were both acknowledged is reported as successful. */
module ProtocolLimits {
  import opened Bytes
  import opened ResponseManager
  import opened Protocol
  import opened ProtocolInvariant
  import opened ProtocolRuns

  lemma Extend(ss: seq<State>, acts: seq<Action>, a: Action) returns (ss': seq<State>, acts': seq<Action>)
    requires Run(ss, acts) && WellSized(ss[|acts|]) && Enabled(ss[|acts|], a)
    ensures Run(ss', acts') && acts' == acts + [a] && ss' == ss + [Apply(ss[|acts|], a)]
  {
    hide WellSized, Enabled, Apply;
    ss', acts' := ss + [Apply(ss[|acts|], a)], acts + [a];
    forall k | 0 <= k < |acts'|
      ensures Step(ss'[k], acts'[k], ss'[k + 1])
    {
      if k < |acts| {
        assert Step(ss[k], acts[k], ss[k + 1]);
      }
    }
  }

  // ----- a read is answered -----

  ghost predicate Unanswered(s: State, r: nat) {
    r < |s.readCmds| && !s.readCmds[r].answered
  }

  /** Some datagram of the request is on its way: the request itself or its answer. */
  ghost predicate InFlight(s: State, k: Key) {
    exists p :: p in s.net && p.uid == k
  }

  lemma ReadStays(s: State, a: Action, r: nat)
    requires Inv(s) && Enabled(s, a) && r < |s.readCmds|
    ensures r < |Apply(s, a).readCmds| && Apply(s, a).readCmds[r].uid == s.readCmds[r].uid
  {
    hide LocFor, Request, NetOk, AcksOk, CopiesOk, StaleOk, LogOk, PairsOk, KeysOk, NothingInFlightOn, Splice;
  }

  lemma LostAcrossReceive(s: State, p: Datagram, r: nat)
    requires Inv(s) && Enabled(s, Receive(p)) && Unanswered(s, r) && !InFlight(s, s.readCmds[r].uid)
    ensures Unanswered(Apply(s, Receive(p)), r) && !InFlight(Apply(s, Receive(p)), s.readCmds[r].uid)
  {
    hide LocFor, Request, AcksOk, CopiesOk, StaleOk, LogOk, PairsOk;
    assert DatagramOk(s, p);
    assert p.uid != s.readCmds[r].uid;
  }

  lemma LostAcrossIssue(s: State, a: Action, r: nat)
    requires Inv(s) && Enabled(s, a) && (a.IssueWrite? || a.IssueRead?)
    requires Unanswered(s, r) && !InFlight(s, s.readCmds[r].uid)
    ensures Unanswered(Apply(s, a), r) && !InFlight(Apply(s, a), s.readCmds[r].uid)
  {
    FreshKey(s, s.made);
    if a.IssueWrite? {
      FreshKey(s, s.made + 1);
    }
    assert s.readCmds[r].uid in s.owner;
    hide LocFor, KeyOf, NetOk, AcksOk, CopiesOk, StaleOk, LogOk, PairsOk, NothingInFlightOn, NoConflict;
  }

  lemma LostAcrossStep(s: State, a: Action, r: nat)
    requires Inv(s) && Enabled(s, a) && Unanswered(s, r) && !InFlight(s, s.readCmds[r].uid)
    ensures Unanswered(Apply(s, a), r) && !InFlight(Apply(s, a), s.readCmds[r].uid)
  {
    if a.IssueWrite? || a.IssueRead? {
      LostAcrossIssue(s, a, r);
    } else if a.Receive? {
      LostAcrossReceive(s, a.p, r);
    } else {
      hide LocFor, Request, KeysOk, NetOk, AcksOk, CopiesOk, StaleOk, LogOk, PairsOk, Splice, Range, Poll;
    }
  }

  /** Once no datagram of a read is on its way, it is never answered: nobody sends it again,
      and nobody asks the other copy. */
  lemma {:induction false} LostReadStaysUnanswered(ss: seq<State>, acts: seq<Action>, r: nat, i: nat, n: nat)
    requires Run(ss, acts) && i <= n < |ss| && Inv(ss[i]) && Unanswered(ss[i], r) && !InFlight(ss[i], ss[i].readCmds[r].uid)
    ensures Inv(ss[n]) && Unanswered(ss[n], r) && ss[n].readCmds[r].uid == ss[i].readCmds[r].uid
    ensures !InFlight(ss[n], ss[n].readCmds[r].uid)
  {
    hide Inv, Apply, Enabled, WellSized, Unanswered, InFlight;
    if i < n {
      LostReadStaysUnanswered(ss, acts, r, i, n - 1);
      assert Step(ss[n - 1], acts[n - 1], ss[n]);
      var s, a := ss[n - 1], acts[n - 1];
      EveryActionKeeps(s, a);
      UnansweredExists(s, r);
      LostAcrossStep(s, a, r);
      ReadStays(s, a, r);
    }
  }

  lemma UnansweredExists(s: State, r: nat)
    requires Unanswered(s, r)
    ensures r < |s.readCmds|
  {
  }

  lemma ReceiveAnswers(s: State, r: nat, p: Datagram)
    requires Inv(s) && r < |s.readCmds| && p in s.net && p.ReadAck? && p.uid == s.readCmds[r].uid
    ensures Enabled(s, Receive(p)) && r < |Apply(s, Receive(p)).readCmds| && Apply(s, Receive(p)).readCmds[r].answered
  {
    hide LocFor, Request, AcksOk, CopiesOk, StaleOk, LogOk, PairsOk;
    assert s.owner[s.readCmds[r].uid] == OfRead(r);
  }

  /** While one is, a minion executing it and the master receiving the answer are enough. */
  lemma AnswerInReach(s: State, r: nat, p: Datagram) returns (ss: seq<State>, acts: seq<Action>)
    requires Inv(s) && Unanswered(s, r) && p in s.net && p.uid == s.readCmds[r].uid
    ensures Run(ss, acts) && ss[0] == s && |acts| <= 2
    ensures r < |ss[|acts|].readCmds| && ss[|acts|].readCmds[r].answered
  {
    assert DatagramOk(s, p) && s.owner[p.uid] == OfRead(r);
    hide LocFor, KeysOk, NetOk, AcksOk, CopiesOk, StaleOk, LogOk, PairsOk, DatagramOk;
    ss, acts := [s], [];
    var t, answer := s, p;
    if p.ReadReq? {
      var disk := s.disks[p.to];
      answer := ReadAck(p.uid, disk[p.at..p.at + p.size]);
      t := Apply(s, Execute(p));
      EveryActionKeeps(s, Execute(p));
      ss, acts := Extend(ss, acts, Execute(p));
    }
    ReceiveAnswers(t, r, answer);
    hide Inv, Apply, Enabled;
    ss, acts := Extend(ss, acts, Receive(answer));
  }

  /** Main theorem of availability, for every state of every run: a read that was not
      answered yet can still be answered exactly if its request or its answer is on its way;
      then two more steps can do it. */
  lemma ReadCanBeAnsweredIff(ss: seq<State>, acts: seq<Action>, n: nat, r: nat)
    requires RunFromInit(ss, acts) && n < |ss| && Unanswered(ss[n], r)
    ensures InFlight(ss[n], ss[n].readCmds[r].uid) <==> exists more, acts' :: GetsAnswered(ss[n], r, more, acts')
    ensures InFlight(ss[n], ss[n].readCmds[r].uid) ==> exists more, acts' :: GetsAnswered(ss[n], r, more, acts') && |acts'| <= 2
  {
    EveryReachableStateOk(ss, acts, n);
    hide Inv, Run;
    if InFlight(ss[n], ss[n].readCmds[r].uid) {
      var p :| p in ss[n].net && p.uid == ss[n].readCmds[r].uid;
      var more, acts' := AnswerInReach(ss[n], r, p);
      assert GetsAnswered(ss[n], r, more, acts');
    } else {
      forall more, acts' | GetsAnswered(ss[n], r, more, acts')
        ensures false
      {
        RunLength(more, acts');
        LostReadStaysUnanswered(more, acts', r, 0, |acts'|);
      }
    }
  }

  lemma RunLength(ss: seq<State>, acts: seq<Action>)
    requires Run(ss, acts)
    ensures |ss| == |acts| + 1
  {
  }

  /** A continuation of `s` at whose end read `r` has been answered. */
  ghost predicate GetsAnswered(s: State, r: nat, more: seq<State>, acts: seq<Action>) {
    && Run(more, acts) && more[0] == s
    && r < |more[|acts|].readCmds| && more[|acts|].readCmds[r].answered
  }

  /** One lost datagram is enough, although both copies of the byte are there. */
  lemma OneLossLosesTheRead() returns (ss: seq<State>, acts: seq<Action>)
    ensures RunFromInit(ss, acts) && |acts| == 2 && acts[0] == IssueRead(0, 1) && acts[1].Lose?
    ensures Unanswered(ss[2], 0) && !InFlight(ss[2], ss[2].readCmds[0].uid)
  {
    hide Inv;
    ss, acts := [Init()], [];
    InitHolds();
    InvMeansSized(Init());
    ss, acts := Extend(ss, acts, IssueRead(0, 1));
    EveryActionKeeps(Init(), IssueRead(0, 1));
    var s := ss[1];
    InvMeansSized(s);
    var p := ReadRequest(s.readCmds[0]);
    assert s.net == {p};
    ss, acts := Extend(ss, acts, Lose(p));
  }

  lemma InvMeansSized(s: State)
    requires Inv(s)
    ensures WellSized(s)
  {
  }

  // ----- a doubly acknowledged write is reported as successful -----

  /** At `i` write `w` had just been issued or polled. */
  ghost predicate JustIssuedOrPolled(ss: seq<State>, acts: seq<Action>, w: nat, i: nat)
    requires |ss| == |acts| + 1
  {
    && 0 < i < |ss| && w < |ss[i].writeCmds|
    && (acts[i - 1] == PollWrite(w) || w == |ss[i - 1].writeCmds|)
  }

  /** No poll of `w` between `i` and `j`. */
  ghost predicate NotPolled(acts: seq<Action>, w: nat, i: nat, j: nat) {
    i <= j <= |acts| && forall k :: i <= k < j ==> acts[k] != PollWrite(w)
  }

  /** Every poll follows the issue of its write or an earlier poll. */
  lemma {:induction false} PreviousPoll(ss: seq<State>, acts: seq<Action>, w: nat, j: nat) returns (i: nat)
    requires RunFromInit(ss, acts) && j < |ss| && w < |ss[j].writeCmds|
    ensures i <= j && JustIssuedOrPolled(ss, acts, w, i) && NotPolled(acts, w, i, j)
  {
    hide Apply, Enabled, WellSized;
    if w < |ss[j - 1].writeCmds| && acts[j - 1] != PollWrite(w) {
      i := PreviousPoll(ss, acts, w, j - 1);
    } else {
      assert Step(ss[j - 1], acts[j - 1], ss[j]);
      WritesOnlyGrow(ss, acts, j - 1, j);
      AtMostOneMore(ss[j - 1], acts[j - 1]);
      i := j;
    }
  }

  lemma AtMostOneMore(s: State, a: Action)
    requires WellSized(s) && Enabled(s, a)
    ensures |Apply(s, a).writeCmds| <= |s.writeCmds| + 1
  {
    hide LocFor, Request, NothingInFlightOn, KeyOf, FitsStore;
  }

  /** Right after a write was issued or polled, none of its responses is waiting; one that
      was registered before has been consumed. */
  lemma NothingWaits(ss: seq<State>, acts: seq<Action>, w: nat, i: nat, side: Side)
    requires RunFromInit(ss, acts) && JustIssuedOrPolled(ss, acts, w, i)
    ensures var k := KeyFor(ss[i].writeCmds[w], side); k in ss[i].registered ==> Spent(ss[i], k)
  {
    EveryReachableStateOk(ss, acts, i - 1);
    assert Step(ss[i - 1], acts[i - 1], ss[i]);
    hide Inv, Apply, Enabled, WellSized, Spent;
    if acts[i - 1] == PollWrite(w) {
      PolledMeansAsked(ss[i - 1], w, side);
    } else {
      NewMeansUnregistered(ss[i - 1], acts[i - 1], w, side);
    }
  }

  lemma PolledMeansAsked(s: State, w: nat, side: Side)
    requires Inv(s) && Enabled(s, PollWrite(w))
    ensures var t := Apply(s, PollWrite(w));
            && w < |t.writeCmds|
            && var k := KeyFor(t.writeCmds[w], side); k in t.registered ==> Spent(t, k)
  {
    hide LocFor, Request, NetOk, CopiesOk, StaleOk, LogOk, PairsOk, NothingInFlightOn, Splice, Range;
    OwnKeysDiffer(s, w, w);
  }

  lemma NewMeansUnregistered(s: State, a: Action, w: nat, side: Side)
    requires Inv(s) && Enabled(s, a) && w == |s.writeCmds| < |Apply(s, a).writeCmds|
    ensures KeyFor(Apply(s, a).writeCmds[w], side) !in Apply(s, a).registered
  {
    hide LocFor, KeyOf, NetOk, CopiesOk, StaleOk, LogOk, PairsOk, NothingInFlightOn, NoConflict, FitsStore;
    if a.IssueWrite? {
      FreshKey(s, s.made);
      FreshKey(s, s.made + 1);
    }
  }

  lemma {:induction false} SpentForEver(ss: seq<State>, acts: seq<Action>, k: Key, i: nat, j: nat)
    requires RunFromInit(ss, acts) && i <= j < |ss| && Spent(ss[i], k)
    ensures Spent(ss[j], k)
  {
    hide Inv, Apply, Enabled, WellSized, Init, Spent;
    if i < j {
      SpentForEver(ss, acts, k, i, j - 1);
      EveryReachableStateOk(ss, acts, j - 1);
      assert Step(ss[j - 1], acts[j - 1], ss[j]);
      SpentStays(ss[j - 1], acts[j - 1], k);
    }
  }

  lemma {:induction false} WriteStaysBetween(ss: seq<State>, acts: seq<Action>, w: nat, i: nat, j: nat)
    requires RunFromInit(ss, acts) && i <= j < |ss| && w < |ss[i].writeCmds|
    ensures w < |ss[j].writeCmds| && forall side :: KeyFor(ss[j].writeCmds[w], side) == KeyFor(ss[i].writeCmds[w], side)
  {
    hide Inv, Apply, Enabled, WellSized, Init;
    if i < j {
      WriteStaysBetween(ss, acts, w, i, j - 1);
      EveryReachableStateOk(ss, acts, j - 1);
      assert Step(ss[j - 1], acts[j - 1], ss[j]);
      WriteStays(ss[j - 1], acts[j - 1], w);
    }
  }

  /** The response on this side was registered between `i` and `j`. */
  ghost predicate RegisteredBetween(ss: seq<State>, w: nat, side: Side, i: nat, j: nat)
    requires i < |ss| && j < |ss| && w < |ss[i].writeCmds|
  {
    KeyFor(ss[i].writeCmds[w], side) !in ss[i].registered && KeyFor(ss[i].writeCmds[w], side) in ss[j].registered
  }

  /** A response is waiting for a poll exactly if it was registered since the previous poll
      of its write, or since its issue. */
  lemma WaitsIffRegisteredSince(ss: seq<State>, acts: seq<Action>, w: nat, side: Side, i: nat, j: nat)
    requires RunFromInit(ss, acts) && i <= j < |ss| && JustIssuedOrPolled(ss, acts, w, i) && NotPolled(acts, w, i, j)
    ensures w < |ss[j].writeCmds|
    ensures IsDone(ss[j].watch, KeyFor(ss[j].writeCmds[w], side)) <==> RegisteredBetween(ss, w, side, i, j)
  {
    hide RunFromInit, IsDone;
    var k := KeyFor(ss[i].writeCmds[w], side);
    WriteStaysBetween(ss, acts, w, i, j);
    NothingWaits(ss, acts, w, i, side);
    DoneMeansRegistered(ss, acts, j, k);
    if k in ss[i].registered {
      SpentForEver(ss, acts, k, i, j);
    } else {
      RegisteredStaysDone(ss, acts, w, side, i, j);
    }
  }

  lemma DoneMeansRegistered(ss: seq<State>, acts: seq<Action>, j: nat, k: Key)
    requires RunFromInit(ss, acts) && j < |ss|
    ensures IsDone(ss[j].watch, k) ==> k in ss[j].registered
  {
    EveryReachableStateOk(ss, acts, j);
    hide KeysOk, NetOk, PairsOk, CopiesOk, StaleOk, LogOk, WellSized, Run;
  }

  /** Main theorem of success: a poll of a write that is still pending reports success
      exactly if both responses were registered since the previous poll of that write, or,
      at its first poll, since its issue. */
  lemma SuccessIffBothSincePreviousPoll(ss: seq<State>, acts: seq<Action>, w: nat, i: nat, j: nat)
    requires RunFromInit(ss, acts) && i <= j < |acts| && JustIssuedOrPolled(ss, acts, w, i) && NotPolled(acts, w, i, j)
    requires acts[j] == PollWrite(w)
    ensures w < |ss[j].writeCmds| && ss[j].writeCmds[w].outcome == Pending && w < |ss[j + 1].writeCmds|
    ensures ss[j + 1].writeCmds[w].outcome == Confirmed <==> forall side :: RegisteredBetween(ss, w, side, i, j)
  {
    WaitsIffRegisteredSince(ss, acts, w, Og, i, j);
    WaitsIffRegisteredSince(ss, acts, w, Backup, i, j);
    EveryReachableStateOk(ss, acts, j);
    assert Step(ss[j], acts[j], ss[j + 1]);
    hide Inv, Apply, RegisteredBetween, IsDone, WellSized;
    SuccessStep(ss[j], acts[j], w);
  }

  // -- both copies acknowledged, and no success --

  const OG: Key := 1
  const BACKUP: Key := 2

  /** What matters of the states of the run below; `missed` polls found no backup answer. */
  ghost predicate Stage(s: State, net: set<Datagram>, watch: Watchlist, registered: set<Key>, missed: nat) {
    && Inv(s) && |s.writeCmds| == 1 && s.writeCmds[0].outcome == Pending
    && s.writeCmds[0].og == OG && s.writeCmds[0].backup == BACKUP
    && s.net == net && s.watch == watch && s.registered == registered && s.counters == Counters(0, missed)
  }

  lemma Issued(data: seq<byte>)
    requires data == [7]
    ensures Enabled(Init(), IssueWrite(0, data)) && WellSized(Init())
    ensures var s := Apply(Init(), IssueWrite(0, data));
            Stage(s, {Request(s.writeCmds[0], Og), Request(s.writeCmds[0], Backup)}, map[OG := Processing, BACKUP := Processing], {}, 0)
  {
    InitHolds();
    EveryActionKeeps(Init(), IssueWrite(0, data));
    assert KeyOf(0) == 1 && KeyOf(1) == 2;
    hide Inv, LocFor;
  }

  lemma Executed(s: State, p: Datagram, net: set<Datagram>, watch: Watchlist, registered: set<Key>, missed: nat)
    requires Stage(s, net, watch, registered, missed) && p in net && p.WriteReq?
    ensures WellSized(s) && Enabled(s, Execute(p))
    ensures Stage(Apply(s, Execute(p)), net - {p} + {WriteAck(p.uid)}, watch, registered, missed)
  {
    EveryActionKeeps(s, Execute(p));
    InvMeansSized(s);
    hide Inv, Splice;
  }

  lemma Received(s: State, p: Datagram, net: set<Datagram>, watch: Watchlist, registered: set<Key>, missed: nat)
    requires Stage(s, net, watch, registered, missed) && p in net && p.WriteAck?
    ensures WellSized(s) && Enabled(s, Receive(p))
    ensures Stage(Apply(s, Receive(p)), net - {p}, watch[p.uid := Done], registered + {p.uid}, missed)
  {
    EveryActionKeeps(s, Receive(p));
    InvMeansSized(s);
    hide Inv;
  }

  lemma PolledHalf(s: State, net: set<Datagram>, registered: set<Key>)
    requires Stage(s, net, map[OG := Done, BACKUP := Processing], registered, 0)
    ensures WellSized(s) && Enabled(s, PollWrite(0))
    ensures Stage(Apply(s, PollWrite(0)), net, map[BACKUP := Processing], registered, 1)
  {
    EveryActionKeeps(s, PollWrite(0));
    InvMeansSized(s);
    hide Inv;
    assert Asked(s.watch, OG) == map[BACKUP := Processing];
    assert Asked(Asked(s.watch, OG), BACKUP) == map[BACKUP := Processing];
  }

  /** The first four steps: the first answer arrives before a poll, which throws it away. */
  lemma FirstAnswerThrownAway() returns (ss: seq<State>, acts: seq<Action>, second: Datagram)
    ensures RunFromInit(ss, acts) && |acts| == 4 && acts[3] == PollWrite(0)
    ensures |ss[3].writeCmds| == 1 && ss[3].writeCmds[0].og == OG && ss[3].writeCmds[0].backup == BACKUP
    ensures IsDone(ss[3].watch, OG) && !IsDone(ss[3].watch, BACKUP)
    ensures second.WriteReq? && second.uid == BACKUP && Stage(ss[4], {second}, map[BACKUP := Processing], {OG}, 1)
  {
    hide Inv, Apply, Enabled, WellSized;
    Issued([7]);
    ss, acts := [Init()], [];
    ss, acts := Extend(ss, acts, IssueWrite(0, [7]));
    var first;
    first, second := Request(ss[1].writeCmds[0], Og), Request(ss[1].writeCmds[0], Backup);
    Executed(ss[1], first, {first, second}, map[OG := Processing, BACKUP := Processing], {}, 0);
    ss, acts := Extend(ss, acts, Execute(first));
    assert {first, second} - {first} + {WriteAck(OG)} == {WriteAck(OG), second};
    Received(ss[2], WriteAck(OG), {WriteAck(OG), second}, map[OG := Processing, BACKUP := Processing], {}, 0);
    ss, acts := Extend(ss, acts, Receive(WriteAck(OG)));
    assert {WriteAck(OG), second} - {WriteAck(OG)} == {second};
    assert map[OG := Processing, BACKUP := Processing][OG := Done] == map[OG := Done, BACKUP := Processing];
    PolledHalf(ss[3], {second}, {OG});
    ss, acts := Extend(ss, acts, PollWrite(0));
  }

  ghost predicate Continues(ss: seq<State>, acts: seq<Action>, longer: seq<State>, more: seq<Action>) {
    RunFromInit(longer, more) && ss <= longer && acts <= more
  }

  /** A run in which both minions apply a write and both answers are registered while it is
      pending, and yet no continuation ever reports it as successful. */
  lemma BothAnswersInVain() returns (ss: seq<State>, acts: seq<Action>)
    ensures RunFromInit(ss, acts) && |acts| == 6 && |ss[6].writeCmds| == 1 && ss[6].writeCmds[0].outcome == Pending
    ensures forall side :: KeyFor(ss[6].writeCmds[0], side) in ss[6].registered && Applied(ss[6], 0, side)
    ensures forall longer: seq<State>, more: seq<Action>, n: nat :: Continues(ss, acts, longer, more) && 6 <= n < |longer| ==>
              |longer[n].writeCmds| > 0 && longer[n].writeCmds[0].outcome != Confirmed
  {
    hide Inv, Apply, Enabled, WellSized, Applied;
    var second;
    ss, acts, second := FirstAnswerThrownAway();
    Executed(ss[4], second, {second}, map[BACKUP := Processing], {OG}, 1);
    ss, acts := Extend(ss, acts, Execute(second));
    assert {second} - {second} + {WriteAck(BACKUP)} == {WriteAck(BACKUP)};
    Received(ss[5], WriteAck(BACKUP), {WriteAck(BACKUP)}, map[BACKUP := Processing], {OG}, 1);
    ss, acts := Extend(ss, acts, Receive(WriteAck(BACKUP)));
    forall side
      ensures KeyFor(ss[6].writeCmds[0], side) in ss[6].registered && Applied(ss[6], 0, side)
    {
      RegisteredMeansApplied(ss[6], side);
    }
    forall longer: seq<State>, more: seq<Action>, n: nat | Continues(ss, acts, longer, more) && 6 <= n < |longer|
      ensures |longer[n].writeCmds| > 0 && longer[n].writeCmds[0].outcome != Confirmed
    {
      assert longer[3] == ss[3] && more[3] == acts[3];
      HalfAnswerIsLost(longer, more, 0, 3, n);
    }
  }

  lemma RegisteredMeansApplied(s: State, side: Side)
    requires Inv(s) && |s.writeCmds| == 1 && KeyFor(s.writeCmds[0], side) in s.registered
    ensures Applied(s, 0, side)
  {
    hide NetOk, PairsOk, CopiesOk, StaleOk, LogOk, WellSized, Request;
  }
}
