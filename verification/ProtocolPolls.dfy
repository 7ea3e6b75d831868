/** What the polls of a whole run amount to: what the shared counters of the write polls have
    counted, and when the polling of a read ends. */
module ProtocolPolls {
  import opened ResponseManager
  import opened Protocol
  import opened ProtocolInvariant
  import opened ProtocolRuns

  // ----- the shared counters -----

  /** The first `n` steps' polls of any write, since the last one that gave a write up, that
      did not succeed and did not find the response of this side. */
  ghost function Misses(ss: seq<State>, acts: seq<Action>, side: Side, n: nat): nat
    requires |ss| == |acts| + 1 && n <= |acts|
  {
    if n == 0 then 0
    else
      var before := Misses(ss, acts, side, n - 1);
      if !acts[n - 1].PollWrite? then before
      else if GivesUp(ss[n - 1], ss[n], acts[n - 1].w) then 0
      else if MissesSide(ss[n - 1], acts[n - 1].w, side) && !Succeeds(ss[n - 1], ss[n], acts[n - 1].w) then before + 1
      else before
  }

  ghost predicate GivesUp(s: State, t: State, w: nat) {
    w < |s.writeCmds| && w < |t.writeCmds| && s.writeCmds[w].outcome == Pending && t.writeCmds[w].outcome == GivenUp
  }

  ghost predicate Succeeds(s: State, t: State, w: nat) {
    w < |s.writeCmds| && w < |t.writeCmds| && s.writeCmds[w].outcome == Pending && t.writeCmds[w].outcome == Confirmed
  }

  ghost predicate MissesSide(s: State, w: nat, side: Side) {
    w < |s.writeCmds| && !IsDone(s.watch, KeyFor(s.writeCmds[w], side))
  }

  lemma PollChanges(s: State, w: nat)
    requires Inv(s) && Enabled(s, PollWrite(w))
    ensures var t := Apply(s, PollWrite(w));
            && (GivesUp(s, t, w) ==> t.counters == Counters(0, 0))
            && (!GivesUp(s, t, w) ==>
                  && t.counters.og == s.counters.og + (if MissesSide(s, w, Og) && !Succeeds(s, t, w) then 1 else 0)
                  && t.counters.backup == s.counters.backup + (if MissesSide(s, w, Backup) && !Succeeds(s, t, w) then 1 else 0))
  {
    OwnKeysDiffer(s, w, w);
    PollDecides(s.watch, s.counters, s.writeCmds[w].og, s.writeCmds[w].backup);
    PollCounts(s.watch, s.counters, s.writeCmds[w].og, s.writeCmds[w].backup);
    hide LocFor, Request, KeysOk, NetOk, AcksOk, CopiesOk, StaleOk, LogOk, PairsOk, Poll, Range;
  }

  lemma OthersDoNotCount(s: State, a: Action)
    requires WellSized(s) && Enabled(s, a) && !a.PollWrite?
    ensures Apply(s, a).counters == s.counters
  {
    hide LocFor, Request, NothingInFlightOn, KeyOf, FitsStore, NoConflict;
  }

  /** Main theorem of the retry budget: over every run, each of the two shared counters is the
      number of unsuccessful polls, of any writes, that did not find that side, since a write
      was last given up; and stays below 50. */
  lemma {:induction false} CountersCountMisses(ss: seq<State>, acts: seq<Action>, n: nat)
    requires RunFromInit(ss, acts) && n < |ss|
    ensures ss[n].counters.og == Misses(ss, acts, Og, n) < 50
    ensures ss[n].counters.backup == Misses(ss, acts, Backup, n) < 50
  {
    hide Inv, Apply, Enabled, WellSized, GivesUp, Succeeds, MissesSide, Init, KeyFor, IsDone;
    EveryReachableStateOk(ss, acts, n);
    InvMeansInRange(ss[n]);
    if n == 0 {
      NothingCounted();
    } else {
      CountersCountMisses(ss, acts, n - 1);
      EveryReachableStateOk(ss, acts, n - 1);
      assert Step(ss[n - 1], acts[n - 1], ss[n]);
      CountsOn(ss, acts, n);
    }
  }

  lemma NothingCounted()
    ensures Init().counters == Counters(0, 0)
  {
  }

  lemma CountsOn(ss: seq<State>, acts: seq<Action>, n: nat)
    requires |ss| == |acts| + 1 && 0 < n <= |acts| && Inv(ss[n - 1]) && Step(ss[n - 1], acts[n - 1], ss[n])
    requires ss[n - 1].counters == Counters(Misses(ss, acts, Og, n - 1), Misses(ss, acts, Backup, n - 1))
    ensures ss[n].counters == Counters(Misses(ss, acts, Og, n), Misses(ss, acts, Backup, n))
  {
    var s, a := ss[n - 1], acts[n - 1];
    MissesStep(ss, acts, Og, n);
    MissesStep(ss, acts, Backup, n);
    hide Inv, Apply, Enabled, WellSized, GivesUp, Succeeds, MissesSide, Misses;
    if a.PollWrite? {
      PollChanges(s, a.w);
    } else {
      OthersDoNotCount(s, a);
    }
  }

  lemma MissesStep(ss: seq<State>, acts: seq<Action>, side: Side, n: nat)
    requires |ss| == |acts| + 1 && 0 < n <= |acts|
    ensures var a, s, t, before := acts[n - 1], ss[n - 1], ss[n], Misses(ss, acts, side, n - 1);
            Misses(ss, acts, side, n)
            == if !a.PollWrite? then before
               else if GivesUp(s, t, a.w) then 0
               else before + if MissesSide(s, a.w, side) && !Succeeds(s, t, a.w) then 1 else 0
  {
    hide GivesUp, Succeeds, MissesSide;
  }

  lemma InvMeansInRange(s: State)
    requires Inv(s)
    ensures s.counters.og < 50 && s.counters.backup < 50
  {
  }

  // ----- polling a read -----

  /** A read's response goes from awaited to waiting in the table to consumed, and the read has
      finished polling exactly when it is consumed. */
  ghost predicate ReadPollOk(s: State, r: nat)
    requires r < |s.readCmds|
  {
    var x := s.readCmds[r];
    if x.uid !in s.registered then !x.polled && x.uid in s.watch && s.watch[x.uid] == Processing
    else if x.polled then x.uid !in s.watch
    else IsDone(s.watch, x.uid)
  }

  lemma ReceiveKeepsReads(s: State, p: Datagram, r: nat)
    requires Inv(s) && Enabled(s, Receive(p)) && r < |s.readCmds| && ReadPollOk(s, r)
    ensures r < |Apply(s, Receive(p)).readCmds| && ReadPollOk(Apply(s, Receive(p)), r)
  {
    hide LocFor, Request, CopiesOk, StaleOk, LogOk, PairsOk;
    assert DatagramOk(s, p);
    assert s.owner[s.readCmds[r].uid] == OfRead(r);
  }

  lemma IssueKeepsReads(s: State, a: Action, r: nat)
    requires Inv(s) && Enabled(s, a) && (a.IssueWrite? || a.IssueRead?)
    requires r < |s.readCmds| ==> ReadPollOk(s, r)
    requires r < |Apply(s, a).readCmds|
    ensures ReadPollOk(Apply(s, a), r)
  {
    FreshKey(s, s.made);
    if a.IssueWrite? {
      FreshKey(s, s.made + 1);
    }
    assert r < |s.readCmds| ==> s.readCmds[r].uid in s.owner;
    hide LocFor, KeyOf, NetOk, CopiesOk, StaleOk, LogOk, PairsOk, NothingInFlightOn, NoConflict, Request;
  }

  lemma PollWriteKeepsReads(s: State, w: nat, r: nat)
    requires Inv(s) && Enabled(s, PollWrite(w)) && r < |s.readCmds| && ReadPollOk(s, r)
    ensures r < |Apply(s, PollWrite(w)).readCmds| && ReadPollOk(Apply(s, PollWrite(w)), r)
  {
    assert s.owner[s.readCmds[r].uid] == OfRead(r);
    assert s.owner[KeyFor(s.writeCmds[w], Og)] == OfWrite(w, Og) && s.owner[KeyFor(s.writeCmds[w], Backup)] == OfWrite(w, Backup);
    hide LocFor, Request, NetOk, AcksOk, CopiesOk, StaleOk, LogOk, PairsOk, KeysOk, Range;
  }

  lemma PollReadKeepsReads(s: State, v: nat, r: nat)
    requires Inv(s) && Enabled(s, PollRead(v)) && r < |s.readCmds| && ReadPollOk(s, r)
    ensures r < |Apply(s, PollRead(v)).readCmds| && ReadPollOk(Apply(s, PollRead(v)), r)
  {
    assert s.owner[s.readCmds[r].uid] == OfRead(r) && s.owner[s.readCmds[v].uid] == OfRead(v);
    hide LocFor, Request, NetOk, AcksOk, CopiesOk, StaleOk, LogOk, PairsOk, KeysOk;
  }

  lemma StepKeepsReads(s: State, a: Action, r: nat)
    requires Inv(s) && Enabled(s, a) && (r < |s.readCmds| ==> ReadPollOk(s, r)) && r < |Apply(s, a).readCmds|
    ensures ReadPollOk(Apply(s, a), r)
  {
    match a
    case IssueWrite(_, _) => IssueKeepsReads(s, a, r);
    case IssueRead(_, _) => IssueKeepsReads(s, a, r);
    case Receive(p) => OnlyIssuesAdd(s, a); ReceiveKeepsReads(s, p, r);
    case PollWrite(w) => OnlyIssuesAdd(s, a); PollWriteKeepsReads(s, w, r);
    case PollRead(v) => OnlyIssuesAdd(s, a); PollReadKeepsReads(s, v, r);
    case _ => hide Inv, LocFor, FitsStore;
  }

  lemma OnlyIssuesAdd(s: State, a: Action)
    requires WellSized(s) && Enabled(s, a) && !a.IssueRead?
    ensures |Apply(s, a).readCmds| == |s.readCmds|
  {
    hide LocFor, Request, NothingInFlightOn, KeyOf, FitsStore, NoConflict;
  }

  lemma {:induction false} ReadsPollInEveryRun(ss: seq<State>, acts: seq<Action>, n: nat, r: nat)
    requires RunFromInit(ss, acts) && n < |ss| && r < |ss[n].readCmds|
    ensures ReadPollOk(ss[n], r)
  {
    hide Inv, Apply, Enabled, WellSized, ReadPollOk;
    if n > 0 {
      EveryReachableStateOk(ss, acts, n - 1);
      assert Step(ss[n - 1], acts[n - 1], ss[n]);
      if r < |ss[n - 1].readCmds| {
        ReadsPollInEveryRun(ss, acts, n - 1, r);
      }
      StepKeepsReads(ss[n - 1], acts[n - 1], r);
    }
  }

  /** Main theorem of polling a read, over every run: its polling has ended exactly if its
      response was registered and is no longer in the table. */
  lemma ReadPollingEndedIff(ss: seq<State>, acts: seq<Action>, n: nat, r: nat)
    requires RunFromInit(ss, acts) && n < |ss| && r < |ss[n].readCmds|
    ensures var uid := ss[n].readCmds[r].uid;
            ss[n].readCmds[r].polled <==> uid in ss[n].registered && uid !in ss[n].watch
  {
    ReadsPollInEveryRun(ss, acts, n, r);
  }

  /** So it ends exactly at the first poll after the response was registered. */
  lemma ReadPollEndsItIff(ss: seq<State>, acts: seq<Action>, j: nat, r: nat)
    requires RunFromInit(ss, acts) && j < |acts| && acts[j] == PollRead(r)
    ensures r < |ss[j].readCmds| && r < |ss[j + 1].readCmds|
    ensures ss[j + 1].readCmds[r].polled <==> ss[j].readCmds[r].uid in ss[j].registered
  {
    EveryReachableStateOk(ss, acts, j);
    assert Step(ss[j], acts[j], ss[j + 1]);
    ReadsPollInEveryRun(ss, acts, j, r);
    ReadsPollInEveryRun(ss, acts, j + 1, r);
    hide Inv, LocFor;
  }
}
