/** The processes of the running system, the master and the minions, as objects. Each of
    their methods performs exactly one action of the protocol. */
module Processes {
  import opened Bytes
  import opened Options
  import opened Raid
  import opened ResponseManager
  import opened Protocol
  import opened ProtocolInvariant
  import ProtocolRuns

  /** A minion's store: an 8 MB file that the first command to touch it fills with zeros. */
  class Minion {
    const disk: array<byte>
    var isInit: bool

    /** The bytes a command finds. */
    function Store(): (r: seq<byte>)
      reads this, disk
      ensures |r| == disk.Length
    {
      if isInit then seq(disk.Length, _ => 0) else disk[..]
    }

    constructor ()
      ensures fresh(disk) && disk.Length == DISK && Store() == seq(DISK, _ => 0)
    {
      disk := new byte[DISK];
      isInit := true;
    }

    method GetBinFile()
      modifies this, disk
      ensures !isInit && Store() == old(Store())
    {
      if isInit {
        var i := 0;
        while i < disk.Length
          invariant 0 <= i <= disk.Length
          invariant forall k :: 0 <= k < i ==> disk[k] == 0
          modifies disk
        {
          disk[i] := 0;
          i := i + 1;
        }
        isInit := false;
      }
    }

    method Write(at: nat, data: seq<byte>)
      requires at + |data| <= disk.Length
      modifies this, disk
      ensures Store() == Splice(old(Store()), at, data)
    {
      GetBinFile();
      ghost var was := disk[..];
      var i := 0;
      while i < |data|
        invariant 0 <= i <= |data|
        invariant disk[..] == Splice(was, at, data[..i])
        modifies disk
      {
        disk[at + i] := data[i];
        i := i + 1;
      }
    }

    method Read(at: nat, size: nat) returns (bytes: seq<byte>)
      requires at + size <= disk.Length
      modifies this, disk
      ensures bytes == old(Store())[at..at + size] && Store() == old(Store())
    {
      GetBinFile();
      bytes := disk[at..at + size];
    }

    /** MinionWriteCmd::Execute and MinionReadCmd::Execute: what this minion, being `p.to`
        in the cluster `s`, stores and answers. */
    method Execute(p: Datagram, ghost s: State) returns (answer: Datagram)
      requires (p.WriteReq? || p.ReadReq?) && FitsStore(s, p) && Store() == s.disks[p.to]
      modifies this, disk
      ensures var t := ApplyExecute(s, p);
              && t.disks == s.disks[p.to := Store()] && t.net == s.net - {p} + {answer}
      ensures p.WriteReq? ==> Store() == Splice(old(Store()), p.at, p.data) && answer == WriteAck(p.uid)
      ensures p.ReadReq? ==> Store() == old(Store()) && answer == ReadAck(p.uid, old(Store())[p.at..p.at + p.size])
    {
      if p.WriteReq? {
        Write(p.at, p.data);
        answer := WriteAck(p.uid);
      } else {
        var bytes := Read(p.at, p.size);
        answer := ReadAck(p.uid, bytes);
      }
    }
  }

  /** The polling functions a command hands to the scheduler. */
  datatype WriteAIFunc = WriteAIFunc(og: Key, backup: Key)
  datatype ReadAIFunc = ReadAIFunc(uid: Key)

  /** The master process. `history` is the protocol state it takes part in; its own
      objects hold the part of that state the code reads. */
  class Master {
    const uids: UidCounter
    const manager: ResponseManager
    const poller: WritePoller
    ghost var history: State

    ghost predicate Valid()
      reads this, uids, manager, poller
    {
      && manager.uids == uids && uids.Valid()
      && history.made == uids.made && history.watch == manager.watch
      && history.counters == Counters(poller.ogCounter, poller.backupCounter)
      && Inv(history)
    }

    constructor ()
      ensures Valid() && history == Init()
      ensures fresh(uids) && fresh(manager) && fresh(poller)
    {
      var u := new UidCounter();
      uids := u;
      manager := new ResponseManager(u);
      poller := new WritePoller();
      history := Init();
      new;
      InitHolds();
    }

    /** WriteCommand::Execute: two datagrams, and the function that polls for both answers. */
    method WriteCommand(off: nat, data: seq<byte>) returns (sent: set<Datagram>, ai: WriteAIFunc)
      requires Valid() && Enabled(history, IssueWrite(off, data))
      modifies this`history, uids, manager
      ensures Valid() && history == Apply(old(history), IssueWrite(off, data))
      ensures history.net == old(history.net) + sent && ai.og != ai.backup
      ensures sent == {WriteReq(off / STRIPE, off % STRIPE, data, ai.og),
                       WriteReq((off / STRIPE + 1) % 3, off % STRIPE + STRIPE, data, ai.backup)}
      ensures var w := |old(history.writeCmds)|; ai == WriteAIFunc(history.writeCmds[w].og, history.writeCmds[w].backup)
    {
      hide KeysOk, NetOk, AcksOk, PairsOk, CopiesOk, StaleOk, LogOk;
      EveryActionKeeps(history, IssueWrite(off, data));
      KeysRepeatEvery32Bits(uids.made, uids.made + 1);
      var locs := OffsetToProxy(off);
      var og := manager.RegisterCommand();
      var backup := manager.RegisterCommand();
      sent := {WriteReq(locs[0].minion, locs[0].at, data, og)};
      sent := sent + {WriteReq(locs[1].minion, locs[1].at, data, backup)};
      ai := WriteAIFunc(og, backup);
      history := Apply(history, IssueWrite(off, data));
    }

    /** ReadCommand::Execute: one datagram, to the primary copy only. */
    method ReadCommand(off: nat, size: nat) returns (sent: set<Datagram>, ai: ReadAIFunc)
      requires Valid() && Enabled(history, IssueRead(off, size))
      modifies this`history, uids, manager
      ensures Valid() && history == Apply(old(history), IssueRead(off, size))
      ensures history.net == old(history.net) + sent
      ensures sent == {ReadReq(off / STRIPE, off % STRIPE, size, ai.uid)}
      ensures ai == ReadAIFunc(history.readCmds[|old(history.readCmds)|].uid)
    {
      hide KeysOk, NetOk, AcksOk, PairsOk, CopiesOk, StaleOk, LogOk;
      EveryActionKeeps(history, IssueRead(off, size));
      var loc := OffsetToProxy(off)[0];
      var uid := manager.RegisterCommand();
      sent := {ReadReq(loc.minion, loc.at, size, uid)};
      ai := ReadAIFunc(uid);
      history := Apply(history, IssueRead(off, size));
    }

    /** The identifier a message other than these two requests is constructed with. */
    method OtherMessage() returns (uid: Key)
      requires Valid() && Enabled(history, OtherUid)
      modifies this`history, uids
      ensures Valid() && history == Apply(old(history), OtherUid) && uid !in history.owner
    {
      hide NetOk, AcksOk, PairsOk, CopiesOk, StaleOk, LogOk;
      EveryActionKeeps(history, OtherUid);
      FreshKey(history, history.made);
      uid := uids.Construct();
      history := Apply(history, OtherUid);
    }

    /** ResponseProxy::GetArgsKey: an answer to a read is passed on as it arrives. */
    method ReceiveResponse(p: Datagram) returns (reply: Option<seq<byte>>)
      requires Valid() && Enabled(history, Receive(p))
      modifies this`history, manager
      ensures Valid() && history == Apply(old(history), Receive(p))
      ensures manager.watch == old(manager.watch)[p.uid := Done] && reply == (if p.ReadAck? then Some(p.bytes) else None)
      ensures reply.None? ==> history.log == old(history.log)
      ensures reply.Some? ==> |history.log| == |old(history.log)| + 1 && history.log[..|old(history.log)|] == old(history.log)
      ensures reply.Some? ==> var last := history.log[|old(history.log)|]; last.ReadReturned? && last.bytes == reply.value
    {
      assert DatagramOk(history, p);
      EveryActionKeeps(history, Receive(p));
      manager.RegisterResponse(p.uid);
      reply := if p.ReadAck? then Some(p.bytes) else None;
      history := Apply(history, Receive(p));
    }

    /** WriteAIFunc::operator(): false asks to be polled again; a verdict is the one reply
        to the kernel side. */
    method PollOneWrite(ai: WriteAIFunc, ghost w: nat) returns (finished: bool, verdict: Verdict)
      requires Valid() && Enabled(history, PollWrite(w))
      requires ai == WriteAIFunc(history.writeCmds[w].og, history.writeCmds[w].backup)
      modifies this`history, manager, poller
      ensures Valid() && history == Apply(old(history), PollWrite(w))
      ensures finished <==> history.writeCmds[w].outcome != Pending
      ensures finished <==> |history.log| == |old(history.log)| + 1
      ensures verdict == Success <==> history.writeCmds[w].outcome == Confirmed
      ensures var noOg, noBackup := !old(IsDone(manager.watch, ai.og)), !old(IsDone(manager.watch, ai.backup));
              && (verdict == Success <==> !noOg && !noBackup)
              && (verdict == GaveUpOg <==> noOg && old(poller.ogCounter) == 49)
              && (verdict == GaveUpBackup <==> noBackup && old(poller.backupCounter) == 49 && !(noOg && old(poller.ogCounter) == 49))
      ensures var x := old(history.writeCmds)[w];
              && (verdict == Success ==> history.log == old(history.log) + [WriteSucceeded(w, x.off, x.data)])
              && (verdict == GaveUpOg || verdict == GaveUpBackup ==>
                    history.log == old(history.log) + [WriteFailed(w, x.off, |x.data|, verdict)])
    {
      ProtocolRuns.OwnKeysDiffer(history, w, w);
      PollDecides(manager.watch, history.counters, ai.og, ai.backup);
      hide KeysOk, NetOk, AcksOk, PairsOk, CopiesOk, StaleOk, LogOk;
      EveryActionKeeps(history, PollWrite(w));
      InStripeFits(history.writeCmds[w].off, |history.writeCmds[w].data|);
      verdict := poller.Run(manager, ai.og, ai.backup);
      finished := verdict != Again;
      history := Apply(history, PollWrite(w));
    }

    /** ReadAIFunc::operator(). */
    method PollOneRead(ai: ReadAIFunc, ghost r: nat) returns (finished: bool)
      requires Valid() && Enabled(history, PollRead(r)) && ai == ReadAIFunc(history.readCmds[r].uid)
      modifies this`history, manager
      ensures Valid() && history == Apply(old(history), PollRead(r))
      ensures finished == history.readCmds[r].polled && history.log == old(history.log)
      ensures finished == old(IsDone(manager.watch, ai.uid))
    {
      hide KeysOk, NetOk, AcksOk, PairsOk, CopiesOk, StaleOk, LogOk;
      EveryActionKeeps(history, PollRead(r));
      finished := manager.HasResponseReceived(ai.uid);
      history := Apply(history, PollRead(r));
    }
  }
}
