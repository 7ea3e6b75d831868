/** Request identifiers, the table of awaited responses, and the poll that decides a
    write: src/response_manger.cpp, the counter of src/message.cpp, and WriteAIFunc of
    src/command.cpp. */
module ResponseManager {
  /** A u_int32_t. */
  type Key = k: int | 0 <= k < 0x1_0000_0000

  const WRAP := 0x1_0000_0000

  /** The counter value the n-th ThreadSafeUID ever constructed (from 0) receives. */
  function KeyOf(n: nat): Key {
    (1 + n) % WRAP
  }

  /** The first construction that receives `k`. */
  function IndexOf(k: Key): (n: nat)
    ensures n < WRAP
  {
    if k == 0 then WRAP - 1 else k - 1
  }

  /** Two constructions share an identifier exactly when a multiple of 2^32 of them lies
      between the two. */
  lemma KeysRepeatEvery32Bits(m: nat, n: nat)
    ensures KeyOf(m) == KeyOf(n) <==> (m as int - n as int) % WRAP == 0
    ensures m < WRAP ==> IndexOf(KeyOf(m)) == m
    ensures m < WRAP && n < WRAP && KeyOf(m) == KeyOf(n) ==> m == n
  {
    var p, q, r := (1 + m) / WRAP, (1 + n) / WRAP, (m as int - n as int) / WRAP;
    assert 1 + m == WRAP * p + KeyOf(m) && 1 + n == WRAP * q + KeyOf(n);
    assert m - n == WRAP * r + (m as int - n as int) % WRAP;
  }

  lemma NextKey(n: nat)
    ensures KeyOf(n + 1) == if KeyOf(n) == WRAP - 1 then 0 else KeyOf(n) + 1
  {
  }

  /** ThreadSafeUID::m_static_counter: a 32-bit signed atomic, starting at 1 and read
      back as unsigned. `made` counts the constructions. */
  class UidCounter {
    var counter: int
    ghost var made: nat

    ghost predicate Valid()
      reads this
    {
      && -0x8000_0000 <= counter < 0x8000_0000
      && KeyOf(made) == (if counter < 0 then counter + WRAP else counter)
    }

    constructor ()
      ensures Valid() && made == 0 && counter == 1
    {
      counter, made := 1, 0;
    }

    /** The default constructor of ThreadSafeUID. */
    method Construct() returns (k: Key)
      requires Valid()
      modifies this
      ensures Valid() && made == old(made) + 1 && k == KeyOf(old(made))
      ensures k == if old(counter) < 0 then old(counter) + 0x1_0000_0000 else old(counter)
    {
      k := if counter < 0 then counter + WRAP else counter;
      NextKey(made);
      counter := if counter == 0x7FFF_FFFF then -0x8000_0000 else counter + 1;
      made := made + 1;
    }
  }

  datatype Status = Processing | Done
  type Watchlist = map<Key, Status>

  predicate IsDone(watch: Watchlist, k: Key) {
    k in watch && watch[k] == Done
  }

  /** What asking for a response leaves behind: a Done entry is consumed, and any other
      key, present or not, ends up as Processing. */
  function Asked(watch: Watchlist, k: Key): Watchlist {
    if IsDone(watch, k) then watch - {k} else watch[k := Processing]
  }

  class ResponseManager {
    const uids: UidCounter
    var watch: Watchlist

    constructor (uids: UidCounter)
      ensures this.uids == uids && watch == map[]
    {
      this.uids := uids;
      watch := map[];
    }

    method RegisterCommand() returns (k: Key)
      requires uids.Valid()
      modifies this, uids
      ensures uids.Valid() && uids.made == old(uids.made) + 1
      ensures k == KeyOf(old(uids.made)) && watch == old(watch)[k := Processing]
    {
      k := uids.Construct();
      watch := watch[k := Processing];
    }

    method RegisterResponse(k: Key)
      modifies this
      ensures watch == old(watch)[k := Done]
    {
      watch := watch[k := Done];
    }

    /** The subscript inserts a default (Processing) entry when the key is missing. */
    method HasResponseReceived(k: Key) returns (found: bool)
      modifies this
      ensures found == old(IsDone(watch, k)) && watch == Asked(old(watch), k)
      ensures found <==> k in old(watch) && old(watch)[k] == Done
      ensures watch == if found then old(watch) - {k} else old(watch)[k := Processing]
    {
      if k !in watch {
        watch := watch[k := Processing];
      }
      if watch[k] != Processing {
        watch := watch - {k};
        return true;
      }
      return false;
    }
  }

  // ----- polling a write -----

  const LIMIT := 50

  datatype Verdict = Again | Success | GaveUpOg | GaveUpBackup
  datatype Counters = Counters(og: nat, backup: nat)

  predicate InRange(c: Counters) {
    c.og < LIMIT && c.backup < LIMIT
  }

  /** The counters after a poll that did not find both responses, before any reset. */
  function Counted(c: Counters, og: bool, backup: bool): Counters {
    Counters(if og then c.og else c.og + 1, if backup then c.backup else c.backup + 1)
  }

  function Judge(c: Counters, og: bool, backup: bool): (Counters, Verdict) {
    var d := Counted(c, og, backup);
    if og && backup then (c, Success)
    else if d.og == LIMIT then (Counters(0, 0), GaveUpOg)
    else if d.backup == LIMIT then (Counters(0, 0), GaveUpBackup)
    else (d, Again)
  }

  /** WriteAIFunc::operator() as a function of the state it reads. */
  function Poll(watch: Watchlist, c: Counters, og: Key, backup: Key): (Watchlist, Counters, Verdict) {
    var j := Judge(c, IsDone(watch, og), IsDone(Asked(watch, og), backup));
    (Asked(Asked(watch, og), backup), j.0, j.1)
  }

  /** A poll succeeds exactly if both responses are there. It gives the write up exactly if
      a missing side is the 50th miss of that side since the last reset, whichever writes
      the other misses were for; of two such sides the first is reported. */
  lemma PollDecides(watch: Watchlist, c: Counters, og: Key, backup: Key)
    requires InRange(c) && og != backup
    ensures var v, noOg, noBackup := Poll(watch, c, og, backup).2, !IsDone(watch, og), !IsDone(watch, backup);
            && (v == Success <==> !noOg && !noBackup)
            && (v == GaveUpOg <==> noOg && c.og == 49)
            && (v == GaveUpBackup <==> noBackup && c.backup == 49 && !(noOg && c.og == 49))
  {
  }

  /** And it leaves in the counters: what was there, if it succeeds; one more for each missing
      side, if the write is to be polled again; and zeros only if it gives the write up. */
  lemma PollCounts(watch: Watchlist, c: Counters, og: Key, backup: Key)
    requires InRange(c) && og != backup
    ensures var (_, d, v) := Poll(watch, c, og, backup);
            && (v == Success ==> d == c)
            && (v == Again ==> d.og == c.og + (if IsDone(watch, og) then 0 else 1)
                               && d.backup == c.backup + (if IsDone(watch, backup) then 0 else 1))
            && (v == GaveUpOg || v == GaveUpBackup ==> d == Counters(0, 0))
  {
  }

  /** A poll from counters in 0..49 leaves them there, and a fall of 99 per decided write
      outweighs any rise of the counters: the measure of termination. */
  lemma PollLowersMeasure(watch: Watchlist, c: Counters, og: Key, backup: Key, pending: nat)
    requires InRange(c) && pending > 0
    ensures var (_, d, v) := Poll(watch, c, og, backup);
            var left := if v == Again then pending else pending - 1;
            InRange(d) && 99 * left - (d.og + d.backup) < 99 * pending - (c.og + c.backup)
  {
  }

  /** The two static counters of WriteAIFunc::operator(), shared by every write. */
  class WritePoller {
    var ogCounter: nat
    var backupCounter: nat

    constructor ()
      ensures ogCounter == 0 && backupCounter == 0
    {
      ogCounter, backupCounter := 0, 0;
    }

    /** One call of a write's polling function; anything but Again sends the kernel side
        its one reply and ends the polling. */
    method Run(manager: ResponseManager, ogUid: Key, backupUid: Key) returns (verdict: Verdict)
      modifies this, manager
      ensures (manager.watch, Counters(ogCounter, backupCounter), verdict)
              == Poll(old(manager.watch), Counters(old(ogCounter), old(backupCounter)), ogUid, backupUid)
      ensures var noOg, noBackup := !old(IsDone(manager.watch, ogUid)), !old(IsDone(Asked(manager.watch, ogUid), backupUid));
              && (verdict == Success <==> !noOg && !noBackup)
              && (verdict == Success ==> ogCounter == old(ogCounter) && backupCounter == old(backupCounter))
              && (verdict == Again ==> ogCounter == old(ogCounter) + (if noOg then 1 else 0)
                                       && backupCounter == old(backupCounter) + (if noBackup then 1 else 0))
              && (verdict == GaveUpOg || verdict == GaveUpBackup ==> ogCounter == 0 && backupCounter == 0)
    {
      var og := manager.HasResponseReceived(ogUid);
      var backup := manager.HasResponseReceived(backupUid);
      if og && backup {
        return Success;
      }
      if !og {
        ogCounter := ogCounter + 1;
      }
      if !backup {
        backupCounter := backupCounter + 1;
      }
      if ogCounter == LIMIT || backupCounter == LIMIT {
        verdict := if ogCounter == LIMIT then GaveUpOg else GaveUpBackup;
        ogCounter, backupCounter := 0, 0;
        return;
      }
      return Again;
    }
  }
}
