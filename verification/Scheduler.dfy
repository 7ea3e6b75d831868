/** The scheduler of src/scheduler.cpp as a machine of atomic steps: one task kept outside
    the heap, a one-shot timer, and an AddTask that re-arms the timer after it has given up
    the lock. */
module Scheduler {
  import opened Options
  import opened Queue

  // ----- time -----

  type Nsec = n: int | 0 <= n < 1_000_000_000
  datatype Time = Time(sec: nat, nsec: Nsec)

  /** it_value for a point in milliseconds. */
  function Deadline(ms: nat): Time {
    Time(ms / 1000, ms % 1000 * 1_000_000)
  }

  /** B_SEC_BIG || (B_SEC_EQUAL && B_NSEC_BIG). */
  predicate Earlier(a: Time, b: Time) {
    a.sec < b.sec || (a.sec == b.sec && a.nsec < b.nsec)
  }

  /** The two fields order deadlines exactly as the milliseconds they came from. (That the
      nanoseconds stay in range is part of the type.) */
  lemma EncodingOrdersLikeMilliseconds(m: nat, n: nat)
    ensures Earlier(Deadline(m), Deadline(n)) <==> m < n
    ensures Deadline(m) == Deadline(n) <==> m == n
  {
  }

  /** A deadline as nanoseconds since the epoch. */
  function Nanoseconds(t: Time): nat {
    1_000_000_000 * t.sec + t.nsec
  }

  /** It is the very point in time it was asked for. */
  lemma DeadlineIsThatInstant(ms: nat)
    ensures Nanoseconds(Deadline(ms)) == 1_000_000 * ms
  {
    assert ms == 1000 * (ms / 1000) + ms % 1000;
  }

  type Task = nat
  datatype Item = Item(task: Task, time: Time)

  /** Scheduler::Comparator: it answers true on ties. */
  function Comparator(): (Item, Item) -> bool {
    (a: Item, b: Item) => !Earlier(a.time, b.time)
  }

  function Rank(t: Time): int {
    -(1_000_000_000 * t.sec + t.nsec)
  }

  lemma ComparatorRanks()
    ensures Ranks(Comparator(), (x: Item) => Rank(x.time))
  {
  }

  /** The top of the heap is a task no queued task precedes. */
  lemma TopIsLeast(q: multiset<Item>, x: Item)
    ensures IsTop(Comparator(), q, x) <==> x in q && forall y :: y in q ==> !Earlier(y.time, x.time)
  {
  }

  // ----- the machine -----

  /** m_currentTask: the time stays behind when the task is taken away. */
  datatype Current = Current(task: Option<Task>, time: Time)

  datatype State = State(
    current: Current, heap: multiset<Item>, timer: Option<Time>,
    expired: nat,                 // timer threads started that have not locked the mutex yet
    owed: nat,                    // AddTask calls that have unlocked but not yet called SetTime
    added: multiset<Item>, executed: multiset<Item>)

  function Init(): State {
    State(Current(None, Time(0, 0)), multiset{}, None, 0, 0, multiset{}, multiset{})
  }

  datatype Action =
    | Add(task: Task, ms: nat)    // AddTask up to lock.unlock()
    | Arm                         // its call of SetTime
    | Expire                      // the timer fires
    | Handle(next: Item)          // ThreadFunc up to unlock(); `next` is popped if the heap is not empty

  function CurrentItem(s: State): Item
    requires s.current.task.Some?
  {
    Item(s.current.task.value, s.current.time)
  }

  ghost predicate Enabled(s: State, a: Action) {
    match a
    case Add(_, ms) => ms > 0
    case Arm => s.owed > 0
    case Expire => s.timer.Some?
    case Handle(next) =>
      s.expired > 0 && (s.current.task.Some? && s.heap != multiset{} ==> IsTop(Comparator(), s.heap, next))
  }

  /** timer_settime: a zero time disarms. */
  function SetTime(t: Time): Option<Time> {
    if t == Time(0, 0) then None else Some(t)
  }

  function Apply(s: State, a: Action): State {
    match a
    case Add(task, ms) =>
      var item := Item(task, Deadline(ms));
      var t := s.(owed := s.owed + 1, added := s.added + multiset{item});
      if s.current.task.None? then t.(current := Current(Some(task), item.time))
      else if Earlier(s.current.time, item.time) then t.(heap := s.heap + multiset{item})
      else t.(heap := s.heap + multiset{CurrentItem(s)}, current := Current(Some(task), item.time))
    case Arm => if s.owed == 0 then s else s.(owed := s.owed - 1, timer := SetTime(s.current.time))
    case Expire => s.(timer := None, expired := s.expired + 1)
    case Handle(next) =>
      var t := s.(expired := if s.expired == 0 then 0 else s.expired - 1);
      if s.current.task.None? then t
      else
        var u := t.(executed := s.executed + multiset{CurrentItem(s)});
        if s.heap == multiset{} then u.(current := s.current.(task := None))
        else u.(current := Current(Some(next.task), next.time), heap := s.heap - multiset{next}, timer := SetTime(next.time))
  }

  // ----- the invariant -----

  function Waiting(s: State): multiset<Item> {
    if s.current.task.Some? then s.heap + multiset{CurrentItem(s)} else s.heap
  }

  /** Nothing waits in the heap while there is no current task, and none of it is due
      before the current task. */
  ghost predicate InOrder(s: State) {
    && (s.current.task.None? ==> s.heap == multiset{})
    && (s.current.task.Some? ==> forall y :: y in s.heap ==> !Earlier(y.time, s.current.time))
  }

  /** Somebody will attend to the current task: the timer is armed for it, or an expiry is
      still to be handled, or some AddTask has yet to arm the timer. */
  ghost predicate WillWake(s: State) {
    s.current.task.Some? ==> s.timer == Some(s.current.time) || s.expired > 0 || s.owed > 0
  }

  ghost predicate Inv(s: State) {
    && InOrder(s) && WillWake(s)
    && s.added == s.executed + Waiting(s)
    && (forall x :: x in Waiting(s) ==> x.time != Time(0, 0))
  }

  lemma InitHolds()
    ensures Inv(Init())
  {
  }

  lemma EveryStepKeeps(s: State, a: Action)
    requires Inv(s) && Enabled(s, a)
    ensures Inv(Apply(s, a))
  {
    match a
    case Add(task, ms) => AddKeeps(s, task, ms);
    case Arm =>
      assert s.current.task.Some? ==> CurrentItem(s) in Waiting(s);
      assert Waiting(Apply(s, a)) == Waiting(s);
    case Expire => assert Waiting(Apply(s, a)) == Waiting(s);
    case Handle(next) => HandleKeeps(s, next);
  }

  lemma MoveOne(all: multiset<Item>, from: multiset<Item>, to: multiset<Item>, x: Item, rest: multiset<Item>)
    requires all == to + from && from == rest + multiset{x}
    ensures all == (to + multiset{x}) + rest
  {
  }

  lemma NoneDisarms(all: multiset<Item>, part: multiset<Item>, x: Item)
    requires all == part + multiset{x} && forall y :: y in all ==> y.time != Time(0, 0)
    ensures forall y :: y in part ==> y.time != Time(0, 0)
  {
  }

  lemma HandleKeeps(s: State, next: Item)
    requires Inv(s) && Enabled(s, Handle(next))
    ensures Inv(Apply(s, Handle(next)))
  {
    var t := Apply(s, Handle(next));
    if s.current.task.Some? {
      RunsALeastDeadline(s, next);
      HandleKeepsOrder(s, next);
      MoveOne(s.added, Waiting(s), s.executed, CurrentItem(s), Waiting(t));
      NoneDisarms(Waiting(s), Waiting(t), CurrentItem(s));
      assert t.added == s.added;
      hide IsTop, Waiting, InOrder, WillWake;
    }
  }

  lemma HandleKeepsOrder(s: State, next: Item)
    requires Inv(s) && Enabled(s, Handle(next)) && s.current.task.Some?
    ensures InOrder(Apply(s, Handle(next))) && WillWake(Apply(s, Handle(next)))
  {
    TopIsLeast(s.heap, next);
    hide IsTop;
    if s.heap != multiset{} {
      assert next in Waiting(s);
    }
  }

  lemma AddKeeps(s: State, task: Task, ms: nat)
    requires Inv(s) && ms > 0
    ensures Inv(Apply(s, Add(task, ms)))
  {
    EncodingOrdersLikeMilliseconds(ms, 0);
    var t, item := Apply(s, Add(task, ms)), Item(task, Deadline(ms));
    AddConserves(s, task, ms);
    assert InOrder(t) && WillWake(t) by {
      hide Waiting;
    }
    hide InOrder, WillWake, Waiting;
    AddOne(s.added, s.executed, Waiting(s), item);
    assert t.added == s.added + multiset{item} && t.executed == s.executed;
  }

  lemma AddOne(all: multiset<Item>, run: multiset<Item>, waiting: multiset<Item>, x: Item)
    requires all == run + waiting
    ensures all + multiset{x} == run + (waiting + multiset{x})
  {
  }

  lemma AddConserves(s: State, task: Task, ms: nat)
    ensures InOrder(s) ==> Waiting(Apply(s, Add(task, ms))) == Waiting(s) + multiset{Item(task, Deadline(ms))}
  {
  }

  // ----- what follows -----

  /** Every task ThreadFunc runs is one no waiting task precedes, and it leaves the set of
      waiting tasks by one. */
  lemma RunsALeastDeadline(s: State, next: Item)
    requires Inv(s) && Enabled(s, Handle(next)) && s.current.task.Some?
    ensures var t := Apply(s, Handle(next));
            && t.executed == s.executed + multiset{CurrentItem(s)}
            && Waiting(s) == Waiting(t) + multiset{CurrentItem(s)}
            && forall y :: y in Waiting(s) ==> !Earlier(y.time, CurrentItem(s).time)
  {
    var t := Apply(s, Handle(next));
    if s.heap != multiset{} {
      assert t.heap + multiset{next} == s.heap;
    }
  }

  ghost predicate Run(ss: seq<State>, acts: seq<Action>) {
    && |ss| == |acts| + 1 && ss[0] == Init()
    && forall k :: 0 <= k < |acts| ==> Enabled(ss[k], acts[k]) && ss[k + 1] == Apply(ss[k], acts[k])
  }

  lemma {:induction false} EveryReachableStateOk(ss: seq<State>, acts: seq<Action>, k: nat)
    requires Run(ss, acts) && k < |ss|
    ensures Inv(ss[k])
  {
    hide Inv, Enabled, Apply;
    if k == 0 {
      InitHolds();
    } else {
      EveryReachableStateOk(ss, acts, k - 1);
      EveryStepKeeps(ss[k - 1], acts[k - 1]);
    }
  }

  /** Main theorem, over every interleaving: no task is lost or run twice for one AddTask,
      the current task is due no later than any other and is missing only if nothing waits,
      every handled expiry runs a least-deadline task, and somebody will attend to the
      current task. */
  lemma NothingLostAndLeastFirst(ss: seq<State>, acts: seq<Action>, k: nat)
    requires Run(ss, acts) && k < |ss|
    ensures var s := ss[k];
            && s.added == s.executed + Waiting(s)
            && (s.current.task.None? ==> Waiting(s) == multiset{})
            && (s.current.task.Some? ==> forall y :: y in Waiting(s) ==> !Earlier(y.time, s.current.time))
            && (s.current.task.Some? ==> s.timer == Some(s.current.time) || s.expired > 0 || s.owed > 0)
            && (k < |acts| && acts[k].Handle? && s.current.task.Some? ==>
                  && ss[k + 1].executed == s.executed + multiset{CurrentItem(s)}
                  && forall y :: y in Waiting(s) ==> !Earlier(y.time, CurrentItem(s).time))
  {
    EveryReachableStateOk(ss, acts, k);
    if k < |acts| && acts[k].Handle? && ss[k].current.task.Some? {
      RunsALeastDeadline(ss[k], acts[k].next);
    }
    hide Enabled, IsTop;
  }

  datatype Kind = Adding | Arming | Expiring | Handling

  function KindOf(a: Action): Kind {
    match a
    case Add(_, _) => Adding
    case Arm => Arming
    case Expire => Expiring
    case Handle(_) => Handling
  }

  /** How many of the first `n` steps are of one kind. */
  function HowMany(acts: seq<Action>, n: nat, kind: Kind): nat
    requires n <= |acts|
  {
    if n == 0 then 0 else HowMany(acts, n - 1, kind) + if KindOf(acts[n - 1]) == kind then 1 else 0
  }

  lemma LeftToDo(s: State, a: Action)
    requires Enabled(s, a)
    ensures var t := Apply(s, a);
            && t.expired == s.expired + (if KindOf(a) == Expiring then 1 else 0) - (if KindOf(a) == Handling then 1 else 0)
            && t.owed == s.owed + (if KindOf(a) == Adding then 1 else 0) - (if KindOf(a) == Arming then 1 else 0)
  {
    hide IsTop, Earlier, Deadline;
  }

  /** Over every run: each expiry is handled at most once, each AddTask arms the timer at most
      once, and what is left to do of either is what the machine says. */
  lemma {:induction false} NothingHandledTwice(ss: seq<State>, acts: seq<Action>, n: nat)
    requires Run(ss, acts) && n < |ss|
    ensures ss[n].expired + HowMany(acts, n, Handling) == HowMany(acts, n, Expiring)
    ensures ss[n].owed + HowMany(acts, n, Arming) == HowMany(acts, n, Adding)
  {
    hide Enabled, Apply, KindOf;
    if n > 0 {
      NothingHandledTwice(ss, acts, n - 1);
      LeftToDo(ss[n - 1], acts[n - 1]);
    }
  }

  /** The timer is one-shot: between two expiries it was armed again. */
  lemma {:induction false} ArmedBetweenExpiries(ss: seq<State>, acts: seq<Action>, i: nat, j: nat)
    requires Run(ss, acts) && i < j < |ss| && acts[i] == Expire
    requires forall k :: i < k < j ==> !acts[k].Arm? && !acts[k].Handle?
    ensures ss[j].timer.None? && (j < |acts| ==> acts[j] != Expire)
  {
    hide IsTop;
    if i + 1 < j {
      ArmedBetweenExpiries(ss, acts, i, j - 1);
    }
  }

  /** Some task was added for the point in time `t`. */
  ghost predicate AskedFor(acts: seq<Action>, n: nat, t: Time)
    requires n <= |acts|
  {
    exists k :: 0 <= k < n && acts[k].Add? && 1_000_000_000 * t.sec + t.nsec == 1_000_000 * acts[k].ms
  }

  /** A point in time the scheduler has somewhere. */
  ghost predicate HasTime(s: State, t: Time) {
    s.timer == Some(t) || (s.current.time == t && t != Time(0, 0)) || exists x :: x in s.heap && x.time == t
  }

  lemma AddTimes(s: State, task: Task, ms: nat, t: Time)
    requires Inv(s) && HasTime(Apply(s, Add(task, ms)), t)
    ensures HasTime(s, t) || t == Deadline(ms)
  {
    hide Earlier, Deadline;
    assert s.current.task.Some? ==> CurrentItem(s) in Waiting(s);
  }

  lemma HandleTimes(s: State, next: Item, t: Time)
    requires Enabled(s, Handle(next)) && HasTime(Apply(s, Handle(next)), t)
    ensures HasTime(s, t)
  {
    if s.current.task.Some? && s.heap != multiset{} {
      TopIsQueued(s.heap, next);
    }
    hide IsTop;
  }

  lemma TimesComeFromAdding(s: State, a: Action, t: Time)
    requires Inv(s) && Enabled(s, a) && HasTime(Apply(s, a), t)
    ensures HasTime(s, t) || (a.Add? && t == Deadline(a.ms))
  {
    match a
    case Add(task, ms) => AddTimes(s, task, ms, t);
    case Handle(next) => HandleTimes(s, next, t);
    case _ => hide Inv;
  }

  lemma TopIsQueued(q: multiset<Item>, x: Item)
    requires IsTop(Comparator(), q, x)
    ensures x in q
  {
  }

  lemma AskedForStays(acts: seq<Action>, n: nat, t: Time)
    requires n < |acts| && (AskedFor(acts, n, t) || (acts[n].Add? && t == Deadline(acts[n].ms)))
    ensures AskedFor(acts, n + 1, t)
  {
    if AskedFor(acts, n, t) {
      var k :| 0 <= k < n && acts[k].Add? && 1_000_000_000 * t.sec + t.nsec == 1_000_000 * acts[k].ms;
      assert 0 <= k < n + 1;
    } else {
      DeadlineIsThatInstant(acts[n].ms);
    }
  }

  lemma {:induction false} TimeAskedFor(ss: seq<State>, acts: seq<Action>, n: nat, t: Time)
    requires Run(ss, acts) && n < |ss| && HasTime(ss[n], t)
    ensures AskedFor(acts, n, t)
  {
    if n > 0 {
      EveryReachableStateOk(ss, acts, n - 1);
      hide Inv, Enabled, Apply, HasTime, AskedFor, Deadline;
      TimesComeFromAdding(ss[n - 1], acts[n - 1], t);
      if HasTime(ss[n - 1], t) {
        TimeAskedFor(ss, acts, n - 1, t);
      }
      AskedForStays(acts, n - 1, t);
    }
  }

  /** Over every run, the timer is only ever armed for a point in time, to the nanosecond,
      that some AddTask asked for, and so is every task that waits. */
  lemma TimesAreThoseAskedFor(ss: seq<State>, acts: seq<Action>, n: nat)
    requires Run(ss, acts) && n < |ss|
    ensures ss[n].timer.Some? ==> AskedFor(acts, n, ss[n].timer.value)
    ensures forall x :: x in Waiting(ss[n]) ==> AskedFor(acts, n, x.time)
  {
    EveryReachableStateOk(ss, acts, n);
    WaitingHasTime(ss[n]);
    hide Inv, Waiting, Run, AskedFor;
    forall t | HasTime(ss[n], t)
      ensures AskedFor(acts, n, t)
    {
      TimeAskedFor(ss, acts, n, t);
    }
  }

  lemma WaitingHasTime(s: State)
    requires Inv(s)
    ensures forall x :: x in Waiting(s) ==> HasTime(s, x.time)
  {
  }

  /** When no thread has anything left to do, a waiting task always has the timer armed for
      the least of all waiting deadlines. */
  lemma NoLostWakeUp(s: State)
    requires Inv(s) && s.owed == 0 && s.expired == 0 && Waiting(s) != multiset{}
    ensures s.timer.Some? && (exists x :: x in Waiting(s) && x.time == s.timer.value)
    ensures forall y :: y in Waiting(s) ==> !Earlier(y.time, s.timer.value)
  {
  }

  /** The steps that lead to the current task being run, with nothing new being added: at
      most an owed SetTime, an expiry and its handling. */
  function WayToRun(s: State, next: Item): seq<Action> {
    if s.expired > 0 then [Handle(next)]
    else if s.timer.Some? then [Expire, Handle(next)]
    else [Arm, Expire, Handle(next)]
  }

  ghost predicate CanRun(s: State, acts: seq<Action>)
    decreases |acts|
  {
    acts == [] || (Enabled(s, acts[0]) && CanRun(Apply(s, acts[0]), acts[1..]))
  }

  function After(s: State, acts: seq<Action>): State
    decreases |acts|
  {
    if acts == [] then s else After(Apply(s, acts[0]), acts[1..])
  }

  /** The items that a sequence of steps runs, in order. */
  function Ran(s: State, acts: seq<Action>): seq<Item>
    decreases |acts|
  {
    if acts == [] then []
    else (if acts[0].Handle? && s.current.task.Some? then [CurrentItem(s)] else []) + Ran(Apply(s, acts[0]), acts[1..])
  }

  lemma HandleRuns(s: State, next: Item)
    requires Enabled(s, Handle(next)) && s.current.task.Some?
    ensures CanRun(s, [Handle(next)])
    ensures After(s, [Handle(next)]).executed == s.executed + multiset{CurrentItem(s)}
    ensures Ran(s, [Handle(next)]) == [CurrentItem(s)]
  {
  }

  lemma ExpireThenHandleRuns(s: State, next: Item)
    requires s.timer.Some? && s.current.task.Some? && (s.heap != multiset{} ==> IsTop(Comparator(), s.heap, next))
    ensures CanRun(s, [Expire, Handle(next)])
    ensures After(s, [Expire, Handle(next)]).executed == s.executed + multiset{CurrentItem(s)}
    ensures Ran(s, [Expire, Handle(next)]) == [CurrentItem(s)]
  {
    HandleRuns(Apply(s, Expire), next);
    assert [Expire, Handle(next)][1..] == [Handle(next)];
    hide IsTop;
  }

  lemma CurrentTaskGetsRun(s: State, next: Item)
    requires Inv(s) && s.current.task.Some?
    requires s.heap != multiset{} ==> IsTop(Comparator(), s.heap, next)
    ensures CanRun(s, WayToRun(s, next))
    ensures After(s, WayToRun(s, next)).executed == s.executed + multiset{CurrentItem(s)}
    ensures Ran(s, WayToRun(s, next)) == [CurrentItem(s)]
  {
    assert CurrentItem(s) in Waiting(s);
    if s.expired > 0 {
      HandleRuns(s, next);
    } else if s.timer.Some? {
      ExpireThenHandleRuns(s, next);
    } else {
      ExpireThenHandleRuns(Apply(s, Arm), next);
      assert [Arm, Expire, Handle(next)][1..] == [Expire, Handle(next)];
    }
  }

  // ----- every waiting task gets run -----

  predicate NoAdd(acts: seq<Action>) {
    forall k :: 0 <= k < |acts| ==> !acts[k].Add?
  }

  lemma Joined(a: seq<Item>, b: seq<Item>, c: seq<Item>)
    ensures a + (b + c) == (a + b) + c
  {
  }

  lemma {:induction false} OneAfterTheOther(s: State, a: seq<Action>, b: seq<Action>)
    requires CanRun(s, a) && CanRun(After(s, a), b)
    ensures CanRun(s, a + b) && After(s, a + b) == After(After(s, a), b)
    ensures Ran(s, a + b) == Ran(s, a) + Ran(After(s, a), b)
    decreases |a|
  {
    hide Enabled, Apply, CurrentItem;
    if a == [] {
      assert a + b == b;
    } else {
      var t := Apply(s, a[0]);
      OneAfterTheOther(t, a[1..], b);
      assert (a + b)[1..] == a[1..] + b && (a + b)[0] == a[0];
      var first := if a[0].Handle? && s.current.task.Some? then [CurrentItem(s)] else [];
      Joined(first, Ran(t, a[1..]), Ran(After(t, a[1..]), b));
    }
  }

  lemma {:induction false} CanRunKeeps(s: State, acts: seq<Action>)
    requires Inv(s) && CanRun(s, acts) && NoAdd(acts)
    ensures Inv(After(s, acts)) && After(s, acts).added == s.added
    decreases |acts|
  {
    hide Inv, Enabled;
    if acts != [] {
      EveryStepKeeps(s, acts[0]);
      CanRunKeeps(Apply(s, acts[0]), acts[1..]);
    }
  }

  /** A top of the heap, if there is one. */
  lemma SomeTop(q: multiset<Item>) returns (next: Item)
    ensures q != multiset{} ==> IsTop(Comparator(), q, next)
  {
    next := Item(0, Time(0, 0));
    if q != multiset{} {
      ComparatorRanks();
      TopExists(Comparator(), (x: Item) => Rank(x.time), q);
      next :| IsTop(Comparator(), q, next);
    }
  }

  lemma Cancel(all: multiset<Item>, run: multiset<Item>, run': multiset<Item>, waiting: multiset<Item>, left: multiset<Item>, x: Item)
    requires all == run + waiting && all == run' + left && run' == run + multiset{x}
    ensures waiting == left + multiset{x}
  {
    forall y
      ensures waiting[y] == (left + multiset{x})[y]
    {
      assert all[y] == run[y] + waiting[y] && all[y] == run'[y] + left[y];
    }
  }

  /** Deadlines that never decrease. */
  predicate InDeadlineOrder(xs: seq<Item>) {
    forall j, k :: 0 <= j < k < |xs| ==> !Earlier(xs[k].time, xs[j].time)
  }

  lemma LeastInFront(x: Item, xs: seq<Item>)
    requires InDeadlineOrder(xs) && forall y :: y in multiset(xs) ==> !Earlier(y.time, x.time)
    ensures InDeadlineOrder([x] + xs) && multiset([x] + xs) == multiset(xs) + multiset{x}
  {
    forall k | 0 <= k < |xs|
      ensures !Earlier(xs[k].time, x.time)
    {
      assert xs[k] in multiset(xs);
    }
  }

  /** One task out of the way: the steps that run the current one, and what is left. */
  lemma RunCurrent(s: State) returns (acts: seq<Action>)
    requires Inv(s) && s.current.task.Some?
    ensures CanRun(s, acts) && NoAdd(acts) && Ran(s, acts) == [CurrentItem(s)] && Inv(After(s, acts))
    ensures Waiting(s) == Waiting(After(s, acts)) + multiset{CurrentItem(s)}
  {
    var next := SomeTop(s.heap);
    CurrentTaskGetsRun(s, next);
    acts := WayToRun(s, next);
    CanRunKeeps(s, acts);
    var t := After(s, acts);
    Cancel(s.added, s.executed, t.executed, Waiting(s), Waiting(t), CurrentItem(s));
  }

  /** Main theorem of progress: whatever state a run has reached, there is a way on without
      new tasks that runs every waiting task, each once and in the order of the deadlines,
      and leaves nothing waiting. */
  lemma {:induction false} EveryWaitingTaskGetsRun(s: State) returns (acts: seq<Action>)
    requires Inv(s)
    ensures CanRun(s, acts) && NoAdd(acts)
    ensures multiset(Ran(s, acts)) == Waiting(s) && InDeadlineOrder(Ran(s, acts))
    ensures Waiting(After(s, acts)) == multiset{}
    decreases |Waiting(s)|
  {
    acts := [];
    if s.current.task.Some? {
      var first := RunCurrent(s);
      var t := After(s, first);
      var others := EveryWaitingTaskGetsRun(t);
      LeastWaits(s);
      hide Inv, CanRun, Ran, After, Waiting, InDeadlineOrder, NoAdd;
      acts := first + others;
      OneAfterTheOther(s, first, others);
      NoAddConcat(first, others);
      forall y | y in multiset(Ran(t, others))
        ensures !Earlier(y.time, CurrentItem(s).time)
      {
        assert y in Waiting(s);
      }
      LeastInFront(CurrentItem(s), Ran(t, others));
    }
  }

  lemma NoAddConcat(a: seq<Action>, b: seq<Action>)
    requires NoAdd(a) && NoAdd(b)
    ensures NoAdd(a + b)
  {
  }

  lemma LeastWaits(s: State)
    requires Inv(s) && s.current.task.Some?
    ensures forall y :: y in Waiting(s) ==> !Earlier(y.time, CurrentItem(s).time)
  {
  }

  // ----- the class -----

  class Scheduler {
    const wq: WaitableQueue<Item>
    var currentTask: Current
    var timer: Option<Time>
    ghost var history: State

    ghost predicate Valid()
      reads this, wq
    {
      && wq.Valid() && wq.less == Comparator() && Inv(history)
      && history.current == currentTask && history.heap == wq.items && history.timer == timer
    }

    constructor ()
      ensures Valid() && history == Init() && fresh(wq)
    {
      ComparatorRanks();
      wq := new WaitableQueue(Comparator(), (x: Item) => Rank(x.time));
      currentTask := Current(None, Time(0, 0));
      timer := None;
      history := Init();
    }

    /** AddTask up to lock.unlock(); `ms` is the clock plus the delay. */
    method AddTask(task: Task, ms: nat)
      requires Valid() && ms > 0
      modifies this, wq
      ensures Valid() && history == Apply(old(history), Add(task, ms)) && history.owed > 0
      ensures exists t: Time :: 1_000_000_000 * t.sec + t.nsec == 1_000_000 * ms
                && history.added == old(history).added + multiset{Item(task, t)}
                && Waiting(history) == Waiting(old(history)) + multiset{Item(task, t)}
    {
      DeadlineIsThatInstant(ms);
      AddConserves(history, task, ms);
      EveryStepKeeps(history, Add(task, ms));
      var time := Deadline(ms);
      if currentTask.task.None? {
        currentTask := Current(Some(task), time);
      } else if Earlier(currentTask.time, time) {
        wq.Push(Item(task, time));
      } else {
        wq.Push(Item(currentTask.task.value, currentTask.time));
        currentTask := Current(Some(task), time);
      }
      history := Apply(history, Add(task, ms));
    }

    /** The SetTime that AddTask calls after unlocking; it reads whatever task is current by
        then, or the time the last one left behind. */
    method ArmTimer()
      requires Valid() && history.owed > 0
      modifies this
      ensures Valid() && history == Apply(old(history), Arm)
      ensures timer == if currentTask.time == Time(0, 0) then None else Some(currentTask.time)
    {
      EveryStepKeeps(history, Arm);
      timer := SetTime(currentTask.time);
      history := Apply(history, Arm);
    }

    /** The fields are those of the machine's state `s`. */
    ghost predicate Holds(s: State)
      reads this, wq
    {
      s.current == currentTask && s.heap == wq.items && s.timer == timer
    }

    /** The part of ThreadFunc that replaces the current task. */
    method PromoteNext() returns (next: Item)
      requires Valid() && history.expired > 0 && currentTask.task.Some?
      modifies this, wq
      ensures history == old(history) && wq.Valid()
      ensures Enabled(history, Handle(next)) && Holds(Apply(history, Handle(next)))
    {
      hide IsTop, Inv, Comparator, Ranks, Earlier;
      next := Item(0, currentTask.time);
      var empty := wq.IsEmpty();
      if !empty {
        next := wq.Pop();
        currentTask := Current(Some(next.task), next.time);
        timer := SetTime(currentTask.time);
      } else {
        currentTask := Current(None, currentTask.time);
      }
    }

    /** ThreadFunc up to the unlock before Execute: the task to execute, if any. */
    method ThreadFunc() returns (task: Option<Task>)
      requires Valid() && history.expired > 0
      modifies this, wq
      ensures Valid() && task == old(history).current.task
      ensures exists next :: Enabled(old(history), Handle(next)) && history == Apply(old(history), Handle(next))
    {
      hide IsTop, Inv, Comparator, Ranks, Earlier;
      var next := Item(0, currentTask.time);
      task := currentTask.task;
      if task.Some? {
        next := PromoteNext();
      }
      EveryStepKeeps(history, Handle(next));
      history := Apply(history, Handle(next));
    }
  }
}
