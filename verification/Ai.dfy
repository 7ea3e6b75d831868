/** The polling tasks of src/ai.cpp on top of the scheduler: an AI puts itself back into the
    scheduler until its function returns true, and deletes itself then. */
module Ai {
  import opened Options
  import S = Scheduler

  type Task = S.Task

  /** Where the one occurrence of an AI is. */
  datatype Place =
    | Adding              // some thread is in AddTask for it, before the lock
    | Scheduled(item: S.Item)
    | Executing           // some timer thread is calling its function
    | Deleted

  datatype State = State(sched: S.State, adding: multiset<Task>, executing: multiset<Task>, place: map<Task, Place>)

  function Init(): State {
    State(S.Init(), multiset{}, multiset{}, map[])
  }

  datatype Action =
    | Create(ai: Task)            // the constructor of a new AI
    | Enqueue(ai: Task, ms: nat)  // the locked section of its AddTask
    | Timer(step: S.Action)       // a SetTime, an expiry, or ThreadFunc taking the current task
    | Return(ai: Task, done: bool) // the function returns; AI::Perform reacts

  ghost predicate Enabled(s: State, a: Action) {
    match a
    case Create(ai) => ai !in s.place
    case Enqueue(ai, ms) => ai in s.adding && ms > 0
    case Timer(step) => !step.Add? && S.Enabled(s.sched, step)
    case Return(ai, _) => ai in s.executing
  }

  function Apply(s: State, a: Action): State {
    match a
    case Create(ai) => s.(adding := s.adding + multiset{ai}, place := s.place[ai := Adding])
    case Enqueue(ai, ms) =>
      s.(sched := S.Apply(s.sched, S.Add(ai, ms)), adding := s.adding - multiset{ai},
         place := s.place[ai := Scheduled(S.Item(ai, S.Deadline(ms)))])
    case Timer(step) =>
      var t := s.(sched := S.Apply(s.sched, step));
      if step.Handle? && s.sched.current.task.Some? then
        var ai := s.sched.current.task.value;
        t.(executing := s.executing + multiset{ai}, place := s.place[ai := Executing])
      else t
    case Return(ai, done) =>
      var t := s.(executing := s.executing - multiset{ai});
      if done then t.(place := s.place[ai := Deleted])
      else t.(adding := s.adding + multiset{ai}, place := s.place[ai := Adding])
  }

  predicate IsAt(place: map<Task, Place>, ai: Task, p: Place) {
    ai in place && place[ai] == p
  }

  /** Every bag holds each AI as often as its place says: once or not at all. */
  ghost predicate Tally(adding: multiset<Task>, executing: multiset<Task>, waiting: multiset<S.Item>, place: map<Task, Place>) {
    && (forall ai: Task :: adding[ai] == if IsAt(place, ai, Adding) then 1 else 0)
    && (forall ai: Task :: executing[ai] == if IsAt(place, ai, Executing) then 1 else 0)
    && (forall ai :: ai in place && place[ai].Scheduled? ==> place[ai].item.task == ai)
    && (forall x: S.Item :: waiting[x] == if IsAt(place, x.task, Scheduled(x)) then 1 else 0)
  }

  ghost predicate Inv(s: State) {
    S.Inv(s.sched) && Tally(s.adding, s.executing, S.Waiting(s.sched), s.place)
  }

  lemma InitHolds()
    ensures Inv(Init())
  {
  }

  lemma EnqueueTallies(adding: multiset<Task>, executing: multiset<Task>, waiting: multiset<S.Item>, place: map<Task, Place>, x: S.Item)
    requires Tally(adding, executing, waiting, place) && x.task in adding
    ensures Tally(adding - multiset{x.task}, executing, waiting + multiset{x}, place[x.task := Scheduled(x)])
  {
  }

  lemma TakeUpTallies(adding: multiset<Task>, executing: multiset<Task>, waiting: multiset<S.Item>, place: map<Task, Place>, x: S.Item)
    requires Tally(adding, executing, waiting + multiset{x}, place)
    ensures Tally(adding, executing + multiset{x.task}, waiting, place[x.task := Executing])
  {
    assert (waiting + multiset{x})[x] > 0;
    assert IsAt(place, x.task, Scheduled(x));
    forall y: S.Item
      ensures waiting[y] == if IsAt(place[x.task := Executing], y.task, Scheduled(y)) then 1 else 0
    {
      assert waiting[y] == (waiting + multiset{x})[y] - (if y == x then 1 else 0);
    }
  }

  lemma ReturnTallies(adding: multiset<Task>, executing: multiset<Task>, waiting: multiset<S.Item>, place: map<Task, Place>, ai: Task)
    requires Tally(adding, executing, waiting, place) && ai in executing
    ensures Tally(adding, executing - multiset{ai}, waiting, place[ai := Deleted])
    ensures Tally(adding + multiset{ai}, executing - multiset{ai}, waiting, place[ai := Adding])
  {
  }

  lemma EveryStepKeeps(s: State, a: Action)
    requires Inv(s) && Enabled(s, a)
    ensures Inv(Apply(s, a))
  {
    hide Tally, S.Inv;
    match a
    case Create(ai) => CreateTallies(s, ai);
    case Enqueue(ai, ms) =>
      EnqueueSchedules(s, ai, ms);
      EnqueueTallies(s.adding, s.executing, S.Waiting(s.sched), s.place, S.Item(ai, S.Deadline(ms)));
      hide S.Apply, S.Waiting;
    case Timer(step) => TimerKeeps(s, step);
    case Return(ai, _) => ReturnTallies(s.adding, s.executing, S.Waiting(s.sched), s.place, ai);
  }

  lemma EnqueueSchedules(s: State, ai: Task, ms: nat)
    requires S.Inv(s.sched) && ms > 0
    ensures S.Inv(S.Apply(s.sched, S.Add(ai, ms)))
    ensures S.Waiting(S.Apply(s.sched, S.Add(ai, ms))) == S.Waiting(s.sched) + multiset{S.Item(ai, S.Deadline(ms))}
  {
    S.EveryStepKeeps(s.sched, S.Add(ai, ms));
    S.AddConserves(s.sched, ai, ms);
  }

  lemma CreateTallies(s: State, ai: Task)
    requires Inv(s) && ai !in s.place
    ensures Inv(Apply(s, Create(ai)))
  {
    hide S.Inv, S.Waiting;
  }

  lemma TimerKeeps(s: State, step: S.Action)
    requires Inv(s) && Enabled(s, Timer(step))
    ensures Inv(Apply(s, Timer(step)))
  {
    hide Tally, S.Inv;
    S.EveryStepKeeps(s.sched, step);
    TimerMoves(s.sched, step);
    hide S.Apply;
    if step.Handle? && s.sched.current.task.Some? {
      TakeUpTallies(s.adding, s.executing, S.Waiting(S.Apply(s.sched, step)), s.place, S.CurrentItem(s.sched));
    }
  }

  /** Only a handled expiry takes anything out of the scheduler: the current task. */
  lemma TimerMoves(s: S.State, step: S.Action)
    requires S.Inv(s) && S.Enabled(s, step) && !step.Add?
    ensures step.Handle? && s.current.task.Some? ==>
              S.Waiting(s) == S.Waiting(S.Apply(s, step)) + multiset{S.CurrentItem(s)}
    ensures !(step.Handle? && s.current.task.Some?) ==> S.Waiting(S.Apply(s, step)) == S.Waiting(s)
  {
    if step.Handle? && s.current.task.Some? {
      S.RunsALeastDeadline(s, step.next);
    }
  }

  // ----- what follows -----

  /** How many times `ai` is waiting in the scheduler under the item `x`. */
  function Copies(s: State, x: S.Item): nat {
    S.Waiting(s.sched)[x]
  }

  /** Main theorem, per state: an AI that was not deleted has exactly one occurrence (being
      added, current or queued, or executing), and a deleted one has none. */
  lemma ExactlyOneOccurrence(s: State, ai: Task)
    requires Inv(s) && ai in s.place
    ensures s.place[ai] == Deleted ==>
              s.adding[ai] == 0 && s.executing[ai] == 0 && forall x: S.Item :: x.task == ai ==> Copies(s, x) == 0
    ensures s.place[ai] != Deleted ==>
              || (s.adding[ai] == 1 && s.executing[ai] == 0 && forall x: S.Item :: x.task == ai ==> Copies(s, x) == 0)
              || (s.adding[ai] == 0 && s.executing[ai] == 1 && forall x: S.Item :: x.task == ai ==> Copies(s, x) == 0)
              || (s.adding[ai] == 0 && s.executing[ai] == 0
                  && exists x: S.Item :: x.task == ai && Copies(s, x) == 1 && forall y: S.Item :: y.task == ai && y != x ==> Copies(s, y) == 0)
  {
  }

  ghost predicate Run(ss: seq<State>, acts: seq<Action>) {
    && |ss| == |acts| + 1 && ss[0] == Init()
    && forall k :: 0 <= k < |acts| ==> Enabled(ss[k], acts[k]) && ss[k + 1] == Apply(ss[k], acts[k])
  }

  lemma {:induction false} EveryReachableStateOk(ss: seq<State>, acts: seq<Action>, k: nat)
    requires Run(ss, acts) && k < |ss|
    ensures Inv(ss[k])
  {
    if k == 0 {
      InitHolds();
    } else {
      EveryReachableStateOk(ss, acts, k - 1);
      EveryStepKeeps(ss[k - 1], acts[k - 1]);
    }
  }

  /** The AI whose function a timer thread is about to call. */
  ghost predicate TakesUp(s: State, a: Action, ai: Task) {
    a.Timer? && a.step.Handle? && s.sched.current.task == Some(ai)
  }

  lemma DeletedStays(s: State, a: Action, ai: Task)
    requires Inv(s) && Enabled(s, a) && IsAt(s.place, ai, Deleted)
    ensures IsAt(Apply(s, a).place, ai, Deleted)
    ensures !TakesUp(s, a, ai) && a != Return(ai, true) && a != Return(ai, false)
  {
    hide Inv, Tally, S.Apply, S.Enabled;
    NowhereLeft(s, ai);
  }

  lemma NowhereLeft(s: State, ai: Task)
    requires Inv(s) && IsAt(s.place, ai, Deleted)
    ensures s.sched.current.task != Some(ai) && ai !in s.adding && ai !in s.executing
  {
  }

  /** Main theorem, over runs: once the function of an AI has returned true, no timer thread
      ever takes that AI up again. */
  lemma {:induction false} NeverExecutedAgain(ss: seq<State>, acts: seq<Action>, ai: Task, i: nat, j: nat)
    requires Run(ss, acts) && i < j < |ss| && acts[i] == Return(ai, true)
    ensures IsAt(ss[j].place, ai, Deleted)
    ensures j < |acts| ==> !TakesUp(ss[j], acts[j], ai) && acts[j] != Return(ai, true) && acts[j] != Return(ai, false)
  {
    hide Inv, Enabled;
    if i + 1 < j {
      NeverExecutedAgain(ss, acts, ai, i, j - 1);
      EveryReachableStateOk(ss, acts, j - 1);
      DeletedStays(ss[j - 1], acts[j - 1], ai);
    }
    EveryReachableStateOk(ss, acts, j);
    if j < |acts| {
      DeletedStays(ss[j], acts[j], ai);
    }
  }

  lemma DeletedByReturnOnly(s: State, a: Action, ai: Task)
    requires Inv(s) && Enabled(s, a) && !IsAt(s.place, ai, Deleted)
    ensures IsAt(Apply(s, a).place, ai, Deleted) <==> a == Return(ai, true)
  {
    hide Inv, S.Apply, S.Enabled;
  }

  /** Main theorem, over runs: an AI is deleted if and only if its function has returned true
      once. */
  lemma {:induction false} DeletedIff(ss: seq<State>, acts: seq<Action>, ai: Task, j: nat)
    requires Run(ss, acts) && j < |ss|
    ensures IsAt(ss[j].place, ai, Deleted) <==> exists i :: 0 <= i < j && acts[i] == Return(ai, true)
  {
    hide Inv, Enabled, Apply;
    if j > 0 {
      DeletedIff(ss, acts, ai, j - 1);
      EveryReachableStateOk(ss, acts, j - 1);
      if IsAt(ss[j - 1].place, ai, Deleted) {
        DeletedStays(ss[j - 1], acts[j - 1], ai);
      } else {
        DeletedByReturnOnly(ss[j - 1], acts[j - 1], ai);
      }
    }
  }

  /** What Perform does after the function returned `done`, in the machine: the AI is deleted,
      or handed back and the timer re-armed; the scheduler sees the latter only. */
  lemma PerformIsReturn(s: State, ai: Task, done: bool, ms: nat)
    requires Inv(s) && ai in s.executing && ms > 0
    ensures Enabled(s, Return(ai, done))
    ensures done ==> Apply(s, Return(ai, true)).sched == s.sched && IsAt(Apply(s, Return(ai, true)).place, ai, Deleted)
    ensures !done ==>
              var t := Apply(s, Return(ai, false));
              var u := Apply(t, Enqueue(ai, ms));
              && Enabled(t, Enqueue(ai, ms)) && Enabled(u, Timer(S.Arm))
              && Apply(u, Timer(S.Arm)).sched == S.Apply(S.Apply(s.sched, S.Add(ai, ms)), S.Arm)
              && IsAt(u.place, ai, Scheduled(S.Item(ai, S.Deadline(ms))))
  {
    hide S.Inv, Tally, S.Waiting, S.Deadline;
  }

  // ----- the class -----

  class AI {
    const task: Task
    const timeToCheck: nat
    var deleted: bool

    /** The constructor schedules the first call; `now` is the clock in milliseconds. */
    constructor (task: Task, timeToCheck: nat, scheduler: S.Scheduler, now: nat)
      requires scheduler.Valid() && now + timeToCheck > 0
      modifies scheduler, scheduler.wq
      ensures this.task == task && this.timeToCheck == timeToCheck && !deleted && scheduler.Valid()
      ensures scheduler.history == S.Apply(S.Apply(old(scheduler.history), S.Add(task, now + timeToCheck)), S.Arm)
    {
      this.task, this.timeToCheck, deleted := task, timeToCheck, false;
      new;
      hide S.Apply, S.Inv;
      scheduler.AddTask(task, now + timeToCheck);
      scheduler.ArmTimer();
    }

    /** Perform, after the function has returned `done`. */
    method Perform(done: bool, scheduler: S.Scheduler, now: nat)
      requires scheduler.Valid() && now + timeToCheck > 0 && !deleted
      modifies this, scheduler, scheduler.wq
      ensures scheduler.Valid() && deleted == done
      ensures scheduler.history ==
              if done then old(scheduler.history)
              else S.Apply(S.Apply(old(scheduler.history), S.Add(task, now + timeToCheck)), S.Arm)
    {
      hide S.Apply, S.Inv;
      if !done {
        scheduler.AddTask(task, now + timeToCheck);
        scheduler.ArmTimer();
      } else {
        deleted := true;
      }
    }
  }
}
