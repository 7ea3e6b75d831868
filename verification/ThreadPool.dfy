/** The thread pool of src/threadpool.cpp as a machine of atomic steps: any number of
    workers, one controlling thread, and anybody submitting tasks. */
module ThreadPool {
  import opened Queue

  const ADMIN := 3
  const ADMIN_STOP := 4

  /** An entry of the task queue. A user's priority is low, normal or high. */
  datatype Job = User(id: nat, priority: nat) | PausePill | KillPill

  function Priority(j: Job): nat {
    match j
    case User(_, p) => if p < 3 then p else 2
    case PausePill => ADMIN
    case KillPill => ADMIN_STOP
  }

  /** ThreadPool::Compare. */
  function Compare(): (Job, Job) -> bool {
    (a: Job, b: Job) => Priority(a) < Priority(b)
  }

  /** What a thread of m_thread_arr is doing. */
  datatype Phase =
    | Idle        // in the loop of ThreadFunc, before its next Pop
    | Running     // in a user's task
    | Entering    // has a pause pill, before it is counted in m_pause_ready
    | Paused      // counted, and waiting for m_resume
    | Dead        // has left ThreadFunc

  /** Where the controlling thread is. */
  datatype Control =
    | Ready
    | PauseWait                 // spins until m_pause_ready is 0
    | PauseClear                // about to clear m_resume
    | PausePush(i: nat)         // i pause pills queued
    | PauseSpin                 // spins until m_pause_ready reaches m_thread_num
    | Resizing(i: nat, num: nat) // SetNumThreads, i threads accounted for so far
    | Destroying(i: nat)        // the destructor, i kill pills queued
    | Joining
    | Gone

  datatype State = State(
    workers: seq<Phase>, queue: multiset<Job>, threadNum: nat, resume: bool, pauseReady: nat, control: Control,
    // bookkeeping: a Pause has returned and no Resume followed; it began with a thread to
    // pause and the pool has not grown since; kill pills queued so far
    held: bool, strict: bool, kills: nat)

  function Init(n: nat): State {
    State(seq(n, _ => Idle), multiset{}, n, false, 0, Ready, false, false, 0)
  }

  datatype Action =
    | Submit(id: nat, priority: nat)
    | Take(w: nat, job: Job)      // a worker's Pop, and the start of what it popped
    | Finish(w: nat)              // a user's task ends
    | Enter(w: nat)               // PauseTask up to its wait
    | Leave(w: nat)               // PauseTask wakes up and returns
    | Begin(c: Call)              // the controller calls an operation
    | Advance                     // and takes its next step

  datatype Call = CallPause | CallResume | CallSetNumThreads(num: nat) | CallDestructor

  ghost predicate Enabled(s: State, a: Action) {
    match a
    case Submit(_, priority) => priority < 3
    case Take(w, job) => w < |s.workers| && s.workers[w] == Idle && IsTop(Compare(), s.queue, job)
    case Finish(w) => w < |s.workers| && s.workers[w] == Running
    case Enter(w) => w < |s.workers| && s.workers[w] == Entering
    case Leave(w) => w < |s.workers| && s.workers[w] == Paused && s.resume
    case Begin(_) => s.control == Ready
    case Advance =>
      match s.control
      case Ready => false
      case PauseWait => s.pauseReady == 0
      case PauseSpin => s.pauseReady >= s.threadNum
      case Joining => forall w :: 0 <= w < |s.workers| ==> s.workers[w] == Dead
      case Gone => false
      case _ => true
  }

  function Started(job: Job): Phase {
    match job
    case User(_, _) => Running
    case PausePill => Entering
    case KillPill => Dead
  }

  function Dec(n: nat): nat {
    if n == 0 then 0 else n - 1
  }

  function Apply(s: State, a: Action): State {
    match a
    case Submit(id, priority) => s.(queue := s.queue + multiset{User(id, priority)})
    case Take(w, job) =>
      if w >= |s.workers| then s
      else s.(workers := s.workers[w := Started(job)], queue := s.queue - multiset{job})
    case Finish(w) => if w >= |s.workers| then s else s.(workers := s.workers[w := Idle])
    case Enter(w) =>
      if w >= |s.workers| then s
      else if s.resume then s.(workers := s.workers[w := Idle])    // counted and uncounted under one lock
      else s.(workers := s.workers[w := Paused], pauseReady := s.pauseReady + 1)
    case Leave(w) =>
      if w >= |s.workers| then s else s.(workers := s.workers[w := Idle], pauseReady := Dec(s.pauseReady))
    case Begin(c) => ApplyBegin(s, c)
    case Advance => ApplyAdvance(s)
  }

  function ApplyBegin(s: State, c: Call): State {
    match c
    case CallPause => s.(control := PauseWait)
    case CallResume => s.(resume := true, held := false)
    case CallSetNumThreads(num) => s.(control := Resizing(s.threadNum, num))
    case CallDestructor => s.(control := Destroying(0))
  }

  function ApplyAdvance(s: State): State {
    match s.control
    case PauseWait => s.(control := PauseClear)
    case PauseClear => s.(resume := false, held := false, control := PausePush(0))
    case PausePush(i) =>
      if i < s.threadNum then s.(queue := s.queue + multiset{PausePill}, control := PausePush(i + 1))
      else s.(control := PauseSpin)
    case PauseSpin => s.(held := true, strict := s.threadNum >= 1, control := Ready)
    case Resizing(i, num) =>
      if i < num then s.(workers := s.workers + [Idle], strict := false, control := Resizing(i + 1, num))
      else if i > num then s.(queue := s.queue + multiset{KillPill}, kills := s.kills + 1, control := Resizing(i - 1, num))
      else s.(threadNum := num, control := Ready)
    case Destroying(i) =>
      if i < s.threadNum then s.(queue := s.queue + multiset{KillPill}, kills := s.kills + 1, control := Destroying(i + 1))
      else s.(control := Joining)
    case Joining => s.(control := Gone)
    case _ => s
  }

  // ----- counting workers -----

  function Count(ws: seq<Phase>, p: Phase): nat {
    if ws == [] then 0 else Count(ws[..|ws| - 1], p) + if ws[|ws| - 1] == p then 1 else 0
  }

  function Is(p: Phase, q: Phase): nat {
    if p == q then 1 else 0
  }

  lemma {:induction false} CountUpdate(ws: seq<Phase>, w: nat, p: Phase, q: Phase)
    requires w < |ws|
    ensures Count(ws, q) >= Is(ws[w], q)
    ensures Count(ws[w := p], q) == Count(ws, q) - Is(ws[w], q) + Is(p, q)
  {
    var n := |ws| - 1;
    if w < n {
      CountUpdate(ws[..n], w, p, q);
      assert ws[w := p][..n] == ws[..n][w := p];
    } else {
      assert ws[w := p][..n] == ws[..n];
    }
  }

  lemma {:induction false} CountMove(ws: seq<Phase>, w: nat, p: Phase)
    requires w < |ws|
    ensures forall q :: Count(ws, q) >= Is(ws[w], q) && Count(ws[w := p], q) == Count(ws, q) - Is(ws[w], q) + Is(p, q)
  {
    hide Count;
    forall q {
      CountUpdate(ws, w, p, q);
    }
  }

  lemma CountAppend(ws: seq<Phase>, p: Phase)
    ensures forall q :: Count(ws + [p], q) == Count(ws, q) + Is(p, q)
  {
  }

  lemma {:induction false} CountTotal(ws: seq<Phase>)
    ensures |ws| == Count(ws, Idle) + Count(ws, Running) + Count(ws, Entering) + Count(ws, Paused) + Count(ws, Dead)
  {
    if ws != [] {
      CountTotal(ws[..|ws| - 1]);
    }
  }

  lemma {:induction false} CountOfAll(ws: seq<Phase>, p: Phase)
    ensures Count(ws, p) == |ws| <==> forall w :: 0 <= w < |ws| ==> ws[w] == p
    ensures Count(ws, p) == 0 <==> forall w :: 0 <= w < |ws| ==> ws[w] != p
    ensures Count(ws, p) <= |ws|
  {
    if ws != [] {
      CountOfAll(ws[..|ws| - 1], p);
    }
  }

  function Live(s: State): nat {
    CountOfAll(s.workers, Dead);
    |s.workers| - Count(s.workers, Dead)
  }

  // ----- the invariant -----

  /** What live workers exceed queued kill pills by: m_thread_num, as far as the controller
      has got with changing it. */
  function Target(s: State): int {
    match s.control
    case Resizing(i, _) => i
    case Destroying(i) => s.threadNum - i
    case Joining => 0
    case Gone => 0
    case _ => s.threadNum
  }

  ghost predicate Accounted(s: State) {
    && Live(s) == s.queue[KillPill] + Target(s)
    && s.kills == s.queue[KillPill] + Count(s.workers, Dead)
    && s.pauseReady == Count(s.workers, Paused)
    && (s.control.Destroying? ==> s.control.i <= s.threadNum)
  }

  /** Pause pills, queued or taken up, since the Pause in progress began. */
  function PauseTokens(s: State): nat {
    s.queue[PausePill] + Count(s.workers, Entering) + Count(s.workers, Paused)
  }

  predicate Pausing(s: State) {
    s.control.PausePush? || s.control.PauseSpin?
  }

  /** A worker takes a pause pill only once all kill pills are gone, and every pill is taken
      by a worker that then stays. */
  ghost predicate PauseOk(s: State) {
    if Pausing(s) then
      && !s.resume && !s.held
      && PauseTokens(s) == (if s.control.PausePush? then s.control.i else s.threadNum)
      && PauseTokens(s) <= s.threadNum
      && (Count(s.workers, Entering) + Count(s.workers, Paused) > 0 ==> s.queue[KillPill] == 0)
    else
      && s.queue[PausePill] == 0 && Count(s.workers, Entering) == 0
      && (s.held ==> !s.resume)
      && (!s.held && Count(s.workers, Paused) > 0 ==> s.resume)
      && (s.control.PauseClear? ==> Count(s.workers, Paused) == 0)
  }

  /** The barrier: nobody is outside PauseTask. */
  ghost predicate Barrier(s: State) {
    Count(s.workers, Idle) == 0 && Count(s.workers, Running) == 0 && Count(s.workers, Entering) == 0
  }

  ghost predicate Inv(s: State) {
    Accounted(s) && PauseOk(s) && (s.held && s.strict ==> Barrier(s) && s.pauseReady >= 1)
  }

  lemma InitHolds(n: nat)
    ensures Inv(Init(n))
  {
    CountTotal(Init(n).workers);
    CountOfAll(Init(n).workers, Idle);
  }

  /** A worker that finds a pause pill on top finds no kill pill in the queue. */
  lemma TopJob(q: multiset<Job>, job: Job)
    requires IsTop(Compare(), q, job)
    ensures job in q && forall y :: y in q ==> Priority(y) <= Priority(job)
    ensures KillPill in q ==> job == KillPill
    ensures PausePill in q ==> !job.User?
    ensures job.User? ==> forall y :: y in q && y.User? && y.priority < 3 && job.priority < 3 ==> y.priority <= job.priority
  {
  }

  lemma WorkerStepKeeps(s: State, w: nat, a: Action)
    requires Inv(s) && Enabled(s, a)
    requires a.Finish? || a.Enter? || a.Leave?
    requires a.w == w
    ensures Inv(Apply(s, a))
  {
    hide Count;
    var t := Apply(s, a);
    CountMove(s.workers, w, t.workers[w]);
  }

  lemma TakeKeeps(s: State, w: nat, job: Job)
    requires Inv(s) && Enabled(s, Take(w, job))
    ensures Inv(Apply(s, Take(w, job)))
  {
    hide Count;
    TopJob(s.queue, job);
    CountMove(s.workers, w, Started(job));
  }

  lemma PauseAdvances(s: State)
    requires Inv(s) && Enabled(s, Advance) && (s.control.PauseWait? || s.control.PauseClear? || s.control.PausePush?)
    ensures Inv(Apply(s, Advance))
  {
    hide Count;
  }

  /** The step on which Pause returns: it is a barrier exactly if there was a thread to
      pause, or else no worker that a kill pill is still queued for. */
  lemma PauseReturns(s: State)
    requires Inv(s) && Enabled(s, Advance) && s.control.PauseSpin?
    ensures Inv(Apply(s, Advance))
    ensures Barrier(s) <==> s.threadNum >= 1 || s.queue[KillPill] == 0
    ensures s.threadNum >= 1 ==> Barrier(s) && Live(s) == s.threadNum && s.queue[KillPill] == 0 && s.queue[PausePill] == 0
  {
    hide Count;
    CountTotal(s.workers);
  }

  lemma ResizeAdvances(s: State)
    requires Inv(s) && Enabled(s, Advance) && s.control.Resizing?
    ensures Inv(Apply(s, Advance))
  {
    hide Count;
    CountAppend(s.workers, Idle);
  }

  lemma DestructorAdvances(s: State)
    requires Inv(s) && Enabled(s, Advance) && (s.control.Destroying? || s.control.Joining?)
    ensures Inv(Apply(s, Advance))
  {
    hide Count;
  }

  /** Every step of every thread keeps the invariant. */
  lemma EveryStepKeeps(s: State, a: Action)
    requires Inv(s) && Enabled(s, a)
    ensures Inv(Apply(s, a))
  {
    hide Inv, Apply;
    match a
    case Take(w, job) => TakeKeeps(s, w, job);
    case Advance => AdvanceKeeps(s);
    case Submit(_, _) => SubmitKeeps(s, a);
    case Begin(c) => BeginKeeps(s, c);
    case _ => WorkerStepKeeps(s, a.w, a);
  }

  lemma AdvanceKeeps(s: State)
    requires Inv(s) && Enabled(s, Advance)
    ensures Inv(Apply(s, Advance))
  {
    hide Inv, Apply;
    match s.control
    case PauseSpin => PauseReturns(s);
    case Resizing(_, _) => ResizeAdvances(s);
    case Destroying(_) => DestructorAdvances(s);
    case Joining => DestructorAdvances(s);
    case _ => PauseAdvances(s);
  }

  lemma SubmitKeeps(s: State, a: Action)
    requires Inv(s) && a.Submit?
    ensures Inv(Apply(s, a))
  {
  }

  lemma BeginKeeps(s: State, c: Call)
    requires Inv(s) && s.control == Ready
    ensures Inv(Apply(s, Begin(c)))
  {
  }

  // ----- what follows over runs -----

  ghost predicate Run(n: nat, ss: seq<State>, acts: seq<Action>) {
    && |ss| == |acts| + 1 && ss[0] == Init(n)
    && forall k :: 0 <= k < |acts| ==> Enabled(ss[k], acts[k]) && ss[k + 1] == Apply(ss[k], acts[k])
  }

  lemma {:induction false} EveryReachableStateOk(n: nat, ss: seq<State>, acts: seq<Action>, k: nat)
    requires Run(n, ss, acts) && k < |ss|
    ensures Inv(ss[k])
  {
    if k == 0 {
      InitHolds(n);
    } else {
      EveryReachableStateOk(n, ss, acts, k - 1);
      EveryStepKeeps(ss[k - 1], acts[k - 1]);
    }
  }

  /** Main theorem of pausing. While a Pause that had a thread to pause has returned and
      neither Resume nor growth followed, every thread of the pool is blocked in PauseTask
      or has ended, and no worker can take anything from the queue: whatever kill pills an
      earlier shrink had left, and whatever the interleaving. */
  lemma PauseBarrier(n: nat, ss: seq<State>, acts: seq<Action>, k: nat)
    requires Run(n, ss, acts) && k < |ss| && ss[k].held && ss[k].strict
    ensures forall w :: 0 <= w < |ss[k].workers| ==> ss[k].workers[w] == Paused || ss[k].workers[w] == Dead
    ensures !ss[k].resume
    ensures k < |acts| ==> !acts[k].Take? && !acts[k].Finish? && !acts[k].Enter? && !acts[k].Leave?
  {
    EveryReachableStateOk(n, ss, acts, k);
    var s := ss[k];
    CountOfAll(s.workers, Idle);
    CountOfAll(s.workers, Running);
    CountOfAll(s.workers, Entering);
    forall w | 0 <= w < |s.workers|
      ensures s.workers[w] == Paused || s.workers[w] == Dead
    {
    }
  }

  /** While a pool is held, every live worker is counted in m_pause_ready exactly if the
      barrier stands. */
  lemma BarrierIff(s: State)
    requires Inv(s) && s.held
    ensures Barrier(s) <==> s.pauseReady == s.queue[KillPill] + Target(s)
  {
    hide Count;
    CountTotal(s.workers);
  }

  /** Every thread of the pool is blocked in PauseTask or has ended. */
  predicate AllBlocked(ws: seq<Phase>) {
    forall w :: 0 <= w < |ws| ==> ws[w] == Paused || ws[w] == Dead
  }

  lemma BarrierMeansBlocked(s: State)
    ensures Barrier(s) <==> AllBlocked(s.workers)
  {
    CountOfAll(s.workers, Idle);
    CountOfAll(s.workers, Running);
    CountOfAll(s.workers, Entering);
    hide Count;
  }

  /** Over every run, when Pause returns: every thread is blocked or has ended exactly if the
      pool had a thread to pause or no kill pill was left. */
  lemma PauseIsBarrierIff(n: nat, ss: seq<State>, acts: seq<Action>, k: nat)
    requires Run(n, ss, acts) && k < |acts| && acts[k] == Advance && ss[k].control == PauseSpin
    ensures ss[k + 1].held
    ensures AllBlocked(ss[k + 1].workers) <==> ss[k].threadNum >= 1 || ss[k].queue[KillPill] == 0
  {
    EveryReachableStateOk(n, ss, acts, k);
    PauseReturns(ss[k]);
    BarrierMeansBlocked(ss[k]);
    hide Inv, Barrier;
  }

  /** And over every run, from then until Resume, whatever the pool was resized to: every
      thread is blocked or has ended exactly if m_pause_ready counts as many as there are
      kill pills queued and threads to be left. Then no worker can take a step. */
  lemma BarrierStandsIff(n: nat, ss: seq<State>, acts: seq<Action>, k: nat)
    requires Run(n, ss, acts) && k < |ss| && ss[k].held
    ensures var s := ss[k];
            && (AllBlocked(s.workers) <==> s.pauseReady == s.queue[KillPill] + Target(s))
            && (s.pauseReady == s.queue[KillPill] + Target(s) && k < |acts| ==>
                  !acts[k].Take? && !acts[k].Finish? && !acts[k].Enter? && !acts[k].Leave?)
  {
    EveryReachableStateOk(n, ss, acts, k);
    BarrierIff(ss[k]);
    BarrierMeansBlocked(ss[k]);
    HeldStaysClosed(ss[k]);
    hide Inv, Barrier, Target;
  }

  lemma HeldStaysClosed(s: State)
    requires Inv(s) && s.held
    ensures !s.resume
  {
    hide Count;
  }

  /** Main theorem of accounting: between operations the live workers exceed the queued kill
      pills by m_thread_num, each ended worker took exactly one pill, and once the pills are
      gone the pool has exactly m_thread_num workers. */
  lemma WorkersAccountedFor(n: nat, ss: seq<State>, acts: seq<Action>, k: nat)
    requires Run(n, ss, acts) && k < |ss|
    ensures var s := ss[k];
            && s.kills == s.queue[KillPill] + Count(s.workers, Dead)
            && (s.control == Ready ==> Live(s) == s.queue[KillPill] + s.threadNum)
            && (s.control == Ready && s.queue[KillPill] == 0 ==> Live(s) == s.threadNum)
            && (s.control == Gone ==> s.queue[KillPill] == 0 && forall w :: 0 <= w < |s.workers| ==> s.workers[w] == Dead)
  {
    EveryReachableStateOk(n, ss, acts, k);
    hide Count, Enabled, Apply;
    if ss[k].control == Gone {
      GoneMeansAllDead(n, ss, acts, k);
      CountOfAll(ss[k].workers, Dead);
    }
  }

  lemma AllDeadStays(s: State, a: Action)
    requires Enabled(s, a) && Apply(s, a).control == Gone
    requires s.control == Gone ==> forall w :: 0 <= w < |s.workers| ==> s.workers[w] == Dead
    ensures forall w :: 0 <= w < |Apply(s, a).workers| ==> Apply(s, a).workers[w] == Dead
  {
    assert s.control == Gone || (s.control == Joining && a == Advance);
    hide IsTop;
  }

  lemma {:induction false} GoneMeansAllDead(n: nat, ss: seq<State>, acts: seq<Action>, k: nat)
    requires Run(n, ss, acts) && k < |ss| && ss[k].control == Gone
    ensures forall w :: 0 <= w < |ss[k].workers| ==> ss[k].workers[w] == Dead
  {
    hide Enabled, Apply;
    if k > 0 {
      if ss[k - 1].control == Gone {
        GoneMeansAllDead(n, ss, acts, k - 1);
      }
      AllDeadStays(ss[k - 1], acts[k - 1]);
    }
  }

  /** How often a user's task was submitted, and how often a worker started it, in the first
      `k` steps. */
  function Submitted(acts: seq<Action>, k: nat, job: Job): nat
    requires k <= |acts| && job.User?
  {
    if k == 0 then 0 else Submitted(acts, k - 1, job) + if acts[k - 1] == Submit(job.id, job.priority) then 1 else 0
  }

  function StartedTimes(acts: seq<Action>, k: nat, job: Job): nat
    requires k <= |acts|
  {
    if k == 0 then 0 else StartedTimes(acts, k - 1, job) + if acts[k - 1].Take? && acts[k - 1].job == job then 1 else 0
  }

  lemma QueueStep(s: State, a: Action, job: Job)
    requires Enabled(s, a) && job.User?
    ensures Apply(s, a).queue[job] ==
            s.queue[job] + (if a == Submit(job.id, job.priority) then 1 else 0) - (if a.Take? && a.job == job then 1 else 0)
  {
  }

  /** Over every run: each submission of a task is started at most once, and is in the queue
      until then. */
  lemma {:induction false} TasksAreConserved(n: nat, ss: seq<State>, acts: seq<Action>, k: nat, job: Job)
    requires Run(n, ss, acts) && k < |ss| && job.User?
    ensures Submitted(acts, k, job) == StartedTimes(acts, k, job) + ss[k].queue[job]
  {
    hide Enabled, Apply;
    if k > 0 {
      TasksAreConserved(n, ss, acts, k - 1, job);
      QueueStep(ss[k - 1], acts[k - 1], job);
    }
  }

  // ----- the pool settles -----

  function Weight(p: Phase): nat {
    match p
    case Idle => 1
    case Running => 2
    case Entering => 3
    case Paused => 2
    case Dead => 0
  }

  function Work(ws: seq<Phase>): nat {
    if ws == [] then 0 else Work(ws[..|ws| - 1]) + Weight(ws[|ws| - 1])
  }

  lemma {:induction false} WorkUpdate(ws: seq<Phase>, w: nat, p: Phase)
    requires w < |ws|
    ensures Work(ws[w := p]) == Work(ws) - Weight(ws[w]) + Weight(p)
  {
    var n := |ws| - 1;
    if w < n {
      WorkUpdate(ws[..n], w, p);
      assert ws[w := p][..n] == ws[..n][w := p];
    } else {
      assert ws[w := p][..n] == ws[..n];
    }
  }

  predicate IsWorkerStep(a: Action) {
    a.Take? || a.Finish? || a.Enter? || a.Leave?
  }

  /** While kill pills are queued a worker can start nothing else, so every worker step
      brings the pool closer to having consumed them. */
  lemma WorkersRunDown(s: State, a: Action)
    requires Enabled(s, a) && IsWorkerStep(a) && s.queue[KillPill] > 0
    ensures Work(Apply(s, a).workers) < Work(s.workers)
  {
    hide Work;
    if a.Take? {
      TopJob(s.queue, a.job);
    }
    WorkUpdate(s.workers, a.w, Apply(s, a).workers[a.w]);
  }

  /** The workers that are paused for good, if nobody resumes them, are no more than are to
      be left: enough others remain to consume the kill pills. */
  predicate PillsCanGo(s: State) {
    s.resume || s.pauseReady <= Target(s)
  }

  /** Then some worker can take a step as long as a pill is queued. */
  lemma SomeWorkerCanStep(s: State)
    requires Inv(s) && PillsCanGo(s) && (s.control == Ready || s.control == Joining) && s.queue[KillPill] > 0
    ensures exists a :: IsWorkerStep(a) && Enabled(s, a)
  {
    CountTotal(s.workers);
    CountOfAll(s.workers, Idle);
    CountOfAll(s.workers, Running);
    CountOfAll(s.workers, Paused);
    hide Count;
    if w :| 0 <= w < |s.workers| && s.workers[w] == Idle {
      assert IsTop(Compare(), s.queue, KillPill);
      assert Enabled(s, Take(w, KillPill));
    } else if w :| 0 <= w < |s.workers| && s.workers[w] == Running {
      assert Enabled(s, Finish(w));
    } else {
      var w :| 0 <= w < |s.workers| && s.workers[w] == Paused;
      assert Enabled(s, Leave(w));
    }
  }

  /** The destructor's join can end exactly when the last pill is gone. */
  lemma DestructorEndsWithLastPill(s: State)
    requires Inv(s) && s.control == Joining
    ensures Enabled(s, Advance) <==> s.queue[KillPill] == 0
  {
    CountOfAll(s.workers, Dead);
    hide Count;
  }

  function WorkerSteps(acts: seq<Action>): nat {
    if acts == [] then 0 else WorkerSteps(acts[..|acts| - 1]) + if IsWorkerStep(acts[|acts| - 1]) then 1 else 0
  }

  /** Workers stepping and tasks being submitted, while the controller does nothing. */
  ghost predicate WorkersOnly(ss: seq<State>, acts: seq<Action>) {
    && |ss| == |acts| + 1
    && forall k :: 0 <= k < |acts| ==>
         (IsWorkerStep(acts[k]) || acts[k].Submit?) && Enabled(ss[k], acts[k]) && ss[k + 1] == Apply(ss[k], acts[k])
  }

  lemma WorkerStepsLeave(s: State, a: Action)
    requires Inv(s) && Enabled(s, a) && (IsWorkerStep(a) || a.Submit?) && (s.control == Ready || s.control == Joining)
    ensures var t := Apply(s, a);
            && t.control == s.control && t.held == s.held && t.threadNum == s.threadNum && t.resume == s.resume
            && Target(t) == Target(s) && (PillsCanGo(s) ==> PillsCanGo(t))
            && (!PillsCanGo(s) ==> !PillsCanGo(t))
    ensures a.Submit? ==> Apply(s, a).workers == s.workers
  {
    hide IsTop;
    if a.Enter? {
      CountOfAll(s.workers, Entering);
    } else if a.Take? {
      TopJob(s.queue, a.job);
    }
    hide Count;
  }

  /** Main theorem of shrinking and destruction: if the paused workers are not too many,
      then while kill pills are queued the workers take at most a bounded number of steps,
      whatever is submitted meanwhile; when they cannot take another the pills are gone, and
      then the pool has exactly m_thread_num workers and a destructor that waits for them can
      end. */
  lemma {:induction false} PillsRunOut(ss: seq<State>, acts: seq<Action>)
    requires WorkersOnly(ss, acts) && Inv(ss[0]) && PillsCanGo(ss[0]) && (ss[0].control == Ready || ss[0].control == Joining)
    requires forall k :: 0 <= k < |acts| ==> ss[k].queue[KillPill] > 0
    ensures var t := ss[|acts|];
            && Inv(t) && PillsCanGo(t) && t.held == ss[0].held && t.control == ss[0].control && t.threadNum == ss[0].threadNum
            && WorkerSteps(acts) + Work(t.workers) <= Work(ss[0].workers)
            && ((forall a :: IsWorkerStep(a) ==> !Enabled(t, a)) ==> t.queue[KillPill] == 0)
            && (t.queue[KillPill] == 0 && t.control == Ready ==> Live(t) == t.threadNum)
            && (t.queue[KillPill] == 0 && t.control == Joining ==> Enabled(t, Advance) && Live(t) == 0)
    decreases |acts|
  {
    hide Work, Live, Apply, Enabled, Inv, Target;
    var n := |acts|;
    if n > 0 {
      PillsRunOut(ss[..n], acts[..n - 1]);
      var s, a := ss[n - 1], acts[n - 1];
      assert ss[..n][n - 1] == s;
      WorkerStepsLeave(s, a);
      EveryStepKeeps(s, a);
      if IsWorkerStep(a) {
        WorkersRunDown(s, a);
      }
    }
    WhenNoPillIsLeft(ss[n]);
  }

  lemma WhenNoPillIsLeft(t: State)
    requires Inv(t) && PillsCanGo(t) && (t.control == Ready || t.control == Joining)
    ensures (forall a :: IsWorkerStep(a) ==> !Enabled(t, a)) ==> t.queue[KillPill] == 0
    ensures t.queue[KillPill] == 0 && t.control == Ready ==> Live(t) == t.threadNum
    ensures t.queue[KillPill] == 0 && t.control == Joining ==> Enabled(t, Advance) && Live(t) == 0
  {
    if t.queue[KillPill] > 0 {
      SomeWorkerCanStep(t);
    } else if t.control == Joining {
      DestructorEndsWithLastPill(t);
    }
    hide Count, Enabled;
  }

  /** A pool that is not held never has too many paused workers. */
  lemma NotHeldMeansPillsCanGo(s: State)
    requires Inv(s) && !s.held && !Pausing(s)
    ensures PillsCanGo(s)
  {
    hide Count;
  }

  /** So after every run, a pool that is not held settles after a shrink, and its destructor
      ends, within a bounded number of worker steps. */
  lemma PoolNotHeldSettles(n: nat, ss: seq<State>, acts: seq<Action>, k: nat, later: seq<State>, steps: seq<Action>)
    requires Run(n, ss, acts) && k < |ss| && !ss[k].held && (ss[k].control == Ready || ss[k].control == Joining)
    requires WorkersOnly(later, steps) && later[0] == ss[k]
    requires forall i :: 0 <= i < |steps| ==> later[i].queue[KillPill] > 0
    ensures var t := later[|steps|];
            && WorkerSteps(steps) + Work(t.workers) <= Work(ss[k].workers)
            && ((forall a :: IsWorkerStep(a) ==> !Enabled(t, a)) ==> t.queue[KillPill] == 0)
            && (t.queue[KillPill] == 0 && t.control == Ready ==> Live(t) == t.threadNum)
            && (t.queue[KillPill] == 0 && t.control == Joining ==> Enabled(t, Advance) && Live(t) == 0)
  {
    EveryReachableStateOk(n, ss, acts, k);
    NotHeldMeansPillsCanGo(ss[k]);
    hide Inv, PillsCanGo, Live, Work, Enabled, Apply, WorkerSteps;
    PillsRunOut(later, steps);
  }

  lemma TooManyPaused(s: State)
    requires Inv(s) && !PillsCanGo(s) && !Pausing(s)
    ensures s.queue[KillPill] > 0
  {
    hide Count;
    CountTotal(s.workers);
  }

  /** And if they are too many, the pills never run out by themselves: a shrink does not
      settle, and a join does not end. */
  lemma {:induction false} PillsStay(ss: seq<State>, acts: seq<Action>, k: nat)
    requires WorkersOnly(ss, acts) && Inv(ss[0]) && !PillsCanGo(ss[0]) && (ss[0].control == Ready || ss[0].control == Joining)
    requires k < |ss|
    ensures Inv(ss[k]) && !PillsCanGo(ss[k]) && ss[k].control == ss[0].control && ss[k].queue[KillPill] > 0
  {
    hide Apply, Enabled, Inv, PillsCanGo, Target;
    if k > 0 {
      PillsStay(ss, acts, k - 1);
      WorkerStepsLeave(ss[k - 1], acts[k - 1]);
      EveryStepKeeps(ss[k - 1], acts[k - 1]);
    }
    TooManyPaused(ss[k]);
  }

  /** The destructor of a held pool with a thread: nothing but submissions can happen, and
      they change no worker. */
  lemma DestructorOfHeldPoolHangs(s: State, a: Action)
    requires Inv(s) && s.control == Joining && s.held && s.strict && Enabled(s, a)
    ensures a.Submit?
    ensures var t := Apply(s, a); t.control == Joining && t.held && t.strict && t.queue[KillPill] > 0 && t.workers == s.workers
  {
    CountOfAll(s.workers, Idle);
    CountOfAll(s.workers, Running);
    CountOfAll(s.workers, Entering);
    CountTotal(s.workers);
    DestructorEndsWithLastPill(s);
    hide Count;
  }

  // ----- exactly when a destructor can end -----

  ghost predicate Reaches(s: State, acts: seq<Action>, t: State)
    decreases |acts|
  {
    if acts == [] then s == t else Enabled(s, acts[0]) && Reaches(Apply(s, acts[0]), acts[1..], t)
  }

  lemma {:induction false} ReachesThen(s: State, acts: seq<Action>, t: State, a: Action)
    requires Reaches(s, acts, t) && Enabled(t, a)
    ensures Reaches(s, acts + [a], Apply(t, a))
    decreases |acts|
  {
    if acts == [] {
      assert [a][1..] == [];
      assert Reaches(Apply(s, a), [], Apply(s, a));
    } else {
      ReachesThen(Apply(s, acts[0]), acts[1..], t, a);
      assert (acts + [a])[1..] == acts[1..] + [a];
    }
  }

  lemma Then(s: State, acts: seq<Action>, t: State, a: Action) returns (acts': seq<Action>, t': State)
    requires Reaches(s, acts, t) && Enabled(t, a)
    ensures Reaches(s, acts', t') && t' == Apply(t, a)
  {
    ReachesThen(s, acts, t, a);
    acts', t' := acts + [a], Apply(t, a);
  }

  predicate InDestructor(s: State) {
    s.control.Destroying? || s.control == Joining
  }

  /** Nobody is paused, or the flag that lets the paused go on is set. */
  predicate NobodyHeldBack(s: State) {
    s.resume || s.pauseReady == 0
  }

  lemma DestructorStep(s: State, a: Action)
    requires Inv(s) && Enabled(s, a) && InDestructor(s)
    ensures var t := Apply(s, a);
            && (NobodyHeldBack(t) <==> NobodyHeldBack(s))
            && (InDestructor(t) || (t.control == Gone && a == Advance && s.control == Joining && s.queue[KillPill] == 0))
  {
    hide IsTop;
    if a.Enter? {
      CountOfAll(s.workers, Entering);
    } else if a == Advance && s.control == Joining {
      DestructorEndsWithLastPill(s);
    }
    hide Count;
  }

  lemma {:induction false} HeldBackForEver(s: State, acts: seq<Action>, t: State)
    requires Inv(s) && InDestructor(s) && !NobodyHeldBack(s) && Reaches(s, acts, t)
    ensures Inv(t) && InDestructor(t) && !NobodyHeldBack(t)
    decreases |acts|
  {
    hide Inv, Enabled, Apply, InDestructor, NobodyHeldBack;
    if acts != [] {
      DestructorStep(s, acts[0]);
      EveryStepKeeps(s, acts[0]);
      StillHeldBack(s, acts[0]);
      HeldBackForEver(Apply(s, acts[0]), acts[1..], t);
    }
  }

  lemma StillHeldBack(s: State, a: Action)
    requires Inv(s) && Enabled(s, a) && InDestructor(s) && !NobodyHeldBack(s)
    ensures InDestructor(Apply(s, a))
  {
    DestructorStep(s, a);
    if s.control == Joining {
      TooManyPaused(s);
    }
    hide Count, Inv;
  }

  /** A way to the end: queue the remaining pills, let workers step while one is queued, and
      join. */
  lemma WayToTheEnd(s: State) returns (acts: seq<Action>, t: State)
    requires Inv(s) && InDestructor(s) && NobodyHeldBack(s)
    ensures Reaches(s, acts, t) && t.control == Gone
  {
    acts, t := [], s;
    assert Reaches(s, acts, t);
    hide Inv, Reaches, Work;
    while t.control.Destroying?
      invariant Inv(t) && InDestructor(t) && NobodyHeldBack(t) && Reaches(s, acts, t)
      decreases if t.control.Destroying? then t.threadNum as int - t.control.i as int + 1 else 0
    {
      DestructorStep(t, Advance);
      EveryStepKeeps(t, Advance);
      ReachesThen(s, acts, t, Advance);
      acts, t := acts + [Advance], Apply(t, Advance);
    }
    while t.queue[KillPill] > 0
      invariant Inv(t) && t.control == Joining && NobodyHeldBack(t) && Reaches(s, acts, t)
      decreases Work(t.workers)
    {
      SomeWorkerCanStep(t);
      var a :| IsWorkerStep(a) && Enabled(t, a);
      DestructorStep(t, a);
      WorkersRunDown(t, a);
      EveryStepKeeps(t, a);
      ReachesThen(s, acts, t, a);
      acts, t := acts + [a], Apply(t, a);
    }
    DestructorEndsWithLastPill(t);
    ReachesThen(s, acts, t, Advance);
    acts, t := acts + [Advance], Apply(t, Advance);
  }

  /** Main theorem of destruction, for every state of every run from the call of the
      destructor on: it can still end exactly if nobody is paused or m_resume is set. (If so,
      PillsRunOut says that it does end however the workers go on.) */
  lemma DestructorEndsIff(n: nat, ss: seq<State>, acts: seq<Action>, k: nat)
    requires Run(n, ss, acts) && k < |ss| && InDestructor(ss[k])
    ensures (exists more, t :: Reaches(ss[k], more, t) && t.control == Gone) <==> ss[k].resume || ss[k].pauseReady == 0
  {
    EveryReachableStateOk(n, ss, acts, k);
    hide Inv, Reaches;
    if NobodyHeldBack(ss[k]) {
      var more, t := WayToTheEnd(ss[k]);
    } else {
      forall more, t | Reaches(ss[k], more, t)
        ensures t.control != Gone
      {
        HeldBackForEver(ss[k], more, t);
      }
    }
  }

  // ----- exactly when a Pause can return -----

  predicate InPause(s: State) {
    s.control == PauseWait || s.control == PauseClear || Pausing(s)
  }

  /** Some worker is still held from an earlier Pause. */
  predicate WaitsForResume(s: State) {
    s.control == PauseWait && !s.resume && s.pauseReady > 0
  }

  lemma StillWaits(s: State, a: Action)
    requires Inv(s) && Enabled(s, a) && WaitsForResume(s)
    ensures WaitsForResume(Apply(s, a))
  {
    hide IsTop;
    if a.Enter? {
      CountOfAll(s.workers, Entering);
    }
    hide Count;
  }

  lemma {:induction false} WaitsForEver(s: State, acts: seq<Action>, t: State)
    requires Inv(s) && WaitsForResume(s) && Reaches(s, acts, t)
    ensures WaitsForResume(t)
    decreases |acts|
  {
    hide Inv, Enabled, Apply, WaitsForResume;
    if acts != [] {
      StillWaits(s, acts[0]);
      EveryStepKeeps(s, acts[0]);
      WaitsForEver(Apply(s, acts[0]), acts[1..], t);
    }
  }

  /** How far the workers are from being paused or killed. */
  function PauseWork(ws: seq<Phase>): nat {
    4 * Count(ws, Running) + 3 * Count(ws, Idle) + 2 * Count(ws, Entering) + Count(ws, Paused)
  }

  /** In the second spin of Pause every worker that is not paused has a pill waiting for it,
      so it can only come closer. */
  lemma SpinRunsDown(s: State, a: Action)
    requires Inv(s) && Enabled(s, a) && s.control == PauseSpin && (IsWorkerStep(a) || a.Submit?)
    ensures var t := Apply(s, a);
            t.control == PauseSpin && t.threadNum == s.threadNum
            && PauseWork(t.workers) <= PauseWork(s.workers) - (if IsWorkerStep(a) then 1 else 0)
  {
    CountTotal(s.workers);
    if IsWorkerStep(a) {
      CountMove(s.workers, a.w, Apply(s, a).workers[a.w]);
    }
    if a.Take? {
      TopJob(s.queue, a.job);
    }
    hide Count, IsTop;
  }

  lemma SpinCanGoOn(s: State)
    requires Inv(s) && s.control == PauseSpin && s.pauseReady < s.threadNum
    ensures exists a :: IsWorkerStep(a) && Enabled(s, a)
  {
    CountTotal(s.workers);
    CountOfAll(s.workers, Idle);
    CountOfAll(s.workers, Running);
    CountOfAll(s.workers, Entering);
    hide Count;
    if w :| 0 <= w < |s.workers| && s.workers[w] == Entering {
      assert Enabled(s, Enter(w));
    } else if w :| 0 <= w < |s.workers| && s.workers[w] == Running {
      assert Enabled(s, Finish(w));
    } else {
      var w :| 0 <= w < |s.workers| && s.workers[w] == Idle;
      var pill := if s.queue[KillPill] > 0 then KillPill else PausePill;
      assert IsTop(Compare(), s.queue, pill);
      assert Enabled(s, Take(w, pill));
    }
  }

  /** Main theorem of the second spin: once the pause pills are queued the workers take at
      most a bounded number of steps, whatever is submitted, and when they cannot take another
      Pause returns. */
  lemma {:induction false} SpinEnds(ss: seq<State>, acts: seq<Action>)
    requires WorkersOnly(ss, acts) && Inv(ss[0]) && ss[0].control == PauseSpin
    ensures var t := ss[|acts|];
            && Inv(t) && t.control == PauseSpin && t.threadNum == ss[0].threadNum
            && WorkerSteps(acts) + PauseWork(t.workers) <= PauseWork(ss[0].workers)
            && ((forall a :: IsWorkerStep(a) ==> !Enabled(t, a)) ==> Enabled(t, Advance))
    decreases |acts|
  {
    hide Inv, PauseWork, Apply;
    var n := |acts|;
    if n > 0 {
      SpinEnds(ss[..n], acts[..n - 1]);
      var s, a := ss[n - 1], acts[n - 1];
      assert ss[..n][n - 1] == s;
      SpinRunsDown(s, a);
      EveryStepKeeps(s, a);
    }
    if ss[n].pauseReady < ss[n].threadNum {
      SpinCanGoOn(ss[n]);
    }
  }

  /** The paused workers leave, so that the first spin ends. */
  lemma WayOutOfTheFirstSpin(s: State) returns (acts: seq<Action>, t: State)
    requires Inv(s) && s.control == PauseWait && !WaitsForResume(s)
    ensures Reaches(s, acts, t) && Inv(t) && t.control == PauseClear
  {
    acts, t := [], s;
    assert Reaches(s, acts, t);
    while t.pauseReady > 0
      invariant Inv(t) && t.control == PauseWait && !WaitsForResume(t) && Reaches(s, acts, t)
      decreases t.pauseReady
    {
      var w := SomePaused(t);
      EveryStepKeeps(t, Leave(w));
      hide Inv, Reaches;
      acts, t := Then(s, acts, t, Leave(w));
    }
    EveryStepKeeps(t, Advance);
    hide Inv, Reaches;
    acts, t := Then(s, acts, t, Advance);
  }

  lemma SomePaused(s: State) returns (w: nat)
    requires Inv(s) && s.pauseReady > 0
    ensures w < |s.workers| && s.workers[w] == Paused
  {
    CountOfAll(s.workers, Paused);
    hide Count;
    w :| 0 <= w < |s.workers| && s.workers[w] == Paused;
  }

  lemma PushedSoFar(s: State)
    requires Inv(s) && s.control.PausePush?
    ensures s.control.i <= s.threadNum
  {
  }

  /** The pause pills are queued, and the workers take them. */
  lemma WayOutOfPause(s: State, before: seq<Action>, from: State) returns (acts: seq<Action>, t: State)
    requires Reaches(s, before, from) && Inv(from) && InPause(from) && from.control != PauseWait
    ensures Reaches(s, acts, t) && t.control == Ready
  {
    hide Inv, Reaches;
    acts, t := before, from;
    if t.control == PauseClear {
      EveryStepKeeps(t, Advance);
      acts, t := Then(s, acts, t, Advance);
    }
    while t.control.PausePush?
      invariant Inv(t) && Pausing(t) && Reaches(s, acts, t)
      decreases if t.control.PausePush? then t.threadNum as int - t.control.i as int + 1 else 0
    {
      PushedSoFar(t);
      EveryStepKeeps(t, Advance);
      acts, t := Then(s, acts, t, Advance);
    }
    while t.pauseReady < t.threadNum
      invariant Inv(t) && t.control == PauseSpin && Reaches(s, acts, t)
      decreases PauseWork(t.workers)
    {
      SpinCanGoOn(t);
      var a :| IsWorkerStep(a) && Enabled(t, a);
      SpinRunsDown(t, a);
      EveryStepKeeps(t, a);
      acts, t := Then(s, acts, t, a);
    }
    acts, t := Then(s, acts, t, Advance);
  }

  /** Main theorem of pausing, for every state of every run from the call of Pause on: it can
      still return exactly if it has passed its first spin, or m_resume is set, or nobody is
      paused. A Pause of a pool that still holds a worker spins for ever. */
  lemma PauseCanReturnIff(n: nat, ss: seq<State>, acts: seq<Action>, k: nat)
    requires Run(n, ss, acts) && k < |ss| && InPause(ss[k])
    ensures (exists more, t :: Reaches(ss[k], more, t) && t.control == Ready)
            <==> ss[k].control != PauseWait || ss[k].resume || ss[k].pauseReady == 0
  {
    EveryReachableStateOk(n, ss, acts, k);
    var s := ss[k];
    if WaitsForResume(s) {
      forall more, t | Reaches(s, more, t)
        ensures t.control != Ready
      {
        WaitsForEver(s, more, t);
      }
    } else {
      var more, t := [], s;
      assert Reaches(s, more, t);
      hide Inv, Reaches;
      if s.control == PauseWait {
        more, t := WayOutOfTheFirstSpin(s);
      }
      more, t := WayOutOfPause(s, more, t);
    }
  }

  // ----- runs that show the failures: pools that are not held although Pause has returned -----

  /** A pool of one worker that is running a user's task while being shrunk to nothing. */
  lemma LastWorkerMayStillRun() returns (acts: seq<Action>, t: State)
    ensures Reaches(Init(1), acts, t)
    ensures t.control == Ready && t.threadNum == 0 && t.pauseReady == 0 && t.workers == [Running]
  {
    var job := User(0, 1);
    acts, t := [], Init(1);
    assert Reaches(Init(1), acts, t);
    hide Reaches;
    acts, t := Then(Init(1), acts, t, Submit(0, 1));
    assert t.queue == multiset{job};
    acts, t := Then(Init(1), acts, t, Take(0, job));
    acts, t := Then(Init(1), acts, t, Begin(CallSetNumThreads(0)));
    acts, t := Then(Init(1), acts, t, Advance);
    acts, t := Then(Init(1), acts, t, Advance);
  }

  /** Pausing a pool of no threads returns at once, whatever its workers are doing. */
  lemma PauseOfNoThreadsReturns(start: State, before: seq<Action>, s: State) returns (acts: seq<Action>, t: State)
    requires Reaches(start, before, s) && s.control == Ready && s.threadNum == 0 && s.pauseReady == 0
    ensures Reaches(start, acts, t) && t == s.(resume := false, held := true, strict := false)
  {
    hide Reaches;
    acts, t := Then(start, before, s, Begin(CallPause));
    acts, t := Then(start, acts, t, Advance);
    acts, t := Then(start, acts, t, Advance);
    acts, t := Then(start, acts, t, Advance);
    acts, t := Then(start, acts, t, Advance);
  }

  /** Here a Pause has returned and a user's task is still running. */
  lemma PauseOfNoThreadsIsNoBarrier() returns (acts: seq<Action>, t: State)
    ensures Reaches(Init(1), acts, t) && t.held && t.workers == [Running]
  {
    var before, s := LastWorkerMayStillRun();
    acts, t := PauseOfNoThreadsReturns(Init(1), before, s);
  }

  /** Pause in a pool of one worker that it still has to pause. */
  lemma OneThreadToPause() returns (acts: seq<Action>, t: State)
    ensures Reaches(Init(1), acts, t)
    ensures t == State([Idle], multiset{PausePill}, 1, false, 0, PauseSpin, false, false, 0)
  {
    acts, t := [], Init(1);
    assert Reaches(Init(1), acts, t);
    hide Reaches;
    acts, t := Then(Init(1), acts, t, Begin(CallPause));
    acts, t := Then(Init(1), acts, t, Advance);
    acts, t := Then(Init(1), acts, t, Advance);
    acts, t := Then(Init(1), acts, t, Advance);
    acts, t := Then(Init(1), acts, t, Advance);
  }

  /** A pool of one worker that is held. */
  lemma OneThreadHeld() returns (acts: seq<Action>, t: State)
    ensures Reaches(Init(1), acts, t)
    ensures t == State([Paused], multiset{}, 1, false, 1, Ready, true, true, 0)
  {
    hide Reaches;
    acts, t := OneThreadToPause();
    acts, t := Then(Init(1), acts, t, Take(0, PausePill));
    acts, t := Then(Init(1), acts, t, Enter(0));
    assert t == State([Paused], multiset{}, 1, false, 1, PauseSpin, false, false, 0);
    acts, t := Then(Init(1), acts, t, Advance);
  }

  /** A thread added to a held pool is not held: here a Pause has returned, nobody has called
      Resume, and a user's task is running. */
  lemma GrownPoolRuns() returns (acts: seq<Action>, t: State)
    ensures Reaches(Init(1), acts, t) && t.held && t.control == Ready && t.workers == [Paused, Running]
  {
    var job := User(0, 1);
    hide Reaches;
    acts, t := OneThreadHeld();
    acts, t := Then(Init(1), acts, t, Begin(CallSetNumThreads(2)));
    acts, t := Then(Init(1), acts, t, Advance);
    acts, t := Then(Init(1), acts, t, Advance);
    assert t == State([Paused, Idle], multiset{}, 2, false, 1, Ready, true, false, 0);
    acts, t := Then(Init(1), acts, t, Submit(0, 1));
    assert t.queue == multiset{job};
    acts, t := Then(Init(1), acts, t, Take(1, job));
  }

  /** And so for any held pool that is being grown. */
  lemma GrowthBreaksTheBarrier(s: State, id: nat)
    requires s.held && s.control.Resizing? && s.control.i < s.control.num && s.queue == multiset{}
    ensures var w := |s.workers|;
            var t := Apply(Apply(s, Advance), Submit(id, 1));
            && Enabled(s, Advance) && Enabled(Apply(s, Advance), Submit(id, 1)) && Enabled(t, Take(w, User(id, 1)))
            && Apply(t, Take(w, User(id, 1))).held && Apply(t, Take(w, User(id, 1))).workers[w] == Running
  {
  }

  /** Destroying a held pool of one thread cannot end. */
  lemma HeldPoolNeverGone() returns (acts: seq<Action>, s: State)
    ensures Reaches(Init(1), acts, s) && InDestructor(s)
    ensures forall more, t :: Reaches(s, more, t) ==> t.control != Gone
  {
    hide Reaches, Inv;
    acts, s := OneThreadHeld();
    acts, s := Then(Init(1), acts, s, Begin(CallDestructor));
    InitHolds(1);
    EveryStepOnTheWay(Init(1), acts, s);
    forall more, t | Reaches(s, more, t)
      ensures t.control != Gone
    {
      HeldBackForEver(s, more, t);
    }
  }

  /** Pausing a held pool of one thread cannot return. */
  lemma SecondPauseNeverReturns() returns (acts: seq<Action>, s: State)
    ensures Reaches(Init(1), acts, s) && s.control == PauseWait
    ensures forall more, t :: Reaches(s, more, t) ==> t.control == PauseWait
  {
    hide Reaches, Inv;
    acts, s := OneThreadHeld();
    acts, s := Then(Init(1), acts, s, Begin(CallPause));
    InitHolds(1);
    EveryStepOnTheWay(Init(1), acts, s);
    forall more, t | Reaches(s, more, t)
      ensures t.control == PauseWait
    {
      WaitsForEver(s, more, t);
    }
  }

  lemma {:induction false} EveryStepOnTheWay(s: State, acts: seq<Action>, t: State)
    requires Inv(s) && Reaches(s, acts, t)
    ensures Inv(t)
    decreases |acts|
  {
    hide Inv, Enabled, Apply;
    if acts != [] {
      EveryStepKeeps(s, acts[0]);
      EveryStepOnTheWay(Apply(s, acts[0]), acts[1..], t);
    }
  }

  // ----- the class -----

  lemma CompareRanks()
    ensures Ranks(Compare(), (j: Job) => Priority(j))
  {
  }

  /** The pool's fields. Each method is what one thread does without being interrupted: a
      queue operation, a critical section, or one turn of a loop of the controller. */
  class ThreadPool {
    const tasks: WaitableQueue<Job>
    var workers: seq<Phase>
    var threadNum: nat
    var resume: bool
    var pauseReady: nat
    ghost var history: State

    ghost predicate Valid()
      reads this, tasks
    {
      && tasks.Valid() && tasks.less == Compare() && Inv(history)
      && history.workers == workers && history.queue == tasks.items && history.threadNum == threadNum
      && history.resume == resume && history.pauseReady == pauseReady
    }

    constructor (n: nat)
      ensures Valid() && history == Init(n) && fresh(tasks)
    {
      CompareRanks();
      InitHolds(n);
      tasks := new WaitableQueue(Compare(), (j: Job) => Priority(j));
      workers, threadNum, resume, pauseReady := seq(n, _ => Idle), n, false, 0;
      history := Init(n);
    }

    method AddTask(id: nat, priority: nat)
      requires Valid() && priority < 3
      modifies this, tasks
      ensures Valid() && history == Apply(old(history), Submit(id, priority))
    {
      EveryStepKeeps(history, Submit(id, priority));
      tasks.Push(User(id, priority));
      history := Apply(history, Submit(id, priority));
    }

    /** One turn of ThreadFunc's loop, up to the start of what was popped. A Pop that times
        out changes nothing. */
    method WorkerTurn(w: nat, locked: bool) returns (code: int)
      requires Valid() && w < |workers| && workers[w] == Idle
      modifies this, tasks
      ensures Valid() && (code == 0 <==> locked && old(tasks.items) != multiset{})
      ensures code != 0 ==> history == old(history)
      ensures code == 0 ==> exists job :: Enabled(old(history), Take(w, job)) && history == Apply(old(history), Take(w, job))
    {
      ghost var s := history;
      var job;
      code, job := tasks.TryPop(locked, KillPill);
      if code == 0 {
        assert Enabled(s, Take(w, job));
        EveryStepKeeps(s, Take(w, job));
        workers := workers[w := Started(job)];
        history := Apply(s, Take(w, job));
      }
    }

    method FinishTask(w: nat)
      requires Valid() && w < |workers| && workers[w] == Running
      modifies this
      ensures Valid() && history == Apply(old(history), Finish(w))
    {
      EveryStepKeeps(history, Finish(w));
      workers := workers[w := Idle];
      history := Apply(history, Finish(w));
    }

    /** PauseTask up to its wait, which is over at once if m_resume is set. */
    method PauseTaskEnter(w: nat)
      requires Valid() && w < |workers| && workers[w] == Entering
      modifies this
      ensures Valid() && history == Apply(old(history), Enter(w))
    {
      EveryStepKeeps(history, Enter(w));
      pauseReady := pauseReady + 1;
      workers := workers[w := Paused];
      if resume {
        pauseReady := pauseReady - 1;
        workers := workers[w := Idle];
      }
      history := Apply(history, Enter(w));
    }

    /** PauseTask after its wait. */
    method PauseTaskLeave(w: nat)
      requires Valid() && w < |workers| && workers[w] == Paused && resume
      modifies this
      ensures Valid() && history == Apply(old(history), Leave(w))
    {
      EveryStepKeeps(history, Leave(w));
      CountMove(workers, w, Idle);
      pauseReady := pauseReady - 1;
      workers := workers[w := Idle];
      history := Apply(history, Leave(w));
    }

    method Resume()
      requires Valid() && history.control == Ready
      modifies this
      ensures Valid() && history == Apply(old(history), Begin(CallResume))
    {
      EveryStepKeeps(history, Begin(CallResume));
      resume := true;
      history := Apply(history, Begin(CallResume));
    }

    /** Pause between its two spins: clears the flag. */
    method ClearResume()
      requires Valid() && history.control.PauseClear?
      modifies this
      ensures Valid() && history == Apply(old(history), Advance)
    {
      hide Inv, IsTop;
      EveryStepKeeps(history, Advance);
      resume := false;
      history := Apply(history, Advance);
    }

    /** One turn of the loop in Pause. */
    method PauseTurn(i: nat)
      requires Valid() && history.control == PausePush(i) && i < threadNum
      modifies this, tasks
      ensures Valid() && history == Apply(old(history), Advance)
    {
      hide Inv, IsTop;
      EveryStepKeeps(history, Advance);
      tasks.Push(PausePill);
      history := Apply(history, Advance);
    }

    /** One turn of SetNumThreads: a new thread, a kill pill, or the final assignment. */
    method ResizeTurn(i: nat, num: nat)
      requires Valid() && history.control == Resizing(i, num)
      modifies this, tasks
      ensures Valid() && history == Apply(old(history), Advance)
    {
      hide Inv, IsTop;
      EveryStepKeeps(history, Advance);
      if i < num {
        workers := workers + [Idle];
      } else if i > num {
        tasks.Push(KillPill);
      } else {
        threadNum := num;
      }
      history := Apply(history, Advance);
    }

    /** One turn of the first loop of the destructor. */
    method DestructorTurn(i: nat)
      requires Valid() && history.control == Destroying(i) && i < threadNum
      modifies this, tasks
      ensures Valid() && history == Apply(old(history), Advance)
    {
      hide Inv, IsTop;
      EveryStepKeeps(history, Advance);
      tasks.Push(KillPill);
      history := Apply(history, Advance);
    }
  }
}
