/** GetInstance of include/singleton.hpp as a machine of atomic steps: any number of calls,
    on any number of threads, in every interleaving of their reads and writes. */
module Singleton {
  type Args = string
  type Address = nat

  /** A pointer to an instance: null or the address of an object. */
  datatype Pointer = Null | To(address: Address)

  /** What `new T(args...)` left behind: which call built it, and from which arguments. The
      object's address is its index among all objects built. */
  datatype Object = Object(builder: nat, args: Args)

  /** What a call is about to do. */
  datatype Phase =
    | Entering                 // read m_supply_flag
    | Supplying                // found it set: load m_instance and return it
    | Initialising             // found it clear: load m_instance
    | Waiting                  // loaded null: lock m_mutex
    | Rechecking               // load m_instance again
    | Building                 // loaded null again: new T(args...)
    | Storing(p: Address)      // store m_instance
    | Flagging(p: Address)     // set m_supply_flag
    | Registering(p: Address)  // atexit(Dtor)
    | Leaving(p: Address)      // unlock and return
    | Returned(result: Pointer)
    | Threw                    // the constructor of T threw, which also unlocked

  datatype Call = Call(args: Args, phase: Phase)

  datatype State = State(
    supplyFlag: bool, instance: Pointer,
    holder: seq<nat>,          // the call that holds m_mutex, if any
    objects: seq<Object>,
    atExit: nat,               // how often Dtor is registered
    calls: seq<Call>)

  function Unused(): State {
    State(false, Null, [], [], 0, [])
  }

  datatype Action =
    | Invoke(args: Args)
    | Step(c: nat)
    | Throw(c: nat)

  predicate Finished(p: Phase) {
    p.Returned? || p.Threw?
  }

  predicate Inside(p: Phase) {
    p.Rechecking? || p.Building? || p.Storing? || p.Flagging? || p.Registering? || p.Leaving?
  }

  predicate Enabled(s: State, a: Action) {
    match a
    case Invoke(_) => true
    case Step(c) => c < |s.calls| && !Finished(s.calls[c].phase) && (s.calls[c].phase.Waiting? ==> s.holder == [])
    case Throw(c) => c < |s.calls| && s.calls[c].phase.Building?
  }

  /** Where a call goes next, by what it finds. */
  function Next(s: State, c: nat): Phase
    requires Enabled(s, Step(c))
  {
    match s.calls[c].phase
    case Entering => if s.supplyFlag then Supplying else Initialising
    case Supplying => Returned(s.instance)
    case Initialising => if s.instance == Null then Waiting else Returned(s.instance)
    case Waiting => Rechecking
    case Rechecking => if s.instance == Null then Building else Leaving(s.instance.address)
    case Building => Storing(|s.objects|)
    case Storing(p) => Flagging(p)
    case Flagging(p) => Registering(p)
    case Registering(p) => Leaving(p)
    case Leaving(p) => Returned(To(p))
  }

  /** What its step does to what the calls share. */
  function Effect(s: State, c: nat): State
    requires Enabled(s, Step(c))
  {
    match s.calls[c].phase
    case Waiting => s.(holder := [c])
    case Building => s.(objects := s.objects + [Object(c, s.calls[c].args)])
    case Storing(p) => s.(instance := To(p))
    case Flagging(_) => s.(supplyFlag := true)
    case Registering(_) => s.(atExit := s.atExit + 1)
    case Leaving(_) => s.(holder := [])
    case _ => s
  }

  function Goto(s: State, c: nat, p: Phase): State
    requires c < |s.calls|
  {
    s.(calls := s.calls[c := s.calls[c].(phase := p)])
  }

  function Apply(s: State, a: Action): State
    requires Enabled(s, a)
  {
    match a
    case Invoke(args) => s.(calls := s.calls + [Call(args, Entering)])
    case Step(c) => Goto(Effect(s, c), c, Next(s, c))
    case Throw(c) => Goto(s.(holder := []), c, Threw)
  }

  // ----- the invariant -----

  /** What a call may rely on, between its own steps, whatever the others do. */
  predicate CallOk(s: State, c: nat)
    requires c < |s.calls|
  {
    var p := s.calls[c].phase;
    && (Inside(p) <==> s.holder == [c])
    && (p.Supplying? ==> s.supplyFlag)
    && (p.Building? ==> s.instance == Null)
    && (p.Storing? ==> s.instance == Null && s.objects == [Object(c, s.calls[c].args)] && p.p == 0)
    && (p.Flagging? || p.Registering? || p.Leaving? ==> s.instance == To(p.p))
    && (p.Flagging? ==> !s.supplyFlag)
    && (p.Returned? ==> s.instance != Null && p.result == s.instance)
  }

  /** The call inside the mutex has built an object it has not yet stored. */
  predicate MidStore(s: State) {
    |s.holder| == 1 && s.holder[0] < |s.calls| && s.calls[s.holder[0]].phase.Storing?
  }

  /** It has stored the object, but not yet registered its destruction. */
  predicate MidRegister(s: State) {
    |s.holder| == 1 && s.holder[0] < |s.calls|
    && (s.calls[s.holder[0]].phase.Flagging? || s.calls[s.holder[0]].phase.Registering?)
  }

  /** At most one object was ever built; m_instance is null or leads to it, and is null only
      while there is none or while its builder is about to store it. */
  predicate OneObjectAtMost(s: State) {
    && |s.objects| <= 1
    && (s.objects != [] ==> s.objects[0].builder < |s.calls| && s.objects[0].args == s.calls[s.objects[0].builder].args)
    && (s.instance == Null <==> s.objects == [] || MidStore(s))
    && (s.instance != Null ==> s.instance == To(0))
  }

  predicate Inv(s: State) {
    && OneObjectAtMost(s)
    && (s.supplyFlag ==> s.instance != Null)
    && s.atExit == (if s.instance == Null || MidRegister(s) then 0 else 1)
    && (s.holder != [] ==> |s.holder| == 1 && s.holder[0] < |s.calls|)
    && forall c :: 0 <= c < |s.calls| ==> CallOk(s, c)
  }

  lemma InitHolds()
    ensures Inv(Unused())
  {
  }

  lemma OwnKeeps(s: State, c: nat)
    requires Inv(s) && Enabled(s, Step(c))
    ensures CallOk(Apply(s, Step(c)), c)
  {
    assert CallOk(s, c);
    assert MidStore(s) ==> CallOk(s, s.holder[0]);
  }

  lemma OthersKeep(s: State, c: nat, d: nat)
    requires Inv(s) && Enabled(s, Step(c)) && d < |s.calls| && d != c
    ensures CallOk(Apply(s, Step(c)), d)
  {
    hide OneObjectAtMost, MidRegister;
    assert CallOk(s, c) && CallOk(s, d);
  }

  lemma ObjectsKeep(s: State, c: nat)
    requires Inv(s) && Enabled(s, Step(c))
    ensures OneObjectAtMost(Apply(s, Step(c)))
  {
    hide MidRegister;
    assert CallOk(s, c);
  }

  lemma FlagsKeep(s: State, c: nat)
    requires Inv(s) && Enabled(s, Step(c))
    ensures var t := Apply(s, Step(c));
            && (t.supplyFlag ==> t.instance != Null)
            && t.atExit == (if t.instance == Null || MidRegister(t) then 0 else 1)
            && (t.holder != [] ==> |t.holder| == 1 && t.holder[0] < |t.calls|)
  {
    hide OneObjectAtMost, MidStore;
    assert CallOk(s, c);
  }

  lemma EveryStepKeeps(s: State, a: Action)
    requires Inv(s) && Enabled(s, a)
    ensures Inv(Apply(s, a))
  {
    match a
    case Invoke(_) => InvokeKeeps(s, a);
    case Throw(c) => ThrowKeeps(s, c);
    case Step(c) =>
      OwnKeeps(s, c);
      ObjectsKeep(s, c);
      FlagsKeep(s, c);
      forall d | 0 <= d < |s.calls| && d != c {
        OthersKeep(s, c, d);
      }
      hide CallOk, OneObjectAtMost, MidRegister, Effect, Next;
  }

  lemma InvokeKeeps(s: State, a: Action)
    requires Inv(s) && a.Invoke?
    ensures Inv(Apply(s, a))
  {
    assert forall c :: 0 <= c < |s.calls| ==> Apply(s, a).calls[c] == s.calls[c] && CallOk(s, c);
  }

  lemma ThrowKeeps(s: State, c: nat)
    requires Inv(s) && Enabled(s, Throw(c))
    ensures Inv(Apply(s, Throw(c)))
  {
    assert CallOk(s, c);
    assert forall d :: 0 <= d < |s.calls| && d != c ==> Apply(s, Throw(c)).calls[d] == s.calls[d] && CallOk(s, d);
  }

  // ----- over runs -----

  ghost predicate Run(ss: seq<State>, acts: seq<Action>) {
    && |ss| == |acts| + 1 && ss[0] == Unused()
    && forall k :: 0 <= k < |acts| ==> Enabled(ss[k], acts[k]) && ss[k + 1] == Apply(ss[k], acts[k])
  }

  lemma {:induction false} EveryReachableStateOk(ss: seq<State>, acts: seq<Action>, k: nat)
    requires Run(ss, acts) && k < |ss|
    ensures Inv(ss[k])
  {
    if k == 0 {
      InitHolds();
    } else {
      EveryReachableStateOk(ss, acts, k - 1);
      EveryStepKeeps(ss[k - 1], acts[k - 1]);
    }
  }

  /** The flag is a promise: whoever finds it set may load m_instance without the mutex. The
      object was built once, from the arguments of the call that built it, and will be
      destroyed at most once. */
  lemma FlagMeansReady(ss: seq<State>, acts: seq<Action>, k: nat)
    requires Run(ss, acts) && k < |ss|
    ensures ss[k].supplyFlag ==> ss[k].instance != Null
    ensures |ss[k].objects| <= 1 && ss[k].atExit <= |ss[k].objects|
    ensures forall o :: o in ss[k].objects ==> o.builder < |ss[k].calls| && ss[k].calls[o.builder].args == o.args
  {
    EveryReachableStateOk(ss, acts, k);
  }

  lemma {:induction false} InstanceStays(ss: seq<State>, acts: seq<Action>, i: nat, j: nat)
    requires Run(ss, acts) && i <= j < |ss| && ss[i].instance != Null
    ensures ss[j].instance == ss[i].instance && ss[j].objects == ss[i].objects
  {
    if i < j {
      InstanceStays(ss, acts, i, j - 1);
      EveryReachableStateOk(ss, acts, j - 1);
      var s, a := ss[j - 1], acts[j - 1];
      if !a.Invoke? {
        assert CallOk(s, a.c);
      }
    }
  }

  /** Main theorem: whichever two calls return, and at whatever points of the run, they
      return the same non-null pointer, and it leads to the same object. */
  lemma EveryCallReturnsTheSameObject(ss: seq<State>, acts: seq<Action>, i: nat, c: nat, j: nat, d: nat)
    requires Run(ss, acts) && i <= j < |ss| && c < |ss[i].calls| && d < |ss[j].calls|
    requires ss[i].calls[c].phase.Returned? && ss[j].calls[d].phase.Returned?
    ensures var p, q := ss[i].calls[c].phase.result, ss[j].calls[d].phase.result;
            && p == q && p != Null && p.address < |ss[i].objects|
            && ss[j].objects == ss[i].objects
  {
    EveryReachableStateOk(ss, acts, i);
    EveryReachableStateOk(ss, acts, j);
    assert CallOk(ss[i], c) && CallOk(ss[j], d);
    InstanceStays(ss, acts, i, j);
  }

  /** Some call can always go on: the mutex is never held by a finished call. */
  lemma NoDeadlock(s: State)
    requires Inv(s)
    ensures (exists c :: Enabled(s, Step(c))) <==> (exists c :: 0 <= c < |s.calls| && !Finished(s.calls[c].phase))
  {
    if c :| 0 <= c < |s.calls| && !Finished(s.calls[c].phase) {
      if s.holder == [] {
        assert Enabled(s, Step(c));
      } else {
        assert CallOk(s, s.holder[0]);
        assert Enabled(s, Step(s.holder[0]));
      }
    }
  }

  function StepsLeft(p: Phase): nat {
    match p
    case Entering => 9
    case Supplying => 1
    case Initialising => 8
    case Waiting => 7
    case Rechecking => 6
    case Building => 5
    case Storing(_) => 4
    case Flagging(_) => 3
    case Registering(_) => 2
    case Leaving(_) => 1
    case Returned(_) => 0
    case Threw => 0
  }

  function Spent(calls: seq<Call>): int {
    if calls == [] then 0 else Spent(calls[..|calls| - 1]) + 10 - StepsLeft(calls[|calls| - 1].phase)
  }

  lemma {:induction false} SpentMoves(calls: seq<Call>, c: nat, p: Phase)
    requires c < |calls|
    ensures Spent(calls[c := calls[c].(phase := p)]) == Spent(calls) + StepsLeft(calls[c].phase) - StepsLeft(p)
  {
    var n, after := |calls| - 1, calls[c := calls[c].(phase := p)];
    if c < n {
      SpentMoves(calls[..n], c, p);
      assert after[..n] == calls[..n][c := calls[c].(phase := p)];
    } else {
      assert after[..n] == calls[..n];
    }
  }

  lemma {:induction false} SpentAtMost(calls: seq<Call>)
    ensures Spent(calls) <= 10 * |calls|
  {
    if calls != [] {
      SpentAtMost(calls[..|calls| - 1]);
    }
  }

  lemma NextIsNearer(s: State, c: nat)
    requires Enabled(s, Step(c))
    ensures StepsLeft(Next(s, c)) < StepsLeft(s.calls[c].phase) && Effect(s, c).calls == s.calls
  {
  }

  lemma EveryStepSpends(s: State, a: Action)
    requires Enabled(s, a)
    ensures Spent(Apply(s, a).calls) > Spent(s.calls)
  {
    if a.Invoke? {
      assert Apply(s, a).calls[..|s.calls|] == s.calls;
    } else if a.Throw? {
      SpentMoves(s.calls, a.c, Threw);
      hide Spent;
    } else {
      NextIsNearer(s, a.c);
      SpentMoves(s.calls, a.c, Next(s, a.c));
      hide Spent, StepsLeft, Next, Effect;
    }
  }

  lemma {:induction false} SpentBounds(ss: seq<State>, acts: seq<Action>, k: nat)
    requires Run(ss, acts) && k < |ss|
    ensures k <= Spent(ss[k].calls)
  {
    if k > 0 {
      SpentBounds(ss, acts, k - 1);
      EveryStepSpends(ss[k - 1], acts[k - 1]);
    }
  }

  /** N calls are over within 10 N steps, and a run that cannot be continued without a new
      call has finished them all. */
  lemma EveryCallEnds(ss: seq<State>, acts: seq<Action>)
    requires Run(ss, acts)
    ensures var last := ss[|acts|];
            && |acts| <= 10 * |last.calls|
            && ((forall c :: !Enabled(last, Step(c))) ==> forall c :: 0 <= c < |last.calls| ==> Finished(last.calls[c].phase))
  {
    SpentBounds(ss, acts, |acts|);
    SpentAtMost(ss[|acts|].calls);
    EveryReachableStateOk(ss, acts, |acts|);
    NoDeadlock(ss[|acts|]);
  }

  // ----- the class -----

  lemma NothingBuiltYet(s: State)
    requires Inv(s) && s.holder == [] && s.instance == Null
    ensures s.objects == [] && s.atExit == 0
  {
  }

  class Singleton {
    var supplyFlag: bool
    var instance: Pointer
    var objects: seq<Args>     // what was allocated, by address
    var atExit: nat
    ghost var history: State

    ghost predicate Shared()
      reads this
    {
      && history.supplyFlag == supplyFlag && history.instance == instance && history.atExit == atExit
      && |history.objects| == |objects| && forall k :: 0 <= k < |objects| ==> history.objects[k].args == objects[k]
    }

    ghost predicate Valid()
      reads this
    {
      Inv(history) && Shared()
    }

    constructor ()
      ensures Valid() && history == Unused()
    {
      supplyFlag, instance, objects, atExit := false, Null, [], 0;
      history := Unused();
    }

    ghost method Advance(c: nat)
      requires Inv(history) && Enabled(history, Step(c))
      modifies this`history
      ensures Inv(history) && history == Goto(Effect(old(history), c), c, Next(old(history), c))
    {
      EveryStepKeeps(history, Step(c));
      history := Apply(history, Step(c));
    }

    /** The pointer `p` that call `c` returns, and what the call did if it was the first. */
    twostate predicate Supplied(c: nat, args: Args, p: Pointer)
      reads this
    {
      && p != Null && p == instance
      && (old(instance) != Null ==> instance == old(instance) && objects == old(objects) && atExit == old(atExit))
      && (old(instance) == Null ==>
            objects == [args] && |history.objects| == 1 && history.objects[0].builder == c && supplyFlag && atExit == 1)
    }

    /** GetInstance, run without interruption while nobody holds the mutex; other calls may
        be anywhere outside it. */
    method GetInstance(args: Args) returns (p: Pointer)
      requires Valid() && history.holder == []
      modifies this
      ensures Valid() && history.holder == [] && Supplied(old(|history.calls|), args, p)
      ensures history.calls == old(history.calls) + [Call(args, Returned(p))]
    {
      ghost var c := |history.calls|;
      EveryStepKeeps(history, Invoke(args));
      history := Apply(history, Invoke(args));
      var flag := supplyFlag;
      assert flag ==> instance != Null;
      hide Inv;
      Advance(c);
      if flag {
        p := instance;
        Advance(c);
      } else {
        p := Init(args, c);
      }
    }

    method Init(args: Args, ghost c: nat) returns (p: Pointer)
      requires Valid() && history.holder == [] && c < |history.calls| && history.calls[c] == Call(args, Initialising)
      modifies this
      ensures Valid() && history.holder == [] && Supplied(c, args, p)
      ensures history.calls == old(history.calls)[c := Call(args, Returned(p))]
    {
      hide Inv;
      p := instance;
      Advance(c);
      if p == Null {
        NothingBuiltYet(history);
        Advance(c);
        p := InitLocked(args, c);
      }
    }

    /** The section under m_mutex. */
    method InitLocked(args: Args, ghost c: nat) returns (p: Pointer)
      requires Valid() && history.holder == [c] && c < |history.calls| && history.calls[c] == Call(args, Rechecking)
      requires instance == Null ==> objects == [] && atExit == 0
      modifies this
      ensures Valid() && history.holder == [] && Supplied(c, args, p)
      ensures history.calls == old(history.calls)[c := Call(args, Returned(p))]
    {
      hide Inv;
      p := instance;
      Advance(c);
      if p == Null {
        p := Build(args, c);
      }
      Advance(c);
    }

    method Build(args: Args, ghost c: nat) returns (p: Pointer)
      requires Valid() && history.holder == [c] && c < |history.calls| && history.calls[c] == Call(args, Building)
      requires instance == Null && objects == [] && atExit == 0
      modifies this
      ensures Valid() && history.holder == [c] && Supplied(c, args, p)
      ensures p.To? && history.calls == old(history.calls)[c := Call(args, Leaving(p.address))]
    {
      hide Inv;
      p := To(|objects|);
      objects := objects + [args];
      Advance(c);
      instance := p;
      Advance(c);
      supplyFlag := true;
      Advance(c);
      atExit := atExit + 1;
      Advance(c);
    }
  }
}
