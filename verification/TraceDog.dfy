/** driver/trace_dog.c and the unload order of driver/main.c: when may the module go away? */
module TraceDog {

  type Task = nat
  /** An index of ref_table, below api_max. */
  const API_MAX := 24
  type Api = a: int | 0 <= a < API_MAX

  function Sum(table: seq<int>): int {
    if table == [] then 0 else table[0] + Sum(table[1..])
  }

  lemma {:induction false} SumAfterUpdate(table: seq<int>, i: nat, v: int)
    requires i < |table|
    ensures Sum(table[i := v]) == Sum(table) - table[i] + v
  {
    if i == 0 {
      assert table[i := v][1..] == table[1..];
    } else {
      SumAfterUpdate(table[1..], i - 1, v);
      assert table[i := v][1..] == table[1..][i - 1 := v];
    }
  }

  /** inside: which hook each task is in, from the enter to the leave call of that hook.
      drift: for each call, how many leaves were skipped less how many enters were skipped.
      hooked: the calls that still lead to a hook. unloaded: wait_for_unload has stopped waiting. */
  datatype System = System(refCount: int, table: seq<int>, inside: map<Task, Api>, drift: seq<int>, hooked: set<Api>,
                           unloaded: bool)

  /** got: the semaphore was obtained; a signal makes an enter or a leave skip its counting, and
      makes the wait stop whatever the count. */
  datatype Step =
    | Enter(t: Task, api: Api, got: bool)
    | Leave(t: Task, got: bool)
    | Restore(api: Api)
    | Poll(got: bool)

  /** A task calls a hooked system call and enters in one step; the cleanup polls only after
      every call has been restored. */
  predicate Enabled(s: System, step: Step) {
    match step
    case Enter(t, api, _) => api in s.hooked && t !in s.inside
    case Leave(t, _) => t in s.inside
    case Restore(_) => true
    case Poll(_) => s.hooked == {}
  }

  predicate Sized(s: System) {
    |s.table| == |s.drift| == API_MAX
  }

  /** The counters after counting or skipping a change of d for this call. */
  function Counted(s: System, api: Api, d: int, got: bool): System
    requires Sized(s)
  {
    if got then s.(refCount := s.refCount + d, table := s.table[api := s.table[api] + d])
    else s.(drift := s.drift[api := s.drift[api] - d])
  }

  function Apply(s: System, step: Step): System
    requires Sized(s) && Enabled(s, step)
  {
    match step
    case Enter(t, api, got) => Counted(s, api, 1, got).(inside := s.inside[t := api])
    case Leave(t, got) => Counted(s, s.inside[t], -1, got).(inside := s.inside - {t})
    case Restore(api) => s.(hooked := s.hooked - {api})
    case Poll(got) => s.(unloaded := s.unloaded || !got || s.refCount == 0)
  }

  function Start(hooked: set<Api>): System {
    System(0, seq(API_MAX, i => 0), map[], seq(API_MAX, i => 0), hooked, false)
  }

  ghost function TasksIn(s: System, api: Api): set<Task> {
    set t | t in s.inside && s.inside[t] == api
  }

  /** Each counter is the number of tasks inside plus the drift, for every call and in all. */
  ghost predicate Inv(s: System) {
    && Sized(s)
    && s.refCount == Sum(s.table) == |s.inside| + Sum(s.drift)
    && (forall api: Api :: s.table[api] == |TasksIn(s, api)| + s.drift[api])
    && (s.unloaded ==> s.hooked == {})
  }

  lemma {:induction false} ZerosSum(n: nat)
    ensures Sum(seq(n, i => 0)) == 0
  {
    if n > 0 {
      assert seq(n, i => 0)[1..] == seq(n - 1, i => 0);
      ZerosSum(n - 1);
    }
  }

  lemma StartInv(hooked: set<Api>)
    ensures Inv(Start(hooked))
  {
    ZerosSum(API_MAX);
    forall api: Api
      ensures TasksIn(Start(hooked), api) == {}
    {
    }
  }

  lemma CountedKeepsSums(s: System, api: Api, d: int, got: bool)
    requires Sized(s) && s.refCount == Sum(s.table)
    ensures var s' := Counted(s, api, d, got);
      && s'.refCount == Sum(s'.table)
      && Sum(s'.table) - Sum(s'.drift) == Sum(s.table) - Sum(s.drift) + d
      && forall a: Api :: s'.table[a] - s'.drift[a] == s.table[a] - s.drift[a] + if a == api then d else 0
  {
    if got {
      SumAfterUpdate(s.table, api, s.table[api] + d);
    } else {
      SumAfterUpdate(s.drift, api, s.drift[api] - d);
    }
  }

  lemma TasksAfterEnter(s: System, s': System, t: Task, api: Api, a: Api)
    requires t !in s.inside && s'.inside == s.inside[t := api]
    ensures |TasksIn(s', a)| == |TasksIn(s, a)| + if a == api then 1 else 0
  {
    assert TasksIn(s', a) == if a == api then TasksIn(s, a) + {t} else TasksIn(s, a);
  }

  lemma TasksAfterLeave(s: System, s': System, t: Task, a: Api)
    requires t in s.inside && s'.inside == s.inside - {t}
    ensures |TasksIn(s', a)| == |TasksIn(s, a)| - if a == s.inside[t] then 1 else 0
  {
    assert TasksIn(s', a) == if a == s.inside[t] then TasksIn(s, a) - {t} else TasksIn(s, a);
  }

  lemma EnterKeepsInv(s: System, t: Task, api: Api, got: bool)
    requires Inv(s) && Enabled(s, Enter(t, api, got))
    ensures Inv(Apply(s, Enter(t, api, got)))
  {
    var s' := Apply(s, Enter(t, api, got));
    CountedKeepsSums(s, api, 1, got);
    assert s'.inside.Keys == s.inside.Keys + {t};
    assert |s'.inside| == |s'.inside.Keys| == |s.inside.Keys| + 1;
    forall a: Api
      ensures |TasksIn(s', a)| == |TasksIn(s, a)| + if a == api then 1 else 0
    {
      TasksAfterEnter(s, s', t, api, a);
    }
  }

  lemma LeaveKeepsInv(s: System, t: Task, got: bool)
    requires Inv(s) && Enabled(s, Leave(t, got))
    ensures Inv(Apply(s, Leave(t, got)))
  {
    var api := s.inside[t];
    var s' := Apply(s, Leave(t, got));
    CountedKeepsSums(s, api, -1, got);
    assert s'.inside.Keys == s.inside.Keys - {t};
    assert |s'.inside| == |s'.inside.Keys| == |s.inside.Keys| - 1;
    forall a: Api
      ensures |TasksIn(s', a)| == |TasksIn(s, a)| - if a == api then 1 else 0
    {
      TasksAfterLeave(s, s', t, a);
    }
  }

  lemma StepKeepsInv(s: System, step: Step)
    requires Inv(s) && Enabled(s, step)
    ensures Inv(Apply(s, step))
    ensures s.unloaded ==> Apply(s, step).unloaded && !step.Enter?
  {
    match step
    case Enter(t, api, got) => EnterKeepsInv(s, t, api, got);
    case Leave(t, got) => LeaveKeepsInv(s, t, got);
    case _ =>
      forall a: Api
        ensures TasksIn(Apply(s, step), a) == TasksIn(s, a)
      {
      }
  }

  ghost predicate StepAt(states: seq<System>, steps: seq<Step>, i: nat)
    requires |states| == |steps| + 1 && i < |steps|
  {
    Sized(states[i]) && Enabled(states[i], steps[i]) && states[i + 1] == Apply(states[i], steps[i])
  }

  /** Successive states of a run: every step enabled, from freshly hooked calls. */
  ghost predicate Run(states: seq<System>, steps: seq<Step>, hooked: set<Api>) {
    && |states| == |steps| + 1 && states[0] == Start(hooked)
    && forall i :: 0 <= i < |steps| ==> StepAt(states, steps, i)
  }

  /** The count says that nobody is inside exactly when it equals the drift. */
  lemma {:induction false} RunKeepsInv(states: seq<System>, steps: seq<Step>, hooked: set<Api>, i: nat)
    requires Run(states, steps, hooked) && i <= |steps|
    ensures Inv(states[i])
    ensures states[i].refCount == Sum(states[i].drift) <==> states[i].inside == map[]
  {
    if i == 0 {
      StartInv(hooked);
    } else {
      RunKeepsInv(states, steps, hooked, i - 1);
      assert StepAt(states, steps, i - 1);
      StepKeepsInv(states[i - 1], steps[i - 1]);
    }
    assert |states[i].inside| == 0 <==> states[i].inside == map[];
  }

  /** Once the wait has stopped with nobody inside, nobody is inside a hook or gets in, ever after. */
  lemma {:induction false} NobodyComesBack(states: seq<System>, steps: seq<Step>, hooked: set<Api>, i: nat, j: nat)
    requires Run(states, steps, hooked) && i <= j <= |steps| && states[i].unloaded && states[i].inside == map[]
    ensures states[j].unloaded && states[j].inside == map[]
    ensures j < |steps| ==> !steps[j].Enter?
    decreases j
  {
    if i < j {
      NobodyComesBack(states, steps, hooked, i, j - 1);
      assert StepAt(states, steps, j - 1);
    }
    RunKeepsInv(states, steps, hooked, j);
    if j < |steps| {
      assert StepAt(states, steps, j);
    }
  }

  /** When the i-th step lets the wait stop, nobody is inside a hook ever after if and only if the
      count equalled the drift. */
  lemma UnloadIsSafeIff(states: seq<System>, steps: seq<Step>, hooked: set<Api>, i: nat)
    requires Run(states, steps, hooked) && i < |steps| && steps[i].Poll? && states[i + 1].unloaded
    ensures (forall j :: i < j <= |steps| ==> states[j].inside == map[]) <==>
      states[i].refCount == Sum(states[i].drift)
  {
    RunKeepsInv(states, steps, hooked, i);
    assert StepAt(states, steps, i);
    assert states[i + 1].inside == states[i].inside;
    if states[i].inside == map[] {
      forall j | i < j <= |steps|
        ensures states[j].inside == map[]
      {
        NobodyComesBack(states, steps, hooked, i + 1, j);
      }
    }
  }

  ghost predicate NothingSkipped(steps: seq<Step>) {
    forall i :: 0 <= i < |steps| && (steps[i].Enter? || steps[i].Leave? || steps[i].Poll?) ==> steps[i].got
  }

  lemma {:induction false} NoDriftWithoutSkips(states: seq<System>, steps: seq<Step>, hooked: set<Api>, i: nat)
    requires Run(states, steps, hooked) && i <= |steps| && NothingSkipped(steps)
    ensures states[i].drift == seq(API_MAX, k => 0) && (states[i].unloaded ==> states[i].inside == map[])
  {
    RunKeepsInv(states, steps, hooked, i);
    if i > 0 {
      NoDriftWithoutSkips(states, steps, hooked, i - 1);
      RunKeepsInv(states, steps, hooked, i - 1);
      assert StepAt(states, steps, i - 1);
      ZerosSum(API_MAX);
      if states[i - 1].unloaded {
        NobodyComesBack(states, steps, hooked, i - 1, i);
      }
    }
  }

  /** Without signals: the counts are exact, and once the wait has stopped nobody is inside a hook
      and nobody gets in, ever after. */
  lemma NobodyInsideAfterUnload(states: seq<System>, steps: seq<Step>, hooked: set<Api>, i: nat, j: nat)
    requires Run(states, steps, hooked) && i <= j <= |steps| && NothingSkipped(steps)
    ensures states[i].refCount == |states[i].inside|
    ensures states[i].unloaded ==> states[j].inside == map[] && (j < |steps| ==> !steps[j].Enter?)
  {
    RunKeepsInv(states, steps, hooked, i);
    NoDriftWithoutSkips(states, steps, hooked, i);
    ZerosSum(API_MAX);
    if states[i].unloaded {
      NobodyComesBack(states, steps, hooked, i, j);
    }
  }

  /** A skipped enter lets the wait stop, seeing zero, with a task inside. */
  lemma SkippedEnterUnloadsEarly(t: Task, api: Api) returns (states: seq<System>, steps: seq<Step>)
    ensures Run(states, steps, {api}) && |steps| == 3 && steps[2] == Poll(true)
    ensures states[3].unloaded && t in states[3].inside
  {
    steps := [Enter(t, api, false), Restore(api), Poll(true)];
    var s0 := Start({api});
    var s1 := Apply(s0, steps[0]);
    var s2 := Apply(s1, steps[1]);
    assert s2.hooked == {};
    states := [s0, s1, s2, Apply(s2, steps[2])];
  }

  /** After a skipped leave the count stays above zero although nobody is inside. */
  lemma SkippedLeaveNeverReachesZero(t: Task, api: Api) returns (states: seq<System>, steps: seq<Step>)
    ensures Run(states, steps, {api}) && |steps| == 4 && steps[3] == Poll(true)
    ensures !states[4].unloaded && states[4].inside == map[] && states[4].hooked == {}
    ensures Sized(states[4]) && Apply(states[4], Poll(true)) == states[4]
  {
    steps := [Enter(t, api, true), Leave(t, false), Restore(api), Poll(true)];
    var s0 := Start({api});
    var s1 := Apply(s0, steps[0]);
    var s2 := Apply(s1, steps[1]);
    var s3 := Apply(s2, steps[2]);
    assert s3.hooked == {} && s3.inside == map[];
    states := [s0, s1, s2, s3, Apply(s3, steps[3])];
  }

  // ---- the counters ----

  class Dog {
    var gRefCount: int
    const refTable: array<int>
    ghost var Inside: map<Task, Api>
    ghost var Drift: seq<int>
    ghost var Hooked: set<Api>
    ghost var Unloaded: bool

    ghost function AsSystem(): System
      reads this, refTable
    {
      System(gRefCount, refTable[..], Inside, Drift, Hooked, Unloaded)
    }

    constructor (ghost hooked: set<Api>)
      ensures fresh(refTable) && AsSystem() == Start(hooked)
    {
      gRefCount := 0;
      refTable := new int[API_MAX](_ => 0);
      Inside, Drift, Hooked, Unloaded := map[], seq(API_MAX, i => 0), hooked, false;
    }

    /** trace_dog_enter; got says whether it obtained its semaphore. */
    method TraceDogEnter(api: Api, got: bool, ghost t: Task)
      requires Sized(AsSystem()) && Enabled(AsSystem(), Enter(t, api, got))
      modifies this, refTable
      ensures AsSystem() == Apply(old(AsSystem()), Enter(t, api, got))
    {
      Inside := Inside[t := api];
      if !got {
        Drift := Drift[api := Drift[api] - 1];
        return;
      }
      refTable[api] := refTable[api] + 1;
      gRefCount := gRefCount + 1;
    }

    /** trace_dog_leave; got says whether it obtained its semaphore. */
    method TraceDogLeave(api: Api, got: bool, ghost t: Task)
      requires Sized(AsSystem()) && t in Inside && Inside[t] == api
      modifies this, refTable
      ensures AsSystem() == Apply(old(AsSystem()), Leave(t, got))
    {
      Inside := Inside - {t};
      if !got {
        Drift := Drift[api := Drift[api] + 1];
        return;
      }
      refTable[api] := refTable[api] - 1;
      gRefCount := gRefCount - 1;
    }

    /** One round of wait_for_unload; done says whether it stops waiting. */
    method PollForUnload(got: bool) returns (done: bool)
      requires Sized(AsSystem()) && Enabled(AsSystem(), Poll(got))
      modifies this
      ensures AsSystem() == Apply(old(AsSystem()), Poll(got))
      ensures done <==> !got || gRefCount == 0
    {
      done := true;
      if got {
        var refCount := gRefCount;
        done := 0 == refCount;
      }
      Unloaded := Unloaded || done;
    }
  }
}
