/**
 Executors come to rest: `util::Task` needs only boundedly many steps once its clients are through, and then everything
 has run. The work that is left is reckoned as a number that every step of an executor makes smaller.
 */
module TaskRest {
  import opened Options
  import opened TaskProtocol

  /** Cancel callbacks on their way that an executor has, and those that are called. */
  function Handed(firing: map<Callback, Stage>): set<Callback> {
    set cb | cb in firing && firing[cb] != Handing
  }

  function Called(firing: map<Callback, Stage>): set<Callback> {
    set cb | cb in firing && firing[cb] == Running
  }

  /** The steps that cancel callbacks on their way still need. */
  function FiringWork(firing: map<Callback, Stage>): int {
    3 * |firing.Keys| - |Handed(firing)| - |Called(firing)|
  }

  /** The steps that the way to the done callback still needs. */
  function PhaseWork(c: Core): nat {
    match c.phase
    case NotYet => 5 + |c.cleanupCallbacks|
    case HandingOver => 4 + |c.cleanupCallbacks|
    case InQueue => 3 + |c.cleanupCallbacks|
    case Cleaning(todo) => 2 + |todo|
    case InDoneCallback => 1
    case Returned => 0
  }

  /** The work that cancelling would make: a call for every child and three steps for every cancel callback. */
  function CancelWork(c: Core): nat {
    if Settled(c) then 0 else 1 + c.childHolds + 3 * |c.cancelCallbacks|
  }

  function CoreWork(c: Core): int {
    FiringWork(c.firing) + PhaseWork(c) + CancelWork(c)
  }

  lemma FiringWorkLeast(firing: map<Callback, Stage>)
    ensures FiringWork(firing) >= |firing.Keys|
  {
    SubsetSize(Handed(firing), firing.Keys);
    SubsetSize(Called(firing), Handed(firing));
  }

  lemma HandWork(firing: map<Callback, Stage>, cb: Callback)
    requires cb in firing && firing[cb] == Handing
    ensures FiringWork(firing[cb := Waiting]) == FiringWork(firing) - 1
  {
    var f := firing[cb := Waiting];
    assert f.Keys == firing.Keys && Handed(f) == Handed(firing) + {cb} && Called(f) == Called(firing);
  }

  lemma RunWork(firing: map<Callback, Stage>, cb: Callback)
    requires cb in firing && firing[cb] == Waiting
    ensures FiringWork(firing[cb := Running]) == FiringWork(firing) - 1
  {
    var f := firing[cb := Running];
    assert f.Keys == firing.Keys && Handed(f) == Handed(firing) && Called(f) == Called(firing) + {cb};
  }

  lemma FinishWork(firing: map<Callback, Stage>, cb: Callback)
    requires cb in firing && firing[cb] == Running
    ensures FiringWork(firing - {cb}) == FiringWork(firing) - 1
  {
    var f := firing - {cb};
    assert f.Keys == firing.Keys - {cb};
    assert Handed(f) == Handed(firing) - {cb} && Called(f) == Called(firing) - {cb};
  }

  lemma FireWork(firing: map<Callback, Stage>, fired: map<Callback, Stage>)
    requires firing.Keys !! fired.Keys && forall cb :: cb in fired ==> fired[cb] == Handing
    ensures FiringWork(firing + fired) == FiringWork(firing) + 3 * |fired.Keys|
  {
    var f := firing + fired;
    assert f.Keys == firing.Keys + fired.Keys;
    assert Handed(f) == Handed(firing) && Called(f) == Called(firing);
  }

  lemma {:induction false} SubsetSize(a: set<Callback>, b: set<Callback>)
    requires a <= b
    ensures |a| <= |b|
  {
    if a != {} {
      var x :| x in a;
      SubsetSize(a - {x}, b - {x});
    }
  }

  /** Cancelling moves every cancel callback to its way, which costs no more than it was reckoned to. */
  lemma CancelWorkMoves(c: Core)
    requires CoreInv(c) && !Settled(c)
    ensures CoreWork(CancelCore(c)) + 1 + c.childHolds == CoreWork(c)
  {
    hide FiringWork, CoreInv;
    PendingApart(c);
    var fired := map cb | cb in c.cancelCallbacks :: Handing;
    assert fired.Keys == c.cancelCallbacks;
    FireWork(c.firing, fired);
  }

  lemma PendingApart(c: Core)
    requires CoreInv(c)
    ensures c.firing.Keys !! c.cancelCallbacks
  {
  }

  /** Going to DONE is one step on the way, and what was reckoned for cancelling is saved. */
  lemma TryDoneWork(c: Core)
    requires c.phase == NotYet && c.state != DONE
    ensures CoreWork(TryDone(c)) <= CoreWork(c)
  {
    hide FiringWork;
  }

  /** Every internal step on one core makes its work smaller; only a cancel call may add calls, one for each child. */
  lemma CoreStepWork(task: Task, step: Step)
    requires CoreInv(task.core) && Internal(step) && OnCore(task, step).CoreOk?
    ensures var a, b := task.core, OnCore(task, step).core;
      if step.CancelChild? then CoreWork(b) + (if Settled(a) then 0 else 1 + a.childHolds) == CoreWork(a)
      else CoreWork(b) < CoreWork(a)
  {
    hide CoreInv, FiringWork, CancelCore;
    var c := task.core;
    PhaseBasics(c);
    match step
    case CancelChild(_) => CancelChildWork(c);
    case HandCancelCallback(_, cb) => HandWork(c.firing, cb);
    case RunCancelCallback(_, cb) => RunWork(c.firing, cb);
    case FinishCancelCallback(_, cb) =>
      FinishWork(c.firing, cb);
      TryDoneWork(c.(firing := c.firing - {cb}, holds := c.holds - 1));
    case _ =>
  }

  lemma CancelChildWork(c: Core)
    requires CoreInv(c)
    ensures CoreWork(CancelCore(c)) + (if Settled(c) then 0 else 1 + c.childHolds) == CoreWork(c)
  {
    hide CoreInv, CoreWork;
    if !Settled(c) {
      CancelWorkMoves(c);
    }
  }

  /** The work of some tasks together. */
  ghost function SumWork(tasks: map<Id, Task>, ids: set<Id>): int
    requires ids <= tasks.Keys
  {
    if ids == {} then 0
    else
      var t :| t in ids;
      CoreWork(tasks[t].core) + SumWork(tasks, ids - {t})
  }

  lemma {:induction false} SumPick(tasks: map<Id, Task>, ids: set<Id>, t: Id)
    requires ids <= tasks.Keys && t in ids
    ensures SumWork(tasks, ids) == CoreWork(tasks[t].core) + SumWork(tasks, ids - {t})
    decreases |ids|
  {
    hide CoreWork;
    var x :| x in ids && SumWork(tasks, ids) == CoreWork(tasks[x].core) + SumWork(tasks, ids - {x});
    if x != t {
      SumPick(tasks, ids - {x}, t);
      SumPick(tasks, ids - {t}, x);
      assert ids - {x} - {t} == ids - {t} - {x};
    }
  }

  lemma {:induction false} SumSame(a: map<Id, Task>, b: map<Id, Task>, ids: set<Id>)
    requires ids <= a.Keys && ids <= b.Keys && forall t :: t in ids ==> a[t].core == b[t].core
    ensures SumWork(a, ids) == SumWork(b, ids)
    decreases |ids|
  {
    hide CoreWork;
    if ids != {} {
      var t :| t in ids;
      SumPick(a, ids, t);
      SumPick(b, ids, t);
      SumSame(a, b, ids - {t});
    }
  }

  lemma {:induction false} SumPositive(tasks: map<Id, Task>, ids: set<Id>)
    requires ids <= tasks.Keys
    ensures SumWork(tasks, ids) >= 0
    decreases |ids|
  {
    if ids != {} {
      var t :| t in ids;
      SumPick(tasks, ids, t);
      FiringWorkLeast(tasks[t].core.firing);
      SumPositive(tasks, ids - {t});
    }
  }

  /** Everything that executors and pending cancel calls still have to do. */
  ghost function Work(s: System): int {
    |s.cancelCalls| + SumWork(s.tasks, s.tasks.Keys)
  }

  /** A change of one core changes the work by as much. */
  lemma OneCoreWork(s: System, s': System, t: Id)
    requires t in s.tasks && s'.tasks.Keys == s.tasks.Keys
    requires forall u :: u in s.tasks && u != t ==> s'.tasks[u].core == s.tasks[u].core
    ensures SumWork(s'.tasks, s'.tasks.Keys) - SumWork(s.tasks, s.tasks.Keys)
         == CoreWork(s'.tasks[t].core) - CoreWork(s.tasks[t].core)
  {
    hide CoreWork;
    SumPick(s.tasks, s.tasks.Keys, t);
    SumPick(s'.tasks, s'.tasks.Keys, t);
    SumSame(s.tasks, s'.tasks, s.tasks.Keys - {t});
  }

  /** Every step that needs no client leaves less to do. */
  lemma InternalStepWork(s: System, step: Step)
    requires Inv(s) && Internal(step) && Apply(s, step).Ok?
    ensures Work(Apply(s, step).system) < Work(s)
  {
    hide Inv, Work, Apply, OnCore, CallsAfter, WithCore, WithoutChild;
    var t := step.t;
    InternalApplies(s, step);
    if step.FinishChildDone? {
      ParentWork(s, s.tasks[t].parent.value, t);
    } else {
      OnCoreWork(s, t, step);
    }
  }

  /** What an internal step does: a change of one core, or the end of a child. */
  lemma InternalApplies(s: System, step: Step)
    requires Internal(step) && Apply(s, step).Ok?
    ensures step.t in s.tasks
    ensures var t := step.t; var task := s.tasks[t];
      if step.FinishChildDone? then
        && task.core.phase == InDoneCallback && task.parent.Some? && task.parent.value in s.tasks
        && s.tasks[task.parent.value].core.childHolds > 0
        && Apply(s, step) == Ok(WithoutChild(s, task.parent.value, t))
      else
        && (step.CancelChild? ==> t in s.cancelCalls) && OnCore(task, step).CoreOk?
        && Apply(s, step) == Ok(WithCore(s, t, OnCore(task, step).core).(cancelCalls := CallsAfter(s, task, step)))
  {
    hide OnCore, CallsAfter, WithCore, WithoutChild;
  }

  lemma OnCoreWork(s: System, t: Id, step: Step)
    requires Inv(s) && Internal(step) && !step.FinishChildDone? && step.t == t && t in s.tasks
    requires (step.CancelChild? ==> t in s.cancelCalls) && OnCore(s.tasks[t], step).CoreOk?
    ensures Work(WithCore(s, t, OnCore(s.tasks[t], step).core).(cancelCalls := CallsAfter(s, s.tasks[t], step)))
      < Work(s)
  {
    hide CoreInv, CoreWork, OnCore;
    assert CoreInv(s.tasks[t].core) && Linked(s, t);
    CoreStepWork(s.tasks[t], step);
    var s' := WithCore(s, t, OnCore(s.tasks[t], step).core).(cancelCalls := CallsAfter(s, s.tasks[t], step));
    OneCoreWork(s, s', t);
    CallsSize(s.cancelCalls, s.tasks[t].children, t);
  }

  lemma CallsSize(calls: multiset<Id>, children: set<Id>, t: Id)
    ensures |calls + multiset(children)| == |calls| + |children|
    ensures t in calls ==> |calls - multiset{t}| == |calls| - 1
    ensures t in calls ==> |calls + multiset(children) - multiset{t}| == |calls| + |children| - 1
  {
  }

  lemma ParentWork(s: System, p: Id, t: Id)
    requires Inv(s) && t in s.tasks && s.tasks[t].parent == Some(p) && s.tasks[t].core.phase == InDoneCallback
    ensures p in s.tasks && s.tasks[p].core.childHolds > 0 && Work(WithoutChild(s, p, t)) < Work(s)
  {
    hide CoreInv, CoreWork;
    ParentWaits(s, p, t);
    PhaseBasics(s.tasks[p].core);
    var mid := WithCore(s, t, s.tasks[t].core.(phase := Returned));
    OneCoreWork(s, mid, t);
    OneCoreWork(mid, WithoutChild(s, p, t), p);
    ReturnedWork(s.tasks[t].core);
    LoseChildWork(s.tasks[p].core);
  }

  lemma ReturnedWork(c: Core)
    requires c.phase == InDoneCallback
    ensures CoreWork(c.(phase := Returned)) < CoreWork(c)
  {
    hide FiringWork;
  }

  lemma LoseChildWork(c: Core)
    requires c.childHolds > 0 && c.phase == NotYet && c.state != DONE
    ensures CoreWork(LoseChildCore(c)) <= CoreWork(c)
  {
    hide FiringWork;
  }

  /** The outcome of some steps from a state. */
  function After(s: System, steps: seq<Step>): Outcome
    decreases |steps|
  {
    if steps == [] then Ok(s)
    else
      var first := Apply(s, steps[0]);
      if first.Ok? then After(first.system, steps[1..]) else first
  }

  /** Without clients the executors come to rest: from every state with the invariant, no sequence of internal steps is
      longer than the work at its start. */
  lemma {:induction false} InternalEnds(s: System, steps: seq<Step>)
    requires Inv(s) && (forall i :: 0 <= i < |steps| ==> Internal(steps[i])) && After(s, steps).Ok?
    ensures |steps| <= Work(s) && Inv(After(s, steps).system)
    decreases |steps|
  {
    hide Inv, Apply, Internal, Work;
    if steps == [] {
      WorkPositive(s);
    } else {
      var s' := Apply(s, steps[0]).system;
      StepIsSafe(s, steps[0]);
      InternalStepWork(s, steps[0]);
      InternalEnds(s', steps[1..]);
    }
  }

  lemma WorkPositive(s: System)
    ensures Work(s) >= 0
  {
    SumPositive(s.tasks, s.tasks.Keys);
  }

  /** And a state in which they are at rest is always reachable, by internal steps alone. */
  lemma {:induction false} RestIsReachable(s: System) returns (steps: seq<Step>)
    requires Inv(s)
    ensures forall i :: 0 <= i < |steps| ==> Internal(steps[i])
    ensures After(s, steps).Ok? && Quiescent(After(s, steps).system)
    decreases Work(s)
  {
    hide Inv, Apply, Work, Internal;
    WorkPositive(s);
    if Quiescent(s) {
      steps := [];
    } else {
      var step :| Internal(step) && !Apply(s, step).NotEnabled?;
      StepIsSafe(s, step);
      InternalStepWork(s, step);
      var rest := RestIsReachable(Apply(s, step).system);
      steps := [step] + rest;
    }
  }

  /** The executor of a task is not used once its done callback has started: nothing is handed to it any more, and it
      holds nothing of that task that is still to be started. */
  lemma ExecutorUnused(steps: seq<Step>, t: Id, cb: Callback)
    requires Run(steps).Ok? && t in Run(steps).system.tasks && Run(steps).system.tasks[t].core.ranDone > 0
    ensures var s := Run(steps).system;
      && Apply(s, HandCancelCallback(t, cb)).NotEnabled? && Apply(s, RunCancelCallback(t, cb)).NotEnabled?
      && Apply(s, HandDone(t)).NotEnabled? && Apply(s, StartCleanup(t)).NotEnabled?
  {
    hide Run, CoreInv, Linked;
    RunIsSafe(steps);
    var s := Run(steps).system;
    assert CoreInv(s.tasks[t].core);
    StartedIsEmpty(s.tasks[t].core);
  }

  lemma StartedIsEmpty(c: Core)
    requires CoreInv(c) && c.ranDone > 0
    ensures Late(c) && c.firing == map[]
  {
    PhaseBasics(c);
  }

  // ---------- Everything finishes ----------

  /** All clients are through: everything has returned, and no external hold is left. */
  ghost predicate Through(s: System) {
    forall t :: t in s.tasks ==> s.tasks[t].core.state != ACTIVE && s.tasks[t].core.externalHolds == 0
  }

  lemma CoreThrough(task: Task, step: Step)
    requires Internal(step) && OnCore(task, step).CoreOk? && task.core.state != ACTIVE && task.core.externalHolds == 0
    ensures OnCore(task, step).core.state != ACTIVE && OnCore(task, step).core.externalHolds == 0
  {
  }

  lemma StepThrough(s: System, step: Step)
    requires Through(s) && Internal(step) && Apply(s, step).Ok?
    ensures Through(Apply(s, step).system)
  {
    hide Apply, OnCore, CallsAfter;
    InternalApplies(s, step);
    if !step.FinishChildDone? {
      CoreThrough(s.tasks[step.t], step);
    }
  }

  /** Some steps after a run make a longer run. */
  lemma {:induction false} RunAfter(steps: seq<Step>, more: seq<Step>)
    requires Run(steps).Ok?
    ensures Run(steps + more) == After(Run(steps).system, more)
    decreases |more|
  {
    hide Apply;
    if more == [] {
      assert steps + more == steps;
    } else {
      var next := steps + [more[0]];
      assert next[..|next| - 1] == steps && steps + more == next + more[1..];
      if Run(next).Ok? {
        RunAfter(next, more[1..]);
      } else {
        StuckRun(next, more[1..]);
      }
    }
  }

  lemma {:induction false} StuckRun(steps: seq<Step>, more: seq<Step>)
    requires !Run(steps).Ok?
    ensures Run(steps + more) == Run(steps)
  {
    hide Apply;
    if more == [] {
      assert steps + more == steps;
    } else {
      var last := |more| - 1;
      StuckRun(steps, more[..last]);
      assert (steps + more)[..|steps + more| - 1] == steps + more[..last];
    }
  }

  lemma {:induction false} AfterThrough(s: System, steps: seq<Step>)
    requires Through(s) && (forall i :: 0 <= i < |steps| ==> Internal(steps[i])) && After(s, steps).Ok?
    ensures Through(After(s, steps).system)
    decreases |steps|
  {
    hide Through, Apply, Internal;
    if steps != [] {
      StepThrough(s, steps[0]);
      AfterThrough(Apply(s, steps[0]).system, steps[1..]);
    }
  }

  /** After every run in which all clients are through, whatever the executors do until they are at rest, and they
      always come to rest: every done callback, due cancel callback and cleanup has then run exactly once. */
  lemma EverythingFinishes(steps: seq<Step>, more: seq<Step>, t: Id, cb: Callback)
    requires Run(steps).Ok? && Through(Run(steps).system) && (forall i :: 0 <= i < |more| ==> Internal(more[i]))
    requires Run(steps + more).Ok? && Quiescent(Run(steps + more).system) && t in Run(steps + more).system.tasks
    ensures |more| <= Work(Run(steps).system)
    ensures var c := Run(steps + more).system.tasks[t].core;
      && c.state == DONE && c.ranDone == 1
      && (cb in c.due ==> c.ranCancel[cb] == 1) && (cb in c.cleanups ==> c.ranCleanup[cb] == 1)
  {
    hide Run, Quiescent, Inv, Work, Apply;
    RunIsSafe(steps);
    RunAfter(steps, more);
    InternalEnds(Run(steps).system, more);
    AfterThrough(Run(steps).system, more);
    NothingLost(steps + more, t, cb);
  }
}
