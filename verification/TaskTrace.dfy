/**
 What a run of `util::Task` has done, told from its steps alone: which client calls were made, and which callbacks were
 run. The state that `TaskProtocol` keeps, history included, is proved to be what the steps say, and the promises about
 completion and cancellation are restated as promises about the steps of a run.
 */
module TaskTrace {
  import opened Options
  import opened TaskProtocol
  import opened TaskRest

  // ---------- Words for runs ----------

  /** How often a step was taken. */
  function Times(steps: seq<Step>, step: Step): nat {
    multiset(steps)[step]
  }

  /** The task was created, as a root or as a child. */
  ghost predicate Known(steps: seq<Step>, t: Id) {
    Create(t) in steps || exists p :: AddChild(p, t) in steps
  }

  /** A cancel callback was given to the task before it returned. */
  ghost predicate Given(steps: seq<Step>, t: Id, cb: Callback) {
    exists i :: 0 <= i < |steps| && steps[i] == WhenCancelled(t, cb) && Return(t) !in steps[..i]
  }

  /** The task was cancelled before it returned. */
  ghost predicate CancelledActive(steps: seq<Step>, t: Id) {
    exists i :: 0 <= i < |steps| && (steps[i] == Cancel(t) || steps[i] == CancelChild(t)) && Return(t) !in steps[..i]
  }

  lemma TimesMore(steps: seq<Step>, x: Step, step: Step)
    ensures Times(steps + [x], step) == Times(steps, step) + if x == step then 1 else 0
    ensures step in steps + [x] <==> step in steps || x == step
    ensures Times(steps, step) > 0 <==> step in steps
  {
  }

  lemma GivenMore(steps: seq<Step>, x: Step, t: Id, cb: Callback)
    ensures Given(steps + [x], t, cb) <==> Given(steps, t, cb) || (x == WhenCancelled(t, cb) && Return(t) !in steps)
  {
    var all := steps + [x];
    assert all[..|steps|] == steps;
    if Given(steps, t, cb) {
      var i :| 0 <= i < |steps| && steps[i] == WhenCancelled(t, cb) && Return(t) !in steps[..i];
      assert all[i] == steps[i] && all[..i] == steps[..i];
    }
    if Given(all, t, cb) {
      var i :| 0 <= i < |all| && all[i] == WhenCancelled(t, cb) && Return(t) !in all[..i];
      assert i < |steps| ==> all[..i] == steps[..i] && steps[i] == all[i];
    }
    if x == WhenCancelled(t, cb) && Return(t) !in steps {
      assert all[|steps|] == WhenCancelled(t, cb);
    }
  }

  lemma CancelledMore(steps: seq<Step>, x: Step, t: Id)
    ensures CancelledActive(steps + [x], t) <==>
      CancelledActive(steps, t) || ((x == Cancel(t) || x == CancelChild(t)) && Return(t) !in steps)
  {
    var all := steps + [x];
    assert all[..|steps|] == steps;
    if CancelledActive(steps, t) {
      var i :| 0 <= i < |steps| && (steps[i] == Cancel(t) || steps[i] == CancelChild(t)) && Return(t) !in steps[..i];
      assert all[i] == steps[i] && all[..i] == steps[..i];
    }
    if CancelledActive(all, t) {
      var i :| 0 <= i < |all| && (all[i] == Cancel(t) || all[i] == CancelChild(t)) && Return(t) !in all[..i];
      assert i < |steps| ==> all[..i] == steps[..i] && steps[i] == all[i];
    }
    if (x == Cancel(t) || x == CancelChild(t)) && Return(t) !in steps {
      assert all[|steps|] == x;
    }
  }

  // ---------- One task ----------

  ghost predicate CallbackTraced(steps: seq<Step>, t: Id, c: Core, cb: Callback) {
    && (cb in c.registered <==> WhenCancelled(t, cb) in steps || CleanupWhenDone(t, cb) in steps)
    && (cb in c.wanted <==> Given(steps, t, cb))
    && (cb in c.due <==> Given(steps, t, cb) && CancelledActive(steps, t))
    && (cb in c.cleanups <==> CleanupWhenDone(t, cb) in steps)
    && c.ranCancel[cb] == Times(steps, RunCancelCallback(t, cb))
    && c.ranCleanup[cb] == Times(steps, RunCleanup(t, cb))
    && Times(steps, RunCancelCallback(t, cb)) ==
         Times(steps, FinishCancelCallback(t, cb)) + if cb in Called(c.firing) then 1 else 0
  }

  ghost predicate CoreTraced(steps: seq<Step>, t: Id, c: Core) {
    && (c.state != ACTIVE <==> Return(t) in steps)
    && c.externalHolds == Times(steps, AddHold(t)) - Times(steps, RemoveHold(t))
    && c.ranDone == Times(steps, RunDoneCallback(t))
    && (c.state == ACTIVE ==> (c.cancelled <==> CancelledActive(steps, t)))
    && (c.cancelled ==> Cancel(t) in steps || CancelChild(t) in steps)
    && (forall cb :: CallbackTraced(steps, t, c, cb))
  }

  /** The fields of a core that the steps of other tasks and links do not touch. */
  ghost predicate SameCore(c: Core, d: Core) {
    && (c.state == ACTIVE <==> d.state == ACTIVE) && c.externalHolds == d.externalHolds && c.ranDone == d.ranDone
    && c.cancelled == d.cancelled && c.registered == d.registered && c.wanted == d.wanted && c.due == d.due
    && c.cleanups == d.cleanups && c.ranCancel == d.ranCancel && c.ranCleanup == d.ranCleanup
    && Called(c.firing) == Called(d.firing)
  }

  /** Steps that are not about the own calls and callbacks of a task. */
  predicate Foreign(t: Id, x: Step) {
    x.t != t || x.Create? || x.AddChild? || x.FinishChildDone? || x.Delete?
    || x.HandCancelCallback? || x.HandDone? || x.StartCleanup? || x.FinishDone?
  }

  lemma ForeignTraced(steps: seq<Step>, t: Id, c: Core, d: Core, x: Step)
    requires CoreTraced(steps, t, c) && SameCore(c, d) && Foreign(t, x)
    ensures CoreTraced(steps + [x], t, d)
  {
    hide Times, Given, CancelledActive;
    TimesMore(steps, x, Return(t));
    TimesMore(steps, x, AddHold(t));
    TimesMore(steps, x, RemoveHold(t));
    TimesMore(steps, x, RunDoneCallback(t));
    TimesMore(steps, x, Cancel(t));
    TimesMore(steps, x, CancelChild(t));
    CancelledMore(steps, x, t);
    forall cb
      ensures CallbackTraced(steps + [x], t, d, cb)
    {
      assert CallbackTraced(steps, t, c, cb);
      CallbackSteps(steps, x, t, cb);
    }
  }

  lemma CallbackSteps(steps: seq<Step>, x: Step, t: Id, cb: Callback)
    ensures Given(steps + [x], t, cb) <==> Given(steps, t, cb) || (x == WhenCancelled(t, cb) && Return(t) !in steps)
    ensures WhenCancelled(t, cb) in steps + [x] <==> WhenCancelled(t, cb) in steps || x == WhenCancelled(t, cb)
    ensures CleanupWhenDone(t, cb) in steps + [x] <==> CleanupWhenDone(t, cb) in steps || x == CleanupWhenDone(t, cb)
    ensures Times(steps + [x], RunCancelCallback(t, cb))
         == Times(steps, RunCancelCallback(t, cb)) + if x == RunCancelCallback(t, cb) then 1 else 0
    ensures Times(steps + [x], FinishCancelCallback(t, cb))
         == Times(steps, FinishCancelCallback(t, cb)) + if x == FinishCancelCallback(t, cb) then 1 else 0
    ensures Times(steps + [x], RunCleanup(t, cb))
         == Times(steps, RunCleanup(t, cb)) + if x == RunCleanup(t, cb) then 1 else 0
  {
    GivenMore(steps, x, t, cb);
  }

  lemma OwnTraced(steps: seq<Step>, task: Task, x: Step)
    requires CoreTraced(steps, x.t, task.core) && OnCore(task, x).CoreOk? && CoreInv(task.core)
    ensures CoreTraced(steps + [x], x.t, OnCore(task, x).core)
  {
    hide Times, Given, CancelledActive, CoreInv;
    var t, c, d := x.t, task.core, OnCore(task, x).core;
    TimesMore(steps, x, Return(t));
    TimesMore(steps, x, AddHold(t));
    TimesMore(steps, x, RemoveHold(t));
    TimesMore(steps, x, RunDoneCallback(t));
    TimesMore(steps, x, Cancel(t));
    TimesMore(steps, x, CancelChild(t));
    CancelledMore(steps, x, t);
    forall cb
      ensures CallbackTraced(steps + [x], t, d, cb)
    {
      assert CallbackTraced(steps, t, c, cb);
      CallbackSteps(steps, x, t, cb);
      CancelledMore(steps, x, t);
      OwnCallback(steps, task, x, cb);
    }
  }

  lemma OwnCallback(steps: seq<Step>, task: Task, x: Step, cb: Callback)
    requires CoreTraced(steps, x.t, task.core) && OnCore(task, x).CoreOk? && CoreInv(task.core)
    requires CallbackTraced(steps, x.t, task.core, cb)
    ensures CallbackTraced(steps + [x], x.t, OnCore(task, x).core, cb)
  {
    hide CoreTraced, CallbackTraced, CoreInv, OnCore;
    if x.Cancel? || x.CancelChild? || x.WhenCancelled? {
      CancelTraced(steps, task, x, cb);
    } else {
      OtherTraced(steps, task, x, cb);
    }
  }

  lemma CancelTraced(steps: seq<Step>, task: Task, x: Step, cb: Callback)
    requires CoreTraced(steps, x.t, task.core) && OnCore(task, x).CoreOk? && CoreInv(task.core)
    requires CallbackTraced(steps, x.t, task.core, cb) && (x.Cancel? || x.CancelChild? || x.WhenCancelled?)
    ensures CallbackTraced(steps + [x], x.t, OnCore(task, x).core, cb)
  {
    hide Times, Given, CancelledActive, CoreInv, CancelCore, WhenCancelledCore, OnCore, Called;
    var c := task.core;
    OnCoreIs(task, x);
    CallbackSteps(steps, x, x.t, cb);
    CancelledMore(steps, x, x.t);
    FiringApart(c, cb);
    if x.WhenCancelled? {
      FiringApart(c, x.cb);
      WhenCancelledEffect(c, x.cb, cb);
    } else {
      CancelEffect(c, cb);
    }
  }

  lemma OtherTraced(steps: seq<Step>, task: Task, x: Step, cb: Callback)
    requires OnCore(task, x).CoreOk? && !x.Cancel? && !x.CancelChild? && !x.WhenCancelled?
    requires CallbackTraced(steps, x.t, task.core, cb)
    ensures CallbackTraced(steps + [x], x.t, OnCore(task, x).core, cb)
  {
    hide Times, Given, CancelledActive, TryDone, OnCore, Called;
    var c := task.core;
    OnCoreIs(task, x);
    CallbackSteps(steps, x, x.t, cb);
    CancelledMore(steps, x, x.t);
    match x
    case HandCancelCallback(_, moved) => CalledAfter(c.firing, cb, moved);
    case RunCancelCallback(_, moved) => CalledAfter(c.firing, cb, moved);
    case Return(_) => SameByTryDone(c.(state := PREPARED, cancelCallbacks := {}));
    case RemoveHold(_) => SameByTryDone(c.(holds := c.holds - 1, externalHolds := c.externalHolds - 1));
    case FinishCancelCallback(_, moved) =>
      CalledAfter(c.firing, cb, moved);
      SameByTryDone(c.(firing := c.firing - {moved}, holds := c.holds - 1));
    case _ =>
  }

  /** The change of the core by each kind of step that is about the own calls and callbacks of a task. */
  lemma OnCoreIs(task: Task, x: Step)
    requires OnCore(task, x).CoreOk?
    ensures var c, d := task.core, OnCore(task, x).core;
      match x
      case Cancel(_) => d == CancelCore(c)
      case CancelChild(_) => d == CancelCore(c)
      case Return(_) => d == ReturnCore(c)
      case AddHold(_) => d == AddHoldCore(c)
      case RemoveHold(_) => c.externalHolds > 0 && d == RemoveHoldCore(c)
      case WhenCancelled(_, cb) => cb !in c.registered && d == WhenCancelledCore(c, cb)
      case CleanupWhenDone(_, cb) => d == CleanupCore(c, cb)
      case HandCancelCallback(_, cb) => cb in c.firing && c.firing[cb] == Handing && d == HandCancelCore(c, cb)
      case RunCancelCallback(_, cb) => cb in c.firing && c.firing[cb] == Waiting && d == RunCancelCore(c, cb)
      case FinishCancelCallback(_, cb) => cb in c.firing && c.firing[cb] == Running && d == FinishCancelCore(c, cb)
      case RunCleanup(_, cb) => c.phase.Cleaning? && d == RunCleanupCore(c, cb)
      case _ => SameCore(c, d.(ranDone := c.ranDone))
  {
    hide CancelCore, ReturnCore, WhenCancelledCore, TryDone;
  }

  lemma CalledAfter(firing: map<Callback, Stage>, cb: Callback, moved: Callback)
    ensures moved in firing && firing[moved] == Handing ==>
      (cb in Called(firing[moved := Waiting]) <==> cb in Called(firing))
    ensures moved in firing && firing[moved] == Waiting ==>
      (cb in Called(firing[moved := Running]) <==> cb in Called(firing) || cb == moved) && moved !in Called(firing)
    ensures moved in firing && firing[moved] == Running ==>
      (cb in Called(firing - {moved}) <==> cb in Called(firing) && cb != moved) && moved in Called(firing)
  {
  }

  /** A callback that waits for a cancellation is not on its way, and all are registered. */
  lemma FiringApart(c: Core, cb: Callback)
    requires CoreInv(c)
    ensures cb in c.cancelCallbacks ==> cb !in c.firing
    ensures cb in c.firing || cb in c.cancelCallbacks ==> cb in c.registered
    ensures c.state == ACTIVE && !c.cancelled ==> c.cancelCallbacks == c.wanted
  {
  }

  lemma CancelEffect(c: Core, cb: Callback)
    requires cb in c.cancelCallbacks ==> cb !in c.firing
    ensures var d := CancelCore(c);
      && d == c.(cancelled := d.cancelled, cancelCallbacks := d.cancelCallbacks, holds := d.holds, firing := d.firing,
                 due := d.due)
      && (cb in d.due <==> cb in c.due || (c.state == ACTIVE && !c.cancelled && cb in c.wanted))
      && (cb in Called(d.firing) <==> cb in Called(c.firing))
  {
  }

  lemma WhenCancelledEffect(c: Core, given: Callback, cb: Callback)
    requires given !in c.firing
    ensures var d := WhenCancelledCore(c, given);
      && d == c.(registered := c.registered + {given}, cancelCallbacks := d.cancelCallbacks, holds := d.holds,
                 firing := d.firing, wanted := d.wanted, due := d.due)
      && (cb in d.wanted <==> cb in c.wanted || (cb == given && c.state == ACTIVE))
      && (cb in d.due <==> cb in c.due || (cb == given && c.state == ACTIVE && c.cancelled))
      && (cb in Called(d.firing) <==> cb in Called(c.firing))
  {
  }

  lemma SameByTryDone(c: Core)
    ensures TryDone(c) == c.(state := TryDone(c).state, phase := TryDone(c).phase)
    ensures TryDone(c).state == ACTIVE <==> c.state == ACTIVE
  {
  }

  // ---------- All tasks ----------

  ghost predicate LinksTraced(steps: seq<Step>, s: System, t: Id)
    requires t in s.tasks
  {
    var task := s.tasks[t];
    && (forall c: Id :: c in task.children <==> AddChild(t, c) in steps && FinishChildDone(c) !in steps)
    && (forall p: Id :: task.parent == Some(p) <==> AddChild(p, t) in steps)
    && (task.parent.None? <==> Create(t) in steps)
    && (task.deleted <==> Delete(t) in steps)
    && (task.erased <==> FinishChildDone(t) in steps)
  }

  ghost predicate Traced(steps: seq<Step>, s: System) {
    && (forall x :: x in steps ==> x.t in s.tasks && (x.AddChild? ==> x.child in s.tasks))
    && (forall t :: t in s.tasks ==> CoreTraced(steps, t, s.tasks[t].core))
    && (forall t :: t in s.tasks ==> LinksTraced(steps, s, t))
  }

  /** In every run the state of every task is what the steps say. */
  lemma {:induction false} RunTraced(steps: seq<Step>)
    requires Run(steps).Ok?
    ensures Traced(steps, Run(steps).system)
  {
    hide Traced, Apply, Inv;
    if steps == [] {
      NothingTraced();
    } else {
      var last := |steps| - 1;
      RunTraced(steps[..last]);
      RunIsSafe(steps[..last]);
      StepTraced(steps[..last], Run(steps[..last]).system, steps[last]);
      assert steps[..last] + [steps[last]] == steps;
    }
  }

  lemma NothingTraced()
    ensures Traced([], INITIAL)
  {
  }

  lemma StepTraced(steps: seq<Step>, s: System, x: Step)
    requires Traced(steps, s) && Inv(s) && Apply(s, x).Ok?
    ensures Traced(steps + [x], Apply(s, x).system)
  {
    hide CoreTraced, LinksTraced, Apply, Inv, OnCore, CallsAfter, AddChildCore, LoseChildCore;
    StepKinds(s, x);
    var s' := Apply(s, x).system;
    forall t | t in s'.tasks
      ensures CoreTraced(steps + [x], t, s'.tasks[t].core)
    {
      CoresTraced(steps, s, x, t);
    }
    forall t | t in s'.tasks
      ensures LinksTraced(steps + [x], s', t)
    {
      TaskLinksTraced(steps, s, x, t);
    }
  }

  /** What a step does that is taken: a new root, a new child, the end of a child, a deletion, or a change of a core. */
  lemma StepKinds(s: System, x: Step)
    requires Apply(s, x).Ok?
    ensures x.Create? ==> x.t !in s.tasks && Apply(s, x) == Ok(WithRoot(s, x.t))
    ensures x.AddChild? ==> x.t in s.tasks && x.child !in s.tasks && Apply(s, x) == Ok(WithChild(s, x.t, x.child))
    ensures x.FinishChildDone? ==>
      && x.t in s.tasks && s.tasks[x.t].parent.Some?
      && var p := s.tasks[x.t].parent.value;
      && p in s.tasks && p != x.t && s.tasks[p].core.childHolds > 0 && Apply(s, x) == Ok(WithoutChild(s, p, x.t))
    ensures x.Delete? ==> x.t in s.tasks && Apply(s, x) == Ok(WithoutObject(s, x.t))
    ensures x.CancelChild? ==> x.t in s.cancelCalls
    ensures !x.Create? && !x.AddChild? && !x.FinishChildDone? && !x.Delete? ==>
      && x.t in s.tasks && OnCore(s.tasks[x.t], x).CoreOk?
      && var task := s.tasks[x.t];
      Apply(s, x) == Ok(WithCore(s, x.t, OnCore(task, x).core).(cancelCalls := CallsAfter(s, task, x)))
  {
    hide OnCore, CallsAfter, WithCore, WithChild, WithoutChild, WithRoot, WithoutObject;
  }

  lemma FreshTraced(steps: seq<Step>, t: Id)
    requires forall y :: y in steps ==> y.t != t
    ensures CoreTraced(steps, t, NEW_CORE)
  {
  }

  lemma CoresTraced(steps: seq<Step>, s: System, x: Step, t: Id)
    requires Traced(steps, s) && Inv(s) && Apply(s, x).Ok? && t in Apply(s, x).system.tasks
    ensures CoreTraced(steps + [x], t, Apply(s, x).system.tasks[t].core)
  {
    hide CoreTraced, LinksTraced, CoreInv, Linked, Apply, OnCore, CallsAfter;
    StepKinds(s, x);
    var d := Apply(s, x).system.tasks[t].core;
    if t !in s.tasks {
      FreshTraced(steps, t);
      ForeignTraced(steps, t, NEW_CORE, d, x);
    } else if x.t == t && !Foreign(t, x) {
      OwnTraced(steps, s.tasks[t], x);
    } else {
      if x.t == t && !x.Create? && !x.AddChild? && !x.FinishChildDone? && !x.Delete? {
        OnCoreSame(s.tasks[t], x);
      }
      LinkSame(s.tasks[t].core);
      ForeignTraced(steps, t, s.tasks[t].core, d, x);
    }
  }

  lemma OnCoreSame(task: Task, x: Step)
    requires OnCore(task, x).CoreOk? && Foreign(x.t, x)
    ensures SameCore(task.core, OnCore(task, x).core)
  {
  }

  lemma LinkSame(c: Core)
    ensures SameCore(c, AddChildCore(c)) && (c.childHolds > 0 ==> SameCore(c, LoseChildCore(c)))
  {
  }

  lemma TaskLinksTraced(steps: seq<Step>, s: System, x: Step, t: Id)
    requires Traced(steps, s) && Inv(s) && Apply(s, x).Ok? && t in Apply(s, x).system.tasks
    ensures LinksTraced(steps + [x], Apply(s, x).system, t)
  {
    hide CoreTraced, Inv, Apply, OnCore, CallsAfter, AddChildCore, LoseChildCore, LinksTraced;
    StepKinds(s, x);
    var s' := Apply(s, x).system;
    if t !in s.tasks {
      NewLinks(steps, s, s', x, t);
    } else if x.AddChild? && x.t == t {
      ParentLinks(steps, s, s', t, x.child);
    } else if x.FinishChildDone? {
      ChildGone(steps, s, s', s.tasks[x.t].parent.value, x.t, t);
    } else {
      OtherLinks(steps, s, s', x, t);
    }
  }

  lemma NewLinks(steps: seq<Step>, s: System, s': System, x: Step, t: Id)
    requires t !in s.tasks && t in s'.tasks && s'.tasks[t].children == {} && !s'.tasks[t].erased && !s'.tasks[t].deleted
    requires forall y :: y in steps ==> y.t != t && (y.AddChild? ==> y.child != t)
    requires x == Create(t) || (x.AddChild? && x.child == t && x.t != t)
    requires s'.tasks[t].parent == if x.Create? then None else Some(x.t)
    ensures LinksTraced(steps + [x], s', t)
  {
  }

  lemma ParentLinks(steps: seq<Step>, s: System, s': System, t: Id, child: Id)
    requires t in s.tasks && t in s'.tasks && LinksTraced(steps, s, t) && child != t
    requires s'.tasks[t] == s.tasks[t].(core := s'.tasks[t].core, children := s.tasks[t].children + {child})
    requires forall y :: y in steps ==> y.t != child
    ensures LinksTraced(steps + [AddChild(t, child)], s', t)
  {
  }

  lemma ChildGone(steps: seq<Step>, s: System, s': System, p: Id, child: Id, t: Id)
    requires p in s.tasks && child in s.tasks && p != child && s.tasks[child].parent == Some(p)
    requires s.tasks[p].core.childHolds > 0 && s' == WithoutChild(s, p, child)
    requires t in s.tasks && LinksTraced(steps, s, t) && LinksTraced(steps, s, child)
    ensures LinksTraced(steps + [FinishChildDone(child)], s', t)
  {
    hide LoseChildCore;
  }

  lemma OtherLinks(steps: seq<Step>, s: System, s': System, x: Step, t: Id)
    requires t in s.tasks && t in s'.tasks && LinksTraced(steps, s, t) && !x.FinishChildDone?
    requires x.AddChild? ==> x.t != t && x.child != t
    requires x != Create(t)
    requires s'.tasks[t] == s.tasks[t].(core := s'.tasks[t].core, deleted := s.tasks[t].deleted || x == Delete(t))
    ensures LinksTraced(steps + [x], s', t)
  {
  }

  // ---------- What runs promise ----------

  /** A system with one root task. */
  function Alone(t: Id, core: Core, deleted: bool): System {
    System(map[t := Task(core, None, 0, {}, false, deleted)], multiset{})
  }

  lemma AloneStep(t: Id, core: Core, x: Step, next: Core)
    requires x.t == t && (x.Return? || x.HandDone? || x.StartCleanup? || x.RunDoneCallback? || x.FinishDone?)
    requires OnCore(Task(core, None, 0, {}, false, false), x) == CoreOk(next)
    ensures Apply(Alone(t, core, false), x) == Ok(Alone(t, next, false))
  {
    hide OnCore;
    assert multiset{} + multiset(Alone(t, core, false).tasks[t].children) == multiset{};
  }

  lemma FirstStep(s: System, x: Step, next: System, rest: seq<Step>)
    requires Apply(s, x) == Ok(next)
    ensures After(s, [x] + rest) == After(next, rest)
  {
    hide Apply;
    assert ([x] + rest)[1..] == rest;
  }

  /** The life of a task without callbacks: created, returned, taken to its done callback by its executor, deleted. */
  lemma OneTask(t: Id)
    ensures var steps :=
        [Create(t)] + ([Return(t)] + ([HandDone(t)] + ([StartCleanup(t)] + ([RunDoneCallback(t)] + ([FinishDone(t)]
        + ([Delete(t)] + []))))));
      Run(steps) == Ok(Alone(t, NEW_CORE.(state := DONE, phase := Returned, ranDone := 1), true))
  {
    hide Apply, After, OnCore, Alone;
    var done := NEW_CORE.(state := DONE);
    var c1, c2 := done.(phase := HandingOver), done.(phase := InQueue);
    var c3, c4 := done.(phase := Cleaning({})), done.(phase := InDoneCallback, ranDone := 1);
    var c5 := done.(phase := Returned, ranDone := 1);
    Ends(t, c5);
    LifeOfCore(t);
    AloneStep(t, NEW_CORE, Return(t), c1);
    AloneStep(t, c1, HandDone(t), c2);
    AloneStep(t, c2, StartCleanup(t), c3);
    AloneStep(t, c3, RunDoneCallback(t), c4);
    AloneStep(t, c4, FinishDone(t), c5);
    var r6 := [Delete(t)] + [];
    var r5 := [FinishDone(t)] + r6;
    var r4 := [RunDoneCallback(t)] + r5;
    var r3 := [StartCleanup(t)] + r4;
    var r2 := [HandDone(t)] + r3;
    var r1 := [Return(t)] + r2;
    FirstStep(INITIAL, Create(t), Alone(t, NEW_CORE, false), r1);
    FirstStep(Alone(t, NEW_CORE, false), Return(t), Alone(t, c1, false), r2);
    FirstStep(Alone(t, c1, false), HandDone(t), Alone(t, c2, false), r3);
    FirstStep(Alone(t, c2, false), StartCleanup(t), Alone(t, c3, false), r4);
    FirstStep(Alone(t, c3, false), RunDoneCallback(t), Alone(t, c4, false), r5);
    FirstStep(Alone(t, c4, false), FinishDone(t), Alone(t, c5, false), r6);
    FirstStep(Alone(t, c5, false), Delete(t), Alone(t, c5, true), []);
    RunAfter([], [Create(t)] + r1);
    assert [] + ([Create(t)] + r1) == [Create(t)] + r1;
  }

  lemma LifeOfCore(t: Id)
    ensures var done := NEW_CORE.(state := DONE); var root := Task(NEW_CORE, None, 0, {}, false, false);
      && OnCore(root, Return(t)) == CoreOk(done.(phase := HandingOver))
      && OnCore(root.(core := done.(phase := HandingOver)), HandDone(t)) == CoreOk(done.(phase := InQueue))
      && OnCore(root.(core := done.(phase := InQueue)), StartCleanup(t)) == CoreOk(done.(phase := Cleaning({})))
      && OnCore(root.(core := done.(phase := Cleaning({}))), RunDoneCallback(t))
           == CoreOk(done.(phase := InDoneCallback, ranDone := 1))
      && OnCore(root.(core := done.(phase := InDoneCallback, ranDone := 1)), FinishDone(t))
           == CoreOk(done.(phase := Returned, ranDone := 1))
  {
  }

  lemma Ends(t: Id, c: Core)
    requires c.state == DONE && c.phase == Returned && c.cancelCallbacks == {}
    ensures Apply(INITIAL, Create(t)) == Ok(Alone(t, NEW_CORE, false))
    ensures Apply(Alone(t, c, false), Delete(t)) == Ok(Alone(t, c, true))
    ensures Run([]) == Ok(INITIAL) && After(Alone(t, c, true), []) == Ok(Alone(t, c, true))
  {
  }

  lemma KnownTask(steps: seq<Step>, t: Id)
    requires Run(steps).Ok?
    ensures Known(steps, t) <==> t in Run(steps).system.tasks
  {
    hide Run, CoreTraced;
    RunTraced(steps);
    if t in Run(steps).system.tasks {
      var task := Run(steps).system.tasks[t];
      assert LinksTraced(steps, Run(steps).system, t);
      if task.parent.Some? {
        assert AddChild(task.parent.value, t) in steps;
      }
    }
  }

  /** All that the invariant and the steps say about one task and one callback. */
  lemma TaskFacts(steps: seq<Step>, t: Id, cb: Callback)
    requires Run(steps).Ok? && Known(steps, t)
    ensures t in Run(steps).system.tasks
    ensures var s := Run(steps).system;
      && CoreInv(s.tasks[t].core) && Linked(s, t) && CoreTraced(steps, t, s.tasks[t].core)
      && LinksTraced(steps, s, t) && CallbackTraced(steps, t, s.tasks[t].core, cb)
  {
    hide Run, CoreInv, Linked, LinksTraced, Known;
    KnownTask(steps, t);
    RunTraced(steps);
    RunIsSafe(steps);
  }

  /** Over every run: nothing runs twice, a cancel callback runs only if it was given and the task was cancelled before
      it returned, a cleanup only if it was given, and cleanups and the done callback only after the return. */
  lemma OnlyWhenDue(steps: seq<Step>, t: Id, cb: Callback)
    requires Run(steps).Ok? && Known(steps, t)
    ensures Times(steps, RunCancelCallback(t, cb)) <= if Given(steps, t, cb) && CancelledActive(steps, t) then 1 else 0
    ensures Times(steps, RunCleanup(t, cb)) <= if CleanupWhenDone(t, cb) in steps && Return(t) in steps then 1 else 0
    ensures Times(steps, RunDoneCallback(t)) <= if Return(t) in steps then 1 else 0
  {
    hide Run, Times, Given, CancelledActive, Known, Linked, LinksTraced;
    TaskFacts(steps, t, cb);
    NotBeforeDone(Run(steps).system.tasks[t].core, cb);
  }

  lemma NotBeforeDone(c: Core, cb: Callback)
    requires CoreInv(c)
    ensures c.ranCancel[cb] <= if cb in c.due then 1 else 0
    ensures c.ranCleanup[cb] <= if cb in c.cleanups && c.state == DONE then 1 else 0
    ensures c.ranDone <= if c.state == DONE then 1 else 0
  {
  }

  /** Over every run: when the done callback of a task has started, the task has returned, all its external holds have
      been given back, its due cancel callbacks have run to their end, its cleanups have run, and its children are
      finished. */
  lemma DoneComesLast(steps: seq<Step>, t: Id, cb: Callback, child: Id)
    requires Run(steps).Ok? && Known(steps, t) && RunDoneCallback(t) in steps
    ensures Times(steps, RunDoneCallback(t)) == 1 && Return(t) in steps
    ensures Times(steps, AddHold(t)) == Times(steps, RemoveHold(t))
    ensures Given(steps, t, cb) && CancelledActive(steps, t) ==>
      Times(steps, RunCancelCallback(t, cb)) == 1 == Times(steps, FinishCancelCallback(t, cb))
    ensures CleanupWhenDone(t, cb) in steps ==> Times(steps, RunCleanup(t, cb)) == 1
    ensures AddChild(t, child) in steps ==> FinishChildDone(child) in steps
  {
    hide Run, Times, Given, CancelledActive, Known;
    TimesMore(steps, Return(t), RunDoneCallback(t));
    TaskFacts(steps, t, cb);
    var s := Run(steps).system;
    StartedIsEmpty(s.tasks[t].core);
    LateCore(s.tasks[t].core, cb);
    assert |s.tasks[t].children| == 0;
  }

  lemma LateCore(c: Core, cb: Callback)
    requires CoreInv(c) && Late(c) && c.firing == map[]
    ensures c.state == DONE && c.ranDone == 1 && c.externalHolds == 0 && c.childHolds == 0
    ensures cb in c.due ==> c.ranCancel[cb] == 1
    ensures cb in c.cleanups ==> c.ranCleanup[cb] == 1
  {
  }

  /** All clients are through: every task has returned, and every hold has been given back. */
  ghost predicate ClientsThrough(steps: seq<Step>) {
    forall u :: Known(steps, u) ==> Return(u) in steps && Times(steps, AddHold(u)) == Times(steps, RemoveHold(u))
  }

  lemma ThroughByTrace(steps: seq<Step>)
    requires Run(steps).Ok? && ClientsThrough(steps)
    ensures Through(Run(steps).system)
  {
    hide Run, Times, Known, CallbackTraced, LinksTraced;
    RunTraced(steps);
    forall u | u in Run(steps).system.tasks
      ensures Run(steps).system.tasks[u].core.state != ACTIVE && Run(steps).system.tasks[u].core.externalHolds == 0
    {
      KnownTask(steps, u);
      assert CoreTraced(steps, u, Run(steps).system.tasks[u].core);
    }
  }

  /** After every run in which all clients are through, whatever the executors do, they come to rest within the work
      that is left; and at rest the done callback of every task has run exactly once, a cancel callback exactly once
      if it was given and the task was cancelled before it returned, a cleanup exactly once if it was given, and
      nothing else at all. */
  lemma EverythingRuns(steps: seq<Step>, more: seq<Step>, t: Id, cb: Callback)
    requires Run(steps).Ok? && ClientsThrough(steps) && (forall i :: 0 <= i < |more| ==> Internal(more[i]))
    requires Run(steps + more).Ok? && Quiescent(Run(steps + more).system) && Known(steps, t)
    ensures |more| <= Work(Run(steps).system)
    ensures var all := steps + more;
      && Times(all, RunDoneCallback(t)) == 1
      && Times(all, RunCancelCallback(t, cb)) == (if Given(steps, t, cb) && CancelledActive(steps, t) then 1 else 0)
      && Times(all, RunCleanup(t, cb)) == (if CleanupWhenDone(t, cb) in steps then 1 else 0)
  {
    hide Run, Times, Given, CancelledActive, Known, Quiescent, Internal, Work, Linked, LinksTraced, CoreInv, Through;
    var all := steps + more;
    ThroughByTrace(steps);
    StillKnown(steps, more, t);
    KnownTask(all, t);
    EverythingFinishes(steps, more, t, cb);
    TaskFacts(all, t, cb);
    OnlyWhenDue(all, t, cb);
    assert Return(t) in steps by { assert Known(steps, t); }
    SameCalls(steps, more, t, cb);
  }

  lemma StillKnown(steps: seq<Step>, more: seq<Step>, t: Id)
    requires Known(steps, t)
    ensures Known(steps + more, t)
  {
  }

  /** Steps without clients give no callbacks, and cancel nothing that has not returned. */
  lemma {:induction false} SameCalls(steps: seq<Step>, more: seq<Step>, t: Id, cb: Callback)
    requires Return(t) in steps && forall i :: 0 <= i < |more| ==> Internal(more[i])
    ensures Given(steps + more, t, cb) <==> Given(steps, t, cb)
    ensures CancelledActive(steps + more, t) <==> CancelledActive(steps, t)
    ensures CleanupWhenDone(t, cb) in steps + more <==> CleanupWhenDone(t, cb) in steps
    decreases |more|
  {
    hide Given, CancelledActive;
    if more == [] {
      assert steps + more == steps;
    } else {
      var last := |more| - 1;
      SameCalls(steps, more[..last], t, cb);
      var before := steps + more[..last];
      assert steps + more == before + [more[last]];
      GivenMore(before, more[last], t, cb);
      CancelledMore(before, more[last], t);
      assert Internal(more[last]);
    }
  }

  /** At rest, a child that is not finished has been cancelled if its parent has returned or was cancelled before. */
  lemma CancelReaches(steps: seq<Step>, t: Id, child: Id)
    requires Run(steps).Ok? && Quiescent(Run(steps).system) && AddChild(t, child) in steps
    requires Return(t) in steps || CancelledActive(steps, t)
    ensures FinishChildDone(child) in steps || Cancel(child) in steps || CancelChild(child) in steps
  {
    hide Run, Times, CancelledActive, CallbackTraced, Quiescent, CoreInv;
    assert Known(steps, child);
    RunTraced(steps);
    assert t in Run(steps).system.tasks;
    KnownTask(steps, t);
    TaskFacts(steps, t, 0);
    TaskFacts(steps, child, 0);
    var s := Run(steps).system;
    RunIsSafe(steps);
    if FinishChildDone(child) !in steps {
      OwnsChild(s, t, child);
      NoCallsAtRest(s, child);
      QuietTask(s, child);
      PhaseBasics(s.tasks[child].core);
    }
  }

  lemma NoCallsAtRest(s: System, t: Id)
    requires Inv(s) && Quiescent(s) && t in s.tasks
    ensures t !in s.cancelCalls
  {
    hide Inv, Apply;
    CallEnabled(s, t);
    assert Internal(CancelChild(t));
  }

  lemma CallEnabled(s: System, t: Id)
    requires Inv(s) && t in s.tasks
    ensures t in s.cancelCalls ==> !Apply(s, CancelChild(t)).NotEnabled?
  {
    hide CoreInv, ChildOf, CancelCore;
    assert Linked(s, t);
  }

  /** Clients can always call, whatever has happened, as long as the header does not forbid the call: return and cancel
      until deletion, give callbacks under new names, give back holds, and before the return add holds and cleanups. */
  lemma CallsAreTaken(steps: seq<Step>, t: Id, cb: Callback)
    requires Run(steps).Ok? && Known(steps, t)
    ensures Delete(t) !in steps ==>
      && Run(steps + [Return(t)]).Ok? && Run(steps + [Cancel(t)]).Ok?
      && (WhenCancelled(t, cb) !in steps && CleanupWhenDone(t, cb) !in steps ==>
            Run(steps + [WhenCancelled(t, cb)]).Ok?)
      && (Times(steps, AddHold(t)) > Times(steps, RemoveHold(t)) ==> Run(steps + [RemoveHold(t)]).Ok?)
    ensures Return(t) !in steps ==>
      && Run(steps + [AddHold(t)]).Ok?
      && (WhenCancelled(t, cb) !in steps && CleanupWhenDone(t, cb) !in steps ==>
            Run(steps + [CleanupWhenDone(t, cb)]).Ok?)
  {
    hide Run, Apply, Times, CancelledActive, Given, Known, CoreInv, Linked;
    NextStep(steps, Return(t));
    NextStep(steps, Cancel(t));
    NextStep(steps, WhenCancelled(t, cb));
    NextStep(steps, RemoveHold(t));
    NextStep(steps, AddHold(t));
    NextStep(steps, CleanupWhenDone(t, cb));
    RunIsSafe(steps);
    TaskFacts(steps, t, cb);
    LiveCalls(Run(steps).system, t, cb);
    ActiveCalls(Run(steps).system, t, cb);
  }

  /** New tasks: roots always, and children until their parent returns, under new names. */
  lemma CreationIsTaken(steps: seq<Step>, t: Id, child: Id)
    requires Run(steps).Ok? && !Known(steps, child)
    ensures Run(steps + [Create(child)]).Ok?
    ensures Known(steps, t) && Return(t) !in steps ==> Run(steps + [AddChild(t, child)]).Ok?
  {
    hide Run, Times, CallbackTraced, Known, CoreInv, Linked;
    NextStep(steps, Create(child));
    NextStep(steps, AddChild(t, child));
    KnownTask(steps, child);
    if Known(steps, t) {
      TaskFacts(steps, t, 0);
    }
  }

  /** A root may be deleted once its done callback has started. */
  lemma DeletionIsTaken(steps: seq<Step>, t: Id)
    requires Run(steps).Ok? && Create(t) in steps && RunDoneCallback(t) in steps && Delete(t) !in steps
    ensures Run(steps + [Delete(t)]).Ok?
  {
    hide Run, Apply, Times, CallbackTraced, CoreInv, Linked;
    NextStep(steps, Delete(t));
    assert Known(steps, t);
    RunIsSafe(steps);
    TaskFacts(steps, t, 0);
    TimesMore(steps, Return(t), RunDoneCallback(t));
    StartedIsEmpty(Run(steps).system.tasks[t].core);
    DeleteEnabled(Run(steps).system, t);
  }

  lemma NextStep(steps: seq<Step>, x: Step)
    requires Run(steps).Ok?
    ensures Run(steps + [x]) == Apply(Run(steps).system, x)
  {
    hide Apply;
    assert (steps + [x])[..|steps|] == steps;
  }

  lemma LiveCalls(s: System, t: Id, cb: Callback)
    requires Inv(s) && t in s.tasks
    ensures !s.tasks[t].deleted ==>
      && Apply(s, Return(t)).Ok? && Apply(s, Cancel(t)).Ok?
      && (cb !in s.tasks[t].core.registered ==> Apply(s, WhenCancelled(t, cb)).Ok?)
      && (s.tasks[t].core.externalHolds > 0 ==> Apply(s, RemoveHold(t)).Ok?)
  {
    hide Linked, CoreInv, CancelCore, ReturnCore, WhenCancelledCore, RemoveHoldCore, WithCore, CallsAfter;
    assert CoreInv(s.tasks[t].core);
    HoldCoreKeeps(s.tasks[t].core);
  }

  lemma ActiveCalls(s: System, t: Id, cb: Callback)
    requires t in s.tasks
    ensures s.tasks[t].core.state == ACTIVE ==>
      Apply(s, AddHold(t)).Ok? && (cb !in s.tasks[t].core.registered ==> Apply(s, CleanupWhenDone(t, cb)).Ok?)
  {
    hide AddHoldCore, CleanupCore, WithCore, CallsAfter;
  }

  lemma DeleteEnabled(s: System, t: Id)
    requires Inv(s) && t in s.tasks && Late(s.tasks[t].core) && s.tasks[t].parent.None? && !s.tasks[t].deleted
    ensures Apply(s, Delete(t)).Ok?
  {
    hide Linked, CoreInv;
    DeleteUnfold(s, t);
    assert CoreInv(s.tasks[t].core);
    PhaseBasics(s.tasks[t].core);
    DoneIsClean(s.tasks[t].core);
  }

  /** The CHECKs of the source, over every run: whenever a step is taken, its task has not been deleted unless the step
      is the return of a done callback, and what the source checks holds: a hold that is removed is there and the task
      is not done, a child that finishes is found with its parent, and a task is deleted only when done. */
  lemma ChecksHold(steps: seq<Step>, x: Step)
    requires Run(steps).Ok? && Run(steps + [x]).Ok? && x.t in Run(steps).system.tasks
    ensures Delete(x.t) in steps ==> x.FinishDone?
    ensures var s := Run(steps).system; var task := s.tasks[x.t];
      && (x.RemoveHold? || x.FinishCancelCallback? ==> task.core.holds > 0 && task.core.state != DONE)
      && (x.AddHold? || x.AddChild? || x.CleanupWhenDone? ==> task.core.state != DONE)
      && (x.Delete? ==> task.core.state == DONE && task.core.cancelCallbacks == {})
      && (x.FinishChildDone? ==>
            && task.parent.Some? && task.parent.value in s.tasks
            && var p := s.tasks[task.parent.value];
            x.t in p.children && p.core.holds > 0 && p.core.state != DONE && !p.deleted)
  {
    hide Run, CoreTraced, CoreInv, Linked, ChildOf, Apply;
    var s := Run(steps).system;
    NextStep(steps, x);
    RunIsSafe(steps);
    RunTraced(steps);
    assert LinksTraced(steps, s, x.t);
    if x.FinishChildDone? {
      InternalApplies(s, x);
      ParentWaits(s, s.tasks[x.t].parent.value, x.t);
    } else {
      OwnChecks(s, x);
    }
    if s.tasks[x.t].deleted {
      DeletedIsLeft(s, x);
    }
  }

  lemma OwnChecks(s: System, x: Step)
    requires Inv(s) && Apply(s, x).Ok? && x.t in s.tasks && !x.FinishChildDone?
    ensures var c := s.tasks[x.t].core;
      && (x.RemoveHold? || x.FinishCancelCallback? ==> c.holds > 0 && c.state != DONE)
      && (x.AddHold? || x.AddChild? || x.CleanupWhenDone? ==> c.state != DONE)
      && (x.Delete? ==> c.state == DONE && c.cancelCallbacks == {})
  {
    hide CoreInv, Linked, WithCore, CallsAfter, WithChild, WithRoot, WithoutObject;
    var c := s.tasks[x.t].core;
    assert CoreInv(c);
    match x
    case RemoveHold(_) => HoldCoreKeeps(c);
    case FinishCancelCallback(_, cb) => FiringHolds(c, cb);
    case Delete(t) =>
      DeletedTask(s, t);
      PhaseBasics(c);
      DoneIsClean(c);
    case _ =>
  }

  lemma DeletedIsLeft(s: System, x: Step)
    requires Inv(s) && Apply(s, x).Ok? && x.t in s.tasks && s.tasks[x.t].deleted
    ensures x.FinishDone?
  {
    hide CoreInv, Linked, WithCore, CallsAfter, WithChild, WithRoot, WithoutObject, WithoutChild;
    DeletedFacts(s, x.t);
  }

  lemma DeletedFacts(s: System, t: Id)
    requires Inv(s) && t in s.tasks && s.tasks[t].deleted
    ensures var task := s.tasks[t];
      && Late(task.core) && task.core.state == DONE && task.core.externalHolds == 0 && task.core.firing == map[]
      && (task.parent.Some? ==> task.core.phase == Returned) && t !in s.cancelCalls
  {
    hide CoreInv, ChildOf;
    assert CoreInv(s.tasks[t].core) && Linked(s, t);
    DeletedIsLate(s.tasks[t].core, s.tasks[t]);
  }

  // ---------- How often a parent cancels a child ----------

  /** One call for the cancellation of a task, and one for its return. */
  function CallsFor(c: Core): nat {
    (if c.cancelled then 1 else 0) + (if c.state != ACTIVE then 1 else 0)
  }

  ghost function CallsOwed(s: System, c: Id): nat {
    if c in s.tasks && s.tasks[c].parent.Some? && s.tasks[c].parent.value in s.tasks
    then CallsFor(s.tasks[s.tasks[c].parent.value].core) else 0
  }

  /** Calls made and calls under way are no more than the parent has had reasons for. */
  ghost predicate CallsCounted(steps: seq<Step>, s: System, c: Id) {
    Times(steps, CancelChild(c)) + s.cancelCalls[c] <= CallsOwed(s, c)
  }

  lemma {:induction false} RunCallsCounted(steps: seq<Step>, c: Id)
    requires Run(steps).Ok?
    ensures CallsCounted(steps, Run(steps).system, c)
  {
    hide Apply, CallsCounted, Inv;
    if steps == [] {
      NoCallsYet(c);
    } else {
      var last := |steps| - 1;
      RunCallsCounted(steps[..last], c);
      RunIsSafe(steps[..last]);
      RunTraced(steps[..last]);
      CallsStep(steps[..last], Run(steps[..last]).system, steps[last], c);
      assert steps[..last] + [steps[last]] == steps;
    }
  }

  lemma NoCallsYet(c: Id)
    ensures CallsCounted([], INITIAL, c)
  {
  }

  lemma CallsStep(steps: seq<Step>, s: System, x: Step, c: Id)
    requires CallsCounted(steps, s, c) && Traced(steps, s) && Inv(s) && Apply(s, x).Ok?
    ensures CallsCounted(steps + [x], Apply(s, x).system, c)
  {
    hide Times, CoreTraced, LinksTraced, CoreInv, Linked, Apply, OnCore, CallsAfter, AddChildCore, LoseChildCore;
    hide WithCore, CallsFor;
    TimesMore(steps, x, CancelChild(c));
    StepKinds(s, x);
    if x.AddChild? {
      SameReasons(s.tasks[x.t].core);
      if c == x.child {
        TimesMore(steps, x, x);
        NewChildCalls(steps, s, x.t, c);
      }
    } else if x.FinishChildDone? {
      SameReasons(s.tasks[s.tasks[x.t].parent.value].core);
      SameReasons(s.tasks[x.t].core);
    } else if !x.Create? && !x.Delete? {
      CoreCalls(s, x, c);
      OwedAfter(s, x.t, OnCore(s.tasks[x.t], x).core, CallsAfter(s, s.tasks[x.t], x), c);
    }
  }

  lemma SameReasons(c: Core)
    ensures CallsFor(AddChildCore(c)) == CallsFor(c) && (c.childHolds > 0 ==> CallsFor(LoseChildCore(c)) == CallsFor(c))
    ensures CallsFor(c.(phase := Returned)) == CallsFor(c) && (Owes(c) ==> CallsFor(c) > 0)
  {
  }

  lemma OwedAfter(s: System, t: Id, core: Core, calls: multiset<Id>, c: Id)
    requires t in s.tasks && CallsFor(s.tasks[t].core) <= CallsFor(core)
    ensures var s' := WithCore(s, t, core).(cancelCalls := calls);
      && s'.cancelCalls == calls
      && CallsOwed(s', c) >= CallsOwed(s, c)
      && (c in s.tasks && s.tasks[c].parent == Some(t) ==>
            CallsOwed(s', c) == CallsOwed(s, c) + CallsFor(core) - CallsFor(s.tasks[t].core))
  {
    hide CallsFor;
  }

  /** A child that is new has had no calls. */
  lemma NewChildCalls(steps: seq<Step>, s: System, t: Id, c: Id)
    requires Traced(steps, s) && Inv(s) && c !in s.tasks && t in s.tasks
    ensures CancelChild(c) !in steps && s.cancelCalls[c] == 0
  {
    hide CoreTraced, LinksTraced, CoreInv, Linked;
    assert CancelChild(c).t == c;
  }

  /** A change of one core makes calls only for its children, and as many as it has new reasons for. */
  lemma CoreCalls(s: System, x: Step, c: Id)
    requires Inv(s) && x.t in s.tasks && OnCore(s.tasks[x.t], x).CoreOk? && (x.CancelChild? ==> x.t in s.cancelCalls)
    ensures var task := s.tasks[x.t]; var reasons := CallsFor(OnCore(task, x).core) - CallsFor(task.core);
      && reasons >= 0
      && CallsAfter(s, task, x)[c] + (if x == CancelChild(c) then 1 else 0)
           <= s.cancelCalls[c] + (if c in task.children then reasons else 0)
      && (c in task.children ==> c in s.tasks && s.tasks[c].parent == Some(x.t))
  {
    hide Inv, OnCore;
    if c in s.tasks[x.t].children {
      OwnParent(s, x.t, c);
    }
    Reasons(s.tasks[x.t], x);
  }

  lemma OwnParent(s: System, t: Id, c: Id)
    requires Inv(s) && t in s.tasks && c in s.tasks[t].children
    ensures c in s.tasks && s.tasks[c].parent == Some(t)
  {
    hide Inv;
    OwnsChild(s, t, c);
  }

  /** A cancellation or a return that takes effect is a new reason, and reasons do not go away. */
  lemma Reasons(task: Task, x: Step)
    requires OnCore(task, x).CoreOk?
    ensures var a, b := task.core, OnCore(task, x).core;
      && CallsFor(a) <= CallsFor(b)
      && ((x.Cancel? || x.CancelChild?) && a.state != DONE && !a.cancelled ==> CallsFor(b) == CallsFor(a) + 1)
      && (x.Return? && a.state == ACTIVE ==> CallsFor(b) == CallsFor(a) + 1)
  {
  }

  /** Over every run: a parent cancels a child at most once because it was cancelled itself and at most once because it
      returned, and never without such a reason. */
  lemma CancelledForAReason(steps: seq<Step>, t: Id, child: Id)
    requires Run(steps).Ok? && AddChild(t, child) in steps
    ensures Times(steps, CancelChild(child)) <=
      (if Cancel(t) in steps || CancelChild(t) in steps then 1 else 0) + (if Return(t) in steps then 1 else 0)
  {
    hide Run, Times, CallbackTraced, CoreInv, Linked, CancelledActive;
    RunTraced(steps);
    assert Known(steps, child) && t in Run(steps).system.tasks;
    KnownTask(steps, t);
    TaskFacts(steps, t, 0);
    TaskFacts(steps, child, 0);
    RunCallsCounted(steps, child);
  }
}
