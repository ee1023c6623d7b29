/**
 `util::Task` of cpp/util/task.cc as a state machine. One step is one critical section of a task's
 lock, or one closure that an executor runs; the order of steps is arbitrary, so every executor and
 every interleaving of threads is covered.

 Loops that run after the lock is given up (cancelling a copy of the children, handing callbacks to the
 executor) are modelled as pending work that may be taken up in any order.
 */
module TaskProtocol {
  import opened Options

  type Id = nat
  type Callback = nat

  datatype TaskState = ACTIVE | PREPARED | DONE

  /** A cancel callback on its way: not yet given to the executor, waiting there, or called. */
  datatype Stage = Handing | Waiting | Running

  /** The way to the done callback, from the transition to DONE on. */
  datatype Phase = NotYet | HandingOver | InQueue | Cleaning(todo: set<Callback>) | InDoneCallback | Returned

  /** The fields of one task that only its own steps change. The last two rows are history that the source does
      not keep: holds by origin, callbacks ever registered, cancel callbacks given while active, those of them that
      a cancellation makes due, cleanup callbacks, and how often each ran. */
  datatype Core = Core(
    state: TaskState, cancelled: bool, holds: int,
    cancelCallbacks: set<Callback>, cleanupCallbacks: set<Callback>, firing: map<Callback, Stage>, phase: Phase,
    externalHolds: nat, childHolds: nat, registered: set<Callback>, wanted: set<Callback>, due: set<Callback>,
    cleanups: set<Callback>,
    ranCancel: multiset<Callback>, ranCleanup: multiset<Callback>, ranDone: nat)

  const NEW_CORE := Core(ACTIVE, false, 0, {}, {}, map[], NotYet, 0, 0, {}, {}, {}, {}, multiset{}, multiset{}, 0)

  // ---------- Critical sections ----------

  /** `TryDoneTransition`. */
  function TryDone(c: Core): Core {
    if c.state != PREPARED || c.holds > 0 then c else c.(state := DONE, phase := HandingOver)
  }

  function CancelCore(c: Core): Core {
    if c.state == DONE || c.cancelled then c
    else
      c.(cancelled := true, cancelCallbacks := {}, holds := c.holds + |c.cancelCallbacks|,
         firing := c.firing + map cb | cb in c.cancelCallbacks :: Handing,
         due := if c.state == ACTIVE then c.due + c.wanted else c.due)
  }

  function ReturnCore(c: Core): Core {
    if c.state != ACTIVE then c else TryDone(c.(state := PREPARED, cancelCallbacks := {}))
  }

  function AddHoldCore(c: Core): Core {
    c.(holds := c.holds + 1, externalHolds := c.externalHolds + 1)
  }

  function RemoveHoldCore(c: Core): Core
    requires c.externalHolds > 0
  {
    TryDone(c.(holds := c.holds - 1, externalHolds := c.externalHolds - 1))
  }

  function WhenCancelledCore(c: Core, cb: Callback): Core {
    var c' := c.(registered := c.registered + {cb});
    if c.state != ACTIVE then c'
    else if !c.cancelled then c'.(cancelCallbacks := c.cancelCallbacks + {cb}, wanted := c.wanted + {cb})
    else c'.(holds := c.holds + 1, firing := c.firing[cb := Handing], wanted := c.wanted + {cb}, due := c.due + {cb})
  }

  function CleanupCore(c: Core, cb: Callback): Core {
    c.(registered := c.registered + {cb}, cleanupCallbacks := c.cleanupCallbacks + {cb}, cleanups := c.cleanups + {cb})
  }

  function AddChildCore(c: Core): Core {
    c.(holds := c.holds + 1, childHolds := c.childHolds + 1)
  }

  function LoseChildCore(c: Core): Core
    requires c.childHolds > 0
  {
    TryDone(c.(holds := c.holds - 1, childHolds := c.childHolds - 1))
  }

  function HandCancelCore(c: Core, cb: Callback): Core {
    c.(firing := c.firing[cb := Waiting])
  }

  function RunCancelCore(c: Core, cb: Callback): Core {
    c.(firing := c.firing[cb := Running], ranCancel := c.ranCancel + multiset{cb})
  }

  function FinishCancelCore(c: Core, cb: Callback): Core {
    TryDone(c.(firing := c.firing - {cb}, holds := c.holds - 1))
  }

  function StartCleanupCore(c: Core): Core {
    c.(phase := Cleaning(c.cleanupCallbacks), cleanupCallbacks := {})
  }

  function RunCleanupCore(c: Core, cb: Callback): Core
    requires c.phase.Cleaning?
  {
    c.(phase := Cleaning(c.phase.todo - {cb}), ranCleanup := c.ranCleanup + multiset{cb})
  }

  function RunDoneCore(c: Core): Core {
    c.(phase := InDoneCallback, ranDone := c.ranDone + 1)
  }

  // ---------- What one task keeps ----------

  /** Every hold is an outstanding external hold, a cancel callback on its way, or a live child. */
  ghost predicate HoldsCounted(c: Core) {
    c.holds == c.externalHolds + |c.firing.Keys| + c.childHolds
  }

  /** The done callback has been called. */
  predicate Late(c: Core) {
    c.phase == InDoneCallback || c.phase == Returned
  }

  ghost predicate DoneInOrder(c: Core) {
    && (c.state == DONE <==> c.phase != NotYet)
    && (c.state == DONE ==> c.holds == 0)
    && (c.state == PREPARED ==> c.holds > 0)
    && c.cancelCallbacks == (if c.cancelled || c.state != ACTIVE then {} else c.wanted)
    && c.ranDone == if Late(c) then 1 else 0
  }

  ghost predicate CancelOnce(c: Core) {
    RunsOnce(c.cancelCallbacks, c.registered, c.wanted, c.due, c.firing, c.ranCancel)
  }

  ghost predicate RunsOnce(pending: set<Callback>, registered: set<Callback>, wanted: set<Callback>, due: set<Callback>,
                           firing: map<Callback, Stage>, ran: multiset<Callback>) {
    && (forall cb :: cb in pending ==> cb in registered && ran[cb] == 0 && cb !in firing)
    && (forall cb :: cb in firing ==> cb in registered && ran[cb] == if firing[cb] == Running then 1 else 0)
    && (forall cb :: ran[cb] <= if cb in registered then 1 else 0)
    && (forall cb :: cb in due <==> cb in firing || ran[cb] == 1)
    && wanted <= registered
  }

  ghost predicate CleanupOnce(c: Core) {
    && c.cleanups <= c.registered
    && (forall cb :: cb !in c.cleanups ==> c.ranCleanup[cb] == 0)
    && (forall cb :: cb in c.cleanups ==> c.ranCleanup[cb] == if cb in Unclean(c) then 0 else 1)
    && Unclean(c) <= c.cleanups
    && c.cleanupCallbacks == (if c.phase.Cleaning? || Late(c) then {} else c.cleanups)
  }

  /** The cleanup callbacks that have not run. */
  function Unclean(c: Core): set<Callback> {
    if c.phase.Cleaning? then c.phase.todo else if Late(c) then {} else c.cleanupCallbacks
  }

  ghost predicate CoreInv(c: Core) {
    HoldsCounted(c) && DoneInOrder(c) && CancelOnce(c) && CleanupOnce(c)
  }

  lemma CancelFrame(c: Core, c': Core)
    requires c'.cancelCallbacks == c.cancelCallbacks && c'.registered == c.registered
    requires c'.firing == c.firing && c'.ranCancel == c.ranCancel && c'.due == c.due && c'.wanted == c.wanted
    ensures CancelOnce(c') == CancelOnce(c)
  {
  }

  predicate Early(c: Core) {
    c.phase == NotYet || c.phase == HandingOver || c.phase == InQueue
  }

  lemma CleanupFrame(c: Core, c': Core)
    requires c.registered <= c'.registered && c'.cleanups == c.cleanups && c'.ranCleanup == c.ranCleanup
    requires c'.cleanupCallbacks == c.cleanupCallbacks && (c'.phase == c.phase || (Early(c) && Early(c')))
    ensures CleanupOnce(c) ==> CleanupOnce(c')
  {
  }

  lemma TryDoneKeeps(c: Core)
    requires HoldsCounted(c) && CancelOnce(c) && CleanupOnce(c) && c.state != DONE && c.phase == NotYet && c.holds >= 0
    requires c.cancelCallbacks == if c.cancelled || c.state != ACTIVE then {} else c.wanted
    requires c.ranDone == 0
    ensures CoreInv(TryDone(c)) && TryDone(c).childHolds == c.childHolds
  {
    hide CancelOnce, CleanupOnce;
    CancelFrame(c, TryDone(c));
    CleanupFrame(c, TryDone(c));
  }

  lemma CancelCoreKeeps(c: Core)
    requires CoreInv(c)
    ensures CoreInv(CancelCore(c))
    ensures CancelCore(c).cancelled || CancelCore(c).state == DONE
  {
    hide CleanupOnce, CancelOnce;
    if c.state != DONE && !c.cancelled {
      CancelFires(c);
      CleanupFrame(c, CancelCore(c));
    }
  }

  lemma CancelFires(c: Core)
    requires CancelOnce(c) && c.state != DONE && !c.cancelled
    requires c.cancelCallbacks == if c.state != ACTIVE then {} else c.wanted
    ensures CancelOnce(CancelCore(c))
    ensures |CancelCore(c).firing.Keys| == |c.firing.Keys| + |c.cancelCallbacks|
  {
    hide RunsOnce;
    var fired := map cb | cb in c.cancelCallbacks :: Handing;
    AllFire(c.cancelCallbacks, c.registered, c.wanted, c.due, c.firing, fired, c.ranCancel);
    assert c.state != ACTIVE ==> c.due + c.cancelCallbacks == c.due;
  }

  lemma AllFire(pending: set<Callback>, registered: set<Callback>, wanted: set<Callback>, due: set<Callback>,
                firing: map<Callback, Stage>, fired: map<Callback, Stage>, ran: multiset<Callback>)
    requires RunsOnce(pending, registered, wanted, due, firing, ran)
    requires fired.Keys == pending && forall cb :: cb in fired ==> fired[cb] == Handing
    ensures RunsOnce({}, registered, wanted, due + pending, firing + fired, ran)
    ensures |(firing + fired).Keys| == |firing.Keys| + |pending|
  {
    assert (firing + fired).Keys == firing.Keys + pending && firing.Keys !! pending;
  }

  lemma ReturnCoreKeeps(c: Core)
    requires CoreInv(c)
    ensures CoreInv(ReturnCore(c))
  {
    hide CleanupOnce;
    if c.state == ACTIVE {
      var c' := c.(state := PREPARED, cancelCallbacks := {});
      CleanupFrame(c, c');
      TryDoneKeeps(c');
    }
  }

  /** A change of holds of one kind. */
  lemma HoldsChange(c: Core, c': Core)
    requires CoreInv(c) && c.state != DONE
    requires c' == c.(holds := c'.holds, externalHolds := c'.externalHolds, childHolds := c'.childHolds)
    requires HoldsCounted(c')
    ensures CoreInv(TryDone(c')) && (c'.holds > 0 ==> CoreInv(c'))
  {
    hide CancelOnce, CleanupOnce;
    CancelFrame(c, c');
    CleanupFrame(c, c');
    TryDoneKeeps(c');
  }

  lemma HoldCoreKeeps(c: Core)
    requires CoreInv(c)
    ensures c.state != DONE ==> CoreInv(AddHoldCore(c)) && CoreInv(AddChildCore(c))
    ensures c.externalHolds > 0 ==> c.state != DONE && c.holds > 0 && CoreInv(RemoveHoldCore(c))
    ensures c.childHolds > 0 ==> c.state != DONE && c.holds > 0 && CoreInv(LoseChildCore(c))
  {
    hide CancelOnce, CleanupOnce, CoreInv, TryDone;
    assert HoldsCounted(c) && DoneInOrder(c) by { CoreParts(c); }
    if c.state != DONE {
      HoldsChange(c, AddHoldCore(c));
      HoldsChange(c, AddChildCore(c));
      if c.externalHolds > 0 {
        HoldsChange(c, c.(holds := c.holds - 1, externalHolds := c.externalHolds - 1));
      }
      if c.childHolds > 0 {
        HoldsChange(c, c.(holds := c.holds - 1, childHolds := c.childHolds - 1));
      }
    }
  }

  lemma CoreParts(c: Core)
    requires CoreInv(c)
    ensures HoldsCounted(c) && DoneInOrder(c) && CancelOnce(c) && CleanupOnce(c)
  {
  }

  lemma WhenCancelledKeeps(c: Core, cb: Callback)
    requires CoreInv(c) && cb !in c.registered
    ensures CoreInv(WhenCancelledCore(c, cb))
  {
    WhenCancelledOnce(c, cb);
    hide CleanupOnce, CancelOnce;
    CleanupFrame(c, WhenCancelledCore(c, cb));
  }

  lemma WhenCancelledOnce(c: Core, cb: Callback)
    requires CancelOnce(c) && cb !in c.registered
    ensures CancelOnce(WhenCancelledCore(c, cb)) && cb !in c.firing
    ensures |c.firing[cb := Handing].Keys| == |c.firing.Keys| + 1
  {
    assert cb !in c.firing && cb !in c.cancelCallbacks && c.ranCancel[cb] == 0;
    assert c.firing[cb := Handing].Keys == c.firing.Keys + {cb};
  }

  lemma CleanupWhenDoneKeeps(c: Core, cb: Callback)
    requires CoreInv(c) && cb !in c.registered && c.state != DONE
    ensures CoreInv(CleanupCore(c, cb))
  {
    assert cb !in c.cleanups && c.ranCancel[cb] == 0 && c.ranCleanup[cb] == 0;
  }

  lemma FiringHolds(c: Core, cb: Callback)
    requires CoreInv(c) && cb in c.firing
    ensures c.state != DONE && c.holds > 0
    ensures |(c.firing - {cb}).Keys| == |c.firing.Keys| - 1
  {
    assert (c.firing - {cb}).Keys == c.firing.Keys - {cb};
    assert |c.firing.Keys| == |c.firing.Keys - {cb}| + 1;
  }

  lemma FiringKeeps(c: Core, cb: Callback)
    requires CoreInv(c) && cb in c.firing && c.firing[cb] != Running
    ensures c.firing[cb] == Handing ==> CoreInv(HandCancelCore(c, cb))
    ensures c.firing[cb] == Waiting ==> CoreInv(RunCancelCore(c, cb))
  {
    hide CleanupOnce, RunsOnce;
    StageMoves(c.cancelCallbacks, c.registered, c.wanted, c.due, c.firing, c.ranCancel, cb);
    assert c.firing[cb := Waiting].Keys == c.firing.Keys == c.firing[cb := Running].Keys;
    CleanupFrame(c, HandCancelCore(c, cb));
    CleanupFrame(c, RunCancelCore(c, cb));
  }

  lemma StageMoves(pending: set<Callback>, registered: set<Callback>, wanted: set<Callback>, due: set<Callback>,
                   firing: map<Callback, Stage>, ran: multiset<Callback>, cb: Callback)
    requires RunsOnce(pending, registered, wanted, due, firing, ran) && cb in firing && firing[cb] != Running
    ensures RunsOnce(pending, registered, wanted, due, firing[cb := Waiting], ran)
    ensures RunsOnce(pending, registered, wanted, due, firing[cb := Running], ran + multiset{cb})
  {
  }

  lemma FinishCancelKeeps(c: Core, cb: Callback)
    requires CoreInv(c) && cb in c.firing && c.firing[cb] == Running
    ensures CoreInv(FinishCancelCore(c, cb))
  {
    FiringHolds(c, cb);
    var c' := c.(firing := c.firing - {cb}, holds := c.holds - 1);
    CleanupFrame(c, c');
    assert CancelOnce(c');
    hide CleanupOnce;
    TryDoneKeeps(c');
  }

  lemma DonePathKeeps(c: Core)
    requires CoreInv(c)
    ensures c.phase == HandingOver ==> CoreInv(c.(phase := InQueue))
    ensures c.phase == InQueue ==> CoreInv(StartCleanupCore(c))
    ensures c.phase == Cleaning({}) ==> CoreInv(RunDoneCore(c))
    ensures c.phase == InDoneCallback ==> CoreInv(c.(phase := Returned))
  {
    hide RunsOnce;
  }

  lemma RunCleanupKeeps(c: Core, cb: Callback)
    requires CoreInv(c) && c.phase.Cleaning? && cb in c.phase.todo
    ensures CoreInv(RunCleanupCore(c, cb))
  {
    hide RunsOnce;
  }

  // ---------- All tasks ----------

  /** A task, its links to other tasks, how many ancestors it has, and whether the object still exists. */
  datatype Task = Task(core: Core, parent: Option<Id>, depth: nat, children: set<Id>, erased: bool, deleted: bool)

  /** All tasks, and the pending `Cancel` calls on children, each with its own share in the child. */
  datatype System = System(tasks: map<Id, Task>, cancelCalls: multiset<Id>)

  const INITIAL := System(map[], multiset{})

  datatype Step =
    | Create(t: Id)
    | Cancel(t: Id)
    | CancelChild(t: Id)
    | Return(t: Id)
    | AddHold(t: Id)
    | RemoveHold(t: Id)
    | WhenCancelled(t: Id, cb: Callback)
    | AddChild(t: Id, child: Id)
    | CleanupWhenDone(t: Id, cb: Callback)
    | HandCancelCallback(t: Id, cb: Callback)
    | RunCancelCallback(t: Id, cb: Callback)
    | FinishCancelCallback(t: Id, cb: Callback)
    | HandDone(t: Id)
    | StartCleanup(t: Id)
    | RunCleanup(t: Id, cb: Callback)
    | RunDoneCallback(t: Id)
    | FinishDone(t: Id)
    | FinishChildDone(t: Id)
    | Delete(t: Id)

  /** A step cannot happen, fails a CHECK or touches a deleted task, or leads to a new state. */
  datatype Outcome = NotEnabled | Crash | Ok(system: System)

  function WithCore(s: System, t: Id, core: Core): System
    requires t in s.tasks
  {
    s.(tasks := s.tasks[t := s.tasks[t].(core := core)])
  }

  /** The effect of a step on the core of its task; `NotEnabled` and `Crash` as for `Outcome`. The first group
      is client calls: they need a task that is not deleted, and keep to the documented requirements. */
  datatype CoreOutcome = CoreNotEnabled | CoreCrash | CoreOk(core: Core)

  function OnCore(task: Task, step: Step): CoreOutcome {
    var c := task.core;
    match step
    case Cancel(_) => if task.deleted then CoreNotEnabled else CoreOk(CancelCore(c))
    case Return(_) => if task.deleted then CoreNotEnabled else CoreOk(ReturnCore(c))
    case AddHold(_) => if c.state == DONE then CoreNotEnabled else CoreOk(AddHoldCore(c))
    case RemoveHold(_) =>
      if c.externalHolds == 0 then CoreNotEnabled
      else if task.deleted || c.holds <= 0 || c.state == DONE then CoreCrash
      else CoreOk(RemoveHoldCore(c))
    case WhenCancelled(_, cb) =>
      if task.deleted || cb in c.registered then CoreNotEnabled else CoreOk(WhenCancelledCore(c, cb))
    case CleanupWhenDone(_, cb) =>
      if c.state == DONE || cb in c.registered then CoreNotEnabled else CoreOk(CleanupCore(c, cb))
    case CancelChild(_) => if task.deleted then CoreCrash else CoreOk(CancelCore(c))
    case HandCancelCallback(_, cb) =>
      if cb !in c.firing || c.firing[cb] != Handing then CoreNotEnabled
      else if task.deleted then CoreCrash
      else CoreOk(HandCancelCore(c, cb))
    case RunCancelCallback(_, cb) =>
      if cb !in c.firing || c.firing[cb] != Waiting then CoreNotEnabled
      else if task.deleted then CoreCrash
      else CoreOk(RunCancelCore(c, cb))
    case FinishCancelCallback(_, cb) =>
      if cb !in c.firing || c.firing[cb] != Running then CoreNotEnabled
      else if task.deleted || c.holds <= 0 || c.state == DONE then CoreCrash
      else CoreOk(FinishCancelCore(c, cb))
    case HandDone(_) =>
      if c.phase != HandingOver then CoreNotEnabled
      else if task.deleted then CoreCrash
      else CoreOk(c.(phase := InQueue))
    case StartCleanup(_) =>
      if c.phase != InQueue then CoreNotEnabled
      else if task.deleted then CoreCrash
      else CoreOk(StartCleanupCore(c))
    case RunCleanup(_, cb) =>
      if !c.phase.Cleaning? || cb !in c.phase.todo then CoreNotEnabled else CoreOk(RunCleanupCore(c, cb))
    case RunDoneCallback(_) =>
      if c.phase != Cleaning({}) then CoreNotEnabled
      else if task.deleted then CoreCrash
      else CoreOk(RunDoneCore(c))
    case FinishDone(_) =>
      if c.phase != InDoneCallback || task.parent.Some? then CoreNotEnabled else CoreOk(c.(phase := Returned))
    case _ => CoreNotEnabled
  }

  /** The pending cancel calls after a step: `Cancel` and `Return` add one for each child when they take effect. */
  function CallsAfter(s: System, task: Task, step: Step): multiset<Id> {
    var c := task.core;
    match step
    case Cancel(_) => if c.state == DONE || c.cancelled then s.cancelCalls else s.cancelCalls + multiset(task.children)
    case Return(_) => if c.state != ACTIVE then s.cancelCalls else s.cancelCalls + multiset(task.children)
    case CancelChild(t) =>
      (if c.state == DONE || c.cancelled then s.cancelCalls else s.cancelCalls + multiset(task.children)) - multiset{t}
    case _ => s.cancelCalls
  }

  function Apply(s: System, step: Step): Outcome {
    var t := step.t;
    match step
    case Create(_) =>
      if t in s.tasks then NotEnabled
      else Ok(WithRoot(s, t))
    case AddChild(_, child) =>
      if t !in s.tasks || s.tasks[t].core.state == DONE || child in s.tasks then NotEnabled
      else Ok(WithChild(s, t, child))
    case FinishChildDone(_) =>
      if t !in s.tasks || s.tasks[t].core.phase != InDoneCallback || s.tasks[t].parent.None? then NotEnabled
      else
        var p := s.tasks[t].parent.value;
        if p !in s.tasks || p == t || s.tasks[p].deleted || t !in s.tasks[p].children || s.tasks[p].core.childHolds == 0
           || s.tasks[p].core.holds <= 0 || s.tasks[p].core.state == DONE then Crash
        else Ok(WithoutChild(s, p, t))
    case Delete(_) =>
      // Clients may delete a root task from its done callback on; a child goes with its last owner.
      if t !in s.tasks || s.tasks[t].deleted then NotEnabled
      else if s.tasks[t].parent.None? && !Late(s.tasks[t].core) then NotEnabled
      else if s.tasks[t].parent.Some? && !(s.tasks[t].erased && t !in s.cancelCalls) then NotEnabled
      else if s.tasks[t].core.state != DONE || s.tasks[t].core.cancelCallbacks != {} then Crash
      else Ok(WithoutObject(s, t))
    case _ =>
      if step.CancelChild? && t !in s.cancelCalls then NotEnabled
      else if t !in s.tasks then if step.CancelChild? then Crash else NotEnabled
      else
        match OnCore(s.tasks[t], step)
        case CoreNotEnabled => NotEnabled
        case CoreCrash => Crash
        case CoreOk(core) => Ok(WithCore(s, t, core).(cancelCalls := CallsAfter(s, s.tasks[t], step)))
  }

  function WithRoot(s: System, t: Id): System {
    s.(tasks := s.tasks[t := Task(NEW_CORE, None, 0, {}, false, false)])
  }

  function WithoutObject(s: System, t: Id): System
    requires t in s.tasks
  {
    s.(tasks := s.tasks[t := s.tasks[t].(deleted := true)])
  }

  /** The critical section of `AddChildWithExecutor`, and the cancel call it may lead to. */
  function WithChild(s: System, t: Id, child: Id): System
    requires t in s.tasks
  {
    var task := s.tasks[t];
    System(
      s.tasks[child := Task(NEW_CORE, Some(t), task.depth + 1, {}, false, false)]
             [t := task.(core := AddChildCore(task.core), children := task.children + {child})],
      if Owes(task.core) then s.cancelCalls + multiset{child} else s.cancelCalls)
  }

  /** The critical section of `RunChildDoneCallback`, on the parent p of t. */
  function WithoutChild(s: System, p: Id, t: Id): System
    requires p in s.tasks && t in s.tasks && s.tasks[p].core.childHolds > 0
  {
    var parent, task := s.tasks[p], s.tasks[t];
    s.(tasks := s.tasks[t := task.(core := task.core.(phase := Returned), erased := true)]
                       [p := parent.(core := LoseChildCore(parent.core), children := parent.children - {t})])
  }

  /** A task that is cancelled or no longer active owes its children a cancel call. */
  predicate Owes(c: Core) {
    c.cancelled || c.state != ACTIVE
  }

  predicate Settled(c: Core) {
    c.cancelled || c.state == DONE
  }

  // ---------- The invariant ----------

  ghost predicate ChildOf(s: System, t: Id, c: Id)
    requires t in s.tasks
  {
    && c in s.tasks && s.tasks[c].depth == s.tasks[t].depth + 1 && s.tasks[c].parent == Some(t) && !s.tasks[c].erased
    && (Owes(s.tasks[t].core) ==> Settled(s.tasks[c].core) || c in s.cancelCalls)
  }

  ghost predicate Linked(s: System, t: Id)
    requires t in s.tasks
  {
    var task := s.tasks[t];
    && task.core.childHolds == |task.children|
    && (forall c :: c in task.children ==> ChildOf(s, t, c))
    && (task.parent.Some? && !task.erased ==> task.parent.value in s.tasks && t in s.tasks[task.parent.value].children)
    && (task.erased ==> task.core.phase == Returned && task.parent.Some?)
    && (task.parent.Some? && task.core.phase == Returned ==> task.erased)
    && (task.deleted ==> Late(task.core) && (task.parent.Some? ==> task.erased))
    && (t in s.cancelCalls ==> task.parent.Some? && !task.deleted)
  }

  ghost predicate Inv(s: System) {
    && (forall t :: t in s.tasks ==> CoreInv(s.tasks[t].core))
    && (forall t :: t in s.tasks ==> Linked(s, t))
    && (forall t :: t in s.cancelCalls ==> t in s.tasks)
  }

  lemma OwnsChild(s: System, t: Id, c: Id)
    requires Inv(s) && t in s.tasks && c in s.tasks[t].children
    ensures ChildOf(s, t, c) && !s.tasks[c].deleted
  {
    hide CoreInv;
    assert Linked(s, t) && Linked(s, c);
  }

  /** What a step on one task may do to the pending cancel calls and to what that one owes. */
  ghost predicate Fair(s: System, t: Id, core: Core, calls: multiset<Id>)
    requires t in s.tasks
  {
    var task := s.tasks[t];
    && core.childHolds == task.core.childHolds
    && (Settled(task.core) ==> Settled(core))
    && (Owes(core) && !Owes(task.core) ==> forall c :: c in task.children ==> c in calls)
    && (forall u :: u in s.cancelCalls ==> u in calls || (u == t && Settled(core)))
    && (forall u :: u in calls ==> u in s.cancelCalls || u in task.children)
    && (task.core.phase == Returned ==> core.phase == Returned)
    && (core.phase == Returned && task.parent.Some? ==> task.core.phase == Returned)
    && (Late(task.core) ==> Late(core))
  }

  lemma CoreStepKeeps(s: System, t: Id, core: Core, calls: multiset<Id>)
    requires Inv(s) && t in s.tasks && CoreInv(core) && Fair(s, t, core, calls)
    ensures Inv(WithCore(s, t, core).(cancelCalls := calls))
  {
    hide CoreInv, Linked;
    var s' := WithCore(s, t, core).(cancelCalls := calls);
    forall u | u in calls
      ensures u in s'.tasks
    {
      if u in s.tasks[t].children {
        OwnsChild(s, t, u);
      }
    }
    forall u | u in s'.tasks
      ensures Linked(s', u)
    {
      if u in s.tasks[t].children {
        OwnsChild(s, t, u);
      }
      LinkedKeeps(s, t, core, calls, u);
    }
  }

  lemma ChildKept(s: System, t: Id, core: Core, calls: multiset<Id>, u: Id, c: Id)
    requires t in s.tasks && u in s.tasks && c in s.tasks[u].children && ChildOf(s, u, c) && Fair(s, t, core, calls)
    ensures ChildOf(WithCore(s, t, core).(cancelCalls := calls), u, c)
  {
  }

  lemma LinkedKeeps(s: System, t: Id, core: Core, calls: multiset<Id>, u: Id)
    requires t in s.tasks && u in s.tasks && Linked(s, u) && Fair(s, t, core, calls)
    requires u in s.tasks[t].children ==> s.tasks[u].parent.Some? && !s.tasks[u].deleted
    ensures Linked(WithCore(s, t, core).(cancelCalls := calls), u)
  {
    hide ChildOf;
    forall c | c in s.tasks[u].children
      ensures ChildOf(WithCore(s, t, core).(cancelCalls := calls), u, c)
    {
      ChildKept(s, t, core, calls, u, c);
    }
  }

  // ---------- Steps on one core ----------

  lemma CoreResult(s: System, t: Id, step: Step)
    requires Inv(s) && t in s.tasks && step.t == t
    requires step.CancelChild? ==> t in s.cancelCalls
    ensures !OnCore(s.tasks[t], step).CoreCrash?
    ensures OnCore(s.tasks[t], step).CoreOk? ==> CoreInv(OnCore(s.tasks[t], step).core)
  {
    hide CoreInv, CancelCore, ReturnCore, TryDone, RemoveHoldCore, FinishCancelCore, WhenCancelledCore;
    var c := s.tasks[t].core;
    assert CoreInv(c) && Linked(s, t);
    DeletedIsLate(c, s.tasks[t]);
    match step
    case Cancel(_) => CancelCoreKeeps(c);
    case CancelChild(_) => CancelCoreKeeps(c);
    case Return(_) => ReturnCoreKeeps(c);
    case AddHold(_) => HoldCoreKeeps(c);
    case RemoveHold(_) => HoldCoreKeeps(c);
    case WhenCancelled(_, cb) => if cb !in c.registered { WhenCancelledKeeps(c, cb); }
    case CleanupWhenDone(_, cb) => if cb !in c.registered && c.state != DONE { CleanupWhenDoneKeeps(c, cb); }
    case HandCancelCallback(_, cb) =>
      if cb in c.firing && c.firing[cb] != Running { FiringHolds(c, cb); FiringKeeps(c, cb); }
    case RunCancelCallback(_, cb) =>
      if cb in c.firing && c.firing[cb] != Running { FiringHolds(c, cb); FiringKeeps(c, cb); }
    case FinishCancelCallback(_, cb) =>
      if cb in c.firing { FiringHolds(c, cb); if c.firing[cb] == Running { FinishCancelKeeps(c, cb); } }
    case HandDone(_) => DonePathKeeps(c);
    case StartCleanup(_) => DonePathKeeps(c);
    case RunCleanup(_, cb) => if c.phase.Cleaning? && cb in c.phase.todo { RunCleanupKeeps(c, cb); }
    case RunDoneCallback(_) => DonePathKeeps(c);
    case FinishDone(_) => DonePathKeeps(c);
    case _ =>
  }

  lemma DeletedIsLate(c: Core, task: Task)
    requires CoreInv(c) && (task.deleted ==> Late(c))
    ensures task.deleted ==> c.state == DONE && c.holds == 0 && c.externalHolds == 0 && c.firing == map[]
  {
    if task.deleted {
      assert |c.firing.Keys| == 0;
    }
  }

  lemma CoreIsFair(s: System, t: Id, step: Step)
    requires Inv(s) && t in s.tasks && step.t == t
    requires OnCore(s.tasks[t], step).CoreOk?
    ensures Fair(s, t, OnCore(s.tasks[t], step).core, CallsAfter(s, s.tasks[t], step))
  {
    hide CoreInv, Linked, OnCore;
    assert CoreInv(s.tasks[t].core);
    MonoStep(s.tasks[t], step);
    if t in s.tasks[t].children {
      OwnsChild(s, t, t);
    }
  }

  /** How far one step can move a core. */
  lemma MonoStep(task: Task, step: Step)
    requires CoreInv(task.core) && OnCore(task, step).CoreOk?
    ensures var a, b := task.core, OnCore(task, step).core;
      && b.childHolds == a.childHolds
      && (Settled(a) ==> Settled(b)) && (Late(a) ==> Late(b))
      && (a.phase == Returned ==> b.phase == Returned)
      && (b.phase == Returned && task.parent.Some? ==> a.phase == Returned)
      && (Owes(b) && !Owes(a) ==>
            ((step.Cancel? || step.CancelChild?) && a.state != DONE && !a.cancelled) || step.Return?)
      && (step.CancelChild? ==> Settled(b))
  {
    var c := task.core;
    PhaseBasics(c);
    hide CoreInv;
  }

  lemma PhaseBasics(c: Core)
    requires CoreInv(c)
    ensures c.state == DONE <==> c.phase != NotYet
    ensures c.firing != map[] || c.externalHolds > 0 ==> c.state != DONE
  {
    if c.firing != map[] {
      var cb :| cb in c.firing;
      FiringHolds(c, cb);
    }
  }

  // ---------- Steps on links ----------

  lemma NewCoreHolds()
    ensures CoreInv(NEW_CORE)
  {
  }

  /** A task whose core and links stay the same, when a task t is added. */
  lemma AddedTaskKeeps(s: System, s': System, t: Id, u: Id)
    requires Inv(s) && t !in s.tasks && u in s.tasks && u in s'.tasks && s'.tasks[u] == s.tasks[u]
    requires forall v :: v in s.tasks ==> v in s'.tasks && s.tasks[v].children <= s'.tasks[v].children
    requires forall v :: v in s.tasks ==>
      && s'.tasks[v].parent == s.tasks[v].parent && s'.tasks[v].erased == s.tasks[v].erased
      && s'.tasks[v].depth == s.tasks[v].depth
      && Settled(s'.tasks[v].core) == Settled(s.tasks[v].core)
    requires forall v :: v in s.tasks ==> (v in s'.cancelCalls <==> v in s.cancelCalls)
    ensures Linked(s', u)
  {
    hide CoreInv;
    assert Linked(s, u);
    forall c | c in s.tasks[u].children
      ensures ChildOf(s', u, c)
    {
      OwnsChild(s, u, c);
    }
  }

  lemma RootLinked(s: System, t: Id)
    requires t !in s.cancelCalls
    ensures Linked(WithRoot(s, t), t)
  {
  }

  lemma CreateKeeps(s: System, t: Id)
    requires Inv(s) && t !in s.tasks
    ensures Inv(WithRoot(s, t))
  {
    hide CoreInv, ChildOf, Linked;
    NewCoreHolds();
    var s' := WithRoot(s, t);
    forall u | u in s'.tasks
      ensures Linked(s', u)
    {
      if u != t {
        AddedTaskKeeps(s, s', t, u);
      } else {
        RootLinked(s, t);
      }
    }
  }

  lemma ParentGains(s: System, t: Id, child: Id)
    requires t in s.tasks && child !in s.tasks && s.tasks[t].core.state != DONE && Linked(s, t)
    requires child !in s.cancelCalls
    ensures Linked(WithChild(s, t, child), t) && Linked(WithChild(s, t, child), child)
  {
    var s' := WithChild(s, t, child);
    forall c | c in s'.tasks[t].children
      ensures ChildOf(s', t, c)
    {
      assert c != child ==> ChildOf(s, t, c);
    }
  }

  lemma AddChildKeeps(s: System, t: Id, child: Id)
    requires Inv(s) && t in s.tasks && child !in s.tasks && s.tasks[t].core.state != DONE
    ensures Inv(WithChild(s, t, child))
  {
    hide CoreInv, ChildOf, Linked, Settled, WithChild;
    NewCoreHolds();
    HoldCoreKeeps(s.tasks[t].core);
    ParentGains(s, t, child);
    WithChildFrame(s, t, child);
    var s' := WithChild(s, t, child);
    forall u | u in s'.tasks
      ensures Linked(s', u)
    {
      if u != t && u != child {
        AddedTaskKeeps(s, s', child, u);
      }
    }
  }

  /** What a new child leaves as it was. */
  lemma WithChildFrame(s: System, t: Id, child: Id)
    requires t in s.tasks && child !in s.tasks
    ensures var s' := WithChild(s, t, child);
      && s'.tasks.Keys == s.tasks.Keys + {child}
      && s'.tasks[t].core == AddChildCore(s.tasks[t].core) && s'.tasks[child].core == NEW_CORE
      && (forall v :: v in s.tasks && v != t ==> s'.tasks[v] == s.tasks[v])
      && s.tasks[t].children <= s'.tasks[t].children
      && s'.tasks[t].parent == s.tasks[t].parent && s'.tasks[t].erased == s.tasks[t].erased
      && s'.tasks[t].depth == s.tasks[t].depth && Settled(s'.tasks[t].core) == Settled(s.tasks[t].core)
      && (forall v :: v in s'.cancelCalls ==> v in s.cancelCalls || v == child)
      && (forall v :: v in s.cancelCalls ==> v in s'.cancelCalls)
  {
  }

  lemma DeleteKeeps(s: System, t: Id)
    requires Inv(s) && t in s.tasks && Late(s.tasks[t].core)
    requires s.tasks[t].parent.Some? ==> s.tasks[t].erased
    requires t !in s.cancelCalls
    ensures Inv(WithoutObject(s, t))
  {
    hide CoreInv, Linked;
    var s' := WithoutObject(s, t);
    forall u | u in s'.tasks
      ensures Linked(s', u)
    {
      DeletedLinks(s, t, u);
    }
  }

  lemma DeletedLinks(s: System, t: Id, u: Id)
    requires t in s.tasks && u in s.tasks && Linked(s, u) && Late(s.tasks[t].core)
    requires s.tasks[t].parent.Some? ==> s.tasks[t].erased
    requires t !in s.cancelCalls
    ensures Linked(WithoutObject(s, t), u)
  {
    var s' := WithoutObject(s, t);
    forall c | c in s'.tasks[u].children
      ensures ChildOf(s', u, c)
    {
      assert ChildOf(s, u, c);
    }
  }

  lemma DoneIsClean(c: Core)
    requires CoreInv(c) && c.state == DONE
    ensures c.cancelCallbacks == {}
  {
  }

  /** The parent of a child in its done callback is alive and holds it. */
  lemma ParentWaits(s: System, p: Id, t: Id)
    requires Inv(s) && t in s.tasks && s.tasks[t].parent == Some(p) && s.tasks[t].core.phase == InDoneCallback
    ensures p in s.tasks && p != t && t in s.tasks[p].children && s.tasks[p].core.childHolds > 0
    ensures s.tasks[p].core.holds > 0 && s.tasks[p].core.state != DONE && !s.tasks[p].deleted
  {
    hide CoreInv;
    assert Linked(s, t);
    assert Linked(s, p);
    OwnsChild(s, p, t);
    var parent := s.tasks[p];
    assert |parent.children| > 0 by { assert parent.children != {}; }
    HoldCoreKeeps(parent.core);
    PhaseBasics(parent.core);
  }

  lemma LosesChild(s: System, p: Id, t: Id, u: Id)
    requires t in s.tasks && p in s.tasks && u in s.tasks && Linked(s, u)
    requires p != t && t in s.tasks[p].children && s.tasks[t].parent == Some(p)
    requires s.tasks[t].core.phase == InDoneCallback && !s.tasks[t].deleted
    requires s.tasks[p].core.childHolds > 0 && !s.tasks[p].deleted && s.tasks[p].core.phase == NotYet
    ensures Linked(WithoutChild(s, p, t), u)
  {
    var s' := WithoutChild(s, p, t);
    assert |s.tasks[p].children - {t}| == |s.tasks[p].children| - 1;
    forall c | c in s'.tasks[u].children
      ensures ChildOf(s', u, c)
    {
      assert ChildOf(s, u, c);
    }
  }

  lemma FinishChildDoneKeeps(s: System, p: Id, t: Id)
    requires Inv(s) && t in s.tasks && s.tasks[t].parent == Some(p) && s.tasks[t].core.phase == InDoneCallback
    requires p in s.tasks && s.tasks[p].core.childHolds > 0
    ensures Inv(WithoutChild(s, p, t))
  {
    hide CoreInv, ChildOf, Linked;
    ParentWaits(s, p, t);
    HoldCoreKeeps(s.tasks[p].core);
    DonePathKeeps(s.tasks[t].core);
    PhaseBasics(s.tasks[p].core);
    OwnsChild(s, p, t);
    var s' := WithoutChild(s, p, t);
    forall u | u in s'.tasks
      ensures Linked(s', u)
    {
      LosesChild(s, p, t, u);
    }
  }

  // ---------- All steps and all runs ----------

  /** No step fails a CHECK or touches a deleted task, and every step keeps the invariant. */
  lemma StepIsSafe(s: System, step: Step)
    requires Inv(s)
    ensures !Apply(s, step).Crash?
    ensures Apply(s, step).Ok? ==> Inv(Apply(s, step).system)
  {
    hide CoreInv, ChildOf, Inv, OnCore, CallsAfter, WithChild, WithoutChild, WithRoot, WithoutObject, WithCore;
    var t := step.t;
    match step
    case Create(_) =>
      if t !in s.tasks { CreateKeeps(s, t); }
    case AddChild(_, child) =>
      if Apply(s, step).Ok? { AddChildKeeps(s, t, child); }
    case FinishChildDone(_) =>
      if t in s.tasks && s.tasks[t].core.phase == InDoneCallback && s.tasks[t].parent.Some? {
        ParentWaits(s, s.tasks[t].parent.value, t);
        FinishChildDoneKeeps(s, s.tasks[t].parent.value, t);
      }
    case Delete(_) =>
      if t in s.tasks { DeleteIsSafe(s, t); }
    case _ =>
      CallsAlive(s, t);
      if t in s.tasks && (step.CancelChild? ==> t in s.cancelCalls) { CoreStepIsSafe(s, t, step); }
  }

  lemma CallsAlive(s: System, t: Id)
    requires Inv(s)
    ensures t in s.cancelCalls ==> t in s.tasks
  {
  }

  lemma DeleteIsSafe(s: System, t: Id)
    requires Inv(s) && t in s.tasks
    ensures !Apply(s, Delete(t)).Crash?
    ensures Apply(s, Delete(t)).Ok? ==> Inv(Apply(s, Delete(t)).system)
  {
    hide CoreInv, Linked, Apply, WithoutObject;
    DeleteUnfold(s, t);
    DeletedTask(s, t);
    PhaseBasics(s.tasks[t].core);
    if Late(s.tasks[t].core) {
      DoneIsClean(s.tasks[t].core);
      if Apply(s, Delete(t)).Ok? {
        DeleteKeeps(s, t);
      }
    }
  }

  lemma DeleteUnfold(s: System, t: Id)
    requires t in s.tasks
    ensures var task := s.tasks[t];
      Apply(s, Delete(t)) ==
        if task.deleted then NotEnabled
        else if task.parent.None? && !Late(task.core) then NotEnabled
        else if task.parent.Some? && !(task.erased && t !in s.cancelCalls) then NotEnabled
        else if task.core.state != DONE || task.core.cancelCallbacks != {} then Crash
        else Ok(WithoutObject(s, t))
  {
  }

  lemma DeletedTask(s: System, t: Id)
    requires t in s.tasks && Linked(s, t)
    ensures s.tasks[t].erased ==> Late(s.tasks[t].core) && s.tasks[t].parent.Some?
    ensures t in s.cancelCalls ==> s.tasks[t].parent.Some?
  {
    hide ChildOf;
  }

  lemma CoreStepIsSafe(s: System, t: Id, step: Step)
    requires Inv(s) && t in s.tasks && step.t == t
    requires step.CancelChild? ==> t in s.cancelCalls
    ensures !OnCore(s.tasks[t], step).CoreCrash?
    ensures OnCore(s.tasks[t], step).CoreOk? ==>
      Inv(WithCore(s, t, OnCore(s.tasks[t], step).core).(cancelCalls := CallsAfter(s, s.tasks[t], step)))
  {
    hide CoreInv, Inv, OnCore, CallsAfter, Fair, WithCore;
    CoreResult(s, t, step);
    var o := OnCore(s.tasks[t], step);
    if o.CoreOk? {
      CoreIsFair(s, t, step);
      CoreStepKeeps(s, t, o.core, CallsAfter(s, s.tasks[t], step));
    }
  }

  /** The outcome of a run from the initial state. */
  function Run(steps: seq<Step>): Outcome {
    if steps == [] then Ok(INITIAL)
    else
      var before := Run(steps[..|steps| - 1]);
      if before.Ok? then Apply(before.system, steps[|steps| - 1]) else before
  }

  /** No run crashes, and the invariant holds at the end of every run. */
  lemma {:induction false} RunIsSafe(steps: seq<Step>)
    ensures !Run(steps).Crash?
    ensures Run(steps).Ok? ==> Inv(Run(steps).system)
  {
    hide Inv, Apply;
    if steps == [] {
      InitialHolds();
    } else {
      var before := Run(steps[..|steps| - 1]);
      RunIsSafe(steps[..|steps| - 1]);
      if before.Ok? {
        StepIsSafe(before.system, steps[|steps| - 1]);
      }
    }
  }

  lemma InitialHolds()
    ensures Inv(INITIAL)
  {
  }

  /** Completion, at the end of every run and for every task: holds are external holds, cancel callbacks on their
      way and live children; the done callback ran at most once, and only with none of the three left; each
      cancel callback ran at most once, never unless it was due, and before DONE if it was; each cleanup callback
      ran at most once, and all of them before the done callback; and a prepared task that is not done is waiting
      for a hold. */
  lemma Completion(steps: seq<Step>, t: Id, cb: Callback)
    requires Run(steps).Ok? && t in Run(steps).system.tasks
    ensures var task := Run(steps).system.tasks[t]; var c := task.core;
      && c.holds == c.externalHolds + |c.firing| + |task.children|
      && c.ranDone <= 1
      && (c.state == DONE || c.ranDone == 1 ==> c.externalHolds == 0 && c.firing == map[] && task.children == {})
      && c.ranCancel[cb] <= 1 && c.ranCleanup[cb] <= 1
      && (c.ranCancel[cb] == 1 ==> cb in c.due) && (c.state == DONE && cb in c.due ==> c.ranCancel[cb] == 1)
      && (c.ranDone == 1 && cb in c.cleanups ==> c.ranCleanup[cb] == 1)
      && (c.state == PREPARED ==> c.holds > 0)
  {
    hide Run;
    RunIsSafe(steps);
    var s := Run(steps).system;
    assert CoreInv(s.tasks[t].core) && Linked(s, t);
    var c := s.tasks[t].core;
    assert |c.firing| == |c.firing.Keys|;
    if c.state == DONE || c.ranDone == 1 {
      assert |c.firing.Keys| == 0 && |s.tasks[t].children| == 0;
    }
  }

  /** Cancellation, at the end of every run with no call under way: the children of a task that is cancelled or no
      longer active are cancelled or done, and it has no cancel callbacks left. */
  lemma Cancellation(steps: seq<Step>, t: Id, child: Id)
    requires Run(steps).Ok? && t in Run(steps).system.tasks && Run(steps).system.cancelCalls == multiset{}
    ensures var s := Run(steps).system; var c := s.tasks[t].core;
      c.cancelled || c.state != ACTIVE ==>
        && c.cancelCallbacks == {}
        && (child in s.tasks[t].children ==>
              child in s.tasks && (s.tasks[child].core.cancelled || s.tasks[child].core.state == DONE))
  {
    hide Run;
    RunIsSafe(steps);
    var s := Run(steps).system;
    assert CoreInv(s.tasks[t].core);
    if child in s.tasks[t].children {
      OwnsChild(s, t, child);
    }
  }

  // ---------- Nothing is lost ----------

  /** Steps that need no client: whatever the executors and the calls under way still have to do. */
  predicate Internal(step: Step) {
    || step.CancelChild? || step.HandCancelCallback? || step.RunCancelCallback? || step.FinishCancelCallback?
    || step.HandDone? || step.StartCleanup? || step.RunCleanup? || step.RunDoneCallback?
    || step.FinishDone? || step.FinishChildDone?
  }

  /** All work handed to executors is finished. */
  ghost predicate Quiescent(s: System) {
    forall step :: Internal(step) ==> Apply(s, step).NotEnabled?
  }

  /** With all work finished, a task has no cancel callback on its way, and is either not done or all done. */
  lemma QuietTask(s: System, t: Id)
    requires Inv(s) && Quiescent(s) && t in s.tasks
    ensures s.tasks[t].core.firing == map[]
    ensures s.tasks[t].core.phase == NotYet || s.tasks[t].core.phase == Returned
  {
    QuietFiring(s, t);
    QuietPhase(s, t);
  }

  lemma QuietFiring(s: System, t: Id)
    requires Quiescent(s) && t in s.tasks
    ensures s.tasks[t].core.firing == map[]
  {
    var c := s.tasks[t].core;
    if c.firing != map[] {
      var cb :| cb in c.firing;
      match c.firing[cb]
      case Handing => assert Internal(HandCancelCallback(t, cb));
      case Waiting => assert Internal(RunCancelCallback(t, cb));
      case Running => assert Internal(FinishCancelCallback(t, cb));
    }
  }

  lemma QuietPhase(s: System, t: Id)
    requires Quiescent(s) && t in s.tasks
    ensures s.tasks[t].core.phase == NotYet || s.tasks[t].core.phase == Returned
  {
    match s.tasks[t].core.phase
    case NotYet =>
    case HandingOver => assert Internal(HandDone(t));
    case InQueue => assert Internal(StartCleanup(t));
    case Cleaning(todo) =>
      if todo == {} {
        assert Internal(RunDoneCallback(t));
      } else {
        var cb :| cb in todo;
        assert Internal(RunCleanup(t, cb));
      }
    case InDoneCallback =>
      assert Internal(FinishDone(t)) && Internal(FinishChildDone(t));
    case Returned =>
  }

  ghost predicate Within(s: System, bound: nat) {
    forall t :: t in s.tasks ==> s.tasks[t].depth <= bound
  }

  lemma {:induction false} DepthBounded(s: System) returns (bound: nat)
    ensures Within(s, bound)
    decreases |s.tasks|
  {
    if s.tasks == map[] {
      bound := 0;
    } else {
      var t :| t in s.tasks;
      var rest := s.(tasks := s.tasks - {t});
      assert rest.tasks.Keys == s.tasks.Keys - {t};
      var b := DepthBounded(rest);
      bound := if b < s.tasks[t].depth then s.tasks[t].depth else b;
      forall u | u in s.tasks
        ensures s.tasks[u].depth <= bound
      {
        assert u != t ==> u in rest.tasks;
      }
    }
  }

  /** By descent along the children: a task that is not done waits for a child that is not done either. */
  lemma {:induction false} AllDone(s: System, t: Id, bound: nat)
    requires Inv(s) && Quiescent(s) && Within(s, bound) && t in s.tasks
    requires forall u :: u in s.tasks ==> s.tasks[u].core.state != ACTIVE && s.tasks[u].core.externalHolds == 0
    ensures s.tasks[t].core.phase == Returned
    decreases bound - s.tasks[t].depth
  {
    hide Quiescent, CoreInv;
    QuietTask(s, t);
    assert CoreInv(s.tasks[t].core) && Linked(s, t);
    if s.tasks[t].core.phase == NotYet {
      WaitsForChild(s.tasks[t].core);
      var c :| c in s.tasks[t].children;
      OwnsChild(s, t, c);
      AllDone(s, c, bound);
    }
  }

  lemma WaitsForChild(c: Core)
    requires CoreInv(c) && c.phase == NotYet && c.state != ACTIVE && c.externalHolds == 0 && c.firing == map[]
    ensures c.childHolds > 0
  {
    assert c.firing.Keys == {};
  }

  /** No completion is lost: at the end of every run after which the executors are idle, if every task has returned
      and every external hold has been given back, then every done callback, every due cancel callback and every
      cleanup callback has run exactly once. */
  lemma NothingLost(steps: seq<Step>, t: Id, cb: Callback)
    requires Run(steps).Ok? && t in Run(steps).system.tasks && Quiescent(Run(steps).system)
    requires forall u :: u in Run(steps).system.tasks ==>
      Run(steps).system.tasks[u].core.state != ACTIVE && Run(steps).system.tasks[u].core.externalHolds == 0
    ensures var c := Run(steps).system.tasks[t].core;
      && c.state == DONE && c.ranDone == 1
      && (cb in c.due ==> c.ranCancel[cb] == 1) && (cb in c.cleanups ==> c.ranCleanup[cb] == 1)
  {
    hide Run, Quiescent;
    RunIsSafe(steps);
    var s := Run(steps).system;
    var bound := DepthBounded(s);
    AllDone(s, t, bound);
    QuietTask(s, t);
    assert CoreInv(s.tasks[t].core);
  }
}
