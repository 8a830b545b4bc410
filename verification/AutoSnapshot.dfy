/** The auto-snapshot task manager (crates/vyomad/src/auto_snapshot.rs): start, stop and loop exit act on a shared
    map from VM to the sender half of a stop channel. A loop is known by its generation, the number of loops spawned
    before it. Each operation holds the write lock throughout, so it is one atomic step; a loop leaves in two steps,
    first out of its `select!` and later through the map, where it removes whatever entry its VM then has. */
module AutoSnapshot {
  import opened Outcomes

  datatype LoopPc = Ticking | Leaving | Exited

  /** `senderAlive` is false once the sender half of the loop's stop channel has been dropped. */
  datatype Loop = Loop(vm: string, pc: LoopPc, senderAlive: bool)

  /** `tasks[vm]` is the generation whose sender the map holds. */
  datatype State = State(tasks: map<string, nat>, loops: seq<Loop>)

  datatype Step = Start(vm: string) | Stop(vm: string) | Leave(g: nat) | Remove(g: nat)

  /** The sender of loop `g` is alive: nothing is ever sent, so the receiver wakes exactly when this ends. */
  predicate ChannelOpen(s: State, g: nat) { g < |s.loops| && s.loops[g].senderAlive }

  /** The loops after the sender the map holds for `vm`, if any, is dropped. */
  function SenderDropped(s: State, vm: string): seq<Loop> {
    if vm in s.tasks && s.tasks[vm] < |s.loops|
    then s.loops[s.tasks[vm] := s.loops[s.tasks[vm]].(senderAlive := false)]
    else s.loops
  }

  predicate Enabled(s: State, step: Step) {
    match step
    case Start(_) => true
    case Stop(_) => true
    case Leave(g) => g < |s.loops| && s.loops[g].pc.Ticking? && !ChannelOpen(s, g)
    case Remove(g) => g < |s.loops| && s.loops[g].pc.Leaving?
  }

  function Apply(s: State, step: Step): State
    requires Enabled(s, step)
  {
    match step
    case Start(vm) =>
      if vm in s.tasks then s else State(s.tasks[vm := |s.loops|], s.loops + [Loop(vm, Ticking, true)])
    case Stop(vm) => State(s.tasks - {vm}, SenderDropped(s, vm))
    case Leave(g) => s.(loops := s.loops[g := s.loops[g].(pc := Leaving)])
    case Remove(g) =>
      var loops := SenderDropped(s, s.loops[g].vm);
      State(s.tasks - {s.loops[g].vm}, loops[g := loops[g].(pc := Exited)])
  }

  /** Nothing of the other VMs changes: neither their map entries nor their loops. */
  ghost predicate OthersKept(s: State, t: State, vm: string) {
    && |t.loops| >= |s.loops|
    && (forall other :: other != vm ==>
      (other in t.tasks <==> other in s.tasks) && (other in s.tasks ==> t.tasks[other] == s.tasks[other]))
    && (forall g :: 0 <= g < |s.loops| && s.loops[g].vm != vm ==> t.loops[g] == s.loops[g])
    && (forall g :: |s.loops| <= g < |t.loops| ==> t.loops[g].vm == vm)
  }

  ghost predicate Run(s: State, steps: seq<Step>, t: State)
    decreases |steps|
  {
    if steps == [] then t == s else Enabled(s, steps[0]) && Run(Apply(s, steps[0]), steps[1..], t)
  }

  const INIT := State(map[], [])

  /** Every sender in the map is alive and belongs to a loop of that VM which is still ticking; and no sender is alive
      but those in the map. */
  ghost predicate Inv(s: State) {
    && (forall vm :: vm in s.tasks ==> s.tasks[vm] < |s.loops| && s.loops[s.tasks[vm]] == Loop(vm, Ticking, true))
    && (forall g :: 0 <= g < |s.loops| && s.loops[g].senderAlive ==>
         s.loops[g].vm in s.tasks && s.tasks[s.loops[g].vm] == g)
  }

  lemma DropKeeps(s: State, vm: string)
    requires Inv(s)
    ensures Inv(State(s.tasks - {vm}, SenderDropped(s, vm)))
    ensures |SenderDropped(s, vm)| == |s.loops|
    ensures forall g :: 0 <= g < |s.loops| ==>
      SenderDropped(s, vm)[g].vm == s.loops[g].vm && SenderDropped(s, vm)[g].pc == s.loops[g].pc
    ensures forall g :: 0 <= g < |s.loops| && s.loops[g].vm == vm ==> !SenderDropped(s, vm)[g].senderAlive
    ensures forall g :: 0 <= g < |s.loops| && s.loops[g].vm != vm ==> SenderDropped(s, vm)[g] == s.loops[g]
  {
  }

  lemma ClosedMoves(s: State, g: nat, pc: LoopPc)
    requires Inv(s) && g < |s.loops| && !s.loops[g].senderAlive
    ensures Inv(s.(loops := s.loops[g := s.loops[g].(pc := pc)]))
  {
  }

  lemma StepKeeps(s: State, step: Step)
    requires Inv(s) && Enabled(s, step)
    ensures Inv(Apply(s, step))
  {
    match step
    case Start(_) =>
    case Stop(vm) => DropKeeps(s, vm);
    case Leave(g) => ClosedMoves(s, g, Leaving);
    case Remove(g) =>
      var vm := s.loops[g].vm;
      DropKeeps(s, vm);
      ClosedMoves(State(s.tasks - {vm}, SenderDropped(s, vm)), g, Exited);
  }

  lemma {:induction false} RunKeeps(s: State, steps: seq<Step>, t: State)
    requires Inv(s) && Run(s, steps, t)
    ensures Inv(t)
    decreases |steps|
  {
    if steps != [] {
      StepKeeps(s, steps[0]);
      RunKeeps(Apply(s, steps[0]), steps[1..], t);
    }
  }

  ghost predicate LiveLoop(s: State, vm: string, g: nat) {
    g < |s.loops| && s.loops[g].vm == vm && ChannelOpen(s, g) && s.loops[g].pc.Ticking?
  }

  /** In every reachable state a VM has at most one loop whose sender is alive, such a loop has not left and is the one
      the map knows, and `is_running` answers whether there is one. */
  lemma AtMostOneLiveLoop(steps: seq<Step>, t: State, vm: string)
    requires Run(INIT, steps, t)
    ensures forall g: nat, h: nat ::
      ChannelOpen(t, g) && ChannelOpen(t, h) && t.loops[g].vm == t.loops[h].vm == vm ==> g == h
    ensures forall g: nat :: ChannelOpen(t, g) && t.loops[g].vm == vm ==> t.loops[g].pc.Ticking?
    ensures forall g: nat :: ChannelOpen(t, g) && t.loops[g].vm == vm <==> vm in t.tasks && t.tasks[vm] == g
    ensures vm in t.tasks <==> exists g :: LiveLoop(t, vm, g)
  {
    RunKeeps(INIT, steps, t);
    if vm in t.tasks {
      assert LiveLoop(t, vm, t.tasks[vm]);
    }
  }

  /** After a start the VM has a live loop: the one it had, with nothing changed, or else a new one. */
  ghost predicate Started(s: State, t: State, vm: string) {
    && vm in t.tasks && LiveLoop(t, vm, t.tasks[vm]) && OthersKept(s, t, vm)
    && (vm in s.tasks ==> t == s)
    && (vm !in s.tasks ==> t.tasks[vm] == |s.loops| && t.loops[..|s.loops|] == s.loops && |t.loops| == |s.loops| + 1)
  }

  /** After a stop no sender of the VM's loops is alive; they have yet to leave, and nothing else changes. */
  ghost predicate Stopped(s: State, t: State, vm: string) {
    && vm !in t.tasks && OthersKept(s, t, vm) && |t.loops| == |s.loops|
    && (forall g: nat :: g < |s.loops| && s.loops[g].vm == vm ==>
      !ChannelOpen(t, g) && t.loops[g] == s.loops[g].(senderAlive := false))
  }

  /** After loop `g` has been through the map its VM has no entry, whichever loop that stood for, and no live loop. */
  ghost predicate Removed(s: State, t: State, g: nat) {
    g < |s.loops| && var vm := s.loops[g].vm;
    && vm !in t.tasks && OthersKept(s, t, vm) && |t.loops| == |s.loops| && t.loops[g].pc.Exited?
    && (forall h: nat :: h < |s.loops| && s.loops[h].vm == vm ==>
      !ChannelOpen(t, h) && t.loops[h].vm == vm && (h != g ==> t.loops[h].pc == s.loops[h].pc))
  }

  lemma StopEffect(s: State, vm: string)
    requires Inv(s)
    ensures Stopped(s, Apply(s, Stop(vm)), vm)
  {
    DropKeeps(s, vm);
  }

  lemma RemoveEffect(s: State, g: nat)
    requires Inv(s) && Enabled(s, Remove(g))
    ensures Removed(s, Apply(s, Remove(g)), g)
  {
    DropKeeps(s, s.loops[g].vm);
  }

  lemma StepEffects(s: State, step: Step)
    requires Inv(s) && Enabled(s, step)
    ensures match step
      case Start(vm) => Started(s, Apply(s, step), vm)
      case Stop(vm) => Stopped(s, Apply(s, step), vm)
      case Leave(g) =>
        Apply(s, step).tasks == s.tasks && Apply(s, step).loops == s.loops[g := s.loops[g].(pc := Leaving)]
      case Remove(g) => Removed(s, Apply(s, step), g)
  {
    match step
    case Start(vm) => assert Apply(s, step).loops[..|s.loops|] == s.loops;
    case Stop(vm) => StopEffect(s, vm);
    case Leave(_) =>
    case Remove(g) => RemoveEffect(s, g);
  }

  /** What each operation does in any reachable state, for the VM it is about and for all others. */
  lemma ReachableStepEffects(before: seq<Step>, s: State, step: Step)
    requires Run(INIT, before, s) && Enabled(s, step)
    ensures match step
      case Start(vm) => Started(s, Apply(s, step), vm)
      case Stop(vm) => Stopped(s, Apply(s, step), vm)
      case Leave(g) =>
        Apply(s, step).tasks == s.tasks && Apply(s, step).loops == s.loops[g := s.loops[g].(pc := Leaving)]
      case Remove(g) => Removed(s, Apply(s, step), g)
  {
    RunKeeps(INIT, before, s);
    StepEffects(s, step);
  }

  // ---------- When a started task keeps running ----------

  /** A loop of the VM, other than the one the map knows, that has not finished exiting. */
  ghost predicate Stale(s: State, vm: string, g: nat) {
    g < |s.loops| && s.loops[g].vm == vm && !s.loops[g].pc.Exited? && !ChannelOpen(s, g)
  }

  ghost predicate StopFree(steps: seq<Step>, vm: string) {
    forall i :: 0 <= i < |steps| ==> steps[i] != Stop(vm)
  }

  ghost predicate StopFreeRun(s: State, steps: seq<Step>, t: State, vm: string) {
    Run(s, steps, t) && StopFree(steps, vm)
  }

  /** The VM's task is known to the map and no other loop of it is around. */
  ghost predicate Alone(s: State, vm: string, g: nat) {
    && vm in s.tasks && s.tasks[vm] == g
    && (forall h :: 0 <= h < |s.loops| && s.loops[h].vm == vm && h != g ==> s.loops[h].pc.Exited?)
  }

  lemma AloneIffNoStale(s: State, vm: string)
    requires Inv(s) && vm in s.tasks
    ensures Alone(s, vm, s.tasks[vm]) <==> forall g: nat :: !Stale(s, vm, g)
  {
    if Alone(s, vm, s.tasks[vm]) {
      forall g: nat ensures !Stale(s, vm, g) {}
    }
    if forall g: nat :: !Stale(s, vm, g) {
      forall h | 0 <= h < |s.loops| && s.loops[h].vm == vm && h != s.tasks[vm] ensures s.loops[h].pc.Exited? {
        assert !Stale(s, vm, h);
      }
    }
  }

  lemma AloneStep(s: State, step: Step, vm: string, g: nat)
    requires Inv(s) && Enabled(s, step) && step != Stop(vm) && Alone(s, vm, g)
    ensures Alone(Apply(s, step), vm, g)
  {
    match step
    case Start(_) =>
    case Stop(other) => DropKeeps(s, other);
    case Leave(_) =>
    case Remove(h) =>
      assert s.loops[h].vm != vm;
      DropKeeps(s, s.loops[h].vm);
  }

  lemma {:induction false} SurvivesAlone(s: State, steps: seq<Step>, t: State, vm: string, g: nat)
    requires Inv(s) && Run(s, steps, t) && StopFree(steps, vm) && Alone(s, vm, g)
    ensures Alone(t, vm, g)
    decreases |steps|
  {
    if steps != [] {
      assert steps[0] != Stop(vm);
      AloneStep(s, steps[0], vm, g);
      StepKeeps(s, steps[0]);
      forall i | 0 <= i < |steps[1..]| ensures steps[1..][i] != Stop(vm) { assert steps[i + 1] != Stop(vm); }
      SurvivesAlone(Apply(s, steps[0]), steps[1..], t, vm, g);
    }
  }

  lemma StaleLoopEvicts(s: State, vm: string, g: nat) returns (steps: seq<Step>, t: State)
    requires Inv(s) && Stale(s, vm, g)
    ensures Run(s, steps, t) && StopFree(steps, vm) && vm !in t.tasks
  {
    if s.loops[g].pc.Ticking? {
      var u := Apply(s, Leave(g));
      steps, t := [Leave(g), Remove(g)], Apply(u, Remove(g));
      assert steps[1..] == [Remove(g)] && steps[1..][1..] == [];
      assert Run(t, [], t) && Run(u, steps[1..], t);
    } else {
      steps, t := [Remove(g)], Apply(s, Remove(g));
      assert steps[1..] == [] && Run(t, [], t);
    }
  }

  /** A running task is safe from everything but `stop_task` exactly when no earlier loop of its VM is still on its
      way out: such a loop removes the new entry when it gets to the map. */
  lemma SurvivesIffNoStaleLoop(before: seq<Step>, s: State, vm: string)
    requires Run(INIT, before, s) && vm in s.tasks
    ensures (forall steps, t :: StopFreeRun(s, steps, t, vm) ==> vm in t.tasks) <==> (forall g: nat :: !Stale(s, vm, g))
  {
    RunKeeps(INIT, before, s);
    AloneIffNoStale(s, vm);
    if g: nat :| Stale(s, vm, g) {
      var steps, t := StaleLoopEvicts(s, vm, g);
      assert StopFreeRun(s, steps, t, vm);
    } else {
      forall steps, t | StopFreeRun(s, steps, t, vm) ensures vm in t.tasks {
        SurvivesAlone(s, steps, t, vm, s.tasks[vm]);
      }
    }
  }

  /** The eviction happens: start, stop and start again, and the first loop's late exit ends the second task. */
  lemma RestartCanBeEvicted(vm: string)
    ensures exists t :: Run(INIT, [Start(vm), Stop(vm), Start(vm), Leave(0), Remove(0)], t) && vm !in t.tasks
  {
    var a := Apply(INIT, Start(vm));
    var b := Apply(a, Stop(vm));
    var c := Apply(b, Start(vm));
    assert c.tasks[vm] == 1;
    var d := Apply(c, Leave(0));
    var t := Apply(d, Remove(0));
    var steps := [Start(vm), Stop(vm), Start(vm), Leave(0), Remove(0)];
    assert Run(t, steps[5..], t);
    assert steps[4..][1..] == steps[5..] && Run(d, steps[4..], t);
    assert steps[3..][1..] == steps[4..] && Run(c, steps[3..], t);
    assert steps[2..][1..] == steps[3..] && Run(b, steps[2..], t);
    assert steps[1..][1..] == steps[2..] && Run(a, steps[1..], t);
  }

  // ---------- The manager object ----------

  datatype TaskError = AlreadyRunning | NoTask

  /** The manager as an object; its fields are the state of the machine above. */
  class AutoSnapshotManager {
    var tasks: map<string, nat>
    var loops: seq<Loop>

    function Abstract(): State
      reads this
    {
      State(tasks, loops)
    }

    ghost predicate Valid()
      reads this
    {
      Inv(Abstract())
    }

    constructor ()
      ensures Valid() && Abstract() == INIT
    {
      tasks, loops := map[], [];
    }

    method StartTask(vm: string) returns (r: Result<(), TaskError>)
      requires Valid()
      modifies this
      ensures Valid() && Abstract() == Apply(old(Abstract()), Start(vm))
      ensures Started(old(Abstract()), Abstract(), vm)
      ensures r.Ok? <==> vm !in old(tasks)
    {
      StepKeeps(Abstract(), Start(vm));
      StepEffects(Abstract(), Start(vm));
      if vm in tasks {
        return Err(AlreadyRunning);
      }
      tasks := tasks[vm := |loops|];
      loops := loops + [Loop(vm, Ticking, true)];
      return Ok(());
    }

    method StopTask(vm: string) returns (r: Result<(), TaskError>)
      requires Valid()
      modifies this
      ensures Valid() && Abstract() == Apply(old(Abstract()), Stop(vm))
      ensures Stopped(old(Abstract()), Abstract(), vm)
      ensures r.Ok? <==> vm in old(tasks)
    {
      StepKeeps(Abstract(), Stop(vm));
      StepEffects(Abstract(), Stop(vm));
      if vm in tasks {
        var sender := tasks[vm];
        tasks := tasks - {vm};
        loops := loops[sender := loops[sender].(senderAlive := false)];
        return Ok(());
      }
      assert tasks - {vm} == tasks;
      return Err(NoTask);
    }

    method IsRunning(vm: string) returns (b: bool)
      requires Valid()
      ensures b <==> exists g :: LiveLoop(Abstract(), vm, g)
    {
      b := vm in tasks;
      assert b ==> LiveLoop(Abstract(), vm, tasks[vm]);
    }

    /** The receiver found its channel closed. */
    method LeaveLoop(g: nat)
      requires Valid() && Enabled(Abstract(), Leave(g))
      modifies this
      ensures Valid() && Abstract() == Apply(old(Abstract()), Leave(g))
    {
      StepKeeps(Abstract(), Leave(g));
      loops := loops[g := loops[g].(pc := Leaving)];
    }

    /** The end of `auto_snapshot_loop`: the removed sender, whosever it is, is dropped. */
    method RemoveEntry(g: nat)
      requires Valid() && Enabled(Abstract(), Remove(g))
      modifies this
      ensures Valid() && Abstract() == Apply(old(Abstract()), Remove(g))
      ensures Removed(old(Abstract()), Abstract(), g)
    {
      StepKeeps(Abstract(), Remove(g));
      StepEffects(Abstract(), Remove(g));
      var vm := loops[g].vm;
      if vm in tasks {
        var sender := tasks[vm];
        loops := loops[sender := loops[sender].(senderAlive := false)];
      }
      tasks := tasks - {vm};
      loops := loops[g := loops[g].(pc := Exited)];
    }
  }
}
