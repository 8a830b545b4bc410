/** Crash recovery (crates/vyomad/src/state/recovery.rs): which VMs named by the write-ahead log are adopted, which are
    cleaned up and which are left alone. The file system and the hypervisor's answers are inputs. */
module Recovery {
  import opened Outcomes
  import opened Wal

  datatype VmStatus =
    | PendingAttestation
    | VmRunning
    | AttestationFailed(reason: string)
    | VmError(reason: string)
    | Paused
    | Hibernated

  datatype PortMapping = PortMapping(hostPort: nat, vmPort: nat)

  datatype VolumeMount = VolumeMount(hostPath: string, vmPath: string, readOnly: bool)

  datatype VmState = VmState(
    id: string, tapName: string, dmName: string, loopDevices: seq<string>, cowFilePath: string, ipAddress: string,
    cgroupPath: Option<string>, netnsPath: Option<string>, ports: seq<PortMapping>, volumes: seq<VolumeMount>,
    hostname: Option<string>, labels: map<string, string>, baseImagePath: string, vcpu: nat, memSizeMib: nat,
    networks: seq<string>, status: VmStatus)

  datatype StateFile = Missing | CannotRead | CannotParse | Parsed(state: VmState)

  /** What one `check_vm_status` meets: no socket, an answer, a refusal, or silence for three seconds. */
  datatype Probe = NoSocket | Alive | Dead | TimedOut

  datatype RecoveryStatus = Running | Crashed | Unknown

  /** Everything recovery observes about one VM. Reconstruction looks at the socket and probes on its own, before the
      final probe, so the answers may differ. */
  datatype Machine = Machine(dirExists: bool, file: StateFile, rebuildSocket: bool, rebuildProbe: Probe, probe: Probe)

  datatype RecoveredVm = RecoveredVm(vmId: string, state: VmState, status: RecoveryStatus)

  function CheckVmStatus(p: Probe): RecoveryStatus {
    match p
    case NoSocket => Crashed
    case Alive => Running
    case Dead => Crashed
    case TimedOut => Unknown
  }

  function Rebuilt(id: string): VmState {
    VmState(id, "", "", [], "", "10.0.0.2", None, None, [], [], None, map[], "", 0, 0, [], VmRunning)
  }

  function ReconstructVmState(id: string, m: Machine): Option<VmState> {
    if !m.rebuildSocket then None
    else if CheckVmStatus(m.rebuildProbe) != Running then None
    else Some(Rebuilt(id))
  }

  // ---------- What recovery should do ----------

  /** Running under the VM's id, at the default address, and holding no resource that a cleanup would release. */
  ghost predicate Minimal(id: string, state: VmState) {
    && state.id == id && state.status.VmRunning? && state.ipAddress == "10.0.0.2"
    && state.tapName == state.dmName == state.cowFilePath == state.baseImagePath == ""
    && state.loopDevices == [] && state.ports == [] && state.volumes == [] && state.networks == []
    && state.cgroupPath == state.netnsPath == state.hostname == None
    && state.labels == map[] && state.vcpu == state.memSizeMib == 0
  }

  /** The VM's recorded state; without a state file, a minimal one provided the hypervisor answers. */
  ghost predicate KnownState(id: string, m: Machine, state: VmState) {
    m.file == Parsed(state) || (m.file.Missing? && m.rebuildSocket && m.rebuildProbe.Alive? && Minimal(id, state))
  }

  ghost predicate Adoptable(id: string, m: Machine, state: VmState) {
    m.dirExists && KnownState(id, m, state) && m.probe.Alive?
  }

  ghost predicate FoundDead(id: string, m: Machine) {
    m.dirExists && (exists state :: KnownState(id, m, state)) && (m.probe.NoSocket? || m.probe.Dead?)
  }

  ghost predicate AdoptedAs(recovered: seq<RecoveredVm>, id: string, state: VmState) {
    exists i :: 0 <= i < |recovered| && recovered[i] == RecoveredVm(id, state, Running)
  }

  /** The outcome for the VMs of `ids`: adopted exactly once each, cleaned exactly once each, or left alone. */
  ghost predicate Outcome(ids: set<string>, world: string -> Machine, recovered: seq<RecoveredVm>,
                          cleaned: seq<string>)
  {
    && (forall id, state :: AdoptedAs(recovered, id, state) <==> id in ids && Adoptable(id, world(id), state))
    && (forall i :: 0 <= i < |recovered| ==> recovered[i].status == Running)
    && (forall i, j :: 0 <= i < j < |recovered| ==> recovered[i].vmId != recovered[j].vmId)
    && (forall id :: id in cleaned <==> id in ids && FoundDead(id, world(id)))
    && (forall i, j :: 0 <= i < j < |cleaned| ==> cleaned[i] != cleaned[j])
  }

  /** No VM is both adopted and cleaned up, and none whose probe timed out is touched. */
  lemma AdoptedAndCleanedAreDisjoint(
    ids: set<string>, world: string -> Machine, recovered: seq<RecoveredVm>, cleaned: seq<string>)
    requires Outcome(ids, world, recovered, cleaned)
    ensures forall i :: 0 <= i < |recovered| ==> recovered[i].vmId !in cleaned && world(recovered[i].vmId).probe.Alive?
    ensures forall id :: id in cleaned ==> CheckVmStatus(world(id).probe) == Crashed
  {
    forall i | 0 <= i < |recovered|
      ensures recovered[i].vmId !in cleaned && world(recovered[i].vmId).probe.Alive?
    {
      assert AdoptedAs(recovered, recovered[i].vmId, recovered[i].state);
    }
  }

  // ---------- The recovery loop ----------

  lemma OutcomeSkip(
    ids: set<string>, world: string -> Machine, recovered: seq<RecoveredVm>, cleaned: seq<string>, id: string)
    requires Outcome(ids, world, recovered, cleaned) && !FoundDead(id, world(id))
    requires forall state :: !Adoptable(id, world(id), state)
    ensures Outcome(ids + {id}, world, recovered, cleaned)
  {
  }

  lemma OutcomeAdopt(
    ids: set<string>, world: string -> Machine, recovered: seq<RecoveredVm>, cleaned: seq<string>, id: string,
    state: VmState)
    requires Outcome(ids, world, recovered, cleaned) && id !in ids && Adoptable(id, world(id), state)
    ensures Outcome(ids + {id}, world, recovered + [RecoveredVm(id, state, Running)], cleaned)
  {
    var more := recovered + [RecoveredVm(id, state, Running)];
    assert forall i :: 0 <= i < |recovered| ==> more[i] == recovered[i];
    assert more[|recovered|] == RecoveredVm(id, state, Running);
    forall i | 0 <= i < |recovered| ensures recovered[i].vmId != id {
      assert AdoptedAs(recovered, recovered[i].vmId, recovered[i].state);
    }
    forall x, s ensures AdoptedAs(more, x, s) <==> x in ids + {id} && Adoptable(x, world(x), s) {
      if AdoptedAs(recovered, x, s) {
        var i :| 0 <= i < |recovered| && recovered[i] == RecoveredVm(x, s, Running);
        assert more[i] == RecoveredVm(x, s, Running);
      }
      if AdoptedAs(more, x, s) && x != id {
        var i :| 0 <= i < |more| && more[i] == RecoveredVm(x, s, Running);
        assert recovered[i] == RecoveredVm(x, s, Running);
        assert AdoptedAs(recovered, x, s);
      }
    }
  }

  lemma OutcomeClean(
    ids: set<string>, world: string -> Machine, recovered: seq<RecoveredVm>, cleaned: seq<string>, id: string)
    requires Outcome(ids, world, recovered, cleaned) && id !in ids && FoundDead(id, world(id))
    ensures Outcome(ids + {id}, world, recovered, cleaned + [id])
  {
    assert id !in cleaned;
    assert forall x :: x in cleaned + [id] <==> x in cleaned || x == id;
  }

  function Ids(active: seq<(string, nat)>): set<string> {
    set i | 0 <= i < |active| :: active[i].0
  }

  lemma OutcomeNone(world: string -> Machine)
    ensures Outcome({}, world, [], [])
  {
  }

  /** `cleaned` records the VMs whose orphaned resources were released, in order. */
  method RecoverOnStartup(vmsDirExists: bool, active: seq<(string, nat)>, world: string -> Machine)
    returns (recovered: seq<RecoveredVm>, cleaned: seq<string>)
    ensures Outcome(if vmsDirExists then Ids(active) else {}, world, recovered, cleaned)
  {
    OutcomeNone(world);
    if !vmsDirExists {
      return [], [];
    }
    recovered, cleaned := RecoverAll(Ids(active), world);
  }

  method RecoverAll(activeVms: set<string>, world: string -> Machine)
    returns (recovered: seq<RecoveredVm>, cleaned: seq<string>)
    ensures Outcome(activeVms, world, recovered, cleaned)
  {
    recovered, cleaned := [], [];
    OutcomeNone(world);
    var rest := activeVms;
    while rest != {}
      invariant rest <= activeVms
      invariant Outcome(activeVms - rest, world, recovered, cleaned)
      decreases |rest|
    {
      var id :| id in rest;
      recovered, cleaned := RecoverOne(id, world, activeVms - rest, recovered, cleaned);
      assert activeVms - rest + {id} == activeVms - (rest - {id});
      rest := rest - {id};
    }
    assert activeVms - rest == activeVms;
  }

  /** One iteration of the loop; a returned pair equal to the arguments is the source's `continue`. */
  method RecoverOne(
    id: string, world: string -> Machine, ghost done: set<string>, before: seq<RecoveredVm>, cleanedBefore: seq<string>)
    returns (recovered: seq<RecoveredVm>, cleaned: seq<string>)
    requires Outcome(done, world, before, cleanedBefore) && id !in done
    ensures Outcome(done + {id}, world, recovered, cleaned)
  {
    recovered, cleaned := before, cleanedBefore;
    var m := world(id);
    if !m.dirExists {
      OutcomeSkip(done, world, before, cleanedBefore, id);
      return;
    }
    var vmState;
    match m.file {
      case Missing =>
        var rebuilt := ReconstructVmState(id, m);
        if rebuilt.None? {
          OutcomeSkip(done, world, before, cleanedBefore, id);
          return;
        }
        vmState := rebuilt.value;
      case CannotRead =>
        OutcomeSkip(done, world, before, cleanedBefore, id);
        return;
      case CannotParse =>
        OutcomeSkip(done, world, before, cleanedBefore, id);
        return;
      case Parsed(s) =>
        vmState := s;
    }
    assert KnownState(id, m, vmState);
    match CheckVmStatus(m.probe) {
      case Running =>
        OutcomeAdopt(done, world, before, cleanedBefore, id, vmState);
        recovered := recovered + [RecoveredVm(id, vmState, Running)];
      case Crashed =>
        OutcomeClean(done, world, before, cleanedBefore, id);
        cleaned := cleaned + [id];
      case Unknown =>
        OutcomeSkip(done, world, before, cleanedBefore, id);
    }
  }

  // ---------- Restart after a crash ----------

  /** Restart on whatever the log holds: a VM is adopted, or cleaned up, exactly when the log reports it and what is
      left of it on disk and in the hypervisor demands it. For a log written by appends under a steady clock, that it
      is reported means that the first entry ever appended for it was a create or start. */
  method Restart(wal: WriteAheadLog, ghost history: seq<Append>, vmsDirExists: bool, world: string -> Machine)
    returns (recovered: seq<RecoveredVm>, cleaned: seq<string>)
    ensures forall id, state ::
      AdoptedAs(recovered, id, state) <==> vmsDirExists && Active(wal.tree, id) && Adoptable(id, world(id), state)
    ensures forall id :: id in cleaned <==> vmsDirExists && Active(wal.tree, id) && FoundDead(id, world(id))
    ensures forall i, j :: 0 <= i < j < |recovered| ==> recovered[i].vmId != recovered[j].vmId
    ensures forall i, j :: 0 <= i < j < |cleaned| ==> cleaned[i] != cleaned[j]
    ensures wal.tree == Written(history) && SteadyClock(history) ==>
      forall id :: Active(wal.tree, id) <==> FirstWrittenStarts(history, id)
  {
    var active := wal.GetActiveVmIds();
    recovered, cleaned := RecoverOnStartup(vmsDirExists, active, world);
    forall id ensures id in Ids(active) <==> Active(wal.tree, id) {
      ListedIffActive(wal.tree, active, id);
    }
    if wal.tree == Written(history) && SteadyClock(history) {
      forall id ensures Active(wal.tree, id) <==> FirstWrittenStarts(history, id) {
        SteadyScansFirst(history, id);
        ActiveIffFirstWrittenStarts(history, id);
      }
    }
  }

  lemma ListedIffActive(log: Log, active: seq<(string, nat)>, id: string)
    requires ListsActive(log, active)
    ensures id in Ids(active) <==> Active(log, id)
  {
  }
}
