/** The snapshot metadata (crates/vyoma-storage/src/snapshot_tree.rs) and the storage operations that drive it
    (crates/vyoma-storage/src/manager.rs). Ids and times are inputs. Failures are a budget: the number of fallible steps
    (external commands, inserts, flushes, in program order) that still succeed before one fails. */
module SnapshotStore {
  import opened Outcomes
  import opened Text

  datatype SnapshotNode = SnapshotNode(
    id: string, vmId: string, parentId: Option<string>, createdAt: nat, name: Option<string>, tag: Option<string>,
    memoryPath: string, snapshotPath: string, cowDeltaPath: string, cowDeltaSize: nat, memorySize: nat)

  datatype StorageError = NotFound(id: string) | StepFailed

  type Snapshots = map<string, SnapshotNode>

  /** Both sled trees: snapshots by id, and snapshot ids by `vm:tag`. */
  datatype Meta = Meta(snapshots: Snapshots, tags: map<string, string>)

  /** The state an operation leaves, its result, and the budget it has not used. */
  datatype Done<T> = Done(meta: Meta, result: Result<T, StorageError>, left: nat)

  function NewNode(vm: string, parent: Option<string>, id: string, at: nat): SnapshotNode {
    SnapshotNode(id, vm, parent, at, None, None, "", "", "", 0, 0)
  }

  function TagKey(vm: string, tag: string): string { vm + [':'] + tag }

  // ---------- Tree operations ----------

  function Create(m: Meta, node: SnapshotNode, budget: nat): Done<()> {
    var stored := m.(snapshots := m.snapshots[node.id := node]);
    if budget == 0 then Done(m, Err(StepFailed), 0)
    else if budget == 1 then Done(stored, Err(StepFailed), 0)
    else if node.tag.None? then Done(stored, Ok(()), budget - 2)
    else
      var tagged := stored.(tags := m.tags[TagKey(node.vmId, node.tag.value) := node.id]);
      if budget == 2 then Done(stored, Err(StepFailed), 0)
      else if budget == 3 then Done(tagged, Err(StepFailed), 0)
      else Done(tagged, Ok(()), budget - 4)
  }

  function Update(m: Meta, node: SnapshotNode, budget: nat): Done<()> {
    var stored := m.(snapshots := m.snapshots[node.id := node]);
    if budget == 0 then Done(m, Err(StepFailed), 0)
    else if budget == 1 then Done(stored, Err(StepFailed), 0)
    else Done(stored, Ok(()), budget - 2)
  }

  function Branch(m: Meta, snapId: string, vm: string, id: string, at: nat, budget: nat): Done<SnapshotNode> {
    if snapId !in m.snapshots then Done(m, Err(NotFound(snapId)), budget)
    else
      var node := NewNode(vm, Some(snapId), id, at).(name := Some("branched-from-" + snapId));
      var c := Create(m, node, budget);
      Done(c.meta, if c.result.Ok? then Ok(node) else Err(c.result.error), c.left)
  }

  function TagSnapshot(m: Meta, snapId: string, vm: string, tag: string, budget: nat): Done<()> {
    if snapId !in m.snapshots then Done(m, Err(NotFound(snapId)), budget)
    else
      var node := m.snapshots[snapId].(tag := Some(tag));
      var stored := m.(snapshots := m.snapshots[node.id := node]);
      var tagged := stored.(tags := m.tags[TagKey(vm, tag) := snapId]);
      if budget == 0 then Done(m, Err(StepFailed), 0)
      else if budget <= 2 then Done(stored, Err(StepFailed), 0)
      else if budget == 3 then Done(tagged, Err(StepFailed), 0)
      else Done(tagged, Ok(()), budget - 4)
  }

  function GetByTag(m: Meta, vm: string, tag: string): Result<Option<SnapshotNode>, StorageError> {
    if TagKey(vm, tag) !in m.tags then Ok(None)
    else
      var id := m.tags[TagKey(vm, tag)];
      if id in m.snapshots then Ok(Some(m.snapshots[id])) else Err(NotFound(id))
  }

  /** Deletion, when no step fails: the index entry of the node's own VM and tag goes with it. */
  function Delete(m: Meta, id: string): Meta
    requires id in m.snapshots
  {
    var node := m.snapshots[id];
    Meta(m.snapshots - {id}, if node.tag.Some? then m.tags - {TagKey(node.vmId, node.tag.value)} else m.tags)
  }

  // ---------- Storage operations ----------

  datatype Op =
    | CreateVmVolume(vm: string, capacityMb: nat)
    | BranchSnapshot(snap: string, vm: string, capacityMb: nat)
    | CommitSnapshot(snap: string, baseName: string)
    | CreateQcow2Volume(vm: string, capacityMb: nat)
    | BranchQcow2Snapshot(snap: string, vm: string)

  /** One call: the operation, the id and time its new node gets, the device-mapper path, and the failure budget. */
  datatype Call = Call(op: Op, id: string, at: nat, devicePath: string, budget: nat)

  /** The external steps before the metadata is touched: directories, sparse files, formatting, loop devices,
      device-mapper, image commands, copying. */
  function ExternalSteps(op: Op): nat {
    match op
    case CreateVmVolume(_, _) => 3
    case BranchSnapshot(_, _, _) => 5
    case CommitSnapshot(_, _) => 5
    case CreateQcow2Volume(_, _) => 2
    case BranchQcow2Snapshot(_, _) => 2
  }

  function Source(op: Op): Option<string> {
    match op
    case BranchSnapshot(snap, _, _) => Some(snap)
    case CommitSnapshot(snap, _) => Some(snap)
    case BranchQcow2Snapshot(snap, _) => Some(snap)
    case _ => None
  }

  /** A parentless node whose image is `path`. */
  function CreateBase(m: Meta, vm: string, path: string, c: Call, budget: nat)
    : (Meta, Result<SnapshotNode, StorageError>)
  {
    var node := NewNode(vm, None, c.id, c.at).(snapshotPath := path);
    var d := Create(m, node, budget);
    (d.meta, if d.result.Ok? then Ok(node) else Err(d.result.error))
  }

  /** A branch, re-saved with its paths. */
  function CreateChild(m: Meta, snap: string, vm: string, child: SnapshotNode -> SnapshotNode, c: Call, budget: nat)
    : (Meta, Result<SnapshotNode, StorageError>)
  {
    var b := Branch(m, snap, vm, c.id, c.at, budget);
    if b.result.Err? then (b.meta, Err(b.result.error))
    else
      var node := child(b.result.value);
      var u := Update(b.meta, node, b.left);
      (u.meta, if u.result.Ok? then Ok(node) else Err(u.result.error))
  }

  function Overlay(vm: string, capacityMb: nat, devicePath: string): SnapshotNode -> SnapshotNode {
    (n: SnapshotNode) => n.(
      snapshotPath := devicePath, cowDeltaPath := vm + "/delta.cow", cowDeltaSize := capacityMb * 1024 * 1024 % U64)
  }

  function Qcow2Overlay(vm: string): SnapshotNode -> SnapshotNode {
    (n: SnapshotNode) => n.(snapshotPath := vm + "/root.qcow2")
  }

  function Perform(m: Meta, c: Call): (Meta, Result<SnapshotNode, StorageError>) {
    if Source(c.op).Some? && Source(c.op).value !in m.snapshots then (m, Err(NotFound(Source(c.op).value)))
    else if c.budget < ExternalSteps(c.op) then (m, Err(StepFailed))
    else
      var left := c.budget - ExternalSteps(c.op);
      match c.op
      case CreateVmVolume(vm, _) => CreateBase(m, vm, vm + "/root.ext4", c, left)
      case CommitSnapshot(_, baseName) => CreateBase(m, baseName, baseName + "/root.ext4", c, left)
      case CreateQcow2Volume(vm, _) => CreateBase(m, vm, vm + "/root.qcow2", c, left)
      case BranchSnapshot(snap, vm, capacityMb) =>
        CreateChild(m, snap, vm, Overlay(vm, capacityMb, c.devicePath), c, left)
      case BranchQcow2Snapshot(snap, vm) => CreateChild(m, snap, vm, Qcow2Overlay(vm), c, left)
  }

  /** Every call gets an id no snapshot has. */
  ghost predicate Run(m: Meta, calls: seq<Call>, t: Meta)
    decreases |calls|
  {
    if calls == [] then t == m
    else calls[0].id !in m.snapshots && Run(Perform(m, calls[0]).0, calls[1..], t)
  }

  const EMPTY := Meta(map[], map[])

  /** The one new node a call may add. */
  ghost predicate Adds(m: Meta, t: Meta, id: string, parent: Option<string>) {
    && id in t.snapshots && t.snapshots == m.snapshots[id := t.snapshots[id]] && t.tags == m.tags
    && t.snapshots[id].id == id && t.snapshots[id].parentId == parent
  }

  function ParentOf(op: Op): Option<string> {
    if op.BranchSnapshot? || op.BranchQcow2Snapshot? then Some(op.snap) else None
  }

  lemma BaseAdds(m: Meta, vm: string, path: string, c: Call, budget: nat)
    ensures var (t, r) := CreateBase(m, vm, path, c, budget);
      (t == m || Adds(m, t, c.id, None)) && (r.Ok? ==> c.id in t.snapshots && t.snapshots[c.id] == r.value)
  {
  }

  lemma ChildAdds(m: Meta, snap: string, vm: string, child: SnapshotNode -> SnapshotNode, c: Call, budget: nat)
    requires forall n :: child(n).id == n.id && child(n).parentId == n.parentId
    ensures var (t, r) := CreateChild(m, snap, vm, child, c, budget);
      (t == m || Adds(m, t, c.id, Some(snap))) && (r.Ok? ==> c.id in t.snapshots && t.snapshots[c.id] == r.value)
  {
    var b := Branch(m, snap, vm, c.id, c.at, budget);
    assert b.meta == m || Adds(m, b.meta, c.id, Some(snap));
    if b.result.Ok? {
      var node := child(b.result.value);
      var u := Update(b.meta, node, b.left);
      assert m.snapshots[c.id := b.result.value][c.id := node] == m.snapshots[c.id := node];
    }
  }

  /** All a call can do to the snapshots, failing midway or not: nothing, or add its one new node, whose parent is the
      branched snapshot or none; a successful call returns the node as stored. */
  lemma PerformAddsAtMostOne(m: Meta, c: Call)
    ensures var (t, r) := Perform(m, c);
      && (t == m || Adds(m, t, c.id, ParentOf(c.op)))
      && (t != m && ParentOf(c.op).Some? ==> ParentOf(c.op).value in m.snapshots)
      && (r.Ok? ==> c.id in t.snapshots && t.snapshots[c.id] == r.value)
  {
    if !(Source(c.op).Some? && Source(c.op).value !in m.snapshots) && c.budget >= ExternalSteps(c.op) {
      var left := c.budget - ExternalSteps(c.op);
      match c.op
      case CreateVmVolume(vm, _) => BaseAdds(m, vm, vm + "/root.ext4", c, left);
      case CommitSnapshot(_, baseName) => BaseAdds(m, baseName, baseName + "/root.ext4", c, left);
      case CreateQcow2Volume(vm, _) => BaseAdds(m, vm, vm + "/root.qcow2", c, left);
      case BranchSnapshot(snap, vm, capacityMb) =>
        ChildAdds(m, snap, vm, Overlay(vm, capacityMb, c.devicePath), c, left);
      case BranchQcow2Snapshot(snap, vm) => ChildAdds(m, snap, vm, Qcow2Overlay(vm), c, left);
    }
  }

  /** What a branch leaves behind: on success the complete child; after a failure midway, if anything, the bare child
      without an image path or the complete one. */
  lemma BranchLeaves(m: Meta, c: Call)
    requires c.op.BranchSnapshot? || c.op.BranchQcow2Snapshot?
    ensures var (t, r) := Perform(m, c);
      var bare := SnapshotNode(
        c.id, c.op.vm, Some(c.op.snap), c.at, Some("branched-from-" + c.op.snap), None, "", "", "", 0, 0);
      var full := if c.op.BranchSnapshot?
        then bare.(snapshotPath := c.devicePath, cowDeltaPath := c.op.vm + "/delta.cow",
                   cowDeltaSize := c.op.capacityMb * 0x10_0000 % U64)
        else bare.(snapshotPath := c.op.vm + "/root.qcow2");
      && (r.Ok? ==> r.value == full && t.snapshots == m.snapshots[c.id := full])
      && (r.Err? ==> t.snapshots in {m.snapshots, m.snapshots[c.id := bare], m.snapshots[c.id := full]})
      && (r.Err? && r.error.NotFound? <==> c.op.snap !in m.snapshots)
  {
    if c.op.snap in m.snapshots && c.budget >= ExternalSteps(c.op) {
      var left := c.budget - ExternalSteps(c.op);
      var b := Branch(m, c.op.snap, c.op.vm, c.id, c.at, left);
      if b.result.Ok? {
        var child :=
          if c.op.BranchSnapshot? then Overlay(c.op.vm, c.op.capacityMb, c.devicePath) else Qcow2Overlay(c.op.vm);
        var full := child(b.result.value);
        assert m.snapshots[c.id := b.result.value][c.id := full] == m.snapshots[c.id := full];
      }
    }
  }

  /** The node a call is to make, whole. */
  ghost function Complete(c: Call): SnapshotNode {
    match c.op
    case CreateVmVolume(vm, _) =>
      SnapshotNode(c.id, vm, None, c.at, None, None, "", vm + "/root.ext4", "", 0, 0)
    case CommitSnapshot(_, baseName) =>
      SnapshotNode(c.id, baseName, None, c.at, None, None, "", baseName + "/root.ext4", "", 0, 0)
    case CreateQcow2Volume(vm, _) =>
      SnapshotNode(c.id, vm, None, c.at, None, None, "", vm + "/root.qcow2", "", 0, 0)
    case BranchSnapshot(snap, vm, capacityMb) =>
      SnapshotNode(c.id, vm, Some(snap), c.at, Some("branched-from-" + snap), None, "", c.devicePath,
        vm + "/delta.cow", capacityMb * 0x10_0000 % U64, 0)
    case BranchQcow2Snapshot(snap, vm) =>
      SnapshotNode(c.id, vm, Some(snap), c.at, Some("branched-from-" + snap), None, "", vm + "/root.qcow2", "", 0, 0)
  }

  /** A branch as first saved, without its paths. */
  ghost function Bare(c: Call): SnapshotNode {
    Complete(c).(snapshotPath := "", cowDeltaPath := "", cowDeltaSize := 0)
  }

  /** All the fallible steps of a call: the external ones, two for creating the node, two more for re-saving it. */
  ghost function AllSteps(op: Op): nat {
    match op
    case CreateVmVolume(_, _) => 5
    case CommitSnapshot(_, _) => 7
    case CreateQcow2Volume(_, _) => 4
    case BranchSnapshot(_, _, _) => 9
    case BranchQcow2Snapshot(_, _) => 6
  }

  ghost predicate HasSource(m: Meta, op: Op) {
    match op
    case CreateVmVolume(_, _) => true
    case CreateQcow2Volume(_, _) => true
    case CommitSnapshot(snap, _) => snap in m.snapshots
    case BranchSnapshot(snap, _, _) => snap in m.snapshots
    case BranchQcow2Snapshot(snap, _) => snap in m.snapshots
  }

  /** The answer of a call and the state it leaves, for every number of steps that succeed. It succeeds exactly when
      its source is there and no step fails, with the complete node stored and returned. Failing at the last step, it
      leaves the complete node; a branch failing at one of the two steps before leaves the bare child; any other
      failure leaves nothing. */
  ghost predicate Leaves(m: Meta, c: Call, t: Meta, r: Result<SnapshotNode, StorageError>) {
    var branching := c.op.BranchSnapshot? || c.op.BranchQcow2Snapshot?;
    && t.tags == m.tags
    && (r.Ok? <==> HasSource(m, c.op) && c.budget >= AllSteps(c.op))
    && (r.Ok? ==> r.value == Complete(c) && t.snapshots == m.snapshots[c.id := Complete(c)])
    && (!HasSource(m, c.op) ==> r == Err(NotFound(c.op.snap)) && t == m)
    && (HasSource(m, c.op) && r.Err? ==> r.error == StepFailed && t.snapshots == LeftBehind(m.snapshots, c, branching))
  }

  ghost function LeftBehind(s: Snapshots, c: Call, branching: bool): Snapshots {
    if c.budget == AllSteps(c.op) - 1 then s[c.id := Complete(c)]
    else if branching && c.budget >= AllSteps(c.op) - 3 then s[c.id := Bare(c)]
    else s
  }

  lemma BranchingLeaves(m: Meta, c: Call)
    requires c.op.BranchSnapshot? || c.op.BranchQcow2Snapshot?
    ensures Leaves(m, c, Perform(m, c).0, Perform(m, c).1)
  {
    assert m.snapshots[c.id := Bare(c)][c.id := Complete(c)] == m.snapshots[c.id := Complete(c)];
  }

  lemma PerformLeaves(m: Meta, c: Call)
    ensures Leaves(m, c, Perform(m, c).0, Perform(m, c).1)
  {
    if c.op.BranchSnapshot? || c.op.BranchQcow2Snapshot? { BranchingLeaves(m, c); }
  }

  /** What creating a node leaves, for every number of steps that succeed: the node once the first step is done, its
      index entry, if it carries a tag, once the third is; a failure uses the steps up. */
  lemma CreateLeaves(m: Meta, node: SnapshotNode, budget: nat)
    ensures var d, steps := Create(m, node, budget), if node.tag.Some? then 4 else 2;
      && (d.result.Ok? <==> budget >= steps) && (d.result.Err? ==> d.result.error == StepFailed)
      && d.left == (if budget >= steps then budget - steps else 0)
      && (budget == 0 ==> d.meta.snapshots == m.snapshots)
      && (budget > 0 ==> d.meta.snapshots == m.snapshots[node.id := node])
      && (node.tag.None? || budget < 3 ==> d.meta.tags == m.tags)
      && (node.tag.Some? && budget >= 3 ==> d.meta.tags == m.tags[node.vmId + ":" + node.tag.value := node.id])
  {
  }

  lemma UpdateLeaves(m: Meta, node: SnapshotNode, budget: nat)
    ensures var d := Update(m, node, budget);
      && (d.result.Ok? <==> budget >= 2) && (d.result.Err? ==> d.result.error == StepFailed)
      && d.left == (if budget >= 2 then budget - 2 else 0)
      && d.meta.tags == m.tags
      && (budget == 0 ==> d.meta.snapshots == m.snapshots)
      && (budget > 0 ==> d.meta.snapshots == m.snapshots[node.id := node])
  {
  }

  /** What branching in the tree alone leaves: nothing for a missing snapshot, else the labelled child as created. */
  lemma TreeBranchLeaves(m: Meta, snapId: string, vm: string, id: string, at: nat, budget: nat)
    ensures var d := Branch(m, snapId, vm, id, at, budget);
      var child := SnapshotNode(id, vm, Some(snapId), at, Some("branched-from-" + snapId), None, "", "", "", 0, 0);
      && (snapId !in m.snapshots ==> d == Done(m, Err(NotFound(snapId)), budget))
      && (snapId in m.snapshots ==>
        && d.result == (if budget >= 2 then Ok(child) else Err(StepFailed))
        && d.left == (if budget >= 2 then budget - 2 else 0)
        && d.meta.tags == m.tags
        && d.meta.snapshots == (if budget > 0 then m.snapshots[id := child] else m.snapshots))
  {
  }

  /** What tagging leaves, for every number of steps that succeed: the node with its tag once the first step is
      done, the index entry once the third is; it succeeds exactly when the snapshot exists and no step fails. */
  lemma TagLeaves(m: Meta, snapId: string, vm: string, tag: string, budget: nat)
    requires forall id :: id in m.snapshots ==> m.snapshots[id].id == id
    ensures var d := TagSnapshot(m, snapId, vm, tag, budget);
      && (d.result.Ok? <==> snapId in m.snapshots && budget >= 4)
      && (d.result == Err(NotFound(snapId)) <==> snapId !in m.snapshots)
      && d.left == (if snapId !in m.snapshots then budget else if budget >= 4 then budget - 4 else 0)
      && (snapId in m.snapshots && budget < 4 ==> d.result == Err(StepFailed))
      && (snapId !in m.snapshots || budget == 0 ==> d.meta == m)
      && (snapId in m.snapshots && budget > 0 ==>
        d.meta.snapshots == m.snapshots[snapId := m.snapshots[snapId].(tag := Some(tag))])
      && (snapId in m.snapshots && budget < 3 ==> d.meta.tags == m.tags)
      && (snapId in m.snapshots && budget >= 3 ==> d.meta.tags == m.tags[vm + ":" + tag := snapId])
  {
  }

  // ---------- The parent forest ----------

  /** The snapshots listed so that each comes after its parent, which is present. */
  ghost predicate Genealogy(s: Snapshots, born: seq<string>) {
    && (forall i, j :: 0 <= i < j < |born| ==> born[i] != born[j])
    && (forall id :: id in born <==> id in s)
    && (forall i :: 0 <= i < |born| ==> born[i] in s && s[born[i]].id == born[i])
    && (forall i {:trigger ParentBefore(s, born, i)} :: 0 <= i < |born| ==> ParentBefore(s, born, i))
  }

  ghost predicate ParentBefore(s: Snapshots, born: seq<string>, i: int) {
    0 <= i < |born| && born[i] in s && (s[born[i]].parentId.Some? ==> s[born[i]].parentId.value in born[..i])
  }

  lemma GenealogyGrows(s: Snapshots, born: seq<string>, node: SnapshotNode)
    requires Genealogy(s, born) && node.id !in s && (node.parentId.Some? ==> node.parentId.value in s)
    ensures Genealogy(s[node.id := node], born + [node.id])
  {
    var more := born + [node.id];
    var u := s[node.id := node];
    assert forall i :: 0 <= i < |born| ==> more[i] == born[i] && more[..i] == born[..i];
    assert more[..|born|] == born && more[|born|] == node.id;
    assert forall id :: id in more <==> id in born || id == node.id;
    forall i | 0 <= i < |more| ensures ParentBefore(u, more, i) {
      if i < |born| { assert ParentBefore(s, born, i); }
    }
  }

  lemma CallKeepsGenealogy(m: Meta, c: Call, born: seq<string>) returns (after: seq<string>)
    requires Genealogy(m.snapshots, born) && c.id !in m.snapshots
    ensures Genealogy(Perform(m, c).0.snapshots, after)
  {
    PerformAddsAtMostOne(m, c);
    var u := Perform(m, c).0;
    after := born;
    if u != m {
      var node := u.snapshots[c.id];
      GenealogyGrows(m.snapshots, born, node);
      after := born + [c.id];
    }
  }

  lemma {:induction false} RunKeepsGenealogy(m: Meta, calls: seq<Call>, t: Meta, born: seq<string>)
    returns (after: seq<string>)
    requires Genealogy(m.snapshots, born) && Run(m, calls, t)
    ensures Genealogy(t.snapshots, after)
    decreases |calls|
  {
    after := born;
    if calls != [] {
      after := CallKeepsGenealogy(m, calls[0], born);
      after := RunKeepsGenealogy(Perform(m, calls[0]).0, calls[1..], t, after);
    }
  }

  /** The walk from a snapshot through its parents, giving up after `steps` parent links. */
  function Lineage(s: Snapshots, id: string, steps: nat): Option<seq<string>>
    decreases steps
  {
    if id !in s then None
    else if s[id].parentId.None? then Some([id])
    else if steps == 0 then None
    else match Lineage(s, s[id].parentId.value, steps - 1)
      case Some(rest) => Some([id] + rest)
      case None => None
  }

  /** A complete lineage: each next element is the parent, the last has none, and nothing repeats. */
  ghost predicate Ancestry(s: Snapshots, p: seq<string>) {
    && p != [] && (forall i :: 0 <= i < |p| ==> p[i] in s)
    && (forall i, j :: 0 <= i && j == i + 1 && j < |p| ==> s[p[i]].parentId == Some(p[j]))
    && s[p[|p| - 1]].parentId.None?
    && (forall i, j :: 0 <= i < j < |p| ==> p[i] != p[j])
  }

  /** A complete lineage of the `k`-th snapshot, made of snapshots born no later. */
  ghost predicate LineageOf(s: Snapshots, born: seq<string>, k: nat, p: seq<string>) {
    k < |born| && Ancestry(s, p) && p[0] == born[k] && |p| <= k + 1
    && forall i :: 0 <= i < |p| ==> p[i] in born[..k + 1]
  }

  lemma LineageStep(s: Snapshots, born: seq<string>, k: nat, j: nat, rest: seq<string>)
    requires Genealogy(s, born) && j < k < |born| && s[born[k]].parentId == Some(born[j]) && LineageOf(s, born, j, rest)
    ensures LineageOf(s, born, k, [born[k]] + rest)
  {
    forall i | 0 <= i < |rest| ensures rest[i] != born[k] && rest[i] in born[..k + 1] {
      var q :| 0 <= q < j + 1 && born[..j + 1][q] == rest[i];
      assert born[..k + 1][q] == rest[i] && born[q] == rest[i];
    }
    AncestryExtends(s, rest, born[k]);
    assert born[..k + 1][k] == born[k];
  }

  lemma {:induction false} LineageFromPosition(s: Snapshots, born: seq<string>, k: nat, steps: nat)
    requires Genealogy(s, born) && k < |born| && k <= steps
    ensures Lineage(s, born[k], steps).Some?
    ensures LineageOf(s, born, k, Lineage(s, born[k], steps).value)
    decreases k
  {
    if s[born[k]].parentId.Some? {
      var j := ParentPosition(s, born, k);
      LineageFromPosition(s, born, j, steps - 1);
      LineageStep(s, born, k, j, Lineage(s, born[j], steps - 1).value);
    } else {
      LineageOfBase(s, born, k);
    }
  }

  lemma ParentPosition(s: Snapshots, born: seq<string>, k: nat) returns (j: nat)
    requires Genealogy(s, born) && k < |born| && s[born[k]].parentId.Some?
    ensures j < k && born[j] == s[born[k]].parentId.value
  {
    assert ParentBefore(s, born, k);
    j :| 0 <= j < k && born[..k][j] == s[born[k]].parentId.value;
  }

  lemma LineageOfBase(s: Snapshots, born: seq<string>, k: nat)
    requires Genealogy(s, born) && k < |born| && s[born[k]].parentId.None?
    ensures LineageOf(s, born, k, [born[k]])
  {
    assert born[..k + 1][k] == born[k];
  }

  lemma AncestryExtends(s: Snapshots, rest: seq<string>, id: string)
    requires Ancestry(s, rest) && id in s && s[id].parentId == Some(rest[0]) && id !in rest
    ensures Ancestry(s, [id] + rest)
  {
    var p := [id] + rest;
    assert forall i :: 1 <= i < |p| ==> p[i] == rest[i - 1];
    assert p[|p| - 1] == rest[|rest| - 1];
  }

  lemma DistinctBound(born: seq<string>, keys: set<string>)
    requires (forall i, j :: 0 <= i < j < |born| ==> born[i] != born[j]) && forall k :: k in born <==> k in keys
    ensures |born| == |keys|
    decreases |born|
  {
    if born == [] {
      assert forall k :: k in keys ==> k in born;
      assert keys == {};
    } else {
      var last, front := born[|born| - 1], born[..|born| - 1];
      forall k ensures k in front <==> k in keys - {last} {
        if k in front { assert k in born; }
        if k in keys - {last} {
          var i :| 0 <= i < |born| && born[i] == k;
          assert front[i] == k;
        }
      }
      DistinctBound(front, keys - {last});
    }
  }

  /** In every reachable state, failures included, every parent is present, and from every snapshot the parents lead,
      without repetition, to a parentless base in at most as many steps as there are snapshots. */
  lemma EveryLineageReachesABase(calls: seq<Call>, t: Meta, id: string)
    requires Run(EMPTY, calls, t) && id in t.snapshots
    ensures forall x :: x in t.snapshots && t.snapshots[x].parentId.Some? ==>
      t.snapshots[x].parentId.value in t.snapshots
    ensures Lineage(t.snapshots, id, |t.snapshots|).Some?
    ensures var p := Lineage(t.snapshots, id, |t.snapshots|).value;
      Ancestry(t.snapshots, p) && p[0] == id && |p| <= |t.snapshots|
  {
    var born := RunKeepsGenealogy(EMPTY, calls, t, []);
    var s := t.snapshots;
    DistinctBound(born, s.Keys);
    assert |s| == |s.Keys|;
    assert id in born;
    var k :| 0 <= k < |born| && born[k] == id;
    LineageFromPosition(s, born, k, |s|);
    forall x | x in s && s[x].parentId.Some? ensures s[x].parentId.value in s {
      assert x in born;
      var i :| 0 <= i < |born| && born[i] == x;
      var j := ParentPosition(s, born, i);
      assert born[j] in born;
    }
  }

  lemma AncestryIsStable(s: Snapshots, u: Snapshots, p: seq<string>)
    requires Ancestry(s, p) && forall id :: id in s ==> id in u && u[id] == s[id]
    ensures Ancestry(u, p)
  {
  }

  lemma {:induction false} RunOnlyAdds(m: Meta, calls: seq<Call>, t: Meta)
    requires Run(m, calls, t)
    ensures forall id :: id in m.snapshots ==> id in t.snapshots && t.snapshots[id] == m.snapshots[id]
    decreases |calls|
  {
    if calls != [] {
      var u := Perform(m, calls[0]).0;
      PerformAddsAtMostOne(m, calls[0]);
      RunOnlyAdds(u, calls[1..], t);
    }
  }

  /** A successful branch puts its node in front of the parent's lineage, a successful base or commit starts a lineage
      of its own, and nothing done afterwards changes either. */
  lemma NewLineageIsPermanent(before: seq<Call>, m: Meta, c: Call, after: seq<Call>, t: Meta)
    requires Run(EMPTY, before, m) && c.id !in m.snapshots && Perform(m, c).1.Ok?
    requires Run(Perform(m, c).0, after, t)
    ensures c.id in t.snapshots && t.snapshots[c.id] == Perform(m, c).1.value
    ensures var parents :=
        if ParentOf(c.op).Some? then Lineage(m.snapshots, ParentOf(c.op).value, |m.snapshots|) else Some([]);
      parents.Some? && Ancestry(t.snapshots, [c.id] + parents.value)
  {
    PerformAddsAtMostOne(m, c);
    var u := Perform(m, c).0;
    RunOnlyAdds(u, after, t);
    if ParentOf(c.op).Some? {
      EveryLineageReachesABase(before, m, c.op.snap);
      var p := Lineage(m.snapshots, c.op.snap, |m.snapshots|).value;
      assert forall id :: id in m.snapshots ==> id in u.snapshots && u.snapshots[id] == m.snapshots[id];
      AncestryIsStable(m.snapshots, u.snapshots, p);
      AncestryExtends(u.snapshots, p, c.id);
      AncestryIsStable(u.snapshots, t.snapshots, [c.id] + p);
    } else {
      assert Ancestry(t.snapshots, [c.id] + []);
    }
  }

  // ---------- The tag index ----------

  /** The first id and a colon begin the second. */
  predicate Begins(vm1: string, vm2: string) { vm1 + [':'] <= vm2 }

  /** Tags of the two VMs can share a key. */
  predicate Clash(vm1: string, vm2: string) { Begins(vm1, vm2) || Begins(vm2, vm1) }

  lemma ShorterBegins(vm1: string, tag1: string, vm2: string, tag2: string)
    requires TagKey(vm1, tag1) == TagKey(vm2, tag2) && |vm1| < |vm2|
    ensures Begins(vm1, vm2)
  {
    var key, n := TagKey(vm1, tag1), |vm1| + 1;
    assert key[..n] == vm1 + [':'];
    assert TagKey(vm2, tag2)[..n] == vm2[..n];
  }

  /** Two keys are equal only for the same binding or for VM ids that clash. */
  lemma TagKeysDiffer(vm1: string, tag1: string, vm2: string, tag2: string)
    requires TagKey(vm1, tag1) == TagKey(vm2, tag2) && !Clash(vm1, vm2)
    ensures vm1 == vm2 && tag1 == tag2
  {
    if |vm1| < |vm2| { ShorterBegins(vm1, tag1, vm2, tag2); }
    if |vm2| < |vm1| { ShorterBegins(vm2, tag2, vm1, tag1); }
    assert TagKey(vm1, tag1)[..|vm1|] == vm1 && TagKey(vm2, tag2)[..|vm2|] == vm2;
    assert TagKey(vm1, tag1)[|vm1| + 1..] == tag1 && TagKey(vm2, tag2)[|vm2| + 1..] == tag2;
  }

  /** Any tag of the longer id shares its key with a tag of the shorter one. */
  lemma TagKeysShared(vm1: string, vm2: string, tag2: string) returns (tag1: string)
    requires Begins(vm1, vm2)
    ensures TagKey(vm1, tag1) == TagKey(vm2, tag2)
  {
    var w := vm2[|vm1| + 1..];
    tag1 := w + ([':'] + tag2);
    assert vm2 == vm1 + [':'] + w;
  }

  /** Two VMs have tags with a common key exactly when one id and a colon begin the other id. */
  lemma TagKeysCollideIff(vm1: string, vm2: string)
    requires vm1 != vm2
    ensures (exists tag1, tag2 :: TagKey(vm1, tag1) == TagKey(vm2, tag2)) <==> Clash(vm1, vm2)
  {
    if tag1, tag2 :| TagKey(vm1, tag1) == TagKey(vm2, tag2) {
      if !Clash(vm1, vm2) { TagKeysDiffer(vm1, tag1, vm2, tag2); }
    }
    if Begins(vm1, vm2) { var tag1 := TagKeysShared(vm1, vm2, ""); }
    if Begins(vm2, vm1) { var tag2 := TagKeysShared(vm2, vm1, ""); }
  }

  /** No two of the VM ids clash, as when none contains a colon. */
  ghost predicate ClashFree(vms: set<string>) {
    forall a, b :: a in vms && b in vms ==> !Clash(a, b)
  }

  datatype TreeOp =
    | DoCreate(node: SnapshotNode)
    | DoUpdate(node: SnapshotNode)
    | DoBranch(snap: string, vm: string, id: string, at: nat)
    | DoTag(snap: string, vm: string, tag: string)

  function DoOp(m: Meta, op: TreeOp, budget: nat): Meta {
    match op
    case DoCreate(node) => Create(m, node, budget).meta
    case DoUpdate(node) => Update(m, node, budget).meta
    case DoBranch(snap, vm, id, at) => Branch(m, snap, vm, id, at, budget).meta
    case DoTag(snap, vm, tag) => TagSnapshot(m, snap, vm, tag, budget).meta
  }

  /** What a step of a run does to the snapshots: it stores the node given, the child of the snapshot branched, or the
      snapshot tagged with its new tag, and nothing when its first write fails or the snapshot is missing. */
  lemma TreeStepLeaves(m: Meta, op: TreeOp, budget: nat)
    requires forall id :: id in m.snapshots ==> m.snapshots[id].id == id
    ensures var t := DoOp(m, op, budget).snapshots; match op
      case DoCreate(node) => t == (if budget > 0 then m.snapshots[node.id := node] else m.snapshots)
      case DoUpdate(node) => t == (if budget > 0 then m.snapshots[node.id := node] else m.snapshots)
      case DoBranch(snap, vm, id, at) =>
        t == (if budget > 0 && snap in m.snapshots then
          m.snapshots[id := SnapshotNode(
            id, vm, Some(snap), at, Some("branched-from-" + snap), None, "", "", "", 0, 0)]
        else m.snapshots)
      case DoTag(snap, vm, tag) =>
        t == (if budget > 0 && snap in m.snapshots then
          m.snapshots[snap := m.snapshots[snap].(tag := Some(tag))]
        else m.snapshots)
  {
  }

  /** The VM id the operation enters into the index, if any, is among these. */
  ghost predicate IndexesWithin(op: TreeOp, vms: set<string>) {
    match op
    case DoCreate(node) => node.tag.None? || node.vmId in vms
    case DoTag(_, vm, _) => vm in vms
    case _ => true
  }

  /** Which snapshot was bound last to a VM and tag: the plain map the index is meant to be. */
  type Bindings = map<(string, string), string>

  function Bind(b: Bindings, m: Meta, op: TreeOp, budget: nat): Bindings {
    match op
    case DoCreate(node) =>
      if node.tag.Some? && budget >= 3 then b[(node.vmId, node.tag.value) := node.id] else b
    case DoTag(snap, vm, tag) =>
      if snap in m.snapshots && budget >= 3 then b[(vm, tag) := snap] else b
    case _ => b
  }

  datatype TreeCall = TreeCall(op: TreeOp, budget: nat)

  ghost predicate TreeRun(m: Meta, b: Bindings, calls: seq<TreeCall>, t: Meta, c: Bindings)
    decreases |calls|
  {
    if calls == [] then t == m && c == b
    else
      var x := calls[0];
      TreeRun(DoOp(m, x.op, x.budget), Bind(b, m, x.op, x.budget), calls[1..], t, c)
  }

  /** A run from nothing that enters only VM ids of `vms` into the index. */
  ghost predicate RunWithin(vms: set<string>, calls: seq<TreeCall>, t: Meta, b: Bindings) {
    TreeRun(EMPTY, map[], calls, t, b) && forall i :: 0 <= i < |calls| ==> IndexesWithin(calls[i].op, vms)
  }

  ghost predicate IndexRefines(m: Meta, b: Bindings, vms: set<string>) {
    && (forall id :: id in m.snapshots ==> m.snapshots[id].id == id)
    && (forall k :: k in b ==>
         k.0 in vms && TagKey(k.0, k.1) in m.tags && m.tags[TagKey(k.0, k.1)] == b[k] && b[k] in m.snapshots)
    && (forall key :: key in m.tags ==> exists k :: k in b && TagKey(k.0, k.1) == key)
  }

  lemma StoreKeepsIndex(m: Meta, b: Bindings, node: SnapshotNode, vms: set<string>)
    requires IndexRefines(m, b, vms)
    ensures IndexRefines(m.(snapshots := m.snapshots[node.id := node]), b, vms)
  {
  }

  lemma BindKeepsIndex(m: Meta, b: Bindings, vm: string, tag: string, id: string, vms: set<string>)
    requires IndexRefines(m, b, vms) && ClashFree(vms) && vm in vms && id in m.snapshots
    ensures IndexRefines(m.(tags := m.tags[TagKey(vm, tag) := id]), b[(vm, tag) := id], vms)
  {
    var c := b[(vm, tag) := id];
    var tags := m.tags[TagKey(vm, tag) := id];
    forall k | k in c ensures k.0 in vms && TagKey(k.0, k.1) in tags && tags[TagKey(k.0, k.1)] == c[k] {
      if k != (vm, tag) && TagKey(k.0, k.1) == TagKey(vm, tag) { TagKeysDiffer(k.0, k.1, vm, tag); }
    }
    forall key | key in tags ensures exists k :: k in c && TagKey(k.0, k.1) == key {
      if key == TagKey(vm, tag) {
        assert (vm, tag) in c;
      } else {
        var k :| k in b && TagKey(k.0, k.1) == key;
        assert k in c;
      }
    }
  }

  lemma OpKeepsIndex(m: Meta, b: Bindings, op: TreeOp, budget: nat, vms: set<string>)
    requires IndexRefines(m, b, vms) && ClashFree(vms) && IndexesWithin(op, vms)
    ensures IndexRefines(DoOp(m, op, budget), Bind(b, m, op, budget), vms)
  {
    match op
    case DoCreate(node) => CreateKeepsIndex(m, b, node, budget, vms);
    case DoUpdate(node) => StoreKeepsIndex(m, b, node, vms);
    case DoBranch(snap, vm, id, at) =>
      StoreKeepsIndex(m, b, NewNode(vm, Some(snap), id, at).(name := Some("branched-from-" + snap)), vms);
    case DoTag(snap, vm, tag) => TagKeepsIndex(m, b, snap, vm, tag, budget, vms);
  }

  lemma CreateKeepsIndex(m: Meta, b: Bindings, node: SnapshotNode, budget: nat, vms: set<string>)
    requires IndexRefines(m, b, vms) && ClashFree(vms) && (node.tag.None? || node.vmId in vms)
    ensures IndexRefines(
      Create(m, node, budget).meta,
      if node.tag.Some? && budget >= 3 then b[(node.vmId, node.tag.value) := node.id] else b,
      vms)
  {
    StoreKeepsIndex(m, b, node, vms);
    if node.tag.Some? {
      BindKeepsIndex(m.(snapshots := m.snapshots[node.id := node]), b, node.vmId, node.tag.value, node.id, vms);
    }
  }

  lemma TagKeepsIndex(m: Meta, b: Bindings, snap: string, vm: string, tag: string, budget: nat, vms: set<string>)
    requires IndexRefines(m, b, vms) && ClashFree(vms) && vm in vms
    ensures IndexRefines(
      TagSnapshot(m, snap, vm, tag, budget).meta,
      if snap in m.snapshots && budget >= 3 then b[(vm, tag) := snap] else b,
      vms)
  {
    if snap in m.snapshots {
      var node := m.snapshots[snap].(tag := Some(tag));
      StoreKeepsIndex(m, b, node, vms);
      BindKeepsIndex(m.(snapshots := m.snapshots[node.id := node]), b, vm, tag, snap, vms);
    }
  }

  lemma {:induction false} RunKeepsIndex(m: Meta, b: Bindings, calls: seq<TreeCall>, t: Meta, c: Bindings,
      vms: set<string>)
    requires IndexRefines(m, b, vms) && TreeRun(m, b, calls, t, c) && ClashFree(vms)
    requires forall i :: 0 <= i < |calls| ==> IndexesWithin(calls[i].op, vms)
    ensures IndexRefines(t, c, vms)
    decreases |calls|
  {
    if calls != [] {
      var x := calls[0];
      OpKeepsIndex(m, b, x.op, x.budget, vms);
      RunKeepsIndex(DoOp(m, x.op, x.budget), Bind(b, m, x.op, x.budget), calls[1..], t, c, vms);
    }
  }

  /** The lookup does not err, and finds the snapshot last bound to that VM and tag, or none where none was bound. */
  ghost predicate RightLookup(t: Meta, b: Bindings, vm: string, tag: string) {
    if (vm, tag) in b then
      b[(vm, tag)] in t.snapshots && t.snapshots[b[(vm, tag)]].id == b[(vm, tag)]
      && GetByTag(t, vm, tag) == Ok(Some(t.snapshots[b[(vm, tag)]]))
    else GetByTag(t, vm, tag) == Ok(None)
  }

  /** After any run of creates, updates, branches and taggings, failing midway or not, over VM ids of which no two
      clash, every lookup of such a VM's tag is right. */
  lemma TagLookupIsLastWriter(vms: set<string>, calls: seq<TreeCall>, t: Meta, b: Bindings, vm: string, tag: string)
    requires RunWithin(vms, calls, t, b) && ClashFree(vms) && vm in vms
    ensures RightLookup(t, b, vm, tag)
  {
    RunKeepsIndex(EMPTY, map[], calls, t, b, vms);
    if TagKey(vm, tag) in t.tags {
      var k :| k in b && TagKey(k.0, k.1) == TagKey(vm, tag);
      TagKeysDiffer(k.0, k.1, vm, tag);
      assert k == (vm, tag);
    }
  }

  /** One tagged snapshot of the longer of two clashing ids, and a lookup of the shorter one that wrongly finds it. */
  lemma ClashMisleads(vms: set<string>, vm1: string, vm2: string)
    returns (calls: seq<TreeCall>, t: Meta, b: Bindings, tag: string)
    requires vm1 in vms && vm2 in vms && Begins(vm1, vm2)
    ensures RunWithin(vms, calls, t, b) && !RightLookup(t, b, vm1, tag)
  {
    var node := NewNode(vm2, None, "s", 0).(tag := Some(""));
    calls := [TreeCall(DoCreate(node), 4)];
    t := DoOp(EMPTY, calls[0].op, 4);
    b := Bind(map[], EMPTY, calls[0].op, 4);
    assert calls[1..] == [] && TreeRun(t, b, [], t, b);
    tag := TagKeysShared(vm1, vm2, "");
    assert vm1 != vm2 && (vm1, tag) !in b;
    assert TagKey(vm1, tag) in t.tags && t.tags[TagKey(vm1, tag)] == "s" && "s" in t.snapshots;
  }

  ghost predicate LookupsRight(vms: set<string>) {
    forall calls, t, b, vm, tag :: RunWithin(vms, calls, t, b) && vm in vms ==> RightLookup(t, b, vm, tag)
  }

  /** The index answers every lookup right in every run over a set of VM ids exactly when no two of them clash. */
  lemma TagLookupsRightIff(vms: set<string>)
    ensures LookupsRight(vms) <==> ClashFree(vms)
  {
    if ClashFree(vms) {
      forall calls, t, b, vm, tag | RunWithin(vms, calls, t, b) && vm in vms ensures RightLookup(t, b, vm, tag) {
        TagLookupIsLastWriter(vms, calls, t, b, vm, tag);
      }
    } else {
      var x, y :| x in vms && y in vms && Clash(x, y);
      var vm1, vm2 := if Begins(x, y) then x else y, if Begins(x, y) then y else x;
      var calls, t, b, tag := ClashMisleads(vms, vm1, vm2);
    }
  }

  // ---------- Deletion, which the storage operations never use ----------

  ghost predicate ParentsPresent(m: Meta) {
    forall id :: id in m.snapshots && m.snapshots[id].parentId.Some? ==> m.snapshots[id].parentId.value in m.snapshots
  }

  ghost predicate TagsResolve(m: Meta) {
    forall key :: key in m.tags ==> m.tags[key] in m.snapshots
  }

  /** Deleting a snapshot keeps every parent present exactly when no other snapshot was branched from it. */
  lemma DeleteKeepsParentsIff(m: Meta, id: string)
    requires id in m.snapshots && ParentsPresent(m)
    ensures ParentsPresent(Delete(m, id))
       <==> forall x :: x in m.snapshots && x != id ==> m.snapshots[x].parentId != Some(id)
  {
    var t := Delete(m, id);
    if x :| x in m.snapshots && x != id && m.snapshots[x].parentId == Some(id) {
      assert x in t.snapshots && t.snapshots[x] == m.snapshots[x];
    }
  }

  /** It keeps every tag resolvable exactly when the only index entry for it is its own VM with its latest tag: a
      snapshot tagged twice, or tagged under another VM, leaves an entry behind whose lookup fails. */
  lemma DeleteKeepsTagsIff(m: Meta, id: string)
    requires id in m.snapshots && TagsResolve(m)
    ensures TagsResolve(Delete(m, id)) <==>
      forall key :: key in m.tags && m.tags[key] == id ==>
        m.snapshots[id].tag.Some? && key == TagKey(m.snapshots[id].vmId, m.snapshots[id].tag.value)
  {
    var t := Delete(m, id);
    var node := m.snapshots[id];
    forall key | key in m.tags && m.tags[key] == id && (node.tag.None? || key != TagKey(node.vmId, node.tag.value))
      ensures key in t.tags && t.tags[key] == id
    {
    }
  }

  // ---------- The objects ----------

  /** The tree as an object; a method's budget parameter is the number of its fallible steps that succeed. */
  class SnapshotTree {
    var snapshots: Snapshots
    var tags: map<string, string>

    function Abstract(): Meta
      reads this
    {
      Meta(snapshots, tags)
    }

    constructor ()
      ensures Abstract() == EMPTY
    {
      snapshots, tags := map[], map[];
    }

    method CreateNode(node: SnapshotNode, budget: nat) returns (r: Result<(), StorageError>, left: nat)
      modifies this
      ensures Create(old(Abstract()), node, budget) == Done(Abstract(), r, left)
    {
      if budget == 0 { return Err(StepFailed), 0; }
      snapshots := snapshots[node.id := node];
      if budget == 1 { return Err(StepFailed), 0; }
      left := budget - 2;
      if node.tag.Some? {
        if left == 0 { return Err(StepFailed), 0; }
        tags := tags[TagKey(node.vmId, node.tag.value) := node.id];
        if left == 1 { return Err(StepFailed), 0; }
        left := left - 2;
      }
      return Ok(()), left;
    }

    method UpdateNode(node: SnapshotNode, budget: nat) returns (r: Result<(), StorageError>, left: nat)
      modifies this
      ensures Update(old(Abstract()), node, budget) == Done(Abstract(), r, left)
    {
      if budget == 0 { return Err(StepFailed), 0; }
      snapshots := snapshots[node.id := node];
      if budget == 1 { return Err(StepFailed), 0; }
      return Ok(()), budget - 2;
    }

    method BranchNode(snapId: string, vm: string, id: string, at: nat, budget: nat)
      returns (r: Result<SnapshotNode, StorageError>, left: nat)
      modifies this
      ensures Branch(old(Abstract()), snapId, vm, id, at, budget) == Done(Abstract(), r, left)
    {
      if snapId !in snapshots { return Err(NotFound(snapId)), budget; }
      var node := NewNode(vm, Some(snapId), id, at).(name := Some("branched-from-" + snapId));
      var created;
      created, left := CreateNode(node, budget);
      r := if created.Ok? then Ok(node) else Err(created.error);
    }

    method Tag(snapId: string, vm: string, tag: string, budget: nat) returns (r: Result<(), StorageError>, left: nat)
      modifies this
      ensures TagSnapshot(old(Abstract()), snapId, vm, tag, budget) == Done(Abstract(), r, left)
    {
      if snapId !in snapshots { return Err(NotFound(snapId)), budget; }
      var node := snapshots[snapId].(tag := Some(tag));
      if budget == 0 { return Err(StepFailed), 0; }
      snapshots := snapshots[node.id := node];
      if budget <= 2 { return Err(StepFailed), 0; }
      tags := tags[TagKey(vm, tag) := snapId];
      if budget == 3 { return Err(StepFailed), 0; }
      return Ok(()), budget - 4;
    }

    method DeleteNode(id: string) returns (r: Result<(), StorageError>)
      modifies this
      ensures id in old(snapshots) ==> r.Ok? && Abstract() == Delete(old(Abstract()), id)
      ensures id !in old(snapshots) ==> r == Err(NotFound(id)) && Abstract() == old(Abstract())
    {
      if id !in snapshots { return Err(NotFound(id)); }
      var node := snapshots[id];
      if node.tag.Some? {
        tags := tags - {TagKey(node.vmId, node.tag.value)};
      }
      snapshots := snapshots - {id};
      return Ok(());
    }

    /** The VM's snapshots by creation time; the sort is stable, so equal times stay in id order. */
    method History(vm: string) returns (nodes: seq<SnapshotNode>)
      requires forall id :: id in snapshots ==> snapshots[id].id == id
      ensures InTimeOrder(nodes)
      ensures forall n :: n in nodes <==> n.id in snapshots && snapshots[n.id] == n && n.vmId == vm
    {
      nodes := GatherAll(snapshots, vm);
      assert forall id :: id in Sorted(snapshots.Keys) <==> id in snapshots;
    }
  }

  method GatherAll(s: Snapshots, vm: string) returns (nodes: seq<SnapshotNode>)
    requires forall id :: id in s ==> s[id].id == id
    ensures Gathered(s, vm, Sorted(s.Keys), nodes)
  {
    nodes := [];
    var keys := SortKeys(s.Keys);
    var k := 0;
    while k < |keys|
      invariant 0 <= k <= |keys|
      invariant Gathered(s, vm, keys[..k], nodes)
    {
      PrefixSorted(s.Keys, keys, k);
      GatherNext(s, vm, keys[..k], nodes, keys[k]);
      var node := s[keys[k]];
      if node.vmId == vm {
        nodes := Inserted(nodes, node);
      }
      k := k + 1;
    }
    assert keys[..k] == keys;
  }

  lemma PrefixSorted(all: set<string>, keys: seq<string>, k: nat)
    requires keys == Sorted(all) && k < |keys|
    ensures keys[k] in all && keys[..k + 1] == keys[..k] + [keys[k]] && StrictlySorted(keys[..k] + [keys[k]])
  {
    PrefixStrict(keys, k);
  }

  lemma PrefixStrict(keys: seq<string>, k: nat)
    requires StrictlySorted(keys) && k < |keys|
    ensures keys[..k + 1] == keys[..k] + [keys[k]] && StrictlySorted(keys[..k] + [keys[k]])
  {
    var front := keys[..k + 1];
    assert front == keys[..k] + [keys[k]];
    forall i, j | 0 <= i < j < |front| ensures LexLess(front[i], front[j]) {
      assert front[i] == keys[i] && front[j] == keys[j];
    }
  }

  ghost predicate Earlier(a: SnapshotNode, b: SnapshotNode) {
    a.createdAt < b.createdAt || (a.createdAt == b.createdAt && LexLess(a.id, b.id))
  }

  ghost predicate InTimeOrder(nodes: seq<SnapshotNode>) {
    forall i, j :: 0 <= i < j < |nodes| ==> Earlier(nodes[i], nodes[j])
  }

  /** Where a stable sort puts one more node: behind every node that is not later. */
  function Position(nodes: seq<SnapshotNode>, at: nat): (p: nat)
    ensures p <= |nodes|
    ensures p > 0 ==> nodes[p - 1].createdAt <= at
    ensures forall i :: p <= i < |nodes| ==> nodes[i].createdAt > at
    decreases |nodes|
  {
    if nodes == [] || nodes[|nodes| - 1].createdAt <= at then |nodes| else Position(nodes[..|nodes| - 1], at)
  }

  function Inserted(nodes: seq<SnapshotNode>, node: SnapshotNode): seq<SnapshotNode> {
    var p := Position(nodes, node.createdAt);
    nodes[..p] + [node] + nodes[p..]
  }

  lemma InsertKeepsOrder(nodes: seq<SnapshotNode>, node: SnapshotNode)
    requires InTimeOrder(nodes) && forall i :: 0 <= i < |nodes| ==> LexLess(nodes[i].id, node.id)
    ensures InTimeOrder(Inserted(nodes, node))
  {
    var p := Position(nodes, node.createdAt);
    forall i | 0 <= i < p ensures Earlier(nodes[i], node) {
      if i < p - 1 { assert Earlier(nodes[i], nodes[p - 1]); }
    }
    forall i | p <= i < |nodes| ensures Earlier(node, nodes[i]) {}
    InsertAt(nodes, node, p);
  }

  lemma InsertAt(nodes: seq<SnapshotNode>, node: SnapshotNode, p: nat)
    requires InTimeOrder(nodes) && p <= |nodes|
    requires forall i :: 0 <= i < p ==> Earlier(nodes[i], node)
    requires forall i :: p <= i < |nodes| ==> Earlier(node, nodes[i])
    ensures InTimeOrder(nodes[..p] + [node] + nodes[p..])
  {
    var r := nodes[..p] + [node] + nodes[p..];
    forall i, j | 0 <= i < j < |r| ensures Earlier(r[i], r[j]) {
      PlacedAt(nodes, node, p, i);
      PlacedAt(nodes, node, p, j);
    }
  }

  lemma PlacedAt(nodes: seq<SnapshotNode>, node: SnapshotNode, p: nat, i: nat)
    requires p <= |nodes| && i <= |nodes|
    ensures (nodes[..p] + [node] + nodes[p..])[i] == if i < p then nodes[i] else if i == p then node else nodes[i - 1]
  {
  }

  lemma InsertAdds(nodes: seq<SnapshotNode>, node: SnapshotNode, n: SnapshotNode)
    ensures n in Inserted(nodes, node) <==> n in nodes || n == node
  {
    var p := Position(nodes, node.createdAt);
    assert nodes == nodes[..p] + nodes[p..];
  }

  /** The VM's nodes among the keys seen so far, in order. */
  ghost predicate Gathered(s: Snapshots, vm: string, seen: seq<string>, nodes: seq<SnapshotNode>) {
    && InTimeOrder(nodes)
    && (forall n :: n in nodes <==> n.id in seen && n.id in s && s[n.id] == n && n.vmId == vm)
  }

  lemma GatherNext(s: Snapshots, vm: string, seen: seq<string>, nodes: seq<SnapshotNode>, key: string)
    requires Gathered(s, vm, seen, nodes) && key in s && s[key].id == key
    requires StrictlySorted(seen + [key])
    ensures Gathered(s, vm, seen + [key], if s[key].vmId == vm then Inserted(nodes, s[key]) else nodes)
  {
    var node := s[key];
    forall i | 0 <= i < |nodes| ensures LexLess(nodes[i].id, key) {
      assert nodes[i] in nodes;
      var j :| 0 <= j < |seen| && seen[j] == nodes[i].id;
      assert LexLess((seen + [key])[j], (seen + [key])[|seen|]);
    }
    assert forall id :: id in seen + [key] <==> id in seen || id == key;
    if node.vmId == vm {
      InsertKeepsOrder(nodes, node);
      forall n ensures n in Inserted(nodes, node) <==> n in nodes || n == node { InsertAdds(nodes, node, n); }
    }
  }

  /** The storage manager; only the metadata effect of its operations is modelled. */
  class StorageManager {
    const tree: SnapshotTree

    constructor ()
      ensures fresh(tree) && tree.Abstract() == EMPTY
    {
      tree := new SnapshotTree();
    }

    method CreateBaseNode(vm: string, path: string, c: Call, budget: nat)
      returns (r: Result<SnapshotNode, StorageError>)
      modifies tree
      ensures (tree.Abstract(), r) == CreateBase(old(tree.Abstract()), vm, path, c, budget)
    {
      var node := NewNode(vm, None, c.id, c.at).(snapshotPath := path);
      var created, left := tree.CreateNode(node, budget);
      r := if created.Ok? then Ok(node) else Err(created.error);
    }

    method CreateChildNode(snap: string, vm: string, child: SnapshotNode -> SnapshotNode, c: Call, budget: nat)
      returns (r: Result<SnapshotNode, StorageError>)
      modifies tree
      ensures (tree.Abstract(), r) == CreateChild(old(tree.Abstract()), snap, vm, child, c, budget)
    {
      var branched, left := tree.BranchNode(snap, vm, c.id, c.at, budget);
      if branched.Err? { return Err(branched.error); }
      var node := child(branched.value);
      var updated, rest := tree.UpdateNode(node, left);
      r := if updated.Ok? then Ok(node) else Err(updated.error);
    }

    method Execute(c: Call) returns (r: Result<SnapshotNode, StorageError>)
      modifies tree
      ensures (tree.Abstract(), r) == Perform(old(tree.Abstract()), c)
      ensures Leaves(old(tree.Abstract()), c, tree.Abstract(), r)
    {
      PerformLeaves(tree.Abstract(), c);
      if Source(c.op).Some? && Source(c.op).value !in tree.snapshots { return Err(NotFound(Source(c.op).value)); }
      if c.budget < ExternalSteps(c.op) { return Err(StepFailed); }
      var left := c.budget - ExternalSteps(c.op);
      match c.op {
        case CreateVmVolume(vm, _) => r := CreateBaseNode(vm, vm + "/root.ext4", c, left);
        case CommitSnapshot(_, baseName) => r := CreateBaseNode(baseName, baseName + "/root.ext4", c, left);
        case CreateQcow2Volume(vm, _) => r := CreateBaseNode(vm, vm + "/root.qcow2", c, left);
        case BranchSnapshot(snap, vm, capacityMb) =>
          r := CreateChildNode(snap, vm, Overlay(vm, capacityMb, c.devicePath), c, left);
        case BranchQcow2Snapshot(snap, vm) => r := CreateChildNode(snap, vm, Qcow2Overlay(vm), c, left);
      }
    }
  }
}
