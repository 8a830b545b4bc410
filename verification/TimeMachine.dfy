/** Snapshot histories (crates/vyomad/src/timemachine.rs) and the auto-snapshot tick that creates and prunes them
    (crates/vyomad/src/auto_snapshot.rs). Identifiers and times are inputs, standing for `Uuid::new_v4` and
    `Utc::now`. */
module TimeMachine {
  import opened Outcomes
  import opened Text

  datatype SnapshotEntry = SnapshotEntry(
    id: string, vmId: string, createdAt: int, cowDeltaSize: nat, name: Option<string>, parentId: Option<string>)

  type History = seq<SnapshotEntry>

  datatype DeleteError = VmNotFound | SnapshotNotFound

  // ---------- Lookup ----------

  /** Position of the first entry with the given id, or the length. */
  function FindId(h: History, id: string): (i: nat)
    ensures i <= |h|
    ensures i < |h| ==> h[i].id == id
    ensures forall j :: 0 <= j < i ==> h[j].id != id
  {
    if h == [] then 0 else if h[0].id == id then 0 else 1 + FindId(h[1..], id)
  }

  function FindLabel(h: History, name: string): (i: nat)
    ensures i <= |h|
    ensures i < |h| ==> h[i].name == Some(name)
    ensures forall j :: 0 <= j < i ==> h[j].name != Some(name)
  {
    if h == [] then 0 else if h[0].name == Some(name) then 0 else 1 + FindLabel(h[1..], name)
  }

  const SNAP := "snap:"

  /** `parse_snapshot_ref`: the number after `snap:`. */
  function ParseSnapshotRef(reference: string): Option<nat> {
    if SNAP <= reference then ParseUnsigned(reference[|SNAP|..], U64) else None
  }

  /** `get_snapshot`: by id, then by name, then by `snap:N` with N counted from 1 (and 0 meaning the first). */
  function GetSnapshot(h: History, reference: string): Option<SnapshotEntry> {
    if FindId(h, reference) < |h| then Some(h[FindId(h, reference)])
    else if FindLabel(h, reference) < |h| then Some(h[FindLabel(h, reference)])
    else match ParseSnapshotRef(reference)
      case Some(n) => if 0 < n <= |h| then Some(h[n - 1]) else if n < |h| then Some(h[n]) else None
      case None => None
  }

  /** Position `k` is the first one whose entry has the id. */
  ghost predicate FirstWithId(h: History, k: nat, id: string) {
    k < |h| && h[k].id == id && forall j :: 0 <= j < k ==> h[j].id != id
  }

  /** Position `k` is the first one whose entry has the name. */
  ghost predicate FirstNamed(h: History, k: nat, name: string) {
    k < |h| && h[k].name == Some(name) && forall j :: 0 <= j < k ==> h[j].name != Some(name)
  }

  ghost predicate NoId(h: History, id: string) { forall j :: 0 <= j < |h| ==> h[j].id != id }

  ghost predicate NoName(h: History, name: string) { forall j :: 0 <= j < |h| ==> h[j].name != Some(name) }

  /** The reference is `snap:` and a number that stands for position `k`: one past it, or zero for the first. */
  ghost predicate OrdinalOf(h: History, reference: string, k: nat) {
    k < |h| && exists s, n: nat :: reference == SNAP + s && Numeral(s, n) && n < U64 && (n == k + 1 || n == k == 0)
  }

  /** The reference denotes the entry at position `k`: an id goes before a name, and both before an ordinal. */
  ghost predicate Denotes(h: History, reference: string, k: nat) {
    || FirstWithId(h, k, reference)
    || (NoId(h, reference) && FirstNamed(h, k, reference))
    || (NoId(h, reference) && NoName(h, reference) && OrdinalOf(h, reference, k))
  }

  lemma OrdinalOfIs(h: History, reference: string, k: nat)
    ensures OrdinalOf(h, reference, k) <==> match ParseSnapshotRef(reference)
      case Some(n) => k < |h| && (n == k + 1 || n == k == 0)
      case None => false
  {
    if SNAP <= reference {
      var s := reference[|SNAP|..];
      assert reference == SNAP + s;
      forall n: nat ensures ParseUnsigned(s, U64) == Some(n) <==> n < U64 && Numeral(s, n) {
        ParseUnsignedIff(s, U64, n);
      }
    }
    if OrdinalOf(h, reference, k) {
      var s, n: nat :| reference == SNAP + s && Numeral(s, n) && n < U64 && (n == k + 1 || n == k == 0);
      assert reference[|SNAP|..] == s;
      ParseUnsignedIff(s, U64, n);
    }
  }

  ghost function Position(h: History, reference: string): (k: nat)
    requires GetSnapshot(h, reference).Some?
    ensures k < |h|
  {
    if FindId(h, reference) < |h| then FindId(h, reference)
    else if FindLabel(h, reference) < |h| then FindLabel(h, reference)
    else match ParseSnapshotRef(reference) case Some(n) => if n > 0 then n - 1 else 0
  }

  lemma FindIdIs(h: History, id: string)
    ensures forall k: nat :: FirstWithId(h, k, id) <==> k == FindId(h, id) < |h|
    ensures NoId(h, id) <==> FindId(h, id) == |h|
  {
  }

  lemma FindLabelIs(h: History, name: string)
    ensures forall k: nat :: FirstNamed(h, k, name) <==> k == FindLabel(h, name) < |h|
    ensures NoName(h, name) <==> FindLabel(h, name) == |h|
  {
  }

  /** `get_snapshot` answers with the entry the reference denotes, and with none exactly when it denotes nothing. */
  lemma GetSnapshotDenotes(h: History, reference: string)
    ensures forall k: nat :: Denotes(h, reference, k) ==> k < |h| && GetSnapshot(h, reference) == Some(h[k])
    ensures GetSnapshot(h, reference) == None <==> forall k: nat :: !Denotes(h, reference, k)
  {
    FindIdIs(h, reference);
    FindLabelIs(h, reference);
    forall k: nat | Denotes(h, reference, k) ensures k < |h| && GetSnapshot(h, reference) == Some(h[k]) {
      OrdinalOfIs(h, reference, k);
    }
    if GetSnapshot(h, reference).Some? {
      var k := Position(h, reference);
      OrdinalOfIs(h, reference, k);
      assert Denotes(h, reference, k);
    }
  }

  /** An ordinal reference finds exactly the snapshot at that position, unless some id or label is spelled like it. */
  lemma OrdinalFinds(h: History, n: nat)
    requires 0 < n <= |h| < U64
    requires NoId(h, SNAP + Digits(n)) && NoName(h, SNAP + Digits(n))
    ensures GetSnapshot(h, SNAP + Digits(n)) == Some(h[n - 1])
  {
    assert Digits(n) == Zeros(0) + Digits(n);
    assert Numeral(Digits(n), n);
    assert OrdinalOf(h, SNAP + Digits(n), n - 1);
    assert Denotes(h, SNAP + Digits(n), n - 1);
    GetSnapshotDenotes(h, SNAP + Digits(n));
  }

  // ---------- Creation and deletion ----------

  /** `create_snapshot`: the new entry's parent is the last entry. */
  function NewEntry(h: History, vm: string, id: string, at: int, name: Option<string>): SnapshotEntry {
    SnapshotEntry(id, vm, at, 0, name, if h == [] then None else Some(h[|h| - 1].id))
  }

  /** The list surgery of `delete_snapshot`: after removing the entry, the one now in its slot is overwritten by the
      entry behind it, whose parent is set to the overwritten one. */
  function RemoveAt(h: History, i: nat): History
    requires i < |h|
  {
    var rest := h[..i] + h[i + 1..];
    if i + 1 < |rest| then rest[i := rest[i + 1].(parentId := Some(rest[i].id))] else rest
  }

  function Delete(h: History, reference: string): Result<History, DeleteError> {
    if h == [] then Err(VmNotFound)
    else match GetSnapshot(h, reference)
      case None => Err(SnapshotNotFound)
      case Some(e) =>
        if FindId(h, e.id) < |h| then Ok(RemoveAt(h, FindId(h, e.id))) else Err(SnapshotNotFound)
  }

  /** The history left once position `i` is deleted, entry by entry: those before it stay, the rest move up by one; but
      when two or more follow, the first of them is replaced by a copy of the second, made its child. */
  ghost predicate LeftAfter(h: History, i: nat, left: History)
    requires i < |h|
  {
    && |left| == |h| - 1
    && (forall j :: 0 <= j < i ==> left[j] == h[j])
    && (forall j :: i < j < |left| ==> left[j] == h[j + 1])
    && (i + 2 == |h| ==> left[i] == h[i + 1])
    && (i + 2 < |h| ==> left[i] == h[i + 2].(parentId := Some(h[i + 1].id)))
  }

  lemma RemoveAtLeaves(h: History, i: nat)
    requires i < |h|
    ensures LeftAfter(h, i, RemoveAt(h, i))
  {
  }

  /** Deleting what a reference denotes takes the first entry with the id of the denoted one. */
  lemma DeleteTakesDenoted(h: History, reference: string, k: nat, i: nat)
    requires Denotes(h, reference, k) && k < |h| && FirstWithId(h, i, h[k].id)
    ensures i < |h| && Delete(h, reference) == Ok(RemoveAt(h, i)) && LeftAfter(h, i, RemoveAt(h, i))
  {
    GetSnapshotDenotes(h, reference);
    FindIdIs(h, h[k].id);
    RemoveAtLeaves(h, i);
  }

  lemma DeleteTakesFirstWithId(h: History, reference: string, k: nat)
    requires FirstWithId(h, k, reference)
    ensures k < |h| && Delete(h, reference) == Ok(RemoveAt(h, k)) && LeftAfter(h, k, RemoveAt(h, k))
  {
    DeleteTakesDenoted(h, reference, k, k);
  }

  lemma DeleteSucceeds(h: History, reference: string, k: nat)
    requires k < |h| && Denotes(h, reference, k)
    ensures Delete(h, reference).Ok?
  {
    FindIdIs(h, h[k].id);
    DeleteTakesDenoted(h, reference, k, FindId(h, h[k].id));
  }

  lemma DenotedInside(h: History, reference: string, k: nat)
    ensures Denotes(h, reference, k) ==> k < |h|
  {
  }

  /** A deletion fails exactly when there is no history, or nothing in it is denoted. */
  lemma DeleteFailsIff(h: History, reference: string)
    ensures Delete(h, reference) == Err(VmNotFound) <==> h == []
    ensures Delete(h, reference) == Err(SnapshotNotFound) <==> h != [] && forall k: nat :: !Denotes(h, reference, k)
  {
    GetSnapshotDenotes(h, reference);
    if k: nat :| Denotes(h, reference, k) {
      DenotedInside(h, reference, k);
      DeleteSucceeds(h, reference, k);
    }
  }

  ghost predicate TakenAt(h: History, i: nat, r: Result<(), DeleteError>, left: History) {
    i < |h| && r.Ok? && LeftAfter(h, i, left)
  }

  /** What a deletion answers and leaves, in terms of the ids, names and positions of the history alone: an id takes
      the first entry that has it, and any reference the first entry with the id of the one it denotes. */
  ghost predicate Deletes(h: History, reference: string, r: Result<(), DeleteError>, left: History) {
    && (forall i: nat :: FirstWithId(h, i, reference) ==> TakenAt(h, i, r, left))
    && (forall k: nat, i: nat :: Denotes(h, reference, k) && FirstWithId(h, i, h[k].id) ==> TakenAt(h, i, r, left))
    && (r == Err(VmNotFound) <==> h == [])
    && (r == Err(SnapshotNotFound) <==> h != [] && forall k: nat :: !Denotes(h, reference, k))
    && (r.Err? ==> left == h)
  }

  lemma DeleteDeletes(h: History, reference: string, left: History, e: DeleteError)
    ensures Delete(h, reference) == Ok(left) ==> Deletes(h, reference, Ok(()), left)
    ensures Delete(h, reference) == Err(e) ==> Deletes(h, reference, Err(e), h)
  {
    DeleteFailsIff(h, reference);
    var r := if Delete(h, reference).Ok? then Ok(()) else Err(e);
    var after := if r.Ok? then Delete(h, reference).value else h;
    forall i: nat | FirstWithId(h, i, reference) ensures TakenAt(h, i, r, after) {
      DeleteTakesFirstWithId(h, reference, i);
    }
    forall k: nat, i: nat | Denotes(h, reference, k) && FirstWithId(h, i, h[k].id) ensures TakenAt(h, i, r, after) {
      DeleteTakesDenoted(h, reference, k, i);
    }
  }

  ghost predicate DistinctIds(h: History) {
    forall i, j :: 0 <= i < j < |h| ==> h[i].id != h[j].id
  }

  ghost predicate HasId(h: History, id: string) {
    exists k :: 0 <= k < |h| && h[k].id == id
  }

  lemma RemovedEntryIds(h: History, i: nat, k: nat)
    requires i < |h| && k < |h| - 1
    ensures |RemoveAt(h, i)| == |h| - 1
    ensures RemoveAt(h, i)[k].id ==
      if k < i then h[k].id else if k == i && i + 2 < |h| then h[i + 2].id else h[k + 1].id
  {
  }

  /** The ids that remain are those at the positions other than the deleted one and, when at least two entries follow
      it, the one right behind it. */
  lemma RemainingIds(h: History, i: nat, id: string)
    requires i < |h|
    ensures HasId(RemoveAt(h, i), id) <==>
      exists k :: 0 <= k < |h| && k != i && (k != i + 1 || |h| <= i + 2) && h[k].id == id
  {
    var r := RemoveAt(h, i);
    if k :| 0 <= k < |r| && r[k].id == id {
      RemovedEntryIds(h, i, k);
      var source := if k < i then k else if k == i && i + 2 < |h| then i + 2 else k + 1;
      assert h[source].id == id;
    }
    if k :| 0 <= k < |h| && k != i && (k != i + 1 || |h| <= i + 2) && h[k].id == id {
      var at := if k < i then k else k - 1;
      RemovedEntryIds(h, i, at);
      assert r[at].id == id;
    }
  }

  /** Deleting an entry keeps every other id of the history, whatever the history, exactly when at most one entry
      follows the deleted one or the id right behind it also occurs elsewhere. */
  lemma DeleteKeepsOthersIff(h: History, i: nat)
    requires i < |h|
    ensures (forall id :: id != h[i].id && HasId(h, id) ==> HasId(RemoveAt(h, i), id))
       <==> |h| <= i + 2 || exists k :: 0 <= k < |h| && k != i + 1 && h[k].id == h[i + 1].id
  {
    forall id | id != h[i].id && HasId(h, id) && (|h| <= i + 2 || id != h[i + 1].id) ensures HasId(RemoveAt(h, i), id) {
      var k :| 0 <= k < |h| && h[k].id == id;
      RemainingIds(h, i, id);
    }
    if |h| > i + 2 {
      RemainingIds(h, i, h[i + 1].id);
      assert HasId(h, h[i + 1].id);
    }
  }

  /** Among distinct ids nothing but the deleted entry is lost exactly when at most one entry follows it; otherwise the
      one after the lost one is stored twice. */
  lemma DistinctDeleteKeepsOthersIff(h: History, i: nat)
    requires i < |h| && DistinctIds(h)
    ensures (forall id :: id != h[i].id && HasId(h, id) ==> HasId(RemoveAt(h, i), id)) <==> |h| <= i + 2
    ensures |h| <= i + 2 ==> RemoveAt(h, i) == h[..i] + h[i + 1..]
    ensures |h| > i + 2 ==>
      !HasId(RemoveAt(h, i), h[i + 1].id) && RemoveAt(h, i)[i].id == RemoveAt(h, i)[i + 1].id == h[i + 2].id
  {
    DeleteKeepsOthersIff(h, i);
    if |h| > i + 2 {
      RemainingIds(h, i, h[i + 1].id);
      RemovedEntryIds(h, i, i);
      RemovedEntryIds(h, i, i + 1);
    }
  }

  /** A history in which every entry is a child of the one before it, as creation alone builds it. */
  ghost predicate Chained(h: History) {
    && (h != [] ==> h[0].parentId == None)
    && (forall i :: 0 < i < |h| ==> h[i].parentId == Some(h[i - 1].id))
  }

  lemma CreationKeepsChain(h: History, vm: string, id: string, at: int, name: Option<string>)
    requires Chained(h)
    ensures Chained(h + [NewEntry(h, vm, id, at, name)])
  {
    var h' := h + [NewEntry(h, vm, id, at, name)];
    forall i | 0 < i < |h'| ensures h'[i].parentId == Some(h'[i - 1].id) {
      assert i < |h| ==> h'[i] == h[i];
      assert h'[i - 1] == h[i - 1];
    }
    assert h != [] ==> h'[0] == h[0];
  }

  ghost predicate ParentsPresent(h: History) {
    forall i :: 0 <= i < |h| && h[i].parentId.Some? ==> HasId(h, h[i].parentId.value)
  }

  /** Deleting from a chain with distinct ids keeps every parent present exactly when the last entry is deleted: the
      entry that takes the deleted one's place names a parent that is gone. */
  lemma DeleteKeepsParentsIff(h: History, i: nat)
    requires i < |h| && Chained(h) && DistinctIds(h)
    ensures ParentsPresent(RemoveAt(h, i)) <==> i == |h| - 1
  {
    var r := RemoveAt(h, i);
    if i == |h| - 1 {
      assert r == h[..i];
      forall k | 0 <= k < |r| && r[k].parentId.Some? ensures HasId(r, r[k].parentId.value) {
        assert r[k] == h[k] && k > 0 && r[k - 1] == h[k - 1];
      }
    } else {
      var gone := if i + 2 < |h| then h[i + 1].id else h[i].id;
      RemainingIds(h, i, gone);
      assert r[i].parentId == Some(gone);
    }
  }

  // ---------- The auto-snapshot tick ----------

  datatype Shot = Shot(id: string, at: int, name: Option<string>)

  /** One tick: create, then delete the oldest when the count exceeds the retain count. */
  function Tick(h: History, vm: string, shot: Shot, retain: nat): History {
    Prune(h + [NewEntry(h, vm, shot.id, shot.at, shot.name)], retain)
  }

  function Prune(h: History, retain: nat): History {
    if |h| > retain then RemoveAt(h, 0) else h
  }

  /** What happens to one VM's history: a timer tick of some loop, or a snapshot made or deleted on request. */
  datatype Event = Ticked(shot: Shot, retain: nat) | Requested(shot: Shot) | Deleted(reference: string)

  function Apply(h: History, vm: string, ev: Event): History {
    match ev
    case Ticked(shot, retain) => Tick(h, vm, shot, retain)
    case Requested(shot) => h + [NewEntry(h, vm, shot.id, shot.at, shot.name)]
    case Deleted(reference) => match Delete(h, reference) case Ok(left) => left case Err(_) => h
  }

  function Evolve(h: History, vm: string, events: seq<Event>): History {
    if events == [] then h else Apply(Evolve(h, vm, events[..|events| - 1]), vm, events[|events| - 1])
  }

  function Ticks(shots: seq<Shot>, retain: nat): seq<Event> {
    seq(|shots|, i requires 0 <= i < |shots| => Ticked(shots[i], retain))
  }

  /** The history after ticking once per shot, from an empty one. */
  function AfterTicks(vm: string, shots: seq<Shot>, retain: nat): History {
    Evolve([], vm, Ticks(shots, retain))
  }

  lemma AfterTicksSnoc(vm: string, before: seq<Shot>, shot: Shot, retain: nat)
    ensures AfterTicks(vm, before + [shot], retain) == Tick(AfterTicks(vm, before, retain), vm, shot, retain)
  {
    var events := Ticks(before + [shot], retain);
    assert events[..|before|] == Ticks(before, retain);
    assert events[|before|] == Ticked(shot, retain);
  }

  /** The i-th snapshot ever taken: a child of the one before it. */
  function Taken(vm: string, shots: seq<Shot>, i: nat): SnapshotEntry
    requires i < |shots|
  {
    SnapshotEntry(shots[i].id, vm, shots[i].at, 0, shots[i].name, if i == 0 then None else Some(shots[i - 1].id))
  }

  function AllTaken(vm: string, shots: seq<Shot>): (all: History)
    ensures |all| == |shots|
    ensures forall i :: 0 <= i < |shots| ==> all[i] == Taken(vm, shots, i)
  {
    seq(|shots|, i requires 0 <= i < |shots| => Taken(vm, shots, i))
  }

  /** The closed form: everything while it fits; afterwards the newest `retain - 1` snapshots, the oldest of them
      stored twice. With a retain count of one only the newest is kept, and with zero nothing is. */
  function Retained(all: History, retain: nat): History {
    var n := |all|;
    if n <= retain then all
    else if retain == 0 then []
    else if retain == 1 then all[n - 1..]
    else [all[n - retain + 1]] + all[n - retain + 1..]
  }

  lemma PruneOldest(h: History)
    requires h != []
    ensures Delete(h, h[0].id) == Ok(RemoveAt(h, 0))
  {
    assert FindId(h, h[0].id) == 0;
  }

  /** Pruning the oldest of three or more entries leaves its second successor twice in front. */
  lemma RemoveOldest(h: History)
    requires |h| >= 3 && h[2].parentId == Some(h[1].id)
    ensures RemoveAt(h, 0) == [h[2]] + h[2..]
  {
    var rest := h[..0] + h[1..];
    assert rest == h[1..];
    assert rest[0 := rest[1].(parentId := Some(rest[0].id))] == [h[2]] + h[2..];
  }

  lemma TickWhenFull(all: History, vm: string, shot: Shot, retain: nat, e: SnapshotEntry)
    requires |all| >= retain >= 1
    requires forall i :: 0 < i < |all| ==> all[i].parentId == Some(all[i - 1].id)
    requires e == NewEntry(Retained(all, retain), vm, shot.id, shot.at, shot.name)
    requires e.parentId == Some(all[|all| - 1].id)
    ensures Tick(Retained(all, retain), vm, shot, retain) == Retained(all + [e], retain)
  {
    var h := Retained(all, retain);
    var h' := h + [e];
    var m := all + [e];
    if retain == 1 {
      assert h'[..0] + h'[1..] == [e] == m[|m| - 1..];
    } else {
      var k := |m| - retain + 1;
      assert h'[1] == m[k - 1] && h'[2..] == m[k..];
      assert h'[2] == m[k];
      RemoveOldest(h');
    }
  }

  lemma AllTakenSnoc(vm: string, before: seq<Shot>, shot: Shot)
    ensures AllTaken(vm, before + [shot]) == AllTaken(vm, before) + [Taken(vm, before + [shot], |before|)]
  {
    var shots, n := before + [shot], |before|;
    forall i | 0 <= i < n ensures Taken(vm, shots, i) == Taken(vm, before, i) {}
  }

  lemma RetainedLast(all: History, retain: nat)
    requires all != [] && retain > 0
    ensures Retained(all, retain) != []
    ensures Retained(all, retain)[|Retained(all, retain)| - 1] == all[|all| - 1]
  {
  }

  /** One more tick on the closed form. */
  lemma TickRetained(vm: string, before: seq<Shot>, shot: Shot, retain: nat)
    requires retain > 0
    ensures Tick(Retained(AllTaken(vm, before), retain), vm, shot, retain) ==
      Retained(AllTaken(vm, before + [shot]), retain)
  {
    var all, n := AllTaken(vm, before), |before|;
    var e := Taken(vm, before + [shot], n);
    AllTakenSnoc(vm, before, shot);
    if n > 0 { RetainedLast(all, retain); }
    assert e == NewEntry(Retained(all, retain), vm, shot.id, shot.at, shot.name);
    if n >= retain {
      TickWhenFull(all, vm, shot, retain, e);
    }
  }

  lemma {:induction false} TicksRetain(vm: string, shots: seq<Shot>, retain: nat)
    requires retain > 0
    ensures AfterTicks(vm, shots, retain) == Retained(AllTaken(vm, shots), retain)
  {
    if shots != [] {
      var before, shot := shots[..|shots| - 1], shots[|shots| - 1];
      TicksRetain(vm, before, retain);
      TickRetained(vm, before, shot, retain);
      AfterTicksSnoc(vm, before, shot, retain);
      assert before + [shot] == shots;
    }
  }

  lemma {:induction false} TicksRetainNothing(vm: string, shots: seq<Shot>)
    ensures AfterTicks(vm, shots, 0) == []
  {
    if shots != [] {
      var before, shot := shots[..|shots| - 1], shots[|shots| - 1];
      TicksRetainNothing(vm, before);
      AfterTicksSnoc(vm, before, shot, 0);
      assert before + [shot] == shots;
    }
  }

  lemma RetainedKeeps(all: History, retain: nat, i: nat)
    requires i < |all| && i + retain > |all|
    ensures all[i] in Retained(all, retain)
  {
    if |all| > retain {
      var k := |all| - retain + 1;
      assert Retained(all, retain)[i - k + 1] == all[i];
    }
  }

  /** After any number of ticks the history is the closed form; it never exceeds the retain count, and the newest
      `retain - 1` snapshots are always there, newest last. */
  lemma TicksMatchClosedForm(vm: string, shots: seq<Shot>, retain: nat)
    ensures AfterTicks(vm, shots, retain) == Retained(AllTaken(vm, shots), retain)
    ensures |AfterTicks(vm, shots, retain)| == if |shots| <= retain then |shots| else retain
    ensures forall i :: 0 <= i < |shots| && i + retain > |shots| ==>
      Taken(vm, shots, i) in AfterTicks(vm, shots, retain)
  {
    if retain == 0 { TicksRetainNothing(vm, shots); } else { TicksRetain(vm, shots, retain); }
    var all := AllTaken(vm, shots);
    forall i | 0 <= i < |shots| && i + retain > |shots| ensures Taken(vm, shots, i) in Retained(all, retain) {
      RetainedKeeps(all, retain, i);
    }
  }

  ghost predicate DistinctShots(shots: seq<Shot>) {
    forall i, j :: 0 <= i < j < |shots| ==> shots[i].id != shots[j].id
  }

  /** The history is exactly the newest `retain` snapshots just while nothing has been pruned, or when the retain
      count is at most one: with two or more, pruning costs the oldest snapshot that should have been kept. */
  lemma KeepsNewestExactlyIff(vm: string, shots: seq<Shot>, retain: nat)
    requires DistinctShots(shots)
    ensures var n := |shots|;
      (AfterTicks(vm, shots, retain) == AllTaken(vm, shots)[if n <= retain then 0 else n - retain..])
      <==> n <= retain || retain <= 1
  {
    TicksMatchClosedForm(vm, shots, retain);
    var all, n := AllTaken(vm, shots), |shots|;
    if n > retain >= 2 {
      assert all[n - retain..][0] == all[n - retain];
      assert all[n - retain].id != all[n - retain + 1].id;
    }
  }

  // ---------- Any starting history, any loops, with snapshots made and deleted between ticks ----------

  lemma TickLength(h: History, vm: string, shot: Shot, retain: nat)
    ensures |Tick(h, vm, shot, retain)| == if |h| >= retain then |h| else |h| + 1
  {
  }

  function Requests(events: seq<Event>): (n: nat)
    ensures n <= |events|
  {
    if events == [] then 0
    else Requests(events[..|events| - 1]) + (if events[|events| - 1].Requested? then 1 else 0)
  }

  function Deletions(events: seq<Event>): (n: nat)
    ensures n <= |events|
  {
    if events == [] then 0
    else Deletions(events[..|events| - 1]) + (if events[|events| - 1].Deleted? then 1 else 0)
  }

  ghost predicate RetainAtMost(events: seq<Event>, r: nat) {
    forall k :: 0 <= k < |events| && events[k].Ticked? ==> events[k].retain <= r
  }

  ghost predicate RetainAtLeast(events: seq<Event>, r: nat) {
    forall k :: 0 <= k < |events| && events[k].Ticked? ==> events[k].retain >= r
  }

  lemma DeleteRemoves(h: History, reference: string) returns (i: nat)
    requires Delete(h, reference).Ok?
    ensures i < |h| && Delete(h, reference) == Ok(RemoveAt(h, i))
  {
    i := FindId(h, GetSnapshot(h, reference).value.id);
  }

  lemma DeletionLength(h: History, vm: string, reference: string)
    ensures var left := Apply(h, vm, Deleted(reference)); |h| - 1 <= |left| <= |h|
  {
    if Delete(h, reference).Ok? { var i := DeleteRemoves(h, reference); }
  }

  /** Whatever history the loops start from: a requested snapshot adds one, a deletion takes away at most one, ticks
      bring the count up to the retain count and hold it there, and nothing else brings it down. */
  lemma {:induction false} EvolveLength(h: History, vm: string, events: seq<Event>, r: nat)
    ensures |Evolve(h, vm, events)| + Deletions(events) >= |h| + Requests(events)
    ensures RetainAtMost(events, r) ==> |Evolve(h, vm, events)| <= (if |h| > r then |h| else r) + Requests(events)
    ensures RetainAtMost(events, r) && RetainAtLeast(events, r) && Requests(events) == Deletions(events) == 0 ==>
      |Evolve(h, vm, events)| == if |h| >= r then |h| else if |h| + |events| <= r then |h| + |events| else r
  {
    if events != [] {
      var front, ev := events[..|events| - 1], events[|events| - 1];
      EvolveLength(h, vm, front, r);
      match ev
      case Ticked(shot, retain) => TickLength(Evolve(h, vm, front), vm, shot, retain);
      case Requested(_) =>
      case Deleted(reference) => DeletionLength(Evolve(h, vm, front), vm, reference);
    }
  }

  /** The starting history and every snapshot made since, in order, as if nothing were ever pruned or deleted. */
  function Ledger(h: History, vm: string, events: seq<Event>): (all: History)
    ensures |all| == |h| + |events| - Deletions(events)
  {
    if events == [] then h
    else
      var before, ev := Ledger(h, vm, events[..|events| - 1]), events[|events| - 1];
      if ev.Deleted? then before else before + [NewEntry(before, vm, ev.shot.id, ev.shot.at, ev.shot.name)]
  }

  /** The last `k` entries of both are the same. */
  ghost predicate SameTail(h: History, all: History, k: nat) {
    && k <= |h| && k <= |all|
    && (forall j :: |all| - k <= j < |all| ==> h[j + |h| - |all|] == all[j])
  }

  /** How many of the newest snapshots ticks with retain counts of at least `r` are sure to keep. */
  function Kept(r: nat, total: nat): (k: nat) {
    var sure := if r <= 1 then r else r - 1;
    if total < sure then total else sure
  }

  lemma TailGrows(h: History, all: History, k: nat, e: SnapshotEntry, m: nat)
    requires SameTail(h, all, k) && m <= k + 1
    ensures SameTail(h + [e], all + [e], m)
  {
    var h', all' := h + [e], all + [e];
    forall j | |all'| - m <= j < |all'| ensures h'[j + |h'| - |all'|] == all'[j] {
      if j < |all| { assert h[j + |h| - |all|] == all[j]; }
    }
  }

  lemma RemovedFront(h: History, j: nat)
    requires |h| >= 2 && j < |h| - 1 && (j > 0 || |h| == 2)
    ensures |RemoveAt(h, 0)| == |h| - 1 && RemoveAt(h, 0)[j] == h[j + 1]
  {
  }

  /** Pruning the oldest of two or more entries leaves everything but the first two, or the only other one, in place. */
  lemma PruneKeepsTail(h: History, all: History, retain: nat, r: nat)
    requires 1 <= r <= retain && SameTail(h, all, Kept(r, |all|))
    ensures SameTail(Prune(h, retain), all, Kept(r, |all|))
  {
    if |h| > retain {
      var k, pruned := Kept(r, |all|), RemoveAt(h, 0);
      RemovedFront(h, |h| - 2);
      forall j | |all| - k <= j < |all| ensures pruned[j + |pruned| - |all|] == all[j] {
        RemovedFront(h, j + |h| - |all| - 1);
      }
    }
  }

  lemma SameNewEntry(h: History, all: History, k: nat, vm: string, shot: Shot)
    requires SameTail(h, all, k) && (k > 0 || (h == [] && all == []))
    ensures NewEntry(h, vm, shot.id, shot.at, shot.name) == NewEntry(all, vm, shot.id, shot.at, shot.name)
  {
    if k > 0 { assert h[|h| - 1] == all[|all| - 1]; }
  }

  lemma RequestKeepsTail(h: History, all: History, vm: string, shot: Shot, r: nat)
    requires 1 <= r && SameTail(h, all, Kept(r, |all|)) && (h == [] <==> all == [])
    ensures SameTail(
      h + [NewEntry(h, vm, shot.id, shot.at, shot.name)], all + [NewEntry(all, vm, shot.id, shot.at, shot.name)],
      Kept(r, |all| + 1))
  {
    SameNewEntry(h, all, Kept(r, |all|), vm, shot);
    TailGrows(h, all, Kept(r, |all|), NewEntry(all, vm, shot.id, shot.at, shot.name), Kept(r, |all| + 1));
  }

  /** Whatever history the loops start from and whatever is made between their ticks, as long as nothing is deleted on
      request: if every tick retains at least `r`, the newest `r - 1` snapshots (one, for `r` equal to one) are always
      there, unchanged, in order and last. */
  lemma {:induction false} EvolveKeepsNewest(h: History, vm: string, events: seq<Event>, r: nat)
    requires RetainAtLeast(events, r) && Deletions(events) == 0
    ensures SameTail(Evolve(h, vm, events), Ledger(h, vm, events), Kept(r, |Ledger(h, vm, events)|))
    ensures r > 0 ==> (Evolve(h, vm, events) == [] <==> Ledger(h, vm, events) == [])
  {
    if events != [] && r > 0 {
      var front, ev := events[..|events| - 1], events[|events| - 1];
      EvolveKeepsNewest(h, vm, front, r);
      var now, all := Evolve(h, vm, front), Ledger(h, vm, front);
      RequestKeepsTail(now, all, vm, ev.shot, r);
      if ev.Ticked? {
        var made := now + [NewEntry(now, vm, ev.shot.id, ev.shot.at, ev.shot.name)];
        PruneKeepsTail(made, Ledger(h, vm, events), ev.retain, r);
        TickLength(now, vm, ev.shot, ev.retain);
      }
    }
  }

  // ---------- What deletions cost ----------

  /** `at[j]` is the place in the ledger of the history's j-th entry. */
  ghost predicate Placed(h: History, all: History, at: seq<nat>) {
    && |at| == |h|
    && (forall j :: 0 <= j < |at| ==> at[j] < |all| && h[j].id == all[at[j]].id)
    && Sorted(at)
  }

  ghost predicate Sorted(at: seq<nat>) {
    forall i, j :: 0 <= i < j < |at| ==> at[i] <= at[j]
  }

  /** How many entries repeat the one before them, the first two aside. */
  function Repeats(at: seq<nat>): nat {
    if |at| <= 2 then 0
    else Repeats(at[..|at| - 1]) + (if at[|at| - 1] == at[|at| - 2] then 1 else 0)
  }

  /** The list surgery of a deletion, on places. */
  function RemovePlace(at: seq<nat>, i: nat): (r: seq<nat>)
    requires i < |at|
    ensures |r| == |at| - 1
    ensures forall k :: 0 <= k < |r| ==>
      r[k] == if k < i then at[k] else if k == i && i + 2 < |at| then at[i + 2] else at[k + 1]
  {
    if i + 2 < |at| then at[..i] + [at[i + 2]] + at[i + 2..] else at[..i] + at[i + 1..]
  }

  /** The places of the newest `k` of `n` that the history has no entry for. */
  function Absent(at: seq<nat>, n: nat, k: nat): set<nat>
    requires k <= n
  {
    set j | n - k <= j < n && j !in at
  }

  lemma RepeatsSnoc(at: seq<nat>, x: nat)
    ensures Repeats(at + [x]) == Repeats(at) + (if |at| >= 2 && at[|at| - 1] == x then 1 else 0)
  {
    assert (at + [x])[..|at|] == at;
  }

  lemma {:induction false} RemovalRepeats(at: seq<nat>, i: nat)
    requires i < |at| && Sorted(at)
    ensures Repeats(RemovePlace(at, i)) <= Repeats(at) + (if i == 0 then 0 else 1)
    decreases |at|
  {
    if |at| > i + 3 {
      var front, last := at[..|at| - 1], at[|at| - 1];
      SortedFront(front, last, at);
      RemovalRepeats(front, i);
      RemovalPeels(at, i);
      SameLastAppended(front, RemovePlace(front, i), last);
    } else {
      RemovalNearEnd(at, i);
    }
  }

  lemma SortedFront(front: seq<nat>, last: nat, at: seq<nat>)
    requires Sorted(at) && at == front + [last]
    ensures Sorted(front) && (front != [] ==> front[|front| - 1] <= last)
  {
    forall i, j | 0 <= i < j < |front| ensures front[i] <= front[j] { assert at[i] <= at[j]; }
    if front != [] { assert at[|front| - 1] <= at[|front|]; }
  }

  lemma SameLastAppended(a: seq<nat>, b: seq<nat>, x: nat)
    requires |a| >= 2 && |b| >= 2 && a[|a| - 1] == b[|b| - 1]
    ensures Repeats(b + [x]) - Repeats(b) == Repeats(a + [x]) - Repeats(a)
  {
    RepeatsSnoc(a, x);
    RepeatsSnoc(b, x);
  }

  lemma RemovalNearEnd(at: seq<nat>, i: nat)
    requires i < |at| <= i + 3 && Sorted(at)
    ensures Repeats(RemovePlace(at, i)) <= Repeats(at) + (if i == 0 then 0 else 1)
  {
    var p := at[..i];
    if |at| == i + 3 {
      ThreeAtEnd(at, i);
      RemovalOfThree(p, at[i], at[i + 1], at[i + 2]);
    } else if |at| == i + 2 {
      TwoAtEnd(at, i);
      RemovalOfTwo(p, at[i], at[i + 1]);
    } else {
      OneAtEnd(at, i);
      RepeatsSnoc(p, at[i]);
    }
  }

  lemma RemovalPeels(at: seq<nat>, i: nat)
    requires i + 3 < |at|
    ensures var front, last := at[..|at| - 1], at[|at| - 1];
      at == front + [last] && RemovePlace(at, i) == RemovePlace(front, i) + [last]
      && RemovePlace(front, i)[|front| - 2] == front[|front| - 1]
  {
  }

  lemma OneAtEnd(at: seq<nat>, i: nat)
    requires |at| == i + 1
    ensures at == at[..i] + [at[i]] && RemovePlace(at, i) == at[..i]
  {
  }

  lemma ThreeAtEnd(at: seq<nat>, i: nat)
    requires |at| == i + 3
    ensures at == at[..i] + [at[i]] + [at[i + 1]] + [at[i + 2]]
    ensures RemovePlace(at, i) == at[..i] + [at[i + 2]] + [at[i + 2]]
  {
  }

  lemma TwoAtEnd(at: seq<nat>, i: nat)
    requires |at| == i + 2
    ensures at == at[..i] + [at[i]] + [at[i + 1]] && RemovePlace(at, i) == at[..i] + [at[i + 1]]
  {
  }

  lemma RemovalOfTwo(p: seq<nat>, x: nat, y: nat)
    requires Sorted(p + [x] + [y])
    ensures Repeats(p + [y]) <= Repeats(p + [x] + [y]) + (if p == [] then 0 else 1)
  {
    RepeatsSnoc(p, y);
    RepeatsSnoc(p, x);
    RepeatsSnoc(p + [x], y);
  }

  lemma RemovalOfThree(p: seq<nat>, x: nat, y: nat, z: nat)
    requires Sorted(p + [x] + [y] + [z])
    ensures Repeats(p + [z] + [z]) <= Repeats(p + [x] + [y] + [z]) + (if p == [] then 0 else 1)
  {
    var all := p + [x] + [y] + [z];
    assert all[|p|] == x && all[|p| + 1] == y && all[|p| + 2] == z && x <= y <= z;
    assert p != [] ==> all[|p| - 1] == p[|p| - 1] <= x;
    RepeatsSnoc(p, x);
    RepeatsSnoc(p + [x], y);
    RepeatsSnoc(p + [x] + [y], z);
    RepeatsSnoc(p, z);
    RepeatsSnoc(p + [z], z);
  }

  function Elements(at: seq<nat>): set<nat> { set x | x in at }

  lemma FreshLast(front: seq<nat>, last: nat)
    requires |front| >= 2 && Sorted(front) && front[|front| - 1] < last
    ensures last !in Elements(front[2..])
  {
    forall j | 0 <= j < |front[2..]| ensures front[2..][j] < last {
      assert front[j + 2] <= front[|front| - 1];
    }
  }

  lemma ElementsSnoc(front: seq<nat>, last: nat)
    requires |front| >= 2
    ensures Elements((front + [last])[2..]) == Elements(front[2..]) + {last}
  {
    assert (front + [last])[2..] == front[2..] + [last];
  }

  lemma {:induction false} FewRepeatsManyPlaces(at: seq<nat>)
    requires |at| >= 2 && Sorted(at)
    ensures |Elements(at[2..])| + Repeats(at) >= |at| - 2
    decreases |at|
  {
    if |at| > 2 {
      var front, last := at[..|at| - 1], at[|at| - 1];
      assert at == front + [last];
      SortedFront(front, last, at);
      FewRepeatsManyPlaces(front);
      ElementsSnoc(front, last);
      RepeatsSnoc(front, last);
      if last != front[|front| - 1] {
        FreshLast(front, last);
      } else {
        SubsetSize(Elements(front[2..]), Elements(front[2..]) + {last});
      }
    }
  }

  function Range(lo: nat, hi: nat): (r: set<nat>)
    requires lo <= hi
    ensures |r| == hi - lo && forall x :: x in r <==> lo <= x < hi
    decreases hi
  {
    if lo == hi then {} else Range(lo, hi - 1) + {hi - 1}
  }

  lemma {:induction false} SubsetSize(a: set<nat>, b: set<nat>)
    requires a <= b
    ensures |a| <= |b|
  {
    if a != {} {
      var x :| x in a;
      SubsetSize(a - {x}, b - {x});
    }
  }

  lemma AppendedIn(at: seq<nat>, n: nat, j: nat)
    ensures j in at + [n] <==> j in at || j == n
  {
  }

  lemma AppendPlace(at: seq<nat>, n: nat, k: nat, k': nat)
    requires k <= n && k' <= n + 1 && k' <= k + 1
    ensures |Absent(at + [n], n + 1, k')| <= |Absent(at, n, k)|
  {
    var before, after := Absent(at, n, k), Absent(at + [n], n + 1, k');
    forall j: nat | j in after ensures j in before { AppendedIn(at, n, j); }
    SubsetSize(after, before);
  }

  lemma OtherPlacesStay(at: seq<nat>, i: nat, j: nat)
    requires i < |at|
    ensures j in at && j != at[i] && (i + 1 < |at| ==> j != at[i + 1]) ==> j in RemovePlace(at, i)
  {
    if j in at && j != at[i] && (i + 1 < |at| ==> j != at[i + 1]) {
      var p :| 0 <= p < |at| && at[p] == j;
      if p < i { assert RemovePlace(at, i)[p] == j; } else { assert RemovePlace(at, i)[p - 1] == j; }
    }
  }

  /** A deletion on request costs at most two of the newest. */
  lemma DeletionCost(at: seq<nat>, i: nat, n: nat, k: nat)
    requires i < |at| && k <= n
    ensures |Absent(RemovePlace(at, i), n, k)| <= |Absent(at, n, k)| + 2
  {
    var next := if i + 1 < |at| then at[i + 1] else at[i];
    var before, after := Absent(at, n, k), Absent(RemovePlace(at, i), n, k);
    forall j: nat | j in after && j != at[i] && j != next ensures j in before {
      OtherPlacesStay(at, i, j);
    }
    SubsetSize(after, before + {at[i], next});
  }

  /** Pruning from a history that is full costs none of the newest, or leaves no more missing than entries repeat. */
  lemma PruneCost(at: seq<nat>, n: nat, k: nat, d: nat)
    requires |at| >= k + 2 && k <= n && Repeats(at) <= d && forall j :: 0 <= j < |at| ==> at[j] < n
    requires Sorted(at)
    requires |Absent(at, n, k)| <= 2 * d
    ensures |Absent(RemovePlace(at, 0), n, k)| <= 2 * d
  {
    var before, after := Absent(at, n, k), Absent(RemovePlace(at, 0), n, k);
    if after <= before {
      SubsetSize(after, before);
    } else {
      var j: nat :| j in after && j !in before;
      OtherPlacesStay(at, 0, j);
      LostAtFront(at, n, k, j);
    }
  }

  lemma BackStays(at: seq<nat>, x: nat)
    requires |at| >= 2 && Sorted(at)
    ensures x in at[2..] ==> x in RemovePlace(at, 0) && x >= at[1] && exists p :: 0 <= p < |at| && at[p] == x
  {
    if x in at[2..] {
      var p :| 0 <= p < |at[2..]| && at[2..][p] == x;
      assert at[p + 2] == x && RemovePlace(at, 0)[p + 1] == x;
    }
  }

  lemma LostAtFront(at: seq<nat>, n: nat, k: nat, j: nat)
    requires |at| >= k + 2 && n - k <= j < n && k <= n && Sorted(at) && forall i :: 0 <= i < |at| ==> at[i] < n
    requires j <= at[1]
    ensures |Absent(RemovePlace(at, 0), n, k)| <= Repeats(at)
  {
    var rest, range := Elements(at[2..]), Range(n - k, n);
    FewRepeatsManyPlaces(at);
    forall x: nat | x in rest ensures x in range && x in RemovePlace(at, 0) { BackStays(at, x); }
    SubsetSize(Absent(RemovePlace(at, 0), n, k), range - rest);
    assert |range - rest| == |range| - |rest|;
  }

  lemma PlacedAppend(h: History, all: History, at: seq<nat>, e: SnapshotEntry, x: SnapshotEntry)
    requires Placed(h, all, at) && e.id == x.id
    ensures Placed(h + [e], all + [x], at + [|all|])
  {
    var at' := at + [|all|];
    assert forall j :: 0 <= j < |at| ==> at'[j] == at[j] && (h + [e])[j] == h[j];
  }

  lemma RemovalSorted(at: seq<nat>, i: nat)
    requires i < |at| && Sorted(at)
    ensures Sorted(RemovePlace(at, i))
  {
    var r := RemovePlace(at, i);
    forall a, b | 0 <= a < b < |r| ensures r[a] <= r[b] {
      var x := if a < i then a else if a == i && i + 2 < |at| then i + 2 else a + 1;
      var y := if b < i then b else if b == i && i + 2 < |at| then i + 2 else b + 1;
      assert r[a] == at[x] && r[b] == at[y] && x <= y;
    }
  }

  lemma PlacedRemove(h: History, all: History, at: seq<nat>, i: nat)
    requires Placed(h, all, at) && i < |h|
    ensures Placed(RemoveAt(h, i), all, RemovePlace(at, i))
  {
    var r, places := RemoveAt(h, i), RemovePlace(at, i);
    RemovalSorted(at, i);
    RemovalLength(h, i);
    forall k | 0 <= k < |places| ensures places[k] < |all| && r[k].id == all[places[k]].id {
      RemovedEntryIds(h, i, k);
    }
  }

  lemma RemovalLength(h: History, i: nat)
    requires i < |h|
    ensures |RemoveAt(h, i)| == |h| - 1
  {
  }

  /** The history is the ledger but for pruned and deleted entries, with few repetitions and few of the newest
      missing. */
  ghost predicate Accounted(h: History, all: History, at: seq<nat>, r: nat, d: nat) {
    Placed(h, all, at) && Repeats(at) <= d && |Absent(at, |all|, Kept(r, |all|))| <= 2 * d
  }

  lemma AccountCreate(h: History, all: History, at: seq<nat>, r: nat, d: nat, e: SnapshotEntry, x: SnapshotEntry)
    requires Accounted(h, all, at, r, d) && e.id == x.id
    ensures Accounted(h + [e], all + [x], at + [|all|], r, d)
  {
    PlacedAppend(h, all, at, e, x);
    AppendPlace(at, |all|, Kept(r, |all|), Kept(r, |all| + 1));
    RepeatsSnoc(at, |all|);
  }

  lemma NewestStays(at: seq<nat>, n: nat)
    requires |at| >= 2 && n > 0 && at[|at| - 1] == n - 1
    ensures Absent(RemovePlace(at, 0), n, 1) == {}
  {
    assert RemovePlace(at, 0)[|at| - 2] == n - 1;
  }

  lemma AccountPrune(h: History, all: History, at: seq<nat>, r: nat, d: nat, retain: nat) returns (at': seq<nat>)
    requires Accounted(h, all, at, r, d) && r <= retain && h != [] && at[|at| - 1] == |all| - 1
    ensures Accounted(Prune(h, retain), all, at', r, d)
  {
    at' := at;
    if |h| > retain {
      at' := RemovePlace(at, 0);
      PlacedRemove(h, all, at, 0);
      RemovalRepeats(at, 0);
      var k := Kept(r, |all|);
      if r >= 2 {
        PruneCost(at, |all|, k, d);
      } else if k == 1 {
        NewestStays(at, |all|);
      } else {
        assert Absent(at', |all|, 0) == {};
      }
    }
  }

  lemma AccountDelete(h: History, all: History, at: seq<nat>, r: nat, d: nat, vm: string, reference: string)
    returns (at': seq<nat>)
    requires Accounted(h, all, at, r, d)
    ensures Accounted(Apply(h, vm, Deleted(reference)), all, at', r, d + 1)
  {
    at' := at;
    if Delete(h, reference).Ok? {
      var i := DeleteRemoves(h, reference);
      at' := RemovePlace(at, i);
      PlacedRemove(h, all, at, i);
      RemovalRepeats(at, i);
      DeletionCost(at, i, |all|, Kept(r, |all|));
    }
  }

  lemma AllPlaces(h: History, r: nat) returns (at: seq<nat>)
    ensures Accounted(h, h, at, r, 0)
  {
    at := seq(|h|, i requires 0 <= i < |h| => i);
    NoRepeats(at);
    forall j: nat | j < |h| ensures j in at { assert at[j] == j; }
    assert Absent(at, |h|, Kept(r, |h|)) == {};
  }

  lemma {:induction false} NoRepeats(at: seq<nat>)
    requires forall i :: 0 <= i < |at| ==> at[i] == i
    ensures Repeats(at) == 0
    decreases |at|
  {
    if |at| > 2 { NoRepeats(at[..|at| - 1]); }
  }

  lemma {:induction false} EvolveAccounted(h: History, vm: string, events: seq<Event>, r: nat) returns (at: seq<nat>)
    requires RetainAtLeast(events, r)
    ensures Accounted(Evolve(h, vm, events), Ledger(h, vm, events), at, r, Deletions(events))
    decreases |events|
  {
    if events == [] {
      at := AllPlaces(h, r);
    } else {
      var front, ev := events[..|events| - 1], events[|events| - 1];
      at := EvolveAccounted(h, vm, front, r);
      var now, all, d := Evolve(h, vm, front), Ledger(h, vm, front), Deletions(front);
      if ev.Deleted? {
        at := AccountDelete(now, all, at, r, d, vm, ev.reference);
      } else {
        var e := NewEntry(now, vm, ev.shot.id, ev.shot.at, ev.shot.name);
        AccountCreate(now, all, at, r, d, e, NewEntry(all, vm, ev.shot.id, ev.shot.at, ev.shot.name));
        at := at + [|all|];
        if ev.Ticked? { at := AccountPrune(now + [e], Ledger(h, vm, events), at, r, d, ev.retain); }
      }
    }
  }

  lemma PlacedPresent(h: History, all: History, at: seq<nat>, j: nat)
    requires Placed(h, all, at)
    ensures j in at ==> j < |all| && HasId(h, all[j].id)
  {
    if j in at {
      var p :| 0 <= p < |at| && at[p] == j;
      assert h[p].id == all[j].id;
    }
  }

  /** The newest `k` snapshots ever taken that are not in the history. */
  ghost function Missing(h: History, all: History, k: nat): set<nat>
    requires k <= |all|
  {
    set j | |all| - k <= j < |all| && !HasId(h, all[j].id)
  }

  /** From any history, with any loops that retain at least `r` and with snapshots made and deleted on request between
      their ticks: of the newest `r - 1` snapshots (one, for `r` equal to one) at most two are missing for each
      deletion. */
  lemma DeletionsCostAtMostTwo(h: History, vm: string, events: seq<Event>, r: nat)
    requires RetainAtLeast(events, r)
    ensures var all := Ledger(h, vm, events);
      |Missing(Evolve(h, vm, events), all, Kept(r, |all|))| <= 2 * Deletions(events)
  {
    var now, all := Evolve(h, vm, events), Ledger(h, vm, events);
    var at := EvolveAccounted(h, vm, events, r);
    var k := Kept(r, |all|);
    forall j: nat | j in Missing(now, all, k) ensures j in Absent(at, |all|, k) {
      PlacedPresent(now, all, at, j);
    }
    SubsetSize(Missing(now, all, k), Absent(at, |all|, k));
  }

  // ---------- The store ----------

  class TimeMachine {
    var tree: map<string, History>

    constructor ()
      ensures tree == map[]
    {
      tree := map[];
    }

    function Snapshots(vm: string): History
      reads this
    {
      if vm in tree then tree[vm] else []
    }

    method CreateSnapshot(vm: string, name: Option<string>, id: string, at: int) returns (e: SnapshotEntry)
      modifies this
      ensures e.id == id && e.vmId == vm && e.createdAt == at && e.cowDeltaSize == 0 && e.name == name
      ensures var before := old(Snapshots(vm));
        e.parentId == if before == [] then None else Some(before[|before| - 1].id)
      ensures e == NewEntry(old(Snapshots(vm)), vm, id, at, name)
      ensures tree == old(tree)[vm := old(Snapshots(vm)) + [e]]
      ensures vm in tree && tree[vm] == (if vm in old(tree) then old(tree)[vm] else []) + [e]
    {
      var snapshots := Snapshots(vm);
      e := SnapshotEntry(id, vm, at, 0, name, if snapshots == [] then None else Some(snapshots[|snapshots| - 1].id));
      tree := tree[vm := snapshots + [e]];
    }

    method DeleteSnapshot(vm: string, reference: string) returns (r: Result<(), DeleteError>)
      modifies this
      ensures match Delete(old(Snapshots(vm)), reference)
        case Ok(h) => r.Ok? && tree == old(tree)[vm := h]
        case Err(e) => r == Err(e) && tree == old(tree)
      ensures Deletes(old(Snapshots(vm)), reference, r, Snapshots(vm))
    {
      var snapshots := Snapshots(vm);
      ghost var h := snapshots;
      if snapshots == [] {
        DeleteDeletes(h, reference, [], VmNotFound);
        return Err(VmNotFound);
      }
      var found := GetSnapshot(snapshots, reference);
      if found.None? {
        DeleteDeletes(h, reference, [], SnapshotNotFound);
        return Err(SnapshotNotFound);
      }
      var index := FindId(snapshots, found.value.id);
      if index == |snapshots| {
        DeleteDeletes(h, reference, [], SnapshotNotFound);
        return Err(SnapshotNotFound);
      }
      snapshots := snapshots[..index] + snapshots[index + 1..];
      if index < |snapshots| {
        var next := snapshots[index];
        if index + 1 < |snapshots| {
          snapshots := snapshots[index := snapshots[index + 1].(parentId := Some(next.id))];
        }
      }
      assert Delete(h, reference) == Ok(snapshots);
      DeleteDeletes(h, reference, snapshots, VmNotFound);
      tree := tree[vm := snapshots];
      return Ok(());
    }

    /** The body of one timer tick. The history read for pruning is never empty, so its `unwrap` cannot fail. */
    method AutoTick(vm: string, shot: Shot, retain: nat)
      modifies this
      ensures tree == old(tree)[vm := Tick(old(Snapshots(vm)), vm, shot, retain)]
    {
      var e := CreateSnapshot(vm, shot.name, shot.id, shot.at);
      var count := |Snapshots(vm)|;
      if count > retain {
        var history := Snapshots(vm);
        assert history != [];
        PruneOldest(history);
        var r := DeleteSnapshot(vm, history[0].id);
      }
    }

    /** One event of a VM; other VMs' histories are untouched. */
    method HandleEvent(vm: string, ev: Event)
      modifies this
      ensures Snapshots(vm) == Apply(old(Snapshots(vm)), vm, ev)
      ensures tree - {vm} == old(tree) - {vm}
    {
      match ev {
        case Ticked(shot, retain) =>
          AutoTick(vm, shot, retain);
        case Requested(shot) =>
          var e := CreateSnapshot(vm, shot.name, shot.id, shot.at);
        case Deleted(reference) =>
          var r := DeleteSnapshot(vm, reference);
      }
    }

    /** A run of loops for one VM, with snapshots made and deleted between their ticks, on whatever history it has;
        other VMs' histories are untouched. A single loop on no history leaves the closed form. */
    method AutoTicks(vm: string, events: seq<Event>)
      modifies this
      ensures Snapshots(vm) == Evolve(old(Snapshots(vm)), vm, events)
      ensures tree - {vm} == old(tree) - {vm}
      ensures old(Snapshots(vm)) == [] ==> LeavesClosedForm(Snapshots(vm), vm, events)
    {
      var k := 0;
      assert events[..0] == [];
      while k < |events|
        invariant 0 <= k <= |events|
        invariant Snapshots(vm) == Evolve(old(Snapshots(vm)), vm, events[..k])
        invariant tree - {vm} == old(tree) - {vm}
      {
        HandleEvent(vm, events[k]);
        EvolveStep(old(Snapshots(vm)), vm, events, k);
        k := k + 1;
      }
      assert events[..k] == events;
      if old(Snapshots(vm)) == [] { TicksLeaveClosedForm(vm, events); }
    }
  }

  lemma EvolveStep(h: History, vm: string, events: seq<Event>, k: nat)
    requires k < |events|
    ensures Evolve(h, vm, events[..k + 1]) == Apply(Evolve(h, vm, events[..k]), vm, events[k])
  {
    assert events[..k + 1][..k] == events[..k];
  }

  /** If the events are the ticks of one loop, the history is the closed form. */
  ghost predicate LeavesClosedForm(h: History, vm: string, events: seq<Event>) {
    forall shots, retain :: events == Ticks(shots, retain) ==> h == Retained(AllTaken(vm, shots), retain)
  }

  lemma TicksLeaveClosedForm(vm: string, events: seq<Event>)
    ensures LeavesClosedForm(Evolve([], vm, events), vm, events)
  {
    forall shots, retain | events == Ticks(shots, retain)
      ensures Evolve([], vm, events) == Retained(AllTaken(vm, shots), retain)
    {
      TicksMatchClosedForm(vm, shots, retain);
    }
  }
}
