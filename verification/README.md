# Vyoma: a verified model of its protocols, logs, parsers and schedulers

Vyoma runs containers as microVMs on Cloud Hypervisor. Around the hypervisor sit small algorithms whose behaviour
matters on every run: ordering compose services, tunnelling TCP through a vsock handshake, framing messages and events,
keeping snapshot histories and a write-ahead log, deciding what to adopt after a crash. This project models those
algorithms in Dafny as the Rust code has them, branch by branch, and proves what they guarantee, over every input,
every run and every interleaving. Where the code does not have the property one would expect, the model keeps the code
and a lemma says exactly when the property holds.

`dafny verify dfyconfig.toml` checks everything.

## Files

| file | models |
|---|---|
| `Outcomes.dfy` | `Option` and `Result` |
| `Text.dfy` | decimal numbers, `parse`, `split`, `trim`, letter case, lexicographic order and sorting |
| `Compose.dfy` | `start_order` / `visit`, and the stop order of `vyoma down` |
| `ComposeV3.dfy` | `to_v3`, `validate`, `translate`, `ResourceTranslator` |
| `VsockProxy.dfy` | `forward_vsock` and `handle_proxy_conn` as two parties over a relay |
| `AgentFrames.dfy` | `process_agent_messages` and the client half in `exec_command` |
| `AutoSnapshot.dfy` | the auto-snapshot task map under every interleaving |
| `TimeMachine.dfy` | snapshot histories and the pruning tick |
| `Wal.dfy`, `Recovery.dfy` | the write-ahead log, its fold to active VMs, and startup recovery |
| `EventFramer.dfy` | the event-monitor framing loop |
| `Vyomafile.dfy` | the Vyomafile parser and tokenizer, with a printer |
| `SnapshotStore.dfy` | `SnapshotTree` and the metadata effect of `StorageManager` |

Imperative code is modelled as methods and classes proved against specification functions; the concurrent parts
(the vsock handshake, the auto-snapshot manager) are state machines whose runs are sequences of steps. What comes from
outside is an input: the clock, fresh identifiers, JSON and floating-point readers, the file system and the hypervisor's
answers, the iteration order of hash maps, the moment at which a storage step fails.

## Expectations that do not hold of the code

- Bytes a container sends before it has heard from the client can be lost: the read that completes the guest's `OK`
  line may carry them, and `into_inner` discards them. In every state before the splice, no continuation in which the
  container waits loses anything if and only if the container has not spoken yet (`VsockProxy.NothingLostIffSilent`).
  Nothing else is ever lost.
- A restarted auto-snapshot task can be ended by the late exit of its predecessor, which removes the map entry whatever
  its generation (`AutoSnapshot.SurvivesIffNoStaleLoop`, `AutoSnapshot.RestartCanBeEvicted`).
- Deleting a snapshot from a history loses the following one too, unless at most one follows or its id also occurs
  elsewhere (`TimeMachine.DeleteKeepsOthersIff`), and in a chain of distinct ids it leaves a parent dangling unless the
  last one is deleted (`TimeMachine.DeleteKeepsParentsIff`); so pruning keeps one snapshot fewer than the retain count
  (`TimeMachine.KeepsNewestExactlyIff`, `TimeMachine.EvolveKeepsNewest`).
- The write-ahead log's active set looks at the record of a VM that the scan meets first, not at the newest
  (`Wal.ActiveIffDecisiveStarts`). While each VM's clock readings increase and keep their number of digits, that is the
  first one written and no stop record ever removes a VM (`Wal.SteadyClockKeepsActive`). After a step back of the clock
  a stop does remove one, though not as a stop of the newest state but by scanning first
  (`Wal.AppendKeepsActiveIff`, `Wal.SteppedBackClockDeactivates`). Across a change of the number of digits the scan need
  not be in time order (`Wal.KeyOrderIff`).
- CMD and ENTRYPOINT arguments that are empty or span lines, which JSON arrays can carry, cannot be written outside JSON
  (`Vyomafile.PrintedArgsRoundTripIff`, `Vyomafile.AcceptedFilesReprintIff`).
- `validate` reads host ports sixteen bits wide, `translate` thirty-two: stacks in which two entries name the same port
  beyond 65535 pass, and those are all that do (`ComposeV3.WideHostPortsEscapeValidation`,
  `ComposeV3.HostPortsDistinctIff`).
- Converted resource limits agree with the command line's defaults only for 1 to 4294967 cpus
  (`ComposeV3.ResourcesAgreeIff`).
- The event framer reads each byte as a character, so an event that is not ASCII reaches the JSON parser as another
  text: `{"a":"é"}` as `{"a":"Ã©"}` (`EventFramer.AccentIsMangled`). Its 32-bit nesting counter, in builds where it
  wraps, cuts objects nesting more than 2^32 deep too early. A stream of objects arrives as sent if and only if each of
  them is ASCII and nests no deeper (`EventFramer.StreamIsSubmittedIff`).
- The snapshot tag index answers lookups of a set of VM ids right in every run if and only if no id followed by a colon
  begins another one (`SnapshotStore.TagLookupsRightIff`); for such a pair a lookup finds the other VM's snapshot
  (`SnapshotStore.ClashMisleads`).
- `vyoma down` stops, of several VMs of the stack under one service name, as scaling starts them, only the last listed
  (`Compose.Down`).
- Log values that become unreadable count as creates: if the first record of a VM is among them, a stopped VM is
  reported active again (`Wal.CorruptionActivatesIff`).
- Of an answer of 4 GiB or more a client reads only the length modulo 2^32 and leaves the rest in the stream
  (`AgentFrames.FrameRead`, `AgentFrames.Connection.Call`).
- `SnapshotTree::delete`, which the storage manager never calls, can leave dangling parents and tags
  (`SnapshotStore.DeleteKeepsParentsIff`, `SnapshotStore.DeleteKeepsTagsIff`).

## Model

| member | source | states |
|---|---|---|
| Compose.Visit | crates/vyoma-compose/src/lib.rs:115-153 | the depth-first visit terminates, keeps `visiting` equal to the current path and the order built so far a valid one, puts the visited name in it, and fails only with a cycle that exists or a dependency that is really undefined |
| Compose.StartOrder | crates/vyoma-compose/src/lib.rs:100-113 | succeeds if and only if no dependency is undefined and no service depends on itself, even transitively; then every service occurs exactly once with its own definition, after all its dependencies |
| Compose.StackClosesCycle | crates/vyoma-compose/src/lib.rs:125-130 | a name met again on the visiting stack lies on a dependency cycle |
| Compose.StartOrderImpliesResolvable | crates/vyoma-compose/src/lib.rs:132-153 | a start order can exist only for an acyclic file without undefined dependencies |
| Compose.ChainGoesBack | crates/vyoma-compose/src/lib.rs:134-150 | following dependencies any number of steps from a service leads to a strictly earlier place in the order |
| Compose.Down | crates/vyoma/src/main.rs:1330-1390 | every stop request is for a listed VM whose stack label is the stack, under its service label or else its id, with its own id; of several under one name the last listed is stopped and no other; among distinct ids a VM without the label or with another stack's is never stopped; for a resolvable file a service is stopped before everything it transitively depends on, and services the file does not name come last |
| Compose.GatherRunning | crates/vyoma/src/main.rs:1334-1347 | the names are exactly those the listed VMs serve in the stack by their labels, each with the id of the last VM serving it |
| Compose.StopRunning | crates/vyoma/src/main.rs:1356-1390 | every service of the running map is stopped exactly once with its own VM id, dependents before their transitive dependencies even through services that are not running, unlisted ones last |
| Compose.ReversedOrderPutsDependentsFirst | crates/vyoma/src/main.rs:1357-1365 | in the reversed start order dependents precede their transitive dependencies |
| Compose.AddRemaining | crates/vyoma/src/main.rs:1367-1372 | the list is extended, without repetition, to cover every running service |
| Compose.StopListed | crates/vyoma/src/main.rs:1374-1390 | the stop requests are the running services among the list, in list order, each once |
| VsockProxy.ClientBytesArrive | crates/vyoma-core/src/proxy.rs:120-159 | in every run, what the container has received plus what is in flight is exactly what the client sent, in order; the guest's reader discards nothing and dials only the requested port |
| VsockProxy.ContainerBytesArrive | crates/vyoma-core/src/proxy.rs:142-159 | in every run, the container's bytes are the dropped prefix, then what the client has, then what is in flight; the host gives up only if the relay or the guest refused |
| VsockProxy.OnlyTheAckReadDrops | crates/vyoma-core/src/proxy.rs:143-157 | bytes are discarded only by the buffered read that completes the guest's OK line, and they are what that read took beyond it |
| VsockProxy.NothingLostWhenContainerWaits | crates/vyoma-agent-vm/src/main.rs:95-135 | if the container writes only after hearing from the client, no run loses a byte in either direction |
| VsockProxy.NothingLostIffSilent | crates/vyoma-core/src/proxy.rs:142-158 | in every reachable state before the splice, all continuations in which the container waits lose nothing if and only if the container has sent nothing yet |
| VsockProxy.GreetingCanBeLost | crates/vyoma-core/src/proxy.rs:142-158 | any greeting that fits one buffered read with the OK line can be lost entirely, in a run that splices successfully |
| VsockProxy.HandshakeCanFinish | crates/vyoma-core/src/proxy.rs:120-155 | no state of the handshake is stuck: each has a continuation to the splice, or, once the relay or the container's port has refused, to the host giving up |
| VsockProxy.EverythingCanArrive | crates/vyoma-core/src/proxy.rs:120-159 | from every reachable state without a refusal a continuation delivers everything sent so far on both legs, except what the acknowledgement read drops |
| VsockProxy.MoreCanArrive | crates/vyoma-core/src/proxy.rs:120-159 | whatever the client goes on to say in any reachable state without a refusal, and the container once connected, a continuation delivers that too |
| VsockProxy.RefusalIsFinal | crates/vyoma-agent-vm/src/main.rs:104-131 | once the relay answers anything but OK or the container's port cannot be dialled, no run splices and neither end ever gets a byte of the other |
| VsockProxy.StepKeeps | crates/vyoma-agent-vm/src/main.rs:95-136 | every step of host, relay, guest, client or container keeps the phase invariant linking both halves |
| VsockProxy.LineRead | crates/vyoma-core/src/proxy.rs:125-128 | a buffered line read, however the line is fragmented or coalesced, ends at the stream's first newline and leaves over exactly what its last chunk carried beyond |
| VsockProxy.PortLineParses | crates/vyoma-agent-vm/src/main.rs:102-103 | the port line the host writes parses back to the same port |
| VsockProxy.GuestDialsPort | crates/vyoma-agent-vm/src/main.rs:99-103 | any line the guest reads is dialled as the 16-bit number it spells once trimmed, and refused exactly when it spells none |
| AgentFrames.ProcessAgentMessages | crates/vyoma-agent-vm/src/main.rs:173-230 | whatever frames and tail the input is made of, the output is one frame per non-empty message in order, the handler's answer for a request, the request error for other text and the text error for other bytes, and the size error for an oversize tail |
| AgentFrames.SessionAnswersInOrder | crates/vyoma-agent-vm/src/main.rs:174-229 | one response frame per non-empty message, in order, the k-th being the right answer to the k-th; an oversize frame gets one error and ends the session whatever follows; a truncated tail gets nothing |
| AgentFrames.EveryStreamDecomposes | crates/vyoma-agent-vm/src/main.rs:175-193 | every byte stream is acceptable frames followed by a truncated or oversize tail, so the previous row covers all streams |
| AgentFrames.SessionPrefix | crates/vyoma-agent-vm/src/main.rs:173-230 | what the agent has written for a prefix of the stream is a prefix of what it writes for all of it |
| AgentFrames.FrameRead | crates/vyomad/src/grpc.rs:272-278 | reading an encoded frame takes as much of the payload as its length modulo 2^32 and leaves the rest in the stream |
| AgentFrames.FrameRoundTripIff | crates/vyomad/src/grpc.rs:265-278 | an encoded frame is read back, with nothing taken from what follows, if and only if its length fits 32 bits |
| AgentFrames.Be32RoundTrip | crates/vyomad/src/grpc.rs:266-275 | the big-endian length decodes to the length modulo 2^32 |
| AgentFrames.Be32IsBigEndian | crates/vyomad/src/grpc.rs:266-266 | the header holds the base-256 digits of the length, the most significant first |
| AgentFrames.NextAnswer | crates/vyomad/src/grpc.rs:270-278 | after one more request the unread output of the agent is exactly the frame answering it, or the size error |
| AgentFrames.Connection.Call | crates/vyomad/src/grpc.rs:265-280 | if its write completes, the i-th call reads the handler's answer to a request, the request error for other text, the text error for other bytes, or the size error above 1 MiB, and stays in step, when the answer is below 4 GiB; of a longer one its length modulo 2^32 |
| AutoSnapshot.AtMostOneLiveLoop | crates/vyomad/src/auto_snapshot.rs:28-86 | in every interleaving a VM has at most one loop whose sender is alive, that loop has not left and is the one the map holds, and `is_running` answers whether there is one |
| AutoSnapshot.ReachableStepEffects | crates/vyomad/src/auto_snapshot.rs:28-151 | in every reachable state a start leaves the VM with a live loop, its old one or a new one, a stop with none whose sender is alive, a leaving loop with no entry for its VM, and no step touches another VM's entry or loops |
| AutoSnapshot.SurvivesIffNoStaleLoop | crates/vyomad/src/auto_snapshot.rs:112-151 | a running task survives every run without a stop if and only if no earlier loop of its VM is still on its way out |
| AutoSnapshot.RestartCanBeEvicted | crates/vyomad/src/auto_snapshot.rs:147-151 | start, stop, start, and the first loop's exit removes the second task's entry |
| AutoSnapshot.AutoSnapshotManager.StartTask | crates/vyomad/src/auto_snapshot.rs:28-69 | fails, changing nothing, exactly when the VM has an entry; otherwise spawns one loop holding the new channel; afterwards the VM has a live loop and other VMs are as before |
| AutoSnapshot.AutoSnapshotManager.StopTask | crates/vyomad/src/auto_snapshot.rs:71-81 | removes the VM's entry and drops its sender, failing exactly when there is none |
| AutoSnapshot.AutoSnapshotManager.IsRunning | crates/vyomad/src/auto_snapshot.rs:83-86 | true exactly when a loop of the VM with an open channel is ticking |
| AutoSnapshot.AutoSnapshotManager.RemoveEntry | crates/vyomad/src/auto_snapshot.rs:147-151 | a leaving loop removes its VM's entry and drops that sender, whatever generation it belongs to |
| TimeMachine.TicksMatchClosedForm | crates/vyomad/src/auto_snapshot.rs:114-132 | after any number of ticks from an empty history it is the closed form: all snapshots while they fit, then the newest r-1 with the oldest of them twice; the count never exceeds r and the newest r-1 survive |
| TimeMachine.KeepsNewestExactlyIff | crates/vyomad/src/auto_snapshot.rs:122-131 | the history is exactly the newest r snapshots if and only if nothing was pruned or r is at most 1 |
| TimeMachine.DeleteKeepsOthersIff | crates/vyomad/src/timemachine.rs:137-145 | in any history, deletion keeps every other id if and only if at most one entry follows the deleted one or the id behind it also occurs elsewhere |
| TimeMachine.DistinctDeleteKeepsOthersIff | crates/vyomad/src/timemachine.rs:137-145 | with distinct ids that is if and only if at most one follows; otherwise the successor is lost and the one after stored twice |
| TimeMachine.DeleteKeepsParentsIff | crates/vyomad/src/timemachine.rs:137-145 | in a chain with distinct ids, as creation builds it, every parent is present after a deletion if and only if the last entry was deleted |
| TimeMachine.CreationKeepsChain | crates/vyomad/src/timemachine.rs:73-85 | creating a snapshot extends a chain in which each entry is a child of the one before it |
| TimeMachine.OrdinalFinds | crates/vyomad/src/timemachine.rs:92-115 | `snap:N` finds the N-th snapshot unless an id or label is spelled that way |
| TimeMachine.GetSnapshotDenotes | crates/vyomad/src/timemachine.rs:92-115 | a reference finds the first entry with that id, else the first with that label, else the one whose position the number after `snap:` gives; nothing is found exactly when none of these exists |
| TimeMachine.DeleteTakesDenoted | crates/vyomad/src/timemachine.rs:121-145 | deleting takes out the first entry with the id of the denoted one, with the rest as the list surgery leaves it |
| TimeMachine.DeleteFailsIff | crates/vyomad/src/timemachine.rs:122-135 | no history and no denoted entry are exactly the two failures |
| TimeMachine.TimeMachine.CreateSnapshot | crates/vyomad/src/timemachine.rs:73-85 | appends one entry with the given id, VM, time and label, size zero and the previous last as parent, touching no other VM |
| TimeMachine.TimeMachine.DeleteSnapshot | crates/vyomad/src/timemachine.rs:121-151 | an id deletes the first entry that has it; a label, when no id matches, and an ordinal, when neither does, the first entry with the id of the one they denote; the entries left are spelled out; fails exactly when there is no history or nothing is denoted, changing nothing |
| TimeMachine.EvolveLength | crates/vyomad/src/auto_snapshot.rs:121-131 | from any history, with any loops ticking and snapshots made and deleted between ticks: a request adds one, a deletion takes at most one, ticks fill up to the retain count and hold the count there |
| TimeMachine.EvolveKeepsNewest | crates/vyomad/src/auto_snapshot.rs:114-135 | from any history, if every tick retains at least r and nothing is deleted on request, the newest r-1 snapshots (one, for r = 1) are always there, unchanged, in order and last |
| TimeMachine.DeletionsCostAtMostTwo | crates/vyomad/src/timemachine.rs:121-151 | with deletions among the events, at most two of those newest are missing for each deletion, whatever is pruned in between |
| TimeMachine.TimeMachine.AutoTick | crates/vyomad/src/auto_snapshot.rs:114-135 | one tick creates and prunes at most one snapshot; the history it unwraps is never empty |
| TimeMachine.TimeMachine.AutoTicks | crates/vyomad/src/auto_snapshot.rs:109-145 | ticks, requested snapshots and deletions leave the evolved history for their VM, whatever it was before, and other VMs untouched; one loop on no history leaves the closed form |
| Wal.KeyDecodes | crates/vyomad/src/state/wal.rs:120-122 | keys decode to the timestamp and id encoded, even for ids with colons |
| Wal.DecodesAnyKey | crates/vyomad/src/state/wal.rs:176-180 | any key: skipped without a colon, otherwise split at the first one, with timestamp zero unless a 64-bit number precedes it |
| Wal.KeyOrderIff | crates/vyomad/src/state/wal.rs:147-158 | an earlier record is scanned first if and only if its timestamp is below the leading digits of the later one |
| Wal.EqualDigitsScanInTimeOrder | crates/vyomad/src/state/wal.rs:147-158 | with equal digit counts the byte-order scan is in time order |
| Wal.NothingLostIff | crates/vyomad/src/state/wal.rs:120-129 | the log holds every appended record if and only if no two appends share clock reading and VM |
| Wal.WriteAheadLog.AppendEntry | crates/vyomad/src/state/wal.rs:120-129 | an append extends the written history by one record |
| Wal.WriteAheadLog.GetActiveVmIds | crates/vyomad/src/state/wal.rs:172-203 | lists each VM at most once, exactly those whose first scanned record is a create or start, with their greatest timestamp |
| Wal.FoldKeyTracks | crates/vyomad/src/state/wal.rs:182-190 | one key keeps the first value seen per VM and only advances its timestamp |
| Wal.ActiveAfterAppend | crates/vyomad/src/state/wal.rs:182-200 | for any log and clock: an append leaves other VMs alone, leaves its VM alone if that VM's first record scans before it, and otherwise decides by its own kind |
| Wal.AppendKeepsActiveIff | crates/vyomad/src/state/wal.rs:182-200 | an active VM stays active under an append if and only if it is a create or start or scans after the VM's first record |
| Wal.SteppedBackClockDeactivates | crates/vyomad/src/state/wal.rs:182-200 | a stop written with an earlier clock reading of as many digits deactivates, with a later one it does not |
| Wal.ActiveIffDecisiveStarts | crates/vyomad/src/state/wal.rs:172-203 | for any history on any clock: a VM is active if and only if its append with the least key, the last one written under that key, is a create or start |
| Wal.ActiveIffFirstWrittenStarts | crates/vyomad/src/state/wal.rs:172-203 | where a VM's first append scans before its later ones, the VM is active if and only if that append is a create or start |
| Wal.SteadyClockKeepsActive | crates/vyomad/src/state/wal.rs:182-200 | while each VM's clock readings increase with equal digit counts, nothing appended later removes an active VM |
| Wal.ReportCoversLog | crates/vyomad/src/state/wal.rs:194-202 | for any log whose first scanned records are creates or starts, every VM whose newest record is one is reported, and no others if and only if there are no others in the log |
| Wal.ReportCoversLiveVms | crates/vyomad/src/state/wal.rs:194-202 | the same for a history of appends on any clock, the newest record being the one appended last |
| Wal.CorruptionActivatesIff | crates/vyomad/src/state/wal.rs:152-155 | whatever values become unreadable, a VM is active afterwards if and only if it was before or its first record is among them |
| Recovery.RecoverOnStartup | crates/vyomad/src/state/recovery.rs:31-121 | adopts exactly once, with its recorded state or else a minimal one of its id without resources, every active VM whose directory exists, whose state is recorded or can be rebuilt, and whose hypervisor answers; cleans up exactly once those found dead; leaves the rest |
| Recovery.RecoverOne | crates/vyomad/src/state/recovery.rs:51-117 | one VM is adopted, cleaned up or skipped as its directory, state file and probes demand |
| Recovery.AdoptedAndCleanedAreDisjoint | crates/vyomad/src/state/recovery.rs:98-116 | no VM is both adopted and cleaned up, and none whose probe timed out is touched |
| Recovery.Restart | crates/vyomad/src/state/recovery.rs:40-121 | for any log, a VM is adopted, or cleaned up, if and only if the log reports it and what is left of it demands so, each once; under a steady clock the log reports those whose first append is a create or start |
| EventFramer.Monitor | crates/vyoma-core/src/vmm.rs:182-222 | the byte loop submits, trimmed, exactly the pieces the next row describes of the bytes taken for characters, and keeps the rest |
| EventFramer.FeedCutsPieces | crates/vyoma-core/src/vmm.rs:192-219 | for any text, JSON or not: a piece ends exactly at each closing brace that no odd run of backslashes escapes, that an even number of unescaped quotes precedes and that brings the balance of such braces to zero in 32 bits; between pieces the scanner knows escape, quotes and balance |
| EventFramer.CutsPartitionStream | crates/vyoma-core/src/vmm.rs:193-219 | for arbitrary bytes the cuts followed by the buffer are the bytes consumed, each cut read alone is one object, and the remainder yields none |
| EventFramer.BytesSimulateText | crates/vyoma-core/src/vmm.rs:192-214 | reading the UTF-8 bytes of any text cuts where reading the text would, each cut being taken for what its bytes spell |
| EventFramer.ReceivedIff | crates/vyoma-core/src/vmm.rs:192-195 | a text sent as UTF-8 is taken for itself if and only if it is ASCII, and for a longer one otherwise |
| EventFramer.ObjectsAreSubmitted | crates/vyoma-core/src/vmm.rs:192-216 | any sequence of JSON objects nesting at most 2^32 deep, in any spelling sections 2, 4 and 7 of RFC 8259 allow, sent as UTF-8, is submitted object by object in order, each as the text its bytes are taken for |
| EventFramer.StreamIsSubmittedIff | crates/vyoma-core/src/vmm.rs:192-216 | a stream of well-formed objects is submitted as exactly those objects if and only if each is ASCII and nests at most 2^32 deep |
| EventFramer.ValuePasses | crates/vyoma-core/src/vmm.rs:196-207 | inside an object any JSON value, with braces and quotes in its strings, is buffered without a cut |
| EventFramer.ObjectIsSubmittedIff | crates/vyoma-core/src/vmm.rs:192-216 | a well-formed object sent as UTF-8 is submitted as itself if and only if it is ASCII and its objects nest at most 2^32 deep |
| EventFramer.AccentIsMangled | crates/vyoma-core/src/vmm.rs:192-195 | `{"a":"é"}` is submitted as `{"a":"Ã©"}` |
| EventFramer.TooDeepIsCut | crates/vyoma-core/src/vmm.rs:203-207 | every well-formed value nesting deeper is cut where the wrapped counter returns to zero, an object before its last brace |
| Vyomafile.ParseContent | crates/vyoma-build/src/parser.rs:34-48 | the pieces between line feeds that are not blank or comments are read in order as the instructions they state; the first that states none is the error, with its number |
| Vyomafile.ParseLineIff | crates/vyoma-build/src/parser.rs:55-123 | a line is read as an instruction exactly when its keyword, in any case, and its trimmed arguments state it, and rejected with an error exactly when they have that fault: a missing or unexpected argument, not two words, no equals sign, an unreadable list, an unknown keyword |
| Vyomafile.ShellTokens | crates/vyoma-build/src/parser.rs:134-168 | the quote loop computes the tokens and never an empty one |
| Vyomafile.TokenizeSpelled | crates/vyoma-build/src/parser.rs:142-165 | any spelling of tokens as adjacent bare and quoted pieces between spaces is read as the pieces' texts |
| Vyomafile.OpenQuoteReadsOn | crates/vyoma-build/src/parser.rs:142-165 | a quote left open is read as if it were closed at the end |
| Vyomafile.PrintedArgsRoundTripIff | crates/vyoma-build/src/parser.rs:125-169 | printed arguments, with spaces and both quotes, are read back if and only if none is empty |
| Vyomafile.ParseStatement | crates/vyoma-build/src/parser.rs:55-123 | each instruction, with its keyword in any letter case and any gap, is parsed back |
| Vyomafile.PrintedFileRoundTrip | crates/vyoma-build/src/parser.rs:34-48 | a file of blank lines, comments and instructions in any layout is read as exactly its instructions |
| Vyomafile.AcceptedFilesReprintIff | crates/vyoma-build/src/parser.rs:34-123 | for every accepted file, printing its instructions and parsing again gives the same ones if and only if its own CMD and ENTRYPOINT lists hold only non-empty single-line arguments |
| Vyomafile.ShellListsAreArguments | crates/vyoma-build/src/parser.rs:125-169 | lists read without JSON hold only such arguments |
| SnapshotStore.EveryLineageReachesABase | crates/vyoma-storage/src/manager.rs:41-162 | in every run, failures included, every parent is present and from every snapshot the parents lead, without repetition, to a parentless base in at most as many steps as there are snapshots |
| SnapshotStore.NewLineageIsPermanent | crates/vyoma-storage/src/manager.rs:64-129 | a successful branch prepends its node to the parent's lineage, a base or commit starts a new root, and no later operation changes either |
| SnapshotStore.PerformAddsAtMostOne | crates/vyoma-storage/src/manager.rs:41-162 | an operation that fails at any step leaves the metadata unchanged or with its one new node; a successful one stores the node it returns |
| SnapshotStore.BranchLeaves | crates/vyoma-storage/src/manager.rs:64-99 | a successful branch stores the child with its parent, label and paths; one that fails midway leaves nothing, the bare child or the complete one; it reports a missing snapshot exactly when there is none |
| SnapshotStore.PerformLeaves | crates/vyoma-storage/src/manager.rs:41-162 | all five operations, for every number of steps that succeed: success exactly when the source is there and no step fails; the complete node, field by field, is returned and stored; a failure at each step leaves exactly nothing, the bare child or the complete node |
| SnapshotStore.TagLeaves | crates/vyoma-storage/src/snapshot_tree.rs:180-197 | tagging succeeds exactly when the snapshot exists and no step fails; the node and the index entry change once their steps are done, and nothing else does |
| SnapshotStore.TagLookupIsLastWriter | crates/vyoma-storage/src/snapshot_tree.rs:180-208 | over every run whose VM ids do not clash, failures included, a tag lookup never errs and finds the snapshot last bound to that VM and tag |
| SnapshotStore.TagLookupsRightIff | crates/vyoma-storage/src/snapshot_tree.rs:180-208 | for any set of VM ids, all lookups in all runs over them are right if and only if no id with a colon appended begins another |
| SnapshotStore.ClashMisleads | crates/vyoma-storage/src/snapshot_tree.rs:192-208 | for any two clashing ids there is a run after which a lookup for the shorter one finds the longer one's snapshot |
| SnapshotStore.TagKeysCollideIff | crates/vyoma-storage/src/snapshot_tree.rs:105-105 | two different VM ids have tags with a common key if and only if one of them with a colon appended begins the other |
| SnapshotStore.TagKeysDiffer | crates/vyoma-storage/src/snapshot_tree.rs:192-193 | keys of VM ids that do not clash are equal only for the same VM and tag |
| SnapshotStore.DeleteKeepsParentsIff | crates/vyoma-storage/src/snapshot_tree.rs:210-225 | deletion keeps all parents present if and only if no other snapshot was branched from the deleted one |
| SnapshotStore.DeleteKeepsTagsIff | crates/vyoma-storage/src/snapshot_tree.rs:215-219 | deletion keeps all tags resolvable if and only if the only index entry for the snapshot is its own VM with its latest tag |
| SnapshotStore.SnapshotTree.CreateNode | crates/vyoma-storage/src/snapshot_tree.rs:95-111 | the writes take effect in order up to the failing step |
| SnapshotStore.SnapshotTree.Tag | crates/vyoma-storage/src/snapshot_tree.rs:180-197 | stores the tagged node and binds the tag, in that order, up to the failing step |
| SnapshotStore.SnapshotTree.History | crates/vyoma-storage/src/snapshot_tree.rs:134-151 | exactly the VM's snapshots, by creation time and then id |
| SnapshotStore.StorageManager.Execute | crates/vyoma-storage/src/manager.rs:41-162 | each operation answers and leaves what `PerformLeaves` says, for every number of steps that succeed: success exactly with its source there and no step failing, the complete node stored and returned, or what the failing step leaves |
| ComposeV3.Validate | crates/vyoma-compose/src/schema_v3.rs:175-224 | accepts exactly the files whose dependencies and networks are defined and whose published ports are pairwise different; every reported error is real |
| ComposeV3.CheckPorts | crates/vyoma-compose/src/schema_v3.rs:195-216 | after a service the set holds exactly the ports published so far, and no error means no conflict within or across services |
| ComposeV3.Translate | crates/vyoma-compose/src/schema_v3.rs:226-301 | succeeds exactly on consistent files, with one request per service in sorted name order holding the image or `scratch`, the networks and, in order, exactly the port and volume mappings its entries ask for; the stack's host ports are pairwise different up to 65535, and altogether if and only if no two entries are translated to the same wider port |
| ComposeV3.HostPortsDistinctIff | crates/vyoma-compose/src/schema_v3.rs:236-264 | the mappings of a consistent stack have pairwise different host ports if and only if no two entries are translated to the same port beyond 65535 |
| ComposeV3.TranslatePorts | crates/vyoma-compose/src/schema_v3.rs:240-264 | the mappings are those the entries ask for, in order, none missing |
| ComposeV3.TranslatePortIff | crates/vyoma-compose/src/schema_v3.rs:239-263 | an entry is mapped to a host and a VM port exactly when a long entry publishes them or a short text is the two 32-bit numbers, with at most an address in front |
| ComposeV3.TranslateVolumeIff | crates/vyoma-compose/src/schema_v3.rs:266-286 | an entry is mapped to a host and a VM path exactly when a long entry has them as source and target or a short text is the two, colon-free, with perhaps more after another colon |
| ComposeV3.PublishedIff | crates/vyoma-compose/src/schema_v3.rs:197-209 | validation sees a host port exactly when a long entry publishes it or a short text has that 16-bit number before its last colon, with at most an address in front |
| ComposeV3.SmallHostIsPublished | crates/vyoma-compose/src/schema_v3.rs:197-209 | up to sixteen bits the host port translated is the one validated |
| ComposeV3.WideHostPortsEscapeValidation | crates/vyoma-compose/src/schema_v3.rs:201-247 | for every wider host port there is a file of two services that validation accepts and whose two requests both map that port |
| ComposeV3.ResourcesAgreeIff | crates/vyoma-compose/src/schema_v3.rs:307-343 | conversion and translation give the direct resources if and only if cpus is absent or within 1 to 4294967, for any memory size |
| ComposeV3.CpusAgreeIff | crates/vyoma-compose/src/schema_v3.rs:308-314 | the cpu count survives text, milli-cpus, rounding up and saturation exactly in that range |
| ComposeV3.MemoryAgrees | crates/vyoma-compose/src/schema_v3.rs:326-343 | every 32-bit MiB count survives its text form |
| ComposeV3.MemoryUnits | crates/vyoma-compose/src/schema_v3.rs:326-343 | a memory text in any case is its number of B, K, G or T rounded up to whole MiB and saturated, any other unit counting as MiB, and 512 for digits that do not parse |
| ComposeV3.LimitsDecide | crates/vyoma-compose/src/schema_v3.rs:308-323 | only the limits count: one cpu and 512 MiB without them, one cpu for an unreadable count, whole cpus, at least one, for a count of thousandths |
| ComposeV3.ToV3 | crates/vyoma-compose/src/lib.rs:179-278 | every service, network and volume is carried over field by field, and nothing else; a network's address configuration, commands and build sources are dropped |
| ComposeV3.ConvertedAsks | crates/vyoma-compose/src/lib.rs:179-278 | translated after conversion, a service asks for its image or `scratch`, its networks and, in order, exactly the mappings its port and volume texts ask for |
| ComposeV3.ConversionKeepsDependencies | crates/vyoma-compose/src/lib.rs:204-278 | a service's references in the converted file are all defined if and only if the start order meets no undefined dependency of it and the file declares its networks |

## Left out

- VsockProxy.ClientBytesArrive: closing, half-closing and errors of the sockets are not modelled; a party may stop at any point, which the safety claims cover.
- VsockProxy.GreetingCanBeLost: covers greetings up to 8189 bytes, the room a single buffered read has after the OK line; that something of a longer one can be lost is part of VsockProxy.NothingLostIffSilent.
- Connect retries, sleeps and timeouts: replaced by arbitrary outcomes.
- The relay's own listener and the ports it assigns: it answers CONNECT with one line and then passes bytes through.
- AgentFrames.ProcessAgentMessages: reading and writing are not interleaved; the output is given as a function of all bytes received.
- JSON parsing and printing, and what agent requests do: inputs.
- Failures of the store and of JSON in the snapshot histories and the log: those operations ignore or abort on them.
- Recovery.RecoverOnStartup: which resources `cleanup_orphaned_resources` releases for a dead VM is not modelled, only that it is called.
- EventFramer.ObjectsAreSubmitted: in builds with overflow checks the nesting counter panics beyond 2^31 - 1 instead of wrapping.
- EventFramer.Monitor: waiting for more bytes and the JSON event type are not modelled.
- Vyomafile.ParseStatement: letters whose uppercase form is several letters are left unchanged; none occurs in a keyword.
- SnapshotStore.SnapshotTree.DeleteNode: deletion is modelled without failing steps.
- SnapshotStore.PerformAddsAtMostOne: device-mapper, loop, ext4, qcow2 and copy commands are counted as fallible steps without effects on the metadata; files they leave behind are not modelled.
- ComposeV3.ResourcesAgreeIff: floating-point numbers are exact rationals; reading decimal integers below 2^53 is exact and an `f32` is printed exactly up to 2^24 and as no smaller number beyond.
- ComposeV3.Validate: the order of the reported errors, which follows hash-map iteration.
- AgentFrames.Connection.Call: whether a write completes is an input; other socket errors are not modelled.
- Deserialization of compose files, and the Up and Scale commands.
- Swarm and Raft, networking, attestation and signing, hibernation, policies, metrics, teleport, DNS, the Kubernetes integration, the SDKs and the UI: plumbing around external systems, or single-branch state.
