# Evented signatures as state machines

The repository judges malware by replaying the API calls of an analysis through small *signatures*.
An evented signature is an object: `on_call` updates its fields call by call, and `on_complete` gives
the verdict when nothing matched on the way. This project models fourteen of them, the ones with the
most state, and proves what a whole run keeps: the fields after any trace have a closed form over the
trace, and so the verdict and the report do.

## How the model is laid out

* `PyModel` has optional arguments, dynamically typed values, ASCII lower-casing, processes, events.
* `Traces` defines the *last block* of a trace (its maximal same-process suffix), everything a
  per-process signature gets to look at, and the order in which the engine replays process logs.
* Each signature is a class with the source's own fields. Its `Valid()` ties those fields to a
  specification over a ghost `history`; `OnCall` extends the history by one event and keeps `Valid()`;
  `Evaluate` streams whole logs or traces through a fresh object and states the verdict and the report.
* The specifications say nothing about counters or tables. A stage is a longest embedded prefix or a
  count of positions, a tracked handle is a recursive provenance, a live range is an allocation without
  a later free, a total is a sum over the trace.
* The lemmas whose names end in `InFull` restate the specifications call by call, with the source's own
  names, numbers and bits written out, so that no predicate is only defined and then used on both sides.

| file | signature |
|---|---|
| `InjectionExplorer.dfy` | five-stage Explorer injection, restarted by each shared section |
| `InjectionRunPE.dfy` | process hollowing: prepare, write, resume |
| `InjectionCRT.dfy` | remote thread, APC or patched library |
| `RawDisk.dfy`, `Bootkit.dfy`, `DiskInformation.dfy` | raw-disk handles; two admission rules |
| `UnbackedMemory.dfy`, `UnbackedNetwork.dfy`, `UnbackedSyscalls.dfy` | address ranges, with and without frees |
| `FileTimes.dfy`, `MimicsFiletime.dfy` | file objects, live and retired, and their time stamps |
| `NamedPipe.dfy` | who uses which pipe |
| `Sums.dfy`, `SleepAccounting.dfy`, `HeapSpray.dfy` | totals per process |
| `HttpRequest.dfy` | requests hung on the last connection |
| `OutputDebugString.dfy` | two flags |
| `MartiansOffice.dfy` | search of the process tree (not evented) |

## What the engine does with a verdict

`orchestrator/cape_engine.py:477-504` replays the logs process after process. True ends the streaming
to the signature and skips `on_complete`; nothing else does. An exception becomes False, and False is
ignored. A comment in `cape_signatures/generic_metrics.py:38-42` says instead that False, too, stops
the streaming. The model follows the engine: `Verdict` has `Matched`, `Rejected` (False or an exception)
and `Streaming`, and only `Matched` ends a run. The engine keeps one process object per pid
(`orchestrator/cape_engine.py:415-416`), so a signature's identity test on process objects is equality
of processes here, and the logs of a run belong to distinct processes.

## What the proofs brought up

* **Explorer.** `parent` and `injected` survive a change of process, yet a report never shows a stale
  pair: from stage 2 on they describe the current block (`InjectionExplorer.InjectionExplorer.OnCall`).
* **Remote thread.** A match by a queued APC reports the current process twice and never the target
  (`injection_createremotethread.py:105-110`). The guard against a process opening itself compares an
  argument with a number: an open of the own pid is tracked exactly when the pid comes as text
  (`InjectionCRT.OwnOpenTracked`). A process that opens only itself matches in no other way
  (`InjectionCRT.SelfMatchIsTextual`), and in that way it can after any calls at all
  (`InjectionCRT.TextualSelfMatch`); it is then reported as injecting into itself.
* **Disk.** The processes after whose calls Bootkit's handles can be relied on to be among
  DiskInformation's are exactly the ones that are no Office processes
  (`DiskInformation.IncludedIffWatched`).
* **Unbacked memory.** What the network tracker calls unbacked is unbacked for the syscall tracker when
  both book every allocation of the process alike. A VirtualAllocEx can fail that by coming from another
  process, or by carrying address or size arguments of which the two trackers read different ones. The
  inclusion holds throughout a run exactly when whatever the network tracker books on the process is
  covered by the syscall tracker at that moment (`UnbackedSyscalls.IncludedThroughout`). Both ends of a
  range count as inside.
* **File times.** For a destination that is neither a system path nor the exempt Internet Explorer binary,
  detection is complete as long as every file was opened with a name (`FileTimes.MimicComplete`). A file
  without one makes the search raise as soon as it shares a time, and so hides what comes after it
  (`FileTimes.NamelessHidesQualifying`). A destination that is a system path can hide every source behind
  its own entry (`FileTimes.SystemDestinationHides`); `FileTimes.MimicExact` says exactly when a pair is
  recorded.
* **Pipes.** Table, verdict and users do not depend on the order of events, but the reported creator
  does: it is the same in every order exactly when no other process created the pipe as well
  (`NamedPipe.CreatorOrderFree`).
* **Sleep.** One sleep of a counted process whose time is not a number makes the totalling raise, and
  with it the verdict is lost for all processes. Actual time stays within attempted time exactly when the
  skipped time is not negative, and a single negative skipped sleep breaks it (`SleepAccounting.NegativeSkip`).
* **Heap spray.** Two entries of the process list are mixed-case and can never be found
  (`HeapSpray.MixedCaseEntriesAreDead`). `mark_call` appends to the same `data` the verdict is taken
  from (`orchestrator/cape_compat.py:419-430`), so a single small allocation already matches
  (`HeapSpray.OneAllocationMatches`); the *reported* processes are those over 200 MB. Their totals stay
  within what they requested exactly when the sizes that are too rare to count do not add up to a negative
  number (`HeapSpray.HeavyWithinAll`).
* **HTTP.** The table of handles per host is redundant: one handle carried along the trace explains every
  lookup. A further request on the handle of the connection is seen exactly when no request was accepted
  since the connect, or the latest accepted one returned that very handle
  (`HttpRequest.RequestOnConnection`); so after a request that returned another handle it is missed.
* **Output debug string.** The flags are not reset between processes. The last block with a SetLastError
  decides: the trace matches exactly when that block does on its own, or ends with the SetLastError and
  the next block starts with an OutputDebugString (`OutputDebugString.FiresByBlocks`). So a match need not
  come from one process, and a process that does both is forgotten when another one sets the error later;
  `OutputDebugString.LocalityFails` says exactly when either happens.

## Model

| member | source | states |
|---|---|---|
| `Traces.LastBlockIsMaximalRun` | cape_signatures/injection_runpe.py:36-44 | the part of a trace a per-process reset leaves visible is the one and only maximal same-process suffix |
| `Traces.BlocksPartition` | cape_signatures/injection_runpe.py:36-44 | the blocks of a trace concatenate to it; each is a nonempty run of one process, and the next one is another process's |
| `Traces.BlockLocality` | cape_signatures/injection_runpe.py:36-44 | what a block-local signature sees over a trace is exactly the nonempty prefixes of its blocks |
| `Traces.EngineLocality` | orchestrator/cape_engine.py:477-504 | in the engine it sees exactly the nonempty prefixes of each process's own log, whatever the others did |
| `Traces.BlocksOfReplay` | orchestrator/cape_engine.py:477-504 | the blocks of the replayed trace are the logs that hold any call, in order |
| `Traces.FirstInReplay` | orchestrator/cape_engine.py:477-504 | the first firing prefix of the first log that has one is the first firing view of the replayed trace |
| `Traces.RunEndsIffView` | orchestrator/cape_engine.py:477-504 | some call ends the run exactly when the replayed trace has a firing view |
| `Traces.OutcomeUnique` | orchestrator/cape_engine.py:477-504 | verdict and report of a run are determined by the logs: at most one call ends it |
| `InjectionExplorer.EmbedsHasWitness` | cape_signatures/injection_explorer.py:76-92 | an embedded prefix of the steps has increasing positions, one for each step |
| `InjectionExplorer.WitnessEmbeds` | cape_signatures/injection_explorer.py:76-92 | and any such positions are an embedding |
| `InjectionExplorer.LongestPrefixSnoc` | cape_signatures/injection_explorer.py:76-92 | advancing greedily is optimal: the longest embedded prefix grows exactly when the new call is the next step |
| `InjectionExplorer.StageSnoc` | cape_signatures/injection_explorer.py:68-92 | a shared section restarts the stage at 1; otherwise it grows exactly with the longest embedded prefix |
| `InjectionExplorer.TargetSnoc` | cape_signatures/injection_explorer.py:76-80 | the target is the first NtOpenProcess after the last shared section, and later ones do not change it |
| `InjectionExplorer.FiresIffInjection` | cape_signatures/injection_explorer.py:67-98 | a block fires exactly when the six calls occur in order with no further shared section in between |
| `InjectionExplorer.FiresInFull` | cape_signatures/injection_explorer.py:67-98 | a block fires exactly when there is a last shared section and after it, in this order, a process opened, memory read, the window class shell_traywnd looked up, a window changed, and a message sent last |
| `InjectionExplorer.OpensSharedInFull` | cape_signatures/injection_explorer.py:58-75 | the six section names, in any letter case |
| `InjectionExplorer.TargetInFull` | cape_signatures/injection_explorer.py:76-80 | the target is the text of the pid of the first process opened after the last shared section |
| `InjectionExplorer.InjectionExplorer.OnCall` | cape_signatures/injection_explorer.py:67-98 | the counter is the stage of the current block; it matches exactly when the block fires and reports the current process with its own first target, never a stale one |
| `InjectionExplorer.SameAsOnBlock` | cape_signatures/injection_explorer.py:68-80 | a signature that has seen only the last block is in the same state as one that has seen the whole trace, apart from the pair before stage 2 |
| `InjectionExplorer.StreamLog` | orchestrator/cape_engine.py:477-504 | streams one log: without a match the whole log reaches the signature and no prefix fires; with one, the history ends at the shortest firing prefix, so no later call arrives, and the report is that prefix's |
| `InjectionExplorer.Evaluate` | orchestrator/cape_engine.py:477-523 | the run matches exactly when some process on its own has a firing prefix; the one report is that of the shortest such prefix of the first such log |
| `InjectionExplorer.OneOutcome` | orchestrator/cape_engine.py:477-523 | the logs determine the verdict and the report |
| `InjectionRunPE.ProcessMapSnoc` | cape_signatures/injection_runpe.py:46-51 | the process map has the created handles of the block as keys, each with the pid of its most recent creation |
| `InjectionRunPE.ThreadMapSnoc` | cape_signatures/injection_runpe.py:46-53 | the same for thread handles |
| `InjectionRunPE.StageUnique` | cape_signatures/injection_runpe.py:54-70 | the closed form of the stage determines it |
| `InjectionRunPE.StageSnoc` | cape_signatures/injection_runpe.py:54-70 | the counter keeps to the closed form: 0, or 1 plus the tracked writes after the first preparation, at most 3 |
| `InjectionRunPE.WriteAfterPrepare` | cape_signatures/injection_runpe.py:71-84 | stages 2 and 3 are exactly the blocks with a tracked write after a preparation |
| `InjectionRunPE.AfterResume` | cape_signatures/injection_runpe.py:71-96 | a resume fires exactly at stages 2 and 3 on a tracked handle, and names the pid of its most recent creation |
| `InjectionRunPE.FiresInFull` | cape_signatures/injection_runpe.py:46-96 | a block fires exactly when a created process or its thread is prepared, later written to or given a context, and a created one is resumed last |
| `InjectionRunPE.StepsInFull` | cape_signatures/injection_runpe.py:54-70 | which calls prepare and which write, each on something created before |
| `InjectionRunPE.TargetInFull` | cape_signatures/injection_runpe.py:71-96 | the pid reported is that of the latest creation of the resumed handle |
| `InjectionRunPE.InjectionRunPE.OnResume` | cape_signatures/injection_runpe.py:71-96 | no lookup misses; a match is a firing block and reports its target |
| `InjectionRunPE.InjectionRunPE.OnCall` | cape_signatures/injection_runpe.py:35-96 | handle sets equal key sets, the stage has its closed form, and a match is exactly a tracked resume after a preparation and a later write |
| `InjectionRunPE.SameAsOnBlock` | cape_signatures/injection_runpe.py:36-44 | a signature that has seen only the last block is in the same state as one that has seen the whole trace |
| `InjectionRunPE.StreamLog` | orchestrator/cape_engine.py:477-504 | streams one log: without a match the whole log reaches the signature and no prefix fires; with one, the history ends at the shortest firing prefix, so no later call arrives, and the report is that prefix's |
| `InjectionRunPE.Evaluate` | orchestrator/cape_engine.py:477-523 | the run matches exactly when some process on its own has a firing prefix; the one report is that of the shortest such prefix of the first such log, so of the first tracked resume after a preparation and a write |
| `InjectionRunPE.OneOutcome` | orchestrator/cape_engine.py:477-523 | the logs determine the verdict and the report |
| `InjectionCRT.HandleMapSnoc` | cape_signatures/injection_createremotethread.py:45-58 | each handle maps to the pid of its most recent open in the block |
| `InjectionCRT.PidsCoverHandles` | cape_signatures/injection_createremotethread.py:45-58 | every pid in the handle map is in the pid set |
| `InjectionCRT.StageUnique` | cape_signatures/injection_createremotethread.py:59-71 | the closed form of the stage determines it |
| `InjectionCRT.StageSnoc` | cape_signatures/injection_createremotethread.py:59-71 | the stage is 2 exactly when the first tracked entry was a mapping, or an allocation with a later tracked write |
| `InjectionCRT.StageMonotone` | cape_signatures/injection_createremotethread.py:59-71 | the stage never goes back within a block |
| `InjectionCRT.PatchNeedsEarlierWrite` | cape_signatures/injection_createremotethread.py:65-90 | a library-patch match needs a mapping or a tracked write strictly before it |
| `InjectionCRT.PatchInFull` | cape_signatures/injection_createremotethread.py:72-90 | a write fires exactly at stage 2, on an opened process, at 0x7C900000 <= address < 0x80000000, with a buffer that starts with the four characters \xe9 |
| `InjectionCRT.StartInFull` | cape_signatures/injection_createremotethread.py:91-114 | a thread fires exactly at stage 2 on an opened process, a queued APC exactly at stage 2 on an opened pid, and nothing else does |
| `InjectionCRT.StageTwoInFull` | cape_signatures/injection_createremotethread.py:59-71 | stage 2: the first mapping or allocation in an opened process is a mapping, or a write to an opened process follows it |
| `InjectionCRT.TrackedInFull` | cape_signatures/injection_createremotethread.py:45-58 | a handle is opened when an earlier successful open of something other than the number of the own process returned it |
| `InjectionCRT.TargetInFull` | cape_signatures/injection_createremotethread.py:77-101 | the pid reported is that of the latest open that returned the handle |
| `InjectionCRT.OwnOpenTracked` | cape_signatures/injection_createremotethread.py:45-53 | a successful open of its own pid is tracked exactly when the pid comes as text |
| `InjectionCRT.SelfMatchIsTextual` | cape_signatures/injection_createremotethread.py:45-114 | a process that opens only itself matches only after an open by textual pid, and names itself as the target |
| `InjectionCRT.TextualSelfMatch` | cape_signatures/injection_createremotethread.py:45-101 | and after any block it can: four more calls, opening nothing but itself, make it match |
| `InjectionCRT.AfterOther` | cape_signatures/injection_createremotethread.py:59-114 | stage, verdict and report decided by the tables are those of the block |
| `InjectionCRT.InjectionCRT.OnStart` | cape_signatures/injection_createremotethread.py:72-114 | each way to start code matches exactly at stage 2 on something opened, and what it reports |
| `InjectionCRT.InjectionCRT.OnCall` | cape_signatures/injection_createremotethread.py:37-114 | no lookup misses; a match is exactly a firing block, with its report |
| `InjectionCRT.SameAsOnBlock` | cape_signatures/injection_createremotethread.py:38-43 | a signature that has seen only the last block is in the same state as one that has seen the whole trace |
| `InjectionCRT.StreamLog` | orchestrator/cape_engine.py:477-504 | streams one log: without a match the whole log reaches the signature and no prefix fires; with one, the history ends at the shortest firing prefix, so no later call arrives, and the report is that prefix's |
| `InjectionCRT.Evaluate` | orchestrator/cape_engine.py:477-523 | the run matches exactly when some process on its own has a firing prefix; the one report is that of the shortest such prefix of the first such log |
| `InjectionCRT.OneOutcome` | orchestrator/cape_engine.py:477-523 | the logs determine the verdict and the report |
| `RawDisk.TrackedSnoc` | cape_signatures/bootkit.py:44-65 | provenance: a handle is tracked exactly when, since its last close, it came from an admitted open or a duplicate of a handle tracked then |
| `RawDisk.NamedSnoc` | cape_signatures/bootkit.py:49-65 | the name of a handle comes from the open or the duplicate that set it last |
| `RawDisk.TableSnoc` | cape_signatures/bootkit.py:44-65 | the table holds exactly the tracked handles, each with its name |
| `RawDisk.NameComesFromOpen` | cape_signatures/bootkit.py:54-65 | every stored name is the name of an admitted open of the block, through any chain of duplicates |
| `RawDisk.OpenInFull` | cape_signatures/bootkit.py:54-65 | which opens make an untracked handle tracked, under both rules |
| `RawDisk.WantsWriteInFull` | cape_signatures/bootkit.py:58-63 | of an access mask taken apart exactly bits 30 and 1 ask for writing |
| `RawDisk.IsRawDiskInFull` | cape_signatures/bootkit.py:61 | the two name tests, in any letter case |
| `RawDisk.CloseInFull` | cape_signatures/bootkit.py:51-53 | a close forgets its handle and no other |
| `RawDisk.DuplicateInFull` | cape_signatures/bootkit.py:44-50 | a successful duplicate makes its target tracked exactly when its source is, and changes nothing else |
| `RawDisk.WritableIsAnyDisk` | cape_signatures/antivm_generic_disk.py:80-86 | a handle tracked as a writable raw disk is tracked by the weaker rule, also over a longer block |
| `Bootkit.Bootkit.OnCall` | cape_signatures/bootkit.py:39-84 | the table is that of the current block; it matches exactly on a write or pass-through to a tracked handle |
| `Bootkit.OpenThenWriteInFull` | cape_signatures/bootkit.py:54-82 | a disk opened with a given access mask and written to fires exactly when the name is a raw disk's and bit 30 or bit 1 is set |
| `Bootkit.UseInFull` | cape_signatures/bootkit.py:66-82 | a call fires exactly when it writes to a tracked handle or passes it the control code 0x4D014 |
| `Bootkit.SameAsOnBlock` | cape_signatures/bootkit.py:40-42 | a signature that has seen only the last block is in the same state as one that has seen the whole trace |
| `Bootkit.StreamLog` | orchestrator/cape_engine.py:477-504 | streams one log: without a match no prefix fires; with one, the history ends at the shortest firing prefix |
| `Bootkit.Evaluate` | orchestrator/cape_engine.py:477-523 | the run matches exactly when some process on its own has a firing prefix, and so exactly when a first one ends it |
| `DiskInformation.DiskInformation.OnCall` | cape_signatures/antivm_generic_disk.py:51-96 | the table is that of the last watched block; an Office process changes nothing and is rejected |
| `DiskInformation.OpenThenQueryInFull` | cape_signatures/antivm_generic_disk.py:77-96 | a disk opened in any way and queried fires exactly when the name is a raw disk's or holds scsi0 and the control code is one of five |
| `DiskInformation.UseInFull` | cape_signatures/antivm_generic_disk.py:55-61 | a call fires exactly when it sends one of five control codes to a tracked handle |
| `DiskInformation.IsOfficeInFull` | cape_signatures/antivm_generic_disk.py:40-53 | the eight process names, in any letter case |
| `DiskInformation.WatchedPrefix` | cape_signatures/antivm_generic_disk.py:52-65 | whatever came before, the signature sees of a watched log just the calls made so far |
| `DiskInformation.StreamLog` | orchestrator/cape_engine.py:477-504 | streams one log: without a match no watched prefix fires; with one, the history ends at the shortest firing prefix |
| `DiskInformation.Evaluate` | orchestrator/cape_engine.py:477-523 | the run matches exactly when some process that is no Office process has a firing prefix on its own |
| `DiskInformation.BlocksAlign` | cape_signatures/antivm_generic_disk.py:52-65 | after a watched event its block ends with Bootkit's block |
| `DiskInformation.BootkitWithinDisk` | cape_signatures/bootkit.py:40-65 | forward simulation: on any trace whose last process is watched, Bootkit's handles are among DiskInformation's |
| `DiskInformation.OfficeBreaksInclusion` | cape_signatures/antivm_generic_disk.py:52-53 | the guard is needed: after any trace one open by an Office process breaks the inclusion |
| `DiskInformation.IncludedIffWatched` | cape_signatures/antivm_generic_disk.py:52-53 | the inclusion holds on all traces that end with a call of a process exactly when it is no Office process |
| `UnbackedMemory.WithoutSubsequence` | cape_signatures/memory_unbacked_network.py:112-113 | frees keep a range list a subsequence of what it was one of |
| `UnbackedNetwork.LiveSnoc` | cape_signatures/memory_unbacked_network.py:77-116 | allocations without a later free of their base change with an event exactly as the list does |
| `UnbackedNetwork.CoversFrom` | cape_signatures/memory_unbacked_network.py:124 | an address is covered exactly when it lies in a live allocation of the trace |
| `UnbackedNetwork.SuspiciousIffCovered` | cape_signatures/memory_unbacked_network.py:120-130 | the lookup finds exactly the network calls made from a range live at that moment |
| `UnbackedMemory.BookedInFull` | cape_signatures/memory_unbacked_network.py:77-116 | what an allocation or a free books for a process, with base and size as the first argument of each pair that is not falsy |
| `UnbackedNetwork.SuspiciousInFull` | cape_signatures/memory_unbacked_network.py:118-130 | a network call is suspicious exactly when base <= caller <= base + size for an earlier allocation of its process that nothing in between freed |
| `UnbackedNetwork.ConnectionsInFull` | cape_signatures/memory_unbacked_network.py:124-130 | an entry stands for a suspicious call and repeats its process name, API and caller |
| `UnbackedNetwork.ConnectionCount` | cape_signatures/memory_unbacked_network.py:124-130 | as many entries as suspicious calls |
| `UnbackedNetwork.UnbackedMemoryNetworkConnection.OnCall` | cape_signatures/memory_unbacked_network.py:73-132 | after every call all range lists and the report have their closed forms |
| `UnbackedNetwork.UnbackedMemoryNetworkConnection.OnComplete` | cape_signatures/memory_unbacked_network.py:134-137 | the verdict is whether some call was suspicious |
| `UnbackedNetwork.Evaluate` | cape_signatures/memory_unbacked_network.py:73-137 | the run matches exactly when some network call has base <= caller <= base + size for an earlier allocation of its process that nothing in between freed; entries in order, and their number |
| `UnbackedSyscalls.LiveWithinAllocated` | cape_signatures/memory_unbacked_network.py:77-116 | when both trackers book every allocation of the process alike, the live ranges are a subsequence of everything allocated |
| `UnbackedSyscalls.UnbackedForBoth` | cape_signatures/bypass_edr_syscalls.py:134-135 | then every address unbacked for the network tracker is unbacked for the syscall tracker |
| `UnbackedSyscalls.IncludedSnoc` | cape_signatures/memory_unbacked_network.py:77-116 | an event keeps that inclusion exactly when the range it allocates for the process, if any, is covered by the syscall tracker |
| `UnbackedSyscalls.IncludedThroughout` | cape_signatures/memory_unbacked_network.py:77-116 | the inclusion holds at every moment of a run exactly when every allocation is covered when it is made |
| `UnbackedSyscalls.AlikeStaysCovered` | cape_signatures/bypass_edr_syscalls.py:104-117 | an allocation booked alike is covered after any trace |
| `UnbackedSyscalls.RemoteAllocation` | cape_signatures/memory_unbacked_network.py:91-105 | after any trace a VirtualAllocEx from another process makes a given address unbacked for the network tracker and changes nothing for it in the syscall tracker |
| `UnbackedSyscalls.UnbackedSyscallExecution.CheckAddress` | cape_signatures/bypass_edr_syscalls.py:130-147 | an address in some range adds its finding once; the verdict flag follows the findings |
| `UnbackedSyscalls.UnbackedSyscallExecution.OnCall` | cape_signatures/bypass_edr_syscalls.py:100-147 | ranges and findings after any trace |
| `UnbackedSyscalls.UnbackedSyscallExecution.OnComplete` | cape_signatures/bypass_edr_syscalls.py:149-152 | the verdict is whether there is a finding |
| `UnbackedSyscalls.HitsInFull` | cape_signatures/bypass_edr_syscalls.py:119-135 | which system calls hit which allocation, with which address |
| `UnbackedSyscalls.ReportedInFull` | cape_signatures/bypass_edr_syscalls.py:136-145 | what a finding repeats of the system call, and the default for a missing module |
| `UnbackedSyscalls.Evaluate` | cape_signatures/bypass_edr_syscalls.py:100-152 | the run matches exactly when some system call has a return address or caller with base <= address <= base + size for an earlier allocation of its process; each finding once |
| `FileTimes.LiveUnique` | cape_signatures/mimics_filetime.py:92-96 | at most one live object has a given handle |
| `FileTimes.OpenedNew` | cape_signatures/mimics_filetime.py:95-96 | an open creates an object exactly when its handle is not live |
| `FileTimes.RecordsConserved` | cape_signatures/mimics_filetime.py:87-103 | every object of the block is exactly once in the live or in the retired list |
| `FileTimes.RetiredFrozen` | cape_signatures/mimics_filetime.py:97-120 | a retired object never changes again |
| `FileTimes.TimesAreLastNonzero` | cape_signatures/mimics_filetime.py:39-48 | each of the four times is the last nonzero value applied while the object was live |
| `FileTimes.MimicSound` | cape_signatures/mimics_filetime.py:123-137 | a recorded source is a system path, differs from the destination, and belongs to an object of the block with the same nonzero create, write or change time |
| `FileTimes.MimicComplete` | cape_signatures/mimics_filetime.py:123-137 | for a destination that is neither a system path nor exempt: recorded exactly when some object, live or retired, qualifies and no nameless one with a shared time comes before it |
| `FileTimes.NamelessHides` | cape_signatures/mimics_filetime.py:50-56 | a file without a name that comes first and shares a time hides every source |
| `FileTimes.NamelessHidesQualifying` | cape_signatures/mimics_filetime.py:113-139 | a block in which that hides a system file with the same time from an ordinary destination |
| `FileTimes.MimicExact` | cape_signatures/mimics_filetime.py:123-137 | for every destination, exactly when a pair is recorded; a file without a name that shares a time ends the search |
| `FileTimes.QualifiesInFull` | cape_signatures/mimics_filetime.py:50-59 | a source has the same nonzero create, write or change time and a system path; access times do not count |
| `FileTimes.IsSystemPathInFull` | cape_signatures/mimics_filetime.py:56-58 | the path tests, character by character |
| `FileTimes.IsExemptInFull` | cape_signatures/mimics_filetime.py:134 | the one exempt destination, in any letter case |
| `FileTimes.AppliesInFull` | cape_signatures/mimics_filetime.py:104-120 | times are applied by queries and changes of information class 4 |
| `FileTimes.OpenedInFull` | cape_signatures/mimics_filetime.py:92-103 | an open creates an object exactly when every earlier successful open of its handle has been followed by a close |
| `FileTimes.LiveInOrder` | cape_signatures/mimics_filetime.py:123 | live objects are searched in the order of their creation |
| `FileTimes.SystemDestinationHides` | cape_signatures/mimics_filetime.py:123-132 | a system destination first in the dictionary hides every source |
| `MimicsFiletime.HandleInfo.SetFileTimes` | cape_signatures/mimics_filetime.py:39-48 | a zero keeps the old time, anything else replaces it |
| `MimicsFiletime.HandleInfo.CheckFileTimes` | cape_signatures/mimics_filetime.py:50-59 | the other's name exactly when it is a system path and a nonzero time is shared; raises exactly when a time is shared with a file without a name |
| `MimicsFiletime.MimicsFiletime.SearchLive` | cape_signatures/mimics_filetime.py:123-126 | the first loop ends at the first live object, in dictionary order, that qualifies or makes it raise |
| `MimicsFiletime.MimicsFiletime.SearchRetired` | cape_signatures/mimics_filetime.py:127-131 | the second loop ends at the first such retired object |
| `MimicsFiletime.MimicsFiletime.Search` | cape_signatures/mimics_filetime.py:123-131 | both loops together end where the search over all records of the block does |
| `MimicsFiletime.MimicsFiletime.RecordPair` | cape_signatures/mimics_filetime.py:132-137 | the pair is recorded unless it is the same file, the destination is exempt, or its missing name raises |
| `MimicsFiletime.MimicsFiletime.OnSet` | cape_signatures/mimics_filetime.py:113-139 | a change of times updates the object and records exactly the pair the block calls for |
| `MimicsFiletime.MimicsFiletime.OnCall` | cape_signatures/mimics_filetime.py:84-140 | objects in both tables are the records of the block, none shared, each with its own times; the pairs are those of the trace |
| `MimicsFiletime.MimicsFiletime.OnComplete` | cape_signatures/mimics_filetime.py:142-147 | the report is exactly the set of recorded pairs and decides the verdict |
| `MimicsFiletime.Evaluate` | orchestrator/cape_engine.py:477-523 | what is reported over all logs is exactly what each process on its own records |
| `NamedPipe.MentionedHasNoBackslash` | cape_signatures/ipc_namedpipe.py:41-57 | no known name holds a backslash |
| `NamedPipe.UseIsKnown` | cape_signatures/ipc_namedpipe.py:56-60 | the pipe of a read or write is known by the time it is looked up |
| `NamedPipe.KnownIsUse` | cape_signatures/ipc_namedpipe.py:58-60 | the known name that fits the handle is the pipe being used, and no other fits |
| `NamedPipe.IpcOrderFree` | cape_signatures/ipc_namedpipe.py:37-74 | the table is a function of the set of events: any order and any repetition gives the same |
| `NamedPipe.VerdictOrderFree` | cape_signatures/ipc_namedpipe.py:76-98 | the verdict does not change under any permutation of the trace |
| `NamedPipe.VerdictInFull` | cape_signatures/ipc_namedpipe.py:37-98 | the verdict is true exactly when a pipe is created and two processes transfer on \Device\NamedPipe\ and its name |
| `NamedPipe.CreatesInFull` | cape_signatures/ipc_namedpipe.py:39-45 | a creation names the pipe by the nonempty last part of its path |
| `NamedPipe.UsesInFull` | cape_signatures/ipc_namedpipe.py:47-74 | a use is a successful read or write on exactly that handle name |
| `NamedPipe.LastPartInFull` | cape_signatures/ipc_namedpipe.py:41 | the last part is what follows the last backslash, or everything |
| `NamedPipe.CreatorOrderFree` | cape_signatures/ipc_namedpipe.py:45 | the reported creator is the same in every order of the trace exactly when no other process created the pipe |
| `NamedPipe.LastCreatorMoved` | cape_signatures/ipc_namedpipe.py:45 | replaying any creation last makes its process the creator |
| `NamedPipe.SharedByTables` | cape_signatures/ipc_namedpipe.py:78-87 | the test on the tables finds exactly the created pipes with two different users |
| `NamedPipe.ListedIsEntry` | cape_signatures/ipc_namedpipe.py:84-96 | the entries made from the tables are exactly the trace's: latest creator, and every user with all it did |
| `NamedPipe.IpcNamedPipe.Record` | cape_signatures/ipc_namedpipe.py:58-74 | the loop over the names updates one pipe or none |
| `NamedPipe.IpcNamedPipe.OnCall` | cape_signatures/ipc_namedpipe.py:37-74 | all three tables are those of the trace after every call |
| `NamedPipe.IpcNamedPipe.OnComplete` | cape_signatures/ipc_namedpipe.py:76-98 | the report and the verdict |
| `NamedPipe.Evaluate` | cape_signatures/ipc_namedpipe.py:37-98 | the run matches exactly when a created pipe was used by two processes, and reports exactly the entries of such pipes |
| `Sums.SumPermutation` | cape_signatures/antisandbox_sleep.py:54-62 | a total does not depend on the order of the summands |
| `SleepAccounting.ActualWithinAttempted` | cape_signatures/antisandbox_sleep.py:60-62 | attempted is actual plus skipped time, so actual never exceeds attempted exactly when the skipped time is not negative |
| `SleepAccounting.NegativeSkip` | cape_signatures/antisandbox_sleep.py:60-62 | after any trace one skipped sleep of a negative time makes actual exceed attempted |
| `SleepAccounting.TotalsWithoutNegatives` | cape_signatures/antisandbox_sleep.py:60-62 | a process that passes no negative time has 0 <= actual <= attempted |
| `SleepAccounting.SleepOrderFree` | cape_signatures/antisandbox_sleep.py:54-79 | match and severity do not depend on the order of calls |
| `SleepAccounting.AttemptedConserved` | cape_signatures/antisandbox_sleep.py:54-62 | the attempted times of all processes add up to everything counted |
| `SleepAccounting.ListTotalsAreTraceTotals` | cape_signatures/antisandbox_sleep.py:24-62 | totals over the collected sleeps are totals over the trace |
| `SleepAccounting.AddsInFull` | cape_signatures/antisandbox_sleep.py:24-62 | what a delay with a given time and status adds to both totals of its process |
| `SleepAccounting.AddsNothingInFull` | cape_signatures/antisandbox_sleep.py:24-62 | which calls add nothing |
| `SleepAccounting.MalformedInFull` | cape_signatures/antisandbox_sleep.py:54-62 | when the totalling raises |
| `SleepAccounting.IsWhitelistedInFull` | cape_signatures/antisandbox_sleep.py:42-55 | the nine process names, in any letter case |
| `SleepAccounting.AntiSandboxSleep.TotalPerProcess` | cape_signatures/antisandbox_sleep.py:53-62 | the dictionary holds both totals of every counted process, or the loop raises on a malformed time |
| `SleepAccounting.AntiSandboxSleep.OnComplete` | cape_signatures/antisandbox_sleep.py:40-79 | match at 250000, severity at 2100000, and the two totals of each reported process |
| `SleepAccounting.Evaluate` | cape_signatures/antisandbox_sleep.py:24-79 | the same for the whole run; raised severity implies a match |
| `HeapSpray.MixedCaseEntriesAreDead` | cape_signatures/exploit_heapspray.py:41-57 | two entries of the process list can never be found |
| `HeapSpray.HeavyWithinAll` | cape_signatures/exploit_heapspray.py:65-71 | all bytes are the counted and the uncounted ones, so the counted total stays within all exactly when the uncounted ones are not negative |
| `HeapSpray.HeavyWithoutNegatives` | cape_signatures/exploit_heapspray.py:65-71 | a process that passes no negative size has 0 <= counted <= all |
| `HeapSpray.NegativeSize` | cape_signatures/exploit_heapspray.py:56-59 | one call with a negative size makes the counted total exceed all bytes |
| `HeapSpray.SprayOrderFree` | cape_signatures/exploit_heapspray.py:53-76 | totals and reports do not depend on the order of calls |
| `HeapSpray.CountsConserved` | cape_signatures/exploit_heapspray.py:57-59 | the counts add up to the number of calls of listed processes |
| `HeapSpray.HeavyBytesInFull` | cape_signatures/exploit_heapspray.py:57-71 | a process's total is the sum of the sizes of its calls of which at least fifty share name, size and protection |
| `HeapSpray.IsMarkedInFull` | cape_signatures/exploit_heapspray.py:57-62 | which calls are marked |
| `HeapSpray.OneAllocationMatches` | cape_signatures/exploit_heapspray.py:61-81 | one allocation by a listed process matches although nobody is over the limit |
| `HeapSpray.ExploitHeapspray.OnCall` | cape_signatures/exploit_heapspray.py:53-62 | the histogram is that of the trace |
| `HeapSpray.ExploitHeapspray.TotalMegabytes` | cape_signatures/exploit_heapspray.py:65-71 | each process's total is its bytes in combinations seen at least fifty times |
| `HeapSpray.ExploitHeapspray.OnComplete` | cape_signatures/exploit_heapspray.py:64-81 | exactly the processes over 200 MB are reported, each with its total; when the verdict is true |
| `HeapSpray.Evaluate` | cape_signatures/exploit_heapspray.py:53-81 | the same for the whole run |
| `HttpRequest.TokenOrigin` | cape_signatures/http_request.py:54-65 | the one handle that matters comes from the latest connect or accepted request |
| `HttpRequest.UrisMeaning` | cape_signatures/http_request.py:57-65 | a path is listed under a host exactly when a request on that handle came while it was the last host |
| `HttpRequest.AcceptsInFull` | cape_signatures/http_request.py:56-65 | a request is accepted with a path other than / and nothing, under a truthy last host off the pass list, on the current handle |
| `HttpRequest.RequestedInFull` | cape_signatures/http_request.py:66-83 | a URL is collected exactly when it is truthy, off the pass list, and asked for |
| `HttpRequest.ListedInFull` | cape_signatures/http_request.py:49 | on the pass list is having one of its domains somewhere in the text; the test raises on anything but a text |
| `HttpRequest.LastHostInFull` | cape_signatures/http_request.py:46-48 | the last host is that of the last connect, whatever the pass list says |
| `HttpRequest.PortInFull` | cape_signatures/http_request.py:47-55 | the port is that of the last connect to the host |
| `HttpRequest.AcceptedHostIsConnected` | cape_signatures/http_request.py:59-61 | a nonempty last host off the pass list always has a row, so the lookup cannot fail |
| `HttpRequest.UrisNeedHost` | cape_signatures/http_request.py:49-64 | paths only hang on connected hosts off the pass list |
| `HttpRequest.TokenAfter` | cape_signatures/http_request.py:54-65 | after any calls without a connect the handle is that of the latest accepted request, or still the one before |
| `HttpRequest.RequestOnConnection` | cape_signatures/http_request.py:57-65 | after any calls without a connect, a request on the connection's handle is seen exactly when none was accepted since, or the latest accepted one returned that handle |
| `HttpRequest.SecondRequestOnConnection` | cape_signatures/http_request.py:61-65 | of two requests in a row on a new connection the first is seen, and the second exactly when the first returned the handle of the connection |
| `HttpRequest.HttpRequest.OnConnect` | cape_signatures/http_request.py:45-55 | the table after a connect, and when it raises |
| `HttpRequest.HttpRequest.OnOpenRequest` | cape_signatures/http_request.py:56-65 | the table after a request; no lookup fails |
| `HttpRequest.HttpRequest.OnWebRequest` | cape_signatures/http_request.py:66-83 | exactly the nonempty URLs off the pass list are collected |
| `HttpRequest.HttpRequest.OnCall` | cape_signatures/http_request.py:44-83 | table, URLs and marks are those of the trace; it raises exactly on a pass-list test of something that is no text |
| `HttpRequest.HttpRequest.OnComplete` | cape_signatures/http_request.py:85-98 | for each host one entry for each of its paths, in order, with host, port and path in their places; exactly the URLs; and the verdict |
| `HttpRequest.Evaluate` | cape_signatures/http_request.py:44-98 | the same for the whole run; no reported host or URL is on the pass list |
| `OutputDebugString.FlagsSnoc` | cape_signatures/antidebug_outputdebugstring.py:39-54 | the flags follow the closed forms of the two-flag language |
| `OutputDebugString.FiresInFull` | cape_signatures/antidebug_outputdebugstring.py:39-58 | an OutputDebugString right after a SetLastError that no other one follows |
| `OutputDebugString.FiresByBlocks` | cape_signatures/antidebug_outputdebugstring.py:34-54 | the trace matches exactly when its last block with a SetLastError does alone, or hands over to the next block |
| `OutputDebugString.LocalityFails` | cape_signatures/antidebug_outputdebugstring.py:34-54 | exactly when the trace matches and no block does, and exactly when a block does and the trace does not |
| `OutputDebugString.SetHasBlock` | cape_signatures/antidebug_outputdebugstring.py:47-49 | a last block with a SetLastError exists exactly when there is a SetLastError, so both cases cover every trace |
| `OutputDebugString.NoSetNoMatch` | cape_signatures/antidebug_outputdebugstring.py:47-54 | without a SetLastError neither the trace nor any block matches |
| `OutputDebugString.MatchIsLocal` | cape_signatures/antidebug_outputdebugstring.py:39-54 | at the moment of a match the current block fires exactly when both calls came from one process |
| `OutputDebugString.BothDisagreements` | cape_signatures/antidebug_outputdebugstring.py:34-54 | both kinds of disagreement occur, for any two processes |
| `OutputDebugString.OutputDebugString.OnCall` | cape_signatures/antidebug_outputdebugstring.py:39-54 | both flags and the marks are those of the trace |
| `OutputDebugString.OutputDebugString.OnComplete` | cape_signatures/antidebug_outputdebugstring.py:56-58 | a match exactly when the call right after the last SetLastError is an OutputDebugString |
| `OutputDebugString.Evaluate` | cape_signatures/antidebug_outputdebugstring.py:39-58 | the same for the whole run |
| `MartiansOffice.NotWhitelistedMeaning` | cape_signatures/martians_office.py:69-75 | exactly the paths no whitelist entry matches survive |
| `MartiansOffice.RootIsNoMartian` | cape_signatures/martians_office.py:98-107 | the matched Office root is never among its own martians |
| `MartiansOffice.ComFindingsMeaning` | cape_signatures/martians_office.py:125-141 | a node is reported exactly when its logical parent is an Office pid and its path is there and not whitelisted |
| `MartiansOffice.SomeTreeDecides` | cape_signatures/martians_office.py:104-111 | the tree pass ends early exactly when some tree raises or has martians |
| `MartiansOffice.HasMartiansInFull` | cape_signatures/martians_office.py:104-111 | a tree has martians exactly when it is complete, its root is an Office process, and some lower-cased path below is matched by no whitelist entry |
| `MartiansOffice.ComMartianInFull` | cape_signatures/martians_office.py:113-143 | a COM finding is a node activated by an Office process anywhere in the forest, with a path matched by no whitelist entry |
| `MartiansOffice.OfficePackageInFull` | cape_signatures/martians_office.py:82-84 | the four package names, anywhere in the text |
| `MartiansOffice.MartiansOffice.GoDeeper` | cape_signatures/martians_office.py:57-63 | the shared list grows by exactly the preorder paths; it raises exactly on an incomplete tree |
| `MartiansOffice.MartiansOffice.FindMartians` | cape_signatures/martians_office.py:65-76 | the non-whitelisted paths of the tree in order |
| `MartiansOffice.MartiansOffice.CollectOfficePids` | cape_signatures/martians_office.py:117-123 | exactly the pids of Office processes anywhere in the forest are added |
| `MartiansOffice.MartiansOffice.CheckComMartians` | cape_signatures/martians_office.py:125-143 | the findings are appended in preorder over the whole forest |
| `MartiansOffice.MartiansOffice.Run` | cape_signatures/martians_office.py:78-144 | the first deciding tree makes the outcome; otherwise the COM pass over the whole forest does |

## Left out

- The base class behind the signatures: `get_argument`, the `check_*` helpers, `add_match`. Calls carry already parsed fields.
- `mark_call` outside heap spray, HTTP and output debug string: marks go into the same data as the reports, but no other verdict depends on them.
- The engine's filters by API name, alias, category and process name: a trace holds the calls that reach the signature, with `Other` where a filter or an alias lets more through; `Network` plays that part for the network tracker.
- Process-name lookup and message texts: reports hold the process, pid, handle, path or total they name.
- Lower-casing beyond ASCII.
- Regular expressions: the Office pattern and the whitelist are predicates; only the Office pattern's place in the whitelist is kept.
- Floating-point rounding: megabytes are reals, seconds are left as milliseconds.
- `UnbackedSyscalls.Evaluate`: findings are compared by their parts, not by the text of the message.
- `HttpRequest.HttpRequest.OnComplete`: the order among hosts and among URLs is not stated, and host, port and path are not joined into one string.
- `NamedPipe.IpcNamedPipe.OnComplete`: the order of the entries is not stated.
- `MimicsFiletime.MimicsFiletime.OnSet`: line 123 of `mimics_filetime.py` calls `itervalues`, which only Python 2 dictionaries have; it is taken as the values in insertion order. On Python 3 the line would raise, which the engine turns into False.
- `MartiansOffice.MartiansOffice.Run`: the process tree and the package name are inputs; the engine that replays the logs supplies neither a process tree nor another package than a fixed one.
- The four sibling trackers in `memory_unbacked_network.py` and the other classes of `bootkit.py`, `ipc_namedpipe.py` and `bypass_edr_syscalls.py`: the same tables, or a single test.
- Signatures that match a single call or loop over a fixed list of indicators.
- The `Internet_Dropper` signature: its final loop reads a key that is never written.
- Severity, description and TTP metadata, except the severity of the sleep signature.
- The virtual machine driver, scoring, rule engines and server around the signatures.
