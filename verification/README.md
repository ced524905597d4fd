# BubbleHub: verified model

BubbleHub runs agents in sandboxes and shares local language models between them. This project models the parts of
it that decide something, in Dafny, and proves what those decisions guarantee.

- **Model scheduler** (`SlotTable`, `Scheduler`, `SchedulerState`, `LoadProtocol`, `LoadRecords`, `ModelUsers`,
  `LoadOvershoot`):
  slot arrays in a locked state file; admission, eviction of idle models, reference counts. `SchedulerState.State`
  is the state with its arrays and loops, proved against the functions of `Scheduler`; `LoadProtocol` lets any number
  of processes interleave the calls that load a model and serve a chat.
- **Access policy** (`CText`, `AccessRules`, `RuleMatching`, `ManifestText`, `ManifestRoundTrip`, `ManifestReload`,
  `ManifestPending`, `ManifestTheorems`, `ManifestInstances`, `AccessRuns`, `GrantRuns`, `FirmRequests`,
  `ShieldedRuns`, `GrantConverse`, `RunInstances`, `OverlappingRuns`, `ManifestScanner`, `AccessStore`): an agent's
  rules and waiting list, the most specific rule, and the hand-written JSON printer and scanner that every step passes
  through; runs of grants and evaluations through the file, one after the other and overlapping.
  `AccessStore` and `ManifestScanner` are the loops over buffers; the other modules say what they compute and prove
  what it means.
- **Egress proxy** (`HttpRequest`, `HttpForms`, `HttpParser`, `BrokerWire`, `ProxyVerdict`): request parsing with
  cursors and fixed buffers (sections 3.2.1 and 3.2.2 of RFC 9112), the bounded JSON writer (section 7 of RFC 8259),
  the answer reader, and the verdict on a request.
- **Broker loop** (`BrokerLoop`, `BrokerConversation`): cutting a byte stream into lines, asking a callback,
  answering; and the proxy and the loop together.
- **Chat messages** (`ChatMessages`, `ChatContent`, `ChatTheorems`), **candidate models** (`Registry`,
  `CandidateOrder`, `CandidateAdmission`) and **NO_PROXY lists** (`CommaLists`, `NoProxy`).

Conventions. Amounts of memory are reals, so rounding is not modelled; the clock is any integer. A C string is the
text before its terminator, and a buffer of `n` bytes keeps at most `n - 1` characters of it. Locked calls are atomic.
Backend health, spawning, socket reads and writes, and what the callback answers are parameters over which every
theorem quantifies.

Where the code does not do what one would expect of it, the model follows the code and a lemma says exactly when the
expectation holds:

- A background job leaves the last 10% of VRAM free only if it asks for VRAM itself (`Scheduler.VramReserveIff`,
  `Scheduler.VramReserveCanBeMissed`).
- A model's reference count is wrong after an eviction of a model in use, or after a load that found no slot and whose
  failure nobody looks at (`ModelUsers.StepKeepsCountIff`); `ModelUsers.EvictionUnderUse` and
  `LoadOvershoot.LoadWithoutSlot` give the runs.
- Normalising a field a second time can change it, because the cut to the field size comes after the trimming
  (`AccessRules.NormalizeTwiceIff`, `AccessRules.SpaceLeftByCut`).
- A manifest entry is not read back as it was written if its normal form is not stable in that way, or a value holds a
  control character or is taken for a key (`ManifestTheorems.RoundTrip`; one entry each in `ManifestInstances`).
- The last rule granted for exactly a request decides it in every run exactly when no value of it holds a control
  character or is taken for the key of a field further back than the next one, and its normal form is stable
  (`GrantConverse.FirmIffFollowsGrant`, `FirmRequests.FirmIff`, `ProxyVerdict.FirmIffForwardsByGrant`; a run in
  `RunInstances.CoincidenceMisleads`).
- Two requests can have the same id (`RuleMatching.SameId`).
- A rule whose subject is taken for the name of the waiting list can hide that list, so no request is safe from waiting
  in vain (`RunInstances.WaitsInVain`, `RunInstances.OutOfSight`).
- The manifest is read and replaced without a lock, so of two operations that cross the first is lost; nothing is lost
  exactly when no save stands between the reading and the writing of another (`OverlappingRuns.NothingLostIff`,
  `OverlappingRuns.GrantIsLost`).
- White space behind a Host value gets into the host or the port (`HttpForms.FormsAgreeIff`,
  `HttpForms.TrailingBlank`).
- A key of 64 or more characters can come to stand in the table twice (`SlotTable.LongKeyUnique`,
  `SlotTable.LongKeyTwice`).
- A port is reduced to 32 bits before its range is checked (`HttpRequest.PrintedPort`, `HttpRequest.PortReadAs80`). A URL
  too long for its buffer is cut in one request form and refused in the other, and a URL without a path stays without one
  (`HttpForms.FormsAgreeIff`, `HttpForms.UrlsAgreeIff`, `HttpForms.LongUrl`, `HttpForms.EmptyPath`).
- The broker loop decodes each chunk by itself, so text outside ASCII survives only if no chunk starts inside a
  character (`BrokerLoop.ChunksDecodeIff`, `BrokerLoop.CutCharacter`).
- A limit below one byte is reported to sessions as no limit (`CandidateAdmission.CandidatesAdmittedIff`,
  `CandidateAdmission.HalfAByte`).
- The sandbox trims spaces where the command line strips all white space, and stops at 512 bytes (`NoProxy.AgreeIff`,
  `NoProxy.NoRoomLeft`, `NoProxy.TabInFront`).

`dafny verify dfyconfig.toml` checks the whole project.

## Model

| member | source | states |
|---|---|---|
| SlotTable.PutRefines | libbubble/scheduler.c:509-529 | Insert-or-update: it fails exactly when the key is new and every slot is taken; otherwise keys stay unique and the table is the old map with one key set |
| SlotTable.DeleteRefines | libbubble/scheduler.c:532-543 | Clearing a slot is removal from the map, and keys stay unique |
| SlotTable.ClearedRefines | libbubble/scheduler.c:342-348 | Clearing several slots removes exactly their keys |
| SlotTable.LongKeyUnique | libbubble/scheduler.c:100-109 | Keys stay unique after inserting a new key exactly when it fits its field or its cut form is not in the table |
| SlotTable.LongKeyTwice | libbubble/scheduler.c:560-593 | A key of 64 characters inserted twice stands in the table twice |
| SlotTable.MapSize | libbubble/scheduler.c:261-277 | No slot is free exactly when the map has as many keys as there are slots |
| SchedulerState.FindSlot | libbubble/scheduler.c:243-259 | The scan finds the slot of a key |
| SchedulerState.FindFreeSlot | libbubble/scheduler.c:261-277 | The scan finds the first free slot |
| SchedulerState.State.ConfigureLimits | libbubble/scheduler.c:308-321 | The effective limits after configuring: a positive limit as given, otherwise for RAM the hardware's but at least 1 GB, and for VRAM the hardware's |
| SchedulerState.State.CommittedGb | libbubble/scheduler.c:288-306 | The loop adds up what the active models hold |
| SchedulerState.State.HasCapacityFor | libbubble/scheduler.c:369-378 | The capacity test on the arrays |
| SchedulerState.State.FindLruIdleModel | libbubble/scheduler.c:350-367 | The idle model other than the requested one that comes before every other by last use and slot, or none if there is none |
| SchedulerState.State.EvictIdleUntilFits | libbubble/scheduler.c:380-389 | The loop ends and leaves exactly the models that `AfterEviction` leaves; it succeeds iff the request then fits |
| SchedulerState.State.AddQueueItem | libbubble/scheduler.c:391-414 | First free place, or place 0 when all are taken |
| SchedulerState.State.AdmitModelJob | libbubble/scheduler.c:426-494 | Verdict, memory state, reason and new models are those of `Admit`; a job is queued iff the request is refused |
| SchedulerState.State.RegisterAgent | libbubble/scheduler.c:496-530 | The whole new agent table |
| SchedulerState.State.DeregisterAgent | libbubble/scheduler.c:532-543 | The whole new agent table |
| SchedulerState.State.MarkModelLoaded | libbubble/scheduler.c:545-594 | The whole new model table, and failure iff the step fails |
| SchedulerState.State.MarkModelUnloaded | libbubble/scheduler.c:596-609 | The whole new model table; the count does not go below 0 |
| SchedulerState.State.EvictModel | libbubble/scheduler.c:611-622 | The whole new model table, whatever the reference count |
| Scheduler.IdleByAge | libbubble/scheduler.c:350-367 | Lists exactly the idle models other than the requested one, oldest first |
| Scheduler.EvictionSucceedsIff | libbubble/scheduler.c:380-389 | Room is made iff evicting every idle model would make it |
| Scheduler.EvictionIsMinimalAndOldestFirst | libbubble/scheduler.c:350-389 | Only idle models go, each before every idle one that stays; no shorter prefix would do; if the request does not fit, all have gone |
| Scheduler.RequestedIsSpared | libbubble/scheduler.c:350-389 | The model asked for is never evicted to make room for itself |
| Scheduler.AdmittedIff | libbubble/scheduler.c:323-478 | A model that is not loaded is admitted iff it fits the limits, with 92% (80% from niceness 10) of RAM and 90% of VRAM as the bounds for background jobs |
| Scheduler.LoadedIsLetIn | libbubble/scheduler.c:445-452 | A loaded model is let in whatever it asks for; only its last use changes, and the state reported is that of what is committed already |
| Scheduler.RefusedBecause | libbubble/scheduler.c:454-481 | Which of the four texts a refusal gives and which state is reported, in terms of what would be committed |
| Scheduler.DenialIsMonotoneInNiceness | libbubble/scheduler.c:454-478 | A denial at one niceness implies denial at every higher one, with the same evictions |
| Scheduler.VramReserveIff | libbubble/scheduler.c:465-478 | An admitted background job leaves 10% of VRAM free iff it asks for VRAM or the reserve was free before |
| Scheduler.VramReserveCanBeMissed | libbubble/scheduler.c:465-478 | A state in which it is not |
| Scheduler.AdmissionIsNotMonotoneInRam | libbubble/scheduler.c:380-389 | A request that is refused while a larger one is admitted |
| Scheduler.MarkLoadedRefines | libbubble/scheduler.c:560-594 | Loading is insert-or-increment on the map of loaded models |
| Scheduler.MarkUnloadedRefines | libbubble/scheduler.c:596-609 | Unloading decrements one model's count and touches its last use |
| Scheduler.AdmitRefines | libbubble/scheduler.c:426-494 | Admission changes the map only by touching a loaded model or by removing exactly the evicted ones |
| Scheduler.CommittedOnMap | libbubble/scheduler.c:288-306 | What the slots hold is the sum over the map of loaded models |
| Scheduler.RequestRefines | libbubble/scheduler.c:426-494 | On the map a request drops idle models only, the oldest first, as few as it takes (without the last one dropped there would be no room) or all of them, and the verdict follows from what is left |
| Scheduler.AgentRunRefines | libbubble/scheduler.c:496-543 | Over every run the 64 agent slots give the same contents and successes as a map bounded to 64 keys |
| Scheduler.ModelStepRefines | libbubble/scheduler.c:426-622 | Each model operation, verdict included, is the corresponding step on the map |
| Scheduler.ModelRunRefines | libbubble/scheduler.c:426-622 | The same over every run, with keys unique throughout |
| Scheduler.QueueAfterDenials | libbubble/scheduler.c:391-414 | What the queue holds after any number of denials: the first 64, and then always the latest in place 0 |
| LoadProtocol.StepConsistent | libbubble/scheduler.c:1188-1248 | Every step of every process keeps each record's amounts those its name always asks for |
| LoadRecords.LookUpReads | libbubble/scheduler.c:915-929 | A process takes pid and port from the record of its model if there is one, and starts a backend if there is none |
| LoadRecords.MarkRecords | libbubble/scheduler.c:545-594 | What marking writes: one user more, the pid and port of the process, and for a new record specialty, backend and amounts as asked for; every other record stays |
| LoadRecords.ReusedRecord | libbubble/scheduler.c:1207-1224 | A reused model is marked with the pid and port that its record had when they were read, whatever others do in between, as one user more |
| LoadRecords.SpawnedRecord | libbubble/scheduler.c:1226-1246 | A started model is marked with the pid and port of the backend started |
| LoadRecords.UnhealthyIsReplaced | libbubble/scheduler.c:1207-1224 | An unhealthy backend's record is gone before another is started |
| LoadRecords.RecordsWereSpawned | libbubble/scheduler.c:1188-1248 | In every interleaving pid and port of every record, and those a process is about to use, are those that some process started a backend of that name with |
| LoadProtocol.CommittedIsLoaded | libbubble/scheduler.c:288-306 | Committed memory is the sum over the loaded names |
| LoadProtocol.FreshAdmission | libbubble/scheduler.c:445-478 | An admission that lets a new name in fits the limit at that moment |
| LoadProtocol.StepWithinBound | libbubble/scheduler.c:1188-1248 | One step keeps the capacity bound |
| LoadProtocol.CapacityBound | libbubble/scheduler.c:369-478 | With N processes in any interleaving, the names loaded or on their way hold at most limit + (N-1) times the largest request, for RAM and for limited VRAM; with N = 1 at most the limit |
| LoadOvershoot.BoundIsReached | libbubble/scheduler.c:1188-1248 | For every limit, every largest request up to it, and every N that has a slot each besides the idle models filling up the rest, a run reaches that bound, so it is the least; for RAM and for VRAM |
| LoadOvershoot.LoadWithoutSlot | libbubble/scheduler.c:568-572 | A run in which a load finds no slot, and a chat is served by a model without a record |
| ModelUsers.StepKeepsCountIff | libbubble/scheduler.c:560-622 | From exact counts a step leaves exact counts iff it is not an eviction of a model in use or a load without a slot |
| ModelUsers.RunKeepsCountIff | libbubble/scheduler.c:1188-1248 | Over every interleaving counts equal the chats being served all along iff no step lost one |
| ModelUsers.AdmissionSparesModelsInUse | libbubble/scheduler.c:350-389 | While counts are exact, making room never removes a model in use |
| ModelUsers.LoadsMatchUnloads | libbubble/scheduler.c:1402-1411 | Each process has loaded as often as unloaded, plus one while it serves |
| ModelUsers.EvictionUnderUse | libbubble/scheduler.c:1207-1224 | A run in which a model disappears under a chat: a second process finds the backend unhealthy and evicts it |
| CText.TrimTrims | libbubble/access_policy.c:63-88 | Trimming leaves no space at the ends and nothing else changes |
| CText.TrimIsMiddle | libbubble/access_policy.c:63-88 | What trimming takes off is spaces at the two ends |
| AccessRules.NormalizeTwiceIff | libbubble/access_policy.c:63-88 | Normalising again changes nothing iff the cut does not end in a space |
| AccessRules.SpaceLeftByCut | libbubble/access_policy.c:63-88 | A kind for which it does |
| AccessRules.FindPolicy | libbubble/access_policy.c:753-777 | The first of the most specific matching rules, or none iff no rule matches |
| RuleMatching.ComparedAs | libbubble/access_policy.c:63-88 | Kind and subject are compared in lower case, method and path as they are |
| RuleMatching.WildcardMatches | libbubble/access_policy.c:725-736 | "*.s" matches its own text and what has something in front of ".s", and nothing else: neither s nor what merely ends in it |
| RuleMatching.PlainMatches | libbubble/access_policy.c:725-736 | "*" matches every subject, and what is no wildcard only itself |
| RuleMatching.WildcardRuling | libbubble/access_policy.c:725-777 | The ruling of one wildcard rule for every request |
| RuleMatching.OtherDomain | libbubble/access_policy.c:725-736 | A rule for "*.example.com" is one for "www.example.com", and none for "badexample.com" or "example.com" |
| RuleMatching.ClosestRuleDecides | libbubble/access_policy.c:753-777 | A rule decides iff it matches, none that matches fits more closely (an equal subject before an equal method before an equal path), and none in front of it as closely |
| RuleMatching.NoMoreRoom | libbubble/access_policy.c:796-841 | A new rule is refused iff there are 128, a new waiting request iff 128 wait |
| RuleMatching.IdIsBase33 | libbubble/access_policy.c:706-716 | A request's id is the base-33 number of its fields, a bar behind each, behind the seed, in 64 bits |
| RuleMatching.SameId | libbubble/access_policy.c:706-806 | Different requests with the same id, for all texts around a bar; both wait all the same |
| AccessRules.GrantSettles | libbubble/access_policy.c:816-849 | After a grant the request has that policy |
| AccessRules.GrantKeepsExactRules | libbubble/access_policy.c:816-849 | A grant leaves every other request that has its own rule as it was |
| AccessRules.GrantKeepsUnmatched | libbubble/access_policy.c:816-849 | A grant leaves every request it does not match as it was |
| AccessRules.RemovePendingRequests | libbubble/access_policy.c:779-794 | Exactly the waiting requests that the rule matches go |
| ManifestRoundTrip.MangleIff | libbubble/access_policy.c:331-362 | An escaped value reads back as itself iff it holds no control character |
| ManifestRoundTrip.ReadValue | libbubble/access_policy.c:331-362 | Reading a printed string gives its mangled text, cut to the buffer |
| ManifestRoundTrip.AfterQuoted | libbubble/access_policy.c:568-589 | The key search finds a key in a printed value iff the value is it or ends in a quote and it |
| ManifestRoundTrip.GetField | libbubble/access_policy.c:331-362 | Which field of an entry a key search reads, for every entry |
| ManifestReload.ScanQuoted | libbubble/access_policy.c:381-458 | Bracket counting passes over a printed string, whatever quotes, backslashes and brackets are in it |
| ManifestReload.ScanEntry | libbubble/access_policy.c:424-458 | The object scan ends at the end of a printed entry |
| ManifestReload.ReadPolicyBack | libbubble/access_policy.c:479-498 | What a printed policy entry reads back as, for every entry |
| ManifestReload.ReadPendingBack | libbubble/access_policy.c:500-518 | What a printed waiting entry reads back as, for every entry |
| ManifestReload.PoliciesReloaded | libbubble/access_policy.c:479-498 | What a printed list of policies reads back as, for every list |
| ManifestTheorems.RecoversIff | libbubble/access_policy.c:331-362 | Printed fields all come back iff each is in stored form, none holds a control character, and each key is read in its place |
| ManifestTheorems.PolicyRecoversIff | libbubble/access_policy.c:479-498 | So it is for every policy entry |
| ManifestTheorems.PendingRecoversIff | libbubble/access_policy.c:500-518 | And for every waiting entry, with its time |
| ManifestTheorems.PoliciesRoundTripIff | libbubble/access_policy.c:479-637 | The policies of a stored manifest come back, all and in order, iff each of them survives |
| ManifestPending.PendingFound | libbubble/access_policy.c:381-422 | The array found for the waiting list is that list, unless a policy value taken for its name stands before one with an opening bracket |
| ManifestTheorems.PendingRoundTripIff | libbubble/access_policy.c:500-637 | The waiting list comes back iff each entry survives, if it is found in its place |
| ManifestTheorems.OwnerFound | libbubble/access_policy.c:520-540 | The owner always reads back |
| ManifestTheorems.RoundTrip | libbubble/access_policy.c:520-637 | Loading what was printed gives the same manifest iff every entry survives, if the waiting list is found in its place |
| RunInstances.OutOfSight | libbubble/access_policy.c:381-422 | Manifests in which a value taken for the name of the waiting list stands before an opening bracket, and the list comes back iff it is empty, whether its entries survive or not |
| ManifestInstances.UnstableIsLost | libbubble/access_policy.c:63-88 | An entry whose normal form is not stable never comes back as it was |
| ManifestInstances.CutKindIsLost | libbubble/access_policy.c:63-88 | Such an entry |
| ManifestInstances.ControlIsLost | libbubble/access_policy.c:568-589 | No entry with one in its subject comes back as it was |
| ManifestInstances.KeyIsTaken | libbubble/access_policy.c:331-362 | A host called "path" makes the path read as the method |
| ManifestInstances.MissingFields | libbubble/access_policy.c:460-518 | What is read of an object that lacks a key: policy and id are then those that the last object dropped had left in the slot |
| ManifestTheorems.HarmlessPolicySurvives | libbubble/access_policy.c:568-589 | Values in normal form without control characters that neither are nor end in a quote and a key survive |
| ManifestTheorems.HarmlessPendingSurvives | libbubble/access_policy.c:568-637 | The same for waiting entries with the id the program gives them |
| ManifestTheorems.RequestIdHarmless | libbubble/access_policy.c:706-716 | A request id is never taken for a key and fits its field |
| ManifestScanner.Normalize | libbubble/access_policy.c:63-88 | The loops compute the normal form |
| ManifestScanner.GetStringAt | libbubble/access_policy.c:331-362 | Key search and copying into a buffer read the specified value |
| ManifestScanner.GetNumberAt | libbubble/access_policy.c:364-379 | The number behind a key |
| ManifestScanner.FindArrayAt | libbubble/access_policy.c:381-422 | The array behind a name and its extent |
| ManifestScanner.NextObjectAt | libbubble/access_policy.c:424-458 | The next object and its extent |
| ManifestScanner.ReadRequestAt | libbubble/access_policy.c:460-477 | The four fields of a request, normalised |
| AccessStore.ManifestBuffer.FindPolicy | libbubble/access_policy.c:753-777 | The loop returns the governing rule |
| AccessStore.ManifestBuffer.RemovePending | libbubble/access_policy.c:779-794 | In-place compaction keeps exactly the entries not matched, in order |
| AccessStore.ManifestBuffer.AddPending | libbubble/access_policy.c:796-810 | The whole new waiting list; refused iff the request is new and 128 wait |
| AccessStore.ManifestBuffer.SetPolicy | libbubble/access_policy.c:831-846 | The whole new rule list; refused iff there is no exact rule and 128 rules |
| AccessStore.ManifestBuffer.LoadPolicies | libbubble/access_policy.c:479-498 | The loop reads exactly the specified rules from any text |
| AccessStore.ManifestBuffer.LoadPending | libbubble/access_policy.c:500-518 | The loop reads exactly the specified waiting list from any text |
| AccessStore.ManifestBuffer.LoadFrom | libbubble/access_policy.c:520-540 | Loading, refused iff the file names another owner |
| AccessStore.ManifestToJson | libbubble/access_policy.c:602-637 | The bounded builder gives the printed text, or nothing iff it does not fit |
| AccessStore.Store.ApplyPolicy | libbubble/access_policy.c:816-849 | File and outcome after a grant, for every file |
| AccessStore.Store.Evaluate | libbubble/access_policy.c:864-912 | File and outcome after an evaluation, for every file |
| AccessStore.Store.NeedsPrompt | libbubble/access_policy.c:914-935 | A prompt is needed iff no rule governs the request or it says to ask |
| AccessRuns.HarmlessIsTame | libbubble/access_policy.c:816-912 | What an operation stores survives when its normal form is stable and its values are harmless |
| AccessRuns.StepStored | libbubble/access_policy.c:816-912 | Operations only ever store requests with a kind and a subject, and one of the three policies |
| AccessRuns.FailureChangesNothing | libbubble/access_policy.c:816-912 | Only a grant or a new waiting request changes the file, and an operation is invalid iff the file is another agent's, kind or subject is missing, or the policy is not one of three |
| AccessRuns.StepFileIsStepIff | libbubble/access_policy.c:816-912 | A step through the file has the outcome it has in memory, and leaves the same manifest iff that survives |
| AccessRuns.RunFileIsRunIff | libbubble/access_policy.c:816-912 | Over every run, with a save and a reload between the steps, file and memory agree all along iff every manifest of the run survives |
| AccessRuns.TameRunSurvives | libbubble/access_policy.c:816-912 | They do when what each operation stores survives |
| AccessRuns.LatestGrantGoverns | libbubble/access_policy.c:753-849 | After every run the last rule granted for exactly a request governs it |
| GrantRuns.HarmlessIsFirm | libbubble/access_policy.c:331-362 | A request is firm (each key of its entry is read at its own field) if its normal form is stable and its values are harmless |
| GrantRuns.SettledReadsAsItself | libbubble/access_policy.c:331-362 | An entry that has been read once and reads as a rule for a firm request is that rule: no other becomes one |
| GrantRuns.ExactPolicyReloads | libbubble/access_policy.c:479-498 | The first rule for exactly a firm request is still the first after a save and a reload, whatever the other entries come back as |
| FirmRequests.RereadIs | libbubble/access_policy.c:479-498 | What every rule reads back as: which value each of its five fields is read from, and what that value is read as |
| FirmRequests.FirmIff | libbubble/access_policy.c:331-362 | A request is firm iff it has a kind and a subject, its normal form is stable, no value holds a control character, and none is taken for the key of a field further back than the next one |
| ShieldedRuns.ShieldHides | libbubble/access_policy.c:381-422 | Behind one kind of rule the waiting list reads back as empty, whatever else the manifest holds |
| GrantConverse.NotFirmFails | libbubble/access_policy.c:816-912 | For every request with a kind and a subject that is not firm there is a run on the file after which what decides it is not what was last granted for exactly it |
| GrantConverse.FirmIffFollowsGrant | libbubble/access_policy.c:816-912 | In every run through the file, at every evaluation of a request, the last rule granted for exactly it decides, whatever else was granted or evaluated, iff the request is firm (or no rule can be granted for it) |
| RunInstances.CoincidenceMisleads | libbubble/access_policy.c:816-912 | A run in which a request is denied although the last rule granted for exactly it says "always" |
| OverlappingRuns.OverlapIsLine | libbubble/access_policy.c:639-703 | However operations overlap, the file is the one that the operations it goes back to leave one after the other |
| OverlappingRuns.NothingLostIff | libbubble/access_policy.c:816-912 | Those are all the operations that wrote the file iff no save stood between the reading and the writing of another |
| OverlappingRuns.OverlappingGrantDecides | libbubble/access_policy.c:816-912 | However operations overlap, an evaluation of a firm request is decided by the last exact grant among those that the file it read goes back to |
| OverlappingRuns.SecondSaveWins | libbubble/access_policy.c:639-703 | Of two operations that both read before either writes, the first to write leaves nothing |
| OverlappingRuns.GrantIsLost | libbubble/access_policy.c:816-849 | Any two grants for different requests that cross both succeed, and one of the rules is not on file |
| AccessRuns.StepKeepsWaitingList | libbubble/access_policy.c:779-900 | Every operation keeps the waiting list free of duplicates and of requests that a rule decides |
| AccessRuns.WaitingListIsExact | libbubble/access_policy.c:779-900 | After every run it holds exactly the undecided evaluations that no later grant matches |
| AccessRuns.WaitingFileIsExact | libbubble/access_policy.c:779-900 | The same of the file, if every manifest of the run survives |
| RunInstances.WaitsInVain | libbubble/access_policy.c:381-422 | For every request a run of one grant and its evaluation after which it waits in memory and not on file, so no condition on the request alone is enough |
| HttpRequest.PrintedPort | libbubble/http_proxy.c:139-151 | A printed number is accepted iff its low 32 bits are 1 to 65535, and then as those |
| HttpRequest.PortReadAs80 | libbubble/http_proxy.c:143-148 | 4294967376 is read as port 80 |
| HttpRequest.PortRoundTrip | libbubble/http_proxy.c:139-151 | Every port reads back from its decimal text |
| HttpRequest.HostPortRoundTrip | libbubble/http_proxy.c:90-152 | host:port comes apart again, the host in lower case and cut to its buffer |
| HttpRequest.BracketedRoundTrip | libbubble/http_proxy.c:90-152 | So does a bracketed host with a port, whatever colons it has, and without one it has the default port |
| HttpRequest.DefaultPort | libbubble/http_proxy.c:90-152 | The default port stands in for none, an empty one, or one behind several colons |
| HttpForms.NoHostName | libbubble/http_proxy.c:90-130 | No host in front of a port, in brackets or at all is an error |
| HttpForms.LongPortText | libbubble/http_proxy.c:139-142 | A port text of 16 characters or more is refused |
| HttpForms.SignedPort | libbubble/http_proxy.c:139-148 | A plus in front of a port changes nothing, and a minus counts from 2 to the 64 |
| HttpRequest.SplitIsUsable | libbubble/http_proxy.c:90-152 | Every successful split gives a port in range and a lower-case host that fits |
| HttpRequest.ParseIsUsable | libbubble/http_proxy.c:218-278 | So does every successful parse, and all its fields fit their buffers |
| HttpForms.AbsoluteParses | libbubble/http_proxy.c:154-177 | What a request in absolute form parses to, with a path or without |
| HttpForms.SchemeParses | libbubble/http_proxy.c:154-177 | What an absolute URL with either scheme, in any case, parses to |
| HttpForms.SchemePort | libbubble/http_proxy.c:83-88 | Without a port https has 443 and http 80 |
| HttpForms.ConnectParses | libbubble/http_proxy.c:241-260 | What a CONNECT request parses to: host and port of its authority, 443 without one, no path, and marked as such |
| HttpForms.ConnectIff | libbubble/http_proxy.c:241-277 | A request that parses is marked so iff its method is CONNECT in any case |
| HttpForms.OriginParses | libbubble/http_proxy.c:179-216 | What a request in origin form parses to, whatever lines surround Host and whatever white space its value: that in front is skipped, that behind becomes a part of it |
| HttpForms.NoHost | libbubble/http_proxy.c:262-275 | In origin form a request without a Host header is refused, whatever its other headers |
| HttpForms.OtherTarget | libbubble/http_proxy.c:204-277 | A target that is neither path nor URL is kept as it stands |
| HttpForms.NoRequest | libbubble/http_proxy.c:218-237 | A request without a line end, or with fewer than three words in its line, is refused |
| HttpForms.FormsAgreeIff | libbubble/http_proxy.c:154-278 | The two forms parse to the same method, host, port and path iff the URL fits its buffer and white space behind the Host value, if any, gets into neither host nor port; also when the absolute form leaves out the path "/" |
| HttpForms.BlankBehindAuthority | libbubble/http_proxy.c:90-152 | White space behind an authority that can be split changes its host or port iff a port is given (or its colon), or the host is neither in brackets nor cut to its buffer; one that cannot be split stays so |
| HttpForms.UrlsAgreeIff | libbubble/http_proxy.c:154-278 | They agree on the URL too iff the path is written out and there is no such white space, or the authority is refused in both |
| HttpForms.EmptyPath | libbubble/http_proxy.c:241-260 | The same request with two URLs |
| HttpForms.LongUrl | libbubble/http_proxy.c:204-216 | A URL that is cut in one form and refused in the other |
| HttpForms.TrailingBlank | libbubble/http_proxy.c:179-202 | A blank behind "h:80" has the request refused, and behind "h" it becomes a part of the host, where the absolute form is read as meant |
| HttpForms.QueryJoinsHost | libbubble/http_proxy.c:154-177 | A query directly behind the authority becomes a part of the host |
| HttpForms.FormsSucceed | libbubble/http_proxy.c:154-177 | With host and port given, that common result is a success with them |
| HttpParser.CopyToken | libbubble/http_proxy.c:24-34 | The buffer holds the token, cut and terminated |
| HttpParser.LowercaseAscii | libbubble/http_proxy.c:75-81 | The string in the buffer is lowered in place |
| HttpParser.FindHeader | libbubble/http_proxy.c:179-202 | The cursor loop finds the value of the first header line with the name |
| HttpParser.ParseUnsignedText | libbubble/http_proxy.c:139-148 | The number a port text stands for, in 64-bit arithmetic |
| HttpParser.SplitAuthority | libbubble/http_proxy.c:90-152 | Host in the buffer and port are those of `SplitHostPort`, and errors too |
| HttpParser.SplitRequestLine | libbubble/http_proxy.c:229-237 | The cursors delimit the words of the request line |
| HttpParser.ProxyRequest.ParseUrl | libbubble/http_proxy.c:154-177 | Host, port and path buffers of a URL |
| HttpParser.ProxyRequest.ParseOrigin | libbubble/http_proxy.c:262-277 | URL, host, port and path buffers of an origin-form request |
| HttpParser.ProxyRequest.Parse | libbubble/http_proxy.c:218-278 | All buffers after parsing, and every error, for every byte sequence |
| BrokerWire.StringRoundTrip | libbubble/http_proxy.c:401-460 | A written string is valid JSON and reads back as the text, for every text |
| BrokerWire.LineRoundTrip | libbubble/http_proxy.c:505-524 | A written request is one JSON object with exactly its fields in order |
| BrokerWire.LinePrintable | libbubble/http_proxy.c:401-472 | A written request holds no control character, so no newline |
| BrokerWire.Writer.AppendText | libbubble/http_proxy.c:390-399 | Appended iff it leaves room for the terminator; the offset stays inside the buffer |
| BrokerWire.Writer.AppendJsonString | libbubble/http_proxy.c:401-460 | The whole string is appended iff it fits; otherwise a part from its start, and the offset stays inside |
| BrokerWire.Writer.AppendJsonField | libbubble/http_proxy.c:462-472 | The same for a field with its name |
| BrokerWire.WritePayload | libbubble/http_proxy.c:513-524 | The same for a whole request with its newline |
| BrokerWire.AnswerLine | libbubble/http_proxy.c:474-503 | A line is read whole, without carriage returns, iff it leaves room for the terminator; what follows stays unread |
| BrokerWire.InterruptionsDoNotMatter | libbubble/http_proxy.c:482-485 | Interrupted reads change neither the answer nor what is left |
| BrokerWire.BrokerSocket.ReadBrokerResponse | libbubble/http_proxy.c:474-503 | The byte loop reads the specified answer and consumes exactly its bytes, errors included |
| BrokerWire.BrokerSocket.RequestBrokerDecision | libbubble/http_proxy.c:505-542 | Decision, bytes sent and bytes consumed, errors included |
| BrokerLoop.Utf8Concat | bubblehub/native.py:159-159 | Decodings of two texts join to the decoding of both |
| BrokerLoop.ChunksDecodeIff | bubblehub/native.py:159-159 | Chunks of a well-formed stream all decode iff none starts inside a character |
| BrokerLoop.CutCharacter | bubblehub/native.py:159-159 | A well-formed stream whose first chunk does not decode |
| BrokerLoop.Loop.Receive | bubblehub/native.py:156-174 | After a chunk, buffer, answers and calls are functions of all text so far |
| BrokerLoop.Loop.Answer | bubblehub/native.py:164-174 | The answer to one line |
| BrokerLoop.Loop.Run | bubblehub/native.py:150-174 | The same after any chunks; it goes on iff each decodes |
| BrokerLoop.RunWithAccessBroker | bubblehub/native.py:142-174 | Answers and calls depend on the text only, not on how it was cut |
| BrokerLoop.LinesSentBack | bubblehub/native.py:160-174 | One answer line per line that is not empty, in order |
| BrokerLoop.AnswersAre | bubblehub/native.py:160-174 | A line is answered "approve" iff it is an object and the callback says "always" to it, "ask" iff it says "ask", and otherwise, whatever goes wrong, "deny" |
| BrokerConversation.DictLooksUp | bubblehub/native.py:165-165 | The dictionary of an object's members gives each name its last value |
| BrokerConversation.RequestAsSent | libbubble/http_proxy.c:516-520 | The dictionary of a request is the request as sent |
| BrokerConversation.CallsAreRequests | bubblehub/native.py:164-168 | The callback is asked about exactly the requests the proxy sent, as dictionaries, in order |
| BrokerConversation.DecisionsFollowCallback | libbubble/http_proxy.c:526-542 | The k-th decision is APPROVE iff the callback answered the k-th request with "always" or "ask", and DENY otherwise |
| BrokerConversation.AnswerDecides | libbubble/http_proxy.c:531-542 | Which words the proxy takes for an approval, a denial or an error |
| BrokerConversation.AsciiChunks | bubblehub/native.py:156-159 | ASCII text decodes however it is cut |
| BrokerConversation.Converse | bubblehub/native.py:142-174 | End to end, for every cut of the bytes: calls are the requests, decisions follow the callback |
| ProxyVerdict.ForwardedIff | libbubble/http_proxy.c:572-615 | A request is forwarded iff it parses and its rule says "always", or it has none or one that says to ask and the broker approves |
| ProxyVerdict.PromptIff | libbubble/access_policy.c:914-935 | The rules leave a request open iff none matches or the one that decides says to ask |
| ProxyVerdict.RuleForwards | libbubble/http_proxy.c:381-388 | With one rule on file, which requests are forwarded: kind "http", the host as the subject, method and path as given or left open |
| ProxyVerdict.AskedIs | libbubble/http_proxy.c:505-530 | What the broker is sent: nothing about a request that a rule decides, and about another one object with agent, kind, host, method and path |
| ProxyVerdict.FirmIffForwardsByGrant | libbubble/http_proxy.c:572-615 | After every run of grants and evaluations, and with every broker, a request is forwarded as the last exact grant says ("never" is never forwarded, "ask" as the broker decides), iff it is firm (or has no host) |
| ProxyVerdict.SameVerdictIff | libbubble/http_proxy.c:572-615 | Two requests get the same verdict from every file and broker iff their parses differ in the URL at most or neither can be forwarded |
| ProxyVerdict.FormsGetTheSameVerdict | libbubble/http_proxy.c:572-615 | Both forms of a request get the same verdict from every file and broker, with the same file afterwards and all but the URL the same, iff the URL fits and white space behind the Host value gets into neither host nor port, or neither form can be forwarded at all |
| ProxyVerdict.HandleClient | libbubble/http_proxy.c:572-615 | The handler over parser, store and socket computes that verdict and file |
| ChatMessages.StripCleans | bubblehub/http_api.py:166-178 | Stripping leaves no white space at the ends and changes nothing that has none |
| ChatMessages.ContentToText | bubblehub/http_api.py:404-417 | Text of a content value: its parts that have any, one per line |
| ChatContent.PartIs | bubblehub/http_api.py:404-415 | The text of a part is its "text", or else its "input_text", or else its "output_text" |
| ChatContent.ContentIsLines | bubblehub/http_api.py:404-417 | The text of a list is that of its parts, one below the other, whatever parts without text are among them |
| ChatContent.ItemContributes | bubblehub/http_api.py:173-194 | What an item contributes, by its role and text: nothing without text, a tool's text under its name, any other text as it is |
| ChatContent.FailedIsDropped | bubblehub/http_api.py:181-182 | A failed turn of the assistant is dropped |
| ChatContent.OneTurn | bubblehub/http_api.py:166-195 | A history of one user turn in parts is one message with their lines, or the error if there is no text |
| ChatContent.OneString | bubblehub/http_api.py:170-174 | The same for a turn that is a plain text |
| ChatMessages.NormalizeMessageOrder | bubblehub/http_api.py:198-214 | Appending and editing the last message gives the runs of equal role from the first user message on, each joined |
| ChatMessages.NormalizeChatMessages | bubblehub/http_api.py:166-195 | The whole result, or the error |
| ChatMessages.MergeOne | bubblehub/http_api.py:210-213 | One more message joins the last run or starts a new one |
| ChatTheorems.ArrangedInRoleOrder | bubblehub/http_api.py:198-214 | At most one system message, in front, then user and assistant in strict alternation, the user first |
| ChatTheorems.TextIsKept | bubblehub/http_api.py:166-214 | Role by role the joined text of the result is the joined text kept from the input, of the assistant from the first user message on |
| ChatTheorems.UnchangedIff | bubblehub/http_api.py:166-214 | Messages that can be kept come out unchanged iff there are any and they are in role order |
| ChatTheorems.NormalizedTwice | bubblehub/http_api.py:166-214 | Normalising the result again changes nothing |
| ChatTheorems.NoMessagesIff | bubblehub/http_api.py:192-195 | The error is raised iff only assistant messages are kept |
| Registry.SortedSorts | bubblehub/engine/registry.py:148-149 | Sorting gives a stable permutation in order of the key |
| Registry.SortIsUnique | bubblehub/engine/registry.py:148-149 | There is only one such sequence, so any stable sort gives it |
| Registry.CandidatesAreSorted | bubblehub/engine/registry.py:107-149 | Candidates are exactly the models that pass all filters, by placement, tier and name |
| CandidateOrder.CandidatesInOrder | bubblehub/engine/registry.py:107-149 | The candidates are the models that meet every condition, each as often as listed, and of any two the first is on a GPU if the second is, vllm if that is, of a tier no later in the list (its last place, or 999), and of a name no greater |
| CandidateOrder.NameLeqIff | bubblehub/engine/registry.py:149-149 | Names are in dictionary order by character |
| CandidateOrder.GpuIsPreferred | bubblehub/engine/registry.py:182-187 | The model chosen is on a GPU if any that suits is, and vllm if any of those is |
| CandidateOrder.PinnedIs | bubblehub/engine/registry.py:151-171 | A pinned model, or the reason why it is refused |
| CandidateOrder.ConfiguredModel | bubblehub/engine/registry.py:28-46 | Where a configured model runs and which GPU backends it can use if none are named |
| Registry.BestCandidate | bubblehub/engine/registry.py:84-105 | The chosen model passes and has the least key; the error is raised iff none passes |
| CandidateAdmission.AdmittedWhenIdleIff | libbubble/scheduler.c:369-478 | With all loaded models idle, a new model is admitted in the foreground iff it fits the limits alone |
| CandidateAdmission.CandidatesAdmittedIff | bubblehub/engine/session.py:55-70 | With all loaded models idle, every candidate within the limits a session filters by is admitted iff those do not exceed the scheduler's |
| CandidateAdmission.ReportedLimitIff | bubblehub/engine/session.py:203-207 | A session's limit does not exceed the scheduler's iff at least one byte is reported or the hardware has no more |
| CandidateAdmission.CandidateIsAdmitted | bubblehub/engine/session.py:55-70 | So a candidate is admitted if each limit is reported in whole bytes or there is none |
| CandidateAdmission.TinyLimitsAreNotSeen | bubblehub/engine/session.py:203-207 | A limit below one byte, of RAM or of VRAM, is not seen, and then not every candidate is admitted |
| CandidateAdmission.HalfAByte | bubblehub/engine/session.py:203-207 | Both for half a byte |
| CommaLists.SplitConcat | bubblehub/cli/run.py:764-764 | Splitting two lists joined by a comma gives the fields of both |
| NoProxy.NoProxyHasEntry | libbubble/sandbox.c:720-746 | The scan finds an entry iff it is in the comma-split, space-trimmed list |
| NoProxy.Environment.AppendNoProxyEnv | libbubble/sandbox.c:748-762 | The whole new environment |
| NoProxy.Environment.ApplySandboxNoProxy | libbubble/sandbox.c:782-785 | Both variables after the four appends, and nothing else changed |
| NoProxy.AppendedEntries | libbubble/sandbox.c:748-762 | Earlier entries stay in order, the new one comes behind them once if there is room, and nothing changes if there is none |
| NoProxy.AppendedTwice | libbubble/sandbox.c:748-762 | Appending again changes nothing, with room or without |
| NoProxy.AgreeIff | bubblehub/cli/run.py:763-768 | For every value, sandbox and command line leave the same entries iff no entry begins or ends in white space other than spaces and both entries were there or had room |
| NoProxy.NoRoomLeft | libbubble/sandbox.c:757-761 | A value for which they differ for want of room |
| NoProxy.TabInFront | libbubble/sandbox.c:727-729 | A value for which they differ because of a tab |
| NoProxy.TextReadsBack | bubblehub/cli/run.py:763-768 | What the command line writes lists exactly its entries, for every value |

## Left out

- ManifestTheorems.PendingRoundTripIff: not for manifests in which a policy value taken for the name of the waiting list stands before a policy value with an opening bracket; the text read as an array then starts inside that value (`RunInstances.OutOfSight` says what happens for one kind of such values).
- ManifestTheorems.RoundTrip: under the same condition, which its waiting-list half needs.
- AccessRuns.RunFileIsRunIff: under the same condition.
- AccessRuns.StepFileIsStepIff: under the same condition.
- AccessRuns.WaitingFileIsExact: for runs whose manifests survive; otherwise the list on file can be wrong for every request (`RunInstances.WaitsInVain`) and can also happen to be right.
- OverlappingRuns.OverlappingGrantDecides: each process has one operation under way at a time and replaces the file in one step; the temporary files it writes first have a name of its own.
- HttpRequest.PrintedPort: for numbers of up to 15 digits; longer texts are refused by their length.
- BrokerConversation.Converse: for requests that fit the 1400-byte payload and are ASCII; a longer one is refused before anything is sent, and non-ASCII text depends on the cuts.
- HttpForms.FormsAgreeIff: for requests without blanks, line ends or NUL inside their words, and without a query directly behind the authority (`HttpForms.QueryJoinsHost`).
- LoadProtocol.CapacityBound: for names that fit their field and always ask for the same amounts; the scheduler does not check either.
- ManifestScanner.GetNumberAt: reads the digits a number starts with, which is all the printer writes; signs, fractions, exponents and hexadecimal numbers of a file written by hand are not modelled.
- AccessStore.ManifestBuffer.LoadPending: the same for the times of waiting entries.
- AccessStore.ManifestBuffer.LoadFrom: the same.
- Floating-point rounding: amounts are reals.
- The scheduler's state file, its lock, crashes of a process between two calls, and the exit of backend processes on eviction; spawning and health checks are choices of the environment.
- The request a serving process then sends to the port it has marked, and the model's answer.
- Commands for the scheduler's queue beyond adding an item, its snapshot JSON, and its own JSON field readers.
- Times are natural numbers.
- File system errors, ownership and durability of manifest files: a file is replaced as a whole or, when the text does not fit, not at all.
- The text encoding of manifests and HTTP requests: a character is a byte. JSON in the broker loop is read in full only for objects whose values are strings; anything else the reader accepts is covered by a parameter.
- Waiting in the broker loop for a chunk, the end of the child process, and exceptions from sending.
- Receiving at most 8191 bytes of a request, connecting to the upstream host and relaying bytes after a verdict.
- Numbers, dates and nested values in chat content are carried with the text str() makes of them, which is not computed; lower-casing is ASCII, which decides the same names and failure messages.
- Repository id, file name and GPU layers of a model, which selection does not look at, and loading the configuration files.
- Namespaces, mounts, seccomp, landlock, cgroups, hardware detection, downloads, user interfaces and installers.
