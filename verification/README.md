# Jumpstarter controller: a verified model

Jumpstarter leases test hardware. Exporters offer it, clients ask for it with leases, and a controller
assigns exporters to leases, starts and ends them, and tells each exporter whom it serves. An operator keeps
the Kubernetes objects of the routers in line with a specification, and the routers carry frames between the
two ends of a connection. This project models those parts in Dafny and proves what they promise over all
inputs and all runs.

| module | what it models |
|---|---|
| `LeaseTypes`, `LeaseTimes` | leases, exporters and policies; completing time fields and the expiry of a lease |
| `LabelSelectors`, `Identifiers` | translating selector requirements; resource identifiers |
| `Scheduling` | approval, in-place filters and sort over one backing array, the choice |
| `LeaseReconciler` | the three status phases of a lease reconcile, as methods on a lease object |
| `Verdicts` | what the phases promise in terms of exporters, policies and leases |
| `ClientRpc` | create, update and delete as edits of one lease |
| `ClusterModel` | the scheduler as a state machine over the shared store, and the theorems over runs |
| `RpcRuns`, `UpdateRaces` | time fields and scheduled starts over runs of RPCs whose patches come later than their reads |
| `LeaseController` | both reconcilers and the RPCs as code over the store, proved to be runs of that machine |
| `ServiceNames`, `RouterServices` | the operator's router deployments and services, with their cleanup loops |
| `Runs`, `Histories` | runs of a state machine given by its steps; histories and the share of each party |
| `ListenQueues` | the bounded queue of each lease between dialing clients and listening exporters |
| `RouterStreams` | stream pairing and the two pipes of a router connection |

Code that changes state step by step is written as methods on classes and arrays and proved equal to a
specification function or to steps of a state machine; the theorems are about those. Where others act while a
call waits, the method calls `Interference`, whose contract allows any events of the others.

Assumptions behind the theorems over runs:

- Lease reconciles are serial, as the controller is set up without concurrent workers, and the lists a
  reconcile reads contain all earlier status writes. They are read at one instant; the clock never goes back.
  `ClusterModel.StaleListDoubleAssigns` shows what happens with a stale list.
- Only the lease reconciler writes lease status and the ended label. A lease name may be given out again after
  a removal; what is said of one lease over time is said while its name is not. Exclusion needs no such
  condition, because both writes check the version.
- Both writes of a reconcile are checked against the version that was read. A stored write always gives a new
  version. The patch of an update or delete RPC is not checked, and others may act between its read and its
  patch. `ClientRpc.PatchSafeExactlyWhen` and `UpdateRaces.UpdateSafeExactlyWhen` say exactly which updates that
  cannot harm, and the theorems on time fields and scheduled starts are about runs with such patches.
- Of the library sort it is assumed that it rearranges, and that wherever the comparison puts some elements
  below all others these come first. Nothing is assumed about elements on which an overflowing comparison
  contradicts itself.
- Priorities, durations and time differences are signed 64-bit values: subtraction of priorities wraps,
  subtraction of times saturates. Instants are integers of nanoseconds.

Where the code and its own comments or messages disagree, the model follows the code:

- A requirement with `==`, `>` or `<` parses but is rejected as unsupported.
- Messages written after an in-place filter emptied its slice name no exporter.
- At the very instant of expiry a reconcile neither ends the lease nor asks to come back.
- Without endpoints no default router service is created.
- Forwarding ends when both pipes have ended, not on the first error.
- Priorities whose difference does not fit in 64 bits are ordered the wrong way round.

## Model

| member | source | states |
|---|---|---|
| `ClusterModel.MutualExclusion` | internal/controller/lease_controller.go:69-122 | In every reachable state, under any interleaving of serial reconciles, crashes between their steps, arbitrary specification edits, removals, names used again, changes of exporters and policies, and clock ticks, no exporter is named by two leases of a namespace that have not ended. |
| `ClusterModel.ComputedAlone` | internal/controller/lease_controller.go:254-305 | The heart of exclusion: the status a reconcile computes never names an exporter that another unended lease of the namespace holds, because such a lease carries no ended label and is therefore listed. |
| `ClusterModel.StepKeeps` | internal/controller/lease_controller.go:69-122 | Every step, of the reconciler or of anybody else, keeps the invariant: the ended label implies ended, statuses are coherent, holders are alone, and what was read still stands while the version is the same. |
| `ClusterModel.InvHolds` | internal/controller/lease_controller.go:69-122 | The invariant holds along every run. |
| `ClusterModel.WriteStatusKeeps` | internal/controller/lease_controller.go:93-95 | The version-checked status write keeps the invariant whatever happened since the lists were read. |
| `ClusterModel.WriteMetadataKeeps` | internal/controller/lease_controller.go:97-119 | The version-checked label and owner write keeps it too, written or refused. |
| `ClusterModel.ConditionConsistency` | internal/controller/lease_controller.go:132-179 | In every reachable state Ready is true exactly when an exporter is set and the lease has not ended, Unsatisfiable or Invalid implies ended without exporter or begin time, ended is the same as having an end time, and the label implies ended. |
| `ClusterModel.StatusIsWriteOnce` | internal/controller/lease_controller.go:126-182 | Over whole runs in which its name is not given out again, exporter, priority, begin and end time of a lease are written once, and an ended lease never changes again. |
| `ClusterModel.SpotNeverLeaks` | internal/controller/lease_controller.go:263-303 | No reachable lease has spot access, whatever the policies and their priorities. |
| `ClusterModel.EvictionUnreachable` | internal/controller/lease_controller.go:290-299 | The branch for evicting a lease under spot access is never taken in any reachable state. |
| `ClusterModel.ListOrderDoesNotMatter` | internal/controller/lease_controller.go:254-305 | In every reachable state any two lists of the stored objects lead to the same wait, refusal or assignment; to the same exporter when the priorities of the free offers can be subtracted, and to the same refusal in every detail when those of offers that get compared can. |
| `RpcRuns.ScheduledStartRespected` | internal/controller/lease_controller.go:198-211 | Over every run of reconciles and of RPCs whose patches leave the begin of an assigned lease, undisturbed or not, a lease that asks for a begin does not begin earlier, and from its assignment on neither begin moves. |
| `RpcRuns.StepOnSchedule` | internal/service/client/v1/client_service.go:229-237 | One step keeps a lease on schedule when every patch is safe for the begin. |
| `RpcRuns.PatchOnSchedule` | internal/service/client/v1/client_service.go:219-277 | A lease on schedule that is met by a patch stays so if and only if the edit leaves the begin, or the lease is not assigned, or it respected the new begin. |
| `RpcRuns.ScheduleSurvivesPatches` | internal/controller/lease_controller.go:198-211 | Over every run of reconciles and of RPCs with such patches a lease on schedule stays on schedule and its actual begin does not move. |
| `RpcRuns.UndisturbedRunsAreSafe` | internal/service/client/v1/client_service.go:199-280 | RPCs with nothing between read and patch always have such patches, for the time fields and for the begin. |
| `RpcRuns.FilledBeginOnSchedule` | internal/service/client/v1/client_service.go:240-273 | A begin that an update fills in on a started lease respects the schedule if and only if the requested end is no later than actual begin plus duration. |
| `RpcRuns.ScheduleBrokenByUpdate` | internal/service/client/v1/client_service.go:240-273 | A concrete update after which a running lease asks for a begin it did not respect. |
| `RpcRuns.ScheduleBrokenByRace` | internal/service/client/v1/client_service.go:211-277 | A concrete lease assigned between the read and the patch of an update that is not in time. |
| `UpdateRaces.RaceSafeExactlyWhen` | internal/service/client/v1/client_service.go:219-277 | For any update and any lease that got its exporter since the read, the patch keeps the schedule if and only if the update leaves the begin or asks for one no later than the actual begin. |
| `UpdateRaces.UpdateSafeExactlyWhen` | internal/service/client/v1/client_service.go:219-277 | In every reachable state, an update of a waiting lease is safe against every assignment between its read and its patch if and only if it leaves the begin or asks for one no later than the larger of the clock at the read and the stored begin, or the begin of an assignment in flight if that is sooner. |
| `UpdateRaces.NeverEarlier` | internal/controller/lease_controller.go:198-211 | Whatever happens meanwhile, a waiting lease that nobody edits begins no earlier than that instant. |
| `UpdateRaces.ThatEarly` | internal/controller/lease_controller.go:198-305 | There is a run in which a lease that can be matched at all begins at exactly that instant. |
| `UpdateRaces.InTimeIsScheduleStep` | internal/service/client/v1/client_service.go:275-277 | The patch of an update that was in time is one of the steps over which schedules survive. |
| `RpcRuns.TimesStayConsistent` | internal/service/client/v1/client_service.go:199-280 | Over any run of reconciles and of RPCs whose patches are safe for the time fields these keep agreeing; reconciles between the read and the patch of an update never matter. |
| `RpcRuns.DeadlineOverRuns` | internal/controller/lease_controller.go:143-161 | After any such run, a reconcile ends a running unreleased lease exactly when the clock is past start plus duration, and otherwise comes back after exactly the non-negative time left. |
| `ClusterModel.StaleListDoubleAssigns` | internal/controller/lease_controller.go:254-305 | Why the assumption on reads is needed: two leases reconciled against one stale list both get the only exporter. |
| `LeaseController.Reconcile` | internal/controller/lease_controller.go:69-122 | One reconcile with everybody else acting between any two of its steps is a run of the state machine whose own steps are exactly those its outcome tells, and keeps the invariant. It answers with the right delay for the lease it read: what is left of start plus duration for a running lease, of the time to the requested begin for a scheduled one, one second for a pending one, none for an ended one, and a positive one for any that has not ended but at the instant of its expiry. A conflict is answered by coming back at once, another failed write by an error with the delay; it fails exactly when selector, client or a policy selector cannot be read, and finds nothing only if the lease is gone. |
| `LeaseController.ComputeStatus` | internal/controller/lease_controller.go:80-91 | The three phases on the lease in memory are the compute step of the state machine, or fail when they cannot decide, on exactly the lists of that moment. |
| `LeaseController.RunPhases` | internal/controller/lease_controller.go:80-91 | The phases, each with its own look at a clock that never goes back, realise the decision and status functions the theorems are about, and an error leaves the status alone. |
| `LeaseController.StoreStatus` | internal/controller/lease_controller.go:93-95 | The first write, accepted only if the stored lease has not moved on. |
| `LeaseController.WriteLabels` | internal/controller/lease_controller.go:97-119 | The second write: a success means label and owner in the store agree with the status; a missing exporter, another owner or a lease that is gone is a refusal, a moved lease a conflict, and neither stores anything. |
| `LeaseController.ApiServer.UpdateStatus` | internal/controller/lease_controller.go:93-95 | Status subresource update, as the state machine step: refused if the lease is gone, a conflict if it has moved on. |
| `LeaseController.ApiServer.Update` | internal/controller/lease_controller.go:117-119 | Object update: refused if the lease is gone, a conflict if it has moved on, and both change nothing; a success replaces specification, label and owner and not the status. |
| `LeaseController.ReadLists` | internal/controller/lease_controller.go:390-417 | The lists a reconcile reads are exactly the exporters, policies and unlabelled leases of the namespace. |
| `LeaseController.ServedLeaseExact` | internal/controller/exporter_controller.go:125-134 | The loop points to the last listed lease that has not ended and holds the exporter, if and only if there is one. |
| `LeaseController.IndexAgreement` | internal/controller/exporter_controller.go:111-137 | In every reachable state and for every order of the list, the exporter points to a lease exactly when that is the one unended lease holding it. |
| `LeaseController.ExporterObject.ReconcileStatusLeaseRef` | internal/controller/exporter_controller.go:125-134 | The reset-and-overwrite loop ends with the last listed holder. |
| `LeaseController.ReconcileExporter` | internal/controller/exporter_controller.go:111-137 | Whatever others do between read, list and patch, the reference worked out names a lease exactly when that lease served the exporter in the listed state, and the patch writes it where it differs from what was read, and nothing else. |
| `LeaseController.UndisturbedIndexAgrees` | internal/controller/exporter_controller.go:111-137 | If nobody else writes the reference and the leases stay as listed, the stored index agrees with the stored leases afterwards. |
| `LeaseController.CreateLease` | internal/service/client/v1/client_service.go:166-197 | Succeeds exactly on translatable selectors, completable times and a free name; the stored lease has agreeing times, belongs to the caller and its selector matches the same label sets as the requested one; a failure stores nothing. |
| `LeaseController.UpdateStoredLease` | internal/service/client/v1/client_service.go:199-280 | Whatever others do between read and patch, an update patches the fields it changed onto the lease as it is by then, in one step, or fails with the first error of the update rules, or because the lease is gone, and stores nothing. |
| `LeaseController.UpdateIsTimesStep` | internal/service/client/v1/client_service.go:219-277 | Its patch is a step over which time fields stay consistent if the update changed none or all of them, or nobody else changed them since the read. |
| `LeaseController.UndisturbedUpdateIsRpc` | internal/service/client/v1/client_service.go:219-277 | An update nobody interferes with is one step of the runs by undisturbed RPCs. |
| `LeaseController.DeleteStoredLease` | internal/service/client/v1/client_service.go:282-311 | Only its client can mark a lease for release; whatever others do between read and patch, nothing but the mark changes. |
| `LeaseReconciler.ReconcileStatusExporterRef` | internal/controller/lease_controller.go:185-310 | The first phase realises a decision allowed by the scheduling rules for some permitted order of the entries, with its status and its requeue delay, and fails exactly when a selector or the client cannot be read. |
| `LeaseReconciler.SelectExporter` | internal/controller/lease_controller.go:242-261 | Offline filter, attaching and sorting on one backing array lead from the approved entries to a sort of the candidates; when nothing is online the message reads a cleared slot and names no exporter. |
| `LeaseReconciler.TakeFirst` | internal/controller/lease_controller.go:263-306 | From the ordered entries to the status, with the filter run on the same array, so that the message written after it emptied the slice reads a cleared slot and names no exporter. |
| `LeaseReconciler.ReconcileStatusBeginEndTimes` | internal/controller/lease_controller.go:169-182 | The second phase: begin time and Ready exactly when an exporter was just acquired. |
| `LeaseReconciler.ReconcileStatusEnded` | internal/controller/lease_controller.go:126-166 | The third phase with its three ways to end and its requeue delay. |
| `LeaseReconciler.ReconcileCoherent` | internal/controller/lease_controller.go:80-91 | One reconcile keeps a status coherent and only lets it evolve in the write-once way. |
| `LeaseReconciler.StatusTells` | internal/controller/lease_controller.go:133-163 | Invalid, Unsatisfiable and Pending each have the exact decisions that set them; a refused lease ended when the third phase looked at the clock, a released or expired one when its end was recorded, with its own reason. |
| `LeaseReconciler.EndedNeedsBeginTime` | internal/controller/lease_controller.go:173-179 | Ended is absorbing for one reconcile if and only if an exporter comes with a begin time. |
| `LeaseReconciler.EndsExactlyWhen` | internal/controller/lease_controller.go:133-163 | A reconcile ends a lease in exactly three cases: refusal, release, or a clock past the expiry. |
| `LeaseReconciler.DeadlineExact` | internal/controller/lease_controller.go:143-161 | For agreeing time fields the end comes exactly past start plus duration, and otherwise the delay is exactly what is left. |
| `LeaseReconciler.NeverForgotten` | internal/controller/lease_controller.go:156-161 | A lease that has not ended gets a positive delay, except at the very instant of its expiry. |
| `LeaseReconciler.NoDurationExpiresAtOnce` | internal/controller/lease_controller.go:144-158 | A lease stored without duration and end gets an exporter and loses it in the same reconcile. |
| `LeaseReconciler.BeginsAfterRequest` | internal/controller/lease_controller.go:198-211 | A scheduled lease never begins before its requested begin. |
| `LeaseReconciler.OnlyAssignmentAssigns` | internal/controller/lease_controller.go:301-305 | Exporter, priority and spot flag change by an assignment and by nothing else, to those chosen. |
| `LeaseReconciler.Lease.SetStatusCondition` | api/v1alpha1/lease_helpers.go:300-323 | Sets one condition and leaves the others and the rest of the status. |
| `LeaseReconciler.Lease.Release` | api/v1alpha1/lease_helpers.go:336-342 | Release ends the lease, clears Ready and sets the end time. |
| `LeaseReconciler.Lease.Expire` | api/v1alpha1/lease_helpers.go:344-350 | The same for expiry. |
| `Verdicts.ExactOutcome` | internal/controller/lease_controller.go:233-299 | Work conservation and the complete case split, in terms of exporters and policies and whatever the priorities: an exporter is assigned if and only if some offer is unleased and without spot access, and each refusal and wait has its exact condition. |
| `Verdicts.BestAssignedExactlyWhen` | internal/controller/lease_controller.go:443-466 | The best offer is sure to be assigned if and only if its priority can be subtracted, in 64 bits, from that of every other offer that is unleased and without spot access. |
| `Verdicts.OptimalAssignment` | internal/controller/lease_controller.go:290-305 | When the priorities of the offers that are unleased and without spot access can be subtracted, what is recorded is the name and priority of the best offer: no offer ranks before it. |
| `Verdicts.BestOfferWrittenOut` | internal/controller/lease_controller.go:434-465 | No offer that is unleased and without spot access has a higher priority than the best, or the same and an earlier name. |
| `Verdicts.OrderIndependent` | internal/controller/lease_controller.go:254-305 | Any two listings of the same objects, in any order, lead to the same decision despite the unstable sort, when the priorities of offers that get compared can be subtracted and no listed lease is under spot access. |
| `Verdicts.SameVerdict` | internal/controller/lease_controller.go:254-305 | Any two listings of the same objects lead to the same wait, refusal or assignment, whatever the priorities. |
| `Verdicts.SameAssignment` | internal/controller/lease_controller.go:254-305 | When one listing leads to an assignment and the priorities of the free offers can be subtracted, every listing of the same objects leads to that assignment. |
| `Verdicts.AssignedIsUnheld` | internal/controller/lease_controller.go:290-305 | Whatever the priorities, even when their difference overflows, no listed lease holds the assigned exporter. |
| `Verdicts.DelayIsRight` | internal/controller/lease_controller.go:126-310 | Every reconcile that gets as far as a status asks for the right delay, as listed at `LeaseController.Reconcile`. |
| `Verdicts.FailsExactlyWhen` | internal/controller/lease_controller.go:193-230 | A reconcile fails exactly when it looks for an exporter and the selector, the client or a policy selector it meets cannot be read. |
| `Verdicts.CandidatesExact` | internal/controller/lease_controller.go:228-260 | The entries that are sorted are exactly the online approved exporter and policy pairs, each with the last listed lease on it. |
| `Verdicts.ApprovedExact` | internal/controller/lease_controller.go:214-240 | The approved entries are exactly the exporters of the namespace that match the selector and that some policy, or the absence of any, allows. |
| `Verdicts.ApprovableWrittenOut` | internal/controller/lease_controller.go:347-385 | When a policy lets the client use an exporter, for each form a request for time can take. |
| `Scheduling.ApprovalsExact` | internal/controller/lease_controller.go:347-385 | The four nested loops yield precisely the pairs whose exporter selector, some client selector and duration limit all hold. |
| `Scheduling.ApprovedWrittenOut` | internal/controller/lease_controller.go:347-385 | With policies present, an entry is approved exactly when some access policy selects the exporter and lists the policy, some client selector of that matches, and its duration limit, if any, is not below the explicit duration, else the distance of begin and end, else nothing. |
| `Scheduling.LimitMeans` | internal/controller/lease_controller.go:361-375 | What the limit is held against, for each form a request for time can take. |
| `Scheduling.ShorterKeepsApproval` | internal/controller/lease_controller.go:361-375 | Asking for less time never loses an approved pair. |
| `Scheduling.AttachMatchingPolicies` | internal/controller/lease_controller.go:315-387 | The appending loops compute the approved entries, all exporters when there is no policy, and fail exactly when the client is missing or a selector they meet cannot be converted; `ApprovedWrittenOut` says which entries these are. |
| `Scheduling.AppendFrom` | internal/controller/lease_controller.go:355-381 | The innermost loop with its skip for too long requests, failing exactly when a client selector cannot be converted. |
| `Scheduling.AttachExistingLeases` | internal/controller/lease_controller.go:422-432 | Every entry of the slice gets the last listed lease holding its exporter, in place, and nothing behind the slice changes. |
| `Scheduling.LastHolderExact` | internal/controller/lease_controller.go:424-429 | A lease is attached if and only if a listed lease holds the exporter, and then the last such one. |
| `Scheduling.DeleteFunc` | internal/controller/lease_controller.go:474-510 | In-place deletion: the kept entries in order at the front, the freed slots of the slice cleared, the rest untouched. |
| `Scheduling.NotAfterTotalOrder` | internal/controller/lease_controller.go:434-438 | The documented order on entries is total, antisymmetric and transitive. |
| `Scheduling.StringCompareIsLexicographic` | internal/controller/lease_controller.go:464-465 | Names are compared as in a dictionary. |
| `Scheduling.CompareIsNotAfter` | internal/controller/lease_controller.go:443-466 | The comparator realises that order whenever priorities that it compares can be subtracted. |
| `Scheduling.PriorityOverflow` | internal/controller/lease_controller.go:460-462 | Between entries that priority alone separates it does so if and only if the difference fits in 64 bits. |
| `Scheduling.SortByCompare` | internal/controller/lease_controller.go:440-471 | With such priorities a sort by the comparator yields the documented order. |
| `Scheduling.SortKeepsClasses` | internal/controller/lease_controller.go:443-457 | Whatever the priorities, leased entries come after unleased ones, and within each those with spot access after those without. |
| `Scheduling.OptimalExactlyWhen` | internal/controller/lease_controller.go:459-468 | Every choice assigns the best free entry if and only if its priority can be subtracted from those of the other free entries. |
| `Scheduling.OverflowChoosesWorse` | internal/controller/lease_controller.go:459-462 | Of two free entries with priorities furthest apart the worse one is assigned, for sure. |
| `Scheduling.SortStep` | internal/controller/lease_controller.go:468-468 | Inserting one more element keeps apart whatever the comparison separates, even where it contradicts itself. |
| `Scheduling.OrderApprovedExporters` | internal/controller/lease_controller.go:440-471 | The in-place sort leaves a rearrangement of the slice in which whatever the comparator puts below everything else comes first. |
| `Scheduling.ExactVerdict` | internal/controller/lease_controller.go:263-305 | For any permitted order of the entries and any priorities, each of the four choices has its exact condition, and an assignment takes an entry free of lease and spot access. |
| `Scheduling.SpotOnlyNamesLeast` | internal/controller/lease_controller.go:263-268 | A refusal for spot access names an entry under spot access, the least of all with subtractable priorities, whether or not others are leased. |
| `Scheduling.AssignTakesFirst` | internal/controller/lease_controller.go:290-305 | An assignment always takes the first entry of the order, and that one is without spot access. |
| `Scheduling.ChoiceIsOrderIndependent` | internal/controller/lease_controller.go:261-305 | The choice depends only on which ranks are present, when priorities that get compared can be subtracted and no attached lease is under spot access. |
| `LeaseTimes.CompleteIsOnlyCompletion` | api/v1alpha1/lease_helpers.go:54-75 | Completion succeeds exactly on the time fields that have one single completion, and returns it. |
| `LeaseTimes.CompleteConsistent` | api/v1alpha1/lease_helpers.go:54-75 | A successful completion keeps what was given, and its duration is the true difference if and only if that fits in 64 bits. |
| `LeaseTimes.CompleteIdempotent` | api/v1alpha1/lease_helpers.go:54-75 | Completing twice changes nothing. |
| `LeaseTimes.CompleteFailsExactlyWhen` | api/v1alpha1/lease_helpers.go:55-73 | The exact condition of each of the three errors. |
| `LeaseTimes.SaturatedDuration` | api/v1alpha1/lease_helpers.go:57-61 | Concrete begin and end that are accepted with a duration that is not their difference. |
| `LeaseTimes.CompletedDeadline` | internal/controller/lease_controller.go:144-154 | For any completed fields the three-way expiry equals start plus duration if and only if the difference did not saturate. |
| `LeaseTimes.ExpirationIsDeadline` | internal/controller/lease_controller.go:144-154 | For agreeing fields the three cases of the expiry are one. |
| `LeaseTimes.TimeFields.ReconcileLeaseTimeFields` | api/v1alpha1/lease_helpers.go:54-75 | Overwriting the fields step by step computes the completion or reports its error. |
| `ClientRpc.UpdateLease` | internal/service/client/v1/client_service.go:215-273 | Success means that the caller owned the lease, that it now belongs to the existing client of its namespace that the request names, if it names one, and was running then, that selector and release are kept and the given time fields stored; each refusal has its exact condition. |
| `ClientRpc.EditLease` | internal/service/client/v1/client_service.go:215-273 | The step-by-step edit of the lease in memory yields the updated specification, or the first error in the order of the code. |
| `ClientRpc.UpdateAnswers` | internal/service/client/v1/client_service.go:215-273 | Every update is granted or refused with what that means written out. |
| `ClientRpc.AnswersExclusive` | internal/service/client/v1/client_service.go:215-273 | No request is both granted and refused, so the conditions of the refusals are exact. |
| `ClientRpc.LeaseFromProtobuf` | api/v1alpha1/lease_helpers.go:172-211 | Succeeds exactly when selector and times do; the stored selector matches the same label sets as the requested one. |
| `ClientRpc.DeleteLease` | internal/service/client/v1/client_service.go:298-304 | Release by the owner only. |
| `ClientRpc.UpdateConsistent` | internal/service/client/v1/client_service.go:270-273 | The time fields agree after every successful update, whatever they were before; a request with an end and nothing else is never successful. |
| `ClientRpc.UpdateKeepsBegin` | internal/service/client/v1/client_service.go:229-237 | An update never drops a requested begin and cannot move it once an exporter is assigned. |
| `ClientRpc.UpdateFillsBegin` | internal/service/client/v1/client_service.go:238-273 | On a started lease without begin and end an update fills in a begin exactly when it gives an end, and which. |
| `ClientRpc.MovedWindowExactlyWhen` | internal/service/client/v1/client_service.go:215-273 | The exact condition under which a request that moves begin and end without a duration succeeds; the window has to keep the length of a stored duration. |
| `ClientRpc.PatchesCommuteExactlyWhen` | internal/service/client/v1/client_service.go:219-277 | Two edits of one read, patched in either order, come to the same if and only if they agree on every field both change. |
| `ClientRpc.PatchSafeExactlyWhen` | internal/service/client/v1/client_service.go:219-277 | The patch of an update leaves agreeing time fields whatever agreeing fields it meets if and only if the update changed none of them or all three. |
| `ClientRpc.SafePatchConsistent` | internal/service/client/v1/client_service.go:219-277 | It also does when it meets the fields the update was made for, and then they become those of the update. |
| `ClientRpc.InterleavedUpdatesClash` | internal/service/client/v1/client_service.go:219-277 | Two concrete updates, each leaving agreeing time fields, whose patches together leave fields that contradict each other. |
| `LabelSelectors.ParseLabelSelector` | api/v1alpha1/lease_helpers.go:80-170 | Succeeds on exactly the translatable lists and preserves meaning: every label set matches the stored selector if and only if it matches the requirements; it is empty only for the empty list, can be converted back, and errors tell the truth. |
| `LabelSelectors.FlushNotEquals` | api/v1alpha1/lease_helpers.go:157-164 | The gathered != values mean the same whatever order the map is visited in. |
| `LabelSelectors.TranslateMeaning` | api/v1alpha1/lease_helpers.go:100-155 | The half-built translation matches exactly the label sets its requirements match. |
| `LabelSelectors.TranslateSucceeds` | api/v1alpha1/lease_helpers.go:100-155 | The translation succeeds if and only if every operator is supported, every != has one value and no two equalities conflict. |
| `LabelSelectors.TranslateStops` | api/v1alpha1/lease_helpers.go:100-155 | Returning at the first error gives the error of the whole list. |
| `LabelSelectors.ConflictMatchesNothing` | api/v1alpha1/lease_helpers.go:109-112 | The conflicting-equality error is raised only for lists no label set can match. |
| `Identifiers.ParseUnparsed` | internal/service/utils/identifier.go:36-75 | Parsing an unparsed key gives the key back if and only if namespace, kind and name are free of slashes. |
| `Identifiers.UnparseParsed` | internal/service/utils/identifier.go:36-75 | Every string that parses is the unparsed form of the key it parses to. |
| `Identifiers.ObjectIdentifierWrittenOut` | internal/service/utils/identifier.go:36-75 | The identifiers that parse, written out. |
| `Identifiers.ParseFailsExactlyWhen` | internal/service/utils/identifier.go:36-65 | What each parse error tells. |
| `Identifiers.NamespaceRoundTrip` | internal/service/utils/identifier.go:12-34 | Parsing an unparsed namespace gives it back if and only if it contains no slash. |
| `Identifiers.NamespaceUnparseParsed` | internal/service/utils/identifier.go:12-34 | Every string that parses as a namespace identifier is the unparsed form of that namespace. |
| `Identifiers.IdentifiersNeverConfused` | internal/service/utils/identifier.go:12-71 | No string is an identifier of a namespace and of an object, nor of objects of two kinds. |
| `Identifiers.JoinSplit` | internal/service/utils/identifier.go:13-13 | Splitting at slashes loses nothing and leaves slash-free pieces. |
| `ServiceNames.NameInjective` | deploy/operator/internal/controller/jumpstarter/jumpstarter_controller.go:1035-1043 | No two services of an instance share a name: neither another replica, nor another endpoint, nor another type. |
| `ServiceNames.DecimalWithoutLeadingZeros` | deploy/operator/internal/controller/jumpstarter/jumpstarter_controller.go:1036-1043 | Numbers in names have no leading zeros. |
| `ServiceNames.NamesOfInstancesDiffer` | deploy/operator/internal/controller/jumpstarter/jumpstarter_controller.go:1035-1043 | No two services of any two instances share a name, whatever the instances are called. |
| `ServiceNames.RouterNameInjective` | deploy/operator/internal/controller/jumpstarter/jumpstarter_controller.go:1086-1090 | Nor do two deployments. |
| `RouterServices.RunConverges` | deploy/operator/internal/controller/jumpstarter/jumpstarter_controller.go:347-403 | From an empty namespace, after each reconcile of any run of specifications with at most 100 replicas and 10 typed endpoints, the pairs that own a service are exactly those wanted last, despite the early stops, and the deployments are exactly those of the replicas wanted last. |
| `RouterServices.ConvergesIffWithinBounds` | deploy/operator/internal/controller/jumpstarter/jumpstarter_controller.go:1105-1198 | From any former rectangle one reconcile gives the wanted one if and only if what has to go lies within the bounds of the sweeps. |
| `RouterServices.ReachOfSweeps` | deploy/operator/internal/controller/jumpstarter/jumpstarter_controller.go:1115-1161 | Scaling both down converges if and only if there were at most a hundred replicas and ten endpoints. |
| `RouterServices.ReconciledExact` | deploy/operator/internal/controller/jumpstarter/jumpstarter_controller.go:1105-1198 | Without any bound: what owns a service afterwards is the wanted rectangle plus exactly what the sweeps cannot reach. |
| `RouterServices.SweepCompleteIffContiguous` | deploy/operator/internal/controller/jumpstarter/jumpstarter_controller.go:1115-1152 | The early stop leaves nothing behind if and only if the excess replicas that own services have no gap before them. |
| `RouterServices.SweepReplicasGap` | deploy/operator/internal/controller/jumpstarter/jumpstarter_controller.go:1115-1152 | Which services the replica sweep takes: up to the first replica without any, and nothing from there on. |
| `RouterServices.SweepEndpointsGap` | deploy/operator/internal/controller/jumpstarter/jumpstarter_controller.go:1160-1195 | The same for the endpoints of one replica. |
| `RouterServices.LiveServicesSurvive` | deploy/operator/internal/controller/jumpstarter/jumpstarter_controller.go:1105-1198 | Whatever was there before, every wanted service exists afterwards and selects the pods of its own replica, and no service of a wanted pair is deleted. |
| `RouterServices.ServicesByType` | deploy/operator/internal/controller/jumpstarter/endpoints/endpoints.go:249-280 | After a reconcile of any namespace each wanted endpoint has the services of exactly the types it enables, with their suffixes and types, besides what was there before. |
| `RouterServices.ServicesFromNothing` | deploy/operator/internal/controller/jumpstarter/endpoints/endpoints.go:249-280 | From an empty namespace it has exactly those. |
| `RouterServices.RunServicesByType` | deploy/operator/internal/controller/jumpstarter/endpoints/endpoints.go:249-280 | Over every run it has at least those. |
| `RouterServices.OtherInstancesUntouched` | deploy/operator/internal/controller/jumpstarter/jumpstarter_controller.go:1105-1198 | A reconcile touches no router service of another instance in the same namespace. |
| `RouterServices.ForeignServicesUntouched` | deploy/operator/internal/controller/jumpstarter/jumpstarter_controller.go:1105-1198 | A reconcile touches no service that is not named as one of its instance. |
| `RouterServices.InterruptedSweepLeaks` | deploy/operator/internal/controller/jumpstarter/jumpstarter_controller.go:1148-1151 | Scaled down from a rectangle by at least two replicas, a sweep stopped after the first excess replica leaves the services of the next behind a gap. |
| `RouterServices.StrandedForGood` | deploy/operator/internal/controller/jumpstarter/jumpstarter_controller.go:1115-1152 | Services behind a gap stay, however often the same number of replicas is reconciled. |
| `RouterServices.NoEndpointsNoServices` | deploy/operator/internal/controller/jumpstarter/jumpstarter_controller.go:376-394 | Without endpoints no service is created, although the comment in the code announces a default one. |
| `RouterServices.NoEndpointsKeepFirst` | deploy/operator/internal/controller/jumpstarter/jumpstarter_controller.go:1154-1158 | Without endpoints the services of the first endpoint of each wanted replica stay. |
| `RouterServices.CreateExact` | deploy/operator/internal/controller/jumpstarter/jumpstarter_controller.go:348-395 | The creation loops add exactly the services of enabled types of the wanted pairs, each for the pods of its replica. |
| `RouterServices.DeploymentsConverge` | deploy/operator/internal/controller/jumpstarter/jumpstarter_controller.go:1082-1100 | The deployments left by one reconcile are exactly those of the wanted replicas. |
| `RouterServices.Namespace.Reconcile` | deploy/operator/internal/controller/jumpstarter/jumpstarter_controller.go:133-157 | One error-free reconcile of defaults, deployments and services reaches the wanted rectangle and deployments. |
| `RouterServices.Namespace.ReconcileServices` | deploy/operator/internal/controller/jumpstarter/jumpstarter_controller.go:347-403 | The create and sweep loops compute the specified set of services. |
| `RouterServices.Namespace.CleanupExcessRouterServices` | deploy/operator/internal/controller/jumpstarter/jumpstarter_controller.go:1108-1198 | Both sweeps with their found-any flags and early stops compute the specified sweeps. |
| `RouterServices.Namespace.ReconcileRouterDeployment` | deploy/operator/internal/controller/jumpstarter/jumpstarter_controller.go:248-322 | Creates the wanted deployments and deletes the listed ones beyond them. |
| `RouterServices.Namespace.ReconcileRouterReplicaEndpoint` | deploy/operator/internal/controller/jumpstarter/endpoints/endpoints.go:209-283 | Creates a load balancer service with suffix -lb, a node port service with suffix -np and a cluster service without suffix exactly as the endpoint enables them, the last also for an ingress or route, and leaves the others as they were. |
| `RouterServices.JumpstarterSpec.ApplyEndpointDefaults` | deploy/operator/internal/controller/jumpstarter/endpoints/defaults.go:51-85 | With a base domain both endpoint lists become their defaulted form, in place or as a fresh list of one; without one nothing changes. |
| `RouterServices.WithType` | deploy/operator/internal/controller/jumpstarter/endpoints/defaults.go:28-46 | An endpoint with a type is left alone; one without gets exactly one, the first available of route, ingress and cluster service. |
| `RouterServices.DefaultedTyped` | deploy/operator/internal/controller/jumpstarter/endpoints/defaults.go:51-85 | After the defaults there is an endpoint and all have a type, endpoints that had one are unchanged, the default one has the default address, and defaulting twice changes nothing. |
| `ListenQueues.Conservation` | internal/service/controller_service.go:256-266 | Under any interleaving of dialers and listeners every accepted response is queued, sent, held, or lost on a failed send, by a listener of its own lease, and no two are in the same place. |
| `ListenQueues.FirstInFirstOut` | internal/service/controller_service.go:486-491 | Responses leave the one queue of a lease in the order they were accepted, and at most eight wait. |
| `ListenQueues.ListenerAccounts` | internal/service/controller_service.go:257-266 | What a listener sent, plus the at most one response it lost, is what it popped, in order. |
| `ListenQueues.StepKeeps` | internal/service/controller_service.go:256-266 | Every step of a dialer or listener keeps the accounts of all leases and listeners. |
| `ListenQueues.ControllerService.Dial` | internal/service/controller_service.go:486-491 | Whatever the others do meanwhile, success means that this call opened the channel and pushed its response, giving up that it only opened the channel; it gives up only when cancelled or when it found eight responses queued at every look. |
| `ListenQueues.ControllerService.Listen` | internal/service/controller_service.go:256-266 | Whatever the others do meanwhile, the loop pops the first response at every turn that is not cancelled and finds one, sends what it popped, in order, and fails exactly when the last pop was lost on a failed send; it stops early only when cancelled or failed. |
| `RouterStreams.TwoCallers` | internal/service/router_support.go:12-46 | With two calls of a name, in every interleaving of the two pipes, the frames sent to one side are a prefix of those received from the other, missing at most one, and all of them after a clean end. |
| `RouterStreams.PipesForward` | internal/service/router_support.go:12-30 | With any number of calls, pipes join exactly the calls of one name one of which was its first, and each has sent, in order and intact, what it received but for the frame it carries. |
| `RouterStreams.FirstStop` | internal/service/router_support.go:12-30 | How a pipe ends, and after which frames, by the first turn that is not a frame received and sent. |
| `RouterStreams.NoCrossing` | internal/service/router_service.go:100-104 | Every frame sent to a call was received from another call of the same name. |
| `RouterStreams.AloneMovesNothing` | internal/service/router_service.go:105-109 | A call alone with its name receives and sends nothing. |
| `RouterStreams.ReturnsAfterBothPipes` | internal/service/router_support.go:32-46 | The joining call returns only after both pipes have ended, not on the first error as the comment says, and the waiting one, unless its client left, only after such a call returned. |
| `RouterStreams.CleanReturnLosesNothing` | internal/service/router_support.go:32-46 | When both pipes end cleanly everything received on either side was sent to the other. |
| `RouterStreams.FirstCallStays` | internal/service/router_service.go:100-100 | The first call of a name stays stored over every run. |
| `RouterStreams.LaterCallJoinsFirst` | internal/service/router_service.go:100-104 | Whatever happened since, even when the first call of a name has returned, the next call of that name is joined with it. |
| `RouterStreams.ThirdCallerTakesFrames` | internal/service/router_service.go:100-104 | Of two frames received from the first call of a name the second goes to a third call, and what is sent to that is not a prefix of what was received. |
| `RouterStreams.PrefixExactlyForTwo` | internal/service/router_service.go:100-104 | In every run with a given set of calls of a name all ends are sent prefixes of what the other end received if and only if the calls are at most two. |
| `RouterStreams.StepKeeps` | internal/service/router_support.go:12-46 | Every step of a call, a pipe or a client keeps pairing, flow and the conditions for returning. |
| `RouterStreams.RouterService.RunPipe` | internal/service/router_support.go:12-30 | Whatever runs beside it, the loop hands on exactly the frames before the first turn that is not a frame received and sent; it ends cleanly if that is an end of stream and failed if it is an error or a failed send, and goes on without such a turn. On a clean end it has handed on all it ever received. |
| `RouterStreams.RouterService.Stream` | internal/service/router_service.go:100-109 | The first call of a name waits for its context, a later one joins the first, returns as soon as it finds both pipes ended, with an error unless both ended cleanly, and cancels the first. |

## Left out

- LeaseReconciler.ReconcileStatusExporterRef: failing list calls are not modelled, and which of the client and the policy selectors could not be read is one error; converting a selector checks operators and numbers of values, not the syntax of keys and values.
- Scheduling.SortFunc: an insertion sort stands in for the library sort; callers use only its contract, which is the assumption on the library.
- LeaseReconciler.Lease.SetStatusCondition: transition time, observed generation and the order of conditions are left out; of a message only the exporter it names is kept.
- RpcRuns.ScheduledStartRespected: starts from a state in which the lease asks for a begin; `RpcRuns.FilledBeginOnSchedule` says exactly when a begin that is filled in later is respected.
- LeaseController.Reconcile: a removed lease is removed at once, without finalizers; the reconcile is run by its caller, so retry and back-off are not modelled.
- RpcRuns.TimesStayConsistent: for runs whose patches are safe; for the others `ClientRpc.InterleavedUpdatesClash` is an example.
- Verdicts.OrderIndependent: assumes that priorities which get compared can be subtracted, since which exporter is chosen otherwise depends on the sort, and no listed lease under spot access, which `ClusterModel.SpotNeverLeaks` gives for reachable states.
- LeaseController.ReconcileExporter: only the lease reference; online, registered, credential and endpoint status are not modelled.
- LabelSelectors.ParseLabelSelector: starts from the parsed requirement list; the selector syntax itself belongs to a library.
- LeaseTimes.TimeFields.ReconcileLeaseTimeFields: truncation of stored times to whole seconds is not modelled.
- RouterServices.Namespace.ReconcileServices: error-free reconciles only; ports, node ports, per-replica addresses, annotations and labels of services are left out, and so are services of the controller itself.
- RouterServices.LiveServicesSurvive: services of a type that a wanted endpoint no longer enables stay, as in the code; ingresses and routes are not modelled.
- ListenQueues.ControllerService.Dial: choosing the router, signing the token and the checks before the push are left out; queues are keyed by lease name alone, as in the code.
- ListenQueues.ControllerService.Listen: the check that the exporter holds the lease is left out.
- RouterStreams.TwoCallers: a frame is its payload and type; authentication, keep-alive and transport limits are left out, and a receive or send may succeed or fail at any time.
- `RequestLease` and `ReleaseLease` have no member of their own: in the exclusion theorems they are creations and edits like any other, and a lease they create without a duration is covered by `LeaseReconciler.NoDurationExpiresAtOnce`.
- The effective duration shown to clients, listing and paging, watches, metrics, RBAC objects, deployment templates, configuration loading, tokens and authentication carry no property worth stating or belong to libraries.
- Liveness (that a waiting lease is served in the end) is not stated: nothing in the code orders competing leases.
