# Release control plane: a Dafny model

The repository is a control plane for configuration releases. Clients create configurations and
numbered versions, bundle versions into releases with a plan of waves, and move releases by HTTP;
a scheduler periodically advances what is listed. All state lives in in-memory repositories, and
every change is "read a copy, compute the next record, compare-and-set on the revision", guarded by
a monotone fencing token. Around that core stand a dependency graph, an audit hash chain, a cache
validator for evaluated configurations, a webhook dispatcher, rate limits, leases, schedule windows
and a health window.

The model follows that structure.

| module | what it models |
|---|---|
| `ReleaseDomain`, `ConfigDomain` | records, state machines, wave plans, names and index keys |
| `ReleaseRepository`, `ConfigRepository` | the two stores as classes, with their indexes and invariants |
| `Protocol` | the transition system: each repository call is one atomic step, each operation keeps its own stale copies, a run is any list of actions |
| `ProtocolTheorems` | what holds in every run of the protocol |
| `Drafting` | the checks a new version must pass |
| `Scheduling` | one scheduler pass as an exact relation, who is listed by it, and what any number of passes achieve |
| `Undisturbed` | each operation run without interference from any reachable world: the calls add up to what the operation promises, and the scheduler's calls to one pass |
| `Publishing` | what the completing scheduler publishes under every interleaving |
| `Stranding` | how a success can leave its versions unpublished, and for ever |
| `Witness` | runs from the empty store to the worlds these results speak of |
| `Service` | the application service as a class over the two stores, run by one caller at a time |
| `Targeting`, `Evaluation`, `ETag` | rule evaluation, the evaluation response and its entity tag over time |
| `Graph`, `Audit`, `Dispatcher`, `RateLimit`, `Leases`, `Windows`, `HealthWindow` | the remaining machines |
| `Common`, `Sorting`, `Text` | results, errors, sorting, string order, decimal numerals, unique splitting |

The interleaving model and the sequential service are connected twice: both are proved against the
same specification functions of the stores, and both the scheduler of the transition system, run
alone (`Undisturbed.SchedulerLeads`), and `Service.AdvanceReleases` make the pass `Scheduling.Ticked`
over the page they list. That relation fixes the new record of every release and of every version.

Time is an integer; a scheduler pass has one clock reading, an evaluation two for every version.
Floating-point numbers are reals and machine integers are unbounded. The HMAC, the audit digest and
the hash bucket are function parameters; where a result needs it, injectivity (and for the digest
non-emptiness) is an explicit hypothesis.

## Where the code and its documentation differ

- A renewed lease is written back under the version it was read with, which the store refuses, so a
  renewal without interference always fails (`Leases.Manager.Renew`); with interference it can only
  succeed after a delete (`Leases.RenewalNeedsADelete`).
- A release of a lease never takes another owner's lease away, in any run
  (`Leases.OtherOwnersCannotRevoke`). It takes a lease other than the holder's own away if and only if
  that one has the same owner and version, which needs a delete in between
  (`Leases.RevokesAnotherIff`); since a delete restarts the versions, this does happen
  (`Leases.OwnNewerLeaseCanBeRevoked`).
- `NextTransition` skips a started window whole and so misses its end; the announced instant is right
  if and only if that end is not the nearest change (`Windows.TransitionIsRightIffEndConsidered`).
- A scoped audit query verifies a filtered part of one global chain and reports an untouched log as
  invalid unless that part is a prefix (`Audit.ScopedChainVerifiesIffPrefix`).
- The experiment exclusion of the rule evaluator can never happen, since evaluation stops at its
  first match (`Targeting.Evaluate`).
- The health window counts samples from the cutoff on but takes latencies strictly after it. If every
  sample lies on the cutoff itself, the source indexes an empty list; the model returns a fault in
  exactly that case (`HealthWindow.Window.Evaluate`, `HealthWindow.NoLatenciesIffAllOnCutoff`,
  `HealthWindow.SampleOnCutoffIsNotTimed`).
- Only the first page of 200 is advanced. A release is on every possible page if and only if at most
  200 releases, itself included, are not younger, and on some page if and only if fewer than 200 are
  strictly older (`Scheduling.AlwaysListedIff`, `Scheduling.SometimesListedIff`). Under the first
  condition a pending, retrying or running release always succeeds on time, under the second it can,
  and without it never (`Scheduling.ReleaseSucceedsOnTime`, `Undisturbed.EveryReleaseCanSucceed`,
  `Scheduling.YoungReleasesAreNeverAdvanced`).
- A release may carry versions still under review; success does not publish these
  (`Scheduling.PublishedIffPublishable`).
- A success does not always publish. Under every interleaving of schedulers and handlers, a version that
  is rolling out when a scheduler enters the loop of the release it completed is published once it has
  left it (`Publishing.CompletedRolloutIsPublished`). For one that is scheduled then, the interleaving
  decides: two overlapping schedulers can publish it (`Stranding.OverlapCanPublish`) or leave it rolling
  out, after which no action of anybody can publish it (`Stranding.PublicationCanBeLost`). A completing
  turn that nobody interrupts publishes exactly what was rolling out or published before
  (`Stranding.SuccessPublishesWhatHasBegun`), so with one scheduler a client that resumes a pending
  release in its last wave makes it succeed with nothing published (`Stranding.ResumeSkipsTheRollout`).
- `CreateRelease` keeps the wave and the token its caller sent, so a release may start in its last
  wave or past its plan; a negative wave makes the health assessment index out of range
  (`Service.Service.CreateRelease`, `Service.NegativeWaveFaults`).
- The dependency check names nodes `id@number` while its edges are plain keys, so with valid keys it
  refuses only required self-references (`Drafting.DependencyCheckIsSelfCheck`).
- After `Close` all workers exit with one result per accepted event if and only if at most 64 of the
  accepted events stay unread (`Dispatcher.ShutdownIsComplete`); otherwise a worker stays blocked
  (`Dispatcher.UnreadResultsBlockShutdown`). `Close` itself waits for ever while nobody reads if and only
  if a sender holds the mutex before a full queue with every worker busy before full results
  (`Dispatcher.CloseGetsThroughIff`), which can happen (`Dispatcher.JamIsReachable`).
- Cancelling the context stops the workers without `Close` but leaves accepted events undelivered in the
  queue (`Dispatcher.CancelledRest`, `Dispatcher.CancellationCanLeaveEvents`).
- The rate limit holds for each bucket, not for each key: a caller that looked its bucket up before a
  reset still spends from it (`RateLimit.ForgottenBucketStillGrants`). A reset that finds nobody between
  lookup and spending is final (`RateLimit.DetachedIsNeverUsed`).

## Model

| member | source | states |
|---|---|---|
| `Protocol.CallKeeps` | internal/application/service.go:314-432 | Every repository call of every operation keeps the whole invariant (legal histories, idempotency index, publication only on success, no dangling references, gapless numbering, configuration index), only adds to what is stored, and leaves the operation with copies that are still sound |
| `Protocol.StepKeeps` | internal/transport/httpapi/server.go:207-308 | The same for every action of the system: a new configuration, a started operation, a resumed one; other operations' stale copies stay sound |
| `Protocol.Reachable` | internal/application/service.go:314-432 | The invariant holds in every world reached by any interleaving of any number of clients and schedulers |
| `Protocol.HandlersMayStart` | internal/transport/httpapi/server.go:207-308 | What every handler and the scheduler asks for is among the operations of the runs |
| `ProtocolTheorems.LaterExtendsEarlier` | internal/application/service.go:338-409 | Between any two times of a run, release histories only grow, configurations never change and versions keep their content |
| `ProtocolTheorems.AcceptedUpdateReplacesTheRecordRead` | internal/releasedomain/repository.go:58-70 | In every reachable world an update is accepted if and only if the stored record is, in all fields, the copy its caller read |
| `ProtocolTheorems.AcceptedVersionUpdateReplacesTheVersionRead` | internal/repository/memory.go:136-148 | The same for version updates |
| `ProtocolTheorems.StaleAdvanceIsRefused` | internal/application/service.go:388-395 | A wave advance computed from an old listing changes nothing when the release is no longer running |
| `ProtocolTheorems.HistoriesAreLegal` | internal/releasedomain/model.go:74-90 | Every release has a history that starts pending, steps only along legal edges under larger tokens or wave advances, numbers revisions 1, 2, ... and ends in the stored record |
| `ProtocolTheorems.RecordsOnlyMoveForward` | internal/application/service.go:338-432 | Of the records of a release at two times: plan, references and idempotency key agree, wave, token and revision never decrease, a changed state means a larger token, equal revisions mean equal records, rolled-back and cancelled records are final |
| `ProtocolTheorems.HistoryIsReal` | internal/releasedomain/repository.go:58-70 | Every history entry was the stored record of some earlier world of the run |
| `ProtocolTheorems.SucceededOnlyOnLastWave` | internal/application/service.go:359-409 | In every run a succeeded release has no wave after its current one |
| `ProtocolTheorems.PublishedOnlyAfterSuccess` | internal/application/service.go:396-405 | In every run a published version is referenced by a release that had succeeded on its last wave at an earlier time and has at most been rolled back since |
| `ProtocolTheorems.VersionNumbersHaveNoGaps` | internal/application/service.go:93-107 | However creations race, the stored version numbers of a configuration are exactly 1 up to n |
| `ProtocolTheorems.VersionsAreImmutable` | internal/repository/memory.go:100-148 | Stored versions never disappear, and their content and configuration never change |
| `ProtocolTheorems.ReferencedVersionsExist` | internal/application/service.go:323-332 | In every run each version a stored release references exists |
| `ProtocolTheorems.OneReleasePerIdempotencyKey` | internal/releasedomain/repository.go:26-46 | No two releases of a run share a non-empty idempotency key |
| `ReleaseDomain.ChronicleIsMonotone` | internal/releasedomain/model.go:78-90 | Along a history identity, plan and references are fixed, wave and token never decrease, and equal tokens mean equal states |
| `ReleaseDomain.TokensAreNeverReused` | internal/releasedomain/model.go:78-90 | Two state changes of one release never carry the same token, and later ones carry larger tokens |
| `ReleaseDomain.EveryStepIsLegal` | internal/releasedomain/model.go:74-90 | A stored step changes the state exactly when it raises the token, then along an edge of the state machine; otherwise it is one wave on while running |
| `ReleaseDomain.TerminalStatesAreFinal` | internal/releasedomain/model.go:74-77 | Nothing is ever stored after a rolled-back or cancelled record |
| `ReleaseDomain.SuccessIsOnlyRolledBack` | internal/releasedomain/model.go:74-77 | A success is the last record or is followed only by its rollback |
| `ReleaseDomain.AcceptedByTarget` | internal/releasedomain/model.go:74-90 | With a larger token a rollback is accepted if and only if the release is running, paused, succeeded or failed, a pause, a success and a failure if and only if it is running, a resume and a cancellation if and only if it is pending, paused or retrying, a retry if and only if it has failed; with any other token nothing is |
| `ReleaseDomain.CanIffAdmitted` | internal/releasedomain/model.go:74-77 | The edges by source state are the edges by target state |
| `ReleaseDomain.FailingIff` | internal/releasedomain/model.go:108-119 | The gate asks for a pause if and only if the failures exceed the wave's limit times the samples |
| `ReleaseDomain.NoFailuresNeverPause` | internal/releasedomain/model.go:58-119 | A valid plan never pauses on a gate without failures |
| `ReleaseDomain.Validate` | internal/releasedomain/model.go:58-73 | Accepts exactly the releases with id, scope, references and valid waves whose shares add up to 100 |
| `ReleaseDomain.ValidIffNoFault` | internal/releasedomain/model.go:31-73 | A release is valid if and only if nothing is missing, no wave has a fault, listed one by one, and the shares add up to 100 |
| `ReleaseDomain.WaveForPercent` | internal/releasedomain/model.go:91-100 | The loop computes the first wave whose cumulative share exceeds the percentile, else the last wave |
| `ReleaseDomain.WaveOwnsItsInterval` | internal/releasedomain/model.go:91-100 | A percentile maps to wave i if and only if it lies between that wave's cumulative bounds |
| `ReleaseDomain.WavesAreMonotone` | internal/releasedomain/model.go:91-100 | Larger percentiles never map to earlier waves, and the wave is in range |
| `ReleaseDomain.WavesPartitionPercentiles` | internal/releasedomain/model.go:58-100 | For any valid plan exactly `Percentage` of the percentiles 0..99 map to each wave |
| `ReleaseRepository.ArrangementIsComplete` | internal/releasedomain/repository.go:71-89 | An oldest-first arrangement of the right length without repeated ids holds every stored release |
| `Scheduling.ListingExists` | internal/releasedomain/repository.go:71-89 | Every store has a first page, so the results about listings are never empty |
| `ReleaseRepository.MemoryRepository.Create` | internal/releasedomain/repository.go:26-46 | A used idempotency key or id is a conflict that changes nothing; otherwise record and index entry are stored |
| `ReleaseRepository.MemoryRepository.Get` | internal/releasedomain/repository.go:47-57 | The stored record, or not found |
| `ReleaseRepository.MemoryRepository.Update` | internal/releasedomain/repository.go:58-70 | Replaces the record exactly when it exists under the expected revision; the error says which failed |
| `ReleaseRepository.MemoryRepository.List` | internal/releasedomain/repository.go:71-89 | The requested page of some complete oldest-first arrangement, with the total; ties may fall either way |
| `ReleaseRepository.PagesTile` | internal/releasedomain/repository.go:79-88 | The pages of a listing one after the other are the listing |
| `ConfigDomain.NamesHaveNoSeparators` | internal/configdomain/model.go:58-58 | Valid names contain none of the separators used in index keys, tag seeds and node names |
| `ConfigDomain.NameAlphabet` | internal/configdomain/model.go:58-58 | Where the alphabet of names begins and ends |
| `ConfigDomain.NameLengths` | internal/configdomain/model.go:58-58 | Names have 2 to 64 characters |
| `ConfigDomain.DescriptionLimit` | internal/configdomain/model.go:131-133 | Descriptions have up to 1024 characters |
| `ConfigDomain.IndexKeyLength` | internal/configdomain/model.go:49-58 | The index text of a valid configuration has 14 to 324 characters |
| `ConfigDomain.ValidIffNotBad` | internal/configdomain/model.go:206-218 | A rule is valid if and only if it has none of the faults, listed one by one |
| `ConfigDomain.VersionCanIffAdmitted` | internal/configdomain/model.go:176-179 | The edges between version states by source are those by target |
| `ConfigDomain.IndexKeyIsInjective` | internal/configdomain/model.go:49-51 | For valid configurations the index text is the same if and only if scope and key are |
| `ConfigRepository.ConflictIffTaken` | internal/repository/memory.go:40-53 | Creation conflicts if and only if the id or the scope with the key is taken by a stored configuration |
| `ConfigRepository.OneConfigPerKey` | internal/repository/memory.go:40-53 | Two stored configurations with the same scope and key are the same |
| `ConfigRepository.CreateKeepsIndex` | internal/repository/memory.go:40-53 | Creation of any configuration keeps the secondary index a bijection between configurations and index texts |
| `ConfigRepository.NextNumber` | internal/application/service.go:93-99 | Exceeds every stored number of the configuration and follows a stored one directly, or is 1 |
| `ConfigRepository.NumbersAreContiguous` | internal/repository/memory.go:100-114 | In a gapless store a number is stored if and only if it lies from 1 up to the next number, exclusive |
| `ConfigRepository.FreshNumber` | internal/application/service.go:93-99 | The next number is free and all smaller positive ones are taken |
| `ConfigRepository.Memory.Create` | internal/repository/memory.go:40-53 | Stores any configuration and its index entry together or refuses and changes nothing; keeps the index, and for a valid configuration also names, numbering and gaplessness |
| `ConfigRepository.Memory.Get` | internal/repository/memory.go:54-62 | The stored configuration, or not found |
| `ConfigRepository.Memory.PutVersion` | internal/repository/memory.go:100-114 | Inserts any number below an existing configuration and never over an existing one; a number that leaves no gap keeps the numbering gapless |
| `ConfigRepository.Memory.GetVersion` | internal/repository/memory.go:115-123 | The stored version, or not found |
| `ConfigRepository.Memory.ListVersions` | internal/repository/memory.go:124-135 | Exactly the versions of the configuration, by strictly ascending number |
| `ConfigRepository.Memory.UpdateVersion` | internal/repository/memory.go:136-148 | Replaces the version exactly when it exists under the expected revision |
| `ConfigRepository.Memory.Best` | internal/repository/memory.go:157-162 | In any map order, with number 0 as the sentinel, finds the highest published version, and none only if none is published |
| `ConfigRepository.NewestPublishedIsInForce` | internal/repository/memory.go:157-162 | A version that no stored one outnumbers is in force if and only if it is published |
| `ConfigRepository.OutnumberedIsNotInForce` | internal/repository/memory.go:157-162 | A published version with a larger number puts a smaller one out of force |
| `ConfigRepository.Memory.Published` | internal/repository/memory.go:149-171 | Exactly the highest published version of each unarchived configuration of the scope, by ascending configuration id |
| `Scheduling.RollingExtendsTick` | internal/application/service.go:370-406 | The version loop of one more listed release extends a partial pass exactly, also when releases share versions |
| `Scheduling.PassMovesOnlyReferenced` | internal/application/service.go:359-409 | The frame of a pass: a version no starting and no completing listed release references is unchanged; one leaves `Scheduled` if and only if a starting one references it, and a rolling-out one is published if and only if a completing one does |
| `Scheduling.AlwaysListedIff` | internal/application/service.go:359-364 | A release is on every possible first page if and only if at most 200 releases, itself included, are not younger |
| `Scheduling.SometimesListedIff` | internal/application/service.go:359-364 | A release is on some possible first page if and only if fewer than 200 releases are strictly older |
| `Scheduling.ScheduleHolds` | internal/application/service.go:359-409 | While passes list it, a release pending or retrying in wave c of w runs in wave c+k-1 after k passes and has succeeded after w-c+1, a running one a pass earlier, and one past its plan one pass after it runs |
| `Scheduling.ReferencedVersionsFollow` | internal/application/service.go:370-406 | A version it references that is rolling out, or scheduled with the release still to start, has begun its rollout after the first pass and is published at the success; one that is not scheduled, rolling out or published stays as it is |
| `Scheduling.ListedReleaseSucceedsOnTime` | internal/application/service.go:359-409 | A pending, retrying or running release that each pass lists, in whatever wave, succeeds at the pass it is due and no earlier, and the versions it references, shared or not, follow it |
| `Scheduling.PublishedIffPublishable` | internal/application/service.go:370-406 | If it was still to start, such a version is published by then if and only if it started out scheduled, rolling out or published |
| `Scheduling.ReleaseSucceedsOnTime` | internal/application/service.go:359-409 | The same for every run of passes when at most 200 releases, itself included, are not younger, however many are stored |
| `Scheduling.YoungReleasesAreNotListed` | internal/application/service.go:359-364 | A release with 200 strictly older ones is on no first page, however ties fall |
| `Scheduling.YoungReleasesAreNeverAdvanced` | internal/application/service.go:359-364 | No number of passes ever changes such a release |
| `Undisturbed.RollLeads` | internal/application/service.go:371-376 | The version loop's calls in a row move exactly the referenced versions in the source state, once each |
| `Undisturbed.AdvanceLeads` | internal/application/service.go:365-406 | The loop body's calls in a row start, advance or complete the release and move its versions accordingly |
| `Undisturbed.SchedulerLeads` | internal/application/service.go:359-409 | A scheduler's calls in a row end and make exactly the pass over the page it listed |
| `Undisturbed.TransitionLeads` | internal/application/service.go:338-358 | Without interference a transition is stored if and only if the token is larger and the release is in one of the states the target asks for, with state, token, time and reason as asked and nothing else changed |
| `Undisturbed.HandlersStoreByState` | internal/transport/httpapi/server.go:260-308 | In every reachable world, for each target a handler asks for, exactly the states from which an uninterrupted request under a fresh token is stored; otherwise nothing changes |
| `Undisturbed.RetryLeads` | internal/application/service.go:416-432 | Without interference exactly a failed release is moved to retrying, under the next token |
| `Undisturbed.HealthGateLeads` | internal/application/operations.go:265-285 | Without interference the gate pauses exactly a running release whose failure rate exceeds its wave's limit, under a fresh token, with the reason |
| `Undisturbed.VersionTransitionLeads` | internal/application/service.go:134-156 | Without interference a version moves if and only if the revision is the expected one and the version is in one of the states the target asks for |
| `Undisturbed.CreateVersionLeads` | internal/application/service.go:85-113 | Without interference a new version is stored if and only if its configuration exists and its value, rules and dependencies pass, under the first free number, all smaller ones being taken |
| `Undisturbed.CreateReleaseLeads` | internal/application/service.go:323-336 | Without interference a draft is stored, with its idempotency key, if and only if all its versions are scheduled or reviewing and neither id nor key is taken; nothing else changes |
| `Undisturbed.SoloIsRun` | internal/application/service.go:359-409 | Calls in a row are a run of the transition system in which nobody else moves |
| `Undisturbed.PassIsPossible` | internal/application/service.go:359-409 | From every reachable world, whatever stale operations are in flight and however ties are listed, a new scheduler can make exactly the pass over that listing |
| `Undisturbed.EveryReleaseCanSucceed` | internal/application/service.go:338-432 | No interleaving leads to a dead end: from every reachable world some continuation brings a release that is not rolled back or cancelled and has fewer than 200 strictly older ones to success, by passes alone but for a resume if it is paused and a retry if it has failed, and its versions follow it |
| `Publishing.CallPublishesOrKeeps` | internal/application/service.go:134-156 | With the targets handlers and schedulers ask for, no repository call takes a version that is rolling out or published anywhere but to `Published` |
| `Publishing.CallSettles` | internal/application/service.go:396-405 | Each call of a completing loop publishes the rolling-out version or leaves the loop still going to |
| `Publishing.CompletedRolloutIsPublished` | internal/application/service.go:396-405 | In every run of schedulers and handlers, a version rolling out or published when a scheduler enters the loop of a release it completed is published once it has left the loop, and stays so |
| `Stranding.SuccessPublishesWhatHasBegun` | internal/application/service.go:396-405 | A completing turn that nobody interrupts publishes a referenced version if and only if it was rolling out or published before |
| `Stranding.CallStrands` | internal/application/service.go:314-432 | No repository call of any operation publishes a version that is past scheduling, not published and referenced only by releases that are over, or lets a new release reference it |
| `Stranding.StrandedForEver` | internal/application/service.go:314-432 | Such a version is published at no later time of any run |
| `Stranding.OverlapStrands` | internal/application/service.go:359-409 | From every reachable quiet world with one release about to start in its last wave, two schedulers can overlap so that it succeeds and every scheduled version it references is left rolling out |
| `Stranding.OverlapCanPublish` | internal/application/service.go:359-409 | From the same worlds the two can also overlap so that those versions are published |
| `Stranding.ResumeSkipsTheRollout` | internal/transport/httpapi/server.go:263-265 | With one scheduler, a client's resume and one pass bring a pending release in its last wave to success while every scheduled version stays exactly as it was |
| `Stranding.OverlapLosesThePublication` | internal/application/service.go:359-409 | After that run the release has succeeded and the version is never published, whatever follows |
| `Stranding.PublicationCanBeLost` | internal/application/service.go:359-409 | Such a run exists from the empty store for every valid configuration, plain draft and one-wave release |
| `Witness.OneReleaseIsReachable` | internal/application/service.go:59-156 | Every valid configuration, plain draft and release with one reference can be brought from the empty store into a world where they are the only ones, the version scheduled and nobody in flight |
| `Service.Service.BuildGraph` | internal/application/service.go:115-123 | The loop builds the graph of all listed version nodes |
| `Service.Service.ValidateDependencies` | internal/application/service.go:114-133 | Refuses exactly when the version graph has a directed cycle or a required dependency names the configuration itself |
| `Drafting.DependencyCheckIsSelfCheck` | internal/application/service.go:114-133 | While the dependency keys of the configuration's versions contain no `@`, a version that passes the other checks is accepted if and only if it has no required self-reference |
| `Service.Service.NumberAfter` | internal/application/service.go:93-99 | The numbering loop yields the next number |
| `Drafting.AcceptableIffDraftAccepted` | internal/application/service.go:85-133 | The version made from a draft passes the checks if and only if the rules and dependencies the caller sent do |
| `Service.Service.PrepareVersion` | internal/application/service.go:85-103 | Refuses exactly for an unknown configuration, a bad value, a bad rule of the draft, a cycle through the draft's dependencies or a required dependency of the draft on the configuration itself, with the error of the first; otherwise yields a draft version of revision 1 with the draft's value, dependencies and expiry, its author, and its rules by descending priority with ties in list order; stores nothing |
| `Service.Service.CreateVersion` | internal/application/service.go:85-113 | Stores exactly that version under the first free number when the draft is accepted; otherwise changes nothing and names the failed check; keeps the store invariants |
| `Service.Service.TransitionVersion` | internal/application/service.go:134-156 | Replaces the version, changing state, time and revision only, exactly for an existing version, the expected revision and a state the target asks for; otherwise the error says which of the three failed |
| `Service.Service.TransitionRelease` | internal/application/service.go:338-358 | Stored exactly for a larger token and a state the target asks for, with the reason kept for pauses and rollbacks; otherwise the error says whether the release is missing |
| `Service.Service.RetryRelease` | internal/application/service.go:416-432 | Exactly a failed release is moved to retrying under its next token; otherwise nothing changes |
| `Service.Service.CheckReferences` | internal/application/service.go:323-331 | The error of the first reference that is missing or not releasable, if there is one |
| `Service.NoRefusalIffReleasable` | internal/application/service.go:323-331 | There is none if and only if every reference names a scheduled or reviewing version |
| `Service.FirstFailureDecides` | internal/application/service.go:323-331 | The first reference that fails decides the error: not found if the version is missing, a failed precondition otherwise |
| `Service.Service.CreateRelease` | internal/application/service.go:314-337 | Stores the draft as pending under the new id, and its idempotency key beside the old ones, exactly when it is valid, its versions are releasable and id and key are free; otherwise nothing changes and the error names the first failure; wave and token are the caller's |
| `Service.Service.AssessReleaseHealth` | internal/application/operations.go:235-260 | Refuses invalid gates, unknown releases and negative waves; otherwise reports state, wave, failed share, allowed rate and advice, and asks for a pause exactly when the running release exceeds its wave's limit |
| `Service.AssessmentMeans` | internal/application/operations.go:235-260 | Without division: the allowed rate is the wave's limit or 0 past the plan, and pause and advice follow from whether the failures exceed it times the samples and whether the release is running |
| `Service.NegativeWaveFaults` | internal/releasedomain/model.go:114-119 | A release with a negative wave can be created like any other, and every assessment of it faults |
| `Service.Service.ApplyHealthGate` | internal/application/operations.go:265-285 | Pauses exactly a running, failing release under a fresh token and returns it; a stale token is an error; a release that need not pause is returned as it is; nothing else changes |
| `Service.Service.Evaluate` | internal/application/service.go:244-275 | An invalid scope and a foreign subject are refused, each with its own error; otherwise lists by key exactly the unexpired, selected highest published versions with rule outcome and proof, whatever the clock shows at each of its readings, and tags them with the signed seed |
| `Service.Service.Collect` | internal/application/service.go:256-270 | The loop keeps items, seed and served rows in step |
| `Service.Service.RollVersions` | internal/application/service.go:371-376 | Moves exactly the referenced versions in the source state, once each even if referenced twice |
| `Service.Service.AdvanceReleases` | internal/application/service.go:359-409 | One call makes exactly the pass over the first page of 200 |
| `Service.Service.AdvanceOne` | internal/application/service.go:364-407 | One loop turn extends the pass by the next listed release |
| `Service.Service.Handle` | internal/application/service.go:365-406 | The switch starts, advances or completes the release as listed, moves its versions accordingly and leaves all other records alone |
| `Targeting.OrderIsStable` | internal/configdomain/model.go:219-223 | The order is a permutation of the rules, sorted by descending priority with ties in list order |
| `Targeting.SortRulesIsStable` | internal/configdomain/model.go:219-223 | The sorted rules are the given ones by descending priority with ties in list order |
| `Targeting.PassesIffQualifies` | internal/configdomain/targeting.go:35-80 | A rule passes if and only if it is enabled, its window holds the instant, the subject carries every required label and attribute, an empty one also by its absence, and the bucket of the first non-empty of hash attribute, device and tenant is below the percentage |
| `Targeting.ReasonsAreTrue` | internal/configdomain/targeting.go:35-80 | Each reason is given exactly when it is the first thing that is missing |
| `Targeting.ExplanationsNameTheirRule` | internal/configdomain/targeting.go:34-82 | An explanation names its rule and priority, matches if and only if the subject qualifies, and gives the bucket once the rule got that far |
| `Targeting.Judge` | internal/configdomain/targeting.go:34-81 | A rule in force whose experiment is taken is refused for that; every other rule gets the verdict of the chain of checks |
| `Targeting.Evaluate` | internal/configdomain/targeting.go:30-90 | Matches if and only if the subject qualifies for some rule, and then names one it qualifies for: the first passing rule of the order wins, exactly the rules up to it are explained, and no explanation ever names an excluded experiment |
| `Targeting.WinnerIsFirstPassing` | internal/configdomain/targeting.go:30-90 | A rule wins if and only if it passes and no rule of higher priority, or of equal priority and listed earlier, passes |
| `Targeting.RaisingAPercentageIsMonotone` | internal/configdomain/targeting.go:73-79 | Raising one rule's percentage never loses a match and moves the win at most to that rule |
| `Evaluation.ServeIsServedRows` | internal/application/service.go:256-270 | Filtering the published list gives exactly the served rows in order |
| `Evaluation.ServedIff` | internal/application/service.go:256-264 | A version is served if and only if its expiry, if any, lies ahead and the subject qualifies for one of its rules, if any |
| `Evaluation.RowsAreOfLiveConfigs` | internal/repository/memory.go:149-171 | The newest published version has a row if and only if its configuration is of the scope and not archived |
| `Evaluation.ProofsIdentify` | internal/application/service.go:267-267 | With an injective signature proofs are equal if and only if scope, key and version are |
| `Evaluation.SortedItemsAnswer` | internal/application/service.go:265-273 | Sorting the items by key answers for exactly the served rows, each with its own outcome and proof |
| `Evaluation.SeedIsInjective` | internal/application/service.go:269-272 | For valid keys and positive versions the `key:version;` seed determines the list of keys and versions |
| `Evaluation.EqualSeedsMeanEqualRows` | internal/application/service.go:269-272 | Where keys name one configuration and versions one value, seeds are equal if and only if the rows are |
| `Evaluation.EqualAnswersMeanEqualRows` | internal/application/service.go:265-272 | Answers list the same keys, versions and values if and only if they come from the same rows |
| `ETag.RowsAgreeOverTime` | internal/repository/memory.go:40-53 | At two times of a run the same key of a scope is the same configuration, and the same number the same value |
| `ETag.EqualTagsMeanEqualAnswers` | internal/application/service.go:244-275 | Two answers for a scope, at any two times of any run and for any selection of its published versions, hence for any subjects and clock readings, carry equal entity tags (section 8.8.3 of RFC 9110) if and only if they list the same keys, versions and values |
| `ETag.ServedArePublished` | internal/application/service.go:256-270 | What an evaluation serves to any subject at any readings of the clock is a selection of the scope's published versions |
| `ETag.RowsAreDetermined` | internal/repository/memory.go:149-171 | The served rows of a store do not depend on map order |
| `Graph.CycleSearch.Visit` | internal/configdomain/graph.go:36-52 | Keeps grey nodes as the current path and black nodes closed and cycle-free, and reports only real cycles |
| `Graph.CycleSearch.Search` | internal/configdomain/graph.go:53-61 | Visiting all keys in any map order finds a cycle if and only if there is one |
| `Graph.HasCycle` | internal/configdomain/graph.go:36-61 | True if and only if the graph has a directed cycle |
| `Graph.ClosureSearch.Visit` | internal/configdomain/graph.go:19-31 | Adds only nodes reachable from the root, without duplicates, and leaves every added node with all its successors seen |
| `Graph.Dependencies` | internal/configdomain/graph.go:19-35 | Exactly the nodes reachable by one or more edges, ascending without duplicates, also on cyclic graphs |
| `Graph.DependenciesChecked` | internal/configdomain/graph.go:65-70 | Fails exactly on cyclic graphs; otherwise the closure, which never contains the key itself |
| `Graph.AddedNodeHasItsKeys` | internal/configdomain/graph.go:11-18 | An added node points at exactly its dependency keys, required or not, and other nodes keep their edges |
| `Graph.VersionGraphShape` | internal/application/service.go:119-123 | Node names contain an `@`; edges point at the dependency keys of the versions |
| `Graph.NoCycleAmongVersionNodes` | internal/application/service.go:119-126 | While no dependency key contains an `@` the graph of version nodes has no cycle |
| `Graph.OwnNodeNameIsACycle` | internal/application/service.go:119-126 | The condition is needed: a dependency on the version's own node name is a cycle |
| `Audit.Verify` | internal/audit/model.go:66-77 | Accepts exactly the chains in which every hash is the digest of its record and of the hash before it |
| `Audit.AppendVerifies` | internal/repository/memory_audit_outbox.go:35-45 | Sealing a record onto a verifying chain keeps it verifying |
| `Audit.EveryLogVerifies` | internal/repository/memory_audit_outbox.go:35-45 | Every log that was only appended to verifies and keeps what was appended, linked to the hash before |
| `Audit.FinalHashFixesTheChain` | internal/audit/model.go:56-77 | With an injective, non-empty digest two verifying chains with the same final hash have the same length and agree on every sealed field |
| `Audit.ScopedChainVerifiesIffPrefix` | internal/application/operations.go:60-73 | The records of a scope of a genuine log verify on their own if and only if they are a prefix of the log |
| `Audit.GenuineLogCanBeReportedInvalid` | internal/application/operations.go:60-73 | Two records of different scopes form a genuine log whose second scope is reported invalid |
| `Audit.AdjacentWindowsPartition` | internal/audit/model.go:22-42 | Splitting a query at an instant loses and doubles no record |
| `Audit.FieldsMatchTheirOwn` | internal/audit/model.go:22-42 | Each field of a query alone matches exactly the records with that value in that field, the times from the start on and before the end |
| `Audit.QueryIsItsFields` | internal/audit/model.go:22-42 | A query matches exactly what each of its fields matches |
| `Audit.MatchesAreTheMatching` | internal/repository/memory_audit_outbox.go:59-71 | The listing holds every matching record as often as it was logged, and no other |
| `Audit.ScopeIsAQuery` | internal/application/operations.go:64-72 | Cutting the log down to a scope is the query for that scope |
| `Audit.PagesTile` | internal/repository/memory.go:75-86 | The pages of a listing one after the other are the listing |
| `Audit.AuditLog.Append` | internal/repository/memory_audit_outbox.go:35-45 | Appends the sealed record and keeps the log verifying |
| `Audit.AuditLog.ListFiltered` | internal/repository/memory_audit_outbox.go:59-71 | The requested page of the matching records in log order, with their number |
| `Audit.AuditLog.VerifyScope` | internal/application/operations.go:60-73 | The scope's records of the log verify or not; on a genuine log they do exactly when the query is unscoped or they are a prefix |
| `Audit.AuditLog.QueryAudit` | internal/application/operations.go:49-74 | Pages the matches of the log at its first read, with missing and excessive page sizes set to 50 and 500, and verifies the scope's part of the log at its second, whatever others appended in between; on a genuine log it is reported valid exactly when unscoped or a prefix |
| `Audit.Compact` | internal/application/operations.go:64-72 | The in-place filter leaves exactly the records of the scope, in order, at the front |
| `Dispatcher.StepConserves` | internal/notify/dispatcher.go:67-96 | Every step keeps, for each event, the accepted copies equal to those queued, held, reported or read |
| `Dispatcher.EveryRunIsSafe` | internal/notify/dispatcher.go:60-107 | In every interleaving no send hits a closed queue, no sender is left after `Close`, channels stay bounded, workers receive in order of acceptance, none leaves early, and events are conserved |
| `Dispatcher.ClosedStepsUseUpWork` | internal/notify/dispatcher.go:67-107 | After `Close` every step that happens lowers the remaining work |
| `Dispatcher.ShutdownTerminates` | internal/notify/dispatcher.go:67-107 | After `Close` no run makes more steps than the work that was left |
| `Dispatcher.RestIsCompleteIffFewUnread` | internal/notify/dispatcher.go:67-107 | A closed, uncancelled dispatcher at rest has let all workers exit with one result per accepted event if and only if at most 64 accepted events have not been read |
| `Dispatcher.ShutdownIsComplete` | internal/notify/dispatcher.go:60-115 | The same for every uncancelled run with at least one worker that comes to rest after `Close` |
| `Dispatcher.UnreadResultsBlockShutdown` | internal/notify/dispatcher.go:44-107 | With 65 events and unread results there is a run that rests with a worker blocked |
| `Dispatcher.CancelledRest` | internal/notify/dispatcher.go:67-86 | A cancelled run at rest, closed or not, has left in the queue exactly the last accepted events no worker received; all workers have exited if and only if at most 64 received events are unread, and then each received event has one result |
| `Dispatcher.CancellationTerminates` | internal/notify/dispatcher.go:67-107 | After cancellation, once producers have stopped, no run makes more steps than the work that was left |
| `Dispatcher.CancelReleasesWaiters` | internal/notify/dispatcher.go:69-72 | Cancelling lets every waiting worker exit without `Close` |
| `Dispatcher.CancellationCanLeaveEvents` | internal/notify/dispatcher.go:67-86 | A run in which an accepted event stays in the queue for ever |
| `Dispatcher.SendOnClosedPanics` | internal/notify/dispatcher.go:88-107 | A send on a closed queue would be noticed as a panic |
| `Dispatcher.CloseGetsThroughIff` | internal/notify/dispatcher.go:88-107 | In every uncancelled run with a worker, while nobody reads the results, `Close` can still get the mutex if and only if there is no jam: a sender before a full queue and every worker busy before full results |
| `Dispatcher.JamIsReachable` | internal/notify/dispatcher.go:44-107 | 130 events to one worker with none read lead to a jam |
| `RateLimit.Bucket.Allow` | internal/ratelimit/bucket.go:52-70 | Grants if and only if the request fits the capacity and the tokens left plus what flowed in, and leaves the smaller of capacity and that sum, less what was granted |
| `RateLimit.Bucket.Remaining` | internal/ratelimit/bucket.go:73-86 | The smaller of the capacity and the tokens left plus rate times the forward movement of the clock |
| `RateLimit.TokensStayInRange` | internal/ratelimit/bucket.go:52-70 | Through any calls and any clock the tokens stay between 0 and the capacity |
| `RateLimit.GrantedIffEnough` | internal/ratelimit/bucket.go:52-70 | A call is granted if and only if it fits the capacity and enough was left or has flowed in |
| `RateLimit.SpacedCallsAreGranted` | internal/ratelimit/bucket.go:52-70 | Calls at least 1/rate seconds apart are all granted |
| `RateLimit.FreshBucketGrantsItsBurst` | internal/ratelimit/bucket.go:29-44 | While the clock stands still a new bucket grants exactly its burst |
| `RateLimit.RunIsBounded` | internal/ratelimit/bucket.go:52-70 | What was granted plus what is left never exceeds what was there plus what flowed in |
| `RateLimit.GrantsAreLimited` | internal/ratelimit/bucket.go:52-70 | Between any two calls of a run grants are at most the burst plus the inflow |
| `RateLimit.InflowFollowsTheClock` | internal/ratelimit/bucket.go:52-70 | The inflow is the rate times the total forward movement of the clock |
| `RateLimit.GrantsFollowTheClock` | internal/ratelimit/bucket.go:52-70 | Between any two calls grants are at most burst + rate times the forward clock movement between them, even if the clock steps back |
| `RateLimit.KeysAreIndependent` | internal/ratelimit/registry.go:30-62 | The answers for a key are those of that key's calls and resets alone |
| `RateLimit.UnknownKeyIsServed` | internal/ratelimit/registry.go:30-62 | The first call for an unknown key is granted, and a reset makes the key unknown |
| `RateLimit.EveryBucketLives` | internal/ratelimit/registry.go:30-62 | Under every interleaving of lookups, spending and resets each bucket, in the index or forgotten, is in the state its own calls alone lead to from full, with the same grants |
| `RateLimit.BucketGrantsAreLimited` | internal/ratelimit/registry.go:30-62 | Under every such interleaving, between any two steps a bucket grants at most burst + rate times the forward clock movement over its own calls there |
| `RateLimit.LookupsShareOneBucket` | internal/ratelimit/registry.go:38-50 | Between two resets of a key all its lookups return the same bucket |
| `RateLimit.DetachedIsNeverUsed` | internal/ratelimit/registry.go:54-62 | A bucket out of the index that nobody holds is never used again |
| `RateLimit.ForgottenBucketStillGrants` | internal/ratelimit/registry.go:30-62 | A caller that looked its bucket up before a reset spends from it afterwards: with a burst of 1 two calls are granted at one instant |
| `RateLimit.Registry.BucketOf` | internal/ratelimit/registry.go:38-50 | The key's bucket, created full if there is none, and no other key's |
| `RateLimit.Registry.Allow` | internal/ratelimit/registry.go:30-50 | Without interference serves the key's own bucket, created full on first use, and changes no other key |
| `RateLimit.Registry.Reset` | internal/ratelimit/registry.go:54-62 | Forgets exactly that key and tells whether it was known |
| `Leases.VersionsOnlyRise` | internal/fencing/store.go:41-65 | In every interleaving, while a key is not deleted its version never goes down and equal versions are the same lease |
| `Leases.StoredVersionsIncrease` | internal/fencing/store.go:41-49 | Between deletes of a key stored versions strictly increase |
| `Leases.OneOfEqualClaimsIsStored` | internal/fencing/lease.go:25-35 | Of two claims with the same version at most one is stored |
| `Leases.SupersededHolderCannotDelete` | internal/fencing/store.go:53-65 | A superseded holder cannot remove the current lease |
| `Leases.RevokesAnotherIff` | internal/fencing/store.go:53-65 | In any run the holder of a stored lease takes another lease away if and only if that lease has the holder's owner and version, and then the key was deleted in between |
| `Leases.OwnNewerLeaseCanBeRevoked` | internal/fencing/store.go:41-65 | After a delete the versions restart, and an owner's late release takes its own newer, different lease away |
| `Leases.OtherOwnersCannotRevoke` | internal/fencing/lease.go:54-58 | In any run releases by other owners, under whatever version, never take an owner's lease away |
| `Leases.RenewalNeedsADelete` | internal/fencing/lease.go:38-52 | A renewal is accepted if and only if at its write the key is absent or has a smaller version than was read, and then it was deleted in between |
| `Leases.Store.Put` | internal/fencing/store.go:41-49 | Stores exactly a new key or a larger version |
| `Leases.Store.Delete` | internal/fencing/store.go:53-65 | Removes exactly the named version of the named owner; an absent key is no error |
| `Leases.Manager.Acquire` | internal/fencing/lease.go:25-35 | Without interference stores a lease one version above the one it replaces, or version 1 |
| `Leases.Manager.Renew` | internal/fencing/lease.go:38-52 | Without interference always stale, and the store is unchanged |
| `Leases.Manager.ExpireStale` | internal/fencing/lease.go:63-80 | Removes and reports exactly the listed expired leases, once each, and keeps all others |
| `Leases.ExpiredMembers` | internal/fencing/lease.go:63-80 | The reported keys are exactly the listed ones with an expired lease |
| `Windows.ActiveWindow` | internal/scheduler/window.go:40-47 | The first window active at the instant, if there is one |
| `Windows.AdjacentWindowsMeet` | internal/scheduler/window.go:24-35 | Windows that meet share no instant and leave none out |
| `Windows.ReversedWindowsAreInactive` | internal/scheduler/window.go:16-35 | An empty or reversed window is never active |
| `Windows.NextTransition` | internal/scheduler/window.go:52-70 | The earliest future bound of a window that has not started, if there is one |
| `Windows.TransitionIsRightIffEndConsidered` | internal/scheduler/window.go:40-70 | The active window is the same at every instant before the announced one, or for ever if none is announced, if and only if the active window is not a started one that ends before every announced bound |
| `Windows.NoStartedWindowMeansRight` | internal/scheduler/window.go:52-70 | In particular when no started window has a future end |
| `Windows.RunningWindowEndsUnannounced` | internal/scheduler/window.go:56-58 | A running window whose end is not announced |
| `HealthWindow.Window.Record` | internal/releasedomain/analytics.go:65-77 | Refuses unacceptable observations; otherwise shifts in place when full and appends |
| `HealthWindow.RefusedIff` | internal/releasedomain/analytics.go:40-51 | An observation is refused if and only if a name is blank, the latency negative or the time unset |
| `HealthWindow.WindowHoldsTheLatest` | internal/releasedomain/analytics.go:65-77 | After any calls the window holds exactly the last accepted observations up to its size, in order |
| `HealthWindow.Window.Evaluate` | internal/releasedomain/analytics.go:78-120 | Reports samples, failed share, reasons and p95, healthy exactly without reasons; it faults exactly when there are samples but all lie on the cutoff |
| `HealthWindow.Window.ReadP95` | internal/releasedomain/analytics.go:107-118 | The latency at rank floor(0.95 (m-1)) of the m sorted latencies strictly after the cutoff, or a fault without any |
| `HealthWindow.NoLatenciesIffAllOnCutoff` | internal/releasedomain/analytics.go:85-118 | There are no latencies if and only if every counted sample lies on the cutoff itself |
| `HealthWindow.SampleOnCutoffIsNotTimed` | internal/releasedomain/analytics.go:85-118 | Any acceptable observation alone in the window, with the cutoff on it, is counted but has no latency |
| `HealthWindow.SortedElementHasItsRank` | internal/releasedomain/analytics.go:110-118 | The element at index k of the sorted latencies has at most k smaller ones and more than k up to it |
| `HealthWindow.CountsAreCardinalities` | internal/releasedomain/analytics.go:85-118 | Samples, failures and latencies are the numbers of the release's observations between the bounds, the failed ones among them, and those strictly after the cutoff |
| `HealthWindow.LatenciesAreObserved` | internal/releasedomain/analytics.go:107-113 | The latencies are exactly those of the observations strictly after the cutoff |
| `HealthWindow.P95IndexIs` | internal/releasedomain/analytics.go:116-117 | The index read is the largest one that is at most 0.95 times the last |
| `HealthWindow.NoReasonsIff` | internal/releasedomain/analytics.go:95-105 | Nothing is held against a release if and only if it was observed and its failures do not exceed the threshold times the samples |
| `HealthWindow.LatenciesAreSamples` | internal/releasedomain/analytics.go:85-118 | Latencies and failures are never more than samples |

## Left out

- HTTP routing, JSON decoding, environment, logging and start-up: they only fix which operations exist; the protocol allows callers every transition except to `Succeeded` and `Published`, which is more than any handler asks for.
- SHA-256, HMAC, base64 and JSON encoding: function parameters with stated hypotheses, not computed.
- Floating-point rounding and 64-bit wrap-around: reals and unbounded integers.
- Audit records, change events and stream notifications written after each operation: the audit chain is modelled on its own; no operation reads the outbox or the streams, so no property here depends on them.
- `ConfigValue.Validate`, `AuditQuery.Validate`, `Diff`, `ValidateVersion`, import and export: they decode or compare values that the modelled operations only carry along.
- Metrics, expiry scan, exposure counters, signed tokens, namespaces, config listing and config update: no modelled operation calls them.
- Webhook transport and retry timing: a delivery with its retries is one step with an open outcome.
- Service.Service.CreateVersion: the outcome of the value's own check is an input, because its JSON rules are not modelled.
- Service.Service.CreateRelease: the generated id is an input.
- Service.Service.ApplyHealthGate: the text of the default reason is an input.
- Service.Service.AssessReleaseHealth: the observation time is not modelled.
- Protocol.CallKeeps: the configuration read of a version transition is merged with its version read, that of a version creation with its first listing, and the second release read of the health gate with its transition; none of them decides anything, since configurations never change.
- Undisturbed.SchedulerLeads: one clock reading serves the whole pass.
- RateLimit.Registry.Allow: runs lookup and spending together; their interleaving with other callers is stated over values, by BucketGrantsAreLimited and the results beside it.
- RateLimit.Bucket.Allow: the mutex is not modelled, each call being one step.
- Dispatcher.ShutdownIsComplete: the bounded channels and goroutines are one state machine over values, so scheduling fairness appears as the condition that the run has come to rest.
- Graph.CycleSearch.Visit: generic in the node type; the closures over local variables are methods of a search object.
