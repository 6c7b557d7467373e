# Verified model of a Kubernetes load-balancer controller and its HAProxy dataplane

The repository watches Services of type LoadBalancer, gives each one an address from a fixed pool,
finds its backends in EndpointSlices, and has a dataplane bind the address: HAProxy is configured
through a generated file, and the address is attached to a host interface. This project models that
logic and proves what holds over whole runs of it.

How the pieces are stated:

- Code that changes state is a class (`Store`, `Applier`, `Manager`, `DataplaneEngine`, `Provider`,
  `ServiceReconciler`) or a method with loops. Each is proved equal to a function of the old state;
  the lemmas are about those functions.
- Every external call (list, add, delete, read, write, validate, rename, directory sync, reload, API
  calls, provider calls) can fail. What fails is an argument: a fault schedule that the lemmas
  quantify over. A failed address change, a failed API write and a failed provider call may have
  taken effect or not.
- The engine records every intermediate world (store, file, interface) of a transaction. Safety is
  stated about all of them, over any number of operations.
- The controller is a machine with one API or provider call per step. Between any two steps the rest
  of the cluster may change, the worker may crash, and reconciles start in any order.

Where to look first: `EngineRuns` (make before break exactly, coverage, files, self-healing),
`EngineExact` (what each transaction leaves, from its inputs alone), `EngineFrame` (what is touched on
the interface), `ControllerSafety` (no orphans, unique and stable addresses), `Convergence` and
`ConflictResolution`, `ControllerFrame` (what the controller leaves alone), `EndToEnd`, `Routing` and
`Serving` (both machines together, from the offered endpoints to the servers in the file), `ConfigParser`
(the generated text can be read back), `Golden` (whole texts word for word), `LocalProvider` (two
implementations agree), `Identifiers`.

Where the code does less than one might expect, the model follows the code. Each such property has its
exact condition, stated about what holds before the call and which calls fail, and an input at which it
fails:

| expected | exactly when | input |
|---|---|---|
| HAProxy runs what the config path holds | `OutOfSyncIff`, `LostReload`, `ReloadIsNotRetried` | `FailedReloadLosesSync` |
| every bound address stays attached | `MakeBeforeBreakIff`, `UncoversIff`, `PostRenameBreaksIff` | `FailedReloadUncovers` |
| a Delete without error leaves no stale address | `DeleteHealsIff`, `FailedDeleteLeavesStale`, `NoRetryRepairs` | `StuckDelete` |
| only addresses the engine attached are detached | `ManagedPrefixKeptIff`, `OtherPrefixesNeverTouched` | `ForeignAddressRemoved` |
| a restart keeps the addresses of all Services | `RestartForgetsOthers` | `RestartDetaches` |
| a Service has one normal form | `NormalFormUniqueIff` | `TiedPortsHaveTwoForms` |
| finalizers of others are never removed | `ForeignFinalizerLostIff`, `ReconcileLeavesAlone` | `LateFinalizerLost` |
| section names tell Services apart | `NamesInjectiveIff` | `HyphenCollides` (hyphens are allowed by section 2.1 of RFC 1123) |
| both providers treat an absent Delete alike | `AbsentDeleteAgreesIff` | `AbsentDeleteReapplies` |

## Model

Rows marked as supporting facts are steps that the other results rest on.

| member | source | states |
|---|---|---|
| `EngineRuns.MakeBeforeBreak` | internal/dataplane/engine.go:157-207 | In every run of a bootstrapped engine without post-rename failures, whatever else fails, every address bound by the config file is attached at every intermediate step |
| `EngineRuns.MakeBeforeBreakIff` | internal/dataplane/engine.go:157-223 | Over every run of a bootstrapped engine with any failures: every bound address is attached at every step exactly when no operation fails past the rename while a bound address was missing, was added without an error and is rolled back |
| `EngineRuns.CoverageAlways` | internal/dataplane/engine.go:170-223 | In every reachable state, all failures included, every address of a stored Service is attached |
| `EngineRuns.FileIsRendering` | internal/dataplane/apply.go:89-129 | After every run of a bootstrapped engine without post-rename failures, whatever else failed, the file is the rendering of the store |
| `EngineRuns.OperationKeepsFile` | internal/dataplane/engine.go:157-207 | In between, the file is the rendering of the old or of the planned store |
| `EngineRuns.StoresAlwaysOk` | internal/dataplane/engine.go:101-119 | In every reachable state, all failures included, the store holds canonical, valid Services |
| `EngineRuns.SuccessHeals` | internal/dataplane/engine.go:101-139 | When Ensure, or Delete of a stored Service, returns no error, the managed attached set equals the stored Services' addresses and the file equals the rendering of the store, whatever failed earlier |
| `EngineRuns.SuccessHealsAnyRun` | internal/dataplane/engine.go:101-139 | The same after any run from an empty store with any failures |
| `EngineRuns.SucceedsIff` | internal/dataplane/engine.go:157-207 | An operation returns no error exactly when it has nothing to do or its list, missing attaches, apply and stale detaches all work |
| `EngineRuns.StoredIsRouted` | internal/dataplane/render.go:47-107 | A file that is the rendering of a store has, for every port of every stored Service, the frontend that binds its address and leads to its backends |
| `EngineRuns.OperationIsAtomic` | internal/dataplane/engine.go:157-207 | Throughout an operation the store is the old one or the planned one, and in the end the planned one exactly when no error or a detach error is returned |
| `EngineRuns.PlanSound` | internal/dataplane/engine.go:157-168 | For a store of valid canonical Services the desired addresses can be computed, rendering succeeds, and the text binds only desired addresses |
| `EngineSafety.ReconcileGuarantee` | internal/dataplane/engine.go:157-207 | Every world a transaction passes through either has the old store and loses no attached address or has the new store and file with everything wanted attached; and which of the two it ends in, per error |
| `EngineSafety.TransactionCovered` | internal/dataplane/engine.go:157-207 | One transaction without a post-rename failure keeps every bound address attached at each step |
| `EngineSafety.FailureRollsBack` | internal/dataplane/engine.go:174-193 | A failure before commit keeps the store, loses no address, adds none outside the desired set, and restores the attached set exactly if failed adds had no effect and no rollback call failed |
| `EngineSafety.TransactionInForce` | internal/dataplane/engine.go:157-223 | At each step the addresses of the store in force are attached |
| `EngineSafety.TransactionHeals` | internal/dataplane/engine.go:195-206 | A transaction without error leaves exactly the desired managed addresses and the planned file |
| `EngineSafety.TransactionKeepsFile` | internal/dataplane/engine.go:157-207 | The file is the old or the planned one throughout, and without a post-rename failure the one that belongs to the store in the end |
| `EngineExact.OutcomeIff` | internal/dataplane/engine.go:157-207 | Which way a transaction ends, from what was there and which calls fail: committed, failed past the rename, or without error |
| `EngineExact.UncoversIff` | internal/dataplane/apply.go:113-126 | A transaction from a covered world ends uncovered exactly when it fails past the rename and some bound address was missing, was added without an error and is removed by the rollback |
| `EngineExact.PostRenameBreaksIff` | internal/dataplane/apply.go:113-126 | After a failure past the rename, for any rollback and any ambiguous add, bound addresses are all attached exactly when each was there before, or its add reported an error although it took effect, or the rollback left it |
| `EngineExact.ApplyFailureRestoresIff` | internal/dataplane/engine.go:187-193 | After a failed apply the interface is as before exactly when every missing address was added without an error and could be removed again |
| `EngineExact.RollbackInReverse` | internal/dataplane/engine.go:209-223 | One call per remembered address, the last one first, whatever fails: what is attached after each call, exactly |
| `EngineExact.DetachLeavesIff` | internal/dataplane/engine.go:198-204 | A stale address is left exactly when its own call left it or an earlier one failed |
| `EngineExact.UnwantedLeftIff` | internal/dataplane/engine.go:195-204 | After a commit an unwanted address is attached exactly when the detach loop gets stuck on an address that stays or that is not the last |
| `EngineExact.DetachFailureLeavesStale` | internal/dataplane/engine.go:198-202 | The address a detach error reports was stale, and it is still attached exactly when its call left it in place |
| `EngineExact.ChangedIff` | internal/dataplane/engine.go:187-206 | A transaction reports a change exactly when it succeeds and the file was not current, or the add of a missing desired address reported success, or the removal of a stale one did; with an error it reports none |
| `EngineExact.ErrorIs` | internal/dataplane/engine.go:157-223 | Which error is reported: the first address whose attach or detach fails, or the cause of the failed apply, and whether some rollback call failed |
| `EngineFrame.OperationChangedIff` | internal/dataplane/engine.go:101-139 | The same for Ensure and Delete, which report no change when they have nothing to do |
| `EngineFrame.ChangedMeansDifferent` | internal/dataplane/engine.go:187-206 | When no add or delete reports an error, a successful operation reports a change exactly when the file or the interface is not what it was |
| `EngineFrame.NoWorldSkipped` | internal/dataplane/engine.go:157-223 | The recorded worlds lead from the start to the end, each one external call away from the one before |
| `EngineFrame.StoreAfterSuccess` | internal/dataplane/engine.go:101-139 | A successful Ensure stores a sorted form of the Service under its namespace and name, a successful Delete removes the entry, and no other entry changes |
| `EngineFrame.RefusedIff` | internal/dataplane/engine.go:101-107 | A Service is refused exactly when it is invalid, and then nothing changes |
| `EngineLimits.DeleteHealsIff` | internal/dataplane/engine.go:122-139 | A Delete without error has healed the state exactly when the reference was stored or there was nothing to heal |
| `EngineLimits.FailedDeleteLeavesStale` | internal/dataplane/engine.go:195-202 | A committed Delete leaves an unwanted address attached exactly when its detach loop gets stuck, ambiguous effects included |
| `EngineLimits.NoRetryRepairs` | internal/dataplane/engine.go:122-128 | After a committed Delete any number of retries with any faults leaves every later world with an unwanted address exactly when the first call got stuck |
| `EngineLimits.FailedReloadUncovers` | internal/dataplane/apply.go:113-126 | Input: the first Service with a port, its address missing, and only the reload or the directory sync fails; a bound address is then not attached |
| `EngineLimits.StuckDelete` | internal/dataplane/engine.go:195-202 | Input: a stored Service whose address nobody else asks for and whose detach fails; the address stays through all retries |
| `EngineLimits.ForeignAddressRemoved` | internal/dataplane/ipattach/netlink.go:46-64 | Input: an address of the managed prefix length attached by somebody else; the next operation without faults removes it |
| `EngineLimits.RestartDetaches` | internal/dataplane/engine.go:157-207 | Input: an empty store and the address of another Service attached; one Ensure without faults removes it |
| `EngineFrame.OtherPrefixesNeverTouched` | internal/dataplane/engine.go:170-223 | In every run, at every step, addresses with another prefix length are neither added nor removed |
| `EngineFrame.ManagedPrefixKeptIff` | internal/dataplane/ipattach/netlink.go:46-64 | After a successful operation an address with the managed prefix length is still attached exactly when a stored Service asks for it, whoever attached it |
| `EngineFrame.RestartForgetsOthers` | internal/dataplane/engine.go:157-207 | From an empty store, the first successful Ensure leaves that Service's address as the only managed one, whatever was attached |
| `Engine.DataplaneEngine.Bootstrap` | internal/dataplane/engine.go:89-98 | Installs the empty configuration under the bootstrap reload rule and leaves the store alone |
| `Engine.DataplaneEngine.Ensure` | internal/dataplane/engine.go:101-119 | New state, changed flag, error and intermediate worlds equal the specified transaction for the upserted store, or a refusal of an invalid Service; what flag, error and worlds mean is in `OperationChangedIff`, `ErrorIs`, `NoWorldSkipped` and `StoreAfterSuccess` |
| `Engine.DataplaneEngine.Delete` | internal/dataplane/engine.go:122-139 | The same for the store without the reference, with the early exit for an absent one |
| `Engine.DataplaneEngine.ReconcileLocked` | internal/dataplane/engine.go:157-207 | List, diff, attach, apply, commit, detach, with every early return, equal the specified transaction step by step |
| `Engine.DataplaneEngine.AttachAll` | internal/dataplane/engine.go:170-182 | The attach loop remembers what changed and stops at the first failure, passing through the specified interfaces |
| `Engine.DataplaneEngine.DetachAll` | internal/dataplane/engine.go:195-204 | The detach loop stops at the first failure, passing through the specified interfaces |
| `Engine.DataplaneEngine.RollbackAttachedExternalIPs` | internal/dataplane/engine.go:209-223 | Detaches in reverse order and carries on past failures |
| `ExternalIPs.DesiredExternalIPs` | internal/dataplane/externalips.go:27-55 | The distinct addresses of the Services in address order, or an error when a non-empty one is not IPv4 |
| `ExternalIPs.DesiredIs` | internal/dataplane/externalips.go:27-55 | Fails exactly when some non-empty address text is not IPv4; otherwise each wanted address once, in ascending order |
| `ExternalIPs.DiffExternalIPs` | internal/dataplane/externalips.go:57-73 | Exactly the addresses of the left list missing from the right one, in order |
| `ApplyRuns.PathAlwaysWhole` | internal/dataplane/apply.go:89-129 | At every moment of every run the config path holds its earlier content or a whole rendering |
| `ApplyRuns.BootstrapReloadsIff` | internal/dataplane/apply.go:75-149 | A Bootstrap without error leaves the empty configuration, and it reloads exactly when it installs something, a reload command and a pid file are configured, and the pid file is there and is no directory |
| `ApplyRuns.InstalledWasValidated` | internal/dataplane/apply.go:98-113 | Whatever is put in place passed validation in the call just before |
| `ApplyRuns.NoCandidateLeft` | internal/dataplane/apply.go:151-185 | No candidate file outlives its call if removal succeeds |
| `ApplyRuns.ReloadedIsActive` | internal/dataplane/apply.go:65-129 | Without post-rename failures, since the first install the content last reloaded is the file |
| `ApplyRuns.ReloadIsNotRetried` | internal/dataplane/apply.go:89-129 | Once the path holds a text, applying it again any number of times with any faults changes and reloads nothing |
| `ApplyRuns.LostReload` | internal/dataplane/apply.go:113-129 | After a failed directory sync or reload the running content is the file exactly when that text was the last one reloaded already |
| `ApplyRuns.OutOfSyncIff` | internal/dataplane/apply.go:65-129 | After any run, with any failures, the last reloaded content differs from the file exactly when the last call that installed something failed after its rename and its text was not the one reloaded last before |
| `ApplyRuns.FailedReloadLosesSync` | internal/dataplane/apply.go:113-129 | Input: a new text and only the reload or the directory sync fails; file and running content differ, through all retries |
| `Apply.Applier.Apply` | internal/dataplane/apply.go:65-72 | Disk, changed flag and error equal the specified effect of the rendering, or its failure |
| `Apply.Applier.Bootstrap` | internal/dataplane/apply.go:75-87 | The empty configuration is installed, reloading only when a process seems to run |
| `Apply.Applier.ApplyRenderedConfig` | internal/dataplane/apply.go:89-129 | Compare, write, validate, rename, sync, reload with deferred clean-up equal the specified effect for every combination of failures |
| `Apply.Applier.WriteCandidateFile` | internal/dataplane/apply.go:151-185 | A new candidate with the text, or an error after removing what was created: a failed write leaves any part of the text, a failed sync or close the whole |
| `IPAttach.PerformMeansIt` | internal/dataplane/ipattach/netlink.go:66-118 | No error means the requested presence or absence holds; at most that one address changes; changed is reported only for a real change |
| `IPAttach.OthersUntouched` | internal/dataplane/ipattach/netlink.go:46-118 | Over any run of manager calls no address with another prefix length changes |
| `IPAttach.LastRequestHolds` | internal/dataplane/ipattach/exec.go:61-117 | After any run the last error-free request for each address holds |
| `IPAttach.SortedListing` | internal/dataplane/ipattach/netlink.go:46-64 | Filtering any enumeration of the interface by prefix length and sorting gives exactly the managed addresses in order |
| `IPAttach.Manager.NetlinkList` | internal/dataplane/ipattach/netlink.go:46-64 | The managed addresses in order, whatever order the kernel enumerates in |
| `IPAttach.Manager.ExecList` | internal/dataplane/ipattach/exec.go:43-59 | The same addresses, recovered from the text of the address listing |
| `IPAttach.Manager.MakePresent` | internal/dataplane/ipattach/netlink.go:66-85 | Look, add, look again after an error: interface, changed flag and failure as specified |
| `IPAttach.Manager.MakeAbsent` | internal/dataplane/ipattach/netlink.go:87-106 | Look, delete, look again after an error: interface, changed flag and failure as specified |
| `IPAttach.Manager.StateAfterFailure` | internal/dataplane/ipattach/netlink.go:108-118 | An operation error is dropped exactly when a second look shows the requested state |
| `Listing.ListingParsed` | internal/dataplane/ipattach/exec.go:149-176 | From any well-formed listing, in any layout and with blank lines, exactly the addresses with the managed prefix length are recovered, in order |
| `Listing.MalformedFails` | internal/dataplane/ipattach/exec.go:162-170 | A listing in which the text after some line's inet is no prefix at all is refused |
| `Listing.ParseManagedInterfaceAddrs` | internal/dataplane/ipattach/exec.go:149-176 | The parse loop returns the managed addresses on the lines with any fields, skips IPv6 prefixes, and fails when some address is malformed |
| `ConfigParser.RenderFaithful` | internal/dataplane/render.go:47-107 | Reading the text rendered from any accepted Services gives exactly the ordered frontends with names, bind address and port, and servers |
| `ConfigParser.ListFaithful` | internal/dataplane/render.go:61-107 | The same for Services already in order: rendering succeeds and the reader inverts it |
| `ConfigParser.EqualTextEqualTable` | internal/dataplane/render.go:47-107 | Equal texts mean equal routing tables |
| `ConfigParser.PlaceholderDistinguished` | internal/dataplane/render.go:89-103 | A port without backends and one with backends, such as a real 127.0.0.1:1, read differently |
| `Golden.DemoConfig` | internal/provider/haproxy/provider_test.go:29-72 | The text for one Service with two backends out of order, word for word as the test expects it |
| `Golden.EmptyConfig` | internal/dataplane/render.go:27-59 | The text without any Service, word for word |
| `Golden.EmptyBackend` | internal/dataplane/render.go:88-91 | The placeholder line, word for word |
| `RenderOrder.RenderIgnoresOrder` | internal/dataplane/render.go:47-63 | Reordering Services, ports or backends never changes the text, given distinct references and no ports that tie with different backends |
| `RenderOrder.LaterDuplicateWins` | internal/dataplane/render.go:148-155 | Of two Services with one reference only the later one matters |
| `RenderOrder.FromListed` | internal/dataplane/store.go:74-108 | Listing a store and upserting the list gives the store back, normalised |
| `Render.RenderConfig` | internal/dataplane/render.go:47-107 | The builder loops produce the specified lines for the de-duplicated sorted Services, or an error when one is invalid |
| `Render.SortedServiceListFromSlice` | internal/dataplane/render.go:148-155 | The listing of the store filled by upserting one by one |
| `Render.ValidateService` | internal/dataplane/render.go:110-146 | No error exactly for valid Services; otherwise the first fault in the order of the checks |
| `Render.ValidityRespectsBag` | internal/dataplane/render.go:110-146 | Acceptance does not depend on the order of ports or backends |
| `Identifiers.ServerNamesDistinct` | internal/dataplane/render.go:165-167 | Server names at different positions differ, for any number of backends |
| `Identifiers.NamesInjectiveIff` | internal/dataplane/render.go:157-206 | Section names tell apart all parts over an alphabet exactly when no character of it becomes an underscore and no two become the same |
| `Identifiers.HyphenCollides` | internal/dataplane/render.go:169-178 | 'a'/'b-c' and 'a-b'/'c' get the same section name |
| `Identifiers.SanitizeIdentifier` | internal/dataplane/render.go:180-206 | The loop over trimmed lower-cased text gives the character-wise mangled text stripped of underscores |
| `Normalize.NormalizedIdempotent` | internal/dataplane/store.go:110-138 | Normalising twice is normalising once |
| `Normalize.NormalizedRespectsBag` | internal/dataplane/store.go:110-138 | Services equal up to the order of ports and backends have one normal form, if tied ports agree |
| `Normalize.NormalFormUniqueIff` | internal/dataplane/store.go:113-125 | Whatever routine sorts, the result is determined exactly when ports that tie have the same backends |
| `Normalize.TiedPortsHaveTwoForms` | internal/dataplane/store.go:113-125 | Input: two ports with one key and different backends, and two different sorted forms |
| `Normalize.NormalizeService` | internal/dataplane/store.go:110-138 | Sorting the ports and each port's backends gives the normal form |
| `DesiredStore.Store.Clone` | internal/dataplane/store.go:38-45 | A new store with the same entries |
| `DesiredStore.Store.Upsert` | internal/dataplane/store.go:48-51 | Exactly the entry under the Service's reference is replaced by the normal form, and the store stays canonical |
| `DesiredStore.Store.Delete` | internal/dataplane/store.go:54-61 | The entry is gone, and the result says whether it was there |
| `DesiredStore.Store.List` | internal/dataplane/store.go:74-76 | The entries in reference order |
| `DesiredStore.SortedServiceListFromMap` | internal/dataplane/store.go:93-108 | The normalised entries in reference order, whatever order the map is walked in |
| `DesiredStore.ListedAscends` | internal/dataplane/store.go:93-108 | Strictly ascending by namespace and name |
| `LocalProvider.ProvidersAgree` | internal/provider/haproxy/provider.go:54-115 | From a file that renders the state, any run with successful reads and no post-rename failures gives local provider and engine the same files, changed flags and error outcomes, with the engine store the normalised local one |
| `LocalProvider.OperationAgrees` | internal/provider/haproxy/provider.go:54-85 | Any Ensure, and any Delete of a stored Service, agrees whatever fails |
| `LocalProvider.AbsentDeleteAgreesIff` | internal/provider/haproxy/provider.go:71-85 | Delete of an absent reference agrees exactly when the read succeeds and the file is current |
| `LocalProvider.AbsentDeleteReapplies` | internal/provider/haproxy/provider.go:71-85 | Input: a file changed from outside; deleting an absent reference restores it through the local provider and does nothing through the engine |
| `LocalProvider.Provider.Ensure` | internal/provider/haproxy/provider.go:54-68 | Applies the extended copy and keeps it only without error |
| `LocalProvider.Provider.Delete` | internal/provider/haproxy/provider.go:71-85 | Applies the reduced copy and keeps it only without error |
| `LocalProvider.Provider.ServicesToList` | internal/provider/haproxy/provider.go:100-115 | The Services in reference order, whatever order the map is walked in |
| `Pool.ParsePool` | internal/ipam/pool.go:27-60 | Accepts exactly lists with at least one item, all IPv4 and none twice, and returns them in order |
| `Pool.PoolRoundTrip` | internal/ipam/pool.go:27-60 | Any list of different addresses, written with commas between them, is accepted and reads back as that list |
| `Allocator.ChooseIsSafe` | internal/ipam/allocator.go:57-82 | An allocated address is in the pool and unused; exhaustion is reported exactly when others use the whole pool |
| `Allocator.ChooseIs` | internal/ipam/allocator.go:57-82 | The first address of the status is kept exactly when it is in the pool and free; otherwise the first free pool address in pool order is taken; exhaustion is reported exactly when others use the whole pool |
| `Allocator.CollectUsedIPs` | internal/ipam/allocator.go:84-122 | Exactly the pool addresses published by other managed, non-deleting Services |
| `Allocator.AssignedIPFromStatus` | internal/ipam/allocator.go:124-143 | The first status entry that is an address |
| `Allocator.Allocate` | internal/ipam/allocator.go:57-82 | The allocation that `ChooseIs` describes for the addresses published by other owners |
| `Discovery.DiscoveredIsExact` | internal/backends/discovery.go:42-144 | Each port's backends are strictly sorted and exactly the ready IPv4 endpoints of matching slices and ports |
| `Discovery.TargetDecides` | internal/backends/discovery.go:121-175 | Without a port name match and with equal protocols: a positive numeric target matches exactly that port, a target name that is not blank exactly the positive endpoint port of that name, anything else exactly the port of the Service |
| `Discovery.NamedPortMatches` | internal/backends/discovery.go:133-136 | An endpoint port with the name of the Service port matches exactly when its number is positive and the protocols agree |
| `Discovery.MatchNeedsProtocol` | internal/backends/discovery.go:125-160 | No match without a positive port and the same protocol, TCP where none is given |
| `Discovery.OfferedFrom` | internal/backends/discovery.go:50-95 | Every IPv4 address of an endpoint not known to be unready, in a slice of the Service's own namespace and name, is offered on each matching port |
| `Discovery.OfferedBy` | internal/backends/discovery.go:50-95 | Nothing else is offered |
| `Discovery.DiscoveryIgnoresOrder` | internal/backends/discovery.go:42-107 | Reordering or repeating slices, ports, endpoints or addresses changes nothing |
| `Discovery.KeyInjective` | internal/backends/discovery.go:78-89 | The text key of the duplicate filter tells endpoints apart |
| `Discovery.LoopsVisitAll` | internal/backends/discovery.go:50-95 | The nested loops visit exactly the specified endpoints |
| `Discovery.Discover` | internal/backends/discovery.go:42-107 | The loops, the filter and the sort give exactly the lists that `DiscoveredIsExact` describes |
| `Controller.BuildProviderService` | internal/controller/service_controller.go:376-399 | The provider Service with one port per discovered port, in order; with discovery in front, what `DesiredServes` describes |
| `Controller.DesiredServes` | internal/controller/service_controller.go:376-399 | Discovery and building together give a provider Service with the reference, address and class of the Service, and port by port its number, name, protocol and target and exactly the endpoints offered for it, strictly sorted |
| `Controller.BuiltIsValid` | internal/controller/service_controller.go:376-399 | For a named Service with positive TCP ports and a pool address the built Service always passes validation |
| `ControllerSafety.NeverOrphaned` | internal/controller/service_controller.go:104-155 | In every reachable state every provider entry belongs to an existing Service with the finalizer, even if failed calls took effect and the cluster changes between calls |
| `ControllerSafety.AddressesAlwaysSound` | internal/ipam/allocator.go:57-122 | In every reachable state owners publish pairwise different pool addresses, one each, and each is in the owner's provider entry |
| `ControllerSafety.AllocationIsChosen` | internal/ipam/allocator.go:57-122 | Allocation picks an address nobody else publishes, and the published one if there is one |
| `ControllerSafety.PublishedIsStable` | internal/controller/service_controller.go:125-175 | No step of any reconcile changes a published address or its entry's address |
| `ControllerSafety.AddressNeverChanges` | internal/controller/service_controller.go:60-184 | Over any run in which the Service stays an owner its published address never changes |
| `ControllerQuiet.ReconcileIdempotent` | internal/controller/service_controller.go:60-184 | A second Reconcile after a failure-free one makes no API write and no provider change, in the absent, managed, exhausted, unmanaged and deleting cases |
| `Convergence.NoErrorIsFaultFree` | internal/controller/service_controller.go:60-184 | Whatever faults were possible, a Reconcile that returns no error did what it does when nothing fails |
| `Convergence.OwnerConverges` | internal/controller/service_controller.go:116-184 | No error for an owner means finalizer, published free pool address, and a provider entry with exactly the endpoints offered for each port; a delayed requeue is asked for exactly when other owners publish the whole pool, and then only the finalizer was added |
| `Convergence.OthersConverge` | internal/controller/service_controller.go:229-326 | No error for a deleting or unmanaged Service means its entry and finalizer are gone, a deleting one stays exactly while others hold it, and an unmanaged one publishes no pool address |
| `Convergence.NoErrorIsSettled` | internal/controller/service_controller.go:60-184 | After a Reconcile without error the next one changes nothing |
| `ControllerFrame.ReconcileLeavesAlone` | internal/controller/service_controller.go:60-352 | A whole Reconcile with any failures and no interference changes no other object and no other provider entry, and of its own object only the controller's finalizer and the ingress; it makes it disappear only if it was deleting and nobody else held it |
| `ControllerFrame.StepLeavesAlone` | internal/controller/service_controller.go:328-352 | The same for one call with any interference, when the finalizer patch was computed from the current finalizers of others |
| `ControllerFrame.ForeignFinalizerLostIff` | internal/controller/service_controller.go:328-352 | A finalizer of somebody else is lost to a finalizer patch exactly when the snapshot did not show it |
| `ControllerFrame.LateFinalizerLost` | internal/controller/service_controller.go:265-352 | Input: a deselected Service and a finalizer added right before the controller removes its own; both are removed |
| `ControllerFrame.UnselectedUntouched` | internal/controller/service_controller.go:86-100 | A Service of another type or class that is not held and publishes no pool address is not touched, whatever fails |
| `ControllerFrame.QuietReconcileReports` | internal/controller/service_controller.go:60-184 | When nothing fails and nothing interferes, Reconcile reports no error unless the pool is empty |
| `ConflictResolution.PoolNotExhausted` | internal/ipam/allocator.go:57-122 | With no more owners than pool addresses and at most one address each, others never use the whole pool |
| `ConflictResolution.ConflictsResolve` | internal/ipam/allocator.go:57-122 | Reconciling each owner once, in any order and from any conflicts, gives each exactly one pool address, all different |
| `Reconciler.ServiceReconciler.Reconcile` | internal/controller/service_controller.go:60-184 | The calls and early returns, with any failures, leave the cluster and provider as the machine's steps do, and return what they report |
| `Reconciler.ServiceReconciler.ReconcileDeletingService` | internal/controller/service_controller.go:229-263 | The same for the deleting branch |
| `Reconciler.ServiceReconciler.ReconcileUnmanagedService` | internal/controller/service_controller.go:265-326 | The same for the unmanaged branch |
| `Reconciler.ServiceReconciler.HoldAndProvision` | internal/controller/service_controller.go:116-128 | Adding the finalizer and reading again |
| `Reconciler.ServiceReconciler.AllocateAndProvision` | internal/controller/service_controller.go:130-175 | Listing, allocating, discovering and building |
| `Reconciler.ServiceReconciler.EnsureAndPublish` | internal/controller/service_controller.go:155-184 | Provider first, then status |
| `Reconciler.ServiceReconciler.ClearServiceStatus` | internal/controller/service_controller.go:296-326 | Clearing status, reading again, then dropping the finalizer if it is still there |
| `Reconciler.ServiceReconciler.RemoveServiceFinalizer` | internal/controller/service_controller.go:343-352 | Drops the finalizer if it is there; a deleting object without other finalizers disappears |
| `Reconciler.OwnSlicesSuffice` | internal/controller/service_controller.go:208-227 | Listing only the Service's own slices loses no backend |
| `Reconciler.ListShowsUsed` | internal/controller/service_controller.go:199-206 | A list of all Services, in any order, shows exactly the addresses used by others |
| `EndToEnd.PublishedIsAttached` | internal/controller/service_controller.go:125-175 | In every run of controller and engine together, with any failures on both sides, every published pool address of an owner is attached to the interface and belongs to no other owner |
| `EndToEnd.AttachedDuringCall` | internal/dataplane/engine.go:157-223 | The same in every world the engine passes through while it carries out a provider call of such a run |
| `Routing.PublishedIsRouted` | internal/controller/service_controller.go:125-175 | In every run of both without post-rename failures, whatever else fails, every published pool address of an owner is bound by the config file, with a frontend for each port of the owner's entry that leads to exactly its backends |
| `Routing.RoutedDuringCall` | internal/dataplane/engine.go:157-207 | The same addresses are bound and attached in every world the engine passes through during a provider call |
| `Serving.PublishedIsServed` | internal/controller/service_controller.go:125-175 | In such runs, for every owner that publishes a pool address there are a version of the Service and a version of the slices from the run such that the file has, for each port, a frontend on that address whose servers are exactly the endpoints offered |
| `Serving.CurrentIsServed` | internal/controller/service_controller.go:146-175 | When the provider entry is up to date, as after a Reconcile without error, these are the current Service and slices |
| `Serving.StoredIsServed` | internal/dataplane/render.go:61-107 | A stored and rendered entry is served by the file: the servers of each port are exactly the endpoints offered for it |
| `EngineExact.CleanPostRenameBreaksIff` | internal/dataplane/apply.go:113-126 | Supporting fact: corollary for truthful adds and a working rollback: exactly when no bound address was missing |
| `EngineExact.AttachCompletesIff` | internal/dataplane/engine.go:174-185 | Supporting fact: the attach loop completes exactly when each address is there already or can be added |
| `EngineExact.RememberedIff` | internal/dataplane/engine.go:172-185 | Supporting fact: a complete attach loop remembers exactly the addresses that were absent and whose add reported success |
| `EngineExact.RollbackLeavesIff` | internal/dataplane/engine.go:209-223 | Supporting fact: a rollback leaves exactly what it was not asked to remove and what a failing call left in place |
| `ExternalIPs.DifferenceMembers` | internal/dataplane/externalips.go:57-73 | Supporting fact: membership in the difference |
| `ApplyRuns.PostRenameIff` | internal/dataplane/apply.go:89-129 | Supporting fact: a call fails past the rename exactly when nothing before the rename fails, the file is not current, and the directory sync or the reload fails |
| `Listing.ListingAppend` | internal/dataplane/ipattach/exec.go:149-176 | Supporting fact: printing one more address line gives a well-formed listing of one more prefix |
| `Listing.TrimTokens` | internal/dataplane/ipattach/exec.go:149-156 | Supporting fact: trimming the whole output first changes no line's fields |
| `ConfigParser.EmptyConfigReads` | internal/dataplane/render.go:27-59 | Supporting fact: the bootstrap configuration reads as the empty routing table |
| `RenderOrder.RenderedStore` | internal/dataplane/render.go:47-63 | Supporting fact: the text for a store is the bootstrap text exactly for the empty store, else the sections of its list |
| `Render.FirstFaultUnique` | internal/dataplane/render.go:110-146 | Supporting fact: there is only one first fault, so the reported error is determined |
| `Render.ValidNormalized` | internal/dataplane/render.go:110-146 | Supporting fact: normalising changes nothing about acceptance |
| `Identifiers.LowercaseFaithful` | internal/dataplane/render.go:180-206 | Supporting fact: letters a-z and digits are such an alphabet |
| `Identifiers.SanitizedShape` | internal/dataplane/render.go:180-206 | Supporting fact: identifiers are non-empty and hold only letters a-z, digits and underscores |
| `Normalize.NormalizedIsNormalForm` | internal/dataplane/store.go:110-138 | Supporting fact: normalising reorders only, and the result is sorted |
| `Normalize.DistinctKeysTiesAgree` | internal/dataplane/store.go:113-125 | Supporting fact: ports with pairwise different keys never tie, so all order-independence results apply to them |
| `DesiredStore.Store.Get` | internal/dataplane/store.go:64-71 | Supporting fact: the entry under the reference, if any |
| `DesiredStore.ListedMembers` | internal/dataplane/store.go:93-108 | Supporting fact: what stands in the list, by membership |
| `DesiredStore.SortedEntries` | internal/dataplane/store.go:93-108 | Supporting fact: sorting the entries, walked in whatever order, gives them in reference order |
| `LocalProvider.StartRelated` | internal/provider/haproxy/provider.go:37-51 | Supporting fact: both providers start related on the empty configuration |
| `Status.IngressEqualOne` | internal/status/service_status.go:38-49 | Supporting fact: equal to one assigned address means exactly one entry, that address up to white space |
| `Status.IngressEqualNone` | internal/status/service_status.go:38-49 | Supporting fact: equal to nothing means no entries |
| `Status.PublishedIsInPool` | internal/status/service_status.go:89-122 | Supporting fact: whatever the allocator counts as published is recognised as owned status |
| `ControllerQuiet.ReconciledManaged` | internal/controller/service_controller.go:116-184 | Supporting fact: what a failure-free Reconcile of an owner does, in closed form |
| `ControllerQuiet.ReconciledDeleting` | internal/controller/service_controller.go:229-263 | Supporting fact: what it does for a deleting Service |
| `ControllerQuiet.ReconciledUnmanaged` | internal/controller/service_controller.go:265-326 | Supporting fact: what it leaves of an unmanaged Service: no entry, no status, no finalizer |
| `IPv4.ParseIffFormat` | internal/dataplane/externalips.go:27-55 | Supporting fact: the accepted address texts are exactly the canonical ones |
| `EngineRuns.BootstrapStarts` | internal/dataplane/engine.go:89-98 | Supporting fact: a Bootstrap without error leads to the state the runs start from |
| `EngineExact.ApplyErrorIs` | internal/dataplane/apply.go:89-129 | Supporting fact: the first call that fails decides what an apply reports |
| `ControllerFrame.StepCountsWrites` | internal/controller/service_controller.go:328-352 | Supporting fact: every attempted API write is counted, and nothing else changes objects |
| `Discovery.OffersIff` | internal/backends/discovery.go:50-95 | Supporting fact: offering an endpoint, spelled out |
| `Allocator.AssignedIs` | internal/ipam/allocator.go:124-143 | Supporting fact: the assigned address is the first status entry that is an address |
| `Model.OrdersAscend` | internal/dataplane/store.go:93-138 | Supporting fact: all sorting is ascending: references by namespace and name, ports by number, protocol, name and target, backends by address text and port |
| `Text.LeStringIff` | internal/dataplane/store.go:93-138 | Supporting fact: texts are compared character by character, a proper prefix first |
| `Text.TrimSpaceIs` | internal/dataplane/render.go:180-184 | Supporting fact: trimming takes all white space from both ends and nothing else |
| `Text.AsciiCharacters` | internal/dataplane/render.go:180-206 | Supporting fact: white space and lower case of the ASCII characters |
| `IPv4.LeAddrAscends` | internal/dataplane/externalips.go:27-55 | Supporting fact: addresses are ordered by their 32-bit value |
| `IPv4.ParsePrefixIff` | internal/dataplane/ipattach/exec.go:162-170 | Supporting fact: the accepted IPv4 prefix texts are exactly the canonical ones |
| `ExternalIPs.WantedIff` | internal/dataplane/externalips.go:27-55 | Supporting fact: an address is wanted exactly when a Service has it as its external address |
| `ExternalIPs.DifferenceSorted` | internal/dataplane/externalips.go:57-73 | Supporting fact: the difference keeps the order |
| `Render.SupportedProtocolIff` | internal/dataplane/render.go:126-128 | Supporting fact: accepted protocols are blank or tcp in any case |
| `Render.ValidIff` | internal/dataplane/render.go:110-146 | Supporting fact: what makes a Service acceptable, spelled out |
| `Identifiers.PaddedWidth` | internal/dataplane/render.go:165-167 | Supporting fact: positions are printed with at least four digits |
| `Identifiers.NothingLeft` | internal/dataplane/render.go:180-206 | Supporting fact: a value of which nothing is left is called unnamed |
| `Pool.PaddedItem` | internal/ipam/pool.go:27-60 | Supporting fact: white space around an item does not matter and blank items do not count |
| `Status.InPoolIff` | internal/status/service_status.go:89-111 | Supporting fact: a pool address is recognised with white space around it |
| `Cluster.OwnerIff` | internal/controller/service_filter.go:26-40 | Supporting fact: which Services count as owners, spelled out |

## Left out

- HTTP handler, JSON decoding and the dataplane API client: a provider call is one step that succeeds, fails with effect or fails without.
- Configuration loading, logging, metrics, the instrumented provider and both main programs.
- Informer caches, watch predicates, mapping of EndpointSlice events to Services and requeue timing: reads are current and reconciles start in any order.
- Mutexes and concurrent workers: the providers hold one lock per mutation and the controller has one worker, so operations follow one another.
- The mock provider, charts, manifests and scripts.
- Real netlink calls, command execution, shell detection and fsync: each is a call that may fail.
- Kernel behaviour of secondary addresses when a primary one is deleted.
- Restarts of the dataplane process inside a run: the runs of `EndToEnd` keep one engine, while the controller may crash at any step.
- Texts of error messages; only the kind of error is kept.
- Optimistic locking: a status write based on an outdated object may succeed in the model, which allows more runs than the API server does.
- The grammar of IPv6 prefixes: which texts in an address listing are IPv6 prefixes is a parameter.
- Lower-casing outside ASCII, except for the two characters whose lower case is an ASCII letter; all others become underscores either way.
- The order in which sort.Slice leaves ports with equal keys: the model's sort is stable, and `NormalFormUniqueIff` says when the order is unobservable. The agreement of the two providers is stated for the model's sort.
- Sharing of slices between copies: Services are values, so DeepCopy, Equal and Snapshot have nothing to show.
- `Manager.MakePresent` and `Manager.MakeAbsent` serve both the netlink and the exec manager, whose control flow is the same.
- The fault schedule of an engine loop is a function of the address, since each loop handles an address at most once.
- A blank validate or reload command succeeds without running anything; the model counts that as a call that succeeded.
- Nil Services handed to the allocator, the discovery or the status update: Go callers never pass them.
