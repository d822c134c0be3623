# Lemming control plane, verified

A Dafny 4.11 model of the control-plane logic of Lemming, an OpenConfig network
device, with machine-checked proofs of what that logic guarantees and of where
it falls short. `dafny verify dfyconfig.toml` checks the whole project.

Seven components are modelled, each in the form the source has: objects are
classes whose methods update fields, loops are loops with invariants, the
reboot protocol is a state machine over its atomic steps, and every method is
proved against functions and relations about which the theorems are stated.

| component | files |
|---|---|
| system RIB: route table, recursive resolution, GUE encapsulation | `Net`, `SysRib`, `Resolver`, `Resolution`, `Termination`, `ArrivalOrder`, `RibObject` |
| RIB server: programming the data plane, connected interfaces | `RibServer`, `ServerObject`, `Convergence`, `LastWrites`, `ConnectedWatcher` |
| BGP policy translation from OpenConfig to GoBGP | `PolicyModel`, `PolicyTranslation`, `PolicyPreservation`, `PolicyTheorem`, `PolicyUniqueness`, `PolicyMeaning` |
| BGP RIB attribute indices and communities | `Decimal`, `AttrIndex`, `Communities` |
| gNOI reboot and cancellation | `Reboot`, `RebootDeadlock` |
| path authorization trie | `PathElem`, `AclTrie`, `AclWalk`, `AclNodes`, `AclProbe`, `AclTheorem`, `AclSteer`, `AclVerdict`, `AclVoices`, `AclOrder` |
| gNMI Set datastore | `Datastore`, `Transactions`, `FailedSets`, `Requests`, `DatastoreObject` |

## What the proofs say

**Resolution.** The source recurses without a bound. `Resolve` makes the depth
of the recursion explicit; a lookup returns if some depth is enough, and then
every depth that is enough gives the same answer. An acyclic RIB always
returns, a lookup that does not return runs into a cycle, and a lookup that
lands on a cycle succeeds at no depth. On an acyclic RIB without lookup errors
in its instances the next hops computed are the unique solution of a set of
equations written without recursion, and such RIBs with recursive next hops are
exhibited. The result depends on the table of last writes only, not on the
order routes arrived in. The route handed back has the lowest admin distance,
and then the lowest metric, of all that lead anywhere. Headers included, an egress is returned exactly when a
matched route of the winning preference leads to it, with the header of the
deepest GUE policy that covers its first-level next hop.

**Data plane.** Over every run, whatever calls fail, the bookkeeping equals the
data plane; without faults it equals the resolved RIB. What that RIB holds is
told by the operations: at every route key, link and policy prefix the last
write, so the data plane depends on the last writes only. Cyclic RIBs are
included as long as the lookups return. One promise is broken: a deprogramming that
fails and is retried later hands a nil route to the redistribution code. The
crash is shown reachable, and a run crashes if and only if some recalculation
successfully deprograms an unresolved prefix whose deprogramming failed in the
recalculation before.

**Connected interfaces.** The watcher adds the current addresses and then
deletes the ones that are gone. Two addresses of one interface in one subnet
share a route key, so deleting one deletes the other's route. The routes are
the images of the current addresses if and only if no removed address shares a
key with a current one, whatever other clients write to the RIB between two
callbacks.

**BGP policies.** Two evaluators, one for the OpenConfig configuration of a
neighbor and one for GoBGP's global list, each with its own values, are proved to decide alike on every
route, for every neighbor, direction and enumeration order of the maps. Three
exceptions are characterised exactly. A configuration leaves names undefined if
and only if some neighbor refers twice to a policy that does not exist. The
statement names, which the source promises to be globally unique, are so if and
only if no neighbor applies a policy with a repeated statement name or two
policies whose names overlap at a colon; a configuration that collides is
exhibited. A community keeps its meaning if and only if it is not given as a
number and is not GRACEFUL_SHUTDOWN; what the translation of any other
configuration means is stated as well.

**Reboot.** An invariant over all interleavings counts unserved cancellers
against signals. Reboots never overlap and none is both cancelled and fired. A
call is refused, and a cancellation goes on, exactly while a delayed reboot is
live. A deadlock is reachable: a canceller that comes too late waits to take its signal
back while a new delayed reboot has already consumed it. Rest states are
exactly the finished ones and the deadlocked ones. In every reachable state, a
delayed reboot that is accepted can deadlock with the calls already there if
and only if one CancelReboot call is taking its signal back and no other one is
in flight. One more CancelReboot call can release a deadlock.

**Authorization trie.** The trie holds exactly the accepted rules, whatever
values their keys have. The comment on Probe says that only the longest matches
are kept; the code also keeps shallower ones that a map iteration happens to
visit later, so the verdict can depend on iteration order. Where one match is
deepest, and no group's denial stands against another permission by name, the
verdict is the same in every order if and only if the deepest match denies or
no denial that is at least as specific lies off its path. Another comment
prefers users over groups. Where a user's permission and a group's denial are
all that matches, the verdict is the same in every order if and only if one of
them lies below the other, or is no shallower and more specific; the user is
preferred at one and the same path only. Loaded policies with two orders and
opposite verdicts are given for both.

**Datastore.** A successful Set leaves every leaf as its updates, replacements
and deletions ask, and over every run each config leaf that changes is one its
user may write; when a Set succeeds is stated exactly. After a successful Set the cache is the union of both roots if
and only if the notifications the cache took are the whole difference. A failed
config Set always restores its root, and restores the cache if and only if no
notification taken before the rejected one had anything to change. A failed
state Set leaves everything as it was under conditions that are exact for both
of its paths; the fast path has no rollback, and a request that leaves the root
half edited is exhibited. The fast path for state updates otherwise equals the
diff path.

## Model

| member | source | states |
|---|---|---|
| Net.Deepest | sysrib/sysrib.go:377-396 | the longest matching prefix: it covers the query, and no stored prefix that covers it is longer; nothing is returned exactly when nothing covers |
| Net.DeepestUnique | sysrib/sysrib.go:377-396 | two covering prefixes of the same length are equal, so longest-prefix match has one answer |
| Net.SubnetMembers | sysrib/sysrib.go:278-308 | a well-formed prefix text stands for the addresses of its family that agree with it in its first bits, host bits ignored |
| SysRib.SetRouteWritesTable | sysrib/sysrib.go:278-308 | an add or delete changes the entry of its own key (instance, canonical prefix, route key) and no other; it errors exactly for an unknown instance or a malformed prefix |
| SysRib.SetRouteWellFormed | sysrib/sysrib.go:278-308 | no prefix ever carries two routes with one key |
| SysRib.TreeRefinesTable | sysrib/sysrib.go:243-308 | after any sequence of adds and deletes a lookup gives the last write to its key |
| SysRib.DifferentKeysCommute | sysrib/sysrib.go:243-308 | operations on different keys give the same table in either order |
| Resolution.HopsMeaning | sysrib/sysrib.go:534-571 | a route contributes exactly when every next hop is usable, and then the union of what they lead to |
| Resolution.RoutesMeaning | sysrib/sysrib.go:509-572 | the matched routes contribute exactly when each does; an error or an exhausted depth comes from one of them |
| Resolution.ResolvedMeetsEquation | sysrib/sysrib.go:483-591 | an interface and next hop are returned exactly when the equations for longest match, lowest preference and recursive next hops ask for them |
| Resolution.SolutionUnique | sysrib/sysrib.go:483-591 | every solution of the equations agrees with every successful lookup |
| Resolution.SourceRoute | sysrib/sysrib.go:574-591 | each egress comes from a matched route of the preference that is handed back |
| Resolution.ReturnedRoute | sysrib/sysrib.go:574-591 | a route is handed back exactly when something resolved; it is a matched route, and no matched route that leads anywhere has a lower admin distance, or the same and a lower metric |
| Resolution.LowestDistanceFirst | sysrib/sysrib.go:574-591 | the same without the equations: of all matched routes that lead to some egress the one handed back has the lowest admin distance and then the lowest metric; it is the first matched route of its preference |
| Resolution.ConnectedIsOnLink | sysrib/sysrib.go:516-529 | a connected route leads to its own port in the queried instance, without a header, and with the queried address exactly if that is a host's |
| Resolution.EgressExactlyWhen | sysrib/sysrib.go:509-591 | an egress, header included, is returned by a successful lookup exactly when a matched route of the returned preference leads to it: through its own enabled interface and without a header, or through one first-level next hop with the header of the deepest policy covering this hop, if the route is EBGP and there is one |
| Resolution.EncapsulatedExactlyWhen | sysrib/sysrib.go:551-570 | a returned egress is encapsulated exactly when the returned route has EBGP distance and the first-level next hop it comes through is covered by a policy whose header is not all zero; the header fields are those of the deepest such policy |
| Resolution.EncapIsRightHeader | sysrib/sysrib.go:90-148 | the header is addressed to the hop and takes source and port from the deepest covering policy, for each family of hop and payload, and there is none otherwise |
| Resolution.EgressPortsAreUp | sysrib/sysrib.go:516-571 | every egress of a successful lookup, through any recursion, is an enabled interface |
| Resolution.FailsExactlyWhen | sysrib/sysrib.go:483-572 | a lookup errors exactly when its instance is unknown or some next hop of a matched indirect route is unusable |
| Termination.DeeperIsSame | sysrib/sysrib.go:483-591 | a depth bound that is not reached changes nothing |
| Termination.DivergenceLeavesPath | sysrib/sysrib.go:483-591 | exhausting the depth leaves a walk of that many RIB nodes behind |
| Termination.AcyclicTerminates | sysrib/sysrib.go:483-591 | on an acyclic RIB recursion ends within one nested lookup per prefix |
| Termination.LongWalkNeverResolves | sysrib/sysrib.go:483-591 | a lookup from which a longer walk starts does not succeed within the depth |
| Termination.CycleNeverResolves | sysrib/server.go:589 | a lookup that lands on a cycle of next hops succeeds at no depth: the unhandled case the source marks |
| Termination.AnyDepthWillDo | sysrib/sysrib.go:483-591 | the unbounded recursion has one answer: whatever depth is enough gives it |
| Termination.AcyclicReturns | sysrib/sysrib.go:483-591 | on an acyclic RIB every lookup returns |
| Termination.EndlessMeetsCycle | sysrib/server.go:589 | a lookup that never returns leads along next hops into a cycle |
| Termination.ComputedIsTheSolution | sysrib/sysrib.go:483-591 | on an acyclic RIB without lookup errors in its instances the computed next hops are the one solution of the equations |
| Termination.RemoteIsReached | sysrib/sysrib.go:534-571 | a RIB with a connected subnet and a prefix behind an address of it meets these conditions, and the solution sends the prefix out of the subnet's interface |
| Termination.TwoLevelsExist | sysrib/sysrib.go:534-571 | there is such a RIB |
| ArrivalOrder.ArrivalOrderIrrelevant | sysrib/sysrib.go:278-308 | RIBs with the same table resolve every query to the same next hops, however their routes are ordered within a prefix |
| RibObject.Encapsulate | sysrib/sysrib.go:562-570 | next hops found below are copied with the header put on, and one that already has a header is an error |
| RibObject.SortPreferences | sysrib/sysrib.go:574-581 | the preferences met, in ascending order of the number admin distance, and of the number metric where that is equal |
| RibObject.SelectFirst | sysrib/sysrib.go:574-591 | scanning preferences upwards finds the lowest one with next hops and its first route |
| RibObject.SysRIB.constructor | sysrib/sysrib.go:199-235 | a new RIB has the default instance, no routes and no policies |
| RibObject.SysRIB.SetRoute | sysrib/sysrib.go:278-308 | the in-place tree update is the modelled write, and a failed one changes nothing |
| RibObject.SysRIB.SetGUEPolicy | sysrib/sysrib.go:311-327 | the policy of the canonical prefix is replaced and no other |
| RibObject.SysRIB.DeleteGUEPolicy | sysrib/sysrib.go:331-348 | the policy of the canonical prefix is gone, and the flag says whether there was one |
| RibObject.SysRIB.EntryForCIDR | sysrib/sysrib.go:377-396 | the routes at the longest match, with an error for an unknown instance |
| RibObject.SysRIB.EgressNexthops | sysrib/sysrib.go:483-591 | the recursive loops return the specified resolution on every RIB, cyclic ones included, on which the recursion ends |
| RibObject.SysRIB.GatherRoutes | sysrib/sysrib.go:509-572 | the loop over matched routes groups next hops by preference and stops at the first error |
| RibObject.SysRIB.ResolveNextHops | sysrib/sysrib.go:534-571 | the loop over next hops collects what all of them lead to, or fails with the first unusable one |
| RibObject.SysRIB.ResolveHop | sysrib/sysrib.go:536-570 | one next hop fails exactly when it is malformed, unresolvable or already encapsulated |
| RibServer.FaultFreePassIsExact | sysrib/server.go:451-552 | without faults one recalculation makes the programmed routes the resolved RIB, from any state |
| RibServer.ExactStateIsQuiet | sysrib/server.go:501-552 | from an exact state a recalculation sends nothing |
| RibServer.PassKeepsImage | sysrib/server.go:451-552 | whichever calls fail, bookkeeping and data plane stay equal |
| RibServer.StaleAfterPass | sysrib/server.go:474-494 | after a recalculation the programmed prefixes without a recorded route are exactly those whose deprogramming just failed |
| RibServer.CrashExactlyWhen | sysrib/server.go:474-487 | a recalculation dereferences nil exactly when it successfully deprograms such a prefix |
| RibServer.RetriedDeprogramCrashes | sysrib/server.go:474-487 | a deprogramming that fails once and then succeeds always ends in that dereference |
| RibServer.AcyclicRecalculates | sysrib/server.go:451-494 | without a cycle every recalculation returns |
| RibServer.RunKeepsImage | sysrib/server.go:451-494 | over every run of operations and faults in which the lookups return bookkeeping equals data plane |
| RibServer.RunKeepsTrees | sysrib/server.go:616-687 | over every run no prefix carries two routes with one key |
| RibServer.LinksAreLastWrites | sysrib/server.go:651-661 | after every run a port has the state the last setInterface for it said, and none if there was none |
| RibServer.FaultFreeRunIsExact | sysrib/server.go:616-687 | after every fault-free run the data plane is the resolved RIB, and every next hop leaves through an interface whose last setInterface enabled it |
| RibServer.NoFailedDeprogramNoCrash | sysrib/server.go:451-494 | as long as no deprogramming has failed no run crashes |
| RibServer.StaleExactlyWhen | sysrib/server.go:474-494 | at every point of every run the programmed prefixes without a recorded route are exactly those whose deprogramming failed in the last recalculation |
| RibServer.RunCrashesExactlyWhen | sysrib/server.go:451-494 | a run crashes exactly when some recalculation successfully deprograms a prefix that does not resolve and whose deprogramming failed in the recalculation before |
| Convergence.ImageFromTable | sysrib/server.go:451-552 | the intended data plane depends on the route table only |
| Convergence.HistoryIrrelevant | sysrib/server.go:616-687 | two fault-free histories with the same final table and link states end with the same data plane |
| LastWrites.RoutesAreLastWrites | sysrib/server.go:616-625 | after every run the RIB holds at every key the route last added there, unless it was deleted since |
| LastWrites.PoliciesAreLastWrites | sysrib/server.go:665-687 | after every run the RIB holds at every prefix the GUE policy last set there, unless it was deleted since |
| LastWrites.RecordedRouteIsBest | sysrib/server.go:501-552 | over every run the route recorded for redistribution is a matched one, and the best of those that lead anywhere |
| LastWrites.OnlyLastWritesMatter | sysrib/server.go:616-687 | two fault-free histories with the same last write at every route key, link and policy prefix end with the same data plane |
| Convergence.CrashIsReachable | sysrib/server.go:474-487 | four operations from a fresh server reach the nil dereference |
| ServerObject.DataPlane.ProgramRoute | sysrib/server.go:104-112 | a route replaces the previous one of its key unless the call fails |
| ServerObject.DataPlane.DeprogramRoute | sysrib/server.go:115-123 | a route is removed unless the call fails |
| ServerObject.Server.constructor | sysrib/server.go:128-142 | a new server has an empty RIB, no links, nothing programmed |
| ServerObject.Server.ResolveAndProgramDiff | sysrib/server.go:451-494 | the two loops over mutable maps perform the modelled recalculation, crash included |
| ServerObject.Server.ProgramChanged | sysrib/server.go:459-468 | the loop over all prefixes programs what changed, in any order of visits |
| ServerObject.Server.ResolveOne | sysrib/server.go:501-552 | one prefix is recorded, and sent only if its next hops changed |
| ServerObject.Server.DeprogramUnresolved | sysrib/server.go:474-487 | every programmed prefix that no longer resolves is removed unless its call fails; a missing recorded route crashes |
| ServerObject.Server.SetRoute | sysrib/server.go:616-625 | a route change followed by a recalculation is one modelled step |
| ServerObject.Server.SetInterface | sysrib/server.go:651-661 | a link change followed by a recalculation is one modelled step |
| ServerObject.Server.SetGUEPolicy | sysrib/server.go:665-674 | a policy change followed by a recalculation is one modelled step |
| ServerObject.Server.DeleteGUEPolicy | sysrib/server.go:678-687 | a policy removal followed by a recalculation is one modelled step |
| ConnectedWatcher.CallbackInstalls | sysrib/connected.go:51-106 | after a callback the installed connected routes are the images of the current addresses less those shared with a removed one |
| ConnectedWatcher.OthersWriteMeanwhile | sysrib/sysrib.go:278-308 | adding or deleting a route without an interface leaves the connected routes alone |
| ConnectedWatcher.WatcherExactlyWhen | sysrib/connected.go:51-106 | over every run, with other clients writing between callbacks, the connected routes are exactly the images of the current addresses if and only if no removed address shares a key with a current one |
| ConnectedWatcher.ReaddressingLosesSubnet | sysrib/connected.go:96-103 | replacing an address by another one of the same subnet leaves the subnet without a route |
| ConnectedWatcher.ReaddressingRun | sysrib/connected.go:51-106 | for every two addresses of one interface in one subnet there is a run of two callbacks after which the subnet has no route |
| ConnectedWatcher.ReaddressingExists | sysrib/connected.go:51-106 | there are such addresses |
| ConnectedWatcher.ConnectedIsUsed | sysrib/server.go:635-648 | where the subnet of an enabled interface is matched a lookup uses connected routes, this one among them, whatever else is known |
| ConnectedWatcher.Watcher.OnUpdate | sysrib/connected.go:51-106 | the in-place callback is the modelled one |
| ConnectedWatcher.Watcher.AddCurrent | sysrib/connected.go:55-94 | every acceptable address is added and remembered, the others skipped |
| ConnectedWatcher.Watcher.DeleteGone | sysrib/connected.go:96-103 | every remembered address that is not current is deleted |
| PolicyTranslation.ConvertCommunities | bgp/ocgobgp.go:237-256 | the loop converts every member in order |
| PolicyTranslation.ConvertCommunitySet | bgp/ocgobgp.go:258-276 | one converted set per name and an index that leads back to it |
| PolicyTranslation.SetCommunitiesList | bgp/ocgobgp.go:36-68 | an inline list is converted, references are replaced by the members of their sets |
| PolicyTranslation.ConvertPolicyDefinition | bgp/ocgobgp.go:75-140 | every statement is converted in order, named after neighbor, policy and statement, and restricted to the neighbor |
| PolicyTranslation.PopulatePolicies | bgp/config.go:129-150 | the closure defines each existing policy once and applies names as specified, including names seen before |
| PolicyTranslation.AddNeighbor | bgp/config.go:124-187 | import names, then export names, then both default policies |
| PolicyTranslation.IntendedToGoBGPPolicies | bgp/config.go:90-189 | the whole translation for any enumeration order of the maps |
| PolicyPreservation.CommunityPreservedExactlyWhen | bgp/ocgobgp.go:237-256 | a community keeps its meaning exactly when it is neither a number nor GRACEFUL_SHUTDOWN |
| PolicyPreservation.SetAtIndex | bgp/ocgobgp.go:258-276 | the index of a set name leads to the converted members of that set |
| PolicyPreservation.StatementApplies | bgp/ocgobgp.go:75-110 | a converted statement matches a route exactly when the original does and the neighbor is the one it was made for |
| PolicyPreservation.StatementModifies | bgp/ocgobgp.go:111-140 | a converted statement changes a matching route as the original does |
| PolicyPreservation.StatementsPreserved | bgp/ocgobgp.go:75-140 | a converted policy decides as the original for its neighbor and passes every other neighbor by |
| PolicyPreservation.OptionPreserved | bgp/ocgobgp.go:166-177 | a converted match option means on GoBGP's side what the original means, ANY if unset |
| PolicyPreservation.EntriesPreserved | bgp/ocgobgp.go:179-188 | a converted prefix set with its restricted option matches as the original does, ANY unless INVERT |
| PolicyPreservation.DefaultDecides | bgp/config.go:155-187 | the generated default policy ends evaluation for its neighbor as the default policy does, and for no other |
| PolicyTheorem.LookupPolicy | bgp/config.go:129-150 | a converted name leads to the conversion of that policy for that neighbor, and to nothing if there is no such policy |
| PolicyTheorem.LookupDefault | bgp/config.go:155-187 | the default name of a neighbor and direction leads to its own default policy |
| PolicyTheorem.AppliedExactly | bgp/config.go:129-150 | a name is applied exactly where its policy exists or was seen before |
| PolicyTheorem.PiecePreserved | bgp/config.go:124-187 | a neighbor's part of the global list decides for that neighbor as its own configuration, and passes everyone else by |
| PolicyTheorem.MissingTwiceDangles | bgp/config.go:134-143 | a missing policy referred to twice leaves a name without a definition |
| PolicyTheorem.DefinedExactlyWhen | bgp/config.go:134-143 | every applied name is defined exactly when no neighbor refers twice to a missing policy |
| PolicyUniqueness.PolicyNamesUnique | bgp/ocgobgp.go:32-34 | no two policy definitions of a translation share a name |
| PolicyUniqueness.StatementNamesUniqueExactlyWhen | bgp/ocgobgp.go:88-90 | the statement names of a translation are globally unique exactly when no neighbor applies a policy with a repeated statement name, or policies p and p:t with statements t:s and s |
| PolicyUniqueness.NoColonNoAmbiguity | bgp/ocgobgp.go:88-90 | in particular if applied policies have no colon in their names and repeat no statement name |
| PolicyMeaning.LoadableExactlyWhen | bgp/config.go:90-189 | for every configuration of address-named neighbors, applied names are defined and policy and statement names unique exactly when no neighbor refers twice to a missing policy or is ambiguous in the sense above |
| PolicyMeaning.TranslationMeans | bgp/config.go:90-189 | for every configuration of address-named neighbors, every neighbor, direction and route the global list decides as the neighbor's own policies and default with each community read as its converted text and a missing range read as exact; or the whole is refused, exactly in those two cases |
| PolicyMeaning.TranslationPreservesMeaning | bgp/config.go:90-189 | with handled communities and given ranges it decides as the configuration itself |
| PolicyMeaning.ImportDefaultDecides | bgp/config.go:159-170 | where no policy the neighbor imports decides, GoBGP accepts exactly if the neighbor's default import policy is ACCEPT_ROUTE |
| PolicyMeaning.ExportDefaultDecides | bgp/config.go:171-184 | where no policy the neighbor exports decides, GoBGP accepts exactly if the neighbor's default export policy is ACCEPT_ROUTE |
| PolicyMeaning.SettingPreservedExactlyWhen | bgp/ocgobgp.go:36-68 | adding or replacing communities, in line or by reference to sets, has the same effect exactly when all communities named are handled |
| PolicyMeaning.ConvertedModifies | bgp/ocgobgp.go:111-140 | a converted statement of any configuration changes a route as the original does with its communities read as their converted texts |
| PolicyMeaning.StatementPreservedExactlyWhen | bgp/ocgobgp.go:111-140 | so a converted statement that adds or replaces communities leaves a route with the same ones exactly then |
| PolicyMeaning.RemovingPreservedExactlyWhen | bgp/ocgobgp.go:36-68 | removing communities has the same effect on all routes and under all matchers exactly when all are handled, or the empty text is among their meanings and every unhandled one is also named by its text |
| PolicyMeaning.MatchingPreservedExactlyWhen | bgp/ocgobgp.go:258-276 | matching any, all or none of a community set gives the same answer on all routes and under all matchers exactly then |
| PolicyMeaning.CollidingIsRefused | bgp/ocgobgp.go:88-90 | a neighbor that applies p with a statement t:s and p:t with a statement s gets two statements of one name, whatever the texts are |
| PolicyMeaning.CollisionExists | bgp/ocgobgp.go:88-90 | there is such a configuration |
| PolicyMeaning.DanglingIsRefused | bgp/config.go:134-143 | a neighbor that imports a policy twice which does not exist gets an applied name without a definition, whatever the names are |
| PolicyMeaning.DanglingExists | bgp/config.go:134-143 | there is such a configuration |
| AttrIndex.GetKeepsValid | bgp/gobgp.go:740-761 | below 2^64 allocations the search ends, it gives up exactly for a new key with 2^63-1 indices in use, a known key keeps its index, a new one gets an index nobody has |
| AttrIndex.NeverTooMany | bgp/gobgp.go:747-749 | below 2^63-1 allocations an index is always returned |
| AttrIndex.RunIsSound | bgp/gobgp.go:707-761 | over every run of fewer than 2^64 calls the search never spins, the two maps are inverse, and no index ever serves two keys; a run of fewer than 2^63 calls is never stopped |
| AttrIndex.RoundKeepsIndices | bgp/gobgp.go:724-761 | a round is completed below 2^63 allocations; it leaves indices for exactly the keys it used, and those that had one keep it |
| AttrIndex.IndexTracker.BeginAllocation | bgp/gobgp.go:724-726 | nothing is marked as used, every index stays |
| AttrIndex.IndexTracker.CompleteAllocation | bgp/gobgp.go:729-738 | the loop forgets exactly the keys not used in the round |
| AttrIndex.IndexTracker.GetOrAllocIndex | bgp/gobgp.go:740-761 | the search loop returns the specified index, with 64-bit wrap-around and its two ways of not returning |
| Communities.CommsToString | bgp/gobgp.go:592-601 | the loop writes the decimal numbers separated by blanks |
| Communities.JoinInjective | bgp/gobgp.go:592-601 | two community lists have one text only if they are equal |
| Communities.CommunityRoundTrip | bgp/ocgobgp.go:279-284 | the text of a community reads back as that community and as no other |
| Communities.RoundIsFaithful | bgp/gobgp.go:591-691 | over a round every route's index leads to its own last non-empty community list |
| Communities.RoundIsFilled | bgp/gobgp.go:567-691 | a round with fewer than 2^63 allocations so far is always completed |
| Communities.PopulationTheorem | bgp/gobgp.go:567-691 | below 2^63 allocations a round is completed; two routes then share an index exactly when they carry the same communities; the entry reads back as them; no other entries remain |
| Communities.Populator.BeginAttrPopulation | bgp/gobgp.go:567-578 | the entries are cleared and a round begins |
| Communities.Populator.CompleteAttrPopulation | bgp/gobgp.go:580-584 | the round is completed |
| Communities.Populator.PopulateRIBAttrs | bgp/gobgp.go:630-691 | the loop over attributes stores and indexes as specified, or halts where the allocator does |
| Reboot.StepKeepsInv | gnoi/gnoi.go:114-180 | every atomic step of every thread keeps the invariant on signals, the flag and the mutex |
| Reboot.RunKeepsInv | gnoi/gnoi.go:83-180 | the invariant holds in every reachable state |
| Reboot.SignalsAccountedFor | gnoi/gnoi.go:154-180 | unserved cancellers equal signals waiting or taken; with no CancelReboot in flight no signal is left over |
| Reboot.PendingExactlyWhenLive | gnoi/gnoi.go:83-100 | the pending flag is set exactly when one delayed reboot is live, and there is never a second |
| Reboot.RefusedExactlyWhenLive | gnoi/gnoi.go:114-152 | a Reboot call that holds the mutex is refused exactly while a delayed reboot is live, and otherwise boots at once or is accepted, as it asked |
| Reboot.CancelLooksForLive | gnoi/gnoi.go:154-180 | a CancelReboot call returns without a signal, and later takes its signal back, exactly if no delayed reboot is live when it looks |
| Reboot.RebootsNeverOverlap | gnoi/gnoi.go:114-152 | two device reboots never overlap |
| Reboot.NeverBothFates | gnoi/gnoi.go:130-152 | no delayed reboot is both cancelled and fired, at whatever points of a run one looks |
| Reboot.QuiescentExactlyWhen | gnoi/gnoi.go:114-180 | nothing can happen any more exactly when all calls are over or a late canceller and a new reboot block each other |
| Reboot.SerialisedNeverDeadlocks | gnoi/gnoi.go:154-180 | if no delayed reboot is accepted while a CancelReboot call is taking its signal back no run deadlocks |
| RebootDeadlock.AcceptDeadlocksExactlyWhen | gnoi/gnoi.go:83-180 | in every reachable state, accepting a delayed reboot can be followed, without new calls, by a deadlock exactly when one CancelReboot call is taking its signal back and no other one is in flight |
| Reboot.DeadlockIsReachable | gnoi/gnoi.go:166-178 | two delayed reboots and one CancelReboot can deadlock |
| Reboot.DeadlockIsReleased | gnoi/gnoi.go:154-180 | from every deadlocked state one more CancelReboot call can bring all calls to their end |
| PathElem.SortingUnique | gnsi/acltrie/trie.go:281-290 | a set of keys has one sorted listing, so the text of an element does not depend on map order |
| PathElem.BelowExactlyWhen | gnsi/acltrie/trie.go:281-290 | keys are sorted as in a dictionary |
| PathElem.ElemToString | gnsi/acltrie/trie.go:273-299 | the text lists the non-wildcard keys in order, escaped; it errors exactly for an empty name or an empty key, and counts the keys |
| PathElem.EscapedInjective | gnsi/acltrie/trie.go:293-294 | escaping loses nothing although the backslash is not escaped |
| PathElem.PairUnique | gnsi/acltrie/trie.go:292-296 | the last key and value can be taken off a text in one way only |
| PathElem.SharedExactlyWhen | gnsi/acltrie/trie.go:273-299 | for plain keys, whatever the names and values, two elements share a text exactly when the name of one spells out the other up to some of its keys and it has the remaining keys itself |
| PathElem.ElemKeyExactlyWhen | gnsi/acltrie/trie.go:273-299 | if no name contains '=' they do exactly when they differ only in wildcard keys |
| PathElem.NamesCanCollide | gnsi/acltrie/trie.go:273-299 | for every name, key and value there is a non-plain name that poses as the element |
| AclTrie.DescendMeaning | gnsi/acltrie/trie.go:131-161 | following a path adds empty nodes only and ends at the normalised path, or stops at a refused element |
| AclTrie.InsertMeaning | gnsi/acltrie/trie.go:110-176 | a rule is taken exactly when it is sound and its slot is free, and then the trie stands for one rule more; a refused rule changes nothing it stands for |
| AclTrie.FromPolicyExactlyWhen | gnsi/acltrie/trie.go:88-107 | a policy is accepted exactly when all rules are sound and no two fill one slot; every node then holds exactly the rules of its normalised path |
| AclTrie.AcceptedExactlyWhen | gnsi/acltrie/trie.go:88-176 | a policy is accepted exactly when every rule decides, has a mode and a named principal, and has elements with a name that is not the wildcard and named keys, and no two rules of one principal and mode have one normalised path |
| AclTrie.Trie.AddGroup | gnsi/acltrie/trie.go:92-99 | the users join that group and no other |
| AclTrie.Trie.Insert | gnsi/acltrie/trie.go:110-176 | the in-place insertion is the modelled one, with the nodes it leaves behind when it fails |
| AclTrie.Trie.Load | gnsi/acltrie/trie.go:88-107 | memberships are those the policy lists, and loading succeeds exactly for consistent policies |
| AclWalk.OpenAbove | gnsi/acltrie/trie.go:184-187 | a node above a node that covers the query covers it too, so pruning loses nothing |
| AclWalk.CoversExactlyWhen | gnsi/acltrie/trie.go:184-187 | a rule's path covers a query exactly when it is no longer, has the same names, and asks for no key and value that the query lacks; the wildcard asks for nothing |
| AclWalk.WalkMeaning | gnsi/acltrie/trie.go:236-268 | in every order the walk calls back exactly once on each node whose parent covers the query, ancestors first |
| AclWalk.CoveringVisited | gnsi/acltrie/trie.go:184-200 | every covering node is visited |
| AclWalk.WalkEnds | gnsi/acltrie/trie.go:245-266 | from every state of the stack the walk can be continued to its end |
| AclWalk.WalkToFirst | gnsi/acltrie/trie.go:263-265 | for some map order a covering node is visited before everything that is not above it |
| AclNodes.NodeCoversExactlyWhen | gnsi/acltrie/trie.go:139-158 | a node covers a query exactly when the path of a rule filed there does |
| AclNodes.NodeCountsKeys | gnsi/acltrie/trie.go:156 | the number a node is compared by is the number of keys its rules fix |
| AclProbe.ActionOf | gnsi/acltrie/trie.go:50-67 | a rule by name wins; among groups a denial wins; the order groups are read in does not matter |
| AclProbe.PathAtTop | gnsi/acltrie/trie.go:249-253 | whenever the walk calls back, the shared path is the one from the root to the node |
| AclProbe.WalkMatching | gnsi/acltrie/trie.go:184-200 | the stack loop terminates, is a walk, and collects what the callback specifies |
| AclProbe.Probe | gnsi/acltrie/trie.go:179-231 | the three loops compute the verdict of a walk, for whatever order the maps are read in |
| AclTheorem.VerdictFromCandidate | gnsi/acltrie/trie.go:202-231 | without a matching node the answer is DENY, otherwise what some matching node says |
| AclTheorem.DeniesExactlyWhen | gnsi/acltrie/trie.go:216-230 | among the consulted nodes a denial by name always wins, and a denial by group wins exactly if no node after it permits by name |
| AclTheorem.ProbeDecides | gnsi/acltrie/trie.go:179-231 | the answer is never unspecified |
| AclTheorem.PermitIsGranted | gnsi/acltrie/trie.go:179-231 | PERMIT is answered only if an accepted covering rule permits it to the user or a group of the user |
| AclTheorem.UnanimousRules | gnsi/acltrie/trie.go:179-231 | where all rules that concern the query agree the answer is theirs, in every order; where there is none it is DENY |
| AclTheorem.MatchingSplit | gnsi/acltrie/trie.go:191-197 | from the first match of the greatest depth on, every match visited later is kept, however shallow |
| AclTheorem.DominantDecides | gnsi/acltrie/trie.go:206-231 | where one match is deepest and every other lies above it or fixes fewer keys, its action is the answer in every order |
| AclTheorem.DeepestOnPathDecides | gnsi/acltrie/trie.go:183-231 | when the matches lie on one root-to-leaf path the deepest decides in every order |
| AclTheorem.OrderIrrelevantExactlyWhen | gnsi/acltrie/trie.go:191-214 | one and the same node alone is consulted in every order if and only if it dominates in that sense |
| AclSteer.WalkToLast | gnsi/acltrie/trie.go:263-265 | for some map order a covering node is visited after everything that does not lie below it |
| AclSteer.WalkToBoth | gnsi/acltrie/trie.go:263-265 | for some map order a covering node is visited, then only what lies below it, and then the walk goes straight to a second covering node off its path |
| AclVerdict.AlwaysConsults | gnsi/acltrie/trie.go:191-214 | in every order the deepest match is consulted first, and after it only matches off its path that fix no fewer keys |
| AclVerdict.ConsultAlone | gnsi/acltrie/trie.go:191-214 | for some order the deepest match alone is consulted |
| AclVerdict.ConsultBoth | gnsi/acltrie/trie.go:191-214 | for every match off its path that fixes no fewer keys there is an order in which it is consulted too |
| AclVerdict.NameOverrules | gnsi/acltrie/trie.go:179-231 | in any trie, where the deepest match permits and such a match denies by name, one map order permits and another denies, whoever else matches |
| AclVerdict.BothVerdicts | gnsi/acltrie/trie.go:179-231 | the same for a denial by group, unless a permission by name is a rival too |
| AclVerdict.VerdictFixedExactlyWhen | gnsi/acltrie/trie.go:179-231 | in any trie with one deepest match and without a standoff of a group's denial and a rival's permission by name, the verdict is the same in every order exactly when the deepest denies or no such match denies, and then it is the deepest one's |
| AclVoices.OutrankingConsulted | gnsi/acltrie/trie.go:191-214 | of two matches one that lies below the other, or is no shallower and fixes more keys, is consulted alone or last in every order |
| AclVoices.NameAndGroupExactlyWhen | gnsi/acltrie/trie.go:216-230 | in any trie in which a user's permission and a group's denial are the only matches, the verdict is the same in every order exactly when one outranks the other in this sense, and then it is that one's |
| AclOrder.PolicyVerdictFixedExactlyWhen | gnsi/acltrie/trie.go:179-231 | the same in terms of the rules of any accepted policy that one deepest rule concerns, if no rule denies by group, or none but the deepest permits by name, or a denial by name is the deepest rule or overrules it |
| AclOrder.OrderMatters | gnsi/acltrie/trie.go:191-231 | for every such policy whose deepest rule permits, and every denial on a path that does not lead to it and fixes no fewer keys, one map order permits and another denies |
| AclOrder.NameAgainstGroupExactlyWhen | gnsi/acltrie/trie.go:216-230 | for every accepted policy in which a user's permission and a group's denial are all that concerns the query, the verdict is the same in every order exactly when the path of one leads to the other's, or is no longer and fixes fewer keys; the other one's action is then the verdict, and the name's at one and the same path |
| AclOrder.NameLosesToLaterGroup | gnsi/acltrie/trie.go:217-227 | for every such policy in which neither rule outranks the other one map order permits and another denies |
| AclOrder.ClashExists | gnsi/acltrie/trie.go:191-231 | there is a loaded policy of two rules by name and a query with both verdicts |
| AclOrder.StandoffExists | gnsi/acltrie/trie.go:217-227 | there is a loaded policy of a user's permission and a group's denial, and a query with both verdicts |
| Datastore.UpToDateExactlyWhen | gnmi/gnmi.go:192-216 | parts of a diff bring a cache made of two roots up to date exactly when they are the whole diff |
| Datastore.UntouchedExactlyWhen | gnmi/gnmi.go:259-292 | parts of a diff leave a cache unchanged exactly when none of them alone would change it |
| Datastore.SendMeaning | gnmi/collector.go:128-150 | sending applies the notifications taken before the first rejected one, and skips stale ones without an error |
| Transactions.ConfigSetMeaning | gnmi/gnmi.go:376-416 | a config Set leaves a root that passes the schema and every validator, or restores the previous one |
| Transactions.ConfigImageExactlyWhen | gnmi/gnmi.go:410-416 | after a successful config Set the cache is the leaves of both roots exactly when what it took is the whole diff |
| Transactions.FailedConfigExactlyWhen | gnmi/gnmi.go:381-413 | after a config Set the cache rejected, nothing has changed exactly when no notification taken before had anything to change |
| Transactions.StateImageExactlyWhen | gnmi/gnmi.go:376-416 | the same for state Sets with deletes or replaces |
| Transactions.FastImageExactlyWhen | gnmi/gnmi.go:355-374 | the same for the fast path, a stale notification included |
| Transactions.FastPathIsDiffPath | gnmi/gnmi.go:347-374 | on update-only state requests the fast path gives the roots and the cache of the diff path |
| Transactions.FailedSetLeavesNoTrace | gnmi/gnmi.go:346-416 | when the cache takes everything a failed Set changes nothing |
| Transactions.SetKeepsImage | gnmi/gnmi.go:507-581 | when the cache takes everything a Set of either mode, successful or not, leaves the cache equal to the leaves of both roots |
| Transactions.RunKeepsImage | gnmi/gnmi.go:507-581 | over every run of Sets the cache is the leaves of both roots |
| FailedSets.FailedDiffExactlyWhen | gnmi/gnmi.go:381-413 | a failed state Set by diff restores its root, and leaves everything as it was exactly when the request was refused or no notification taken had anything to change |
| FailedSets.CutShort | gnmi/gnmi.go:322-336 | updates cut short have written the leaves of exactly the edits accepted so far |
| FailedSets.FailedFastExactlyWhen | gnmi/gnmi.go:355-374 | a failed state Set by the fast path leaves everything as it was exactly when the fragment was refused, or the notifications taken had nothing to change and, if all were sent, the root already held the leaves written before the second unmarshalling was refused |
| FailedSets.RejectedSetLeavesTrace | gnmi/gnmi.go:381-413 | replacing one config leaf by another with the deletion taken and the update rejected restores the root and empties the cache |
| FailedSets.RefusedLate | gnmi/gnmi.go:355-374 | a fast request the schema accepts on an empty root and refuses on the real one fails with the cache updated in full and the root in part |
| FailedSets.HalfEditedExists | gnmi/gnmi.go:355-374 | there is such a request, and it leaves the cache different from the roots |
| Transactions.RunKeepsValid | gnmi/gnmi.go:399-408 | over every run, whatever the cache does, the config root is the initial one or passes the schema and every validator |
| Transactions.ModesCommute | gnmi/gnmi.go:544-577 | a config Set and a state Set give the same roots and cache in either order |
| Transactions.StartedImage | gnmi/gnmi.go:102-190 | a server starts exactly when its defaults are valid, with a cache equal to its leaves |
| Requests.RequestMeans | gnmi/gnmi.go:322-336 | a request the schema accepts leaves every leaf as the last update that writes it says, else as the last replacement at or above it says, else deleted if a deletion lies above it, else as it was |
| Requests.StateSetMeans | gnmi/gnmi.go:346-416 | a successful state Set, on either path, leaves the state root so and the config root alone |
| Requests.ConfigSetMeans | gnmi/gnmi.go:376-416 | a successful config Set leaves the config root so, with the defaults filled in, and the state root alone |
| Requests.UnauthorizedIsRefused | gnmi/gnmi.go:218-227 | with authorization on, a config Set that would change a leaf the user may not write fails and changes nothing |
| Requests.SuccessIsAuthorized | gnmi/gnmi.go:218-227 | every leaf a successful config Set changes is one the user may write |
| Requests.PermittedIsUnhindered | gnmi/gnmi.go:218-227 | a user who may write everything gets what a server without authorization gives |
| Requests.RunIsAuthorized | gnmi/gnmi.go:507-581 | over every run each change of a config leaf was made by a config Set of a user who may write it |
| Requests.ConfigSucceedsExactlyWhen | gnmi/gnmi.go:376-416 | a config Set succeeds exactly when every edit is accepted, the result passes the schema and every validator, the user may write what the diff carries, and no notification is rejected |
| Requests.StateSucceedsExactlyWhen | gnmi/gnmi.go:346-416 | a state Set succeeds exactly when every edit is accepted, on the fast path on an empty root as well, and no notification is rejected |
| DatastoreObject.CheckWritePermission | gnmi/gnmi.go:232-256 | it allows exactly when every deleted and every updated path is permitted |
| DatastoreObject.Validate | gnmi/gnmi.go:399-408 | it accepts exactly what the schema and every validator accept |
| DatastoreObject.Server.UpdateCacheNotifs | gnmi/gnmi.go:259-292 | the loop over notifications changes the cache as specified and stops at the first error |
| DatastoreObject.Server.SetConfig | gnmi/gnmi.go:376-416 | the in-place edit with deferred rollback is the modelled transaction |
| DatastoreObject.Server.SetState | gnmi/gnmi.go:346-416 | both state paths, in place, are the modelled ones |
| DatastoreObject.Server.Set | gnmi/gnmi.go:507-581 | the dispatch on the mode is the modelled one |

## Assumptions of the model

- Prefixes and addresses are bit strings; parsing their text either succeeds or fails. IPv4-mapped IPv6 addresses are not modelled.
- Enumeration orders of Go maps are inputs or nondeterministic choices; the theorems hold for every order.
- A data-plane call fails or succeeds as a fault set says. A recalculation is one step: no other operation interleaves with it.
- Matching one community, prefix or AS-path pattern is an arbitrary function of the pattern and the route, the same for OpenConfig and GoBGP, and so is the removal of the communities a list of patterns matches.
- The diff between two roots is any list of notifications that together carry the difference and nothing else but leaves that are already right. A config request writes config leaves, a state request state leaves; the theorems about the cache say where they need this, and `Transactions.WellBehavedExists` exhibits such an environment.

## Left out

- RibServer: a recalculation in which some lookup never returns ends the run as hanging; the source would exhaust its stack.
- RibServer: interleavings of two callers inside one recalculation; the source holds a read lock on the RIB and takes its other locks one map access at a time, so two recalculations may overlap there.
- The data plane itself (forwarding, SAI server, route programming messages and their next-hop weights) and resolvedRouteToRouteRequest.
- The setInterface calls inside the connected-interface callback, which are steps of the RIB server on their own.
- The gRPC front end SetRoute, the static-route, interface and GUE policy watchers and the JSON constructor of the RIB.
- ZAPI messages and sockets; redistribution is modelled as far as it dereferences the route.
- EgressInterface and connectedRoutesFromConfig, an older lookup over the same tree.
- GoBGP's own server, the merging of unrelated parts of its configuration, and policy actions on MED as IGP metric; a local preference of zero is taken as unset, as the source does.
- PolicyMeaning.TranslationMeans: is stated for neighbors named by addresses, as the OpenConfig schema requires; GoBGP's refusal of a configuration is modelled as undefined applied names and repeated policy or statement names.
- PolicyMeaning.TranslationPreservesMeaning: is the case of TranslationMeans in which every community is handled and every range given.
- PolicyMeaning.RemovingPreservedExactlyWhen: speaks, like MatchingPreservedExactlyWhen, of all routes and matchers together, because on one route two different lists of patterns may happen to hit the same communities.
- AttrIndex.RunIsSound: is stated for fewer than 2^64 calls, because the counter then wraps and the search for a free index need not end; the model keeps both.
- The MED and AS-path parts of attribute sets in the BGP RIB; communities carry the argument.
- Time and progress of the reboot timers; any timer may fire at any step, and a canceller's poll of the clock may be skipped any number of times.
- Origins in authorization paths; both sides are taken to have the same one.
- PathElem.SharedExactlyWhen: is stated for keys without '[', '=' and backslash; key names are identifiers in YANG.
- AclVerdict.VerdictFixedExactlyWhen: is stated for one deepest match, and not for a standoff of a group's denial and a rival's permission by name among three or more matches; NameAndGroupExactlyWhen is the case of two, and DeniesExactlyWhen and OrderIrrelevantExactlyWhen say what is decided among the nodes consulted in the others.
- AclOrder.PolicyVerdictFixedExactlyWhen: is stated for the same cases in terms of rules.
- AclTheorem.PermitIsGranted: is stated for rules with plain names and keys, because other names can pose as keys (NamesCanCollide).
- AclProbe.Probe: requires a root, because the source dereferences it and a trie without any inserted rule has none.
- Transactions.FastPathIsDiffPath: is stated for requests the schema accepts on both roots or on neither, because the source unmarshals such a request twice.
- Interleavings of a config Set and a state Set within one Set; ModesCommute covers whole Sets.
- Subscriptions, origins and timestamps of notifications, the internal origin and the metadata of requests; a stale timestamp appears as a fate of the notification.
