# Verified model of the OCNE cluster API provider

A Dafny model of the parts of the Oracle Cloud Native Environment provider for Cluster API whose correctness spans several
functions or a whole run, with proofs. `dafny verify dfyconfig.toml` checks all of it.

| file | what it models |
|---|---|
| `Conditions.dfy`, `ConditionsPatch.dfy`, `PatchProtocol.dfy`, `PatchProgress.dfy` | the condition list of an API object, the three-way merge of two such lists, and any number of controllers patching one object under the optimistic lock |
| `ConditionsMerge.dfy` | summary and aggregation of conditions into one |
| `Admission.dfy` | the Cluster and ClusterClass webhooks as guards of one store |
| `Rollout.dfy`, `Placement.dfy` | which control plane machines are outdated, and where machines are added and removed |
| `InitLock.dfy`, `Certificates.dfy`, `CertificateCalls.dfy` | the control plane init lock and certificate lookup-or-generate, request by request, interleaved |
| `EtcdMembers.dfy`, `EtcdHealth.dfy`, `CoreDns.dfy` | etcd membership and leadership, the etcd health pass, and the CoreDNS upgrade of a workload cluster |
| `VersionOrder.dfy`, `SemVer.dfy` | version precedence with build tags, the version rule of cluster updates, semantic version strings |
| `PendingHooks.dfy`, `Registry.dfy` | the comma separated hook annotation and the extension registry |
| `Orders.dfy`, `Text.dfy` | sorting, string order, splitting and joining, decimal numbers |

Conventions. A shared store and its concurrent users are a state machine: `Step` does one request, `Run` any sequence of
them, and a request that is not enabled changes nothing, so every theorem about `Run` covers every interleaving and every
place to stop. Objects the code edits in place are classes; their methods are proved equal to functions of the old state.
Clock readings, map iteration orders, replies of remote systems, schema validation, JSON coding and the Corefile migration
are parameters.

## What the code does that its text does not say

These are proved. Where a promise fails there is a lemma at a failing input and one that says exactly when it holds.

- Init lock: deleting a lock whose holder is gone names only the ConfigMap, so a slow delete can remove the next holder's
  lock (`InitLock.StaleDeleteGrantsTwo`). A granted machine that exists stays the recorded holder exactly as long as no
  delete takes effect while the recorded holder was granted the lock and exists, and none that was granted it comes back
  (`InitLock.ExclusiveRun`).
- Admission: a ClusterClass update may drop its machine infrastructure under a cluster with a control plane health check
  definition of its own, which the Cluster webhook then refuses (`Admission.InfrastructureDropped`). All managed clusters
  stay acceptable exactly when no accepted update does that (`Admission.InfraRun`, `Admission.ResubmitExactly`).
- Placement: a machine marked for deletion is removed whatever its domain, which can widen the spread
  (`Placement.MarkedMachineWidens`); the spread holds exactly when no scale-down takes an up-to-date machine from a domain
  that is already that far behind (`Placement.SpreadExactly`).
- No endless rollout holds exactly when the machine template does not contradict the labels and annotations the
  controller writes itself, the sections the bootstrap provider adds to the config say what the control plane says, the
  certificates last longer than the rollout limit, and no rollout time has passed since the machine was created
  (`Rollout.NoPerpetualRollout`). A control plane with a cluster configuration and no init section fails it with any
  template (`Rollout.NoInitSectionReplaced`, `Rollout.FirstMachineReplaced`), and so does a rollout limit longer than
  certificates last (`Rollout.ShortLivedReplaced`).
- CoreDNS: an upgrade attempt is safe wherever it stops exactly when the Corefile entry fits the running image. That fails
  for a second attempt after the first stopped between its second ConfigMap update and the last deployment patch, unless
  the old image also loads the migrated file (`CoreDns.SafeAtEveryStop`, `CoreDns.RerunSafeIff`, `CoreDns.RerunBreaks`).
- The etcd health pass takes for granted that a pod's report has a member named like its node. It dereferences a missing
  member exactly when a pod reports the members the first pod reported and its node is not one of them
  (`EtcdHealth.CrashExactly`), as before the member has a name (`EtcdHealth.UnnamedMemberCrashes`).
- The control plane condition never becomes a false condition of severity info, although the comment announces it
  (`EtcdHealth.InfoNeverReported`).
- Handing etcd leadership to the machine's own node reports success and keeps it the leader (`EtcdMembers.ForwardThenRemove`).
- An accepted update may raise the minor version by two if it goes to a pre-release of the first patch
  (`VersionOrder.AcceptedExactly`). A chain of accepted updates falls in precedence exactly by an update down to 0.0.0 or
  from it to one of its pre-releases (`VersionOrder.ChainNeverFalls`, `VersionOrder.ChainMayFallThroughZero`). With build
  tags it always rises or stays exactly when no update is between versions that cannot be ordered and none needs the
  exemption of 0.0.0 (`VersionOrder.ChainRisesInBuild`, `VersionOrder.ChainMayFallInBuild`).
- A handler name does not identify a handler, since handler and config names may contain dots
  (`Registry.SharedNamesExactly`); an add then takes over another config's entry (`Registry.SharedNameTakesOver`,
  `Registry.LastOperationExactly`).
- The name of the API server's etcd client secret never parses (`SecretNames.ParseInvertsName`).
- The version pattern's character class also lists a vertical bar, but the test of the first character rejects such a
  string before (`SemVer.AcceptsExactly`).

## Model

| member | source | states |
|---|---|---|
| Conditions.GetPermuted | util/conditions/getter.go:40-52 | lookup does not see the order of a list without repeated types |
| Conditions.SortDetermined | util/conditions/setter.go:66-80 | whatever algorithm sorts a list without repeated types by the Ready-first order, the result is the same list |
| Conditions.SetMeaning | util/conditions/setter.go:43-80 | Set stores the given state under its type; an unchanged state keeps its transition time, a changed one gets the current time, a new one the current time unless it came with one; every other type is left alone, types stay distinct and the list sorted |
| Conditions.ReadyFirst | util/conditions/setter.go:166-170 | in a sorted list a Ready condition comes first |
| Conditions.OrderedByType | util/conditions/setter.go:66-80 | after Set, of any two listed types the earlier one is Ready or, neither being Ready, the smaller string |
| Conditions.DeleteMeaning | util/conditions/setter.go:147-160 | Delete removes one type, leaves every other alone and keeps types distinct |
| Conditions.Conditioned.Set | util/conditions/setter.go:43-80 | the in-place loop computes the specified list and writes the transition time into the caller's condition |
| Conditions.Conditioned.Delete | util/conditions/setter.go:147-160 | the loop computes the specified list |
| Conditions.RunMeaning | util/conditions/setter.go:43-160 | along every run of Set and Delete types stay distinct and each type has the state the last edit naming it asked for |
| ConditionsPatch.NewPatch | util/conditions/patch.go:56-91 | the two loops build the specified diff |
| ConditionsPatch.DiffMeaning | util/conditions/patch.go:56-91 | the diff names a type once, and exactly when the two lists differ on it, with the right kind of operation |
| ConditionsPatch.Patch.ApplyAt | util/conditions/patch.go:138-209 | one iteration of Apply, including the time it leaves in the patch itself |
| ConditionsPatch.Patch.Apply | util/conditions/patch.go:128-213 | Apply computes the specified merge, also when it stops at a conflict halfway |
| ConditionsPatch.MergeMeaning | util/conditions/patch.go:128-213 | with distinct types Apply fails exactly when an operation on a type not owned conflicts with the latest list; otherwise every named type has the wanted state and every other type is untouched, times included |
| ConditionsPatch.ThreeWayExactly | util/conditions/patch.go:56-213 | in terms of the three lists: the merge fails exactly when some type that is not overwritten differs before and after and the latest list has it neither as before nor as after; otherwise every touched type ends in its state after, or is gone, and every other stays as it is |
| ConditionsPatch.RetryMeaning | util/conditions/patch.go:128-213 | retrying with the times an earlier attempt left in the patch gives the same verdict and states |
| ConditionsPatch.RoundTrip | util/conditions/patch.go:56-213 | the diff of two lists applied to the first always succeeds and yields the second up to transition times |
| PatchProtocol.WritesSerialize | util/patch/patch.go:182-258 | in every interleaving of any controllers, whose reads may return any past version, each accepted write is Apply of that controller's diff to exactly the list it replaces |
| PatchProgress.PatchLands | util/patch/patch.go:182-258 | a patch that meets no foreign write stores every touched type in its new state with one accepted write, unless it is contested on a type it does not overwrite; then it stores nothing |
| PatchProgress.SendLands | util/patch/patch.go:246-256 | a send that finds the version it read stores its result once, raises the version exactly if the list changed, and ends the call |
| PatchProgress.SendRetries | util/patch/patch.go:246-256 | a send that finds a newer version stores nothing and goes back to reading with the same change while attempts remain |
| PatchProgress.AtMostFiveSends | util/patch/patch.go:217-258 | in every interleaving a call sends at most five times, one attempt less after each send that met a newer version |
| PatchProtocol.StoredStateIsLastWrite | util/patch/patch.go:182-258 | the stored state of a type is the one wanted by the last accepted write naming it, or the initial one; no type is lost |
| PatchProtocol.OnlyOwnersWrite | util/patch/patch.go:182-258 | if controllers only change types they own, every accepted write naming a type is its owner's |
| PatchProtocol.StoredStateIsOwnersLastWrite | util/patch/patch.go:182-258 | then the stored state of a type is always its owner's last accepted write |
| ConditionsMerge.GetConditionGroups | util/conditions/merge.go:76-119 | the loop and the two sorts compute the specified groups |
| ConditionsMerge.MergeIs | util/conditions/merge.go:56-73 | the merged condition has the most urgent status and severity present, taken from exactly the conditions that have them, and counts the True ones |
| ConditionsMerge.MergeUrgency | util/conditions/merge.go:182-201 | the merged status and severity are a False error if any condition is one, else a False warning, else a False info, else True, else Unknown |
| ConditionsMerge.MergeSupplier | util/conditions/merge_strategies.go:95-171 | a merged condition that is not True takes its reason, and its message unless steps are counted, from the condition of the top group whose type comes first in the given order, else sorts first, and of that type from the object whose name sorts first |
| ConditionsMerge.MergeOrderFree | util/conditions/merge.go:56-201 | the merged condition is the same for every permutation of the inputs |
| ConditionsMerge.Summary | util/conditions/getter.go:122-189 | the summary loop and the step counter options compute the specified merge over the selected conditions |
| ConditionsMerge.InScopeExactly | util/conditions/getter.go:122-156 | the summary merges exactly the conditions other than Ready, or those of them with a listed type |
| ConditionsMerge.StepsCountedExactly | util/conditions/getter.go:158-189 | steps are counted exactly when asked for and no selected condition is outside the types the counter is limited to; the total is the number of these types, else of the listed types, else of the selected conditions |
| ConditionsMerge.StepCounterBounded | util/conditions/getter.go:122-189 | the step counter reads "x of y" with x the number of True conditions in scope and x at most y |
| ConditionsMerge.AggregateOrderFree | util/conditions/getter.go:242-261 | aggregating the Ready conditions of objects listed in any order gives the same condition |
| ConditionsMerge.AggregateUrgency | util/conditions/getter.go:242-261 | the aggregate is a False error if some Ready condition is one, else a False warning, else a False info, else True, else Unknown; there is none exactly when no object has a Ready condition |
| Admission.ValidateClusterVariables | internal/topology/variables/cluster_variable_validation.go:44-106 | no error exactly when every value is for a defined variable and valid, and, where asked, every required one is set |
| Admission.ValidateMachineHealthChecks | internal/webhooks/cluster.go:394-461 | no error exactly when every definition given in the topology is well formed, one for the control plane comes with machine infrastructure, and every enabled check without one has a definition in the class |
| Admission.OwnCheckExactly | internal/webhooks/cluster.go:394-430 | a control plane check with a definition is accepted exactly when that is well formed and the class has machine infrastructure, one without exactly when it is not enabled or the class has a definition |
| Admission.MachineDeploymentTopologies | internal/topology/check/compatibility.go:269-329 | no error exactly when worker topologies are named with label values, uniquely, and use a class that exists |
| Admission.ValidateTopology | internal/webhooks/cluster.go:225-383 | no error exactly when the feature is on, class and version are given, the class exists, the topology passes all checks against it and, on update, the checks against the old cluster |
| Admission.ValidateTopologyUpdate | internal/webhooks/cluster.go:294-381 | no error exactly when a class is set on an unmanaged cluster only with the annotation, and otherwise the version rule holds and a changed class is compatible with the old one, which exists |
| Admission.MachineDeploymentClassesAreUnique | internal/topology/check/compatibility.go:249-266 | no error exactly when no two worker classes share a name |
| Admission.ValidateMachineHealthCheckClasses | internal/webhooks/clusterclass.go:537-566 | no error exactly when the definitions in the class are well formed and one for the control plane comes with machine infrastructure |
| Admission.AcceptedExactly | internal/webhooks/cluster.go:225-383 | a topology is accepted against a class exactly when it is well formed, its variables, worker classes and health checks are valid against the class, and a control plane definition of its own comes with machine infrastructure |
| Admission.VariablesForValidation | internal/webhooks/clusterclass.go:446-466 | the loops collect exactly one key for each way in which a variable changed or is required |
| Admission.CheckVariables | internal/webhooks/clusterclass.go:212-263 | the loop over a list of variables reports an error exactly when one of them does not survive the change |
| Admission.ValidateVariableUpdates | internal/webhooks/clusterclass.go:197-303 | no error exactly when every variable of every cluster survives the update and every newly required one is set in each |
| Admission.VariableUpdatesExactly | internal/webhooks/clusterclass.go:197-303 | for clusters with valid variables under the old class, the variable checks of an update pass exactly when all their values and overrides are valid under the new class and whatever it requires is set |
| Admission.ValidateHealthCheckUpdates | internal/webhooks/clusterclass.go:308-367 | no error exactly when no definition that a cluster relies on goes away |
| Admission.ValidateRemovedClasses | internal/webhooks/clusterclass.go:469-503 | no error exactly when no cluster uses a removed worker class; fails if it has to look into absent workers |
| Admission.ValidateClass | internal/webhooks/clusterclass.go:131-189 | the ClusterClass webhook accepts exactly when the feature is on, references, worker classes, health checks, variables and patches are in order and, on update, templates stay compatible and all checks against the clusters pass |
| Admission.UpdateKeepsValid | internal/webhooks/clusterclass.go:131-367 | an accepted class update keeps everything that is demanded of a cluster's topology, except the machine infrastructure rule |
| Admission.UpdateChecksExactly | internal/webhooks/clusterclass.go:159-182 | for clusters valid against the old class, the checks of an update against its clusters pass exactly when each is valid against the new class and has a worker list if a worker class was removed |
| Admission.UpdateAcceptedAgainExactly | internal/webhooks/clusterclass.go:131-367 | after an accepted class update an accepted topology is still acceptable exactly when it has no control plane definition of its own or the class still names machine infrastructure |
| Admission.InfrastructureDropped | internal/topology/check/compatibility.go:213-216 | an accepted class update after which an accepted topology is refused |
| Admission.AlwaysConsistent | internal/webhooks/clusterclass.go:112-189 | along every run of accepted creates, updates and deletes of clusters and classes, every managed cluster's class exists and the topology satisfies everything demanded of it except the machine infrastructure rule |
| Admission.ClassUpdateExactly | internal/webhooks/clusterclass.go:131-189 | in any such store a class update is taken exactly when the class is sound by itself and against its former version, every stored cluster of it is valid against the new version, and each has a worker list if a worker class was removed |
| Admission.ClassDeletedExactly | internal/webhooks/clusterclass.go:112-129 | a class is deleted exactly when no stored cluster uses it, and nothing else changes |
| Admission.ClusterCreatedExactly | internal/webhooks/cluster.go:151-292 | a new managed cluster is stored exactly when its class exists, it is valid against it and keeps the infrastructure rule, the feature is on and the remaining checks pass |
| Admission.ClusterUpdatedExactly | internal/webhooks/cluster.go:151-383 | another version of a stored cluster is taken exactly when it stays unmanaged, or is valid for an existing class and the step in version is allowed and a changed class compatible, or becomes managed with the annotation; a managed cluster never becomes unmanaged |
| Admission.ResubmitExactly | internal/webhooks/cluster.go:225-383 | in any such store sending a managed cluster again unchanged is accepted exactly when the infrastructure rule holds for it, the feature is on, and its version parses with room for two more minors |
| Admission.InfraStep | internal/webhooks/clusterclass.go:131-189 | a write keeps the infrastructure rule for all clusters exactly when it is no accepted class update without infrastructure under a cluster with a control plane definition of its own |
| Admission.InfraRun | internal/webhooks/clusterclass.go:112-189 | over every run the rule always holds exactly when no write is such an update |
| Rollout.MachineConfig.MatchInitOrJoin | controlplane/ocne/internal/filters.go:156-246 | answers the specified comparison and overwrites the machine's own config with the specified rewriting, the control plane's stays |
| Rollout.ComparisonStable | controlplane/ocne/internal/filters.go:156-246 | comparing again rewrites nothing more and answers the same |
| Rollout.MatchesExactly | controlplane/ocne/internal/filters.go:156-246 | the comparison answers yes exactly when no relevant field disagrees; discovery, type metadata and absent join sections never count |
| Rollout.VerdictStable | controlplane/ocne/internal/filters.go:36-118 | however many comparisons ran before, complete or cut short, every machine is judged the same |
| Rollout.OutdatedExactly | controlplane/ocne/internal/control_plane.go:256-282 | a machine needs a rollout exactly when it is not being deleted and has no or another Kubernetes version, lacks a template entry, records another or an unreadable cluster configuration, has a bootstrap config or infrastructure object that disagrees, or a time limit has passed; it is up to date exactly when none of these holds |
| Rollout.SelectorsPartition | controlplane/ocne/internal/control_plane.go:256-282 | whichever selector runs first, machines needing rollout and up-to-date machines that are not being deleted partition the machines that are not being deleted |
| Rollout.ControlPlane.Matches | controlplane/ocne/internal/filters.go:36-118 | the short-circuiting filter answers the specification and only rewrites configs as a comparison would |
| Rollout.ControlPlane.MachinesNeedingRollout | controlplane/ocne/internal/control_plane.go:256-270 | returns exactly the outdated machines that are not being deleted, in whatever order the map is walked |
| Rollout.ControlPlane.UpToDateMachines | controlplane/ocne/internal/control_plane.go:273-282 | returns exactly the machines that are not outdated |
| Rollout.ClonedMatches | controlplane/ocne/internal/filters.go:48-80 | an infrastructure object cloned from the current template, with anything added to its metadata since, matches exactly when the template contradicts no label or mark written on it |
| Rollout.BootstrapMeaning | bootstrap/ocne/internal/controllers/kubeadmconfig_controller.go:284-440 | over any reconciles an init section appears exactly in a config with a cluster configuration, a join section always; sections that were there keep everything that counts |
| Rollout.FilledAgrees | bootstrap/ocne/internal/controllers/kubeadmconfig_controller.go:374-440 | the config still matches exactly when an added init section meets an empty one and an added join section none or one without content |
| Rollout.NoPerpetualRollout | controlplane/ocne/internal/controllers/helpers.go:179-338 | a machine built from the current control plane by the init or join path, after any reconciles of the bootstrap provider and any added metadata, is not outdated exactly when the template contradicts nothing the controller writes, added sections agree, certificates last beyond the limit and no rollout time has passed |
| Rollout.NoInitSectionReplaced | bootstrap/ocne/internal/controllers/kubeadmconfig_controller.go:414-421 | with a cluster configuration and no init section the first machine is outdated whatever the template |
| Rollout.ShortLivedReplaced | util/collections/machine_filters.go:186-198 | a rollout limit longer than certificates last makes every machine outdated at once |
| Rollout.FirstMachineReplaced | bootstrap/ocne/internal/controllers/kubeadmconfig_controller.go:414-421 | one such control plane with an empty template |
| Placement.CountMachines | util/failuredomains/failure_domains.go:91-124 | the counters hold the number of machines of each known domain |
| Placement.PickFewest | util/failuredomains/failure_domains.go:82-89 | for any tie-breaking, a domain with the fewest machines; none exactly when there is no domain |
| Placement.PickMost | util/failuredomains/failure_domains.go:55-70 | a domain that holds a candidate with the most machines among such domains; none exactly when no candidate is in a known domain |
| Placement.Oldest | util/collections/machine_collection.go:168-173 | no machine was created earlier than the chosen one, and of those created with it its name is the smallest; none exactly when there are no machines |
| Placement.FailureDomainWithMostMachines | controlplane/ocne/internal/control_plane.go:148-160 | a candidate outside the known domains decides first, then the fullest domain with a candidate |
| Placement.MachineInFailureDomainWithMostMachines | controlplane/ocne/internal/control_plane.go:128-137 | fails exactly when there are no candidates; takes the oldest candidate outside the known domains whenever one exists, otherwise the oldest of a fullest domain |
| Placement.SelectMachineForScaleDown | controlplane/ocne/internal/controllers/scale.go:237-248 | chooses a marked machine if there is one, an outdated one if a marked one is or none is marked and some is; outside the known domains if a candidate is, else in a fullest domain; none of its domain was created earlier; none exactly when there are no machines |
| Placement.RemoveExactly | controlplane/ocne/internal/control_plane.go:128-160 | removing a machine keeps the spread exactly when no other domain is ahead of its domain by the whole spread |
| Placement.SpreadExactly | controlplane/ocne/internal/control_plane.go:128-168 | over every run of scale-ups and scale-downs, marked machines and unknown domains included, the spread of up-to-date machines stays within bounds exactly when no scale-down takes such a machine |
| Placement.RunKeepsSpread | controlplane/ocne/internal/control_plane.go:128-168 | over every run without marked machines the spread of up-to-date machines never exceeds the larger of one and the first spread |
| Placement.MarkedMachineWidens | controlplane/ocne/internal/controllers/scale.go:237-248 | a marked machine whose removal widens the spread from one to two |
| InitLock.OneMachinePerLock | bootstrap/ocne/internal/locking/control_plane_init_mutex.go:53-141 | in every interleaving all Lock calls that return true between two consecutive successful deletes are for one machine, the one recorded |
| InitLock.GrantedExactly | bootstrap/ocne/internal/locking/control_plane_init_mutex.go:53-112 | a request makes its Lock call return true exactly when it is a get that finds the machine itself recorded or a create that finds no lock; then the machine is recorded |
| InitLock.LockAlone | bootstrap/ocne/internal/locking/control_plane_init_mutex.go:53-112 | a Lock call with nothing in between returns true exactly when there was no lock or the machine held it, removes a lock whose holder is gone, and leaves any other as it is |
| InitLock.UnlockAlone | bootstrap/ocne/internal/locking/control_plane_init_mutex.go:115-141 | an Unlock call with nothing in between returns true and leaves no lock |
| InitLock.LockRetried | bootstrap/ocne/internal/locking/control_plane_init_mutex.go:53-112 | a machine that asks twice gets the lock exactly unless it is unreadable or held by another machine that exists |
| InitLock.OneMachineEver | bootstrap/ocne/internal/locking/control_plane_init_mutex.go:53-141 | if Unlock is never called and no holder disappears, at most one machine ever gets the lock, existing or not |
| InitLock.ExclusiveStep | bootstrap/ocne/internal/locking/control_plane_init_mutex.go:53-141 | a step keeps every granted machine that exists the recorded holder exactly when it is no delete that takes effect while the recorded holder was granted the lock and exists, and brings no granted machine back |
| InitLock.ExclusiveRun | bootstrap/ocne/internal/locking/control_plane_init_mutex.go:53-141 | over any run, with clean-up after lost holders, Unlock and lost replies, the lock stays exclusive throughout exactly when no step is of that kind |
| InitLock.ExclusiveMeaning | bootstrap/ocne/internal/locking/control_plane_init_mutex.go:53-141 | while it is exclusive at most one existing machine was ever granted the lock |
| InitLock.DisturbedGrantsTwo | bootstrap/ocne/internal/locking/control_plane_init_mutex.go:76-84 | after such a delete any other machine that calls Lock is granted it while the first holder exists |
| InitLock.StaleDeleteGrantsTwo | bootstrap/ocne/internal/locking/control_plane_init_mutex.go:64-84 | for any machines, once a holder is gone two existing machines can both be granted the lock |
| SecretNames.NamesInjective | util/secret/secret.go:54-57 | different clusters or purposes never share a secret name |
| SecretNames.ParseInvertsName | util/secret/secret.go:60-73 | parsing returns cluster and purpose exactly for the purposes without a dash, and always fails for the one with dashes |
| SecretNames.NameInvertsParse | util/secret/secret.go:54-73 | whatever parses is the name of what it parses to |
| Certificates.NewCertificatesForInitialControlPlane | util/secret/certificates.go:68-116 | the list has distinct known purposes, nothing looked up, and an etcd client pair only as external |
| CertificateCalls.Lookup | util/secret/certificates.go:194-219 | succeeds exactly when no get fails and every secret is well formed or absent and not required; then each certificate holds its stored pair, or has no secret and is unchanged; the loop is a run of the interleaved lookup requests |
| CertificateCalls.GenerateMissing | util/secret/certificates.go:240-250 | the loop generates exactly the missing pairs, never the etcd client's |
| CertificateCalls.SaveGenerated | util/secret/certificates.go:253-264 | succeeds exactly when no create fails and no name is taken; it changes no stored secret, and on success every generated pair is stored and nothing else is added; the loop is a run of the interleaved create requests |
| CertificateCalls.LookupOrGenerate | util/secret/certificates.go:267-280 | one call with nothing in between succeeds exactly when no request fails and every secret it needs is there and well formed; then every certificate is stored, those that were there with the pair they had, the others with the generated one |
| Certificates.SucceededHoldStored | util/secret/certificates.go:194-280 | in every interleaving of any calls, stopped anywhere, a stored secret never changes and a call that succeeds holds exactly the stored pair for each certificate |
| Certificates.SucceededAgree | util/secret/certificates.go:194-280 | any two calls that succeed for a cluster agree on every key pair they both hold |
| Certificates.ClustersApart | util/secret/certificates.go:194-280 | calls for different clusters or purposes use different secrets |
| CoreDns.Deployment.PatchVolumeKeys | controlplane/ocne/internal/workload_cluster_coredns.go:412-422 | only items of the CoreDNS config volume that have either key get the new key |
| CoreDns.Deployment.PatchImage | controlplane/ocne/internal/workload_cluster_coredns.go:424-431 | only containers named coredns get the image |
| CoreDns.Deployment.PatchTolerations | controlplane/ocne/internal/workload_cluster_coredns.go:441-479 | the standard tolerations first, then all others in order |
| CoreDns.Api.Update | controlplane/ocne/internal/workload_cluster_coredns.go:363-410 | migration and the four writes in order, each only after the one before, give the specified cluster at every stop |
| CoreDns.TolerationsStable | controlplane/ocne/internal/workload_cluster_coredns.go:441-479 | other tolerations keep their order and a second patch changes nothing |
| CoreDns.TolerationsExactly | controlplane/ocne/internal/workload_cluster_coredns.go:441-479 | afterwards the control-plane taint is tolerated, the old one exactly before version 1.26, and besides exactly the tolerations that do not name either that way |
| CoreDns.UpdateExactly | controlplane/ocne/internal/workload_cluster_coredns.go:109-256 | an attempt writes nothing when there is no Corefile, no CoreDNS container, an invalid tag, the image already running or no migration; any other writes the backup first and, if not cut off, changes the cluster |
| CoreDns.MountedPatched | controlplane/ocne/internal/workload_cluster_coredns.go:412-422 | patching the volume key moves every mount of either Corefile key to the new one and touches no other |
| CoreDns.SafeAtEveryStop | controlplane/ocne/internal/workload_cluster_coredns.go:363-410 | an attempt leaves the deployment with a file its images can load wherever it stops, exactly when the mounted files and the Corefile entry fit at the start |
| CoreDns.CompletedMeaning | controlplane/ocne/internal/workload_cluster_coredns.go:258-272 | a completed attempt runs only the target image, mounts only the migrated Corefile and keeps the old one as backup |
| CoreDns.RunHealthy | controlplane/ocne/internal/workload_cluster_coredns.go:109-161 | over any attempts of which only the last is cut off before the final patch, CoreDNS always has a file it can load |
| CoreDns.RerunBreaks | controlplane/ocne/internal/workload_cluster_coredns.go:363-410 | a cluster, two images and a migration for which the attempt after a cut-off leaves the old image with the new file |
| CoreDns.RerunSafeIff | controlplane/ocne/internal/workload_cluster_coredns.go:363-410 | after such a cut-off the next attempt is safe at every stop exactly when the old images can load the migrated file |
| EtcdMembers.GetControlPlaneNodes | controlplane/ocne/internal/workload_cluster.go:140-166 | every node with either label, once |
| EtcdMembers.RemoveMeaning | controlplane/ocne/internal/workload_cluster_etcd.go:126-165 | a removal takes out at most the one member of that name, the serving member survives, etcd is never left empty, and without an error the name is gone |
| EtcdMembers.RemoveExactly | controlplane/ocne/internal/workload_cluster_etcd.go:126-165 | a removal succeeds exactly when there are two control plane nodes, the first of the others whose pod answers lists the members and, unless the member is gone already, the request goes through; the members change exactly when the member is there and the request takes effect |
| EtcdMembers.ReconcileMeaning | controlplane/ocne/internal/workload_cluster_etcd.go:41-95 | reconciliation never removes an unnamed member, one with a listed node, or the last one; it reports every removal and, if some pod listed the members and no removal failed, leaves only members with a node or no name |
| EtcdMembers.ReconcileCleans | controlplane/ocne/internal/workload_cluster_etcd.go:41-95 | while one of the given nodes runs a member and requests go through, reconciliation reports no error and leaves exactly the members with one of the nodes or no name |
| EtcdMembers.ForwardThenRemove | controlplane/ocne/internal/workload_cluster_etcd.go:168-213 | after a successful hand-over and no election, removing the machine's member takes the leader away exactly when the candidate was that same node and it led |
| EtcdMembers.ForLeaderExactly | controlplane/ocne/internal/etcd_client_generator.go:91-160 | a client of the leader is found exactly when some node's pod lists the members, the leader runs on one of the nodes and its pod answers |
| EtcdMembers.ForwardExactly | controlplane/ocne/internal/workload_cluster_etcd.go:168-213 | forwarding reports no error exactly when there is a candidate with a node, the leader is reached and lists the members and, if the machine leads, the candidate is a member and the request goes through; a machine that does not lead changes nothing and is no error |
| EtcdMembers.NeverEmpty | controlplane/ocne/internal/workload_cluster_etcd.go:41-213 | no sequence of removals, reconciliations, hand-overs, joins and elections leaves etcd without a member |
| EtcdMembers.Workload.FirstAvailableNode | controlplane/ocne/internal/etcd_client_generator.go:70-88 | the first listed node whose pod answers |
| EtcdMembers.FirstServes | controlplane/ocne/internal/etcd_client_generator.go:70-88 | of the nodes other than the one removed, the first whose pod is up and belongs to a member serves |
| EtcdMembers.Workload.RemoveMember | controlplane/ocne/internal/workload_cluster_etcd.go:126-165 | the call computes the specified removal and error |
| EtcdMembers.Workload.ReconcileEtcdMembers | controlplane/ocne/internal/workload_cluster_etcd.go:41-95 | the nested loops compute the specified pass |
| EtcdMembers.Workload.LeaderClient | controlplane/ocne/internal/etcd_client_generator.go:91-160 | the search loop finds the leader's id through the first reachable node, or says why not |
| EtcdMembers.Workload.ForwardEtcdLeadership | controlplane/ocne/internal/workload_cluster_etcd.go:168-213 | the call computes the specified hand-over and error |
| EtcdHealth.ControlPlane.UpdateManagedEtcdConditions | controlplane/ocne/internal/workload_cluster_conditions.go:61-168 | the pass sets machine and control plane conditions as specified, including when nodes cannot be listed |
| EtcdHealth.ControlPlane.VisitNode | controlplane/ocne/internal/workload_cluster_conditions.go:88-152 | the body of the node loop, branch by branch |
| EtcdHealth.ControlPlane.CompareMachinesAndMembers | controlplane/ocne/internal/workload_cluster_conditions.go:197-239 | machines without a member are marked, members without a machine are counted |
| EtcdHealth.ControlPlane.AggregateFromMachines | controlplane/ocne/internal/workload_cluster_conditions.go:516-583 | the control plane condition follows the priority as coded |
| EtcdHealth.HealthyExactly | controlplane/ocne/internal/workload_cluster_conditions.go:61-168 | a visited machine ends healthy exactly when it is not being deleted, its pod reports the baseline's members and cluster and no alarm, and its node is a member |
| EtcdHealth.MarksExactly | controlplane/ocne/internal/workload_cluster_conditions.go:61-239 | the condition of every machine whose node was visited, case by case, in terms of the first report and the first cluster id |
| EtcdHealth.UnvisitedKept | controlplane/ocne/internal/workload_cluster_conditions.go:61-221 | a machine without a visited node keeps its condition unless its node is not one of the members |
| EtcdHealth.ErrorsExactly | controlplane/ocne/internal/workload_cluster_conditions.go:88-239 | errors without a machine are there exactly when a node has no machine while none is coming up, or a member has none |
| EtcdHealth.AggregateExactly | controlplane/ocne/internal/workload_cluster_conditions.go:516-583 | the control plane is healthy exactly when nothing is wrong anywhere and some machine is; unknown exactly when nothing is wrong, none is healthy and some is unknown; untouched exactly when all that is known is info |
| EtcdHealth.HealthyMachinesAgree | controlplane/ocne/internal/workload_cluster_conditions.go:61-168 | any two visited machines that end healthy reported the same members and cluster, list each other, and have no alarm |
| EtcdHealth.ClusterHealthySound | controlplane/ocne/internal/workload_cluster_conditions.go:61-239 | when the pass reports the cluster healthy, every node has a machine or one is coming up, every reporting pod agrees, and members and machines match by name |
| EtcdHealth.OrphanForcesError | controlplane/ocne/internal/workload_cluster_conditions.go:223-239 | a reported member without a machine makes the cluster condition a false error |
| EtcdHealth.InfoNeverReported | controlplane/ocne/internal/workload_cluster_conditions.go:563-567 | the info rule never fires; code and comment agree exactly when no info condition decides |
| EtcdHealth.CrashExactly | controlplane/ocne/internal/workload_cluster_conditions.go:81-124 | the pass dereferences a missing member exactly when some pod reports the members the first pod reported and its node is not one of them; otherwise the baseline is the first report |
| EtcdHealth.UnnamedMemberCrashes | controlplane/ocne/internal/workload_cluster_conditions.go:121-124 | the pass does so when the only pod reports its own member without a name |
| VersionOrder.CompareBuildIds | util/version/version.go:106-123 | the index loop computes the recursive comparison |
| VersionOrder.PreMeaning | util/version/version.go:220-240 | where pre-release identifiers first differ a number is below text and the smaller number or text is below; a proper prefix is below |
| VersionOrder.ReleaseMeaning | util/version/version.go:220-240 | precedence goes by major, minor and patch in this order, and a pre-release is below its release |
| VersionOrder.BuildMeaning | util/version/version.go:93-175 | between equal releases, where build tags first differ a number is below text, the smaller number is below, and different texts cannot be ordered; a proper prefix is below |
| VersionOrder.ReleaseLawful | util/version/version.go:220-240 | precedence without build tags is a total preorder (Semantic Versioning 2.0.0, item 11) |
| VersionOrder.CompareLawful | util/version/version.go:106-240 | with build tags less is transitive and mirrored by greater, equal is an equivalence all comparisons respect, different is symmetric |
| VersionOrder.LowestIsLeast | util/collections/machine_collection.go:225-232 | the lowest version is a machine's and no machine's is below it, if no two versions differ only in build text |
| VersionOrder.LowestOrderFree | util/collections/machine_collection.go:213-232 | it does not depend on the order in which machines are walked |
| VersionOrder.AcceptedExactly | internal/webhooks/cluster.go:313-361 | an update is accepted exactly when it stays below the first release two minor versions up and is no decrease unless 0.0.0 is involved; otherwise that means the same major number and one minor more at most, or two to a pre-release, without wrapping around 64 bits |
| VersionOrder.FallsExactly | internal/webhooks/cluster.go:313-361 | an accepted update goes down in precedence exactly when it goes down to 0.0.0 or from it to one of its pre-releases; any other keeps the major and does not lower the minor number |
| VersionOrder.ChainNeverFalls | internal/webhooks/cluster.go:313-361 | along any chain of accepted updates precedence never falls exactly when no single update does, as in any chain without 0.0.0; then the minor never falls and the major never changes |
| VersionOrder.ChainRisesInBuild | internal/webhooks/cluster.go:313-361 | along any chain of accepted updates the version with build tags always rises or stays exactly when no update is between versions that cannot be ordered and none needs the exemption of 0.0.0 |
| VersionOrder.ChainMayFallInBuild | internal/webhooks/cluster.go:336-345 | a chain of accepted updates that comes back down in build tags |
| VersionOrder.ChainMayFallThroughZero | internal/webhooks/cluster.go:336-345 | a chain of accepted updates that comes down through 0.0.0 |
| VersionOrder.BuildTextIncomparable | util/version/version.go:150-175 | two versions that can be ordered and one that can be ordered with neither |
| SemVer.MatchesOnlyGroups | util/ocne/semver.go:16 | however the pattern's groups are filled by a match, they are the ones computed |
| SemVer.GroupsMatch | util/ocne/semver.go:16 | the computed groups are a match |
| SemVer.AcceptsExactly | util/ocne/semver.go:42-151 | a string parses to a version exactly when the version is valid and the string is its printed form, bare or after v or V |
| PendingHooks.Tracked.MarkAsPending | internal/hooks/tracking.go:36-60 | the annotation becomes the specified list |
| PendingHooks.Tracked.MarkAsDone | internal/hooks/tracking.go:75-102 | the annotation becomes the specified list, or goes away |
| PendingHooks.SortedCanonical | internal/hooks/tracking.go:137-152 | the stored list depends only on the set of items |
| PendingHooks.PendingMeaning | internal/hooks/tracking.go:36-60 | marking adds exactly the given hooks |
| PendingHooks.DoneMeaning | internal/hooks/tracking.go:75-102 | marking as done removes exactly the given hooks and drops the annotation exactly when no name remains |
| PendingHooks.LastEditDecides | internal/hooks/tracking.go:36-102 | after any history from any annotation a hook is pending exactly when the last edit naming it marked it, or none did and it was pending at the start |
| Registry.ExtensionRegistry.WarmUp | internal/runtime/registry/registry.go:103-130 | succeeds once, with all configs or none; a failed warm-up leaves the registry empty and not ready |
| Registry.ExtensionRegistry.AddConfig | internal/runtime/registry/registry.go:145-158 | needs a ready registry; replaces the config's entries all or nothing |
| Registry.ExtensionRegistry.RemoveConfig | internal/runtime/registry/registry.go:161-183 | needs a ready registry; removes exactly the config's entries |
| Registry.ExtensionRegistry.List | internal/runtime/registry/registry.go:186-208 | exactly the registrations of the hook, each once, in whatever order the map is walked |
| Registry.ExtensionRegistry.Get | internal/runtime/registry/registry.go:211-225 | the entry under the name, if the registry is ready |
| Registry.AddMeaning | internal/runtime/registry/registry.go:227-270 | a successful add leaves exactly the new handlers for the config and a failed one none; other configs change only where names are taken over |
| Registry.RegistrationsExactly | internal/runtime/registry/registry.go:227-270 | a handler is registered under its name with its own group, version and hook for its config, the last one of a name counting |
| Registry.WarmUpIsAdds | internal/runtime/registry/registry.go:103-130 | warming up comes to adding the configs one after another and works exactly when each is valid |
| Registry.LastOperationExactly | internal/runtime/registry/registry.go:145-270 | over any adds and removes a config's entries are what the last operation on it asked for exactly when no successful add of another config has taken one of those names since |
| Registry.LastOperationDecides | internal/runtime/registry/registry.go:145-270 | they always are when no handler name is used by two configs |
| Registry.SharedNamesExactly | internal/runtime/client/client.go:157-172 | two handlers share a name exactly when they are the same or one is the other shifted by a dotted part |
| Registry.SharedNameTakesOver | internal/runtime/registry/registry.go:227-270 | an add of a config with a shared name takes away the other config's entry |
| Registry.AggregateRetry | internal/runtime/client/client.go:248-276 | the loop folds the retry times |
| Registry.FoldMeaning | internal/runtime/client/client.go:279-290 | the result is the least non-zero retry time, zero exactly when there is none |
| Registry.FoldOrderFree | internal/runtime/client/client.go:248-290 | the order of the answers does not matter |

## Left out

- Process wiring, flags, logging, metrics, HTTP, TLS, etcd dialing, kubeconfig, X.509 and PEM: foreign calls or no deep property.
- JSON, YAML and unstructured conversion, deep copies: taken as faithful; the cluster configuration annotation is decoded by a parameter.
- OpenAPI schema validation, defaulting and pruning of variables: an uninterpreted predicate of schema and value.
- Cloud-init and ignition templates, shell commands, static pod conditions, mirroring of conditions, owner references: would only add easy members.
- Error and message texts, except the merged message and the step counter. A merged message goes through a format call; messages are taken to have no percent sign.
- ConditionsPatch.NewPatch: does not model the errors for nil objects.
- ConditionsPatch.Patch.Apply: does not model the errors for nil objects; clock readings are given as a list.
- Conditions.SortDetermined: does not cover lists that already repeat a type, which no run of Set and Delete reaches from a list without repeats.
- ConditionsMerge.MergeOrderFree: requires tidy severities and distinct pairs of type and source name, without which the sort leaves ties.
- PatchProtocol.WritesSerialize: models the status conditions patch only, not the other two patches of the helper.
- Admission.ValidateTopology: checks of a single value (label values, version syntax, health check definitions) are parameters.
- Admission.ValidateClass: checks of references, of the class's own variables and of patches, and of template compatibility, are parameters.
- Admission.AlwaysConsistent: each check and its write are one step on the current store, so races between admission requests are not modelled.
- Rollout.NoPerpetualRollout: cloned-from annotations are written by a library that is not part of this model; the hash of long label values is a parameter.
- InitLock.OneMachinePerLock: encoding the lock record into JSON always succeeds here; a record that cannot be decoded is modelled.
- CertificateCalls.LookupOrGenerate: the key pair generator never fails here.
- Certificates.SucceededHoldStored: one namespace; secrets are created but never edited or deleted by others.
- CoreDns.SafeAtEveryStop: image parsing, tag validation and the cluster role are parameters or left out, and nobody else edits the two objects during an attempt; a deployment patch is one write.
- EtcdHealth.ControlPlane.UpdateManagedEtcdConditions: machines are walked in one fixed order, given as a list, where the code walks a map several times.
- VersionOrder.AcceptedExactly: starts from parsed versions; the tolerant parser is a library that is not part of this model.
- VersionOrder.LowestIsLeast: requires comparable versions; BuildTextIncomparable shows why, since then the comparator is no weak order and the sort promises nothing.
- SemVer comparison methods: only parsing and printing are modelled.
- Registry.FoldMeaning: messages of the answers are not aggregated.
