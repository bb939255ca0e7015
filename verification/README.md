# Operator SDK: a verified model of its algorithms and of the Helm reconciler

This project models, in Dafny 4.11, the parts of the Operator SDK where the result depends on more than one
function: how a ClusterServiceVersion's owned definitions are reordered by repeated generation, how RBAC manifests
become permissions, how catalog documents are packed into ConfigMaps, what the Helm reconciler does to a custom
resource and its release over whole runs, how upgrade channels grow, and how the scorecard's goroutines share a channel.

Code that works in place is modelled by classes, arrays and loops, each method proved against a specification
function or predicate; what the program is meant to guarantee is proved about those as lemmas. A Go map's iteration
order is any order (`Slices.RangeKeys`), and `sort.Slice` is any sorted rearrangement (`Slices.SortSlice`).

A specification function that follows a loop says little by itself. For each main operation there is therefore also a
statement that uses neither it nor the helpers it shares with the code: on characters, list positions, subjects of
bindings or conditions of a status. The lemmas whose names end in `Read`, `Says` or `Iff` give it, and the methods
ensure it where they can.

| module | subject |
|---|---|
| `CrdOrder`, `CrdConvergence` | ordering of owned CRD descriptions; convergence of repeated generation |
| `FieldWalk`, `Descriptors`, `DescriptorChains` | breadth-first walk of Go types; the bucket sort of descriptors; both together |
| `RbacSplit`, `RbacReading`, `RbacConservation`, `RbacFold`, `RbacMeaning` | RBAC split and fold |
| `GreedyPacking`, `Partition`, `PartitionContent` | packing catalog documents into ConfigMaps |
| `HelmStatus`, `HelmManager`, `HelmReconcile`, `HelmRuns`, `HelmReading` | status conditions, release manager, one reconcile call, whole runs, what the status says |
| `MergeMaps` | merging override values |
| `ChannelGraph` | channel heads and upgrades of file-based catalogs |
| `Scorecard` | parallel and sequential test stages |
| `RegistryStaleness`, `RegistryReading` | the ConfigMap registry and its staleness check; its names and files |
| `RelatedImages`, `RelatedImageWalk` | the related-image collector and the walk that feeds it |
| `InstallModes` | the install mode flag |
| `Slices`, `Text` | sorting, map ranges, picking from a sequence, string order, white space |

`dafny verify dfyconfig.toml` checks everything.

## What turned out not to hold as intended

The code is modelled as written. Where it does not do what its names or comments suggest, the exact condition is proved:

- Regeneration is stable only if every generated description leads back to a key of the definitions. A resource path
  with a dot can break that, and the list then grows with every run (`RegenerationConverges`, `RecognizedIff`,
  `DottedPathGrows`).
- Two RoleBindings giving one Role to CSV accounts make the second lookup yield nil, which is then dereferenced
  (`NilIffNamedTwice`, `NoPanicIff`, `SharedRolePanics`).
- `isEmpty` of the ConfigMap writer answers true when the buffer has content, and the loop relies on that. The limit is
  checked only when a document joins another, so that a ConfigMap of one document can exceed it (`WithinIff`,
  `WithinIfEach`, `OversizedDocument`).
- A binding with subjects inside and outside the CSV accounts is written beside the CSV while its Role goes into the
  CSV (`LeftWithoutRole`).
- A release installed just before the write of the finalizer fails can outlive its resource (`OrphansIff`,
  `OrphanedRelease`).
- Upgrading an existing channel with `upgradeFBC` keeps only the last new entry, or panics when the channel is not the
  first of the catalog (`UpgradeFbc`, `UpgradeForgets`, `SecondChannelPanics`, `FirstBundleLost`).
- ConfigMap names that collide make a registry stale for ever (`FreshDataIff`, `VersionCollisionIff`,
  `PreReleaseAndBuildCollide`).
- Related images whose name and reference join to the same key are taken for duplicates (`CollectedIff`,
  `LostReference`).
- `mergeMaps` is not associative around a scalar between two maps (`AssociativeIff`, `OrderMatters`).
- `getMarkedChildrenOfField` is described as depth-first; it goes breadth-first, and never ends on a recursive type
  (`WalkEndsIffAcyclic`, `SelfReferenceGoesOn`).
- Setting an install mode flag twice accumulates targets (`SetAgain`).

## Model

| member | source | states |
|---|---|---|
| CrdOrder.Csv.UpdateDefinitionsByKey | internal/generate/clusterserviceversion/bases/definitions/definitions.go:105-139 | in place: the new Owned list holds each generated description once and each hand-written one once, by order; at equal order generated before hand-written, and of generated ones the smaller name first, then the smaller kind, then the newer version, stated on the entries themselves, whatever the map iteration orders |
| CrdOrder.StepIff | internal/generate/clusterserviceversion/bases/definitions/definitions.go:105-152 | the outcomes of one regeneration are exactly the lists that show every entry once, in that order |
| CrdOrder.DefinedIff | internal/generate/clusterserviceversion/bases/definitions/definitions.go:119-161 | a description counts as generated if and only if some definition has its version, its kind and, as group, what follows the first dot of its name |
| CrdOrder.Csv.AddHandWritten | internal/generate/clusterserviceversion/bases/definitions/definitions.go:120-126 | hand-written entries join the bucket of their current index, behind the sorted generated ones; the entries of definitions are left out |
| CrdOrder.Csv.Rebuild | internal/generate/clusterserviceversion/bases/definitions/definitions.go:128-138 | appending the buckets by ascending order yields one sorted arrangement of all entries |
| CrdOrder.BucketGenerated | internal/generate/clusterserviceversion/bases/definitions/definitions.go:106-111 | after ranging over the definitions in any order the buckets hold exactly the generated descriptions, each once, under their order |
| CrdOrder.SortBuckets | internal/generate/clusterserviceversion/bases/definitions/definitions.go:113-117 | sorting the buckets one by one keeps what they hold and leaves each sorted by the less function |
| CrdOrder.LessForCrdIsWeakOrder | internal/generate/clusterserviceversion/bases/definitions/definitions.go:142-152 | the less function is a strict weak ordering, as sort.Slice needs, for every version comparison that orders versions |
| CrdConvergence.ArrangementUnique | internal/generate/clusterserviceversion/bases/definitions/definitions.go:105-139 | if the less function separates the generated descriptions, one run has one possible result, regardless of iteration order |
| CrdConvergence.HandWrittenMove | internal/generate/clusterserviceversion/bases/definitions/definitions.go:119-138 | over a run of regenerations the k-th hand-written entry moves to index k plus the number of generated entries whose order is at most its old index |
| CrdConvergence.OneRunPlacement | internal/generate/clusterserviceversion/bases/definitions/definitions.go:119-138 | one regeneration puts the k-th hand-written entry at k plus the number of definitions of order at most its old index, even where ties leave the generated order open |
| CrdConvergence.OneRunCount | internal/generate/clusterserviceversion/bases/definitions/definitions.go:119-138 | one regeneration keeps the number of hand-written entries or, if some generated description is not recognized, raises it |
| CrdConvergence.PositionsConverge | internal/generate/clusterserviceversion/bases/definitions/definitions.go:105-139 | with ties too: the hand-written entries and their indices are stable after G+1 runs if and only if every generated description leads back to a key of the map |
| CrdConvergence.Settles | internal/generate/clusterserviceversion/bases/definitions/definitions.go:119-138 | the index of a hand-written entry, followed over repeated runs, is the same after one run more than there are generated entries and after the next |
| CrdConvergence.RegenerationConverges | internal/generate/clusterserviceversion/bases/definitions/definitions.go:105-139 | repeated regeneration is stable after G+1 runs, for G definitions, if and only if every generated description leads back to a key of the map; otherwise every further run makes the list longer |
| CrdConvergence.BoundIsAttained | internal/generate/clusterserviceversion/bases/definitions/definitions.go:105-139 | for every number G of definitions there are self-keyed ones and a run that regeneration number G+1 still changes, while the next does not: the bound cannot be lowered for any G |
| CrdConvergence.WellKeyedSeparated | internal/generate/clusterserviceversion/bases/definitions/definitions.go:142-161 | descriptions that lead back to their own keys are separated by the less function and recognized, if the version comparison separates the versions that occur |
| CrdConvergence.OwnKeyRecovered | internal/generate/clusterserviceversion/bases/definitions/crd.go:39-56 | a generated description named path.group leads back to its own key if and only if the resource path has no dot |
| CrdConvergence.RecognizedIff | internal/generate/clusterserviceversion/bases/definitions/crd.go:39-56 | with such names, all descriptions lead back to keys of the map if and only if every path with a dot leads to the key of another definition |
| CrdConvergence.DottedPathGrows | internal/generate/clusterserviceversion/bases/definitions/definitions.go:119-126 | a concrete definition whose path has a dot: the list grows with every run |
| FieldWalk.GetMarkedChildrenOfField | internal/generate/clusterserviceversion/bases/definitions/ast.go:96-181 | on an acyclic type graph the walk terminates; it fails exactly if there were errors or some reachable field has an unparsable tag, else it returns, filed by owning type, the entries of all marked chains in enumeration order |
| FieldWalk.WalkIsEnumeration | internal/generate/clusterserviceversion/bases/definitions/ast.go:104-174 | the chains filed under a type are exactly the reference chains from the root to a marked field of that type, each once, shorter ones first |
| FieldWalk.WalkEndsIffAcyclic | internal/generate/clusterserviceversion/bases/definitions/ast.go:107-174 | the work list becomes empty at some level if and only if no chain passes through a type twice |
| FieldWalk.CyclicGoesOn | internal/generate/clusterserviceversion/bases/definitions/ast.go:107-174 | on a cyclic graph every level of the walk has a field, so the loop never ends |
| FieldWalk.SelfReferenceGoesOn | internal/generate/clusterserviceversion/bases/definitions/ast.go:107-174 | a concrete type with a field of its own type, on which it never ends |
| FieldWalk.UpToMembers | internal/generate/clusterserviceversion/bases/definitions/ast.go:104-174 | the first n levels together list the chains of length 1 to n, each once, shorter ones first |
| FieldWalk.ChainLength | internal/generate/clusterserviceversion/bases/definitions/ast.go:107-174 | on an acyclic graph no chain is longer than the number of types: the termination measure |
| FieldWalk.LevelMembers | internal/generate/clusterserviceversion/bases/definitions/ast.go:104-174 | the fields after n rounds are exactly those that chains of length n lead to, each chain once |
| FieldWalk.WalkLevel | internal/generate/clusterserviceversion/bases/definitions/ast.go:108-173 | one round: the next fields and the newly filed ones are those of the chains one reference longer, in order |
| FieldWalk.InspectField | internal/generate/clusterserviceversion/bases/definitions/ast.go:110-171 | inspecting a field adds the children of every known type it mentions, in the order of mention |
| Descriptors.GetTypedDescriptors | internal/generate/clusterserviceversion/bases/definitions/crd.go:136-165 | the result is all included descriptors, as often as they occur, sorted by order and then by path, whatever the iteration orders |
| Descriptors.FillBuckets | internal/generate/clusterserviceversion/bases/definitions/crd.go:137-147 | after ranging over the fields in any order, bucket o holds the included descriptors of order o and the orders list names exactly the buckets |
| Descriptors.CollectBuckets | internal/generate/clusterserviceversion/bases/definitions/crd.go:148-158 | deleting buckets while walking the sorted orders, repeats included, emits every descriptor once |
| Descriptors.DescriptorsDeterministic | internal/generate/clusterserviceversion/bases/definitions/crd.go:136-189 | the descriptors do not depend on the iteration order if no two that are included share order and path |
| Descriptors.MakePath | internal/generate/clusterserviceversion/bases/definitions/markers.go:182-204 | the loop over the segments, with its early returns, computes the path, and no path exactly if one is to be left out |
| Descriptors.PathRead | internal/generate/clusterserviceversion/bases/definitions/markers.go:182-204 | a path has the segments that are not inlined, in order and joined by dots, the last one without its array suffix |
| Descriptors.PathLeftOut | internal/generate/clusterserviceversion/bases/definitions/markers.go:182-204 | a field has no path exactly if it or a field above it is not serialized, or it is itself inlined |
| DescriptorChains.DescriptorsOfField | internal/generate/clusterserviceversion/bases/definitions/crd.go:120-134 | walk and bucket sort together: fails exactly if there were errors or some reachable field has an unparsable tag, else the descriptors are, sorted by order and then by path, one for each reference chain whose last field is marked and whose path and markers include it |
| DescriptorChains.ShownRead | internal/generate/clusterserviceversion/bases/definitions/markers.go:135-204 | when a chain shows nothing; and else the order, contents and path, made of the tags of the fields it goes through, with an array suffix where the field is one |
| DescriptorChains.OneForEachChain | internal/generate/clusterserviceversion/bases/definitions/crd.go:136-165 | what is listed from the entries filed under all types is listed from the chains, each chain once, none left out |
| DescriptorChains.ChainsOfTypes | internal/generate/clusterserviceversion/bases/definitions/crd.go:138-147 | the descriptors included under any set of types are, as often as they occur, those of the chains that lead into these types |
| RbacSplit.DropCsvSubjects | internal/generate/collector/clusterserviceversion.go:155-162 | the index loop with back-stepping leaves in the shared array exactly the subjects outside the CSV accounts, in order, and says whether one was dropped |
| RbacSplit.PartialBindings.GetRolesBoundToPartialBindings | internal/generate/collector/clusterserviceversion.go:145-174 | the outer deletion loop ends; it returns in order the role names of resolving bindings with a CSV subject and leaves exactly the bindings that do not resolve or have some other subject, in order |
| RbacSplit.SecondPassOnValues | internal/generate/collector/clusterserviceversion.go:89-91 | running the pass for ClusterRoles over what the pass for Roles left gives the names and leftovers of one pass over the original bindings |
| RbacSplit.PassTwice | internal/generate/collector/clusterserviceversion.go:66-90 | both passes over copies of the RoleBindings, with the subjects the first pass already dropped, name and leave what the original bindings say |
| RbacSplit.Manifests.SplitCsvPermissionsObjects | internal/generate/collector/clusterserviceversion.go:39-132 | the split is the one the bindings prescribe, and the collector, its bindings and their subjects are unchanged (the method modifies nothing) |
| RbacReading.AccountsIff | internal/generate/collector/clusterserviceversion.go:40-51 | an account is one of the CSV exactly if a deployment names it, or names none and it is the default one, or it is extra |
| RbacReading.GivesIff | internal/generate/collector/clusterserviceversion.go:145-174 | which bindings a pass names and which it keeps, on the kind, group and name of the reference and the kind and name of each subject |
| RbacReading.SplitRead | internal/generate/collector/clusterserviceversion.go:93-129 | the three lists read off the manifests: roles binding by binding, nil where a Role is named again; every other Role and ClusterRole once; the bindings that stay and the accounts outside the CSV, in order |
| RbacConservation.RolesConserved | internal/generate/collector/clusterserviceversion.go:93-112 | with unique names each Role is handed on exactly once: to the CSV if a binding gives it to a CSV account, else to the other objects |
| RbacConservation.NilIffNamedTwice | internal/generate/collector/clusterserviceversion.go:94-97 | the CSV permissions contain a nil Role exactly if two relevant RoleBindings name the same Role; nil never occurs elsewhere |
| RbacConservation.ClusterRolesConserved | internal/generate/collector/clusterserviceversion.go:98-115 | a ClusterRole is among the other objects exactly if it is in neither list of permissions, and in each of these exactly if a binding of that scope gives it to a CSV account |
| RbacConservation.RoleBindingsConserved | internal/generate/collector/clusterserviceversion.go:116-118 | a RoleBinding is dropped exactly if its reference resolves and it has no subject outside the CSV accounts |
| RbacConservation.ClusterRoleBindingsConserved | internal/generate/collector/clusterserviceversion.go:119-121 | the same for ClusterRoleBindings |
| RbacConservation.AccountsConserved | internal/generate/collector/clusterserviceversion.go:123-129 | a service account is among the other objects exactly if it is collected and not one of the CSV |
| RbacConservation.LeftWithoutRole | internal/generate/collector/clusterserviceversion.go:93-121 | a RoleBinding is left among the other objects while the Role it resolves to is not, exactly if it has a subject outside the CSV and some RoleBinding that resolves to this Role has one of the CSV |
| RbacConservation.SplitConserves | internal/generate/collector/clusterserviceversion.go:39-132 | whatever split the bindings prescribe, all five statements hold of every collected Role, ClusterRole, binding and service account, each as far as names of its kind are unique |
| RbacConservation.CollectedKeyed | internal/generate/collector/clusterserviceversion.go:66-83 | the map of the collected bindings by name has every one of them under its own name |
| RbacConservation.SplitForBundle | internal/cmd/operator-sdk/generate/internal/manifests.go:47-49 | the split for the CSV and the later one for the objects written beside it: the permissions of the first and the other objects of the second are the lists the manifests prescribe and conserve everything collected |
| RbacFold.InitPermissionSet | internal/generate/clusterserviceversion/clusterserviceversion_updaters.go:189-202 | the two loops leave exactly one entry, without rules, for each account of the deployments, the default one included, and each extra account |
| RbacFold.FoldBindings | internal/generate/clusterserviceversion/clusterserviceversion_updaters.go:106-133 | folding the bindings gives each account the rules of its bindings in binding order, once per matching subject |
| RbacFold.SortedPermissions | internal/generate/clusterserviceversion/clusterserviceversion_updaters.go:136-145 | one entry per account with rules, strictly sorted by name, whatever the map iteration order |
| RbacFold.Strategy.ApplyRoles | internal/generate/clusterserviceversion/clusterserviceversion_updaters.go:91-146 | sets the permissions to the sorted fold of the RoleBindings, or panics exactly if an object is a nil pointer |
| RbacFold.Strategy.ApplyClusterRoles | internal/generate/clusterserviceversion/clusterserviceversion_updaters.go:150-186 | the same for the cluster permissions and ClusterRoleBindings |
| RbacMeaning.SplitPreservesMeaning | internal/generate/clusterserviceversion/clusterserviceversion_updaters.go:91-186 | for well-formed bindings the rules folded from a split are, for every CSV account and at both scopes, those the manifests grant, in the same order |
| RbacMeaning.ApplyRbac | internal/generate/clusterserviceversion/clusterserviceversion_updaters.go:91-186 | split followed by both folds: panics exactly if two RoleBindings give one Role to CSV accounts; else, strictly sorted by name, there is an entry for each CSV account that some binding grants a rule, and it lists the rules of every place (binding, subject) that grants the account some, place after place |
| RbacFold.GrantedRules | internal/generate/clusterserviceversion/clusterserviceversion_updaters.go:106-133 | the folded rules are those of all places where a subject is the account and the reference stands for rules, each place once, earlier bindings and subjects first |
| RbacFold.GrantedTimes | internal/generate/clusterserviceversion/clusterserviceversion_updaters.go:124-127 | a rule is listed as often as all these places together grant it |
| RbacMeaning.NoPanicIff | internal/generate/collector/clusterserviceversion.go:93-97 | the panic condition on the bindings: no two that resolve to the same Role both have CSV subjects |
| RbacMeaning.SharedRolePanics | internal/generate/collector/clusterserviceversion.go:93-97 | a concrete well-formed input with two such bindings |
| Partition.FbcRegistryPod.GetConfigMaps | internal/olm/operator/registry/fbcindex/fbc_registry_pod.go:440-499 | the partitions, in order, hold one document for each definition that is not blank, without the white space around it; they are the greedy packing for the probe with the size limit; partition k is named <name>-partition-k and holds its documents' closed stream; the writer is reset |
| Partition.DocsRead | internal/olm/operator/registry/fbcindex/fbc_registry_pod.go:450-454 | the documents: white space is taken off at both ends and nowhere else, stated on the characters |
| PartitionContent.PartitionNameReads | internal/olm/operator/registry/fbcindex/fbc_registry_pod.go:470 | the name ends in the number of the partition, in decimal digits |
| Partition.FbcRegistryPod.AddDocument | internal/olm/operator/registry/fbcindex/fbc_registry_pod.go:450-490 | one loop body: the document extends the current partition or, if the probe exceeds the limit, closes it and begins the next; helper and actual writer stay in step |
| Partition.GzipCmWriter.ExceedMaxLength | internal/olm/operator/registry/fbcindex/configMapWriter.go:110-122 | the probe writes to and flushes the helper writer only, and compares base size plus flushed length with the limit |
| Partition.GzipCmWriter.CloseCm | internal/olm/operator/registry/fbcindex/configMapWriter.go:124-141 | the ConfigMap gets the closed actual stream and both writers are reset |
| Partition.GzipCmWriter.ContinueAddData | internal/olm/operator/registry/fbcindex/configMapWriter.go:156-163 | completes a probe: only the actual writer receives the data |
| GreedyPacking.BeginPart | internal/olm/operator/registry/fbcindex/fbc_registry_pod.go:462-477 | beginning a new part for a document without room keeps the packing greedy and loses nothing |
| GreedyPacking.ExtendPart | internal/olm/operator/registry/fbcindex/fbc_registry_pod.go:478-488 | adding a document that has room keeps the packing greedy and loses nothing |
| GreedyPacking.PackingUnique | internal/olm/operator/registry/fbcindex/fbc_registry_pod.go:449-490 | for given documents and room there is exactly one greedy packing |
| PartitionContent.SameStream | internal/olm/operator/registry/fbcindex/configMapWriter.go:143-163 | helper and actual writer of a partition have received the same bytes: its documents joined by the separator |
| PartitionContent.SizeBound | internal/olm/operator/registry/fbcindex/configMapWriter.go:110-122 | a partition of two or more documents stays within the ConfigMap size limit once closed, if closing adds at most 13 bytes |
| PartitionContent.NoEarlierRoom | internal/olm/operator/registry/fbcindex/fbc_registry_pod.go:456-477 | the first document of the next partition, with its separator, would have exceeded the limit in the one before |
| PartitionContent.WithinIff | internal/olm/operator/registry/fbcindex/configMapWriter.go:110-122 | all ConfigMaps are within the limit if and only if those holding at most one document are |
| PartitionContent.WithinIfEach | internal/olm/operator/registry/fbcindex/fbc_registry_pod.go:449-490 | all are within the limit if the empty stream and each document alone are, which a caller can check beforehand |
| PartitionContent.OversizedDocument | internal/olm/operator/registry/fbcindex/fbc_registry_pod.go:462-477 | a document longer than the limit, after a short one, gets a ConfigMap of its own that exceeds the limit, for concrete sizes that meet every assumption |
| PartitionContent.SingleDocumentUnchecked | internal/olm/operator/registry/fbcindex/fbc_registry_pod.go:484-489 | a catalog of one document is packed in one ConfigMap whatever its size |
| PartitionContent.PartitionNamesDistinct | internal/olm/operator/registry/fbcindex/fbc_registry_pod.go:470 | different partitions have different names |
| PartitionContent.ReadBack | internal/olm/operator/registry/fbcindex/fbc_registry_pod.go:457 | splitting a partition's content at the separator gives its documents back, if none contains a separator line |
| HelmStatus.HelmAppStatus.SetCondition | internal/helm/internal/types/types.go:97-116 | in place: the first condition of the kind is replaced, or a new one appended; its time changes only with its status |
| HelmStatus.HelmAppStatus.RemoveCondition | internal/helm/internal/types/types.go:122-130 | in place: the first condition of the kind is cut out of the list |
| HelmStatus.SetAt | internal/helm/internal/types/types.go:97-116 | the list after setting, by index: the first condition of the kind is replaced where it stands, or the new one comes last |
| HelmStatus.RemovedAt | internal/helm/internal/types/types.go:122-130 | the list after removing, by index |
| HelmStatus.LookupAfterSet | internal/helm/internal/types/types.go:97-116 | setting a condition shows it, dated by the last change of status, leaves every other kind as it was, and keeps kinds unique |
| HelmStatus.LookupAfterRemove | internal/helm/internal/types/types.go:122-130 | with unique kinds, removing one makes it absent, leaves the others, and keeps kinds unique |
| HelmStatus.SetIsQuiet | internal/helm/internal/types/types.go:97-116 | setting a condition leaves the list equal, time included, exactly if the same condition is there already |
| HelmStatus.RemoveIsQuiet | internal/helm/internal/types/types.go:122-130 | removing a kind leaves the list equal exactly if it is not there |
| HelmStatus.OneOfEachIsUnique | internal/helm/internal/types/types.go:77-80 | the recursive reading of "no two conditions of one kind" agrees with the one on indices |
| HelmManager.FilterManifestsToKeep | internal/helm/manifestutil/resource_policy.go:24-44 | one loop computes both lists: the manifests whose policy normalizes to "keep", and those without any policy annotation |
| HelmManager.KeptIff | internal/helm/manifestutil/resource_policy.go:31-41 | a manifest is kept exactly if its policy, without the white space around it, spells keep in letters of either case |
| HelmManager.NeitherList | internal/helm/manifestutil/resource_policy.go:31-41 | the lists are disjoint, and a manifest is in neither exactly if it has a policy other than "keep" |
| HelmManager.Manager.Sync | internal/helm/release/manager.go:102-142 | in place: the release storage and the installed, upgrade-required and deployed-release fields after every pattern of replies |
| HelmManager.SyncSweeps | internal/helm/release/manager.go:109-119 | Sync removes stale revisions only, never a deployed one; when it gets past the clean-up none is left |
| HelmManager.SyncFailsIff | internal/helm/release/manager.go:102-142 | Sync fails if and only if the history cannot be read, a superseded revision cannot be deleted, the deployed one cannot be read, or the chart cannot be rendered for it |
| HelmManager.SyncStopsAt | internal/helm/release/manager.go:109-133 | with which failure: deletion stops at the first superseded revision it fails for, with those before it gone; when all are gone, what fails is reading the deployed revision or rendering |
| HelmManager.SyncLoadsLatest | internal/helm/release/manager.go:121-142 | after a successful Sync the release is installed exactly if a deployed revision exists, it is the latest such, and an upgrade is required exactly if the rendered manifest differs |
| HelmManager.Manager.CleanupRelease | internal/helm/release/manager.go:409-452 | the answer and the deleted resources for every pattern of replies: after the failures that come first, the resources are looked at in order up to one that is not absent, and all of them are deleted exactly if that one is present |
| HelmManager.CleanupRead | internal/helm/release/manager.go:409-452 | the same on the replies alone; the resources are, in order, those the manifests without a resource policy stand for |
| HelmManager.AllDeletedIff | internal/helm/release/manager.go:409-452 | the answer is "all deleted" exactly if nothing failed and every resource of the remaining manifests was looked for and not found |
| HelmManager.KeptAreNotDeleted | internal/helm/release/manager.go:423-449 | a deleted resource belongs to a manifest without resource policy, so what only "keep" manifests stand for is never deleted |
| HelmReconcile.ApiServer.Update | internal/helm/controller/reconcile.go:482-493 | a write takes effect exactly if it is based on the current version and not refused; the caller may see an error all the same |
| HelmReconcile.Reconcile | internal/helm/controller/reconcile.go:79-431 | the step-by-step method, with its early returns and in-place status updates, makes exactly the transition Step describes on server, storage, answer and deletions |
| HelmReconcile.ReconcileDeleting | internal/helm/controller/reconcile.go:123-176 | the deletion branch up to the status update, against its step |
| HelmReconcile.FinishDeletion | internal/helm/controller/reconcile.go:164-216 | clean-up, waiting and removal of the finalizers, against their step |
| HelmReconcile.ReconcileLive | internal/helm/controller/reconcile.go:218-308 | initialization, Sync and the missing-finalizer update, against their step |
| HelmReconcile.InstallRelease | internal/helm/controller/reconcile.go:238-297 | the install branch, against its step |
| HelmReconcile.ReconcileInstalled | internal/helm/controller/reconcile.go:310-431 | the upgrade and the no-change branches, against their step |
| HelmRuns.FinalizerRemovedIff | internal/helm/controller/reconcile.go:123-216 | a call takes the finalizer off a guarded resource if and only if it read the current version, the resource is being deleted, uninstall succeeded or found nothing, the writes went through and, with wait set and a non-empty manifest recorded, every remaining resource was found absent |
| HelmRuns.FinalizerSafety | internal/helm/controller/reconcile.go:123-216 | in every run, with stale reads, failing writes and whatever Helm replies, the finalizer disappears only in such a call or because somebody else takes it off |
| HelmRuns.DeletedByCall | internal/helm/controller/reconcile.go:177-196 | resources are deleted only while waiting, only those of manifests without resource policy of the recorded release, and such a call keeps the finalizer |
| HelmRuns.RecordLostIff | internal/helm/controller/reconcile.go:147-176 | a call loses the recorded release of an existing resource if and only if it uninstalls without waiting, that status is stored, and the object is still stored afterwards |
| HelmRuns.WaitedForRecorded | internal/helm/controller/reconcile.go:147-216 | in every run that waits throughout, whatever calls and writes fail and whatever Helm replies, the finalizer goes only when all resources of the release recorded last were found absent, unless its manifest is empty |
| HelmRuns.OrphansIff | internal/helm/controller/reconcile.go:238-267 | a call leaves a deployed release without guarded resource if and only if it installs it on an unguarded resource and the write of the finalizer has no effect |
| HelmRuns.NoOrphans | internal/helm/controller/reconcile.go:123-308 | in every run without such a call, while Helm keeps its word and the others leave the finalizer, a deployed release always has an existing resource with a finalizer |
| HelmRuns.OrphanedRelease | internal/helm/controller/reconcile.go:246-267 | a concrete run with such a call: the release stays deployed and its resource is gone |
| HelmRuns.SyncKeepsDeployed | internal/helm/release/manager.go:102-142 | Sync neither adds nor loses a deployed revision, and finds the release installed exactly if there is one |
| HelmRuns.ErrorFreeIsClean | internal/helm/controller/reconcile.go:218-430 | an error-free call on the current version of a live resource leaves it with a finalizer, Initialized and Deployed true, no ReleaseFailed or Irreconcilable, and the release it installed, upgraded or found recorded |
| HelmReading.ErrorFreeSays | internal/helm/controller/reconcile.go:218-430 | after an error-free call the stored resource has the old finalizers, or these and the reconciler's own, and says, each exactly once: Initialized true; Deployed true with the notes of the release as message and reason InstallSuccessful if nothing was deployed, UpgradeSuccessful if the latest revision has another manifest than the chart, and otherwise the one for its version; the release is recorded and no failure shown |
| HelmReading.InstallErrorFreeIff | internal/helm/controller/reconcile.go:218-297 | with nothing deployed, a call on the current version is free of errors if and only if Sync, the install and the hook succeed and both writes are accepted |
| HelmReading.InstalledErrorFreeIff | internal/helm/controller/reconcile.go:218-431 | with a revision deployed, if and only if Sync, the upgrade or else the reconciliation, and the hook succeed, a missing finalizer is accepted, and so is the status unless it needs no write |
| HelmReading.ErrorFreeRepeats | internal/helm/controller/reconcile.go:108-121 | an error-free call on a live resource asks to be repeated after the period that holds for it |
| HelmReading.EarlyReturnSays | internal/helm/controller/reconcile.go:92-129 | the calls that stop before any work: what they answer, and that they leave everything as it was |
| HelmReading.CleanIff | internal/helm/controller/reconcile.go:218-430 | the status the quiescence theorems speak of is exactly the one that says this |
| HelmReading.SyncFailureSays | internal/helm/controller/reconcile.go:223-235 | the call answers with the failure of Sync, and the stored status shows Irreconcilable true with reason ReconcileError and the failure's text |
| HelmReading.InstallFailureSays | internal/helm/controller/reconcile.go:246-259 | the same for a failing install: ReleaseFailed true with reason InstallError |
| HelmReading.UpgradeFailureSays | internal/helm/controller/reconcile.go:320-345 | the same for a failing upgrade: ReleaseFailed true with reason UpgradeError, after a rollback exactly if the upgrade was recorded |
| HelmReading.ReconcileFailureSays | internal/helm/controller/reconcile.go:381-396 | the same for a failing reconciliation: Irreconcilable true with reason ReconcileError, and ReleaseFailed no longer shown |
| HelmReading.UninstallFailureSays | internal/helm/controller/reconcile.go:131-146 | the same for a failing uninstall: ReleaseFailed true with reason UninstallError |
| HelmReading.UninstallSays | internal/helm/controller/reconcile.go:147-176 | once the release is uninstalled or was not there, the status stored first shows Deployed false with reason UninstallSuccessful, the release taken off the record, or that the call waits; without waiting for a release that was not there, only ReleaseFailed is taken off |
| HelmReading.CleanupFailureSays | internal/helm/controller/reconcile.go:177-193 | a failing clean-up is answered with its failure, and ReleaseFailed shown true with reason UninstallError while Deployed stays false |
| HelmReading.WaitingSays | internal/helm/controller/reconcile.go:177-197 | while something is left to wait for, the call keeps the finalizer and asks to be repeated after the period |
| HelmReading.DetachStores | internal/helm/controller/reconcile.go:198-216 | the call that takes the finalizer off keeps every other one, the resource goes exactly if there is none, and the answer waits for its deletion |
| HelmRuns.QuietIff | internal/helm/controller/reconcile.go:375-428 | a call with nothing to do leaves the server alone, without trying a write, if and only if the status was clean already |
| HelmRuns.Quiescence | internal/helm/controller/reconcile.go:218-430 | after an error-free call, a further one that finds the same release unchanged writes nothing, timestamps included, if and only if version 1 goes with an install and a later version with an upgrade |
| HelmRuns.StepKeepsUnique | internal/helm/controller/reconcile.go:79-431 | no call writes a status with two conditions of one kind, on any path |
| HelmRuns.UniqueInEveryRun | internal/helm/controller/reconcile.go:79-431 | condition kinds stay unique in every version of the resource, over every run, whatever Helm replies |
| MergeMaps.MergeMaps | internal/helm/release/manager_factory.go:162-179 | on Go maps in memory: nothing that exists is modified, the result is new and stands for the merge; under a key it holds a new map where both arguments had one, else the very slot of the second or, failing that, of the first |
| MergeMaps.MergeAt | internal/helm/release/manager_factory.go:162-179 | the merge at every path: the second map's value, merged if both are maps; the first map's value where the second has none and does not shadow it |
| MergeMaps.MergeTwice | internal/helm/release/manager_factory.go:162-179 | merging the same overrides again changes nothing |
| MergeMaps.AbsorbsIff | internal/helm/release/manager_factory.go:162-179 | merging into b changes nothing exactly if b has every key of a at every level of maps |
| MergeMaps.AssociativeIff | internal/helm/release/manager_factory.go:162-179 | merging is associative for three maps if and only if nowhere a value of the middle one separates a map of the first from one of the last that does not cover it |
| MergeMaps.OrderMatters | internal/helm/release/manager_factory.go:162-179 | a concrete map, scalar, map triple for which it is not |
| ChannelGraph.GetChannelHead | internal/olm/operator/registry/index_image.go:171-191 | returns a name that no entry replaces, whatever the iteration order, and fails exactly if there is none |
| ChannelGraph.AcyclicHasHead | internal/olm/operator/registry/index_image.go:171-191 | a non-empty list of entries with an acyclic replaces graph has a head |
| ChannelGraph.ChainHead | internal/olm/operator/registry/index_image.go:171-191 | in a single chain, listed in any order, the last name is the head and the only one |
| ChannelGraph.HeadsAfterUpgrade | internal/olm/operator/registry/index_image.go:215-224 | which names are heads after an entry replacing a head is appended |
| ChannelGraph.UpgradeStaysAcyclic | internal/olm/operator/registry/index_image.go:219-223 | appending a fresh entry that replaces the head keeps the graph acyclic |
| ChannelGraph.ChainExtends | internal/olm/operator/registry/index_image.go:215-224 | upgrading a single chain from its head gives the chain one name longer |
| ChannelGraph.RunKeepsChain | internal/olm/operator/registry/index_image.go:212-226 | any number of upgrades with fresh names gives the one chain that continues with them, whatever the iteration orders |
| ChannelGraph.TraditionalUpgrade | internal/olm/operator/registry/index_image.go:207-229 | exactly when it fails; else the first channel of that name and package gets an entry replacing a head of it, all else is kept and the bundle is appended |
| ChannelGraph.AddBundles | internal/olm/operator/registry/index_image.go:336-358 | the entry-building loop for a new and for an existing channel, the latter with the index of the original list; the bundles added are those the catalog lacks, in order and as often as rendered |
| ChannelGraph.UpgradeFbc | internal/olm/operator/registry/index_image.go:291-369 | a new channel links all bundles; an existing one at position zero is left with its last entry only, and at any other position the call panics; the added bundles are, in order and as often as rendered, those for which the last bundle of that name in the catalog is of another package or there is none |
| ChannelGraph.AddedIff | internal/olm/operator/registry/index_image.go:329-341 | in a catalog of distinct bundle names a bundle is added if and only if it is rendered and not there already under its package |
| ChannelGraph.LeastIndex | internal/olm/operator/registry/index_image.go:315-327 | the channel upgraded is the first of that name and package |
| ChannelGraph.UpgradeForgets | internal/olm/operator/registry/index_image.go:352-358 | for bundles of distinct names: an upgraded channel names every rendered bundle if and only if there is one, keeps no entry it had and has the last bundle as its one head; the next upgrade fails if and only if it ends with that same bundle, so one that was in the channel earlier is taken again |
| ChannelGraph.SecondChannelPanics | internal/olm/operator/registry/index_image.go:324-354 | a concrete catalog whose second channel is to be upgraded: the call panics |
| ChannelGraph.FirstBundleLost | internal/olm/operator/registry/index_image.go:352-358 | a concrete upgrade by two bundles: the channel names only the second |
| ChannelGraph.NewChannelIsChain | internal/olm/operator/registry/index_image.go:336-369 | a channel newly built from bundles of distinct names is a single chain headed by the last bundle only |
| Scorecard.GoRules | internal/scorecard/scorecard.go:127-137 | the steps obey Go: a send waits for room and panics once the channel is closed, Wait takes until the count is zero, a negative count panics, and a panic stays |
| Scorecard.StepKeepsInv | internal/scorecard/scorecard.go:127-137 | every step of main goroutine or test goroutine keeps: wait group equals unfinished goroutines, the channel holds one result for each goroutine that sent |
| Scorecard.SendsGoThrough | internal/scorecard/scorecard.go:132 | a goroutine about to send finds room in the channel and finds it open |
| Scorecard.NoDeadlock | internal/scorecard/scorecard.go:127-137 | until the channel is closed some goroutine can take a step |
| Scorecard.StepCounts | internal/scorecard/scorecard.go:127-137 | every step is one of exactly 4n+3, so every interleaving ends |
| Scorecard.EveryInterleaving | internal/scorecard/scorecard.go:87-97 | over all interleavings: no panic, no blocked send, none after the close, the close after exactly 4n+3 steps and then each test sent exactly once |
| Scorecard.Runner.RunStageParallel | internal/scorecard/scorecard.go:127-137 | for any schedule the output is a rearrangement of the results of the tests |
| Scorecard.Runner.RunStageSequential | internal/scorecard/scorecard.go:139-143 | the output is the results in the order of the tests |
| Scorecard.Runner.SelectTests | internal/scorecard/scorecard.go:161-170 | the tests the selector matches, in order, in an array of their own |
| Scorecard.Runner.SetTestDefaults | internal/scorecard/scorecard.go:118-125 | in place: an empty mount path becomes the configured one, everything else is kept |
| Scorecard.Runner.Run | internal/scorecard/scorecard.go:73-116 | the items are the stages' outputs in order; each has a result for every test that is wanted, in order or, for a parallel stage, in any order, naming the test with its mount path and its status or one failure; which error is reported; and the configuration's own arrays are unchanged (the method modifies nothing) |
| Scorecard.OutputRead | internal/scorecard/scorecard.go:118-170 | a stage's output on its tests and the replies alone |
| Scorecard.NothingLost | internal/scorecard/scorecard.go:80-97 | over a whole run the items are the results of all selected tests, as a multiset, and as a sequence if no stage is parallel |
| RegistryStaleness.MakeObjectFileName | internal/olm/operator/registry/configmap/configmap.go:114-122 | the accumulated name is digest, lower-case non-empty names and "yaml", joined by dots |
| RegistryStaleness.MakeConfigMapsForPackageManifests | internal/olm/operator/registry/configmap/configmap.go:51-78 | the map of ConfigMaps for package and bundles, later bundles of an equal name winning, or the error |
| RegistryStaleness.IsRegistryDataStale | internal/olm/operator/registry/configmap/registry.go:72-111 | exactly when it fails, and exactly when it answers "not stale", duplicates on the cluster included, though it deletes matched keys as it goes |
| RegistryStaleness.MeetFiles | internal/olm/operator/registry/configmap/registry.go:92-108 | with any iteration order the deleting loop accepts exactly equal sets of file names |
| RegistryStaleness.NotStaleIff | internal/olm/operator/registry/configmap/registry.go:72-111 | with distinct names on the cluster: not stale if and only if the desired names are distinct, they are the names on the cluster, and file names agree per ConfigMap |
| RegistryStaleness.MakeRegistryConfigMaps | internal/olm/operator/registry/configmap/registry.go:138-145 | the ConfigMaps created are the desired ones, each once |
| RegistryStaleness.FreshDataIff | internal/olm/operator/registry/configmap/registry.go:72-111 | data just created is not stale if and only if the ConfigMap names do not collide; colliding ones are stale for ever |
| RegistryStaleness.CollisionIff | internal/olm/operator/registry/configmap/configmap.go:57-71 | names collide exactly if two versions are formatted alike or one is formatted "package" |
| RegistryStaleness.VersionCollisionIff | internal/olm/operator/registry/configmap/configmap.go:64-71 | for versions that begin with a digit, exactly if two are formatted alike |
| RegistryStaleness.FormattedAlike | internal/util/k8sutil/k8sutil.go:95-108 | names that differ only in characters a label cannot hold are formatted alike |
| RegistryStaleness.DigitStays | internal/util/k8sutil/k8sutil.go:95-108 | what begins with a digit is formatted as something beginning with it |
| RegistryStaleness.PreReleaseAndBuildCollide | internal/olm/operator/registry/configmap/registry.go:72-111 | a concrete catalog with the versions 1.0.0-a and 1.0.0+a is stale whatever is on the cluster |
| RegistryStaleness.NameFixesContents | internal/olm/operator/registry/configmap/configmap.go:112-122 | with digests that tell contents apart, a file name determines the contents |
| RegistryStaleness.NotStaleSameContents | internal/olm/operator/registry/configmap/registry.go:97-108 | so data that is not stale holds the desired contents, though only names are compared |
| RegistryReading.FormatRead | internal/util/k8sutil/k8sutil.go:95-108 | a name that is no label is formatted as its words, the runs of letters and digits, in lower case and joined by dashes |
| RegistryReading.FileIff | internal/olm/operator/registry/configmap/configmap.go:112-122 | a file name is the digest, the names that are not empty, in lower case, and yaml, with dots between them |
| RegistryReading.BundleRead | internal/olm/operator/registry/configmap/configmap.go:90-100 | every object of a bundle has a file, the last one counting of several with one file name, unless one of them cannot be marshalled |
| RegistryReading.DesiredRead | internal/olm/operator/registry/configmap/configmap.go:51-78 | there is a ConfigMap for every bundle and for the package, the last one counting of several with one name, unless a bundle has no version or something cannot be marshalled |
| RelatedImages.Collector.Collect | internal/cmd/operator-sdk/generate/internal/relatedimages.go:86-112 | in place: list, both index maps and the seen keys stay consistent, the maps being the order-preserving groupings of the list, whose pairs stay distinct |
| RelatedImages.Collector.CollectedRelatedImages | internal/cmd/operator-sdk/generate/internal/relatedimages.go:114-146 | the final list, read off the index maps, is the one the collected list alone determines |
| RelatedImages.EachRefOnce | internal/cmd/operator-sdk/generate/internal/relatedimages.go:125-142 | the final list has each collected reference exactly once, in first-occurrence order |
| RelatedImages.ListedName | internal/cmd/operator-sdk/generate/internal/relatedimages.go:117-142 | the name each reference is listed under; it is empty if and only if the reference was collected under several names or its only name is empty and unique |
| RelatedImages.CollectedIff | internal/cmd/operator-sdk/generate/internal/relatedimages.go:88-92 | a pair that was met is collected if and only if the first image met under its key is that very pair |
| RelatedImages.LostReference | internal/cmd/operator-sdk/generate/internal/relatedimages.go:88-92 | two different images whose joined keys collide: the second reference is lost |
| RelatedImages.CollectedRead | internal/cmd/operator-sdk/generate/internal/relatedimages.go:86-112 | the images collected are those met first under name and reference joined by a dash, in order |
| RelatedImages.FinalRead | internal/cmd/operator-sdk/generate/internal/relatedimages.go:114-146 | the final list has an entry for the first image of each reference, in order, under the name its collisions leave it |
| RelatedImageWalk.WalkCollects | internal/cmd/operator-sdk/generate/internal/relatedimages.go:37-51 | walking deployments, containers and variables collects what they hold, in that order |
| RelatedImageWalk.FindRelatedImages | internal/cmd/operator-sdk/generate/internal/relatedimages.go:29-54 | fails exactly if some variable with the prefix has no direct value; else returns the final list for the images collected of all variables with the prefix, deployment by deployment, containers before init containers, under the formatted names and the names of their containers |
| InstallModes.InstallMode.Set | internal/olm/operator/install_mode.go:37-50 | in place: the type is what stands before "=", the trimmed targets join those already there and all are sorted; success exactly if the result is valid |
| InstallModes.SetRead | internal/olm/operator/install_mode.go:37-50 | the outcome on the string itself: cut at the first "=", the names between commas, each without white space around it, join the targets and all are in order |
| InstallModes.InstallMode.Validate | internal/olm/operator/install_mode.go:70-98 | accepts exactly the valid modes, with labels as in section 2.1 of RFC 1123 |
| InstallModes.ValidIff | internal/olm/operator/install_mode.go:70-98 | the valid modes, kind by kind |
| InstallModes.SplitJoin | internal/olm/operator/install_mode.go:57-64 | splitting a joined list gives the list back if no part contains the separator |
| InstallModes.SetDetermined | internal/olm/operator/install_mode.go:37-50 | the outcome of Set is determined by the flag's value and the string |
| InstallModes.RoundTrip | internal/olm/operator/install_mode.go:37-64 | setting a fresh flag to the printed form of a valid mode always succeeds and restores the mode if and only if its targets are sorted |
| InstallModes.Canonical | internal/olm/operator/install_mode.go:37-64 | every string accepted on a fresh flag prints to a form that is accepted with the same value |
| InstallModes.SetAgain | internal/olm/operator/install_mode.go:42-46 | setting a flag again to its own printed form doubles the targets, so it fails exactly for a single namespace |

## Left out

- FieldWalk.GetMarkedChildrenOfField: is called on acyclic graphs only, since it does not end on others; parsing of Go files, imports and struct tags is represented by the known types each field mentions, in order, and by the field's path segment, absent when its tag does not parse.
- Descriptors.GetTypedDescriptors: what the markers of a field say is a parameter; display names and x-descriptors are part of an opaque body.
- DescriptorChains.DescriptorsOfField: the child field of the kind that carries the descriptor type's tag is a parameter; like the walk it is called on acyclic graphs only.
- RbacConservation.SplitForBundle: the CRDs, services and other kinds written beside the RBAC objects, and the removal of namespaces, are left out.
- CrdOrder.Csv.UpdateDefinitionsByKey: the comparison of Kubernetes versions is a parameter required to be an ordering.
- RbacSplit.Manifests.SplitCsvPermissionsObjects: rules are numbers and objects carry no other contents; RBAC grants to subjects outside the CSV accounts are not preserved by a binding that stays without its Role, which `LeftWithoutRole` characterizes.
- Partition.FbcRegistryPod.GetConfigMaps: gzip is a length function of the operations a writer received, assumed to write its header first and to add at most 13 bytes on closing (the trailer of section 2.3 of RFC 1952 and an empty block of section 3.2.4 of RFC 1951); write errors do not occur; the last ConfigMap holds its bytes, not a view of the buffer that the reset truncates.
- HelmReconcile.Reconcile: Kubernetes and Helm calls are outcomes given to the call; events, logs, polling for deletion and retries on conflict are left out, as are the force options handed to Helm; the status sub-resource is taken to be enabled; each of the two moments at which a path may set a condition has one time.
- HelmRuns.NoOrphans: assumes of Helm that uninstall, install and "release not found" mean what they say, and of others that they leave the finalizer alone; so does OrphansIff of Helm. The other theorems about runs assume neither.
- HelmManager.Manager.CleanupRelease: splitting, sorting and building of manifests are parameters; lower-casing of the policy covers ASCII and the two other letters whose lower case is ASCII, which is all a comparison with "keep" can see.
- MergeMaps.MergeMaps: the arguments are nested to some finite depth, as decoded values are; values that are not maps, lists included, are one text.
- ChannelGraph.UpgradeFbc: rendering and validation of catalogs, package blobs and bundle contents are left out.
- Scorecard.Runner.Run: labels.Selector is a parameter; running a test is one outcome per test; a cancelled context appears only as the error reported.
- RegistryStaleness.IsRegistryDataStale: digests, lower-casing of object names and YAML are parameters; listing the cluster is an outcome.
- RelatedImageWalk.FindRelatedImages: lower-casing is a parameter; the warning about references with several names is not logged.
- InstallModes.InstallMode.Set: CheckCompatibility and the supported modes of a CSV are left out.
- Reconciling a release against the cluster, with its strategic-merge and JSON patches, is one outcome.
- Webhook grouping, deduplication, bundle validation, xunit output, command line flags, scaffolding and templates are left out: text plumbing or library code.
- Release names, chart loading and the parsing of override values are left out: they are single look-ups around library calls.
