# kubernetes-ios-client: profiles and resource loads

This project is a Dafny model of the logic layer of the kubernetes-ios-client app. The app is a SwiftUI client that lists the resources of a Kubernetes cluster. The model covers:

- **The connection profile** (`Context`): name, server URL, starting namespace and three optional PEM blobs. It includes the accessors that decode the blobs, the `has_auth()` test that guards every load, the certificate importer, and the client configuration `ContextClient.client` builds.
- **The view-model loads**:
  - `NamespacesModel.load` appends namespaces and keys resource-quota statuses by namespace.
  - `NodeModel.load` rebuilds the node list and joins events to nodes.
  - `DeploymentsModel.load` buckets deployments by their own namespace.
  - `ReplicaSetsModel.load` and `PodsModel.load` apply the owner-reference filter.
- **The small map-building loops and status tables of the screens**: the used/hard quota map, the free-resource map, the node readiness map, `desirableState()`, and the health tests of the deployment and replica-set icons.

Every swift-collections `OrderedSet` is a duplicate-free `seq`. `append` adds an element at the end unless an equal element is already there, and equality is whole-value equality. A Swift `Dictionary` is a `map`. Subscript assignment of an optional value is `Dictionaries.Store`: a value stores, nil removes the key. `d[k, default: OrderedSet()].append(x)` is `Dictionaries.AppendAt`.

Each class is a Dafny `class` with the same fields, and each `load` is a `method` with the same loops (`continue` and `break` included). Its postcondition ties the new state to a function of the old state and the listed resources. Lemmas state what those functions mean, key by key: last write wins, list order, no duplicates, untouched entries, and idempotence.

The results of the list calls are inputs of type `Option<seq<...>>`, where `None` means the call threw and the error was logged. PEM decoding (`PemDecoder`) and `URL(string:)` (`parseUrl`) are function-valued parameters. A `Quantity` carries the value `getValue()` would parse from it.

Modules and files:

| file | module | models |
|---|---|---|
| wrappers.dfy | Wrappers | `Option`, `Result` |
| ordered_sets.dfy | OrderedSets | swift-collections `OrderedSet` |
| dictionaries.dfy | Dictionaries | Swift dictionary assignment |
| kube_model.dfy | KubeModel | the SwiftkubeModel records the core reads |
| profiles.dfy | Profiles | kubernetes/Context.swift |
| namespaces.dfy | Namespaces | kubernetes/Namespaces.swift |
| nodes.dfy | Nodes | kubernetes/Nodes.swift |
| deployments.dfy | Deployments | kubernetes/Deployments.swift |
| owner_filter.dfy | OwnerFilter | the owner filter shared by ReplicaSets.swift and Pods.swift |
| replica_sets.dfy | ReplicaSets | kubernetes/ReplicaSets.swift |
| pods.dfy | Pods | kubernetes/Pods.swift |

Three behaviours of the code that are easy to misread:

- **Identity of OrderedSet elements.** The code's `OrderedSet`s compare whole values (`Hashable`); `id`/uid is used only for `Identifiable` in the views. Two versions of one resource (same uid, different `resourceVersion`) are therefore both kept: `Namespaces.ReloadKeepsChangedVersion` proves it for a namespace.
- **Repeated loads.** With whole-value equality, loading an identical listing a second time changes nothing. `Deployments.AddDeploymentsIdempotent`, `Nodes.AttachEventsIdempotent` and `OrderedSets.AppendAllIdempotent` prove this. Duplicates by uid accumulate only when the listed objects changed in between.
- **The load guard.** Every load in the code is guarded by `has_auth()`, which does not look at the server CA. The model's loads are guarded by the corrected test `CanConnect`; see "## Findings".

## Model

| member | source | states |
|---|---|---|
| OrderedSets.Append | kubernetes/ReplicaSets.swift:36 | `append` keeps the old contents as a prefix, makes the element a member, and grows the set by one exactly when the element was absent |
| OrderedSets.AppendNoDup | kubernetes/ReplicaSets.swift:15 | `append` keeps an OrderedSet duplicate-free |
| OrderedSets.AppendAll | kubernetes/Namespaces.swift:41 | `append(contentsOf:)` keeps the old contents as a prefix and adds at most one element per listed element |
| OrderedSets.AppendAllNoDup | kubernetes/Namespaces.swift:23 | `append(contentsOf:)` keeps an OrderedSet duplicate-free |
| OrderedSets.AppendAllMembers | kubernetes/Namespaces.swift:41 | after `append(contentsOf:)` an element is a member exactly when it was one before or is listed |
| OrderedSets.AppendAllConcat | kubernetes/Namespaces.swift:41 | appending a list in two pieces is appending it in one |
| OrderedSets.AppendAllPresent | kubernetes/Namespaces.swift:41 | appending only elements already present changes nothing |
| OrderedSets.AppendAllFresh | kubernetes/Namespaces.swift:41 | appending distinct new elements places them after the old contents, exactly in list order |
| OrderedSets.AppendAllIdempotent | kubernetes/Namespaces.swift:41 | appending the same list twice is appending it once |
| Dictionaries.Store | kubernetes/Namespaces.swift:55 | subscript assignment of an optional: the key is present exactly when the value is non-nil, holds that value, and every other key is unchanged |
| Dictionaries.StoreAllAt | kubernetes/Namespaces.swift:50-57 | after a run of assignments each key holds what its last assignment put there (or is absent if that was nil); an unassigned key keeps its old entry |
| Dictionaries.StoreAllConcat | kubernetes/Nodes.swift:317-323 | two runs of assignments one after the other are the concatenated run |
| Dictionaries.LastWriteConcat | kubernetes/Nodes.swift:317-323 | the last assignment to a key in a concatenated run comes from the second run if it assigns the key, else from the first |
| Dictionaries.AppendAt | kubernetes/Deployments.swift:59 | `d[k, default: OrderedSet()].append(x)`: the bucket of `k` becomes the old bucket (empty if none) with `x` appended; every other key is unchanged |
| Profiles.DecodeStored | kubernetes/Context.swift:28-39 | an accessor is nil exactly when its bytes are nil, and otherwise returns what the PEM decoder returns; present bytes that do not decode are excluded by the precondition (`fatalError`) |
| Profiles.Context.ServerCA | kubernetes/Context.swift:28-39 | `serverCA` is nil exactly when `serverCABytes` is nil; otherwise it is the decoded certificate; malformed bytes are a precondition violation |
| Profiles.Context.ClientCA | kubernetes/Context.swift:41-52 | `clientCA` is nil exactly when `clientCABytes` is nil; otherwise it is the decoded certificate |
| Profiles.Context.ClientKey | kubernetes/Context.swift:54-65 | `clientKey` is nil exactly when `clientKeyBytes` is nil; otherwise it is the decoded private key |
| Profiles.Context.constructor | kubernetes/Context.swift:67-71 | stores name, URL and namespace (default "default") verbatim; all three byte fields start nil |
| Profiles.Context.FromString | kubernetes/Context.swift:74-82 | fails with `BadUrl` exactly when the string does not parse; otherwise a fresh profile with the parsed URL, the given name and namespace, and no certificate material |
| Profiles.Context.HasAuth | kubernetes/Context.swift:85-87 | `has_auth()` holds exactly when client certificate and client key bytes are both stored; the key is decoded only when a certificate is present, and the server CA is not consulted |
| Profiles.Context.CanConnect | kubernetes/Context.swift:85-112 | the corrected guard holds exactly when `has_auth()` holds and a server CA is stored, and exactly when the client's force-unwraps all succeed |
| Profiles.ImportTarget | kubernetes/Context.swift:228-238 | the field an import writes is one whose flag is set, and no flag earlier in the order server CA, client cert, client key is set |
| Profiles.Cleared | kubernetes/Context.swift:228-236 | clears the flag of the written field and leaves the other flags as they were |
| Profiles.Context.Import | kubernetes/Context.swift:228-239 | the imported bytes go into the field of the first set flag, that flag is cleared, and every other field of the profile is unchanged; no flag set is a precondition violation (`fatalError`) |
| Profiles.HasAuthWithoutServerCA | kubernetes/Context.swift:85-112 | a profile with a client certificate and key but no server CA passes `has_auth()` yet cannot build a client |
| Profiles.ContextClient.constructor | kubernetes/Context.swift:93-95 | wraps the given profile |
| Profiles.ContextClient.Client | kubernetes/Context.swift:97-118 | needs all three blobs present and decodable; the configuration uses the profile's server and namespace, x509 authentication with the decoded certificate and key, the server CA as the only trust root, TLS verification on, 1 s connect and 10 s read timeouts, and at most 5 redirects without cycles |
| Profiles.ContextClient.CanConnectBuildsClient | kubernetes/Context.swift:97-112 | whenever the corrected guard lets a load through, the client can be built, with the profile's decoded certificate and key |
| Namespaces.QuotaWrites | kubernetes/Namespaces.swift:50-57 | the quota loop performs at most one assignment per listed quota |
| Namespaces.QuotaWritesLast | kubernetes/Namespaces.swift:50-57 | the last assignment to a namespace carries the status of the last listed quota of that namespace; a namespace no quota names is never assigned |
| Namespaces.ApplyQuotasAt | kubernetes/Namespaces.swift:50-57 | per namespace: unnamed namespaces keep their entry; otherwise the last quota decides, and a nil status removes the entry |
| Namespaces.ApplyQuotasKeys | kubernetes/Namespaces.swift:50-57 | a namespace in the quota map was there before or is named by a listed quota: quotas without a namespace never enter |
| Namespaces.ReloadKeepsChangedVersion | kubernetes/Namespaces.swift:40-41 | a reload that lists a namespace again at a new `resourceVersion` keeps both versions, old one first: the set compares whole values, not uids |
| Namespaces.NamespacesModel.constructor | kubernetes/Namespaces.swift:23-24 | both indexes start empty |
| Namespaces.NamespacesModel.Load | kubernetes/Namespaces.swift:31-65 | without a usable profile nothing changes; otherwise the listed namespaces are appended to the uncleared set and the quotas are assigned into the uncleared map, each phase on its own, a failed list leaving its index unchanged; the set stays duplicate-free |
| Namespaces.UsedTotalMap | kubernetes/Namespaces.swift:83-87 | the map gains exactly the keys of `used`, each mapped to (used, hard or 0); other entries are left as they were |
| Nodes.DesirableState | kubernetes/Nodes.swift:75-85 | pressure conditions are good exactly when "False", Ready exactly when "True", and every other type is good |
| Nodes.Involves | kubernetes/Nodes.swift:54 | an event of any kind other than "Node" involves no node; a named event involves exactly the nodes of that name; an event without a name involves exactly the nodes without one (nil == nil) |
| Nodes.EventsFor | kubernetes/Nodes.swift:52-57 | the events that involve a node are exactly the listed events of kind "Node" with that node's name |
| Nodes.AttachEventAt | kubernetes/Nodes.swift:53-57 | one event is appended to the set of each listed node it involves, and no other entry changes |
| Nodes.AttachEventLast | kubernetes/Nodes.swift:53-57 | the step of the inner event loop that reaches the involved node appends the event to that node's set |
| Nodes.AttachEventsAt | kubernetes/Nodes.swift:51-58 | per node: a listed node's set gains exactly the events that involve it, in list order and without duplicates, and gets an entry only if it had one or such an event exists; an unlisted node's entry is untouched |
| Nodes.AttachEventStep | kubernetes/Nodes.swift:53-56 | one iteration of the inner event loop |
| Nodes.AttachEventsStep | kubernetes/Nodes.swift:52-58 | one iteration of the outer event loop |
| Nodes.AttachEventsNoDup | kubernetes/Nodes.swift:24 | every event set stays duplicate-free |
| Nodes.AttachEventsIdempotent | kubernetes/Nodes.swift:51-58 | joining the same events against the same nodes twice is joining them once |
| Nodes.NodeModel.constructor | kubernetes/Nodes.swift:23-24 | both indexes start empty |
| Nodes.NodeModel.Load | kubernetes/Nodes.swift:31-65 | without a usable profile nothing changes; otherwise `nodes` is emptied and refilled from the listing (left empty if the list call fails), and the listed events are joined to those nodes in the uncleared event map; the indexes stay duplicate-free |
| Nodes.FreeMap | kubernetes/Nodes.swift:242-248 | a resource with a known non-zero capacity maps to (allocatable or 0, capacity); resources with zero or unparsable capacity get no new entry; other entries are left as they were |
| Nodes.LastReadyCondition | kubernetes/Nodes.swift:318-320 | the last Ready condition of a node is one of its conditions and is of type Ready; none means the node has no Ready condition |
| Nodes.ReadinessMap | kubernetes/Nodes.swift:317-323 | the readiness loop performs the assignments `ReadinessWrites` lists, in order, on the view's current map |
| Nodes.ConditionWritesStep | kubernetes/Nodes.swift:318-321 | one iteration of the inner readiness loop |
| Nodes.ReadinessWritesStep | kubernetes/Nodes.swift:317-323 | one iteration of the outer readiness loop |
| Nodes.ConditionWritesLast | kubernetes/Nodes.swift:318-321 | for one node, the last assignment is that node's last Ready condition's status == "True", and there is none without a Ready condition |
| Nodes.ReadinessWritesLast | kubernetes/Nodes.swift:317-323 | the last assignment to a name is the readiness of the last node of that name with a Ready condition |
| Nodes.LastReadinessNone | kubernetes/Nodes.swift:317-323 | no readiness is recorded for a name exactly when no node of that name has a Ready condition |
| Nodes.LastReadinessOf | kubernetes/Nodes.swift:317-323 | when nodes of a name have Ready conditions, the last such node decides |
| Nodes.ReadinessMapAt | kubernetes/Nodes.swift:317-323 | per name: a name with no node carrying a Ready condition keeps its entry; otherwise the entry is true exactly when the last such node's last Ready condition is "True", which is that condition's `desirableState()` |
| Deployments.DeploymentsIn | kubernetes/Deployments.swift:52-59 | the deployments that go to a bucket are exactly the listed ones whose own namespace names it |
| Deployments.KeptCount | kubernetes/Deployments.swift:51-60 | `deploymentCounter` plus the number of deployments without a namespace is the length of the listing |
| Deployments.AddDeploymentsAt | kubernetes/Deployments.swift:52-61 | per namespace: a non-empty namespace's bucket gains its listed deployments in list order without duplicates, and is created only if one exists; the "" bucket and namespaces no deployment names are untouched |
| Deployments.AddDeploymentsNoDup | kubernetes/Deployments.swift:34 | every bucket stays duplicate-free |
| Deployments.AddDeploymentsIdempotent | kubernetes/Deployments.swift:52-61 | loading the same listing twice leaves the buckets as loading it once |
| Deployments.AddDeploymentsStep | kubernetes/Deployments.swift:52-61 | one iteration of the load loop, including the counter |
| Deployments.DeploymentsModel.constructor | kubernetes/Deployments.swift:34 | the map starts empty |
| Deployments.DeploymentsModel.Load | kubernetes/Deployments.swift:41-69 | without a usable profile or with a failed list nothing changes; otherwise every deployment with a namespace is appended to the bucket of its own namespace, whatever namespace was listed, buckets are never cleared and stay duplicate-free, and the counter is the number kept |
| Deployments.Unhealthy | kubernetes/Deployments.swift:124 | without a status nothing is flagged; with both counts known, flagged exactly when they differ; a missing count is compared as 0 against the other |
| Deployments.UnhealthyDefaults | kubernetes/Deployments.swift:124 | a deployment without status, or without either count, is shown healthy; one missing its available count while replicas are wanted is shown unhealthy |
| OwnerFilter.SelectOwned | kubernetes/ReplicaSets.swift:34-45 | with an empty controller name every listed resource is kept; the filter never adds resources |
| OwnerFilter.SelectOwnedMembers | kubernetes/ReplicaSets.swift:34-45 | a resource is kept exactly when it is listed and the controller name is empty or names one of its owner references |
| OwnerFilter.LoadedMembers | kubernetes/ReplicaSets.swift:34-45 | after a filtered load the old contents stay in front, nothing is duplicated, and a resource is present exactly when it was before or is listed and passes the filter |
| OwnerFilter.SelectOwnedStep | kubernetes/ReplicaSets.swift:34-45 | one iteration of the load loop: the resource is appended exactly when it passes the filter, however many references match |
| OwnerFilter.SelectedIgnoresNamespace | kubernetes/Pods.swift:33-46 | the filter does not look at a resource's namespace |
| OwnerFilter.SelectedExample | kubernetes/ReplicaSets.swift:39-44 | a resource owned by "rs-a" and "rs-b" passes the filter for "rs-a" and fails it for any other non-empty name |
| ReplicaSets.ReplicaSetsModel.constructor | kubernetes/ReplicaSets.swift:15-16 | both indexes start empty |
| ReplicaSets.ReplicaSetsModel.Load | kubernetes/ReplicaSets.swift:23-53 | without a usable profile or with a failed list nothing changes; otherwise the replica sets that pass the owner filter are appended in list order to the uncleared set, which stays duplicate-free; `replicasetPodMap` is never touched |
| ReplicaSets.Healthy | kubernetes/ReplicaSets.swift:96 | without a status the icon is green; with both counts known, green exactly when they are equal; a missing count is compared as 0 against the other |
| ReplicaSets.HealthyMatchesDeployments | kubernetes/ReplicaSets.swift:96 | a polarity check between the two icons: on equal status the replica-set test is the negation of the deployment test at Deployments.swift:124 |
| Pods.PodsModel.constructor | kubernetes/Pods.swift:16 | the set starts empty |
| Pods.PodsModel.Load | kubernetes/Pods.swift:23-52 | without a usable profile or with a failed list nothing changes; otherwise the pods that pass the owner filter are appended in list order after the existing ones, without duplicates and without looking at their namespaces |

## Left out

- The list calls, `syncShutdown()` and the HTTP/TLS client work are network I/O. Their results are inputs; a throwing `syncShutdown()` is not modelled.
- `async`, `@MainActor` and `@Published` are concurrency and UI notification. Each load is one sequential method.
- `os.Logger` calls are logging only.
- SwiftData persistence (`@Model`, model-context inserts and deletes) is not part of this model.
- The importer's security-scoped file access and file reading are file I/O. `Profiles.Context.Import` starts from the bytes read; the importer's other `fatalError` paths (unreadable file, picker failure) are I/O failures.
- NIOSSL PEM decoding, `URL(string:)` and `Quantity` parsing are foreign library calls. They are parameters (`PemDecoder`, `parseUrl`), or the parsed value carried by `Quantity`.
- The SwiftUI view bodies, the icons and colours, `PercentageCharts.swift` (floating-point chart arithmetic) and the `Identifiable` conformances are presentation.
- KubeModel: the records keep only the fields the core reads, plus `metadata.resourceVersion`, which the API server changes whenever an object changes. Two values that differ only in omitted fields under the same `resourceVersion` are equal in the model, so the OrderedSets of `NamespacesModel.Load`, `NodeModel.Load`, `DeploymentsModel.Load`, `ReplicaSetsModel.Load` and `PodsModel.Load` merge them where Swift's `Hashable` would keep both.
- Deployments.DeploymentsModel.Load: `deploymentCounter` is only logged in the source. The model returns it as an out-parameter (`None` when nothing was listed).
- Nodes.ReadinessMap, Nodes.FreeMap, Namespaces.UsedTotalMap: the view state they update is passed in as `current` and returned, not held in a view object.
- Nodes.FreeMap, Namespaces.UsedTotalMap: Swift iterates a dictionary in an unspecified order. The model picks keys in an arbitrary order; each key is written at most once, so the result does not depend on it.
- Nodes.ReadinessMap: `node.name!` traps on a node with a Ready condition and no name. The model makes a name on such nodes a precondition (`NamedIfReady`).
- Profiles.Context.HasAuth and the other accessors: a malformed PEM blob makes the source stop with `fatalError`. The model makes "present bytes decode" a precondition (`Decodes`, `LoadDecodes`) and does not model the abort.

## Findings

| source | as written | input that shows it | evidently intended | confidence | as-written member | corrected member |
|---|---|---|---|---|---|---|
| kubernetes/Context.swift:85-112 | every load is guarded by `has_auth()`, which checks only the client certificate and key, and then builds `ContextClient.client`, which force-unwraps `context.serverCA!` | a profile with client certificate and key bytes but no server CA bytes: `has_auth()` is true, the load proceeds, and `serverCA!` traps | a load runs only when a client can be built, i.e. `has_auth()` and a server CA | not executed | Profiles.HasAuthWithoutServerCA | Profiles.Context.CanConnect |

`Profiles.Context.CanConnect` is proved equivalent to `Connectable`, which holds exactly when all three force-unwraps succeed. `Profiles.ContextClient.CanConnectBuildsClient` shows that the client is then well defined. Every load in the model (`NamespacesModel.Load`, `NodeModel.Load`, `DeploymentsModel.Load`, `ReplicaSetsModel.Load`, `PodsModel.Load`) is guarded by `CanConnect`. Without a server CA a load therefore leaves its indexes unchanged, as it does without client credentials.
