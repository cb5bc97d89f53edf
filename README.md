# Katalyst system advisor: cache reaper, provision-policy base, dedicated-NUMA region

A Dafny model of three parts of the node-resident resource advisor:

- **Cache reaper** (`cache_reaper.dfy`, `selection.dfy`): a memory advisor
  plugin. In each cycle it takes the reclaimed-cores main containers from the
  registry. For the whole node, and for every NUMA node whose pressure
  condition signals drop-cache with a reclaim target, it orders those
  containers by a cache metric, largest first. It then picks containers in
  that order until their summed metric strictly exceeds the target. The union
  of all picks replaces the stored reclamation set. `GetAdvices` turns the
  set into one `drop_cache = "true"` advice per container.
- **Provision-policy base** (`policy_base.dfy`): the state every CPU
  provision policy shares. It holds the pod set, indicators and control knob,
  plus references to the registry and the node agents. It has a constructor
  and three setters, each replacing one field wholesale.
- **Dedicated-NUMA region** (`region_dedicated_numa.dfy`): the region
  variant for NUMA-exclusive dedicated cores. Its knob update does nothing.
  Its knob result is empty and its headroom is zero, both with no error.

`types.dfy` holds the shared vocabulary: container info, pod set,
indicators, control knobs, region types, provision-policy names, memory-pressure status and
memory advice. It also holds the collaborator handles.

How the model is organised:

- The metric fetch is a parameter of type `MetricLookup`:
  (pod UID, container, metric name, NUMA id) to `Option<int>`, where `None`
  is a fetch error.
- The registry traversal is a parameter `registry: seq<Option<ContainerInfo>>`,
  in visiting order. `None` stands for a nil entry.
- The selection is specified by the functions `SortByMetric` and `Greedy`.
  The threshold rule is the predicate `IsGreedySelection`.
- The stored set is specified by the function `ReapSet` (everything the
  qualifying scopes select) and the predicate `Represents` (the map holds
  exactly those containers, each under its (pod name, container name) key).
- Advice is specified as the bag `AdviceBag`, because Go map iteration has
  no order.

Two points about the algorithm as the code writes it:

- The code sorts *all* candidates, fetch errors included, and skips errors
  only while walking the list (cache_reaper.go:60-80). Dropping errors before
  sorting would select the same number of containers with the same metric
  values. `SelectionValuesAnyDescendingPermutation` proves this for every
  descending order of the candidates, or of their fetch-succeeding entries.
  Among containers with equal (truncated) metrics, which ones are chosen
  depends on the order of the ties (`TiedMetricsPickOne`).
- The reclamation-set key is the *pod name* plus the container name
  (cache_reaper.go:107,115), not the pod UID. If two selected containers
  share a key, the map keeps only one of them. `RepresentsUnique` shows the
  map is fully determined only when no two selected containers share a key.

## Model

| member | source | states |
|---|---|---|
| `ReclaimSelection.SortByMetric` | pkg/agent/sysadvisor/plugin/qosaware/resource/memory/plugin/cache_reaper.go:60-70 | the ordering step returns a permutation of its input (same multiset) in which no fetch-succeeding entry is followed by a fetch-succeeding entry with a larger metric |
| `ReclaimSelection.SelectContainers` | pkg/agent/sysadvisor/plugin/qosaware/resource/memory/plugin/cache_reaper.go:59-88 | ordering the candidates and walking them returns exactly `Selection` of the inputs; the result obeys the threshold rule over the ordered fetch-succeeding candidates and holds only containers whose fetch succeeded |
| `ReclaimSelection.Walk` | pkg/agent/sysadvisor/plugin/qosaware/resource/memory/plugin/cache_reaper.go:72-87 | the loop with its running sum (skip a fetch error, append, add, break once the sum strictly exceeds the target) returns exactly the reference walk `Greedy` over the ordered list |
| `ReclaimSelection.GreedyIsGreedySelection` | pkg/agent/sysadvisor/plugin/qosaware/resource/memory/plugin/cache_reaper.go:75-87 | walking an ordered list gives a prefix of its fetch-succeeding entries; every shorter non-empty prefix keeps the sum at most the target; stopping before the end means the sum strictly exceeds the target |
| `ReclaimSelection.GreedySelectionUnique` | pkg/agent/sysadvisor/plugin/qosaware/resource/memory/plugin/cache_reaper.go:82-85 | the threshold rule has one solution: two selections obeying it over the same ordered list are equal (the minimal prefix exceeding the target, or all of it) |
| `ReclaimSelection.SelectionIsGreedy` | pkg/agent/sysadvisor/plugin/qosaware/resource/memory/plugin/cache_reaper.go:59-87 | a scope's selection is the threshold-rule selection over the fetch-succeeding entries of a descending permutation of the candidates |
| `ReclaimSelection.SelectionInOrder` | pkg/agent/sysadvisor/plugin/qosaware/resource/memory/plugin/cache_reaper.go:75-81 | the selection is a subsequence of the ordered list: containers are taken in traversal order |
| `ReclaimSelection.SelectionFromCandidates` | pkg/agent/sysadvisor/plugin/qosaware/resource/memory/plugin/cache_reaper.go:75-81 | the selection is contained, with multiplicity, in the candidates and holds no container whose fetch failed |
| `ReclaimSelection.SelectionDominates` | pkg/agent/sysadvisor/plugin/qosaware/resource/memory/plugin/cache_reaper.go:60-81 | every selected container has a metric no smaller than that of any fetch-succeeding candidate that was not selected |
| `ReclaimSelection.SelectionCompleteBelowTarget` | pkg/agent/sysadvisor/plugin/qosaware/resource/memory/plugin/cache_reaper.go:75-87 | a fetch error skips only that container: a fetch-succeeding candidate is left out only if the selected sum strictly exceeds the target; if the sum stays within the target, the selection is exactly the multiset of fetch-succeeding candidates |
| `ReclaimSelection.LargerMetricAloneSuffices` | pkg/agent/sysadvisor/plugin/qosaware/resource/memory/plugin/cache_reaper.go:59-88 | candidates with metrics 30 and 80 and target 50: only the container with 80 is selected |
| `ReclaimSelection.GreedyIsPrefix` | pkg/agent/sysadvisor/plugin/qosaware/resource/memory/plugin/cache_reaper.go:81-85 | over fetch-succeeding containers the walk takes a prefix whose length is fixed by the metric values alone |
| `ReclaimSelection.SelectionValuesOrderIndependent` | pkg/agent/sysadvisor/plugin/qosaware/resource/memory/plugin/cache_reaper.go:60-87 | walking any descending list with the same fetch-succeeding entries as the candidates takes the same number of containers, with the same metric values in the same order, as the selection |
| `ReclaimSelection.SelectionValuesAnyDescendingPermutation` | pkg/agent/sysadvisor/plugin/qosaware/resource/memory/plugin/cache_reaper.go:60-87 | the same holds for any descending permutation of the candidates (any order of ties and of fetch errors) and for any descending order of only their fetch-succeeding entries (errors dropped before ordering) |
| `ReclaimSelection.SortPair` | pkg/agent/sysadvisor/plugin/qosaware/resource/memory/plugin/cache_reaper.go:60-70 | of two fetched candidates where the later one is not smaller, the ordering puts the later one first |
| `ReclaimSelection.TiedMetricsPickOne` | pkg/agent/sysadvisor/plugin/qosaware/resource/memory/plugin/cache_reaper.go:60-85 | two candidates with metric 50 each and target 40: one container is selected, and in this model it is the later candidate; which of several tied containers is reaped depends on the order of the ties |
| `CacheReaperPlugin.CandidatesExactly` | pkg/agent/sysadvisor/plugin/qosaware/resource/memory/plugin/cache_reaper.go:90-102 | a container is a candidate exactly when it is a non-nil registry entry with QoS level reclaimed-cores and container type MAIN |
| `CacheReaperPlugin.CacheReaper.CollectCandidates` | pkg/agent/sysadvisor/plugin/qosaware/resource/memory/plugin/cache_reaper.go:96-102 | the registry traversal returns exactly the entries the filter keeps, in visiting order |
| `CacheReaperPlugin.CacheReaper.constructor` | pkg/agent/sysadvisor/plugin/qosaware/resource/memory/plugin/cache_reaper.go:50-57 | a new plugin keeps the given collaborators and starts with an empty reclamation set |
| `CacheReaperPlugin.CacheReaper.RecordSelected` | pkg/agent/sysadvisor/plugin/qosaware/resource/memory/plugin/cache_reaper.go:106-108 | the recording loop stores each selected container under its key in order, a later one overwriting an earlier one with the same key |
| `CacheReaperPlugin.RecordRepresents` | pkg/agent/sysadvisor/plugin/qosaware/resource/memory/plugin/cache_reaper.go:114-116 | recording a selection into a map that represents a set gives a map that represents that set plus the selected containers |
| `CacheReaperPlugin.CacheReaper.ReapScope` | pkg/agent/sysadvisor/plugin/qosaware/resource/memory/plugin/cache_reaper.go:104-109 | one scope adds its selection to the map only when its condition is drop-cache and carries a target; otherwise it adds nothing |
| `CacheReaperPlugin.CacheReaper.ReapNumaScopes` | pkg/agent/sysadvisor/plugin/qosaware/resource/memory/plugin/cache_reaper.go:111-118 | visiting the NUMA conditions in any order adds exactly the selections of the qualifying NUMA scopes, each using its own NUMA id and the per-NUMA file metric |
| `CacheReaperPlugin.CacheReaper.Reconcile` | pkg/agent/sysadvisor/plugin/qosaware/resource/memory/plugin/cache_reaper.go:94-124 | returns no error; afterwards the stored map represents exactly the union of the node selection (NUMA id -1, container cache metric) and the qualifying NUMA selections, keyed by (pod name, container name); nothing of the previous map is kept |
| `CacheReaperPlugin.NothingToReapWithoutDropCache` | pkg/agent/sysadvisor/plugin/qosaware/resource/memory/plugin/cache_reaper.go:104-118 | if neither the node nor any NUMA condition is drop-cache with a target, the cycle selects nothing |
| `CacheReaperPlugin.ReapSetFromCandidates` | pkg/agent/sysadvisor/plugin/qosaware/resource/memory/plugin/cache_reaper.go:104-118 | every container a cycle selects is one of the candidates, and its metric fetch succeeded in a qualifying scope: the node scope with the container cache metric at NUMA id -1, or a NUMA scope with the per-NUMA file metric at its own id |
| `CacheReaperPlugin.ReapSetSound` | pkg/agent/sysadvisor/plugin/qosaware/resource/memory/plugin/cache_reaper.go:97-118 | every container a cycle selects is a reclaimed-cores main registry entry whose metric fetch succeeded in a qualifying scope: the node scope with the container cache metric at NUMA id -1, or a NUMA scope with the per-NUMA file metric at its own id |
| `CacheReaperPlugin.RepresentsEmpty` | pkg/agent/sysadvisor/plugin/qosaware/resource/memory/plugin/cache_reaper.go:95 | only the empty map represents the empty set |
| `CacheReaperPlugin.RepresentsUnique` | pkg/agent/sysadvisor/plugin/qosaware/resource/memory/plugin/cache_reaper.go:107 | when no two selected containers share a (pod name, container name) key, the stored map is determined by the selected set |
| `CacheReaperPlugin.NoDropCacheNoAdvice` | pkg/agent/sysadvisor/plugin/qosaware/resource/memory/plugin/cache_reaper.go:94-142 | after a cycle with no qualifying scope the stored map is empty and no advice is handed out, whatever the map held before |
| `CacheReaperPlugin.CacheReaper.GetAdvices` | pkg/agent/sysadvisor/plugin/qosaware/resource/memory/plugin/cache_reaper.go:126-142 | changes nothing and returns exactly the bag of drop-cache advices of the stored map, one per entry, in some order |
| `CacheReaperPlugin.AdviceBagRemove` | pkg/agent/sysadvisor/plugin/qosaware/resource/memory/plugin/cache_reaper.go:132 | the advice bag does not depend on the order the map is walked in |
| `CacheReaperPlugin.AdviceBagContents` | pkg/agent/sysadvisor/plugin/qosaware/resource/memory/plugin/cache_reaper.go:132-139 | the bag has one advice per stored container; each stored container's advice is in it; each advice carries a stored container's pod UID and container name and the single instruction drop_cache = "true" |
| `ProvisionPolicy.PolicyBase.constructor` | pkg/agent/sysadvisor/plugin/qosaware/resource/cpu/region/provisionpolicy/policy_base.go:34-44 | a new base has an empty pod set, indicator and control knob, and stores the given MetaCache and MetaServer references unchanged |
| `ProvisionPolicy.PolicyBase.SetPodSet` | pkg/agent/sysadvisor/plugin/qosaware/resource/cpu/region/provisionpolicy/policy_base.go:46-48 | replaces the pod set with the argument; indicator, control knob, MetaCache and MetaServer are unchanged |
| `ProvisionPolicy.PolicyBase.SetIndicator` | pkg/agent/sysadvisor/plugin/qosaware/resource/cpu/region/provisionpolicy/policy_base.go:50-52 | replaces the indicator with the argument; nothing else changes |
| `ProvisionPolicy.PolicyBase.SetControlKnobValue` | pkg/agent/sysadvisor/plugin/qosaware/resource/cpu/region/provisionpolicy/policy_base.go:54-56 | replaces the control knob with the argument; nothing else changes |
| `ProvisionPolicy.SettersIdempotent` | pkg/agent/sysadvisor/plugin/qosaware/resource/cpu/region/provisionpolicy/policy_base.go:46-56 | each setter applied twice with the same argument gives the state one application gives, and setters of different fields commute |
| `Region.NewQoSRegionDedicatedNuma` | pkg/agent/sysadvisor/plugin/qosaware/resource/cpu/region/region_dedicated_numa.go:29-36 | the region records the given name, owner pool name, region type, provision-policy name, MetaCache and emitter in its base |
| `Region.TryUpdateControlKnob` | pkg/agent/sysadvisor/plugin/qosaware/resource/cpu/region/region_dedicated_numa.go:38-39 | the knob update leaves the region unchanged |
| `Region.GetControlKnobUpdated` | pkg/agent/sysadvisor/plugin/qosaware/resource/cpu/region/region_dedicated_numa.go:41-43 | the knob result is empty and there is no error |
| `Region.GetHeadroom` | pkg/agent/sysadvisor/plugin/qosaware/resource/cpu/region/region_dedicated_numa.go:45-47 | the headroom is 0 and there is no error |
| `Region.QueriesIgnoreState` | pkg/agent/sysadvisor/plugin/qosaware/resource/cpu/region/region_dedicated_numa.go:38-47 | both queries give the same answer for every region, before and after a knob update |

## Left out

- The read/write lock around the reclamation set (cache_reaper.go:43,120-121,130-131) is concurrency. `Reconcile` builds the new map locally and publishes it in one assignment. `GetAdvices` only reads.
- The metrics backend (`helper.GetContainerMetric`), the emitter and error logging are foreign calls and I/O. The `lookup` parameter replaces them. The model assumes it returns the same value for a container throughout one cycle; the source fetches again on every comparison and during the walk.
- The sorter (`general.NewMultiSorter`, `CmpError`, `CmpFloat64`) is not part of this model. `SortByMetric`, an insertion sort, stands in for it, and only the descending order among fetch-succeeding entries is claimed. The order of equal metrics and the placement of fetch errors may differ from the source's. So among containers whose truncated metrics are equal, the model may reap, and advise, different containers than the source does (`TiedMetricsPickOne`). The number of containers selected and their metric values are the same for every such order (`SelectionValuesAnyDescendingPermutation`).
- The source sorts the shared `containers` slice in place. So each scope's sort starts from the order the previous sort left: the node scope's, or that of an earlier NUMA scope in Go's map order. The model sorts each scope's own copy of the registry order. This changes only the order of equal-metric containers, and with it which of them are picked; how many are picked and their metric values do not change (`SelectionValuesAnyDescendingPermutation`).
- Metrics are `float64` and the target is a `resource.Quantity`. The model uses integers: the lookup returns the metric already truncated by `int64(...)`, and the target is a whole number of bytes. `Quantity` sums do not wrap, so unbounded integers match them.
- `CacheReaper.Reconcile`: when two selected containers share a (pod name, container name) key, the model only says the stored value is one of them. The source keeps the last one written, which depends on Go's map iteration order over NUMA ids.
- `CacheReaper.GetAdvices`: the order of entries is not stated, because Go map iteration is unordered. The result is stated as a multiset.
- The reclamation-set key is modelled as the pair (pod name, container name). The source joins the two into one string (`native.GeneratePodContainerName`), which is not part of this model.
- The registry traversal callback can stop iteration early, but the reaper's callback never does. So the model visits every entry.
- A nil node condition, or a nil entry among the NUMA conditions, would be dereferenced by the source (cache_reaper.go:104,112). The model's types do not allow them.
- `NewCacheReaper`'s configuration arguments are not used by the source and are dropped.
- Constants defined in files that are not part of this model take their upstream values: QoS level `reclaimed_cores`, instruction key `drop_cache`, metric names `mem.cache.container` and `mem.file.per.numa.container`, the container-type enum, and the memory-pressure states. Only equality with them matters.
- `QoSRegionBase` and `NewQoSRegionBase` are not part of this model. The dedicated region carries only the fields its constructor passes in.
- The feedback-control rules of concrete provision strategies (hold-last-value, idempotent update) apply to strategies that are not part of this model. The base only stores state.
- Type definitions in types.go that the core does not use (resource names, headroom policy names, pod/container/pool entry maps, update status, pool information, the named knob, action and provision-policy constants) are not modelled.
- pkg/custom-metric/collector/prometheus/collector_test.go is an HTTP scrape test. It is network I/O with no logic to model.
