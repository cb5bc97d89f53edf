/** The cache-reaper memory advisor plugin: under memory pressure it picks,
    per scope (whole node, or one NUMA node), reclaimable main containers
    whose cache to drop, and hands out one drop-cache advice per picked
    container. */
module CacheReaperPlugin {
  import opened Types
  import opened ReclaimSelection
  import Collaborators

  /** NUMA id standing for the whole node. */
  const NodeNumaID: int := -1
  const MetricMemCacheContainer: string := "mem.cache.container"
  const MetricsMemFilePerNumaContainer: string := "mem.file.per.numa.container"

  /** Instruction key of the one advice this plugin emits. */
  const ControlKnobKeyDropCache: string := "drop_cache"

  /** Identity of a container in the reclamation set: pod name and container name. */
  datatype PodContainerName = PodContainerName(podName: string, containerName: string)

  function GeneratePodContainerName(ci: ContainerInfo): PodContainerName
  {
    PodContainerName(ci.podName, ci.containerName)
  }

  /** Reclaimed-cores main containers only; a nil entry is rejected. */
  predicate ReclaimedContainersFilter(ci: Option<ContainerInfo>)
  {
    ci.Some? && ci.value.qosLevel == QoSLevelReclaimedCores && ci.value.containerType == Main
  }

  /** The candidates of a cycle: the registry entries the filter keeps, in
      visiting order. */
  function Candidates(registry: seq<Option<ContainerInfo>>): seq<ContainerInfo>
  {
    if registry == [] then []
    else if ReclaimedContainersFilter(registry[0]) then [registry[0].value] + Candidates(registry[1..])
    else Candidates(registry[1..])
  }

  /** A candidate is exactly a non-nil registry entry at reclaimed-cores QoS
      level whose role is the main container. */
  lemma {:induction false} CandidatesExactly(registry: seq<Option<ContainerInfo>>)
    ensures forall c :: c in Candidates(registry) <==>
      Some(c) in registry && c.qosLevel == QoSLevelReclaimedCores && c.containerType == Main
    decreases |registry|
  {
    if registry != [] {
      CandidatesExactly(registry[1..]);
      assert registry == [registry[0]] + registry[1..];
    }
  }

  /** A condition triggers selection only when it signals drop-cache and
      carries a reclaim target. */
  predicate Qualifies(cond: MemoryPressureCondition)
  {
    cond.state == DropCache && cond.targetReclaimed.Some?
  }

  function NodeScope(): Scope
  {
    Scope(MetricMemCacheContainer, NodeNumaID)
  }

  function NumaScope(numaID: int): Scope
  {
    Scope(MetricsMemFilePerNumaContainer, numaID)
  }

  /** Containers one scope contributes: its selection when its condition
      qualifies, nothing otherwise. */
  ghost function ScopeSelected(lookup: MetricLookup, cond: MemoryPressureCondition, scope: Scope,
                               candidates: seq<ContainerInfo>): set<ContainerInfo>
  {
    if Qualifies(cond) then
      set c | c in Selection(lookup, scope, candidates, cond.targetReclaimed.value)
    else {}
  }

  /** Containers the node scope contributes. */
  ghost function NodeSelected(lookup: MetricLookup, status: MemoryPressureStatus, candidates: seq<ContainerInfo>): set<ContainerInfo>
  {
    ScopeSelected(lookup, status.nodeCondition, NodeScope(), candidates)
  }

  /** Containers the NUMA scopes with ids in ids contribute. */
  ghost function NumaSelected(lookup: MetricLookup, status: MemoryPressureStatus, candidates: seq<ContainerInfo>,
                              ids: set<int>): set<ContainerInfo>
  {
    set id, c | id in ids && id in status.numaConditions &&
                c in ScopeSelected(lookup, status.numaConditions[id], NumaScope(id), candidates) :: c
  }

  lemma NumaSelectedStep(lookup: MetricLookup, status: MemoryPressureStatus, candidates: seq<ContainerInfo>,
                         ids: set<int>, id: int)
    requires id in status.numaConditions
    ensures NumaSelected(lookup, status, candidates, ids + {id}) ==
      NumaSelected(lookup, status, candidates, ids) + ScopeSelected(lookup, status.numaConditions[id], NumaScope(id), candidates)
  {
  }

  /** Everything a reconcile cycle selects, over the node scope and all NUMA scopes. */
  ghost function ReapSet(lookup: MetricLookup, status: MemoryPressureStatus, candidates: seq<ContainerInfo>): set<ContainerInfo>
  {
    NodeSelected(lookup, status, candidates) + NumaSelected(lookup, status, candidates, status.numaConditions.Keys)
  }

  /** m is a reclamation set holding exactly the containers of s by identity:
      each container of s has its key in m, and each entry of m is a
      container of s stored under its own key. */
  ghost predicate Represents(m: map<PodContainerName, ContainerInfo>, s: set<ContainerInfo>)
  {
    && (forall c :: c in s ==> GeneratePodContainerName(c) in m)
    && (forall k :: k in m ==> m[k] in s && GeneratePodContainerName(m[k]) == k)
  }

  /** Recording the selected containers of one scope in order; a later
      container with the same key overwrites the earlier one. */
  function Record(m: map<PodContainerName, ContainerInfo>, selected: seq<ContainerInfo>): map<PodContainerName, ContainerInfo>
    decreases |selected|
  {
    if selected == [] then m
    else Record(m[GeneratePodContainerName(selected[0]) := selected[0]], selected[1..])
  }

  /** Storing one container under its key adds exactly it to what the map
      represents. */
  lemma RepresentsInsert(m: map<PodContainerName, ContainerInfo>, s: set<ContainerInfo>, c: ContainerInfo)
    requires Represents(m, s)
    ensures Represents(m[GeneratePodContainerName(c) := c], s + {c})
  {
  }

  /** The elements of a non-empty sequence: its head and those of its tail. */
  lemma ElementsCons(selected: seq<ContainerInfo>)
    requires selected != []
    ensures (set c | c in selected) == {selected[0]} + set c | c in selected[1..]
  {
    assert selected == [selected[0]] + selected[1..];
  }

  /** Recording a scope's selection adds exactly its containers to what the
      map represents. */
  lemma {:induction false} RecordRepresents(m: map<PodContainerName, ContainerInfo>, s: set<ContainerInfo>, selected: seq<ContainerInfo>)
    requires Represents(m, s)
    ensures Represents(Record(m, selected), s + set c | c in selected)
    decreases |selected|
  {
    if selected != [] {
      var c0 := selected[0];
      RepresentsInsert(m, s, c0);
      RecordRepresents(m[GeneratePodContainerName(c0) := c0], s + {c0}, selected[1..]);
      ElementsCons(selected);
    }
  }

  /** Only the empty map represents the empty set. */
  lemma RepresentsEmpty(m: map<PodContainerName, ContainerInfo>)
    requires Represents(m, {})
    ensures m == map[]
  {
  }

  /** When no two represented containers share a key, the map is determined
      by the set. */
  lemma RepresentsUnique(m1: map<PodContainerName, ContainerInfo>, m2: map<PodContainerName, ContainerInfo>, s: set<ContainerInfo>)
    requires forall c, d :: c in s && d in s && GeneratePodContainerName(c) == GeneratePodContainerName(d) ==> c == d
    requires Represents(m1, s) && Represents(m2, s)
    ensures m1 == m2
  {
    assert m1.Keys == m2.Keys by {
      forall k | k in m1 ensures k in m2 {
        assert GeneratePodContainerName(m1[k]) in m2;
      }
      forall k | k in m2 ensures k in m1 {
        assert GeneratePodContainerName(m2[k]) in m1;
      }
    }
    forall k | k in m1 ensures m1[k] == m2[k] {
      assert m1[k] in s && m2[k] in s;
    }
  }

  /** A scope contributes only when its condition qualifies: with no
      drop-cache condition carrying a target anywhere, nothing is selected. */
  lemma NothingToReapWithoutDropCache(lookup: MetricLookup, status: MemoryPressureStatus, candidates: seq<ContainerInfo>)
    requires !Qualifies(status.nodeCondition)
    requires forall id :: id in status.numaConditions ==> !Qualifies(status.numaConditions[id])
    ensures ReapSet(lookup, status, candidates) == {}
  {
  }

  /** Every container picked in a cycle is one of the candidates, and its
      metric was fetched in a qualifying scope: for the node, the node cache
      metric at NUMA id -1; for a NUMA node, the per-NUMA file metric at that
      id. */
  lemma ReapSetFromCandidates(lookup: MetricLookup, status: MemoryPressureStatus, candidates: seq<ContainerInfo>, c: ContainerInfo)
    requires c in ReapSet(lookup, status, candidates)
    ensures c in candidates
    ensures || (Qualifies(status.nodeCondition) && Fetched(lookup, Scope(MetricMemCacheContainer, -1), c))
            || (exists id :: id in status.numaConditions && Qualifies(status.numaConditions[id]) &&
                  Fetched(lookup, Scope(MetricsMemFilePerNumaContainer, id), c))
  {
    if c in NodeSelected(lookup, status, candidates) {
      SelectionFromCandidates(lookup, NodeScope(), candidates, status.nodeCondition.targetReclaimed.value);
      assert c in multiset(candidates);
    } else {
      var id :| id in status.numaConditions &&
        c in ScopeSelected(lookup, status.numaConditions[id], NumaScope(id), candidates);
      SelectionFromCandidates(lookup, NumaScope(id), candidates, status.numaConditions[id].targetReclaimed.value);
      assert c in multiset(candidates);
    }
  }

  /** Every container picked in a cycle is a reclaimed-cores main container
      of the registry whose metric was fetched in a qualifying scope. */
  lemma ReapSetSound(lookup: MetricLookup, status: MemoryPressureStatus, registry: seq<Option<ContainerInfo>>, c: ContainerInfo)
    requires c in ReapSet(lookup, status, Candidates(registry))
    ensures Some(c) in registry && c.qosLevel == QoSLevelReclaimedCores && c.containerType == Main
    ensures || (Qualifies(status.nodeCondition) && Fetched(lookup, Scope(MetricMemCacheContainer, -1), c))
            || (exists id :: id in status.numaConditions && Qualifies(status.numaConditions[id]) &&
                  Fetched(lookup, Scope(MetricsMemFilePerNumaContainer, id), c))
  {
    ReapSetFromCandidates(lookup, status, Candidates(registry), c);
    CandidatesExactly(registry);
  }

  /** The one advice emitted for a container in the reclamation set. */
  function DropCacheAdvice(ci: ContainerInfo): ContainerMemoryAdvices
  {
    ContainerMemoryAdvices(ci.podUID, ci.containerName, map[ControlKnobKeyDropCache := "true"])
  }

  /** The advices for a reclamation set, as a bag (map order is unspecified). */
  ghost function AdviceBag(m: map<PodContainerName, ContainerInfo>): multiset<ContainerMemoryAdvices>
    decreases |m|
  {
    if m == map[] then multiset{}
    else
      var k := PickKey(m);
      AdviceBag(m - {k}) + multiset{DropCacheAdvice(m[k])}
  }

  ghost function PickKey(m: map<PodContainerName, ContainerInfo>): (k: PodContainerName)
    requires m != map[]
    ensures k in m
  {
    assert (forall k :: k !in m) ==> m == map[];
    var k :| k in m; k
  }

  /** The bag does not depend on which key is taken out first. */
  lemma {:induction false} AdviceBagRemove(m: map<PodContainerName, ContainerInfo>, k: PodContainerName)
    requires k in m
    ensures AdviceBag(m) == AdviceBag(m - {k}) + multiset{DropCacheAdvice(m[k])}
    decreases |m|
  {
    var k0 := PickKey(m);
    if k0 != k {
      var m0 := m - {k0};
      var mk := m - {k};
      assert m0.Keys == m.Keys - {k0} && mk.Keys == m.Keys - {k};
      assert |m0| == |m| - 1 && |mk| == |m| - 1;
      assert k in m0 && m0[k] == m[k];
      assert k0 in mk && mk[k0] == m[k0];
      var rest := m0 - {k};
      assert rest == mk - {k0};
      AdviceBagRemove(m0, k);
      AdviceBagRemove(mk, k0);
      assert AdviceBag(m) == AdviceBag(m0) + multiset{DropCacheAdvice(m[k0])};
      assert AdviceBag(m0) == AdviceBag(rest) + multiset{DropCacheAdvice(m[k])};
      assert AdviceBag(mk) == AdviceBag(rest) + multiset{DropCacheAdvice(m[k0])};
    }
  }

  /** The bag has one advice per stored container. */
  lemma {:induction false} AdviceBagSize(m: map<PodContainerName, ContainerInfo>)
    ensures |AdviceBag(m)| == |m|
    decreases |m|
  {
    if m != map[] {
      var k0 := PickKey(m);
      var m0 := m - {k0};
      assert |m0| == |m| - 1;
      AdviceBagSize(m0);
    }
  }

  /** Every stored container's advice is in the bag. */
  lemma {:induction false} AdviceBagComplete(m: map<PodContainerName, ContainerInfo>)
    ensures forall k :: k in m ==> DropCacheAdvice(m[k]) in AdviceBag(m)
    decreases |m|
  {
    if m != map[] {
      var k0 := PickKey(m);
      var m0 := m - {k0};
      AdviceBagComplete(m0);
      forall k | k in m ensures DropCacheAdvice(m[k]) in AdviceBag(m) {
        if k != k0 {
          assert k in m0 && m0[k] == m[k];
        }
      }
    }
  }

  /** Every advice in the bag is the drop-cache advice of a stored container. */
  lemma {:induction false} AdviceBagSound(m: map<PodContainerName, ContainerInfo>)
    ensures forall a :: a in AdviceBag(m) ==> exists k :: k in m && a == DropCacheAdvice(m[k])
    decreases |m|
  {
    if m != map[] {
      var k0 := PickKey(m);
      var m0 := m - {k0};
      AdviceBagSound(m0);
      forall a | a in AdviceBag(m) ensures exists k :: k in m && a == DropCacheAdvice(m[k]) {
        if a != DropCacheAdvice(m[k0]) {
          assert a in AdviceBag(m0);
          var k :| k in m0 && a == DropCacheAdvice(m0[k]);
          assert k in m && m[k] == m0[k];
        }
      }
    }
  }

  /** One drop-cache advice per stored container, carrying that container's
      pod UID and name and the single instruction drop-cache = "true". */
  lemma AdviceBagContents(m: map<PodContainerName, ContainerInfo>)
    ensures |AdviceBag(m)| == |m|
    ensures forall k :: k in m ==> DropCacheAdvice(m[k]) in AdviceBag(m)
    ensures forall a :: a in AdviceBag(m) ==>
      a.values == map[ControlKnobKeyDropCache := "true"] &&
      exists k :: k in m && a.podUID == m[k].podUID && a.containerName == m[k].containerName
  {
    AdviceBagSize(m);
    AdviceBagComplete(m);
    AdviceBagSound(m);
  }

  /** The advisor plugin and its reclamation set. The lock guarding the set
      is left out: Reconcile builds the new set locally and publishes it in
      one assignment, GetAdvices only reads it. */
  class CacheReaper {
    const metaReader: Collaborators.MetaReader?
    const metaServer: Collaborators.MetaServer?
    const emitter: Collaborators.MetricEmitter?
    var containersToReapCache: map<PodContainerName, ContainerInfo>

    /** A new plugin stores its collaborators and starts with an empty set. */
    constructor (metaReader: Collaborators.MetaReader?, metaServer: Collaborators.MetaServer?,
                 emitter: Collaborators.MetricEmitter?)
      ensures this.metaReader == metaReader && this.metaServer == metaServer && this.emitter == emitter
      ensures containersToReapCache == map[]
    {
      this.metaReader := metaReader;
      this.metaServer := metaServer;
      this.emitter := emitter;
      containersToReapCache := map[];
    }

    /** The registry traversal: keep the entries the filter accepts, in order. */
    static method CollectCandidates(registry: seq<Option<ContainerInfo>>) returns (containers: seq<ContainerInfo>)
      ensures containers == Candidates(registry)
    {
      containers := [];
      var i := 0;
      while i < |registry|
        invariant 0 <= i <= |registry|
        invariant containers + Candidates(registry[i..]) == Candidates(registry)
      {
        assert registry[i..][0] == registry[i] && registry[i..][1..] == registry[i + 1..];
        if ReclaimedContainersFilter(registry[i]) {
          containers := containers + [registry[i].value];
        }
        i := i + 1;
      }
    }

    /** Stores each selected container under its identity. */
    static method RecordSelected(m: map<PodContainerName, ContainerInfo>, selected: seq<ContainerInfo>)
      returns (m': map<PodContainerName, ContainerInfo>)
      ensures m' == Record(m, selected)
    {
      m' := m;
      for i := 0 to |selected|
        invariant Record(m', selected[i..]) == Record(m, selected)
      {
        assert selected[i..][0] == selected[i] && selected[i..][1..] == selected[i + 1..];
        m' := m'[GeneratePodContainerName(selected[i]) := selected[i]];
      }
    }

    /** One scope: when its condition signals drop-cache with a target, run
        the selection and record the selected containers. */
    static method ReapScope(lookup: MetricLookup, cond: MemoryPressureCondition, scope: Scope,
                            containers: seq<ContainerInfo>, m: map<PodContainerName, ContainerInfo>,
                            ghost s: set<ContainerInfo>)
      returns (m': map<PodContainerName, ContainerInfo>)
      requires Represents(m, s)
      ensures Represents(m', s + ScopeSelected(lookup, cond, scope, containers))
    {
      m' := m;
      if cond.state == DropCache && cond.targetReclaimed.Some? {
        var selected := SelectContainers(lookup, scope, containers, cond.targetReclaimed.value);
        RecordRepresents(m, s, selected);
        m' := RecordSelected(m, selected);
      }
    }

    /** The NUMA scopes, visited in unspecified order, each with its own id
        and the per-NUMA file metric. */
    static method ReapNumaScopes(lookup: MetricLookup, status: MemoryPressureStatus, containers: seq<ContainerInfo>,
                                 m: map<PodContainerName, ContainerInfo>, ghost s: set<ContainerInfo>)
      returns (m': map<PodContainerName, ContainerInfo>)
      requires Represents(m, s)
      ensures Represents(m', s + NumaSelected(lookup, status, containers, status.numaConditions.Keys))
    {
      m' := m;
      var remaining := status.numaConditions.Keys;
      ghost var visited: set<int> := {};
      while remaining != {}
        invariant remaining + visited == status.numaConditions.Keys && remaining !! visited
        invariant Represents(m', s + NumaSelected(lookup, status, containers, visited))
        decreases remaining
      {
        assert (forall id :: id !in remaining) ==> remaining == {};
        var numaID :| numaID in remaining;
        NumaSelectedStep(lookup, status, containers, visited, numaID);
        m' := ReapScope(lookup, status.numaConditions[numaID], Scope(MetricsMemFilePerNumaContainer, numaID),
                        containers, m', s + NumaSelected(lookup, status, containers, visited));
        remaining := remaining - {numaID};
        visited := visited + {numaID};
      }
    }

    /** One cycle: select per qualifying scope, union the selections into a
        fresh set, and replace the stored set with it. Always succeeds. */
    method Reconcile(status: MemoryPressureStatus, registry: seq<Option<ContainerInfo>>, lookup: MetricLookup)
      returns (err: Option<string>)
      modifies this
      ensures err == None
      ensures Represents(containersToReapCache, ReapSet(lookup, status, Candidates(registry)))
    {
      var toReap: map<PodContainerName, ContainerInfo> := map[];
      var containers := CollectCandidates(registry);
      toReap := ReapScope(lookup, status.nodeCondition, Scope(MetricMemCacheContainer, NodeNumaID), containers, toReap, {});
      toReap := ReapNumaScopes(lookup, status, containers, toReap, NodeSelected(lookup, status, containers));
      containersToReapCache := toReap;
      err := None;
    }

    /** One drop-cache advice per stored container; nothing changes. */
    method GetAdvices() returns (result: InternalMemoryCalculationResult)
      ensures multiset(result.containerEntries) == AdviceBag(containersToReapCache)
    {
      var entries: seq<ContainerMemoryAdvices> := [];
      var rest := containersToReapCache;
      while rest != map[]
        invariant multiset(entries) + AdviceBag(rest) == AdviceBag(containersToReapCache)
        decreases |rest|
      {
        assert (forall k :: k !in rest) ==> rest == map[];
        var k :| k in rest;
        AdviceBagRemove(rest, k);
        entries := entries + [DropCacheAdvice(rest[k])];
        rest := rest - {k};
      }
      result := InternalMemoryCalculationResult(entries);
    }
  }

  /** After a cycle in which no scope signalled drop-cache with a target,
      the stored set is empty and no advice is handed out, whatever the set
      held before. */
  lemma NoDropCacheNoAdvice(lookup: MetricLookup, status: MemoryPressureStatus, candidates: seq<ContainerInfo>,
                            m: map<PodContainerName, ContainerInfo>)
    requires !Qualifies(status.nodeCondition)
    requires forall id :: id in status.numaConditions ==> !Qualifies(status.numaConditions[id])
    requires Represents(m, ReapSet(lookup, status, candidates))
    ensures m == map[] && AdviceBag(m) == multiset{}
  {
    NothingToReapWithoutDropCache(lookup, status, candidates);
    RepresentsEmpty(m);
  }
}
