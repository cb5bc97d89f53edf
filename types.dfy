/** Shared vocabulary of the system advisor: container identity and allocation
    state, region membership, indicators, control knobs, memory-pressure status
    and per-container memory advice. Values only; no behaviour. */
module Types {

  datatype Option<+T> = None | Some(value: T)

  /** Role of a container inside its pod (the kubelet resource-plugin enum). */
  datatype ContainerType = Init | Main | Sidecar | Ephemeral

  /** QoS level annotation value that marks a container as reclaimable best-effort. */
  const QoSLevelReclaimedCores: string := "reclaimed_cores"

  /** Set of CPU ids. */
  type CPUSet = set<int>

  /** NUMA node id -> CPUs assigned on that node. */
  type TopologyAwareAssignment = map<int, CPUSet>

  /** Container information as seen by the advisor plugins. The first group of
      fields never changes during the container's life, the second is updated
      by allocation events outside this core. Requests are floating point in
      the source and are carried here as opaque reals that nothing reads. */
  datatype ContainerInfo = ContainerInfo(
    podUID: string,
    podNamespace: string,
    podName: string,
    containerName: string,
    containerType: ContainerType,
    containerIndex: int,
    labels: map<string, string>,
    annotations: map<string, string>,
    qosLevel: string,
    cpuRequest: real,
    memoryRequest: real,
    rampUp: bool,
    ownerPoolName: string,
    topologyAwareAssignments: TopologyAwareAssignment,
    originalTopologyAwareAssignments: TopologyAwareAssignment)

  /** Pod UID -> names of the pod's containers that belong to a region. */
  type PodSet = map<string, set<string>>

  type ControlKnobName = string

  type ControlKnobAction = string

  /** A knob's value (floating point in the source, opaque here) and action. */
  datatype ControlKnobValue = ControlKnobValue(value: real, action: ControlKnobAction)

  /** Tunable system entries keyed by knob name. */
  type ControlKnob = map<ControlKnobName, ControlKnobValue>

  /** Observed and wanted levels of one stability metric. */
  datatype IndicatorValue = IndicatorValue(current: real, target: real, high: real, low: real)

  /** Stability metrics keyed by metric name. */
  type Indicator = map<string, IndicatorValue>

  /** The predefined kinds of QoS region. */
  datatype QoSRegionType = Share | DedicatedNumaExclusive | Empty

  type CPUProvisionPolicyName = string

  /** Memory state of the node or of one NUMA node, as classified by the
      pressure detector. */
  datatype MemoryPressureState = NoRisk | TuneMemCg | DropCache

  /** One condition: its state and, when set, how much memory to reclaim
      (a quantity in bytes). */
  datatype MemoryPressureCondition = MemoryPressureCondition(
    targetReclaimed: Option<int>,
    state: MemoryPressureState)

  /** Node-level condition plus one condition per NUMA id. */
  datatype MemoryPressureStatus = MemoryPressureStatus(
    nodeCondition: MemoryPressureCondition,
    numaConditions: map<int, MemoryPressureCondition>)

  /** Advice for one container: its identity and a bag of key/value instructions. */
  datatype ContainerMemoryAdvices = ContainerMemoryAdvices(
    podUID: string,
    containerName: string,
    values: map<string, string>)

  /** What a memory advisor plugin hands back to the driver. */
  datatype InternalMemoryCalculationResult = InternalMemoryCalculationResult(
    containerEntries: seq<ContainerMemoryAdvices>)
}

/** Handles to the collaborators the core holds references to. They are only
    stored and passed along here; everything they answer is given to the
    model's operations as parameters. */
module Collaborators {

  /** The advisor's container and pool registry. */
  class MetaCache { }

  /** Read-only view of the registry. */
  class MetaReader { }

  /** Access to node agents, among them the metrics fetcher. */
  class MetaServer { }

  /** Telemetry sink. */
  class MetricEmitter { }
}
