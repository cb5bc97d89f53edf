/** The QoS region for dedicated cores bound to, and exclusive on, NUMA
    nodes. Its knob update and headroom are fixed placeholders: headroom of
    such cores is estimated elsewhere. */
module Region {
  import opened Types
  import Collaborators

  /** The fields the dedicated-NUMA region passes to the shared region base. */
  datatype QoSRegionBase = QoSRegionBase(
    name: string,
    ownerPoolName: string,
    regionType: QoSRegionType,
    provisionPolicyName: CPUProvisionPolicyName,
    metaCache: Collaborators.MetaCache?,
    emitter: Collaborators.MetricEmitter?)

  datatype QoSRegionDedicatedNuma = QoSRegionDedicatedNuma(base: QoSRegionBase)

  /** Error value of the region operations; None means no error. */
  type RegionError = Option<string>

  /** The constructor records its arguments in the embedded base. */
  function NewQoSRegionDedicatedNuma(name: string, ownerPoolName: string, regionType: QoSRegionType,
                                     regionPolicy: CPUProvisionPolicyName, metaCache: Collaborators.MetaCache?,
                                     emitter: Collaborators.MetricEmitter?): (r: QoSRegionDedicatedNuma)
    ensures r.base.name == name && r.base.ownerPoolName == ownerPoolName
    ensures r.base.regionType == regionType && r.base.provisionPolicyName == regionPolicy
    ensures r.base.metaCache == metaCache && r.base.emitter == emitter
  {
    QoSRegionDedicatedNuma(QoSRegionBase(name, ownerPoolName, regionType, regionPolicy, metaCache, emitter))
  }

  /** The knob update does nothing: the region after it is the region before. */
  function TryUpdateControlKnob(r: QoSRegionDedicatedNuma): (r': QoSRegionDedicatedNuma)
    ensures r' == r
  {
    r
  }

  /** No knob values and no error, whatever the region holds. */
  function GetControlKnobUpdated(r: QoSRegionDedicatedNuma): (res: (ControlKnob, RegionError))
    ensures res.0 == map[] && res.1 == None
  {
    (map[], None)
  }

  /** Zero headroom and no error, whatever the region holds. */
  function GetHeadroom(r: QoSRegionDedicatedNuma): (res: (int, RegionError))
    ensures res.0 == 0 && res.1 == None
  {
    (0, None)
  }

  /** Neither query depends on the region's state, and a knob update does
      not change what they report. */
  lemma QueriesIgnoreState(r1: QoSRegionDedicatedNuma, r2: QoSRegionDedicatedNuma)
    ensures GetHeadroom(r1) == GetHeadroom(r2) && GetControlKnobUpdated(r1) == GetControlKnobUpdated(r2)
    ensures GetHeadroom(TryUpdateControlKnob(r1)) == GetHeadroom(r1)
    ensures GetControlKnobUpdated(TryUpdateControlKnob(r1)) == GetControlKnobUpdated(r1)
  {
  }
}
