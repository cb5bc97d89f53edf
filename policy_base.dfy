/** State shared by every CPU provision policy: the region's membership, its
    indicators, the current control knob, and references to the registry and
    the node agents. The base only stores; it computes nothing. */
module ProvisionPolicy {
  import opened Types
  import Collaborators

  /** A snapshot of everything a PolicyBase holds. */
  datatype PolicyState = PolicyState(
    podSet: PodSet,
    indicator: Indicator,
    controlKnobValue: ControlKnob,
    metaCache: Collaborators.MetaCache?,
    metaServer: Collaborators.MetaServer?)

  class PolicyBase {
    var podSet: PodSet
    var indicator: Indicator
    var controlKnobValue: ControlKnob
    var metaCache: Collaborators.MetaCache?
    var metaServer: Collaborators.MetaServer?

    function State(): PolicyState
      reads this
    {
      PolicyState(podSet, indicator, controlKnobValue, metaCache, metaServer)
    }

    /** Starts with empty membership, indicators and knobs, and keeps the
        given collaborator references. */
    constructor (metaCache: Collaborators.MetaCache?, metaServer: Collaborators.MetaServer?)
      ensures podSet == map[] && indicator == map[] && controlKnobValue == map[]
      ensures this.metaCache == metaCache && this.metaServer == metaServer
    {
      podSet := map[];
      indicator := map[];
      controlKnobValue := map[];
      this.metaCache := metaCache;
      this.metaServer := metaServer;
    }

    /** Replaces the membership wholesale. */
    method SetPodSet(podSet: PodSet)
      modifies this`podSet
      ensures this.podSet == podSet
      ensures indicator == old(indicator) && controlKnobValue == old(controlKnobValue)
      ensures metaCache == old(metaCache) && metaServer == old(metaServer)
      ensures State() == old(State()).(podSet := podSet)
    {
      this.podSet := podSet;
    }

    /** Replaces the indicators wholesale. */
    method SetIndicator(v: Indicator)
      modifies this`indicator
      ensures indicator == v
      ensures podSet == old(podSet) && controlKnobValue == old(controlKnobValue)
      ensures metaCache == old(metaCache) && metaServer == old(metaServer)
      ensures State() == old(State()).(indicator := v)
    {
      indicator := v;
    }

    /** Replaces the control knob wholesale. */
    method SetControlKnobValue(v: ControlKnob)
      modifies this`controlKnobValue
      ensures controlKnobValue == v
      ensures podSet == old(podSet) && indicator == old(indicator)
      ensures metaCache == old(metaCache) && metaServer == old(metaServer)
      ensures State() == old(State()).(controlKnobValue := v)
    {
      controlKnobValue := v;
    }
  }

  /** Each setter is idempotent: setting the same value twice leaves the
      state a single set gives; and the setters touch disjoint fields, so
      setting two different fields commutes. */
  lemma SettersIdempotent(s: PolicyState, p: PodSet, i: Indicator, k: ControlKnob)
    ensures s.(podSet := p).(podSet := p) == s.(podSet := p)
    ensures s.(indicator := i).(indicator := i) == s.(indicator := i)
    ensures s.(controlKnobValue := k).(controlKnobValue := k) == s.(controlKnobValue := k)
    ensures s.(podSet := p).(indicator := i) == s.(indicator := i).(podSet := p)
    ensures s.(podSet := p).(controlKnobValue := k) == s.(controlKnobValue := k).(podSet := p)
    ensures s.(indicator := i).(controlKnobValue := k) == s.(controlKnobValue := k).(indicator := i)
  {
  }
}
