/** Assembling the load-balancer spec: the field builders run in order, the first failure aborts
    the build, and on success every field of the spec comes from its builder. */
module LoadBalancerSpecBuilder {
  import opened Outcomes
  import opened Elbv2Model
  import opened IngressGroup
  import opened ListMerge
  import opened MapMerge
  import opened LoadBalancerNaming
  import opened LoadBalancerBuilder

  /** Every field builder succeeds, each given the scheme / address type built before it. */
  ghost predicate BuildSucceeds(t: ModelBuildTask)
  {
    && SchemeOf(t).Ok?
    && IPAddressTypeOf(t).Ok?
    && SubnetMappingsOf(t, SchemeOf(t).value).Ok?
    && SecurityGroupsOf(t, IPAddressTypeOf(t).value).Ok?
    && Mergeable(AttributeAnnotations(t.ingGroup.members))
    && Mergeable(TagAnnotations(t.ingGroup.members))
  }

  /** The spec an application load balancer gets from a successful build. */
  ghost predicate SpecOfTask(t: ModelBuildTask, spec: LoadBalancerSpec)
    requires BuildSucceeds(t)
  {
    && spec.lbType == Application
    && spec.scheme == SchemeOf(t).value
    && spec.ipAddressType == IPAddressTypeOf(t).value
    && spec.subnetMappings == SubnetMappingsOf(t, spec.scheme).value
    && spec.securityGroups == SecurityGroupsOf(t, spec.ipAddressType).value
    && AttributesExactly(spec.attributes, UnionAll(AttributeAnnotations(t.ingGroup.members)))
    && spec.tags == UnionAll(TagAnnotations(t.ingGroup.members))
    && spec.name == BuildLoadBalancerName(t.clusterName, t.ingGroup.id, spec.scheme, t.env.sha256)
  }

  /** The error of the first builder, in build order, that fails. */
  ghost predicate FirstFailure(t: ModelBuildTask, e: Error)
  {
    if SchemeOf(t).Err? then e == SchemeOf(t).error
    else if IPAddressTypeOf(t).Err? then e == IPAddressTypeOf(t).error
    else if SubnetMappingsOf(t, SchemeOf(t).value).Err? then e == SubnetMappingsOf(t, SchemeOf(t).value).error
    else if SecurityGroupsOf(t, IPAddressTypeOf(t).value).Err? then e == SecurityGroupsOf(t, IPAddressTypeOf(t).value).error
    else if !Mergeable(AttributeAnnotations(t.ingGroup.members)) then
      MapMergeFailure(LoadBalancerAttributes, AttributeAnnotations(t.ingGroup.members), e)
    else MapMergeFailure(Tags, TagAnnotations(t.ingGroup.members), e)
  }

  method BuildLoadBalancerSpec(t: ModelBuildTask) returns (r: Result<LoadBalancerSpec>)
    ensures r.Ok? <==> BuildSucceeds(t)
    ensures r.Ok? ==> SpecOfTask(t, r.value)
    ensures r.Err? ==> FirstFailure(t, r.error)
  {
    var scheme := BuildLoadBalancerScheme(t);
    if scheme.Err? {
      return Err(scheme.error);
    }
    var ipAddressType := BuildLoadBalancerIPAddressType(t);
    if ipAddressType.Err? {
      return Err(ipAddressType.error);
    }
    var subnetMappings := BuildLoadBalancerSubnetMappings(t, scheme.value);
    if subnetMappings.Err? {
      return Err(subnetMappings.error);
    }
    var securityGroups := BuildLoadBalancerSecurityGroups(t, ipAddressType.value);
    if securityGroups.Err? {
      return Err(securityGroups.error);
    }
    var loadBalancerAttributes := BuildLoadBalancerAttributes(t);
    if loadBalancerAttributes.Err? {
      return Err(loadBalancerAttributes.error);
    }
    var tags := BuildLoadBalancerTags(t);
    if tags.Err? {
      return Err(tags.error);
    }
    var name := BuildLoadBalancerName(t.clusterName, t.ingGroup.id, scheme.value, t.env.sha256);
    return Ok(LoadBalancerSpec(
      name := name,
      lbType := Application,
      scheme := scheme.value,
      ipAddressType := ipAddressType.value,
      subnetMappings := subnetMappings.value,
      securityGroups := securityGroups.value,
      attributes := loadBalancerAttributes.value,
      tags := tags.value));
  }

  /** What every successfully built spec satisfies: a name within the 32-character limit made of
      alphanumerics and '-', at least two subnets whenever they came from discovery, exactly one
      security group whenever it is the managed one, and one attribute per distinct key. */
  lemma BuiltSpecInvariants(t: ModelBuildTask, spec: LoadBalancerSpec)
    requires BuildSucceeds(t) && SpecOfTask(t, spec)
    ensures |spec.name| <= 32 && NameChars(spec.name) && spec.name[..4] == "k8s-"
    ensures (forall i :: 0 <= i < |t.ingGroup.members| ==> t.ingGroup.members[i].subnets.None?) ==>
      |spec.subnetMappings| >= 2
    ensures (forall i :: 0 <= i < |t.ingGroup.members| ==> t.ingGroup.members[i].securityGroups.None?) ==>
      |spec.securityGroups| == 1
    ensures forall i, j :: 0 <= i < j < |spec.attributes| ==> spec.attributes[i].key != spec.attributes[j].key
  {
    LoadBalancerNameShape(t.clusterName, t.ingGroup.id, spec.scheme, t.env.sha256);
    SubnetSelectionPolicy(t, spec.scheme, t.env.discoverSubnets);
    SecurityGroupSelectionPolicy(t, spec.ipAddressType, t.env.managedSecurityGroup);
  }
}
