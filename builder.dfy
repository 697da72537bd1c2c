/** The per-field builders of the load-balancer spec and the assembly of the spec. Each builder
    is a method over the model-build task, proved equal to (or, where Go's map iteration order
    leaves the result open, bound by) a specification over the task. */
module LoadBalancerBuilder {
  import opened Outcomes
  import opened Elbv2Model
  import opened IngressGroup
  import opened SingleValueMerge
  import opened ListMerge
  import opened MapMerge
  import opened NameOrIDResolver
  import opened LoadBalancerNaming

  // ---------------------------------------------------------------- scheme and IP address type

  ghost function SchemeOf(t: ModelBuildTask): Result<LoadBalancerScheme>
  {
    match MergeSingleValue(SchemeAnnotations(t.ingGroup.members))
    case Unspecified => Ok(t.defaultScheme)
    case Conflicting(values) => Err(ConflictingScheme(values))
    case Agreed(raw) =>
      match ParseScheme(raw)
      case Some(s) => Ok(s)
      case None => Err(UnknownScheme(raw))
  }

  method BuildLoadBalancerScheme(t: ModelBuildTask) returns (r: Result<LoadBalancerScheme>)
    ensures r == SchemeOf(t)
  {
    var explicitSchemes := CollectExplicitValues(SchemeAnnotations(t.ingGroup.members));
    if |explicitSchemes| == 0 {
      return Ok(t.defaultScheme);
    }
    if |explicitSchemes| > 1 {
      return Err(ConflictingScheme(explicitSchemes));
    }
    var rawScheme :| rawScheme in explicitSchemes;
    SingletonSet(explicitSchemes, rawScheme);
    match ParseScheme(rawScheme) {
      case Some(s) => r := Ok(s);
      case None => r := Err(UnknownScheme(rawScheme));
    }
  }

  ghost function IPAddressTypeOf(t: ModelBuildTask): Result<IPAddressType>
  {
    match MergeSingleValue(IPAddressTypeAnnotations(t.ingGroup.members))
    case Unspecified => Ok(t.defaultIPAddressType)
    case Conflicting(values) => Err(ConflictingIPAddressType(values))
    case Agreed(raw) =>
      match ParseIPAddressType(raw)
      case Some(a) => Ok(a)
      case None => Err(UnknownIPAddressType(raw))
  }

  method BuildLoadBalancerIPAddressType(t: ModelBuildTask) returns (r: Result<IPAddressType>)
    ensures r == IPAddressTypeOf(t)
  {
    var explicitIPAddressTypes := CollectExplicitValues(IPAddressTypeAnnotations(t.ingGroup.members));
    if |explicitIPAddressTypes| == 0 {
      return Ok(t.defaultIPAddressType);
    }
    if |explicitIPAddressTypes| > 1 {
      return Err(ConflictingIPAddressType(explicitIPAddressTypes));
    }
    var rawIPAddressType :| rawIPAddressType in explicitIPAddressTypes;
    SingletonSet(explicitIPAddressTypes, rawIPAddressType);
    match ParseIPAddressType(rawIPAddressType) {
      case Some(a) => r := Ok(a);
      case None => r := Err(UnknownIPAddressType(rawIPAddressType));
    }
  }

  /** Scheme: the default when no member gives one; a conflict naming every distinct value
      exactly when two members differ; otherwise the agreed value, if it is a known scheme. */
  lemma SchemeMergePolicy(t: ModelBuildTask, raw: string)
    ensures (forall i :: 0 <= i < |t.ingGroup.members| ==> t.ingGroup.members[i].scheme.None?) ==>
      SchemeOf(t) == Ok(t.defaultScheme)
    ensures SchemeOf(t) == Err(ConflictingScheme(PresentValues(SchemeAnnotations(t.ingGroup.members)))) <==>
      exists i, j :: 0 <= i < |t.ingGroup.members| && 0 <= j < |t.ingGroup.members| &&
        t.ingGroup.members[i].scheme.Some? && t.ingGroup.members[j].scheme.Some? &&
        t.ingGroup.members[i].scheme.value != t.ingGroup.members[j].scheme.value
    ensures (exists i :: 0 <= i < |t.ingGroup.members| && t.ingGroup.members[i].scheme == Some(raw)) &&
            (forall i :: 0 <= i < |t.ingGroup.members| && t.ingGroup.members[i].scheme.Some? ==>
               t.ingGroup.members[i].scheme.value == raw) ==>
      SchemeOf(t) == (if raw == "internet-facing" then Ok(InternetFacing)
                      else if raw == "internal" then Ok(Internal)
                      else Err(UnknownScheme(raw)))
  {
    var members := t.ingGroup.members;
    var raws := SchemeAnnotations(members);
    assert forall i :: 0 <= i < |members| ==> raws[i] == members[i].scheme;
    SingleValueMergePolicy(raws, raw);
  }

  /** IP address type: the same policy over the two address types. */
  lemma IPAddressTypeMergePolicy(t: ModelBuildTask, raw: string)
    ensures (forall i :: 0 <= i < |t.ingGroup.members| ==> t.ingGroup.members[i].ipAddressType.None?) ==>
      IPAddressTypeOf(t) == Ok(t.defaultIPAddressType)
    ensures IPAddressTypeOf(t) == Err(ConflictingIPAddressType(PresentValues(IPAddressTypeAnnotations(t.ingGroup.members)))) <==>
      exists i, j :: 0 <= i < |t.ingGroup.members| && 0 <= j < |t.ingGroup.members| &&
        t.ingGroup.members[i].ipAddressType.Some? && t.ingGroup.members[j].ipAddressType.Some? &&
        t.ingGroup.members[i].ipAddressType.value != t.ingGroup.members[j].ipAddressType.value
    ensures (exists i :: 0 <= i < |t.ingGroup.members| && t.ingGroup.members[i].ipAddressType == Some(raw)) &&
            (forall i :: 0 <= i < |t.ingGroup.members| && t.ingGroup.members[i].ipAddressType.Some? ==>
               t.ingGroup.members[i].ipAddressType.value == raw) ==>
      IPAddressTypeOf(t) == (if raw == "ipv4" then Ok(IPv4)
                             else if raw == "dualstack" then Ok(DualStack)
                             else Err(UnknownIPAddressType(raw)))
  {
    var members := t.ingGroup.members;
    var raws := IPAddressTypeAnnotations(members);
    assert forall i :: 0 <= i < |members| ==> raws[i] == members[i].ipAddressType;
    SingleValueMergePolicy(raws, raw);
  }

  // ---------------------------------------------------------------- subnets

  /** One mapping per subnet ID, in order. */
  function MappingsOf(subnetIDs: seq<string>): seq<SubnetMapping>
  {
    seq(|subnetIDs|, i requires 0 <= i < |subnetIDs| => SubnetMapping(subnetIDs[i]))
  }

  method BuildLoadBalancerSubnetMappingsWithSubnetIDs(subnetIDs: seq<string>) returns (subnetMappings: seq<SubnetMapping>)
    ensures |subnetMappings| == |subnetIDs|
    ensures forall i :: 0 <= i < |subnetIDs| ==> subnetMappings[i].subnetID == subnetIDs[i]
  {
    subnetMappings := [];
    var i := 0;
    while i < |subnetIDs|
      invariant 0 <= i <= |subnetIDs|
      invariant |subnetMappings| == i
      invariant forall j :: 0 <= j < i ==> subnetMappings[j].subnetID == subnetIDs[j]
    {
      subnetMappings := subnetMappings + [SubnetMapping(subnetIDs[i])];
      i := i + 1;
    }
  }

  /** Explicit subnet lists (order-insensitive agreement, only the first resolved), or, when no
      member gives one, auto-discovery with a minimum of two subnets. */
  function SubnetMappingsOf(t: ModelBuildTask, scheme: LoadBalancerScheme): Result<seq<SubnetMapping>>
  {
    match SelectExplicitList(IgnoreOrder, SubnetAnnotations(t.ingGroup.members))
    case Unset =>
      (match t.env.discoverSubnets(scheme)
       case Err(e) => Err(e)
       case Ok(chosenSubnetIDs) =>
         if |chosenSubnetIDs| < 2 then Err(InsufficientSubnets(chosenSubnetIDs)) else Ok(MappingsOf(chosenSubnetIDs)))
    case ListConflict(chosen, other) => Err(ConflictingList(Subnets, chosen, other))
    case Chosen(subnetNameOrIDs) =>
      match Resolution(Subnets, subnetNameOrIDs, "subnet-", t.env.describeSubnets, t.vpcID)
      case Err(e) => Err(e)
      case Ok(chosenSubnetIDs) => Ok(MappingsOf(chosenSubnetIDs))
  }

  method BuildLoadBalancerSubnetMappings(t: ModelBuildTask, scheme: LoadBalancerScheme) returns (r: Result<seq<SubnetMapping>>)
    ensures r == SubnetMappingsOf(t, scheme)
  {
    var selection := MergeExplicitLists(IgnoreOrder, SubnetAnnotations(t.ingGroup.members));
    match selection {
      case Unset =>
        var discovered := t.env.discoverSubnets(scheme);
        if discovered.Err? {
          return Err(discovered.error);
        }
        var chosenSubnetIDs := discovered.value;
        if |chosenSubnetIDs| < 2 {
          return Err(InsufficientSubnets(chosenSubnetIDs));
        }
        var mappings := BuildLoadBalancerSubnetMappingsWithSubnetIDs(chosenSubnetIDs);
        assert mappings == MappingsOf(chosenSubnetIDs);
        return Ok(mappings);
      case ListConflict(chosen, other) =>
        return Err(ConflictingList(Subnets, chosen, other));
      case Chosen(subnetNameOrIDs) =>
        var resolved := ResolveSubnetIDsViaNameOrIDSlice(t, subnetNameOrIDs);
        if resolved.Err? {
          return Err(resolved.error);
        }
        var mappings := BuildLoadBalancerSubnetMappingsWithSubnetIDs(resolved.value);
        assert mappings == MappingsOf(resolved.value);
        return Ok(mappings);
    }
  }

  /** The subnet IDs a mapping list attaches to. */
  function SubnetIDsOf(mappings: seq<SubnetMapping>): seq<string>
  {
    seq(|mappings|, i requires 0 <= i < |mappings| => mappings[i].subnetID)
  }

  /** Subnet selection: discovery is used exactly when no member gives subnets, and then at least
      two subnets are required; otherwise the result never depends on discovery, and it is the
      resolution of the first member's list, one mapping per requested token. */
  lemma SubnetSelectionPolicy(t: ModelBuildTask, scheme: LoadBalancerScheme,
                              otherDiscovery: LoadBalancerScheme -> Result<seq<string>>)
    ensures
      var members := t.ingGroup.members;
      var r := SubnetMappingsOf(t, scheme);
      var discovered := t.env.discoverSubnets(scheme);
      (forall i :: 0 <= i < |members| ==> members[i].subnets.None?) ==>
        && (discovered.Err? ==> r == Err(discovered.error))
        && (discovered.Ok? && |discovered.value| < 2 ==> r == Err(InsufficientSubnets(discovered.value)))
        && (discovered.Ok? && |discovered.value| >= 2 ==> r == Ok(MappingsOf(discovered.value)))
        && (r.Ok? ==> |r.value| >= 2 && discovered.Ok? && SubnetIDsOf(r.value) == discovered.value)
    ensures
      var members := t.ingGroup.members;
      var r := SubnetMappingsOf(t, scheme);
      (exists i :: 0 <= i < |members| && members[i].subnets.Some?) ==>
        && SubnetMappingsOf(t.(env := t.env.(discoverSubnets := otherDiscovery)), scheme) == r
        && (r.Ok? ==>
              exists i, first ::
                && FirstSpecified(SubnetAnnotations(members), i, first)
                && |r.value| == |first|
                && Resolution(Subnets, first, "subnet-", t.env.describeSubnets, t.vpcID) == Ok(SubnetIDsOf(r.value)))
    ensures
      var members := t.ingGroup.members;
      var r := SubnetMappingsOf(t, scheme);
      forall i, first :: FirstSpecified(SubnetAnnotations(members), i, first) ==>
        var resolved := Resolution(Subnets, first, "subnet-", t.env.describeSubnets, t.vpcID);
        && ((exists j :: 0 <= j < |members| && members[j].subnets.Some? &&
                         multiset(members[j].subnets.value) != multiset(first)) ==>
              r.Err? && r.error.ConflictingList? && r.error.kind == Subnets && r.error.chosen == first &&
              multiset(r.error.other) != multiset(first))
        && ((forall j :: 0 <= j < |members| && members[j].subnets.Some? ==>
                         multiset(members[j].subnets.value) == multiset(first)) ==>
              && (resolved.Ok? ==> r == Ok(MappingsOf(resolved.value)))
              && (resolved.Err? ==> r == Err(resolved.error)))
  {
    var members := t.ingGroup.members;
    var raws := SubnetAnnotations(members);
    assert forall i :: 0 <= i < |members| ==> raws[i] == members[i].subnets;
    ListSelectionPolicy(IgnoreOrder, raws);
    var r := SubnetMappingsOf(t, scheme);
    if r.Ok? {
      assert SubnetIDsOf(r.value) == SubnetIDsOf(MappingsOf(SubnetIDsOf(r.value)));
    }
    match SelectExplicitList(IgnoreOrder, raws) {
      case Unset =>
      case ListConflict(_, _) =>
      case Chosen(first) =>
        var i :| FirstSpecified(raws, i, first);
        var res := Resolution(Subnets, first, "subnet-", t.env.describeSubnets, t.vpcID);
        ResolutionCompleteness(Subnets, first, "subnet-", t.env.describeSubnets, t.vpcID);
        if res.Ok? {
          assert SubnetIDsOf(MappingsOf(res.value)) == res.value;
        }
    }
    forall i, first | FirstSpecified(SubnetAnnotations(members), i, first) {
      SubnetsFromFirstList(t, scheme, i, first);
    }
  }

  /** The explicit subnet path once the first annotating member is known: any list that is not a
      permutation of it is a conflict naming it; otherwise its resolution decides. */
  lemma SubnetsFromFirstList(t: ModelBuildTask, scheme: LoadBalancerScheme, i: int, first: seq<string>)
    requires FirstSpecified(SubnetAnnotations(t.ingGroup.members), i, first)
    ensures
      var members := t.ingGroup.members;
      var r := SubnetMappingsOf(t, scheme);
      var resolved := Resolution(Subnets, first, "subnet-", t.env.describeSubnets, t.vpcID);
      && ((exists j :: 0 <= j < |members| && members[j].subnets.Some? &&
                       multiset(members[j].subnets.value) != multiset(first)) ==>
            r.Err? && r.error.ConflictingList? && r.error.kind == Subnets && r.error.chosen == first &&
            multiset(r.error.other) != multiset(first))
      && ((forall j :: 0 <= j < |members| && members[j].subnets.Some? ==>
                       multiset(members[j].subnets.value) == multiset(first)) ==>
            && (resolved.Ok? ==> r == Ok(MappingsOf(resolved.value)))
            && (resolved.Err? ==> r == Err(resolved.error)))
  {
    var members := t.ingGroup.members;
    var raws := SubnetAnnotations(members);
    assert forall j :: 0 <= j < |members| ==> raws[j] == members[j].subnets;
    FirstListDecides(IgnoreOrder, raws, i, first);
  }

  // ---------------------------------------------------------------- security groups

  function LiteralTokens(ids: seq<string>): seq<StringToken>
  {
    seq(|ids|, i requires 0 <= i < |ids| => Literal(ids[i]))
  }

  /** Explicit security-group lists (exact agreement, order included, only the first resolved),
      or, when no member gives one, the single managed security group. */
  function SecurityGroupsOf(t: ModelBuildTask, ipAddressType: IPAddressType): Result<seq<StringToken>>
  {
    match SelectExplicitList(ExactOrder, SecurityGroupAnnotations(t.ingGroup.members))
    case Unset =>
      (match t.env.managedSecurityGroup(ipAddressType)
       case Err(e) => Err(e)
       case Ok(groupID) => Ok([groupID]))
    case ListConflict(chosen, other) => Err(ConflictingList(SecurityGroups, chosen, other))
    case Chosen(sgNameOrIDs) =>
      match Resolution(SecurityGroups, sgNameOrIDs, "sg-", t.env.describeSecurityGroups, t.vpcID)
      case Err(e) => Err(e)
      case Ok(chosenSGIDs) => Ok(LiteralTokens(chosenSGIDs))
  }

  method BuildLoadBalancerSecurityGroups(t: ModelBuildTask, ipAddressType: IPAddressType) returns (r: Result<seq<StringToken>>)
    ensures r == SecurityGroupsOf(t, ipAddressType)
  {
    var selection := MergeExplicitLists(ExactOrder, SecurityGroupAnnotations(t.ingGroup.members));
    match selection {
      case Unset =>
        var sg := t.env.managedSecurityGroup(ipAddressType);
        if sg.Err? {
          return Err(sg.error);
        }
        return Ok([sg.value]);
      case ListConflict(chosen, other) =>
        return Err(ConflictingList(SecurityGroups, chosen, other));
      case Chosen(sgNameOrIDs) =>
        var resolved := ResolveSecurityGroupIDsViaNameOrIDSlice(t, sgNameOrIDs);
        if resolved.Err? {
          return Err(resolved.error);
        }
        var chosenSGIDs := resolved.value;
        var sgIDTokens: seq<StringToken> := [];
        var i := 0;
        while i < |chosenSGIDs|
          invariant 0 <= i <= |chosenSGIDs|
          invariant sgIDTokens == LiteralTokens(chosenSGIDs[..i])
        {
          sgIDTokens := sgIDTokens + [Literal(chosenSGIDs[i])];
          i := i + 1;
        }
        assert chosenSGIDs[..|chosenSGIDs|] == chosenSGIDs;
        return Ok(sgIDTokens);
    }
  }

  /** Security-group selection: with no explicit list the result is exactly the managed group's
      token; otherwise it never depends on the managed group and is one literal token per
      resolved ID of the first member's list, in order. */
  lemma SecurityGroupSelectionPolicy(t: ModelBuildTask, ipAddressType: IPAddressType,
                                     otherManaged: IPAddressType -> Result<StringToken>)
    ensures
      var members := t.ingGroup.members;
      var r := SecurityGroupsOf(t, ipAddressType);
      var managed := t.env.managedSecurityGroup(ipAddressType);
      (forall i :: 0 <= i < |members| ==> members[i].securityGroups.None?) ==>
        && (managed.Err? ==> r == Err(managed.error))
        && (managed.Ok? ==> r == Ok([managed.value]))
    ensures
      var members := t.ingGroup.members;
      var r := SecurityGroupsOf(t, ipAddressType);
      (exists i :: 0 <= i < |members| && members[i].securityGroups.Some?) ==>
        && SecurityGroupsOf(t.(env := t.env.(managedSecurityGroup := otherManaged)), ipAddressType) == r
        && (r.Ok? ==>
              exists i, first, ids ::
                && FirstSpecified(SecurityGroupAnnotations(members), i, first)
                && Resolution(SecurityGroups, first, "sg-", t.env.describeSecurityGroups, t.vpcID) == Ok(ids)
                && |r.value| == |ids| == |first|
                && forall k :: 0 <= k < |ids| ==> r.value[k] == Literal(ids[k]))
    ensures
      var members := t.ingGroup.members;
      var r := SecurityGroupsOf(t, ipAddressType);
      forall i, first :: FirstSpecified(SecurityGroupAnnotations(members), i, first) ==>
        var resolved := Resolution(SecurityGroups, first, "sg-", t.env.describeSecurityGroups, t.vpcID);
        && ((exists j :: 0 <= j < |members| && members[j].securityGroups.Some? &&
                         members[j].securityGroups.value != first) ==>
              r.Err? && r.error.ConflictingList? && r.error.kind == SecurityGroups && r.error.chosen == first &&
              r.error.other != first)
        && ((forall j :: 0 <= j < |members| && members[j].securityGroups.Some? ==>
                         members[j].securityGroups.value == first) ==>
              && (resolved.Ok? ==> r == Ok(LiteralTokens(resolved.value)))
              && (resolved.Err? ==> r == Err(resolved.error)))
  {
    var members := t.ingGroup.members;
    var raws := SecurityGroupAnnotations(members);
    assert forall i :: 0 <= i < |members| ==> raws[i] == members[i].securityGroups;
    ListSelectionPolicy(ExactOrder, raws);
    match SelectExplicitList(ExactOrder, raws) {
      case Unset =>
      case ListConflict(_, _) =>
      case Chosen(first) =>
        var i :| FirstSpecified(raws, i, first);
        ResolutionCompleteness(SecurityGroups, first, "sg-", t.env.describeSecurityGroups, t.vpcID);
    }
    forall i, first | FirstSpecified(SecurityGroupAnnotations(members), i, first) {
      SecurityGroupsFromFirstList(t, ipAddressType, i, first);
    }
  }

  /** The explicit security-group path once the first annotating member is known: any list that
      differs from it, order included, is a conflict naming it; otherwise its resolution decides. */
  lemma SecurityGroupsFromFirstList(t: ModelBuildTask, ipAddressType: IPAddressType, i: int, first: seq<string>)
    requires FirstSpecified(SecurityGroupAnnotations(t.ingGroup.members), i, first)
    ensures
      var members := t.ingGroup.members;
      var r := SecurityGroupsOf(t, ipAddressType);
      var resolved := Resolution(SecurityGroups, first, "sg-", t.env.describeSecurityGroups, t.vpcID);
      && ((exists j :: 0 <= j < |members| && members[j].securityGroups.Some? &&
                       members[j].securityGroups.value != first) ==>
            r.Err? && r.error.ConflictingList? && r.error.kind == SecurityGroups && r.error.chosen == first &&
            r.error.other != first)
      && ((forall j :: 0 <= j < |members| && members[j].securityGroups.Some? ==>
                       members[j].securityGroups.value == first) ==>
            && (resolved.Ok? ==> r == Ok(LiteralTokens(resolved.value)))
            && (resolved.Err? ==> r == Err(resolved.error)))
  {
    var members := t.ingGroup.members;
    var raws := SecurityGroupAnnotations(members);
    assert forall j :: 0 <= j < |members| ==> raws[j] == members[j].securityGroups;
    FirstListDecides(ExactOrder, raws, i, first);
  }

  // ---------------------------------------------------------------- attributes and tags

  /** A list of attributes carries exactly the entries of a map: one per key, keys distinct. */
  predicate AttributesExactly(attributes: seq<LoadBalancerAttribute>, merged: map<string, string>)
  {
    && |attributes| == |merged|
    && (forall i :: 0 <= i < |attributes| ==> attributes[i].key in merged && merged[attributes[i].key] == attributes[i].value)
    && (forall i, j :: 0 <= i < j < |attributes| ==> attributes[i].key != attributes[j].key)
    && (forall k :: k in merged ==> exists i :: 0 <= i < |attributes| && attributes[i].key == k)
  }

  /** The conversion loop over the merged map, in whatever order the map yields its keys. */
  method AttributesFromMap(merged: map<string, string>) returns (attributes: seq<LoadBalancerAttribute>)
    ensures AttributesExactly(attributes, merged)
  {
    attributes := [];
    var pending := merged.Keys;
    while pending != {}
      invariant pending <= merged.Keys
      invariant |attributes| + |pending| == |merged.Keys|
      invariant forall i :: 0 <= i < |attributes| ==>
        attributes[i].key in merged.Keys - pending && merged[attributes[i].key] == attributes[i].value
      invariant forall i, j :: 0 <= i < j < |attributes| ==> attributes[i].key != attributes[j].key
      invariant forall k :: k in merged.Keys - pending ==> exists i :: 0 <= i < |attributes| && attributes[i].key == k
      decreases pending
    {
      var k :| k in pending;
      ghost var before, beforePending := attributes, pending;
      attributes := attributes + [LoadBalancerAttribute(k, merged[k])];
      pending := pending - {k};
      forall k' | k' in merged.Keys - pending
        ensures exists i :: 0 <= i < |attributes| && attributes[i].key == k'
      {
        if k' == k {
          assert attributes[|before|].key == k';
        } else {
          assert k' in merged.Keys - beforePending;
          var i :| 0 <= i < |before| && before[i].key == k';
          assert attributes[i].key == k';
        }
      }
    }
    assert merged.Keys - pending == merged.Keys;
  }

  method BuildLoadBalancerAttributes(t: ModelBuildTask) returns (r: Result<seq<LoadBalancerAttribute>>)
    ensures r.Ok? <==> Mergeable(AttributeAnnotations(t.ingGroup.members))
    ensures r.Ok? ==> AttributesExactly(r.value, UnionAll(AttributeAnnotations(t.ingGroup.members)))
    ensures r.Err? ==> MapMergeFailure(LoadBalancerAttributes, AttributeAnnotations(t.ingGroup.members), r.error)
  {
    var mergedAttributes := MergeMapAnnotations(LoadBalancerAttributes, AttributeAnnotations(t.ingGroup.members));
    if mergedAttributes.Err? {
      return Err(mergedAttributes.error);
    }
    var attributes := AttributesFromMap(mergedAttributes.value);
    return Ok(attributes);
  }

  method BuildLoadBalancerTags(t: ModelBuildTask) returns (r: Result<map<string, string>>)
    ensures r.Ok? <==> Mergeable(TagAnnotations(t.ingGroup.members))
    ensures r.Ok? ==> r.value == UnionAll(TagAnnotations(t.ingGroup.members))
    ensures r.Err? ==> MapMergeFailure(Tags, TagAnnotations(t.ingGroup.members), r.error)
  {
    r := MergeMapAnnotations(Tags, TagAnnotations(t.ingGroup.members));
  }

  /** Map-valued fields: the members' maps merge exactly when no two members give a key different
      values, no annotation is malformed, and the result holds every member's entries. */
  lemma MapFieldMergePolicy(anns: seq<MapAnnotation>)
    ensures Mergeable(anns) <==>
      (forall i :: 0 <= i < |anns| ==> !anns[i].MapMalformed?) &&
      (forall i, j, k :: 0 <= i < |anns| && 0 <= j < |anns| && k in MapOf(anns[i]) && k in MapOf(anns[j]) ==>
         MapOf(anns[i])[k] == MapOf(anns[j])[k])
    ensures Mergeable(anns) ==>
      (forall k :: k in UnionAll(anns) <==> exists i :: 0 <= i < |anns| && k in MapOf(anns[i])) &&
      (forall i, k :: 0 <= i < |anns| && k in MapOf(anns[i]) ==> UnionAll(anns)[k] == MapOf(anns[i])[k])
  {
    if Mergeable(anns) {
      UnionAllIsUnion(anns);
      forall i, j, k | 0 <= i < |anns| && 0 <= j < |anns| && k in MapOf(anns[i]) && k in MapOf(anns[j])
        ensures MapOf(anns[i])[k] == MapOf(anns[j])[k]
      {
        if j < i { assert Compatible(MapOf(anns[j]), MapOf(anns[i])); }
        if i < j { assert Compatible(MapOf(anns[i]), MapOf(anns[j])); }
      }
    }
  }
}
