/** The builder's inputs: the ingress group, the annotations each member carries,
    the process-wide defaults and the external collaborators. */
module IngressGroup {
  import opened Outcomes
  import opened Elbv2Model

  /** A key/value annotation of one member as the annotation parser leaves it. */
  datatype MapAnnotation = MapAbsent | MapValue(entries: map<string, string>) | MapMalformed(message: string)

  /** The annotations of one ingress that the load-balancer builder reads; absent ones are None. */
  datatype Ingress = Ingress(
    scheme: Option<string>,
    ipAddressType: Option<string>,
    subnets: Option<seq<string>>,
    securityGroups: Option<seq<string>>,
    loadBalancerAttributes: MapAnnotation,
    tags: MapAnnotation)

  /** Identity of an ingress group: an explicit group has an empty namespace;
      an implicit group is a single ingress, named by its namespace and name. */
  datatype GroupID = GroupID(namespace: string, name: string)
  {
    predicate IsExplicit()
    {
      namespace == ""
    }

    /** The canonical string form that feeds the name digest. */
    function String(): string
    {
      if IsExplicit() then name else namespace + "/" + name
    }
  }

  datatype Group = Group(id: GroupID, members: seq<Ingress>)

  /** One EC2 describe call: by resource IDs, or by Name tag restricted to one VPC. */
  datatype DescribeRequest = ByIDs(ids: seq<string>) | ByNameTags(names: seq<string>, vpcID: string)

  /** A byte, and a SHA-256 digest: always 32 bytes. */
  type Byte = b: int | 0 <= b < 256

  type Digest = d: seq<Byte> | |d| == 32 witness seq(32, _ => 0)

  /** The collaborators the builder calls but does not implement. Each answers with the IDs of
      the resources it found, or passes an upstream failure through. */
  datatype Collaborators = Collaborators(
    describeSubnets: DescribeRequest -> Result<seq<string>>,
    describeSecurityGroups: DescribeRequest -> Result<seq<string>>,
    discoverSubnets: LoadBalancerScheme -> Result<seq<string>>,
    managedSecurityGroup: IPAddressType -> Result<StringToken>,
    sha256: string -> Digest)

  /** The state of one model-build task that the load-balancer builder reads. */
  datatype ModelBuildTask = ModelBuildTask(
    clusterName: string,
    vpcID: string,
    defaultScheme: LoadBalancerScheme,
    defaultIPAddressType: IPAddressType,
    ingGroup: Group,
    env: Collaborators)

  /** Per-member projections of one annotation, in member order. */
  function SchemeAnnotations(members: seq<Ingress>): seq<Option<string>>
  {
    seq(|members|, i requires 0 <= i < |members| => members[i].scheme)
  }

  function IPAddressTypeAnnotations(members: seq<Ingress>): seq<Option<string>>
  {
    seq(|members|, i requires 0 <= i < |members| => members[i].ipAddressType)
  }

  function SubnetAnnotations(members: seq<Ingress>): seq<Option<seq<string>>>
  {
    seq(|members|, i requires 0 <= i < |members| => members[i].subnets)
  }

  function SecurityGroupAnnotations(members: seq<Ingress>): seq<Option<seq<string>>>
  {
    seq(|members|, i requires 0 <= i < |members| => members[i].securityGroups)
  }

  function AttributeAnnotations(members: seq<Ingress>): seq<MapAnnotation>
  {
    seq(|members|, i requires 0 <= i < |members| => members[i].loadBalancerAttributes)
  }

  function TagAnnotations(members: seq<Ingress>): seq<MapAnnotation>
  {
    seq(|members|, i requires 0 <= i < |members| => members[i].tags)
  }
}
