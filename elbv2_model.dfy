/** The output vocabulary of the builder: the ELBv2 load-balancer spec and its enumerations. */
module Elbv2Model {
  import opened Outcomes

  datatype LoadBalancerScheme = InternetFacing | Internal

  datatype IPAddressType = IPv4 | DualStack

  datatype LoadBalancerType = Application | Network

  function SchemeString(s: LoadBalancerScheme): string
  {
    match s
    case InternetFacing => "internet-facing"
    case Internal => "internal"
  }

  function IPAddressTypeString(a: IPAddressType): string
  {
    match a
    case IPv4 => "ipv4"
    case DualStack => "dualstack"
  }

  /** The enum switch over a raw scheme annotation: only the two constant spellings are known. */
  function ParseScheme(raw: string): (r: Option<LoadBalancerScheme>)
    ensures r.Some? ==> SchemeString(r.value) == raw
    ensures r.None? ==> forall s: LoadBalancerScheme :: SchemeString(s) != raw
  {
    if raw == "internet-facing" then Some(InternetFacing)
    else if raw == "internal" then Some(Internal)
    else None
  }

  /** The enum switch over a raw IP address type annotation. */
  function ParseIPAddressType(raw: string): (r: Option<IPAddressType>)
    ensures r.Some? ==> IPAddressTypeString(r.value) == raw
    ensures r.None? ==> forall a: IPAddressType :: IPAddressTypeString(a) != raw
  {
    if raw == "ipv4" then Some(IPv4)
    else if raw == "dualstack" then Some(DualStack)
    else None
  }

  /** One subnet the load balancer attaches to; the optional allocation and address fields stay unset here. */
  datatype SubnetMapping = SubnetMapping(subnetID: string)

  datatype LoadBalancerAttribute = LoadBalancerAttribute(key: string, value: string)

  /** A string in the spec: either a literal, or a reference to a field of another resource in the stack. */
  datatype StringToken = Literal(literal: string) | ResourceFieldReference(resourceID: string, field: string)

  datatype LoadBalancerSpec = LoadBalancerSpec(
    name: string,
    lbType: LoadBalancerType,
    scheme: LoadBalancerScheme,
    ipAddressType: IPAddressType,
    subnetMappings: seq<SubnetMapping>,
    securityGroups: seq<StringToken>,
    attributes: seq<LoadBalancerAttribute>,
    tags: map<string, string>)
}
