/** Option, Result and the error taxonomy of the load-balancer spec builder. */
module Outcomes {

  datatype Option<+T> = None | Some(value: T)

  /** Which reference-bearing field an error is about. */
  datatype ResourceKind = Subnets | SecurityGroups

  /** Which key/value annotation a map-merge error is about. */
  datatype MapField = LoadBalancerAttributes | Tags

  /** Every way a build can fail. Message text is not modelled, only the data it reports. */
  datatype Error =
    | ConflictingScheme(schemes: set<string>)
    | UnknownScheme(rawScheme: string)
    | ConflictingIPAddressType(ipAddressTypes: set<string>)
    | UnknownIPAddressType(rawIPAddressType: string)
      // fewer than two subnets came back from auto-discovery
    | InsufficientSubnets(discovered: seq<string>)
      // two members annotate different subnet / security-group lists
    | ConflictingList(kind: ResourceKind, chosen: seq<string>, other: seq<string>)
      // two members give one attribute key / tag key two different values
    | ConflictingMapEntry(field: MapField, key: string, existing: string, value: string)
      // the resolved IDs are not as many as the requested names and IDs
    | Unresolved(kind: ResourceKind, nameOrIDs: seq<string>, found: seq<string>)
      // the annotation parser rejected a map annotation
    | MalformedAnnotation(message: string)
      // an external collaborator (EC2, discovery, managed security group) failed
    | Upstream(message: string)

  datatype Result<+T> = Ok(value: T) | Err(error: Error)
}
