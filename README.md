# Application Load Balancer spec builder — a Dafny model

This project models how the AWS Load Balancer Controller turns the annotations of every ingress
in an ingress group into one `LoadBalancerSpec` for an Application Load Balancer
(`pkg/ingress/model_build_load_balancer.go`). The model covers all of that file's merge, selection, resolution and naming logic:

- **single-value merges** (scheme, IP address type): the distinct raw values of the members that
  carry the annotation form a set; an empty set gives the task's default, two or more values a
  conflict, and a single value must be one of the two enum spellings;
- **list selection** (subnets, security groups): the lists of the members that carry the
  annotation are collected in member order. Every later list must agree with the first. Subnet
  lists agree when they are permutations of each other. Security-group lists must be equal
  element for element. When no member gives a list, the fallback is used: subnet auto-discovery,
  which must yield at least two subnets, or the single managed security group;
- **name-or-ID resolution**: tokens starting with `subnet-` / `sg-` are IDs, all others are Name
  tags. There is at most one batched describe call per non-empty bucket. The result must have
  exactly as many IDs as tokens were requested;
- **map merges** (load-balancer attributes, tags): the members' maps are unioned key by key, and a
  key given two different values is a conflict;
- **name generation**: `k8s-` + sanitised group identity cut to 17 characters (or namespace and
  name cut to 8 each) + `-` + the first 10 hex characters of a SHA-256 digest;
- **assembly** of the spec, aborting on the first failing field.

Go's loops become Dafny methods with loop invariants. Each is proved equal to a specification
function over its inputs; where Go's map iteration order leaves the result open, it is proved
within a predicate instead. The properties the code promises are lemmas about those functions.
The task struct is only read by these builders, so it is a datatype (`ModelBuildTask`). The
collaborators the builder calls but does not implement are function-valued fields of
`Collaborators`: the EC2 describe calls, subnet discovery, the managed security group and SHA-256.

Modules: `Outcomes` (errors), `Elbv2Model` (output types and enum switches), `IngressGroup`
(inputs), `SingleValueMerge`, `ListMerge`, `MapMerge`, `NameOrIDResolver`, `LoadBalancerNaming`,
`LoadBalancerBuilder` (the per-field builders) and `LoadBalancerSpecBuilder` (assembly).

Points where the code's behaviour is easy to misread:

- Subnet lists are compared with a sort-based, order-insensitive comparison. This is multiset
  equality, so duplicates matter: `[a, a, b]` and `[a, b]` conflict. It is not set equality.
- The discovery fallback checks only that at least two subnet IDs came back. It does not check
  that they lie in distinct availability zones; that is left to the discovery collaborator.
- Explicitly listed subnets have no minimum count: an explicit empty list resolves to no subnets.
- Resolution completeness is a count check only; see `ResolutionCompleteness` below.

## Model

| member | source | states |
|---|---|---|
| `Elbv2Model.ParseScheme` | pkg/ingress/model_build_load_balancer.go:108-115 | a raw scheme is accepted exactly when it is the spelling of one of the two schemes, and then maps to that scheme |
| `Elbv2Model.ParseIPAddressType` | pkg/ingress/model_build_load_balancer.go:135-142 | a raw IP address type is accepted exactly when it is `ipv4` or `dualstack`, and then maps to that type |
| `SingleValueMerge.CollectExplicitValues` | pkg/ingress/model_build_load_balancer.go:93-100 | the set-insertion loop yields exactly the raw values some member carries (absent annotations are skipped) |
| `SingleValueMerge.SingleValueMergePolicy` | pkg/ingress/model_build_load_balancer.go:101-107 | no value ⇔ no member annotates; one agreed value ⇔ some member gives it and all that annotate give it; conflict ⇔ two members give different values, reporting every distinct value |
| `LoadBalancerBuilder.BuildLoadBalancerScheme` | pkg/ingress/model_build_load_balancer.go:92-116 | the loop-and-switch method returns exactly the specified scheme outcome `SchemeOf` |
| `LoadBalancerBuilder.SchemeMergePolicy` | pkg/ingress/model_build_load_balancer.go:92-116 | default scheme when no member annotates; "conflicting scheme" with all distinct values iff two members differ; an agreed raw value gives its scheme or "unknown scheme" |
| `LoadBalancerBuilder.BuildLoadBalancerIPAddressType` | pkg/ingress/model_build_load_balancer.go:119-143 | the loop-and-switch method returns exactly the specified outcome `IPAddressTypeOf` |
| `LoadBalancerBuilder.IPAddressTypeMergePolicy` | pkg/ingress/model_build_load_balancer.go:119-143 | default type when no member annotates; "conflicting IPAddressType" iff two members differ; an agreed raw value gives `ipv4`/`dualstack` or "unknown IPAddressType" |
| `ListMerge.CollectExplicitLists` | pkg/ingress/model_build_load_balancer.go:146-153 | the append loop yields the lists of the annotating members in member order |
| `ListMerge.ExplicitListsMembers` | pkg/ingress/model_build_load_balancer.go:146-154 | the collected lists are exactly the members' lists; none are collected iff no member annotates; the first collected is the first annotating member's |
| `ListMerge.MergeExplicitLists` | pkg/ingress/model_build_load_balancer.go:169-175 | the comparison loop stops at the first later list that disagrees with the first, as `SelectExplicitList` specifies |
| `ListMerge.FirstDisagreementSpec` | pkg/ingress/model_build_load_balancer.go:170-174 | no disagreement is found iff every later list agrees with the first; a reported list is one of them and disagrees |
| `ListMerge.ListSelectionPolicy` | pkg/ingress/model_build_load_balancer.go:146-175 | unset iff no member gives a list; chosen iff some member does and every list agrees with the first member's, which is the one chosen; a conflict names the first list and a disagreeing member's list |
| `ListMerge.FirstListDecides` | pkg/ingress/model_build_load_balancer.go:169-175 | given the first annotating member's list: it is chosen when every list agrees with it, and a conflict reports it against a disagreeing list otherwise |
| `ListMerge.OrderMattersOnlyForExactOrder` | pkg/ingress/model_build_load_balancer.go:169-205 | the same two lists in different orders agree as subnet lists and conflict as security-group lists |
| `NameOrIDResolver.ResolveIDsViaNameOrIDs` | pkg/ingress/model_build_load_balancer.go:260-307 | partition loop, at most two describe calls and the count check together return exactly `Resolution` |
| `NameOrIDResolver.ResolveSubnetIDsViaNameOrIDSlice` | pkg/ingress/model_build_load_balancer.go:260-308 | subnet resolution is the resolution with prefix `subnet-` through the subnet describe call, names scoped to the task's VPC |
| `NameOrIDResolver.ResolveSecurityGroupIDsViaNameOrIDSlice` | pkg/ingress/model_build_load_balancer.go:310-358 | security-group resolution is the resolution with prefix `sg-` through the security-group describe call, names scoped to the task's VPC |
| `NameOrIDResolver.PartitionIsExact` | pkg/ingress/model_build_load_balancer.go:263-269 | every token lands in exactly one bucket: prefixed tokens are IDs, the others names, and the buckets together are a permutation of the input |
| `NameOrIDResolver.PartitionKeepsOrder` | pkg/ingress/model_build_load_balancer.go:313-319 | each bucket keeps the input's relative order (partitioning distributes over concatenation) |
| `NameOrIDResolver.BucketsNonEmpty` | pkg/ingress/model_build_load_balancer.go:263-269 | the ID bucket is non-empty iff some token has the prefix; the name bucket iff some token lacks it |
| `NameOrIDResolver.LookupRequestsPolicy` | pkg/ingress/model_build_load_balancer.go:270-299 | the by-ID call is issued iff some token is an ID, the by-name call (with the VPC filter) iff some token is a name; no call carries an empty list |
| `NameOrIDResolver.FetchAllSpans` | pkg/ingress/model_build_load_balancer.go:270-299 | the issued calls yield the ID results followed by the name results, and an upstream failure of either call is passed through |
| `NameOrIDResolver.ResolutionCompleteness` | pkg/ingress/model_build_load_balancer.go:300-307 | success iff both calls succeed and return exactly one ID per token, in which case the result is ID results then name results; otherwise an error with the requested tokens and everything found, never a partial result |
| `NameOrIDResolver.SplitIDThenName` | pkg/ingress/model_build_load_balancer.go:263-269 | a prefixed token followed by an unprefixed one lands one in each bucket |
| `NameOrIDResolver.SecurityGroupResolutionExample` | pkg/ingress/model_build_load_balancer.go:310-357 | `[sg-123, my-sg]` resolves to `[sg-123, sg-456]` when sg-123 is found by ID and my-sg names sg-456 |
| `NameOrIDResolver.SubnetResolutionExample` | pkg/ingress/model_build_load_balancer.go:260-307 | requesting `[subnet-a, b]` when only subnet-a is found fails, reporting both tokens and the one ID found |
| `MapMerge.MergeEntries` | pkg/ingress/model_build_load_balancer.go:225-230 | adding one member's map succeeds iff it agrees with the merged map on shared keys and then yields their union; a conflict names a shared key with both values |
| `MapMerge.MergeMapAnnotations` | pkg/ingress/model_build_load_balancer.go:219-231 | the merge succeeds iff no annotation is malformed and no two members give a key different values, and then yields the union; an error comes from the first member where the merge stops |
| `MapMerge.UnionAllWitness` | pkg/ingress/model_build_load_balancer.go:225-230 | every merged key comes from some member, with that member's value |
| `MapMerge.CompatibleWithUnion` | pkg/ingress/model_build_load_balancer.go:226-227 | a member's map agrees with the merged map iff it agrees with each earlier member's map |
| `MapMerge.UnionAllIsUnion` | pkg/ingress/model_build_load_balancer.go:219-231 | a successful merge holds exactly the keys of the members' maps, each with every member's value for it (independent of member order) |
| `MapMerge.MergeableStep` | pkg/ingress/model_build_load_balancer.go:225-230 | a member that agrees with the merge so far keeps the merge conflict-free |
| `MapMerge.ConflictBlocksMerge` | pkg/ingress/model_build_load_balancer.go:226-227 | a key that disagrees with the merged map is a genuine conflict between two members, and no merge of the group can succeed |
| `MapMerge.MalformedBlocksMerge` | pkg/ingress/model_build_load_balancer.go:222-224 | a malformed annotation anywhere makes the merge fail |
| `MapMerge.TagMergeExamples` | pkg/ingress/model_build_load_balancer.go:242-257 | `{a:1}` and `{b:2}` merge to `{a:1, b:2}`; `{a:1}` and `{a:2}` conflict on `a` with values 1 and 2 |
| `LoadBalancerBuilder.AttributesFromMap` | pkg/ingress/model_build_load_balancer.go:232-239 | the attribute list holds exactly the merged entries, one per key, keys distinct, in any order |
| `LoadBalancerBuilder.BuildLoadBalancerAttributes` | pkg/ingress/model_build_load_balancer.go:218-240 | succeeds iff the attribute maps merge; the list carries exactly the merged entries; errors are those of the first failing member |
| `LoadBalancerBuilder.BuildLoadBalancerTags` | pkg/ingress/model_build_load_balancer.go:242-257 | succeeds iff the tag maps merge, and then returns their union; errors are those of the first failing member |
| `LoadBalancerBuilder.MapFieldMergePolicy` | pkg/ingress/model_build_load_balancer.go:218-257 | maps merge iff none is malformed and any two members agree on every shared key; the result holds every member's entries and nothing else |
| `LoadBalancerBuilder.BuildLoadBalancerSubnetMappingsWithSubnetIDs` | pkg/ingress/model_build_load_balancer.go:360-368 | one mapping per ID, the i-th mapping carrying the i-th ID |
| `LoadBalancerBuilder.BuildLoadBalancerSubnetMappings` | pkg/ingress/model_build_load_balancer.go:145-181 | the method returns exactly the specified subnet outcome `SubnetMappingsOf` |
| `LoadBalancerBuilder.SubnetSelectionPolicy` | pkg/ingress/model_build_load_balancer.go:154-180 | with no explicit list, discovery decides: its error passes through, fewer than two subnets is an error, two or more give one mapping per discovered ID; with one, the result does not depend on discovery; a list that is not a permutation of the first member's is a conflict naming the first list; when all agree, the first list's resolution decides (its IDs as mappings, or its error) |
| `LoadBalancerBuilder.SubnetsFromFirstList` | pkg/ingress/model_build_load_balancer.go:169-180 | for the first annotating member's list: a non-permutation elsewhere yields a subnet conflict naming it; otherwise a successful resolution yields one mapping per resolved ID and a failed one its error |
| `LoadBalancerBuilder.BuildLoadBalancerSecurityGroups` | pkg/ingress/model_build_load_balancer.go:183-216 | the method returns exactly the specified security-group outcome `SecurityGroupsOf` |
| `LoadBalancerBuilder.SecurityGroupSelectionPolicy` | pkg/ingress/model_build_load_balancer.go:192-215 | with no explicit list the result is exactly the managed group's token (or its error); with one, it does not depend on the managed group; a list not equal, order included, to the first member's is a conflict naming the first list; when all are equal, the first list's resolution decides (one literal token per ID, in order, or its error) |
| `LoadBalancerBuilder.SecurityGroupsFromFirstList` | pkg/ingress/model_build_load_balancer.go:200-215 | for the first annotating member's list: any unequal list yields a security-group conflict naming it; otherwise a successful resolution yields one literal token per ID and a failed one its error |
| `LoadBalancerNaming.Truncate` | pkg/ingress/model_build_load_balancer.go:84 | a precision-limited string is a prefix of at most n characters, exactly n when the input is that long |
| `LoadBalancerNaming.Sanitize` | pkg/ingress/model_build_load_balancer.go:83-88 | deleting the characters outside `[[:alnum:]]` leaves only ASCII alphanumerics and never lengthens the string |
| `LoadBalancerNaming.SanitizeSpec` | pkg/ingress/model_build_load_balancer.go:83 | sanitising leaves a string unchanged iff it is already all alphanumeric |
| `LoadBalancerNaming.SanitizeConcat` | pkg/ingress/model_build_load_balancer.go:87-88 | sanitising works character by character: it distributes over concatenation |
| `LoadBalancerNaming.SanitizeIdempotent` | pkg/ingress/model_build_load_balancer.go:83 | sanitising twice changes nothing |
| `LoadBalancerNaming.HexEncode` | pkg/ingress/model_build_load_balancer.go:80 | hex encoding gives two lower-case hex characters per byte |
| `LoadBalancerNaming.HexEncodePrefix` | pkg/ingress/model_build_load_balancer.go:80-84 | the first 2k hex characters encode the first k bytes |
| `LoadBalancerNaming.HexEncodeInjective` | pkg/ingress/model_build_load_balancer.go:80 | different byte strings give different hex strings |
| `LoadBalancerNaming.HashSuffix` | pkg/ingress/model_build_load_balancer.go:80-84 | the 10-character hash cut is exactly the hex of the first five digest bytes |
| `LoadBalancerNaming.BuildLoadBalancerName` | pkg/ingress/model_build_load_balancer.go:75-90 | every generated name is at most 32 characters of alphanumerics and `-` and starts with `k8s-` |
| `LoadBalancerNaming.LoadBalancerNameShape` | pkg/ingress/model_build_load_balancer.go:75-90 | every name is at most 32 characters of alphanumerics and `-`, starts with `k8s-` and ends with `-` and the 10-character hash of cluster name, group ID and scheme |
| `LoadBalancerNaming.ExplicitGroupName` | pkg/ingress/model_build_load_balancer.go:82-85 | explicit groups: `k8s-` + a prefix of the sanitised group name of length min(17, its length) + `-` + hash |
| `LoadBalancerNaming.ImplicitGroupName` | pkg/ingress/model_build_load_balancer.go:87-89 | implicit groups: `k8s-` + sanitised namespace cut at 8 + `-` + sanitised name cut at 8 + `-` + hash |
| `LoadBalancerNaming.DistinctDigestsDistinctNames` | pkg/ingress/model_build_load_balancer.go:76-84 | two inputs whose digests differ in the first five bytes get different names |
| `LoadBalancerSpecBuilder.BuildLoadBalancerSpec` | pkg/ingress/model_build_load_balancer.go:35-71 | succeeds iff every field builder does; then every field of the spec is its builder's result and the type is application; otherwise the error is that of the first failing builder in build order |
| `LoadBalancerSpecBuilder.BuiltSpecInvariants` | pkg/ingress/model_build_load_balancer.go:35-71 | a built spec has a valid name of at most 32 characters, at least two subnets when they were discovered, exactly one security group when it is the managed one, and distinct attribute keys |

## Left out

- Registering the spec in the model stack and remembering it on the task (`buildLoadBalancer`) is plumbing and is not modelled; the model ends at `BuildLoadBalancerSpec`.
- Annotation parsing is not modelled. Each member's annotations are given directly: absent or present string and list values, and map values that are absent, parsed, or malformed with the parser's message.
- The EC2 describe calls, subnet discovery and managed security-group construction are collaborators. They are function-valued inputs that return resource IDs (or a token, for the managed group), or an upstream error that is passed through. Their filter semantics, and the subnet and security-group objects they return, are not modelled.
- The managed security group's dependence on the listen-port configuration is captured by the collaborator. Only the IP address type is passed explicitly.
- SHA-256 is a collaborator returning 32 bytes. Its input is the concatenated string of cluster name, group ID string and scheme; the byte encoding of that string is part of the collaborator. Collision resistance cannot be proved; only the hash cut and hex encoding are modelled.
- The group ID's explicit test and string form come from the group type, which is not part of this model. An empty namespace means an explicit group. The string form is the name for explicit groups and `namespace/name` otherwise.
- Error messages are not modelled, only the data each error reports. `context.Context` is not modelled.
- `cmp.Equal` distinguishes a nil list from an empty one; the model does not.
- `ResolutionCompleteness`: the code checks only the number of IDs found, and the model states exactly that. A Name tag that matches two resources can make up for a token that matched none; the model does not see which token a found ID answers, so it cannot state a per-token guarantee.
- `MergeMapAnnotations`: Go visits a member's map in unspecified order, so when a member conflicts on several keys, which key is reported is unspecified. The model chooses any of them. The contract says the reported key is a genuine conflict of the first failing member. It does not say which key that is.
- Subnet mappings carry only the subnet ID; the optional allocation and address fields stay unset in this code and are not modelled.
