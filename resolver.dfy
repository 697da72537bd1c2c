/** Resolving a list of subnet or security-group tokens, each a resource ID or a Name tag,
    to resource IDs: the tokens are split by an ID prefix, each non-empty bucket is looked up
    in one batched describe call, and the result must have one entry per requested token. */
module NameOrIDResolver {
  import opened Outcomes
  import opened IngressGroup

  predicate HasPrefix(s: string, prefix: string)
  {
    |prefix| <= |s| && s[..|prefix|] == prefix
  }

  /** The tokens taken to be resource IDs, in input order. */
  function IDTokens(tokens: seq<string>, prefix: string): seq<string>
  {
    if tokens == [] then []
    else
      var front := IDTokens(tokens[..|tokens| - 1], prefix);
      if HasPrefix(tokens[|tokens| - 1], prefix) then front + [tokens[|tokens| - 1]] else front
  }

  /** The tokens taken to be Name tags, in input order. */
  function NameTokens(tokens: seq<string>, prefix: string): seq<string>
  {
    if tokens == [] then []
    else
      var front := NameTokens(tokens[..|tokens| - 1], prefix);
      if HasPrefix(tokens[|tokens| - 1], prefix) then front else front + [tokens[|tokens| - 1]]
  }

  /** The describe calls issued: by ID for the ID bucket, then by Name tag within the VPC for
      the name bucket, each only when its bucket is non-empty. */
  function LookupRequests(tokens: seq<string>, prefix: string, vpcID: string): seq<DescribeRequest>
  {
    var ids := IDTokens(tokens, prefix);
    var names := NameTokens(tokens, prefix);
    (if |ids| > 0 then [ByIDs(ids)] else []) + (if |names| > 0 then [ByNameTags(names, vpcID)] else [])
  }

  /** The responses to the requests concatenated in request order; the first failure aborts. */
  function FetchAll(describe: DescribeRequest -> Result<seq<string>>, requests: seq<DescribeRequest>): Result<seq<string>>
  {
    if requests == [] then Ok([])
    else
      match describe(requests[0])
      case Err(e) => Err(e)
      case Ok(found) =>
        match FetchAll(describe, requests[1..])
        case Err(e) => Err(e)
        case Ok(rest) => Ok(found + rest)
  }

  /** The resolution outcome: everything found, provided it is as many IDs as tokens requested. */
  function Resolution(kind: ResourceKind, tokens: seq<string>, prefix: string,
                      describe: DescribeRequest -> Result<seq<string>>, vpcID: string): Result<seq<string>>
  {
    match FetchAll(describe, LookupRequests(tokens, prefix, vpcID))
    case Err(e) => Err(e)
    case Ok(found) => if |found| != |tokens| then Err(Unresolved(kind, tokens, found)) else Ok(found)
  }

  /** The partition loop, the (at most two) describe calls, and the count check. */
  method ResolveIDsViaNameOrIDs(kind: ResourceKind, tokens: seq<string>, prefix: string,
                                describe: DescribeRequest -> Result<seq<string>>, vpcID: string)
    returns (r: Result<seq<string>>)
    ensures r == Resolution(kind, tokens, prefix, describe, vpcID)
  {
    var ids: seq<string> := [];
    var names: seq<string> := [];
    var i := 0;
    while i < |tokens|
      invariant 0 <= i <= |tokens|
      invariant ids == IDTokens(tokens[..i], prefix)
      invariant names == NameTokens(tokens[..i], prefix)
    {
      assert tokens[..i + 1][..i] == tokens[..i];
      if HasPrefix(tokens[i], prefix) {
        ids := ids + [tokens[i]];
      } else {
        names := names + [tokens[i]];
      }
      i := i + 1;
    }
    assert tokens[..|tokens|] == tokens;
    ghost var requests := LookupRequests(tokens, prefix, vpcID);
    var resolved: seq<string> := [];
    if |ids| > 0 {
      var found := describe(ByIDs(ids));
      if found.Err? {
        return Err(found.error);
      }
      resolved := resolved + found.value;
    }
    if |names| > 0 {
      var found := describe(ByNameTags(names, vpcID));
      if found.Err? {
        assert requests[..] == (if |ids| > 0 then [ByIDs(ids)] else []) + [ByNameTags(names, vpcID)];
        FetchAllFailure(describe, requests, |requests| - 1);
        return Err(found.error);
      }
      resolved := resolved + found.value;
    }
    FetchAllSpans(describe, tokens, prefix, vpcID);
    assert resolved == (if |ids| > 0 then describe(ByIDs(ids)).value else []) +
                       (if |names| > 0 then describe(ByNameTags(names, vpcID)).value else []);
    if |resolved| != |tokens| {
      return Err(Unresolved(kind, tokens, resolved));
    }
    return Ok(resolved);
  }

  /** The lookup results of the two buckets, written out without the request list. */
  lemma FetchAllSpans(describe: DescribeRequest -> Result<seq<string>>, tokens: seq<string>, prefix: string, vpcID: string)
    ensures
      var ids := IDTokens(tokens, prefix);
      var names := NameTokens(tokens, prefix);
      var byID := if |ids| > 0 then describe(ByIDs(ids)) else Ok([]);
      var byName := if |names| > 0 then describe(ByNameTags(names, vpcID)) else Ok([]);
      FetchAll(describe, LookupRequests(tokens, prefix, vpcID)) ==
        if byID.Err? then byID
        else if byName.Err? then byName
        else Ok(byID.value + byName.value)
  {
    var ids := IDTokens(tokens, prefix);
    var names := NameTokens(tokens, prefix);
    var reqs := LookupRequests(tokens, prefix, vpcID);
    if |ids| > 0 && |names| > 0 {
      assert reqs == [ByIDs(ids), ByNameTags(names, vpcID)];
      assert reqs[1..] == [ByNameTags(names, vpcID)];
      assert reqs[1..][1..] == [];
      var byName := describe(ByNameTags(names, vpcID));
      assert byName.Ok? ==> byName.value + [] == byName.value;
      assert FetchAll(describe, reqs[1..]) == if byName.Err? then Err(byName.error) else Ok(byName.value);
    } else if |ids| > 0 {
      assert reqs[1..] == [];
      var byID := describe(ByIDs(ids));
      assert byID.Ok? ==> byID.value + [] == byID.value;
    } else if |names| > 0 {
      assert reqs == [ByNameTags(names, vpcID)];
      assert reqs[1..] == [];
      var byName := describe(ByNameTags(names, vpcID));
      assert byName.Ok? ==> [] + byName.value == byName.value + [];
    }
  }

  lemma FetchAllFailure(describe: DescribeRequest -> Result<seq<string>>, requests: seq<DescribeRequest>, k: int)
    requires 0 <= k < |requests| && describe(requests[k]).Err?
    requires forall j :: 0 <= j < k ==> describe(requests[j]).Ok?
    ensures FetchAll(describe, requests) == describe(requests[k])
  {
    if k > 0 {
      FetchAllFailure(describe, requests[1..], k - 1);
    }
  }

  /** Subnet tokens: IDs start with "subnet-"; names are looked up within the task's VPC. */
  method ResolveSubnetIDsViaNameOrIDSlice(t: ModelBuildTask, subnetNameOrIDs: seq<string>) returns (r: Result<seq<string>>)
    ensures r == Resolution(Subnets, subnetNameOrIDs, "subnet-", t.env.describeSubnets, t.vpcID)
  {
    r := ResolveIDsViaNameOrIDs(Subnets, subnetNameOrIDs, "subnet-", t.env.describeSubnets, t.vpcID);
  }

  /** Security-group tokens: IDs start with "sg-"; names are looked up within the task's VPC. */
  method ResolveSecurityGroupIDsViaNameOrIDSlice(t: ModelBuildTask, sgNameOrIDs: seq<string>) returns (r: Result<seq<string>>)
    ensures r == Resolution(SecurityGroups, sgNameOrIDs, "sg-", t.env.describeSecurityGroups, t.vpcID)
  {
    r := ResolveIDsViaNameOrIDs(SecurityGroups, sgNameOrIDs, "sg-", t.env.describeSecurityGroups, t.vpcID);
  }

  /** Every token lands in exactly one bucket: the ID bucket holds the tokens with the prefix,
      the name bucket the others, and together they are the input. */
  lemma {:induction false} PartitionIsExact(tokens: seq<string>, prefix: string)
    ensures multiset(IDTokens(tokens, prefix)) + multiset(NameTokens(tokens, prefix)) == multiset(tokens)
    ensures forall x :: x in IDTokens(tokens, prefix) ==> HasPrefix(x, prefix)
    ensures forall x :: x in NameTokens(tokens, prefix) ==> !HasPrefix(x, prefix)
    ensures |IDTokens(tokens, prefix)| + |NameTokens(tokens, prefix)| == |tokens|
    decreases |tokens|
  {
    if tokens != [] {
      var n := |tokens| - 1;
      PartitionIsExact(tokens[..n], prefix);
      assert tokens == tokens[..n] + [tokens[n]];
      assert multiset(tokens) == multiset(tokens[..n]) + multiset{tokens[n]};
    }
  }

  /** Each bucket keeps the input's relative order: splitting the input splits the buckets. */
  lemma {:induction false} PartitionKeepsOrder(a: seq<string>, b: seq<string>, prefix: string)
    ensures IDTokens(a + b, prefix) == IDTokens(a, prefix) + IDTokens(b, prefix)
    ensures NameTokens(a + b, prefix) == NameTokens(a, prefix) + NameTokens(b, prefix)
    decreases |b|
  {
    if b == [] {
      assert a + b == a;
    } else {
      var n := |b| - 1;
      PartitionKeepsOrder(a, b[..n], prefix);
      assert (a + b)[..|a + b| - 1] == a + b[..n];
      assert (a + b)[|a + b| - 1] == b[n];
    }
  }

  /** Which describe calls are issued: one by ID exactly when some token has the prefix, one by
      Name tag within the VPC exactly when some token does not, and never one with an empty list. */
  lemma LookupRequestsPolicy(tokens: seq<string>, prefix: string, vpcID: string)
    ensures ByIDs(IDTokens(tokens, prefix)) in LookupRequests(tokens, prefix, vpcID) <==>
      exists i :: 0 <= i < |tokens| && HasPrefix(tokens[i], prefix)
    ensures ByNameTags(NameTokens(tokens, prefix), vpcID) in LookupRequests(tokens, prefix, vpcID) <==>
      exists i :: 0 <= i < |tokens| && !HasPrefix(tokens[i], prefix)
    ensures forall q :: q in LookupRequests(tokens, prefix, vpcID) ==>
      q == ByIDs(IDTokens(tokens, prefix)) || q == ByNameTags(NameTokens(tokens, prefix), vpcID)
    ensures forall q :: q in LookupRequests(tokens, prefix, vpcID) ==>
      match q
      case ByIDs(ids) => ids != []
      case ByNameTags(names, _) => names != []
  {
    BucketsNonEmpty(tokens, prefix);
  }

  lemma {:induction false} BucketsNonEmpty(tokens: seq<string>, prefix: string)
    ensures IDTokens(tokens, prefix) != [] <==> exists i :: 0 <= i < |tokens| && HasPrefix(tokens[i], prefix)
    ensures NameTokens(tokens, prefix) != [] <==> exists i :: 0 <= i < |tokens| && !HasPrefix(tokens[i], prefix)
    decreases |tokens|
  {
    if tokens != [] {
      var n := |tokens| - 1;
      BucketsNonEmpty(tokens[..n], prefix);
      assert forall i :: 0 <= i < n ==> tokens[..n][i] == tokens[i];
    }
  }

  /** All or nothing: the resolution succeeds exactly when both lookups succeed and together
      return one ID per token, and then it is the ID results followed by the name results;
      a short or long count yields an error that reports the request and what was found. */
  lemma ResolutionCompleteness(kind: ResourceKind, tokens: seq<string>, prefix: string,
                               describe: DescribeRequest -> Result<seq<string>>, vpcID: string)
    ensures
      var ids := IDTokens(tokens, prefix);
      var names := NameTokens(tokens, prefix);
      var byID := if |ids| > 0 then describe(ByIDs(ids)) else Ok([]);
      var byName := if |names| > 0 then describe(ByNameTags(names, vpcID)) else Ok([]);
      var r := Resolution(kind, tokens, prefix, describe, vpcID);
      && (r.Ok? <==> byID.Ok? && byName.Ok? && |byID.value| + |byName.value| == |tokens|)
      && (r.Ok? ==> r.value == byID.value + byName.value && |r.value| == |tokens|)
      && (byID.Ok? && byName.Ok? && |byID.value| + |byName.value| != |tokens| ==>
            r == Err(Unresolved(kind, tokens, byID.value + byName.value)))
      && (byID.Err? ==> r == byID)
      && (byID.Ok? && byName.Err? ==> r == byName)
  {
    FetchAllSpans(describe, tokens, prefix, vpcID);
  }

  /** A describe service holding security group sg-123 and a group sg-456 tagged "my-sg". */
  function ExampleSecurityGroupLookup(q: DescribeRequest): Result<seq<string>>
  {
    match q
    case ByIDs(ids) => if ids == ["sg-123"] then Ok(["sg-123"]) else Ok([])
    case ByNameTags(names, _) => if names == ["my-sg"] then Ok(["sg-456"]) else Ok([])
  }

  /** A describe service that finds every requested ID and no Name tag. */
  function ExampleSubnetLookup(q: DescribeRequest): Result<seq<string>>
  {
    match q
    case ByIDs(ids) => Ok(ids)
    case ByNameTags(_, _) => Ok([])
  }

  /** An ID followed by a name splits into one token per bucket. */
  lemma SplitIDThenName(id: string, name: string, prefix: string)
    requires HasPrefix(id, prefix) && !HasPrefix(name, prefix)
    ensures IDTokens([id, name], prefix) == [id] && NameTokens([id, name], prefix) == [name]
  {
    var tokens := [id, name];
    assert tokens[..|tokens| - 1] == [id] && [id][..0] == [];
    assert IDTokens([id], prefix) == [id] && NameTokens([id], prefix) == [];
  }

  /** One ID found directly and one name found by its tag resolve together, IDs first. */
  lemma SecurityGroupResolutionExample(vpcID: string)
    ensures Resolution(SecurityGroups, ["sg-123", "my-sg"], "sg-", ExampleSecurityGroupLookup, vpcID) ==
      Ok(["sg-123", "sg-456"])
  {
    var sgs: seq<string> := ["sg-123", "my-sg"];
    assert "sg-123"[..3] == "sg-" && "my-sg"[..3][0] != "sg-"[0];
    SplitIDThenName("sg-123", "my-sg", "sg-");
    ResolutionCompleteness(SecurityGroups, sgs, "sg-", ExampleSecurityGroupLookup, vpcID);
    assert ExampleSecurityGroupLookup(ByIDs(["sg-123"])) == Ok(["sg-123"]);
    assert ExampleSecurityGroupLookup(ByNameTags(["my-sg"], vpcID)) == Ok(["sg-456"]);
    assert ["sg-123"] + ["sg-456"] == ["sg-123", "sg-456"];
  }

  /** A token that is not found makes the resolution fail with what was requested and the one
      ID that was found. */
  lemma SubnetResolutionExample(vpcID: string)
    ensures Resolution(Subnets, ["subnet-a", "b"], "subnet-", ExampleSubnetLookup, vpcID) ==
      Err(Unresolved(Subnets, ["subnet-a", "b"], ["subnet-a"]))
  {
    var subnets: seq<string> := ["subnet-a", "b"];
    assert "subnet-a"[..7] == "subnet-";
    SplitIDThenName("subnet-a", "b", "subnet-");
    ResolutionCompleteness(Subnets, subnets, "subnet-", ExampleSubnetLookup, vpcID);
    assert ExampleSubnetLookup(ByIDs(["subnet-a"])) == Ok(["subnet-a"]);
    assert ExampleSubnetLookup(ByNameTags(["b"], vpcID)) == Ok([]);
    assert ["subnet-a"] + [] == ["subnet-a"];
  }
}
