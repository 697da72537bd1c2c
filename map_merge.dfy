/** Merging a key/value annotation (load-balancer attributes, tags) across the members of a group:
    the maps are unioned key by key, and one key given two different values is a conflict. */
module MapMerge {
  import opened Outcomes
  import opened IngressGroup

  /** What a member contributes: nothing when it does not carry the annotation. */
  function MapOf(a: MapAnnotation): map<string, string>
  {
    match a
    case MapValue(m) => m
    case _ => map[]
  }

  /** Two maps agree on every key they share. */
  predicate Compatible(m1: map<string, string>, m2: map<string, string>)
  {
    forall k :: k in m1 && k in m2 ==> m1[k] == m2[k]
  }

  /** The members' maps unioned in member order. */
  function UnionAll(anns: seq<MapAnnotation>): map<string, string>
  {
    if anns == [] then map[] else UnionAll(anns[..|anns| - 1]) + MapOf(anns[|anns| - 1])
  }

  predicate NoneMalformed(anns: seq<MapAnnotation>)
  {
    forall i :: 0 <= i < |anns| ==> !anns[i].MapMalformed?
  }

  predicate PairwiseCompatible(anns: seq<MapAnnotation>)
  {
    forall i, j :: 0 <= i < j < |anns| ==> Compatible(MapOf(anns[i]), MapOf(anns[j]))
  }

  /** The merge succeeds exactly for these inputs. */
  predicate Mergeable(anns: seq<MapAnnotation>)
  {
    NoneMalformed(anns) && PairwiseCompatible(anns)
  }

  /** Two members really do give `key` the two different values `existing` and `value`. */
  predicate GenuineConflict(anns: seq<MapAnnotation>, key: string, existing: string, value: string)
  {
    existing != value &&
    exists i, j :: 0 <= i < j < |anns| &&
      key in MapOf(anns[i]) && MapOf(anns[i])[key] == existing &&
      key in MapOf(anns[j]) && MapOf(anns[j])[key] == value
  }

  /** Member i is where the merge stops with error e: its annotation is malformed, or it gives
      a key a value that differs from the one an earlier member gave. */
  predicate FailsAt(field: MapField, anns: seq<MapAnnotation>, i: int, e: Error)
    requires 0 <= i < |anns|
  {
    (e.MalformedAnnotation? && anns[i] == MapMalformed(e.message)) ||
    (e.ConflictingMapEntry? && e.field == field && e.existing != e.value &&
     e.key in MapOf(anns[i]) && MapOf(anns[i])[e.key] == e.value &&
     exists j :: 0 <= j < i && e.key in MapOf(anns[j]) && MapOf(anns[j])[e.key] == e.existing)
  }

  /** The error a failed merge reports: it comes from the first member at which the members
      seen so far stop being mergeable. */
  predicate MapMergeFailure(field: MapField, anns: seq<MapAnnotation>, e: Error)
  {
    exists i :: 0 <= i < |anns| && Mergeable(anns[..i]) && FailsAt(field, anns, i, e)
  }

  /** Every key of the union comes from some member, with that member's value. */
  lemma {:induction false} UnionAllWitness(anns: seq<MapAnnotation>, k: string)
    requires k in UnionAll(anns)
    ensures exists j :: 0 <= j < |anns| && k in MapOf(anns[j]) && MapOf(anns[j])[k] == UnionAll(anns)[k]
    decreases |anns|
  {
    var n := |anns| - 1;
    if k !in MapOf(anns[n]) {
      UnionAllWitness(anns[..n], k);
      var j :| 0 <= j < n && k in MapOf(anns[..n][j]) && MapOf(anns[..n][j])[k] == UnionAll(anns[..n])[k];
      assert anns[..n][j] == anns[j];
    }
  }

  /** With pairwise-compatible members, the union holds every member's entries. */
  lemma {:induction false} UnionAllContains(anns: seq<MapAnnotation>, j: int, k: string)
    requires PairwiseCompatible(anns)
    requires 0 <= j < |anns| && k in MapOf(anns[j])
    ensures k in UnionAll(anns) && UnionAll(anns)[k] == MapOf(anns[j])[k]
    decreases |anns|
  {
    var n := |anns| - 1;
    if j < n {
      var front := anns[..n];
      assert forall i :: 0 <= i < n ==> front[i] == anns[i];
      UnionAllContains(front, j, k);
    }
  }

  /** A new member's map agrees with the union of compatible members iff it agrees with each of them. */
  lemma CompatibleWithUnion(anns: seq<MapAnnotation>, m: map<string, string>)
    requires PairwiseCompatible(anns)
    ensures Compatible(UnionAll(anns), m) <==> forall j :: 0 <= j < |anns| ==> Compatible(MapOf(anns[j]), m)
  {
    if Compatible(UnionAll(anns), m) {
      forall j | 0 <= j < |anns| ensures Compatible(MapOf(anns[j]), m) {
        forall k | k in MapOf(anns[j]) && k in m ensures MapOf(anns[j])[k] == m[k] {
          UnionAllContains(anns, j, k);
        }
      }
    } else {
      var k :| k in UnionAll(anns) && k in m && UnionAll(anns)[k] != m[k];
      UnionAllWitness(anns, k);
      var j :| 0 <= j < |anns| && k in MapOf(anns[j]) && MapOf(anns[j])[k] == UnionAll(anns)[k];
      assert !Compatible(MapOf(anns[j]), m);
    }
  }

  /** The merge result, when it succeeds, is exactly the union of the members' maps,
      whatever order the members come in. */
  lemma UnionAllIsUnion(anns: seq<MapAnnotation>)
    requires PairwiseCompatible(anns)
    ensures forall k :: k in UnionAll(anns) <==> exists j :: 0 <= j < |anns| && k in MapOf(anns[j])
    ensures forall j, k :: 0 <= j < |anns| && k in MapOf(anns[j]) ==> UnionAll(anns)[k] == MapOf(anns[j])[k]
  {
    forall j, k | 0 <= j < |anns| && k in MapOf(anns[j])
      ensures k in UnionAll(anns) && UnionAll(anns)[k] == MapOf(anns[j])[k]
    {
      UnionAllContains(anns, j, k);
    }
    forall k | k in UnionAll(anns)
      ensures exists j :: 0 <= j < |anns| && k in MapOf(anns[j])
    {
      UnionAllWitness(anns, k);
    }
  }

  /** Extending a mergeable prefix by one member that agrees with all of it. */
  lemma MergeableStep(anns: seq<MapAnnotation>, i: int)
    requires 0 <= i < |anns|
    requires Mergeable(anns[..i]) && !anns[i].MapMalformed?
    requires Compatible(UnionAll(anns[..i]), MapOf(anns[i]))
    ensures Mergeable(anns[..i + 1])
  {
    var front := anns[..i];
    CompatibleWithUnion(front, MapOf(anns[i]));
    var next := anns[..i + 1];
    assert forall j :: 0 <= j < i ==> next[j] == front[j];
    assert next[i] == anns[i];
  }

  /** The inner loop: add one member's entries to the merged map, in whatever order the map
      yields its keys, stopping at the first key the merged map already holds with another value. */
  method MergeEntries(field: MapField, merged: map<string, string>, m: map<string, string>)
    returns (r: Result<map<string, string>>)
    ensures r.Ok? <==> Compatible(merged, m)
    ensures r.Ok? ==> r.value == merged + m
    ensures r.Err? ==>
      r.error.ConflictingMapEntry? && r.error.field == field &&
      r.error.key in merged && r.error.key in m &&
      r.error.existing == merged[r.error.key] && r.error.value == m[r.error.key] &&
      r.error.existing != r.error.value
  {
    var acc := merged;
    var pending := m.Keys;
    while pending != {}
      invariant pending <= m.Keys
      invariant acc == merged + map k | k in m.Keys - pending :: m[k]
      invariant forall k :: k in m.Keys - pending && k in merged ==> merged[k] == m[k]
      decreases pending
    {
      var k :| k in pending;
      if k in acc && acc[k] != m[k] {
        return Err(ConflictingMapEntry(field, k, acc[k], m[k]));
      }
      acc := acc[k := m[k]];
      pending := pending - {k};
    }
    assert acc == merged + m;
    return Ok(acc);
  }

  /** The nested merge loop: over the members, then over the keys of each member's map,
      stopping at the first malformed annotation or conflict. */
  method MergeMapAnnotations(field: MapField, anns: seq<MapAnnotation>) returns (r: Result<map<string, string>>)
    ensures r.Ok? <==> Mergeable(anns)
    ensures r.Ok? ==> r.value == UnionAll(anns)
    ensures r.Err? ==> MapMergeFailure(field, anns, r.error)
  {
    var merged: map<string, string> := map[];
    var i := 0;
    while i < |anns|
      invariant 0 <= i <= |anns|
      invariant Mergeable(anns[..i])
      invariant merged == UnionAll(anns[..i])
    {
      assert anns[..i + 1][..i] == anns[..i];
      match anns[i] {
        case MapMalformed(msg) =>
          MalformedBlocksMerge(anns, i);
          return Err(MalformedAnnotation(msg));
        case MapAbsent =>
          MergeableStep(anns, i);
        case MapValue(m) =>
          var step := MergeEntries(field, merged, m);
          if step.Err? {
            ConflictBlocksMerge(field, anns, i, step.error.key);
            return step;
          }
          MergeableStep(anns, i);
          merged := step.value;
      }
      i := i + 1;
    }
    assert anns[..|anns|] == anns;
    r := Ok(merged);
  }

  lemma MalformedBlocksMerge(anns: seq<MapAnnotation>, i: int)
    requires 0 <= i < |anns| && anns[i].MapMalformed?
    ensures !Mergeable(anns)
  {
  }

  /** A key of member i that disagrees with the union of the members before it is a genuine
      conflict between two members, and the merge as a whole cannot succeed. */
  lemma ConflictBlocksMerge(field: MapField, anns: seq<MapAnnotation>, i: int, k: string)
    requires 0 <= i < |anns| && Mergeable(anns[..i])
    requires k in UnionAll(anns[..i]) && k in MapOf(anns[i]) && UnionAll(anns[..i])[k] != MapOf(anns[i])[k]
    ensures GenuineConflict(anns, k, UnionAll(anns[..i])[k], MapOf(anns[i])[k])
    ensures FailsAt(field, anns, i, ConflictingMapEntry(field, k, UnionAll(anns[..i])[k], MapOf(anns[i])[k]))
    ensures !Mergeable(anns)
  {
    var front := anns[..i];
    UnionAllWitness(front, k);
    var j :| 0 <= j < i && k in MapOf(front[j]) && MapOf(front[j])[k] == UnionAll(front)[k];
    assert front[j] == anns[j];
    assert !Compatible(MapOf(anns[j]), MapOf(anns[i]));
  }

  /** Disjoint tag maps merge into their union; one key with two values is a conflict on that key. */
  lemma TagMergeExamples()
    ensures
      var anns := [MapValue(map["a" := "1"]), MapValue(map["b" := "2"])];
      Mergeable(anns) && UnionAll(anns) == map["a" := "1", "b" := "2"]
    ensures
      var anns := [MapValue(map["a" := "1"]), MapValue(map["a" := "2"])];
      !Mergeable(anns) && GenuineConflict(anns, "a", "1", "2")
  {
    var ok := [MapValue(map["a" := "1"]), MapValue(map["b" := "2"])];
    assert ok[..1] == [ok[0]] && ok[..1][..0] == [];
    assert UnionAll(ok[..1]) == map["a" := "1"];
    var bad := [MapValue(map["a" := "1"]), MapValue(map["a" := "2"])];
    assert "1"[0] != "2"[0];
    assert "a" in MapOf(bad[0]) && "a" in MapOf(bad[1]) && MapOf(bad[0])["a"] != MapOf(bad[1])["a"];
    assert !Compatible(MapOf(bad[0]), MapOf(bad[1]));
  }
}
