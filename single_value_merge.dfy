/** Merging a single-valued annotation (scheme, IP address type) across the members of a group:
    the distinct raw values are collected into a set; none means the default, two or more a conflict. */
module SingleValueMerge {
  import opened Outcomes

  /** The distinct raw values of the members that carry the annotation. */
  function PresentValues(raws: seq<Option<string>>): set<string>
  {
    set i | 0 <= i < |raws| && raws[i].Some? :: raws[i].value
  }

  /** The set-insertion loop over the members. */
  method CollectExplicitValues(raws: seq<Option<string>>) returns (explicit: set<string>)
    ensures forall v :: v in explicit <==> exists i :: 0 <= i < |raws| && raws[i] == Some(v)
    ensures explicit == PresentValues(raws)
  {
    explicit := {};
    var i := 0;
    while i < |raws|
      invariant 0 <= i <= |raws|
      invariant forall v :: v in explicit <==> exists j :: 0 <= j < i && raws[j] == Some(v)
    {
      if raws[i].Some? {
        explicit := explicit + {raws[i].value};
      }
      i := i + 1;
    }
  }

  /** What the collected set says: nothing given, one agreed raw value, or a conflict. */
  datatype SingleValue = Unspecified | Agreed(raw: string) | Conflicting(values: set<string>)

  ghost function MergeSingleValue(raws: seq<Option<string>>): SingleValue
  {
    var explicit := PresentValues(raws);
    if |explicit| == 0 then Unspecified
    else if |explicit| > 1 then Conflicting(explicit)
    else var raw :| raw in explicit; Agreed(raw)
  }

  lemma SingletonSet(s: set<string>, x: string)
    requires |s| == 1 && x in s
    ensures s == {x}
  {
    assert |s - {x}| == 0;
  }

  lemma TwoElements(s: set<string>, x: string, y: string)
    requires x in s && y in s && x != y
    ensures |s| > 1
  {
    var rest := s - {x};
    assert s == rest + {x};
    assert y in rest;
  }

  /** The merge policy for single-valued fields, in terms of the members' annotations. */
  lemma SingleValueMergePolicy(raws: seq<Option<string>>, v: string)
    ensures MergeSingleValue(raws).Unspecified? <==> forall i :: 0 <= i < |raws| ==> raws[i].None?
    ensures MergeSingleValue(raws) == Agreed(v) <==>
      (exists i :: 0 <= i < |raws| && raws[i] == Some(v)) &&
      (forall i :: 0 <= i < |raws| && raws[i].Some? ==> raws[i].value == v)
    ensures MergeSingleValue(raws).Conflicting? <==>
      exists i, j :: 0 <= i < |raws| && 0 <= j < |raws| && raws[i].Some? && raws[j].Some? && raws[i].value != raws[j].value
    ensures MergeSingleValue(raws).Conflicting? ==> MergeSingleValue(raws).values == PresentValues(raws)
  {
    var explicit := PresentValues(raws);
    if i :| 0 <= i < |raws| && raws[i].Some? {
      assert raws[i].value in explicit;
    }
    if i, j :| 0 <= i < |raws| && 0 <= j < |raws| && raws[i].Some? && raws[j].Some? && raws[i].value != raws[j].value {
      assert raws[i].value in explicit && raws[j].value in explicit;
      TwoElements(explicit, raws[i].value, raws[j].value);
    }
    if |explicit| == 1 {
      var raw :| raw in explicit;
      SingletonSet(explicit, raw);
    }
    if |explicit| > 1 {
      var x :| x in explicit;
      assert |explicit - {x}| > 0;
      var y :| y in explicit - {x};
    }
  }
}
