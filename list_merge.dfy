/** Merging a list-valued annotation (subnets, security groups) across the members of a group:
    the lists of the members that carry it are collected in member order, and every later list
    must agree with the first one, which is the one chosen. */
module ListMerge {
  import opened Outcomes

  /** How two members' lists are compared: subnets ignore order, security groups do not. */
  datatype Agreement = IgnoreOrder | ExactOrder

  /** Order-insensitive comparison compares the sorted lists, so it is multiset equality. */
  predicate SameList(policy: Agreement, a: seq<string>, b: seq<string>)
  {
    match policy
    case IgnoreOrder => multiset(a) == multiset(b)
    case ExactOrder => a == b
  }

  /** The lists of the members that carry the annotation, in member order. */
  function ExplicitLists(raws: seq<Option<seq<string>>>): seq<seq<string>>
  {
    if raws == [] then []
    else
      var prefix := ExplicitLists(raws[..|raws| - 1]);
      match raws[|raws| - 1]
      case None => prefix
      case Some(l) => prefix + [l]
  }

  /** The append loop over the members. */
  method CollectExplicitLists(raws: seq<Option<seq<string>>>) returns (lists: seq<seq<string>>)
    ensures lists == ExplicitLists(raws)
  {
    lists := [];
    var i := 0;
    while i < |raws|
      invariant 0 <= i <= |raws|
      invariant lists == ExplicitLists(raws[..i])
    {
      assert raws[..i + 1][..i] == raws[..i];
      if raws[i].Some? {
        lists := lists + [raws[i].value];
      }
      i := i + 1;
    }
    assert raws[..|raws|] == raws;
  }

  /** The first of `others` that does not agree with `chosen`, if any. */
  function FirstDisagreement(policy: Agreement, chosen: seq<string>, others: seq<seq<string>>): Option<seq<string>>
  {
    if others == [] then None
    else if !SameList(policy, chosen, others[0]) then Some(others[0])
    else FirstDisagreement(policy, chosen, others[1..])
  }

  /** The outcome of the merge: no member gave a list, the chosen list, or a conflict. */
  datatype ListSelection = Unset | Chosen(nameOrIDs: seq<string>) | ListConflict(chosen: seq<string>, other: seq<string>)

  function SelectExplicitList(policy: Agreement, raws: seq<Option<seq<string>>>): ListSelection
  {
    var lists := ExplicitLists(raws);
    if lists == [] then Unset
    else
      match FirstDisagreement(policy, lists[0], lists[1..])
      case None => Chosen(lists[0])
      case Some(other) => ListConflict(lists[0], other)
  }

  /** Collect the explicit lists, then compare every later list with the first. */
  method MergeExplicitLists(policy: Agreement, raws: seq<Option<seq<string>>>) returns (sel: ListSelection)
    ensures sel == SelectExplicitList(policy, raws)
  {
    var lists := CollectExplicitLists(raws);
    if |lists| == 0 {
      return Unset;
    }
    var chosen := lists[0];
    var i := 1;
    while i < |lists|
      invariant 1 <= i <= |lists|
      invariant FirstDisagreement(policy, chosen, lists[1..]) == FirstDisagreement(policy, chosen, lists[i..])
    {
      assert lists[i..][1..] == lists[i + 1..];
      if !SameList(policy, chosen, lists[i]) {
        return ListConflict(chosen, lists[i]);
      }
      i := i + 1;
    }
    return Chosen(chosen);
  }

  /** A member at index i carries list l, and no earlier member carries one. */
  predicate FirstSpecified(raws: seq<Option<seq<string>>>, i: int, l: seq<string>)
  {
    0 <= i < |raws| && raws[i] == Some(l) && forall j :: 0 <= j < i ==> raws[j].None?
  }

  lemma {:induction false} ExplicitListsMembers(raws: seq<Option<seq<string>>>)
    ensures forall l :: l in ExplicitLists(raws) <==> exists i :: 0 <= i < |raws| && raws[i] == Some(l)
    ensures ExplicitLists(raws) == [] <==> forall i :: 0 <= i < |raws| ==> raws[i].None?
    ensures ExplicitLists(raws) != [] ==> exists i :: FirstSpecified(raws, i, ExplicitLists(raws)[0])
    decreases |raws|
  {
    if raws != [] {
      var n := |raws| - 1;
      var front := raws[..n];
      ExplicitListsMembers(front);
      assert forall i :: 0 <= i < n ==> front[i] == raws[i];
      if ExplicitLists(front) != [] {
        var i :| FirstSpecified(front, i, ExplicitLists(front)[0]);
        assert FirstSpecified(raws, i, ExplicitLists(raws)[0]);
      } else if raws[n].Some? {
        assert FirstSpecified(raws, n, ExplicitLists(raws)[0]);
      }
    }
  }

  lemma {:induction false} FirstDisagreementSpec(policy: Agreement, chosen: seq<string>, others: seq<seq<string>>)
    ensures FirstDisagreement(policy, chosen, others).None? <==> forall l :: l in others ==> SameList(policy, chosen, l)
    ensures FirstDisagreement(policy, chosen, others).Some? ==>
      FirstDisagreement(policy, chosen, others).value in others &&
      !SameList(policy, chosen, FirstDisagreement(policy, chosen, others).value)
    decreases |others|
  {
    if others != [] {
      FirstDisagreementSpec(policy, chosen, others[1..]);
      assert others == [others[0]] + others[1..];
    }
  }

  /** The merge policy for list-valued fields, in terms of the members' annotations. */
  lemma ListSelectionPolicy(policy: Agreement, raws: seq<Option<seq<string>>>)
    ensures SelectExplicitList(policy, raws).Unset? <==> forall i :: 0 <= i < |raws| ==> raws[i].None?
    ensures SelectExplicitList(policy, raws).Chosen? <==>
      (exists i :: 0 <= i < |raws| && raws[i].Some?) &&
      forall i, j ::
        (0 <= i < |raws| && 0 <= j < |raws| && raws[i].Some? && raws[j].Some? && FirstSpecified(raws, i, raws[i].value))
        ==> SameList(policy, raws[i].value, raws[j].value)
    ensures SelectExplicitList(policy, raws).Chosen? ==>
      exists i :: FirstSpecified(raws, i, SelectExplicitList(policy, raws).nameOrIDs)
    ensures SelectExplicitList(policy, raws).ListConflict? ==>
      (exists i :: FirstSpecified(raws, i, SelectExplicitList(policy, raws).chosen)) &&
      (exists j :: 0 <= j < |raws| && raws[j] == Some(SelectExplicitList(policy, raws).other)) &&
      !SameList(policy, SelectExplicitList(policy, raws).chosen, SelectExplicitList(policy, raws).other)
  {
    var lists := ExplicitLists(raws);
    ExplicitListsMembers(raws);
    if lists != [] {
      FirstDisagreementSpec(policy, lists[0], lists[1..]);
      var i0 :| FirstSpecified(raws, i0, lists[0]);
      forall i | 0 <= i < |raws| && raws[i].Some? && FirstSpecified(raws, i, raws[i].value) ensures i == i0 {
      }
      assert forall l :: l in lists ==> l == lists[0] || l in lists[1..];
      if SelectExplicitList(policy, raws).Chosen? {
        assert policy.IgnoreOrder? ==> SameList(policy, lists[0], lists[0]);
      } else {
        var other := FirstDisagreement(policy, lists[0], lists[1..]).value;
        assert other in lists;
        var j :| 0 <= j < |raws| && raws[j] == Some(other);
        assert FirstSpecified(raws, i0, raws[i0].value);
      }
    }
  }

  /** Once the first annotating member is known, its list decides the selection: it is chosen when
      every other list agrees with it, and it is reported in a conflict otherwise. */
  lemma FirstListDecides(policy: Agreement, raws: seq<Option<seq<string>>>, i: int, first: seq<string>)
    requires FirstSpecified(raws, i, first)
    ensures (forall j :: 0 <= j < |raws| && raws[j].Some? ==> SameList(policy, first, raws[j].value)) ==>
      SelectExplicitList(policy, raws) == Chosen(first)
    ensures (exists j :: 0 <= j < |raws| && raws[j].Some? && !SameList(policy, first, raws[j].value)) ==>
      && SelectExplicitList(policy, raws).ListConflict?
      && SelectExplicitList(policy, raws).chosen == first
      && !SameList(policy, first, SelectExplicitList(policy, raws).other)
  {
    ListSelectionPolicy(policy, raws);
    match SelectExplicitList(policy, raws) {
      case Unset =>
        assert false;
      case Chosen(c) =>
        var i0 :| FirstSpecified(raws, i0, c);
        assert !(i0 < i) && !(i < i0);
      case ListConflict(c, o) =>
        var i0 :| FirstSpecified(raws, i0, c);
        assert !(i0 < i) && !(i < i0);
    }
  }

  /** The asymmetry between the two fields: the same two lists in different orders agree
      as subnet lists and conflict as security-group lists. */
  lemma OrderMattersOnlyForExactOrder()
    ensures SelectExplicitList(IgnoreOrder, [Some(["a", "b"]), Some(["b", "a"])]) == Chosen(["a", "b"])
    ensures SelectExplicitList(ExactOrder, [Some(["a", "b"]), Some(["b", "a"])]) == ListConflict(["a", "b"], ["b", "a"])
  {
    var raws: seq<Option<seq<string>>> := [Some(["a", "b"]), Some(["b", "a"])];
    assert raws[..1][..0] == [];
    assert raws[..1] == [Some(["a", "b"])];
    assert ExplicitLists(raws) == [["a", "b"], ["b", "a"]];
    assert multiset(["a", "b"]) == multiset(["b", "a"]);
    assert ["a", "b"] != ["b", "a"] by { assert ["a", "b"][0] != ["b", "a"][0]; }
  }
}
