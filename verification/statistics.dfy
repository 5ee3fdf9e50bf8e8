/** The children-per-parent statistic.

    The source sums the children of every member that has at least one and
    counts those members, then prints the quotient; only the two counts are
    modelled, the quotient is left to the caller.
 */
module Statistics {
  import opened Outcomes
  import opened Persons
  import opened Graph
  import opened Registry

  /** `len(person.children)`, zero for a class without the list. */
  function ChildCount(ps: People, id: nat): nat {
    |List(ps, id, Children)|
  }

  /** The members of `ms` with at least one child, the ones the statistic
      counts. */
  function WithChildren(ps: People, ms: seq<nat>): (r: set<nat>)
    ensures forall x :: x in r <==> x in ms && ChildCount(ps, x) > 0
  {
    set x | x in ms && ChildCount(ps, x) > 0
  }

  /** The running totals after the members of `ms`, in order: the children
      summed and the members counted. */
  function Totals(ps: People, ms: seq<nat>): (r: (nat, nat))
    ensures r.0 >= r.1
  {
    if ms == [] then (0, 0)
    else
      var last := ms[|ms| - 1];
      var prefix := Totals(ps, ms[..|ms| - 1]);
      if ChildCount(ps, last) > 0 then (prefix.0 + ChildCount(ps, last), prefix.1 + 1)
      else prefix
  }

  /** The count is zero exactly when no member has children. */
  lemma {:induction false} CountZeroIffChildless(ps: People, ms: seq<nat>)
    ensures Totals(ps, ms).1 == 0 <==> forall i | 0 <= i < |ms| :: ChildCount(ps, ms[i]) == 0
  {
    if ms != [] {
      CountZeroIffChildless(ps, ms[..|ms| - 1]);
      assert forall i | 0 <= i < |ms| - 1 :: ms[..|ms| - 1][i] == ms[i];
    }
  }

  /** With no member listed twice, the count is the number of distinct
      members with children. */
  lemma {:induction false} CountIsParents(ps: People, ms: seq<nat>)
    requires Distinct(ms)
    ensures Totals(ps, ms).1 == |WithChildren(ps, ms)|
  {
    if ms != [] {
      var last := ms[|ms| - 1];
      var init := ms[..|ms| - 1];
      assert Distinct(init);
      CountIsParents(ps, init);
      assert last !in init;
      if ChildCount(ps, last) > 0 {
        assert WithChildren(ps, ms) == WithChildren(ps, init) + {last};
      } else {
        assert WithChildren(ps, ms) == WithChildren(ps, init);
      }
    }
  }

  /** `calc_acpp` without the printing: the totals over the family when some
      member has children, and nothing otherwise. */
  method ChildrenPerParent(t: Tree) returns (r: Option<(nat, nat)>)
    ensures r.None? <==> forall x | x in t.members :: ChildCount(t.people, x) == 0
    ensures r.Some? ==> r.value == Totals(t.people, t.members)
    ensures r.Some? ==> r.value.0 >= r.value.1 > 0
  {
    var total, count := 0, 0;
    var i := 0;
    while i < |t.members|
      invariant 0 <= i <= |t.members|
      invariant (total, count) == Totals(t.people, t.members[..i])
    {
      var id := t.members[i];
      assert t.members[..i + 1][..i] == t.members[..i];
      var n := |List(t.people, id, Children)|;
      if n > 0 {
        total := total + n;
        count := count + 1;
      }
      i := i + 1;
    }
    assert t.members[..i] == t.members;
    CountZeroIffChildless(t.people, t.members);
    assert (forall x | x in t.members :: ChildCount(t.people, x) == 0) <==>
           (forall j | 0 <= j < |t.members| :: ChildCount(t.people, t.members[j]) == 0);
    if count > 0 {
      r := Some((total, count));
    } else {
      r := None;
    }
  }

  /** Promoting a person keeps every child list, so the statistic does not
      change. */
  lemma {:induction false} TotalsSurvivePromotion(ps: People, id: nat, ms: seq<nat>)
    requires id in ps
    ensures Totals(Roles.Convert(ps, id), ms) == Totals(ps, ms)
  {
    if ms != [] {
      TotalsSurvivePromotion(ps, id, ms[..|ms| - 1]);
      Roles.ConvertKeepsLists(ps, id, ms[|ms| - 1], Children);
    }
  }

  /** Three members with two, no and three children: five children over
      two parents. */
  lemma TwoParentsFiveChildren()
    ensures var ps := map[
        1 := Fresh(1, Parent, "A", "", true, "").(children := {4, 5}),
        2 := Fresh(2, Child, "B", "", true, ""),
        3 := Fresh(3, ParentChild, "C", "", true, "").(children := {6, 7, 8})];
      Totals(ps, [1, 2, 3]) == (5, 2)
  {
    var ps := map[
        1 := Fresh(1, Parent, "A", "", true, "").(children := {4, 5}),
        2 := Fresh(2, Child, "B", "", true, ""),
        3 := Fresh(3, ParentChild, "C", "", true, "").(children := {6, 7, 8})];
    assert [1, 2, 3][..2] == [1, 2] && [1, 2][..1] == [1] && [1][..0] == [];
    assert ChildCount(ps, 1) == 2 && ChildCount(ps, 2) == 0 && ChildCount(ps, 3) == 3;
    assert Totals(ps, [1]) == (2, 1);
    assert Totals(ps, [1, 2]) == (2, 1);
  }
}
