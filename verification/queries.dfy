/** The relationship queries of the statistics class.

    Each query follows one or two hops of edge lists from a person; a list
    the person (or someone on the way) does not own contributes nothing, as
    `getattr(x, list, [])` does. The source returns lists that may repeat a
    relative; here a query is the set of relatives it lists.
 */
module Queries {
  import opened Persons
  import opened Graph

  /** The members listed under `k` by anyone in `from`. */
  function Hop(ps: People, from: set<nat>, k: Kind): (r: set<nat>)
    ensures forall x :: x in r <==> exists q :: q in from && Has(ps, k, q, x)
  {
    var r := set q, x | q in from && x in List(ps, q, k) :: x;
    assert forall x | x in r :: exists q :: q in from && Has(ps, k, q, x);
    assert forall q, x | q in from && Has(ps, k, q, x) :: x in r by {
      forall q, x | q in from && Has(ps, k, q, x) ensures x in r {
        assert x in List(ps, q, k);
      }
    }
    r
  }

  /** `get_grandparents`: the parents of the person's parents. */
  function Grandparents(ps: People, p: nat): (r: set<nat>)
    ensures forall g :: g in r <==> exists q :: Has(ps, Parents, p, q) && Has(ps, Parents, q, g)
    ensures !HasList(ClassOf(ps, p), Parents) ==> r == {}
    ensures Closed(ps) ==> r <= ps.Keys
  {
    Hop(ps, List(ps, p, Parents), Parents)
  }

  /** `get_grandchildren`: the children of the person's children. */
  function Grandchildren(ps: People, p: nat): (r: set<nat>)
    ensures forall g :: g in r <==> exists q :: Has(ps, Children, p, q) && Has(ps, Children, q, g)
    ensures !HasList(ClassOf(ps, p), Children) ==> r == {}
    ensures Closed(ps) ==> r <= ps.Keys
  {
    Hop(ps, List(ps, p, Children), Children)
  }

  /** `get_aunts_uncles`: the siblings of the person's parents. */
  function AuntsUncles(ps: People, p: nat): (r: set<nat>)
    ensures forall u :: u in r <==> exists q :: Has(ps, Parents, p, q) && Has(ps, Siblings, q, u)
    ensures !HasList(ClassOf(ps, p), Parents) ==> r == {}
    ensures Closed(ps) ==> r <= ps.Keys
  {
    Hop(ps, List(ps, p, Parents), Siblings)
  }

  /** `get_nieces_nephews`: the children of the person's siblings. */
  function NiecesNephews(ps: People, p: nat): (r: set<nat>)
    ensures forall n :: n in r <==> exists q :: Has(ps, Siblings, p, q) && Has(ps, Children, q, n)
    ensures !HasList(ClassOf(ps, p), Siblings) ==> r == {}
    ensures Closed(ps) ==> r <= ps.Keys
  {
    Hop(ps, List(ps, p, Siblings), Children)
  }

  /** `get_cousins`: the children of the person's aunts and uncles. */
  function Cousins(ps: People, p: nat): (r: set<nat>)
    ensures !HasList(ClassOf(ps, p), Parents) ==> r == {}
    ensures Closed(ps) ==> r <= ps.Keys
    ensures forall c :: c in r <==> exists a :: a in AuntsUncles(ps, p) && Has(ps, Children, a, c)
    ensures forall c :: c in r <==>
      exists q, a :: Has(ps, Parents, p, q) && Has(ps, Siblings, q, a) && Has(ps, Children, a, c)
  {
    Hop(ps, AuntsUncles(ps, p), Children)
  }

  /** `get_immediate_family`: partners, parents, children and siblings. */
  function ImmediateFamily(ps: People, p: nat): (r: set<nat>)
    ensures forall x :: x in r <==> exists k :: Has(ps, k, p, x)
  {
    List(ps, p, Partners) + List(ps, p, Parents) + List(ps, p, Children) + List(ps, p, Siblings)
  }

  /** Everyone the five derived queries reach. */
  function Derived(ps: People, p: nat): set<nat> {
    Grandparents(ps, p) + Grandchildren(ps, p) + AuntsUncles(ps, p) + NiecesNephews(ps, p) + Cousins(ps, p)
  }

  /** The set `display_extended` prints: the derived relatives that are not
      immediate family. The person itself is not taken out. */
  function ExtendedFamily(ps: People, p: nat): (r: set<nat>)
    ensures r !! ImmediateFamily(ps, p)
    ensures r + ImmediateFamily(ps, p) == Derived(ps, p) + ImmediateFamily(ps, p)
    ensures Closed(ps) ==> r <= ps.Keys
  {
    Derived(ps, p) - ImmediateFamily(ps, p)
  }

  /** The class of a member, or Partner (which owns only a partners list)
      for an id that names nobody: both make the parent-side queries empty. */
  function ClassOf(ps: People, p: nat): (v: Variant)
    ensures forall k :: Has(ps, k, p, p) ==> HasList(v, k)
    ensures p !in ps ==> forall k :: List(ps, p, k) == {} || k == Partners
  {
    if p in ps then ps[p].variant else Partner
  }

  /** On a consistent family, `g` is a grandparent of `p` exactly when `p`
      is a grandchild of `g`. */
  lemma GrandparentsMirrorGrandchildren(ps: People, p: nat, g: nat)
    requires Valid(ps)
    ensures g in Grandparents(ps, p) <==> p in Grandchildren(ps, g)
  {
    if g in Grandparents(ps, p) {
      var q :| q in List(ps, p, Parents) && Has(ps, Parents, q, g);
      Mirror(ps, Parents, p, q);
      Mirror(ps, Parents, q, g);
      assert q in List(ps, g, Children);
    }
    if p in Grandchildren(ps, g) {
      var q :| q in List(ps, g, Children) && Has(ps, Children, q, p);
      Mirror(ps, Children, g, q);
      Mirror(ps, Children, q, p);
      assert q in List(ps, p, Parents);
    }
  }

  /** On a consistent family, `a` is an aunt or uncle of `p` exactly when
      `p` is a niece or nephew of `a`. */
  lemma AuntsUnclesMirrorNiecesNephews(ps: People, p: nat, a: nat)
    requires Valid(ps)
    ensures a in AuntsUncles(ps, p) <==> p in NiecesNephews(ps, a)
  {
    if a in AuntsUncles(ps, p) {
      var q :| q in List(ps, p, Parents) && Has(ps, Siblings, q, a);
      Mirror(ps, Parents, p, q);
      Mirror(ps, Siblings, q, a);
      assert q in List(ps, a, Siblings);
    }
    if p in NiecesNephews(ps, a) {
      var q :| q in List(ps, a, Siblings) && Has(ps, Children, q, p);
      Mirror(ps, Siblings, a, q);
      Mirror(ps, Children, q, p);
      assert q in List(ps, p, Parents);
    }
  }

  /** On a consistent family, being cousins is mutual. */
  lemma CousinsSymmetric(ps: People, p: nat, c: nat)
    requires Valid(ps)
    ensures c in Cousins(ps, p) ==> p in Cousins(ps, c)
  {
    if c in Cousins(ps, p) {
      var a :| a in AuntsUncles(ps, p) && Has(ps, Children, a, c);
      var q :| q in List(ps, p, Parents) && Has(ps, Siblings, q, a);
      Mirror(ps, Parents, p, q);
      Mirror(ps, Siblings, q, a);
      Mirror(ps, Children, a, c);
      assert a in List(ps, c, Parents);
      assert q in AuntsUncles(ps, c);
    }
  }

  /** On a consistent family, immediate family is mutual. */
  lemma ImmediateSymmetric(ps: People, p: nat, x: nat)
    requires Valid(ps)
    ensures x in ImmediateFamily(ps, p) <==> p in ImmediateFamily(ps, x)
  {
    if x in ImmediateFamily(ps, p) {
      var k :| Has(ps, k, p, x);
      Mirror(ps, k, p, x);
    }
    if p in ImmediateFamily(ps, x) {
      var k :| Has(ps, k, x, p);
      Mirror(ps, k, x, p);
    }
  }

  /** On a consistent family, extended family is mutual too: each derived
      query has a mirror among the five. */
  lemma ExtendedSymmetric(ps: People, p: nat, x: nat)
    requires Valid(ps)
    ensures x in ExtendedFamily(ps, p) ==> p in ExtendedFamily(ps, x)
  {
    if x in ExtendedFamily(ps, p) {
      GrandparentsMirrorGrandchildren(ps, p, x);
      GrandparentsMirrorGrandchildren(ps, x, p);
      AuntsUnclesMirrorNiecesNephews(ps, p, x);
      AuntsUnclesMirrorNiecesNephews(ps, x, p);
      CousinsSymmetric(ps, p, x);
      ImmediateSymmetric(ps, p, x);
      assert p in Derived(ps, x);
    }
  }

  /** A family where two siblings, 1 and 2, are both parents of 3. */
  function SiblingParents(): (ps: People)
    ensures ps.Keys == {1, 2, 3}
  {
    map[
      1 := Person(1, ParentChild, "A", "", true, "", Outcomes.None, {3}, {}, {}, {2}),
      2 := Person(2, ParentChild, "B", "", true, "", Outcomes.None, {3}, {}, {}, {1}),
      3 := Person(3, Child, "C", "", true, "", Outcomes.None, {}, {}, {1, 2}, {})]
  }

  lemma SiblingParentsValid()
    ensures Valid(SiblingParents())
  {
    var ps := SiblingParents();
    forall k, a, b | Has(ps, k, a, b)
      ensures b in ps && Has(ps, Reciprocal(k), b, a)
    {
      assert a == 1 || a == 2 || a == 3;
    }
  }

  /** 3 is the child of its own aunt 2, so it is listed among its own
      cousins and lands in its own extended family. */
  lemma SelfInExtendedFamily()
    ensures Valid(SiblingParents()) && 3 in ExtendedFamily(SiblingParents(), 3)
  {
    var ps := SiblingParents();
    SiblingParentsValid();
    assert Has(ps, Parents, 3, 1) && Has(ps, Siblings, 1, 2);
    assert 2 in AuntsUncles(ps, 3);
    assert Has(ps, Children, 2, 3);
    assert 3 in Cousins(ps, 3);
    assert forall k :: !Has(ps, k, 3, 3);
  }
}
