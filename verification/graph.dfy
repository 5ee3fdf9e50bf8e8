/** The family as a graph: a map from id to person record.

    The source keeps object references in its lists and, when it replaces an
    object, rewrites every reference to it. Here a list holds ids, so a
    reference is only ever an id and stays valid while the id does.
 */
module Graph {
  import opened Outcomes
  import opened Persons

  type People = map<nat, Person>

  /** `b` is in the list `k` that `a` owns: `b in getattr(a, k, [])`. */
  predicate Has(ps: People, k: Kind, a: nat, b: nat) {
    a in ps && HasList(ps[a].variant, k) && b in Field(ps[a], k)
  }

  /** `getattr(a, k, [])` as a set. */
  function List(ps: People, a: nat, k: Kind): (r: set<nat>)
    ensures forall b :: b in r <==> Has(ps, k, a, b)
  {
    if a in ps && HasList(ps[a].variant, k) then Field(ps[a], k) else {}
  }

  /** Both ends own the lists an edge `a -k-> b` needs. */
  predicate Fits(ps: People, k: Kind, a: nat, b: nat)
    requires a in ps && b in ps
  {
    HasList(ps[a].variant, k) && HasList(ps[b].variant, Reciprocal(k))
  }

  predicate IdsMatch(ps: People) {
    forall a | a in ps :: ps[a].id == a
  }

  /** Lists a class does not create stay empty. */
  predicate ListsOwned(ps: People) {
    forall a, k | a in ps && !HasList(ps[a].variant, k) :: Field(ps[a], k) == {}
  }

  /** Every listed id names a member. */
  ghost predicate Closed(ps: People) {
    forall k, a, b | Has(ps, k, a, b) :: b in ps
  }

  /** Every edge is recorded on both sides. */
  ghost predicate Symmetric(ps: People) {
    forall k, a, b | Has(ps, k, a, b) :: Has(ps, Reciprocal(k), b, a)
  }

  /** The back-reference of a recorded edge, one instance of `Symmetric`. */
  lemma Mirror(ps: People, k: Kind, a: nat, b: nat)
    requires Symmetric(ps) && Has(ps, k, a, b)
    ensures Has(ps, Reciprocal(k), b, a) && a in ps && b in ps
  {
  }

  ghost predicate Valid(ps: People) {
    IdsMatch(ps) && ListsOwned(ps) && Closed(ps) && Symmetric(ps)
  }

  /** A person with the edge lists left out. */
  function Node(p: Person): Person {
    p.(children := {}, partners := {}, parents := {}, siblings := {})
  }

  /** Same members, and each member the same apart from its edge lists. */
  predicate SameNodes(ps: People, qs: People) {
    qs.Keys == ps.Keys && forall a | a in ps :: Node(qs[a]) == Node(ps[a])
  }

  ghost predicate SameEdges(ps: People, qs: People) {
    forall k, a, b :: Has(ps, k, a, b) <==> Has(qs, k, a, b)
  }

  /** Two graphs whose members and edges agree are the same graph. */
  lemma Extensionality(ps: People, qs: People)
    requires ListsOwned(ps) && ListsOwned(qs)
    requires SameNodes(ps, qs) && SameEdges(ps, qs)
    ensures ps == qs
  {
    forall a | a in ps
      ensures ps[a] == qs[a]
    {
      forall k
        ensures Field(ps[a], k) == Field(qs[a], k)
      {
        if HasList(ps[a].variant, k) {
          assert forall b :: b in Field(ps[a], k) <==> Has(ps, k, a, b);
          assert forall b :: b in Field(qs[a], k) <==> Has(qs, k, a, b);
        }
      }
      assert Field(ps[a], Children) == Field(qs[a], Children);
      assert Field(ps[a], Partners) == Field(qs[a], Partners);
      assert Field(ps[a], Parents) == Field(qs[a], Parents);
      assert Field(ps[a], Siblings) == Field(qs[a], Siblings);
    }
  }

  /** `qs` is `ps` after adding the edge `a -k-> b`: nothing happens when
      `a` already lists `b`; otherwise exactly the edge and its
      back-reference appear. Members and their other fields are kept. */
  ghost predicate Added(ps: People, qs: People, k: Kind, a: nat, b: nat) {
    && SameNodes(ps, qs)
    && (Has(ps, k, a, b) ==> qs == ps)
    && (!Has(ps, k, a, b) ==>
          forall k', x, y :: Has(qs, k', x, y) <==>
            Has(ps, k', x, y) || (k' == k && x == a && y == b) || (k' == Reciprocal(k) && x == b && y == a))
  }

  /** One side of an add step: `b` joins the list `k` that `a` owns, and
      no other edge or field changes. */
  lemma AddOneSide(ps: People, a: nat, k: Kind, b: nat)
    requires a in ps && HasList(ps[a].variant, k)
    ensures var qs := ps[a := WithField(ps[a], k, Field(ps[a], k) + {b})];
      && SameNodes(ps, qs)
      && (ListsOwned(ps) ==> ListsOwned(qs))
      && forall k', x, y :: Has(qs, k', x, y) <==> Has(ps, k', x, y) || (k' == k && x == a && y == b)
  {
    var qs := ps[a := WithField(ps[a], k, Field(ps[a], k) + {b})];
    assert Node(qs[a]) == Node(ps[a]);
    forall k', x, y
      ensures Has(qs, k', x, y) <==> Has(ps, k', x, y) || (k' == k && x == a && y == b)
    {
      if x != a {
        assert x in qs ==> qs[x] == ps[x];
      }
    }
  }

  /** The source's add step: if `b` is not in `a`'s list `k`, append it
      and append `a` to `b`'s reciprocal list unless it is there already. */
  function Link(ps: People, k: Kind, a: nat, b: nat): (r: People)
    requires a in ps && b in ps && Fits(ps, k, a, b)
    ensures Added(ps, r, k, a, b)
    ensures Has(r, k, a, b)
    ensures ListsOwned(ps) ==> ListsOwned(r)
  {
    if b in Field(ps[a], k) then ps
    else
      var ps1 := ps[a := WithField(ps[a], k, Field(ps[a], k) + {b})];
      AddOneSide(ps, a, k, b);
      assert ps1[b].variant == ps[b].variant by {
        assert Node(ps1[b]) == Node(ps[b]);
      }
      AddOneSide(ps1, b, Reciprocal(k), a);
      ps1[b := WithField(ps1[b], Reciprocal(k), Field(ps1[b], Reciprocal(k)) + {a})]
  }

  /** On a valid graph, linking adds the edge and its back-reference and
      nothing else, and the graph stays valid. */
  lemma LinkValid(ps: People, k: Kind, a: nat, b: nat)
    requires Valid(ps) && a in ps && b in ps && Fits(ps, k, a, b)
    ensures Valid(Link(ps, k, a, b))
    ensures forall k', x, y :: Has(Link(ps, k, a, b), k', x, y) <==>
      Has(ps, k', x, y) || (k' == k && x == a && y == b) || (k' == Reciprocal(k) && x == b && y == a)
  {
    var r := Link(ps, k, a, b);
    if Has(ps, k, a, b) {
      Mirror(ps, k, a, b);
    } else {
      ReciprocalInvolutive();
      SameNodesKeepIds(ps, r);
      forall k', x, y | Has(r, k', x, y)
        ensures y in r && Has(r, Reciprocal(k'), y, x)
      {
        if Has(ps, k', x, y) {
          Mirror(ps, k', x, y);
        }
      }
    }
  }

  /** Ids sit under their own key as long as the members do not change. */
  lemma SameNodesKeepIds(ps: People, qs: People)
    requires IdsMatch(ps) && SameNodes(ps, qs)
    ensures IdsMatch(qs)
  {
    forall x | x in qs
      ensures qs[x].id == x
    {
      assert Node(qs[x]) == Node(ps[x]);
    }
  }

  /** Takes `b` out of `a`'s list `k` when `a` owns that list and `b` is in
      it; the other lists and members are untouched. */
  function Drop(ps: People, k: Kind, a: nat, b: nat): (r: People)
    requires a in ps
    ensures SameNodes(ps, r)
    ensures forall k', x, y :: Has(r, k', x, y) <==> Has(ps, k', x, y) && !(k' == k && x == a && y == b)
    ensures ListsOwned(ps) ==> ListsOwned(r)
  {
    if HasList(ps[a].variant, k) && b in Field(ps[a], k) then
      ps[a := WithField(ps[a], k, Field(ps[a], k) - {b})]
    else ps
  }

  /** `qs` is `ps` with the edge `a -k-> b` and its back-reference gone
      and nothing else changed. */
  ghost predicate Removed(ps: People, qs: People, k: Kind, a: nat, b: nat) {
    && SameNodes(ps, qs)
    && forall k', x, y :: Has(qs, k', x, y) <==>
         Has(ps, k', x, y) && !(k' == k && x == a && y == b) && !(k' == Reciprocal(k) && x == b && y == a)
  }

  /** Removing an edge together with its back-reference keeps a graph valid. */
  lemma RemovedKeepsValid(ps: People, qs: People, k: Kind, a: nat, b: nat)
    requires Valid(ps) && ListsOwned(qs) && Removed(ps, qs, k, a, b)
    ensures Valid(qs)
  {
    forall x | x in qs
      ensures qs[x].id == x
    {
      assert Node(qs[x]) == Node(ps[x]);
    }
  }
}
