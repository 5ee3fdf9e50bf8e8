/** The family tree's registry: creating people, establishing and removing
    relationships, and removing people.

    The family is one collection: the list of member ids in family order,
    the people they name, and the id counter. Promotion substitutes the
    hybrid for the original under the same id, so the member list keeps its
    order and its ids.
 */
module Registry {
  import opened Outcomes
  import opened Persons
  import opened Graph
  import Roles

  datatype Tree = Tree(members: seq<nat>, people: People, nextId: nat)

  predicate Distinct(s: seq<nat>) {
    forall i, j | 0 <= i < j < |s| :: s[i] != s[j]
  }

  ghost predicate Valid(t: Tree) {
    && Graph.Valid(t.people)
    && Distinct(t.members)
    && (forall x :: x in t.members <==> x in t.people)
    && (forall x | x in t.people :: x < t.nextId)
  }

  /** A new person of class `v` joins the family: the constructor takes the
      counter value as its id and advances the counter. */
  function Create(t: Tree, v: Variant, name: string, dob: string, isAlive: bool, ethnicity: string): (r: Tree)
    ensures r.nextId == t.nextId + 1
    ensures r.members == t.members + [t.nextId]
    ensures r.people.Keys == t.people.Keys + {t.nextId}
    ensures r.people[t.nextId].id == t.nextId && r.people[t.nextId].variant == v
    ensures forall x | x in t.people && x != t.nextId :: r.people[x] == t.people[x]
    ensures forall k, x :: !Has(r.people, k, t.nextId, x)
  {
    var id := t.nextId;
    Tree(t.members + [id], t.people[id := Fresh(id, v, name, dob, isAlive, ethnicity)], id + 1)
  }

  /** In a consistent family the counter is past every id, so the new id is
      fresh: the family grows by one member, keeps every edge and stays
      consistent. */
  lemma CreateKeepsValid(t: Tree, v: Variant, name: string, dob: string, isAlive: bool, ethnicity: string)
    requires Valid(t)
    ensures var r := Create(t, v, name, dob, isAlive, ethnicity);
      && t.nextId !in t.people
      && |r.people| == |t.people| + 1
      && SameEdges(t.people, r.people)
      && Valid(r)
  {
    var r := Create(t, v, name, dob, isAlive, ethnicity);
    var id := t.nextId;
    assert id !in t.people && id !in t.members;
    Isolated(t.people, Fresh(id, v, name, dob, isAlive, ethnicity));
  }

  /** A person with no edges under an unused id keeps a graph valid and
      adds no edge. */
  lemma Isolated(ps: People, p: Person)
    requires Graph.Valid(ps) && p.id !in ps
    requires forall k :: Field(p, k) == {}
    ensures SameEdges(ps, ps[p.id := p]) && Graph.Valid(ps[p.id := p])
  {
    var qs := ps[p.id := p];
    forall k, a, b
      ensures Has(qs, k, a, b) <==> Has(ps, k, a, b)
    {
      if a != p.id && a in ps {
        assert qs[a] == ps[a];
      }
    }
    assert IdsMatch(qs) by {
      forall a | a in qs ensures qs[a].id == a {
        if a != p.id {
          assert qs[a] == ps[a];
        }
      }
    }
    assert ListsOwned(qs) by {
      forall a, k | a in qs && !HasList(qs[a].variant, k) ensures Field(qs[a], k) == {} {
        if a != p.id {
          assert qs[a] == ps[a];
        }
      }
    }
  }

  /** `convert(person, ParentChild)` and its substitution into the family:
      the new object's constructor consumes one counter value. */
  function Promote(t: Tree, id: nat): (r: Tree)
    requires id in t.people
    ensures r.members == t.members && r.nextId == t.nextId + 1
    ensures r.people == Roles.Convert(t.people, id)
  {
    Tree(t.members, Roles.Convert(t.people, id), t.nextId + 1)
  }

  /** The handler of a failed first attempt: each side that is not yet a
      ParentChild is promoted, judged on the classes the two had before. */
  function PromoteBoth(t: Tree, a: nat, b: nat): (r: Tree)
    requires a in t.people && b in t.people
    ensures r.members == t.members && r.people.Keys == t.people.Keys
    ensures r.people[a].variant == ParentChild && r.people[b].variant == ParentChild
    ensures SameEdges(t.people, r.people)
    ensures forall x | x in t.people && x != a && x != b :: r.people[x] == t.people[x]
    ensures r.nextId == t.nextId + (if t.people[a].variant != ParentChild then 1 else 0)
                                 + (if t.people[b].variant != ParentChild then 1 else 0)
    ensures Valid(t) ==> Valid(r)
  {
    var t1 := PromoteWhen(t, a, t.people[a].variant != ParentChild);
    PromoteWhen(t1, b, t.people[b].variant != ParentChild)
  }

  /** One side of the handler: `convert` when `c` holds, nothing otherwise. */
  function PromoteWhen(t: Tree, id: nat, c: bool): (r: Tree)
    requires id in t.people
    ensures r.members == t.members && r.people.Keys == t.people.Keys
    ensures c ==> r.people[id].variant == ParentChild
    ensures !c ==> r == t
    ensures SameEdges(t.people, r.people)
    ensures forall x | x in t.people && x != id :: r.people[x] == t.people[x]
    ensures r.nextId == t.nextId + (if c then 1 else 0)
    ensures Valid(t) ==> Valid(r)
  {
    if c then
      assert Graph.Valid(t.people) ==> Graph.Valid(Promote(t, id).people) by {
        if Graph.Valid(t.people) { Roles.ConvertKeepsValid(t.people, id); }
      }
      Promote(t, id)
    else t
  }

  /** The four choices of the relationship menu. */
  datatype Relation =
    | FirstIsParent    // 1) per1 is the parent of per2
    | SecondIsParent   // 2) per2 is the parent of per1
    | AreSiblings      // 3) per1 and per2 are siblings
    | ArePartners      // 4) per1 and per2 are partners

  /** The edge a relation asks for, as (list, owner, listed). */
  function Wanted(a: nat, b: nat, rel: Relation): (Kind, nat, nat) {
    match rel
    case FirstIsParent => (Children, a, b)
    case SecondIsParent => (Children, b, a)
    case AreSiblings => (Siblings, a, b)
    case ArePartners => (Partners, a, b)
  }

  /** The relation holds between `a` and `b`. */
  ghost predicate Related(ps: People, a: nat, b: nat, rel: Relation) {
    var (k, x, y) := Wanted(a, b, rel);
    Has(ps, k, x, y)
  }

  /** The first attempt as written: menu choices 1 and 2 call `add_person`,
      whose meaning depends on the receiver's class. */
  function AttemptAsWritten(ps: People, a: nat, b: nat, rel: Relation): Result<People>
    requires a in ps && b in ps
  {
    match rel
    case FirstIsParent => Roles.Call(ps, Roles.AddPerson, a, b)
    case SecondIsParent => Roles.Call(ps, Roles.AddPerson, b, a)
    case AreSiblings => Roles.Call(ps, Roles.AddSibling, a, b)
    case ArePartners => Roles.Call(ps, Roles.AddPartner, a, b)
  }

  /** `establish_relationship` as written. A `TypeError` promotes both sides
      that are not yet hybrids and tries again; any other error escapes. */
  function EstablishAsWritten(t: Tree, a: nat, b: nat, rel: Relation): (r: Result<Tree>)
    requires a in t.people && b in t.people
    ensures r.Err? <==> (rel == ArePartners && !IsParent(t.people[a].variant)) ||
                        (rel == AreSiblings && !IsChild(t.people[a].variant))
    ensures r.Err? ==> r.error == MissingMethod
    ensures r.Ok? ==> r.value.members == t.members && r.value.people.Keys == t.people.Keys
    ensures r.Ok? && Valid(t) ==> Valid(r.value)
    ensures var (op, x, y) := AttemptCall(t.people, a, b, rel);
      AttemptAsWritten(t.people, a, b, rel).Ok? ==>
        && r.Ok? && r.value.nextId == t.nextId
        && Added(t.people, r.value.people, Roles.EdgeOf(t.people, op, x, y), x, y)
    ensures var (k, x, y) := Wanted(a, b, rel);
      AttemptAsWritten(t.people, a, b, rel) == Err(TypeError) ==>
        && r.Ok?
        && r.value.people[a].variant == ParentChild && r.value.people[b].variant == ParentChild
        && r.value.nextId == PromoteBoth(t, a, b).nextId
        && Added(PromoteBoth(t, a, b).people, r.value.people, k, x, y)
  {
    AttemptErrors(t.people, a, b, rel);
    match AttemptAsWritten(t.people, a, b, rel)
    case Ok(_) => Ok(Attempted(t, a, b, rel))
    case Err(e) => if e == TypeError then Ok(Retried(t, a, b, rel)) else Err(e)
  }

  /** The first attempt fails with a missing method exactly when choice 3
      or 4 asks `a` for a method its class lacks; any other failure is a
      `TypeError`. */
  lemma AttemptErrors(ps: People, a: nat, b: nat, rel: Relation)
    requires a in ps && b in ps
    ensures var r := AttemptAsWritten(ps, a, b, rel);
      && (r.Err? ==> r.error == TypeError || r.error == MissingMethod)
      && (r == Err(MissingMethod) <==> (rel == ArePartners && !IsParent(ps[a].variant)) ||
                                       (rel == AreSiblings && !IsChild(ps[a].variant)))
  {
    match rel
    case FirstIsParent =>
    case SecondIsParent =>
    case AreSiblings =>
    case ArePartners =>
  }

  /** The family after a first attempt that succeeded. */
  function Attempted(t: Tree, a: nat, b: nat, rel: Relation): (r: Tree)
    requires a in t.people && b in t.people && AttemptAsWritten(t.people, a, b, rel).Ok?
    ensures r.members == t.members && r.people.Keys == t.people.Keys && r.nextId == t.nextId
    ensures Valid(t) ==> Valid(r)
    ensures var (op, x, y) := AttemptCall(t.people, a, b, rel);
      Added(t.people, r.people, Roles.EdgeOf(t.people, op, x, y), x, y)
  {
    var ps := AttemptAsWritten(t.people, a, b, rel).value;
    assert Valid(t) ==> Graph.Valid(ps) by {
      if Valid(t) { var (k, x, y) := AttemptCall(t.people, a, b, rel); Roles.CallKeepsValid(t.people, k, x, y); }
    }
    t.(people := ps)
  }

  /** The family after the handler: both sides promoted and the same add
      method called again, which cannot refuse two hybrids. */
  function Retried(t: Tree, a: nat, b: nat, rel: Relation): (r: Tree)
    requires a in t.people && b in t.people
    ensures r.members == t.members && r.people.Keys == t.people.Keys
    ensures r.people[a].variant == ParentChild && r.people[b].variant == ParentChild
    ensures Valid(t) ==> Valid(r)
    ensures r.nextId == PromoteBoth(t, a, b).nextId
    ensures var (k, x, y) := Wanted(a, b, rel); Added(PromoteBoth(t, a, b).people, r.people, k, x, y)
  {
    var t2 := PromoteBoth(t, a, b);
    var (op, x, y) := AttemptCall(t2.people, a, b, rel);
    Roles.HybridsAccept(t2.people, op, x, y);
    var ps := AttemptAsWritten(t2.people, a, b, rel).value;
    assert Valid(t) ==> Graph.Valid(ps) by {
      if Valid(t) { Roles.CallKeepsValid(t2.people, op, x, y); }
    }
    assert Node(ps[a]) == Node(t2.people[a]) && Node(ps[b]) == Node(t2.people[b]);
    HybridsGetWanted(t2.people, a, b, rel);
    var (k, x', y') := Wanted(a, b, rel);
    assert Added(t2.people, ps, k, x', y');
    t2.(people := ps)
  }

  /** Between two hybrids the add method each choice calls records exactly
      the edge the choice names. */
  lemma HybridsGetWanted(ps: People, a: nat, b: nat, rel: Relation)
    requires a in ps && b in ps
    requires ps[a].variant == ParentChild && ps[b].variant == ParentChild
    ensures var (op, x, y) := AttemptCall(ps, a, b, rel);
      Wanted(a, b, rel) == (Roles.EdgeOf(ps, op, x, y), x, y)
  {
  }

  /** Which add method the first attempt calls, on whom, with whom. */
  function AttemptCall(ps: People, a: nat, b: nat, rel: Relation): (r: (Roles.Op, nat, nat))
    requires a in ps && b in ps
    ensures (r.1 == a && r.2 == b) || (r.1 == b && r.2 == a)
    ensures r.1 in ps && r.2 in ps
    ensures AttemptAsWritten(ps, a, b, rel) == Roles.Call(ps, r.0, r.1, r.2)
  {
    match rel
    case FirstIsParent => (Roles.AddPerson, a, b)
    case SecondIsParent => (Roles.AddPerson, b, a)
    case AreSiblings => (Roles.AddSibling, a, b)
    case ArePartners => (Roles.AddPartner, a, b)
  }

  /** Both people already hold the roles the relation needs. */
  predicate RolesFit(ps: People, a: nat, b: nat, rel: Relation)
    requires a in ps && b in ps
  {
    var va, vb := ps[a].variant, ps[b].variant;
    match rel
    case FirstIsParent => IsParent(va) && IsChild(vb)
    case SecondIsParent => IsParent(vb) && IsChild(va)
    case AreSiblings => IsChild(va) && IsChild(vb)
    case ArePartners => (IsParent(va) && IsParent(vb)) || (va == Partner && vb == Partner)
  }

  /** Records the relation the menu choice names. */
  function LinkRelation(ps: People, a: nat, b: nat, rel: Relation): (r: People)
    requires a in ps && b in ps && RolesFit(ps, a, b, rel)
    ensures var (k, x, y) := Wanted(a, b, rel); Added(ps, r, k, x, y)
    ensures Related(r, a, b, rel)
  {
    var (k, x, y) := Wanted(a, b, rel);
    Link(ps, k, x, y)
  }

  /** `establish_relationship` as evidently intended: the relation the menu
      choice names is recorded in that orientation; when the two do not
      hold the roles for it, both are promoted first, as the source's
      handler does. It cannot fail. */
  function Establish(t: Tree, a: nat, b: nat, rel: Relation): (r: Tree)
    requires a in t.people && b in t.people
    ensures r.members == t.members && r.people.Keys == t.people.Keys
    ensures Related(r.people, a, b, rel)
    ensures RolesFit(t.people, a, b, rel) ==> r.nextId == t.nextId
    ensures !RolesFit(t.people, a, b, rel) ==>
      r.people[a].variant == ParentChild && r.people[b].variant == ParentChild && r.nextId > t.nextId
    ensures forall x | x in t.people && x != a && x != b :: Node(r.people[x]) == Node(t.people[x])
  {
    var t2 := if RolesFit(t.people, a, b, rel) then t else PromoteBoth(t, a, b);
    t2.(people := LinkRelation(t2.people, a, b, rel))
  }

  /** The intended version keeps the family valid and adds exactly the
      requested edge and its back-reference. */
  lemma EstablishKeepsValid(t: Tree, a: nat, b: nat, rel: Relation)
    requires Valid(t) && a in t.people && b in t.people
    ensures Valid(Establish(t, a, b, rel))
    ensures var (k, x, y) := Wanted(a, b, rel);
      forall k', u, w :: Has(Establish(t, a, b, rel).people, k', u, w) <==>
        Has(t.people, k', u, w) || (k' == k && u == x && w == y) || (k' == Reciprocal(k) && u == y && w == x)
  {
    var t2 := if RolesFit(t.people, a, b, rel) then t else PromoteBoth(t, a, b);
    assert Valid(t2) && RolesFit(t2.people, a, b, rel);
    FitsWanted(t2.people, a, b, rel);
    var (k, x, y) := Wanted(a, b, rel);
    LinkValid(t2.people, k, x, y);
    assert Establish(t, a, b, rel) == t2.(people := Link(t2.people, k, x, y));
  }

  /** When the roles fit, both ends own the lists the wanted edge needs. */
  lemma FitsWanted(ps: People, a: nat, b: nat, rel: Relation)
    requires a in ps && b in ps && RolesFit(ps, a, b, rel)
    ensures var (k, x, y) := Wanted(a, b, rel); x in ps && y in ps && Fits(ps, k, x, y)
  {
  }

  /** Where the roles already fit and the first person is not a bare
      Partner, the source and the intended version agree. */
  lemma EstablishAgreesWhenRolesFit(t: Tree, a: nat, b: nat, rel: Relation)
    requires a in t.people && b in t.people
    requires RolesFit(t.people, a, b, rel) && t.people[a].variant != Partner
    ensures EstablishAsWritten(t, a, b, rel) == Ok(Establish(t, a, b, rel))
  {
    var (op, x, y) := AttemptCall(t.people, a, b, rel);
    assert AttemptAsWritten(t.people, a, b, rel) == Ok(LinkRelation(t.people, a, b, rel)) by {
      match rel
      case FirstIsParent =>
      case SecondIsParent =>
      case AreSiblings =>
      case ArePartners =>
    }
  }

  /** As written, asking that a Child be recorded as the parent of a bare
      Parent records the opposite: the Parent becomes the Child's parent. */
  lemma AsWrittenReversesParentage(t: Tree, a: nat, b: nat)
    requires Valid(t) && a in t.people && b in t.people
    requires t.people[a].variant == Child && t.people[b].variant == Parent
    ensures EstablishAsWritten(t, a, b, FirstIsParent).Ok?
    ensures var u := EstablishAsWritten(t, a, b, FirstIsParent).value;
      Related(u.people, a, b, SecondIsParent) && !Related(u.people, a, b, FirstIsParent)
    ensures Related(Establish(t, a, b, FirstIsParent).people, a, b, FirstIsParent)
  {
    Roles.CallKeepsValid(t.people, Roles.AddPerson, a, b);
  }

  /** As written, two Children cannot be made partners, nor two bare
      Parents siblings: the first has no such method, and the resulting
      AttributeError is not the error the handler catches. */
  lemma AsWrittenMissingMethod(t: Tree, a: nat, b: nat)
    requires a in t.people && b in t.people
    ensures t.people[a].variant == Child ==> EstablishAsWritten(t, a, b, ArePartners) == Err(MissingMethod)
    ensures t.people[a].variant == Parent ==> EstablishAsWritten(t, a, b, AreSiblings) == Err(MissingMethod)
    ensures Related(Establish(t, a, b, ArePartners).people, a, b, ArePartners)
    ensures Related(Establish(t, a, b, AreSiblings).people, a, b, AreSiblings)
  {
  }

  /** The position of each relation in the list the source builds. */
  function Rank(rel: Relation): nat {
    match rel
    case FirstIsParent => 0
    case SecondIsParent => 1
    case AreSiblings => 2
    case ArePartners => 3
  }

  /** The relations of `r` appear in the order of the menu. */
  predicate InMenuOrder(r: seq<Relation>) {
    forall i, j | 0 <= i < j < |r| :: Rank(r[i]) < Rank(r[j])
  }

  /** `r` followed by `rel` when `b` holds: one step of building the list. */
  function Then(r: seq<Relation>, b: bool, rel: Relation): (s: seq<Relation>)
    requires InMenuOrder(r) && forall x | x in r :: Rank(x) < Rank(rel)
    ensures InMenuOrder(s)
    ensures forall x :: x in s <==> x in r || (b && x == rel)
    ensures forall x | x in s :: Rank(x) <= Rank(rel)
  {
    r + (if b then [rel] else [])
  }

  /** `get_existing_relationships`: the relations that hold between `a`
      and `b`, in the fixed order of the menu. */
  function ExistingRelationships(ps: People, a: nat, b: nat): (r: seq<Relation>)
    ensures FirstIsParent in r <==> Has(ps, Children, a, b)
    ensures SecondIsParent in r <==> Has(ps, Children, b, a)
    ensures AreSiblings in r <==> Has(ps, Siblings, a, b)
    ensures ArePartners in r <==> Has(ps, Partners, a, b)
    ensures InMenuOrder(r)
  {
    var r1 := Then([], Has(ps, Children, a, b), FirstIsParent);
    var r2 := Then(r1, Has(ps, Children, b, a), SecondIsParent);
    var r3 := Then(r2, Has(ps, Siblings, a, b), AreSiblings);
    Then(r3, Has(ps, Partners, a, b), ArePartners)
  }

  /** `p` lists `c` as a child and `c` owns a parents list without `p`:
      the unguarded `remove` of the back-reference would raise. */
  predicate MissingBackReference(ps: People, p: nat, c: nat)
    requires c in ps
  {
    Has(ps, Children, p, c) && HasList(ps[c].variant, Parents) && !Has(ps, Parents, c, p)
  }

  /** `__remove_parent_child_relationship`: removes `a` as parent of `b`
      if that holds, and otherwise `b` as parent of `a`; one orientation only.
      The child's side is removed without a membership test, so a missing
      back-reference is a `ValueError` that nothing catches. */
  function RemoveParentChild(ps: People, a: nat, b: nat): (r: Result<People>)
    requires a in ps && b in ps
    ensures r.Err? <==> MissingBackReference(ps, a, b) || (!Has(ps, Children, a, b) && MissingBackReference(ps, b, a))
    ensures r.Err? ==> r.error == ValueError
    ensures Symmetric(ps) ==> r.Ok?
    ensures r.Ok? && Has(ps, Children, a, b) ==> Removed(ps, r.value, Children, a, b)
    ensures r.Ok? && !Has(ps, Children, a, b) && Has(ps, Children, b, a) ==> Removed(ps, r.value, Children, b, a)
    ensures !Has(ps, Children, a, b) && !Has(ps, Children, b, a) ==> r == Ok(ps)
    ensures r.Ok? && ListsOwned(ps) ==> ListsOwned(r.value)
  {
    assert Symmetric(ps) ==> !MissingBackReference(ps, a, b) && !MissingBackReference(ps, b, a) by {
      if Symmetric(ps) {
        if Has(ps, Children, a, b) { Mirror(ps, Children, a, b); }
        if Has(ps, Children, b, a) { Mirror(ps, Children, b, a); }
      }
    }
    if Has(ps, Children, a, b) then
      if MissingBackReference(ps, a, b) then Err(ValueError)
      else Ok(Drop(Drop(ps, Children, a, b), Parents, b, a))
    else if Has(ps, Children, b, a) then
      if MissingBackReference(ps, b, a) then Err(ValueError)
      else Ok(Drop(Drop(ps, Children, b, a), Parents, a, b))
    else Ok(ps)
  }

  /** A Parent listing a Child whose parents list lacks it: removing the
      relation raises instead of succeeding. */
  lemma RemoveParentChildRaises()
    ensures var ps := map[
        1 := Fresh(1, Parent, "P", "", true, "").(children := {2}),
        2 := Fresh(2, Child, "C", "", true, "")];
      && RemoveParentChild(ps, 1, 2) == Err(ValueError)
      && RemoveRelationship(ps, 1, 2, FirstIsParent) == Err(ValueError)
  {
    var ps := map[
        1 := Fresh(1, Parent, "P", "", true, "").(children := {2}),
        2 := Fresh(2, Child, "C", "", true, "")];
    assert Has(ps, Children, 1, 2) && !Has(ps, Parents, 2, 1);
  }

  /** `__remove_sibling_relationship`: both directions, each guarded. */
  function RemoveSibling(ps: People, a: nat, b: nat): (r: People)
    requires a in ps && b in ps
    ensures Removed(ps, r, Siblings, a, b)
    ensures ListsOwned(ps) ==> ListsOwned(r)
  {
    Drop(Drop(ps, Siblings, a, b), Siblings, b, a)
  }

  /** `__remove_partner_relationship`: both directions, each guarded. */
  function RemovePartner(ps: People, a: nat, b: nat): (r: People)
    requires a in ps && b in ps
    ensures Removed(ps, r, Partners, a, b)
    ensures ListsOwned(ps) ==> ListsOwned(r)
  {
    Drop(Drop(ps, Partners, a, b), Partners, b, a)
  }

  /** `remove_relationship` with the menu choice `choice` already made:
      the choice is one of the listed relations, as the prompt insists. Only
      removing a parent-child relation can raise. */
  function RemoveRelationship(ps: People, a: nat, b: nat, choice: Relation): (r: Result<People>)
    requires a in ps && b in ps
    requires ExistingRelationships(ps, a, b) == [] || choice in ExistingRelationships(ps, a, b)
    ensures ExistingRelationships(ps, a, b) == [] ==> r == Err(NoRelationship)
    ensures r.Err? && ExistingRelationships(ps, a, b) != [] ==>
      r.error == ValueError && (choice == FirstIsParent || choice == SecondIsParent)
    ensures Symmetric(ps) ==> (r.Err? <==> ExistingRelationships(ps, a, b) == [])
    ensures r.Ok? && choice == AreSiblings ==> Removed(ps, r.value, Siblings, a, b)
    ensures r.Ok? && choice == ArePartners ==> Removed(ps, r.value, Partners, a, b)
    ensures r.Ok? && choice == FirstIsParent ==> Removed(ps, r.value, Children, a, b)
    ensures r.Ok? && choice == SecondIsParent && !Has(ps, Children, a, b) ==> Removed(ps, r.value, Children, b, a)
    ensures r.Ok? && choice == SecondIsParent && Has(ps, Children, a, b) ==> Removed(ps, r.value, Children, a, b)
  {
    if ExistingRelationships(ps, a, b) == [] then Err(NoRelationship)
    else
      match choice
      case FirstIsParent => RemoveParentChild(ps, a, b)
      case SecondIsParent => RemoveParentChild(ps, a, b)
      case AreSiblings => Ok(RemoveSibling(ps, a, b))
      case ArePartners => Ok(RemovePartner(ps, a, b))
  }

  /** The lists `remove_all_relationships` walks: the first class in its
      table that the person is an instance of decides, and a ParentChild is
      an instance of Parent. */
  function WalkedLists(v: Variant): (r: seq<Kind>)
    ensures Children !in r
    ensures forall k | k != Children && HasList(v, k) :: k in r
  {
    match v
    case Parent => [Partners, Parents, Siblings]
    case Child => [Parents, Siblings]
    case Partner => [Partners]
    case ParentChild => [Partners, Parents, Siblings]
  }

  /** The first class in the table that the person is an instance of
      decides, and a hybrid is an instance of Parent: it walks Parent's
      lists, not its own entry, which names children too. */
  lemma HybridWalkedAsParent()
    ensures WalkedLists(ParentChild) == WalkedLists(Parent)
    ensures Children !in WalkedLists(ParentChild) && HasList(ParentChild, Children)
  {
  }

  /** The menu choice that removes an edge of list `k` seen from its owner. */
  function ChoiceFor(k: Kind): Relation
    requires k != Children
  {
    match k
    case Partners => ArePartners
    case Parents => SecondIsParent
    case Siblings => AreSiblings
  }

  /** One pass of `remove_all_relationships`: for each id in a copy of the
      person's list `k`, `remove_relationship(person, related)` with the
      choice that names that list. */
  method DetachList(ps: People, id: nat, k: Kind) returns (r: People)
    requires Graph.Valid(ps) && id in ps && k != Children && List(ps, id, Children) == {}
    ensures Graph.Valid(r) && SameNodes(ps, r)
    ensures forall x :: !Has(r, k, id, x)
    ensures forall k', x, y | !(k' == k && x == id) && !(k' == Reciprocal(k) && y == id) ::
      Has(r, k', x, y) <==> Has(ps, k', x, y)
    ensures forall k', x, y :: Has(r, k', x, y) ==> Has(ps, k', x, y)
  {
    var rest := List(ps, id, k);
    r := ps;
    while rest != {}
      invariant Detaching(ps, r, id, k, rest)
      decreases rest
    {
      var x :| x in rest;
      var next := DetachOne(r, id, k, x);
      DetachingStep(ps, r, next, id, k, x, rest);
      r := next;
      rest := rest - {x};
    }
  }

  /** Partway through a pass over list `k`: the edges of `k` still to go
      are exactly `rest`, and every edge left is one the family had. */
  ghost predicate Detaching(ps: People, r: People, id: nat, k: Kind, rest: set<nat>) {
    && Graph.Valid(r) && SameNodes(ps, r)
    && (forall x :: Has(r, k, id, x) <==> x in rest)
    && (forall k', x, y | !(k' == k && x == id) && !(k' == Reciprocal(k) && y == id) ::
          Has(r, k', x, y) <==> Has(ps, k', x, y))
    && (forall k', x, y :: Has(r, k', x, y) ==> Has(ps, k', x, y))
  }

  /** One `remove_relationship(person, related)` of the pass: the choice
      made for list `k` takes out exactly that edge and its back-reference. */
  function DetachOne(ps: People, id: nat, k: Kind, x: nat): (r: People)
    requires Graph.Valid(ps) && id in ps && k != Children && List(ps, id, Children) == {}
    requires Has(ps, k, id, x)
    ensures Removed(ps, r, k, id, x) && Graph.Valid(r)
  {
    Mirror(ps, k, id, x);
    assert !Has(ps, Children, id, x);
    var next := RemoveRelationship(ps, id, x, ChoiceFor(k));
    assert Removed(ps, next.value, k, id, x);
    RemovedKeepsValid(ps, next.value, k, id, x);
    next.value
  }

  /** Taking out the edge to `x` moves the pass one id further. */
  lemma DetachingStep(ps: People, r: People, next: People, id: nat, k: Kind, x: nat, rest: set<nat>)
    requires Detaching(ps, r, id, k, rest) && x in rest
    requires Removed(r, next, k, id, x) && Graph.Valid(next)
    ensures Detaching(ps, next, id, k, rest - {x})
  {
  }

  /** `remove_all_relationships`, run only on a person without children. */
  method RemoveAllRelationships(ps: People, id: nat) returns (r: People)
    requires Graph.Valid(ps) && id in ps && List(ps, id, Children) == {}
    ensures Graph.Valid(r) && SameNodes(ps, r)
    ensures forall k, x :: !Has(r, k, id, x) && !Has(r, k, x, id)
    ensures forall k, x, y | x != id && y != id :: Has(r, k, x, y) <==> Has(ps, k, x, y)
  {
    var walk := WalkedLists(ps[id].variant);
    r := ps;
    var i := 0;
    while i < |walk|
      invariant 0 <= i <= |walk|
      invariant Graph.Valid(r) && SameNodes(ps, r)
      invariant forall j, x | 0 <= j < i :: !Has(r, walk[j], id, x)
      invariant forall k, x, y | x != id && y != id :: Has(r, k, x, y) <==> Has(ps, k, x, y)
      invariant forall k, x, y :: Has(r, k, x, y) ==> Has(ps, k, x, y)
    {
      r := DetachList(r, id, walk[i]);
      i := i + 1;
    }
    assert Node(r[id]) == Node(ps[id]);
    forall k, x
      ensures !Has(r, k, id, x)
    {
      if k != Children && HasList(ps[id].variant, k) {
        var j :| 0 <= j < |walk| && walk[j] == k;
      }
    }
    forall k, x
      ensures !Has(r, k, x, id)
    {
      assert !Has(r, Reciprocal(k), id, x);
    }
  }

  /** Once nobody lists `id` and `id` lists nobody, taking it out of the
      map keeps the graph valid and every other edge as it was. */
  lemma DetachedRemoval(ps: People, id: nat)
    requires Graph.Valid(ps) && id in ps
    requires forall k, x :: !Has(ps, k, id, x) && !Has(ps, k, x, id)
    ensures Graph.Valid(ps - {id})
    ensures (ps - {id}).Keys == ps.Keys - {id} && |ps - {id}| == |ps| - 1
    ensures forall k, x, y :: Has(ps - {id}, k, x, y) <==> Has(ps, k, x, y)
  {
    var rest := ps - {id};
    assert rest.Keys == ps.Keys - {id};
    forall k, x, y
      ensures Has(rest, k, x, y) <==> Has(ps, k, x, y)
    {
      if x != id && x in ps {
        assert rest[x] == ps[x];
      }
    }
  }

  /** `list.remove`: the list without the first occurrence of `x`. */
  function RemoveFirst(s: seq<nat>, x: nat): (r: seq<nat>)
    ensures x in s ==> |r| == |s| - 1
    ensures x !in s ==> r == s
    ensures forall y | y != x :: y in r <==> y in s
    ensures Distinct(s) ==> Distinct(r) && x !in r
  {
    if s == [] then []
    else if s[0] == x then s[1..]
    else
      var tail := RemoveFirst(s[1..], x);
      assert Distinct(s) ==> Distinct(s[1..]) && s[0] !in s[1..];
      [s[0]] + tail
  }

  /** Taking a member out of the map leaves every other member as it was. */
  lemma RemovalKeepsNodes(ps: People, qs: People, id: nat)
    requires SameNodes(ps, qs) && id in qs
    ensures (qs - {id}).Keys == ps.Keys - {id}
    ensures forall x | x in qs - {id} :: Node((qs - {id})[x]) == Node(ps[x])
  {
    forall x | x in qs - {id}
      ensures Node((qs - {id})[x]) == Node(ps[x])
    {
      assert (qs - {id})[x] == qs[x];
    }
  }

  /** Once nobody lists `id`, no list of the remaining members holds it. */
  lemma RemovalLeavesNoReference(ps: People, id: nat)
    requires forall k, x :: !Has(ps, k, x, id)
    ensures forall x, k | x in ps - {id} :: id !in List(ps - {id}, x, k)
  {
    forall x, k | x in ps - {id}
      ensures id !in List(ps - {id}, x, k)
    {
      assert (ps - {id})[x] == ps[x];
      assert !Has(ps, k, x, id);
    }
  }

  /** Dropping a member from the list and the map keeps the family's
      bookkeeping: distinct members, the members being the map's keys, and
      every id below the counter. */
  lemma RemovalKeepsRegistry(t: Tree, rest: People, id: nat)
    requires Valid(t) && id in t.people
    requires rest.Keys == t.people.Keys - {id} && Graph.Valid(rest)
    ensures Valid(Tree(RemoveFirst(t.members, id), rest, t.nextId))
  {
    var members := RemoveFirst(t.members, id);
    assert forall x :: x in members <==> x in rest by {
      forall x ensures x in members <==> x in rest {
        if x != id {
          assert x in members <==> x in t.members;
        }
      }
    }
  }

  /** The last step of removing a person: with every edge of `id` gone,
      it leaves the member list and the map. */
  lemma LeaveKeepsValid(t: Tree, ps: People, id: nat)
    requires Valid(t) && id in t.people
    requires Graph.Valid(ps) && SameNodes(t.people, ps)
    requires forall k, x :: !Has(ps, k, id, x) && !Has(ps, k, x, id)
    requires forall k, x, y | x != id && y != id :: Has(ps, k, x, y) <==> Has(t.people, k, x, y)
    ensures var u := Tree(RemoveFirst(t.members, id), ps - {id}, t.nextId);
      && Valid(u)
      && u.people.Keys == t.people.Keys - {id}
      && |u.people| == |t.people| - 1
      && (forall x, k | x in u.people :: id !in List(u.people, x, k))
      && (forall k, x, y | x != id && y != id :: Has(u.people, k, x, y) <==> Has(t.people, k, x, y))
      && (forall x | x in u.people :: Node(u.people[x]) == Node(t.people[x]))
  {
    DetachedRemoval(ps, id);
    RemovalKeepsNodes(t.people, ps, id);
    RemovalLeavesNoReference(ps, id);
    RemovalKeepsRegistry(t, ps - {id}, id);
  }

  /** `person_remover` for a person already found: a Parent or ParentChild
      with children is refused and nothing changes; anyone else loses every
      edge and then leaves the family. */
  method PersonRemover(t: Tree, id: nat) returns (r: Result<Tree>)
    requires Valid(t) && id in t.people
    ensures r.Err? <==> IsParent(t.people[id].variant) && t.people[id].children != {}
    ensures r.Err? ==> r.error == HasDependents
    ensures r.Ok? ==>
      var u := r.value;
      && Valid(u)
      && u.people.Keys == t.people.Keys - {id}
      && |u.people| == |t.people| - 1
      && u.members == RemoveFirst(t.members, id)
      && u.nextId == t.nextId
      && (forall x, k | x in u.people :: id !in List(u.people, x, k))
      && (forall k, x, y | x != id && y != id :: Has(u.people, k, x, y) <==> Has(t.people, k, x, y))
      && (forall x | x in u.people :: Node(u.people[x]) == Node(t.people[x]))
  {
    if IsParent(t.people[id].variant) && t.people[id].children != {} {
      return Err(HasDependents);
    }
    assert List(t.people, id, Children) == {};
    var ps := RemoveAllRelationships(t.people, id);
    LeaveKeepsValid(t, ps, id);
    r := Ok(Tree(RemoveFirst(t.members, id), ps - {id}, t.nextId));
  }
}
