/** The add operations of the four person classes and the promotion of a
    person to the hybrid class.

    Each class method is a function of the graph: the receiver `self` and
    the argument `other` are ids of members. A role check that fails is a
    `TypeError` and changes nothing; a method the receiver's class does not
    define is `MissingMethod`.
 */
module Roles {
  import opened Outcomes
  import opened Persons
  import opened Graph

  /** Parent.add_person: the argument must be Child-capable and becomes a child. */
  function ParentAddPerson(ps: People, self: nat, other: nat): (r: Result<People>)
    requires self in ps && other in ps && IsParent(ps[self].variant)
    ensures r.Ok? <==> IsChild(ps[other].variant)
    ensures r.Err? ==> r.error == TypeError
    ensures r.Ok? ==> Added(ps, r.value, Children, self, other) && Has(r.value, Children, self, other)
  {
    if IsChild(ps[other].variant) then Ok(Link(ps, Children, self, other)) else Err(TypeError)
  }

  /** Parent.add_partner: the argument must be Parent-capable. */
  function ParentAddPartner(ps: People, self: nat, other: nat): (r: Result<People>)
    requires self in ps && other in ps && IsParent(ps[self].variant)
    ensures r.Ok? <==> IsParent(ps[other].variant)
    ensures r.Err? ==> r.error == TypeError
    ensures r.Ok? ==> Added(ps, r.value, Partners, self, other) && Has(r.value, Partners, self, other)
  {
    if IsParent(ps[other].variant) then Ok(Link(ps, Partners, self, other)) else Err(TypeError)
  }

  /** Child.add_person: the argument must be Parent-capable and becomes a parent. */
  function ChildAddPerson(ps: People, self: nat, other: nat): (r: Result<People>)
    requires self in ps && other in ps && IsChild(ps[self].variant)
    ensures r.Ok? <==> IsParent(ps[other].variant)
    ensures r.Err? ==> r.error == TypeError
    ensures r.Ok? ==> Added(ps, r.value, Parents, self, other) && Has(r.value, Parents, self, other)
  {
    if IsParent(ps[other].variant) then Ok(Link(ps, Parents, self, other)) else Err(TypeError)
  }

  /** Child.add_sibling: the argument must be Child-capable. */
  function ChildAddSibling(ps: People, self: nat, other: nat): (r: Result<People>)
    requires self in ps && other in ps && IsChild(ps[self].variant)
    ensures r.Ok? <==> IsChild(ps[other].variant)
    ensures r.Err? ==> r.error == TypeError
    ensures r.Ok? ==> Added(ps, r.value, Siblings, self, other) && Has(r.value, Siblings, self, other)
  {
    if IsChild(ps[other].variant) then Ok(Link(ps, Siblings, self, other)) else Err(TypeError)
  }

  /** Partner.add_person: only another bare Partner is accepted. */
  function PartnerAddPerson(ps: People, self: nat, other: nat): (r: Result<People>)
    requires self in ps && other in ps && ps[self].variant == Partner
    ensures r.Ok? <==> ps[other].variant == Partner
    ensures r.Err? ==> r.error == TypeError
    ensures r.Ok? ==> Added(ps, r.value, Partners, self, other) && Has(r.value, Partners, self, other)
  {
    if ps[other].variant == Partner then Ok(Link(ps, Partners, self, other)) else Err(TypeError)
  }

  /** ParentChild.add_person: a Child-capable argument (another hybrid
      included) becomes a child; a bare Parent becomes a parent. */
  function ParentChildAddPerson(ps: People, self: nat, other: nat): (r: Result<People>)
    requires self in ps && other in ps && ps[self].variant == ParentChild
    ensures r.Ok? <==> ps[other].variant != Partner
    ensures r.Err? ==> r.error == TypeError
    ensures r.Ok? && IsChild(ps[other].variant) ==>
      Added(ps, r.value, Children, self, other) && Has(r.value, Children, self, other)
    ensures r.Ok? && ps[other].variant == Parent ==>
      Added(ps, r.value, Parents, self, other) && Has(r.value, Parents, self, other)
  {
    if IsChild(ps[other].variant) then Ok(Link(ps, Children, self, other))
    else if IsParent(ps[other].variant) then Ok(Link(ps, Parents, self, other))
    else Err(TypeError)
  }

  /** The three add methods a person can be asked to run. */
  datatype Op = AddPerson | AddPartner | AddSibling

  /** The list an `op` call on `self` writes `other` into, when the call
      succeeds. */
  function EdgeOf(ps: People, op: Op, self: nat, other: nat): Kind
    requires self in ps && other in ps
  {
    match op
    case AddPartner => Partners
    case AddSibling => Siblings
    case AddPerson =>
      match ps[self].variant
      case Parent => Children
      case Child => Parents
      case Partner => Partners
      case ParentChild => if IsChild(ps[other].variant) then Children else Parents
  }

  /** `self.op(other)`, dispatched on the class of `self` as Python does;
      ParentChild overrides all three methods. */
  function Call(ps: People, op: Op, self: nat, other: nat): (r: Result<People>)
    requires self in ps && other in ps
    ensures r.Err? ==> r.error == TypeError || r.error == MissingMethod
    ensures r.Err? && r.error == MissingMethod <==>
      (op == AddPartner && !IsParent(ps[self].variant)) ||
      (op == AddSibling && !IsChild(ps[self].variant))
    ensures r.Ok? ==>
      var k := EdgeOf(ps, op, self, other);
      Added(ps, r.value, k, self, other) && Has(r.value, k, self, other)
  {
    match op
    case AddPerson =>
      (match ps[self].variant
       case Parent => ParentAddPerson(ps, self, other)
       case Child => ChildAddPerson(ps, self, other)
       case Partner => PartnerAddPerson(ps, self, other)
       case ParentChild => ParentChildAddPerson(ps, self, other))
    case AddPartner =>
      // ParentChild.add_partner checks isinstance(other, (Parent, ParentChild)),
      // which is the same test as Parent.add_partner's.
      if IsParent(ps[self].variant) then ParentAddPartner(ps, self, other) else Err(MissingMethod)
    case AddSibling =>
      if IsChild(ps[self].variant) then ChildAddSibling(ps, self, other) else Err(MissingMethod)
  }

  /** Between two hybrids every add method exists and accepts the other
      side, so no call fails. */
  lemma HybridsAccept(ps: People, op: Op, self: nat, other: nat)
    requires self in ps && other in ps
    requires ps[self].variant == ParentChild && ps[other].variant == ParentChild
    ensures Call(ps, op, self, other).Ok?
  {
    match op
    case AddPerson => assert ParentChildAddPerson(ps, self, other).Ok?;
    case AddPartner =>
    case AddSibling =>
  }

  /** A successful add leaves a valid graph valid, with the new edge recorded
      on both sides and no other edge changed. */
  lemma CallKeepsValid(ps: People, op: Op, self: nat, other: nat)
    requires Valid(ps) && self in ps && other in ps
    requires Call(ps, op, self, other).Ok?
    ensures var q := Call(ps, op, self, other).value;
      var k := EdgeOf(ps, op, self, other);
      && Valid(q)
      && Has(q, k, self, other) && Has(q, Reciprocal(k), other, self)
      && forall k', x, y :: Has(q, k', x, y) <==>
           Has(ps, k', x, y) || (k' == k && x == self && y == other) || (k' == Reciprocal(k) && x == other && y == self)
  {
    var k := EdgeOf(ps, op, self, other);
    assert Fits(ps, k, self, other);
    LinkValid(ps, k, self, other);
  }

  /** Repeating a successful add changes nothing. */
  lemma CallIdempotent(ps: People, op: Op, self: nat, other: nat)
    requires self in ps && other in ps
    requires Call(ps, op, self, other).Ok?
    ensures var q := Call(ps, op, self, other).value;
      self in q && other in q && Call(q, op, self, other) == Ok(q)
  {
    var q := Call(ps, op, self, other).value;
    assert q[self].variant == ps[self].variant by {
      assert Node(q[self]) == Node(ps[self]);
    }
    assert q[other].variant == ps[other].variant by {
      assert Node(q[other]) == Node(ps[other]);
    }
  }

  /** Adding an edge from either end gives the same graph: `a.op(b)` and
      `b.op(a)` agree whenever they write reciprocal lists. */
  lemma CallFromEitherSide(ps: People, op: Op, a: nat, b: nat)
    requires Valid(ps) && a in ps && b in ps
    requires Call(ps, op, a, b).Ok? && Call(ps, op, b, a).Ok?
    requires EdgeOf(ps, op, b, a) == Reciprocal(EdgeOf(ps, op, a, b))
    ensures Call(ps, op, a, b) == Call(ps, op, b, a)
  {
    var q1 := Call(ps, op, a, b).value;
    var q2 := Call(ps, op, b, a).value;
    CallKeepsValid(ps, op, a, b);
    CallKeepsValid(ps, op, b, a);
    Extensionality(q1, q2);
  }

  /** A parent adding a bare Child and that Child adding the parent build
      the same graph: the child listed by the parent and the parent listed
      by the child. */
  lemma ParentAndChildSidesAgree(ps: People, p: nat, c: nat)
    requires Valid(ps) && p in ps && c in ps
    requires IsParent(ps[p].variant) && ps[c].variant == Child
    ensures Call(ps, AddPerson, p, c).Ok?
    ensures Call(ps, AddPerson, p, c) == Call(ps, AddPerson, c, p)
    ensures var q := Call(ps, AddPerson, p, c).value; Has(q, Children, p, c) && Has(q, Parents, c, p)
  {
    CallFromEitherSide(ps, AddPerson, p, c);
    CallKeepsValid(ps, AddPerson, p, c);
  }

  /** The hybrid built by `convert`: same id and scalar fields, class
      ParentChild, and every list the original owned; a list the original
      did not own starts empty. */
  function Hybrid(p: Person): Person {
    Person(p.id, ParentChild, p.name, p.dob, p.isAlive, p.ethnicity, p.deathDate,
           if HasList(p.variant, Children) then p.children else {},
           if HasList(p.variant, Partners) then p.partners else {},
           if HasList(p.variant, Parents) then p.parents else {},
           if HasList(p.variant, Siblings) then p.siblings else {})
  }

  /** family_lib's `convert(instance, ParentChild)`. The new object is built
      by the constructor, which starts with no death date, and the death
      date is not copied. */
  function Convert(ps: People, id: nat): (r: People)
    requires id in ps
    ensures r.Keys == ps.Keys
    ensures forall x | x in ps && x != id :: r[x] == ps[x]
    ensures r[id].variant == ParentChild && r[id].deathDate == None
    ensures var p, q := ps[id], r[id];
      q.id == p.id && q.name == p.name && q.dob == p.dob && q.isAlive == p.isAlive && q.ethnicity == p.ethnicity
    ensures SameEdges(ps, r)
  {
    ps[id := Hybrid(ps[id]).(deathDate := None)]
  }

  /** The earlier copy in Family.py: the same conversion, but the death
      date is passed to the constructor and so survives. */
  function LegacyConvert(ps: People, id: nat): (r: People)
    requires id in ps
    ensures r.Keys == ps.Keys
    ensures forall x | x in ps && x != id :: r[x] == ps[x]
    ensures r[id].variant == ParentChild && r[id].deathDate == ps[id].deathDate
    ensures var p, q := ps[id], r[id];
      q.id == p.id && q.name == p.name && q.dob == p.dob && q.isAlive == p.isAlive && q.ethnicity == p.ethnicity
    ensures SameEdges(ps, r)
  {
    ps[id := Hybrid(ps[id])]
  }

  /** Promotion changes no list anyone can read: the hybrid reads every
      list the original owned and an empty one where the original had none. */
  lemma ConvertKeepsLists(ps: People, id: nat, x: nat, k: Kind)
    requires id in ps
    ensures List(Convert(ps, id), x, k) == List(ps, x, k)
    ensures List(LegacyConvert(ps, id), x, k) == List(ps, x, k)
  {
    if x == id {
      assert HasList(ParentChild, k);
    }
  }

  /** Promotion keeps a valid graph valid: every neighbour still lists the
      promoted id, and the hybrid lists every neighbour it had. */
  lemma ConvertKeepsValid(ps: People, id: nat)
    requires Valid(ps) && id in ps
    ensures Valid(Convert(ps, id)) && Valid(LegacyConvert(ps, id))
  {
    var r := Convert(ps, id);
    var l := LegacyConvert(ps, id);
    assert forall x, k | x in r && !HasList(r[x].variant, k) :: x != id;
    assert forall x, k | x in l && !HasList(l[x].variant, k) :: x != id;
  }

  /** The two versions of `convert` differ in the death date only. */
  lemma ConvertsDifferInDeathDate(ps: People, id: nat)
    requires id in ps
    ensures LegacyConvert(ps, id) == Convert(ps, id)[id := Convert(ps, id)[id].(deathDate := ps[id].deathDate)]
    ensures ps[id].deathDate == None ==> LegacyConvert(ps, id) == Convert(ps, id)
  {
  }
}
