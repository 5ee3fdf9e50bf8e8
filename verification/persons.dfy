/** The person record shared by the four person classes.

    A person is one record whatever its class: the class becomes the
    `variant` tag, and every edge list is an id-set. The lists a class does
    not create (a `Child` has no `children`) are kept empty; `HasList` says
    which lists a class owns, which is what `hasattr` asks of an object.
 */
module Persons {
  import opened Outcomes

  /** The four concrete person classes. */
  datatype Variant = Parent | Child | Partner | ParentChild

  /** The four edge lists a person may own. */
  datatype Kind = Children | Partners | Parents | Siblings

  /** isinstance(p, Parent): a Parent, or the hybrid that inherits from it. */
  predicate IsParent(v: Variant) {
    v == Parent || v == ParentChild
  }

  /** isinstance(p, Child): a Child, or the hybrid that inherits from it. */
  predicate IsChild(v: Variant) {
    v == Child || v == ParentChild
  }

  /** hasattr(p, list): the lists each class's constructor creates. */
  predicate HasList(v: Variant, k: Kind) {
    match k
    case Children => IsParent(v)
    case Parents => IsChild(v)
    case Siblings => IsChild(v)
    case Partners => v != Child
  }

  /** The list that holds the back-reference of an edge of kind `k`. */
  function Reciprocal(k: Kind): (r: Kind)
    ensures (r == k) <==> (k == Partners || k == Siblings)
  {
    match k
    case Children => Parents
    case Parents => Children
    case Partners => Partners
    case Siblings => Siblings
  }

  /** The back-reference of a back-reference is the edge itself. */
  lemma ReciprocalInvolutive()
    ensures forall k :: Reciprocal(Reciprocal(k)) == k
  {
  }

  datatype Person = Person(
    id: nat,
    variant: Variant,
    name: string,
    dob: string,
    isAlive: bool,
    ethnicity: string,
    deathDate: Option<string>,
    children: set<nat>,
    partners: set<nat>,
    parents: set<nat>,
    siblings: set<nat>)

  function Field(p: Person, k: Kind): set<nat> {
    match k
    case Children => p.children
    case Partners => p.partners
    case Parents => p.parents
    case Siblings => p.siblings
  }

  /** `p` with list `k` replaced by `s` and everything else kept. */
  function WithField(p: Person, k: Kind, s: set<nat>): (q: Person)
    ensures Field(q, k) == s
    ensures forall k' :: k' != k ==> Field(q, k') == Field(p, k')
    ensures q.id == p.id && q.variant == p.variant && q.deathDate == p.deathDate
    ensures q == p.(children := q.children, partners := q.partners,
                    parents := q.parents, siblings := q.siblings)
  {
    match k
    case Children => p.(children := s)
    case Partners => p.(partners := s)
    case Parents => p.(parents := s)
    case Siblings => p.(siblings := s)
  }

  /** A freshly constructed person of class `v`: every list it owns is empty. */
  function Fresh(id: nat, v: Variant, name: string, dob: string, isAlive: bool, ethnicity: string): Person {
    Person(id, v, name, dob, isAlive, ethnicity, None, {}, {}, {}, {})
  }

  /** Python truthiness of the value handed to the death-date setter:
      None and the empty string are false. */
  predicate Given(date: Option<string>) {
    date.Some? && date.value != ""
  }

  /** What the setter lets a person hold: a death date only while dead,
      and then only a non-empty string that parses as a date. */
  predicate DeathDateOk(p: Person, isDate: string -> bool) {
    p.deathDate.Some? ==> !p.isAlive && p.deathDate.value != "" && isDate(p.deathDate.value)
  }

  /** The `death_date` property setter. `isDate` stands for parsing with the
      format year-month-day. */
  function SetDeathDate(p: Person, date: Option<string>, isDate: string -> bool): (r: Result<Person>)
    ensures r.Err? <==> !p.isAlive && Given(date) && !isDate(date.value)
    ensures r.Err? ==> r.error == ValueError
    ensures r.Ok? ==> r.value == p.(deathDate := r.value.deathDate)
    ensures r.Ok? ==> DeathDateOk(r.value, isDate)
    ensures r.Ok? ==> (r.value.deathDate.Some? <==> !p.isAlive && Given(date))
    ensures r.Ok? && r.value.deathDate.Some? ==> r.value.deathDate == date
  {
    if !p.isAlive && Given(date) then
      if isDate(date.value) then Ok(p.(deathDate := date)) else Err(ValueError)
    else if p.isAlive then
      Ok(p.(deathDate := None))
    else
      Ok(p.(deathDate := None))
  }
}
