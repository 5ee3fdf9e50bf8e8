/** Saving and loading a family as flat records.

    Export turns each member, in family order, into a record of its id, its
    class name, its scalar fields and one id list per edge list. Import
    rebuilds the family in two passes: it constructs one person per record,
    then replays every listed id as an add step. Reading and writing the
    file and the YAML encoding are not modelled: the data is a sequence of
    records, or nothing when the file is missing or empty.
 */
module Serialization {
  import opened Outcomes
  import opened Persons
  import opened Graph
  import opened Registry

  datatype Record = Record(
    id: nat,
    tag: string,
    name: string,
    dob: string,
    isAlive: bool,
    deathDate: Option<string>,
    ethnicity: string,
    childrenIds: seq<nat>,
    partnersIds: seq<nat>,
    parentsIds: seq<nat>,
    siblingsIds: seq<nat>)

  /** The id list a record keeps for edge list `k`. */
  function Ids(r: Record, k: Kind): seq<nat> {
    match k
    case Children => r.childrenIds
    case Partners => r.partnersIds
    case Parents => r.parentsIds
    case Siblings => r.siblingsIds
  }

  /** The class name written as the record's type. */
  function TagOf(v: Variant): string {
    match v
    case Parent => "Parent"
    case Child => "Child"
    case Partner => "Partner"
    case ParentChild => "ParentChild"
  }

  /** The class a type name selects on import; any other name is unknown. */
  function VariantOf(tag: string): (r: Option<Variant>)
    ensures r.Some? ==> TagOf(r.value) == tag
    ensures forall v :: TagOf(v) == tag ==> r == Some(v)
  {
    if tag == "Parent" then Some(Parent)
    else if tag == "Child" then Some(Child)
    else if tag == "Partner" then Some(Partner)
    else if tag == "ParentChild" then Some(ParentChild)
    else None
  }

  // ---------------------------------------------------------------- export

  /** `s` lists the elements of `xs`, each once. */
  ghost predicate Enumerates(s: seq<nat>, xs: set<nat>) {
    && Distinct(s)
    && (forall i | 0 <= i < |s| :: s[i] in xs)
    && (forall x | x in xs :: x in s)
  }

  /** `r` is the record export writes for member `id`. */
  ghost predicate RecordOf(ps: People, id: nat, r: Record) {
    && id in ps
    && var p := ps[id];
    && r.id == p.id
    && r.tag == TagOf(p.variant)
    && r.name == p.name && r.dob == p.dob && r.isAlive == p.isAlive
    && r.deathDate == p.deathDate && r.ethnicity == p.ethnicity
    && (forall k :: Enumerates(Ids(r, k), List(ps, id, k)))
  }

  /** `recs` is an export of `t`: one record per member, in family order. */
  ghost predicate ExportOf(t: Tree, recs: seq<Record>) {
    |recs| == |t.members| && forall i | 0 <= i < |recs| :: RecordOf(t.people, t.members[i], recs[i])
  }

  /** Lists a set in some order; the source lists follow insertion order,
      which a set does not keep. */
  method Enumerate(xs: set<nat>) returns (s: seq<nat>)
    ensures Enumerates(s, xs)
  {
    s := [];
    var rest := xs;
    while rest != {}
      invariant rest <= xs
      invariant Distinct(s)
      invariant forall i | 0 <= i < |s| :: s[i] in xs && s[i] !in rest
      invariant forall x | x in xs && x !in rest :: x in s
      decreases rest
    {
      var x :| x in rest;
      s := s + [x];
      rest := rest - {x};
    }
  }

  /** The record-building part of `yaml_export`. */
  method Export(t: Tree) returns (recs: seq<Record>)
    requires forall i | 0 <= i < |t.members| :: t.members[i] in t.people
    ensures ExportOf(t, recs)
  {
    recs := [];
    var i := 0;
    while i < |t.members|
      invariant 0 <= i <= |t.members|
      invariant |recs| == i
      invariant forall j | 0 <= j < i :: RecordOf(t.people, t.members[j], recs[j])
    {
      var id := t.members[i];
      var p := t.people[id];
      var children := Enumerate(List(t.people, id, Children));
      var partners := Enumerate(List(t.people, id, Partners));
      var parents := Enumerate(List(t.people, id, Parents));
      var siblings := Enumerate(List(t.people, id, Siblings));
      var r := Record(p.id, TagOf(p.variant), p.name, p.dob, p.isAlive, p.deathDate, p.ethnicity,
                      children, partners, parents, siblings);
      assert forall k :: Enumerates(Ids(r, k), List(t.people, id, k));
      recs := recs + [r];
      i := i + 1;
    }
  }

  // ---------------------------------------------------------- first pass

  /** The person pass one makes of a record: the class its tag names, the
      record's id and scalars, and the death date through the setter (kept
      only for a dead person). An unknown tag or a bad death date is a
      `ValueError`. */
  function Admit(rec: Record, isDate: string -> bool): (r: Result<Person>)
    ensures r.Err? <==> VariantOf(rec.tag).None? ||
                        (!rec.isAlive && Given(rec.deathDate) && !isDate(rec.deathDate.value))
    ensures r.Err? ==> r.error == ValueError
    ensures r.Ok? ==>
      && TagOf(r.value.variant) == rec.tag && r.value.id == rec.id
      && r.value.name == rec.name && r.value.dob == rec.dob
      && r.value.isAlive == rec.isAlive && r.value.ethnicity == rec.ethnicity
      && (r.value.deathDate.Some? <==> !rec.isAlive && Given(rec.deathDate))
      && (r.value.deathDate.Some? ==> r.value.deathDate == rec.deathDate)
      && forall k :: Field(r.value, k) == {}
  {
    match VariantOf(rec.tag)
    case None => Err(ValueError)
    case Some(v) =>
      var p := Fresh(rec.id, v, rec.name, rec.dob, rec.isAlive, rec.ethnicity);
      SetDeathDate(p, if !rec.isAlive then rec.deathDate else None, isDate)
  }

  /** The ids of the records, in order. */
  function IdsOf(recs: seq<Record>): (r: seq<nat>)
    ensures |r| == |recs| && forall i | 0 <= i < |recs| :: r[i] == recs[i].id
  {
    seq(|recs|, i requires 0 <= i < |recs| => recs[i].id)
  }

  /** The state after pass one: the new family list, the id map and the
      counter, or the counter when a record raised. */
  datatype Pass = Built(members: seq<nat>, people: People, counter: nat) | Failed(counter: nat)

  /** Pass one over the records in order. Each constructed person consumes
      one counter value before its id is overwritten with the record's; an
      unknown tag raises before construction. */
  function Construct(recs: seq<Record>, counter: nat, isDate: string -> bool): (r: Pass)
    ensures r.Built? <==> forall i | 0 <= i < |recs| :: Admit(recs[i], isDate).Ok?
    ensures r.Built? ==> r.members == IdsOf(recs) && r.counter == counter + |recs|
    ensures r.Failed? ==> counter <= r.counter <= counter + |recs|
    decreases |recs|
  {
    if recs == [] then Built([], map[], counter)
    else
      var init := recs[..|recs| - 1];
      var rec := recs[|recs| - 1];
      RecordsStep(recs, isDate);
      match Construct(init, counter, isDate)
      case Failed(c) => Failed(c)
      case Built(ms, ps, c) =>
        match Admit(rec, isDate)
        case Err(_) => Failed(if VariantOf(rec.tag).Some? then c + 1 else c)
        case Ok(p) => Built(ms + [rec.id], ps[rec.id := p], c + 1)
  }

  /** Splitting off the last record: its id ends the ids, and every record
      is admitted exactly when the earlier ones and it are. */
  lemma RecordsStep(recs: seq<Record>, isDate: string -> bool)
    requires recs != []
    ensures var init := recs[..|recs| - 1];
      var rec := recs[|recs| - 1];
      && IdsOf(recs) == IdsOf(init) + [rec.id]
      && ((forall i | 0 <= i < |recs| :: Admit(recs[i], isDate).Ok?) <==>
          (forall i | 0 <= i < |init| :: Admit(init[i], isDate).Ok?) && Admit(rec, isDate).Ok?)
  {
    var init := recs[..|recs| - 1];
    assert forall i | 0 <= i < |init| :: init[i] == recs[i];
  }

  /** Pass one's map holds exactly the records' ids. */
  lemma {:induction false} ConstructKeys(recs: seq<Record>, counter: nat, isDate: string -> bool)
    requires Construct(recs, counter, isDate).Built?
    ensures forall x :: x in Construct(recs, counter, isDate).people <==> x in IdsOf(recs)
    decreases |recs|
  {
    if recs != [] {
      var init := recs[..|recs| - 1];
      assert forall i | 0 <= i < |init| :: init[i] == recs[i];
      assert IdsOf(recs) == IdsOf(init) + [recs[|recs| - 1].id];
      ConstructKeys(init, counter, isDate);
    }
  }

  /** With distinct ids, pass one maps each record's id to the person it
      admits. */
  lemma {:induction false} ConstructPeople(recs: seq<Record>, counter: nat, isDate: string -> bool)
    requires Distinct(IdsOf(recs)) && Construct(recs, counter, isDate).Built?
    ensures var ps := Construct(recs, counter, isDate).people;
      && (forall x :: x in ps <==> x in IdsOf(recs))
      && forall i | 0 <= i < |recs| :: ps[recs[i].id] == Admit(recs[i], isDate).value
    decreases |recs|
  {
    ConstructKeys(recs, counter, isDate);
    if recs != [] {
      var n := |recs| - 1;
      var init := recs[..n];
      var rec := recs[n];
      assert IdsOf(recs) == IdsOf(init) + [rec.id] && Distinct(IdsOf(init)) by {
        assert forall i | 0 <= i < |init| :: init[i] == recs[i];
      }
      assert Construct(init, counter, isDate).Built? && Admit(rec, isDate).Ok? by {
        assert init == recs[..|recs| - 1];
      }
      ConstructPeople(init, counter, isDate);
      var prev := Construct(init, counter, isDate).people;
      var ps := Construct(recs, counter, isDate).people;
      assert ps == prev[rec.id := Admit(rec, isDate).value] by {
        assert init == recs[..|recs| - 1];
      }
      forall i | 0 <= i < |recs|
        ensures ps[recs[i].id] == Admit(recs[i], isDate).value
      {
        if i < n {
          assert IdsOf(recs)[i] != IdsOf(recs)[n];
          assert init[i] == recs[i];
        }
      }
    }
  }

  /** Every request of pass two is made by a record's owner. */
  lemma RequestOwners(recs: seq<Record>, ps: People)
    requires forall x :: x in IdsOf(recs) ==> x in ps
    ensures forall i | 0 <= i < |Requests(recs)| :: Requests(recs)[i].a in ps
  {
    var qs := Requests(recs);
    forall i | 0 <= i < |qs| ensures qs[i].a in ps {
      assert qs[i] in qs;
      var j :| 0 <= j < |recs| && qs[i].a == recs[j].id && qs[i].b in Ids(recs[j], qs[i].k);
      assert IdsOf(recs)[j] == qs[i].a;
    }
  }

  // --------------------------------------------------------- second pass

  /** One request of pass two: add `b` to the list `k` of `a`. */
  datatype Request = Request(k: Kind, a: nat, b: nat)

  /** The requests one record's list `k` makes. */
  function Pairs(k: Kind, a: nat, ids: seq<nat>): (r: seq<Request>)
    ensures |r| == |ids| && forall i | 0 <= i < |ids| :: r[i] == Request(k, a, ids[i])
  {
    seq(|ids|, i requires 0 <= i < |ids| => Request(k, a, ids[i]))
  }

  /** The requests of one record, in the order the source walks its lists. */
  function RecordRequests(rec: Record): (r: seq<Request>)
    ensures forall q :: q in r <==> q.a == rec.id && q.b in Ids(rec, q.k)
  {
    var r := Pairs(Children, rec.id, rec.childrenIds) + Pairs(Partners, rec.id, rec.partnersIds) +
             Pairs(Parents, rec.id, rec.parentsIds) + Pairs(Siblings, rec.id, rec.siblingsIds);
    assert forall q: Request | q.a == rec.id && q.b in Ids(rec, q.k) :: q in r by {
      forall q: Request | q.a == rec.id && q.b in Ids(rec, q.k) ensures q in r {
        var i :| 0 <= i < |Ids(rec, q.k)| && Ids(rec, q.k)[i] == q.b;
        assert q == Pairs(q.k, rec.id, Ids(rec, q.k))[i];
      }
    }
    r
  }

  /** All requests of pass two, record by record. */
  function Requests(recs: seq<Record>): (r: seq<Request>)
    ensures forall q :: q in r <==> exists i :: 0 <= i < |recs| && q.a == recs[i].id && q.b in Ids(recs[i], q.k)
  {
    if recs == [] then []
    else
      var r := RecordRequests(recs[0]) + Requests(recs[1..]);
      assert forall q: Request :: (exists i :: 0 <= i < |recs| && q.a == recs[i].id && q.b in Ids(recs[i], q.k)) <==>
        (q.a == recs[0].id && q.b in Ids(recs[0], q.k)) ||
        (exists i :: 0 <= i < |recs[1..]| && q.a == recs[1..][i].id && q.b in Ids(recs[1..][i], q.k)) by {
        forall i | 1 <= i < |recs| ensures recs[1..][i - 1] == recs[i] { }
      }
      r
  }

  /** One add step of pass two, as written: an unknown id is skipped, an id
      already listed is skipped, and a missing list on either side raises
      `AttributeError`. */
  function LinkStep(ps: People, q: Request): (r: Result<People>)
    requires q.a in ps
    ensures r.Ok? ==> SameNodes(ps, r.value)
    ensures r.Err? ==> r.error == MissingMethod
    ensures r.Ok? && q.b in ps ==> Has(r.value, q.k, q.a, q.b)
  {
    if q.b !in ps then Ok(ps)
    else if q.b in List(ps, q.a, q.k) then Ok(ps)
    else if !HasList(ps[q.a].variant, q.k) || !HasList(ps[q.b].variant, Reciprocal(q.k)) then Err(MissingMethod)
    else Ok(Link(ps, q.k, q.a, q.b))
  }

  /** Pass two: the requests in order, stopping at the first error. */
  function LinkAll(ps: People, qs: seq<Request>): (r: Result<People>)
    requires forall i | 0 <= i < |qs| :: qs[i].a in ps
    ensures r.Ok? ==> SameNodes(ps, r.value)
    ensures r.Err? ==> r.error == MissingMethod
    decreases |qs|
  {
    if qs == [] then Ok(ps)
    else
      match LinkStep(ps, qs[0])
      case Err(e) => Err(e)
      case Ok(next) => LinkAll(next, qs[1..])
  }

  /** Every request whose target is known names two people that own the
      lists the edge needs. */
  predicate AllFit(ps: People, qs: seq<Request>) {
    forall i | 0 <= i < |qs| && qs[i].a in ps && qs[i].b in ps :: Fits(ps, qs[i].k, qs[i].a, qs[i].b)
  }

  /** The request `a -k-> b` is among `qs` and its target is known. */
  ghost predicate Listed(keys: set<nat>, qs: seq<Request>, k: Kind, a: nat, b: nat) {
    Request(k, a, b) in qs && b in keys
  }

  /** On a consistent graph an add step either fails for a missing list or
      is exactly the add operation. */
  lemma LinkStepOnValid(ps: People, q: Request)
    requires Graph.Valid(ps) && q.a in ps
    ensures q.b !in ps ==> LinkStep(ps, q) == Ok(ps)
    ensures q.b in ps && Fits(ps, q.k, q.a, q.b) ==> LinkStep(ps, q) == Ok(Link(ps, q.k, q.a, q.b))
    ensures q.b in ps && !Fits(ps, q.k, q.a, q.b) ==> LinkStep(ps, q) == Err(MissingMethod)
  {
    if q.b in ps && q.b in List(ps, q.a, q.k) {
      Mirror(ps, q.k, q.a, q.b);
    }
  }

  /** A request sequence fits when its first request and the rest do. */
  lemma AllFitCons(ps: People, qs: seq<Request>)
    requires qs != []
    ensures AllFit(ps, qs) <==>
      (qs[0].a in ps && qs[0].b in ps ==> Fits(ps, qs[0].k, qs[0].a, qs[0].b)) && AllFit(ps, qs[1..])
  {
    assert forall i | 1 <= i < |qs| :: qs[i] == qs[1..][i - 1];
  }

  /** A request is listed when it is the first one or listed in the rest. */
  lemma ListedCons(keys: set<nat>, qs: seq<Request>)
    requires qs != []
    ensures forall k, x, y :: Listed(keys, qs, k, x, y) <==>
      (qs[0] == Request(k, x, y) && y in keys) || Listed(keys, qs[1..], k, x, y)
  {
    assert forall r :: r in qs <==> r == qs[0] || r in qs[1..];
  }

  /** Pass two on a consistent graph: it succeeds exactly when every request
      with a known target fits, and then it adds exactly those edges and
      their back-references. */
  lemma {:induction false} LinkAllCharacterised(ps: People, qs: seq<Request>)
    requires Graph.Valid(ps) && forall i | 0 <= i < |qs| :: qs[i].a in ps
    ensures LinkAll(ps, qs).Ok? <==> AllFit(ps, qs)
    ensures LinkAll(ps, qs).Ok? ==>
      var r := LinkAll(ps, qs).value;
      && Graph.Valid(r)
      && forall k, x, y :: Has(r, k, x, y) <==>
           Has(ps, k, x, y) || Listed(ps.Keys, qs, k, x, y) || Listed(ps.Keys, qs, Reciprocal(k), y, x)
    decreases |qs|
  {
    if qs != [] {
      var q := qs[0];
      var tail := qs[1..];
      AllFitCons(ps, qs);
      ListedCons(ps.Keys, qs);
      LinkStepOnValid(ps, q);
      if q.b !in ps {
        LinkAllCharacterised(ps, tail);
      } else if Fits(ps, q.k, q.a, q.b) {
        var next := Link(ps, q.k, q.a, q.b);
        LinkValid(ps, q.k, q.a, q.b);
        LinkAllCharacterised(next, tail);
        SameNodesFit(ps, next, tail);
        if LinkAll(next, tail).Ok? {
          ComposeEdges(ps, next, LinkAll(next, tail).value, qs);
        }
      }
    }
  }

  /** The edges after the first request and then the rest are the edges
      before, plus those the whole sequence lists, with back-references. */
  lemma ComposeEdges(ps: People, next: People, r: People, qs: seq<Request>)
    requires qs != [] && qs[0].b in ps && next.Keys == ps.Keys
    requires forall k, x, y :: Has(next, k, x, y) <==> (Has(ps, k, x, y) ||
      (k == qs[0].k && x == qs[0].a && y == qs[0].b) || (k == Reciprocal(qs[0].k) && x == qs[0].b && y == qs[0].a))
    requires forall k, x, y :: Has(r, k, x, y) <==> (Has(next, k, x, y) ||
      Listed(next.Keys, qs[1..], k, x, y) || Listed(next.Keys, qs[1..], Reciprocal(k), y, x))
    ensures forall k, x, y :: Has(r, k, x, y) <==> (Has(ps, k, x, y) ||
      Listed(ps.Keys, qs, k, x, y) || Listed(ps.Keys, qs, Reciprocal(k), y, x))
  {
    ListedCons(ps.Keys, qs);
    ReciprocalInvolutive();
    forall k, x, y
      ensures Has(r, k, x, y) <==> (Has(ps, k, x, y) ||
        Listed(ps.Keys, qs, k, x, y) || Listed(ps.Keys, qs, Reciprocal(k), y, x))
    {
      assert Reciprocal(k) == qs[0].k <==> k == Reciprocal(qs[0].k);
    }
  }

  /** Whether requests fit depends only on the members' classes. */
  lemma SameNodesFit(ps: People, qs: People, rs: seq<Request>)
    requires SameNodes(ps, qs)
    ensures AllFit(ps, rs) <==> AllFit(qs, rs)
  {
    forall x | x in ps ensures qs[x].variant == ps[x].variant {
      assert Node(qs[x]) == Node(ps[x]);
    }
  }

  // -------------------------------------------------------------- import

  /** `max(ids, default=0)`. */
  function MaxId(ids: seq<nat>): (r: nat)
    ensures forall i | 0 <= i < |ids| :: ids[i] <= r
    ensures ids != [] ==> r in ids
    ensures ids == [] ==> r == 0
  {
    if ids == [] then 0
    else
      var rest := MaxId(ids[1..]);
      assert forall i | 1 <= i < |ids| :: ids[i] == ids[1..][i - 1];
      if ids[0] >= rest then ids[0] else rest
  }

  /** `yaml_import` after the file is read. `data` is `None` when the file
      holds nothing. Any exception makes the result an empty family, with
      the counter wherever the failure left it. */
  function Import(data: Option<seq<Record>>, counter: nat, isDate: string -> bool): (r: Tree)
    ensures data.None? || data.value == [] ==> r == Tree([], map[], counter)
    ensures r.members != [] ==> r.nextId == MaxId(IdsOf(data.value)) + 1
    ensures r.members == [] ==> r.people == map[]
  {
    if data.None? || data.value == [] then Tree([], map[], counter)
    else
      var recs := data.value;
      match Construct(recs, counter, isDate)
      case Failed(c) => Tree([], map[], c)
      case Built(ms, ps, _) =>
        ConstructKeys(recs, counter, isDate);
        RequestOwners(recs, ps);
        var next := MaxId(IdsOf(recs)) + 1;
        match LinkAll(ps, Requests(recs))
        case Err(_) => Tree([], map[], next)
        case Ok(linked) => Tree(ms, linked, next)
  }

  /** What pass one builds is consistent: no edges yet, and every person
      under its own id. */
  lemma ConstructedValid(recs: seq<Record>, counter: nat, isDate: string -> bool)
    requires Distinct(IdsOf(recs)) && Construct(recs, counter, isDate).Built?
    ensures var ps := Construct(recs, counter, isDate).people;
      Graph.Valid(ps) && forall k, x, y :: !Has(ps, k, x, y)
  {
    var ps := Construct(recs, counter, isDate).people;
    ConstructPeople(recs, counter, isDate);
    forall x | x in ps ensures ps[x].id == x && forall k :: Field(ps[x], k) == {} {
      var i :| 0 <= i < |recs| && IdsOf(recs)[i] == x;
    }
  }

  /** An import succeeds exactly when every record is admitted and every
      listed edge between known ids fits both ends; the family is then
      consistent and holds exactly the listed edges with their
      back-references, and the counter sits just past the largest id. */
  lemma ImportCharacterised(recs: seq<Record>, counter: nat, isDate: string -> bool)
    requires recs != [] && Distinct(IdsOf(recs))
    ensures var r := Import(Some(recs), counter, isDate);
      var pass := Construct(recs, counter, isDate);
      && (r.members != [] <==> pass.Built? && AllFit(pass.people, Requests(recs)))
      && (r.members != [] ==>
            && r.members == IdsOf(recs)
            && Registry.Valid(r)
            && forall k, x, y :: Has(r.people, k, x, y) <==>
                 Listed(pass.people.Keys, Requests(recs), k, x, y) ||
                 Listed(pass.people.Keys, Requests(recs), Reciprocal(k), y, x))
  {
    var pass := Construct(recs, counter, isDate);
    if pass.Built? {
      ConstructedValid(recs, counter, isDate);
      var ps := pass.people;
      ConstructKeys(recs, counter, isDate);
      RequestOwners(recs, ps);
      LinkAllCharacterised(ps, Requests(recs));
      var r := Import(Some(recs), counter, isDate);
      if r.members != [] {
        var next := MaxId(IdsOf(recs)) + 1;
        ConstructPeople(recs, counter, isDate);
        assert forall x | x in r.people :: x < next by {
          forall x | x in r.people ensures x < next {
            var i :| 0 <= i < |recs| && IdsOf(recs)[i] == x;
          }
        }
      }
    }
  }

  /** An unknown type raises before anything is constructed: the family is
      empty and the counter untouched. */
  lemma UnknownTagRejected(rec: Record, counter: nat, isDate: string -> bool)
    requires VariantOf(rec.tag).None?
    ensures Import(Some([rec]), counter, isDate) == Tree([], map[], counter)
  {
    assert [rec][..0] == [];
  }

  /** A bad death date on a dead person raises after construction: the
      family is empty and one counter value is gone. */
  lemma BadDeathDateRejected(rec: Record, counter: nat, isDate: string -> bool)
    requires VariantOf(rec.tag).Some? && !rec.isAlive && Given(rec.deathDate) && !isDate(rec.deathDate.value)
    ensures Import(Some([rec]), counter, isDate) == Tree([], map[], counter + 1)
  {
    assert [rec][..0] == [];
  }

  // ---------------------------------------------------------- round trip

  /** The people with their edge lists cleared: what pass one rebuilds. */
  function Strip(ps: People): (r: People)
    ensures SameNodes(ps, r) && forall k, x, y :: !Has(r, k, x, y)
    ensures IdsMatch(ps) ==> Graph.Valid(r)
  {
    map x | x in ps :: Node(ps[x])
  }

  /** Each exported record is admitted as its member without the edges. */
  lemma AdmitExported(ps: People, id: nat, rec: Record, isDate: string -> bool)
    requires RecordOf(ps, id, rec) && DeathDateOk(ps[id], isDate)
    ensures Admit(rec, isDate) == Ok(Node(ps[id]))
  {
    var p := ps[id];
    assert VariantOf(TagOf(p.variant)) == Some(p.variant);
    var a := Admit(rec, isDate).value;
    assert a.children == {} && a.partners == {} && a.parents == {} && a.siblings == {} by {
      assert forall k :: Field(a, k) == {};
      assert Field(a, Children) == {} && Field(a, Partners) == {};
      assert Field(a, Parents) == {} && Field(a, Siblings) == {};
    }
  }

  /** Pass one over an export rebuilds every member without its edges. */
  lemma ConstructExport(t: Tree, recs: seq<Record>, counter: nat, isDate: string -> bool)
    requires Registry.Valid(t) && ExportOf(t, recs)
    requires forall x | x in t.people :: DeathDateOk(t.people[x], isDate)
    ensures IdsOf(recs) == t.members
    ensures Construct(recs, counter, isDate) == Built(t.members, Strip(t.people), counter + |recs|)
  {
    assert IdsOf(recs) == t.members by {
      forall i | 0 <= i < |recs| ensures IdsOf(recs)[i] == t.members[i] {
        assert RecordOf(t.people, t.members[i], recs[i]);
      }
    }
    forall i | 0 <= i < |recs|
      ensures Admit(recs[i], isDate) == Ok(Node(t.people[t.members[i]]))
    {
      assert RecordOf(t.people, t.members[i], recs[i]);
      AdmitExported(t.people, t.members[i], recs[i], isDate);
    }
    var pass := Construct(recs, counter, isDate);
    assert pass.Built?;
    ConstructPeople(recs, counter, isDate);
    assert forall x :: x in t.people <==> x in IdsOf(recs);
    StrippedByRecords(t.people, recs, pass.people, isDate);
  }

  /** Members admitted one per record, each as the node of the member the
      record names, are the stripped graph. */
  lemma StrippedByRecords(ps: People, recs: seq<Record>, qs: People, isDate: string -> bool)
    requires forall x :: x in ps <==> x in IdsOf(recs)
    requires forall x :: x in qs <==> x in IdsOf(recs)
    requires forall i | 0 <= i < |recs| :: recs[i].id in ps && Admit(recs[i], isDate) == Ok(Node(ps[recs[i].id]))
    requires forall i | 0 <= i < |recs| :: recs[i].id in qs && qs[recs[i].id] == Admit(recs[i], isDate).value
    ensures qs == Strip(ps)
  {
    var skel := Strip(ps);
    assert qs.Keys == skel.Keys;
    forall x | x in qs ensures qs[x] == skel[x] {
      var i :| 0 <= i < |recs| && IdsOf(recs)[i] == x;
      assert recs[i].id == x;
    }
  }

  /** The requests an export makes are exactly the edges of the family. */
  lemma ExportListsEdges(t: Tree, recs: seq<Record>)
    requires Registry.Valid(t) && ExportOf(t, recs)
    ensures forall k, x, y :: Listed(t.people.Keys, Requests(recs), k, x, y) <==> Has(t.people, k, x, y)
  {
    var reqs := Requests(recs);
    forall k, x, y ensures Listed(t.people.Keys, reqs, k, x, y) <==> Has(t.people, k, x, y) {
      if Listed(t.people.Keys, reqs, k, x, y) {
        assert Request(k, x, y) in reqs;
        var i :| 0 <= i < |recs| && x == recs[i].id && y in Ids(recs[i], k);
        assert RecordOf(t.people, t.members[i], recs[i]);
      }
      if Has(t.people, k, x, y) {
        var i :| 0 <= i < |t.members| && t.members[i] == x;
        assert RecordOf(t.people, t.members[i], recs[i]);
        assert y in Ids(recs[i], k);
        assert Request(k, x, y) in reqs;
      }
    }
  }

  /** Replaying requests that list exactly the edges of a consistent graph
      onto its stripped members restores the graph. */
  lemma Relink(ps: People, qs: seq<Request>)
    requires Graph.Valid(ps)
    requires forall i | 0 <= i < |qs| :: qs[i].a in ps
    requires forall k, x, y :: Listed(ps.Keys, qs, k, x, y) <==> Has(ps, k, x, y)
    ensures LinkAll(Strip(ps), qs) == Ok(ps)
  {
    var skel := Strip(ps);
    assert AllFit(skel, qs) by {
      forall i | 0 <= i < |qs| && qs[i].a in skel && qs[i].b in skel
        ensures Fits(skel, qs[i].k, qs[i].a, qs[i].b)
      {
        var q := qs[i];
        assert Listed(ps.Keys, qs, q.k, q.a, q.b);
        Mirror(ps, q.k, q.a, q.b);
        assert Node(skel[q.a]) == Node(ps[q.a]) && Node(skel[q.b]) == Node(ps[q.b]);
      }
    }
    LinkAllCharacterised(skel, qs);
    var linked := LinkAll(skel, qs).value;
    assert SameEdges(linked, ps) by {
      forall k, x, y ensures Has(linked, k, x, y) <==> Has(ps, k, x, y) {
        if Has(ps, Reciprocal(k), y, x) {
          Mirror(ps, Reciprocal(k), y, x);
        }
      }
    }
    Extensionality(linked, ps);
  }

  /** Saving a consistent family and loading it back gives the same family
      list and the same people with the same edges; the counter restarts
      just past the largest id, which the saved counter never undercuts. */
  lemma RoundTrip(t: Tree, recs: seq<Record>, counter: nat, isDate: string -> bool)
    requires Registry.Valid(t) && ExportOf(t, recs) && t.members != []
    requires forall x | x in t.people :: DeathDateOk(t.people[x], isDate)
    ensures Distinct(IdsOf(recs))
    ensures Import(Some(recs), counter, isDate) == Tree(t.members, t.people, MaxId(t.members) + 1)
    ensures MaxId(t.members) + 1 <= t.nextId
  {
    ConstructExport(t, recs, counter, isDate);
    RequestOwners(recs, t.people);
    ExportListsEdges(t, recs);
    Relink(t.people, Requests(recs));
  }
}
