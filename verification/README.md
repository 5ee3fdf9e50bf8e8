# Family tree relationship engine, modelled in Dafny

The family tree program keeps a family of people and the relationships
between them. There are four person classes:

- `Parent` owns children and partners lists.
- `Child` owns parents and siblings lists.
- `Partner` owns a partners list.
- `ParentChild` is a hybrid that owns all four lists.

Every relationship is stored on both sides, as an edge and its
back-reference. This project models the core of the program:

- the add methods of the four classes;
- promotion of a person to the hybrid class (`convert`);
- the family registry: establishing and removing relationships, and
  removing people;
- the relationship queries and the children-per-parent counts;
- saving a family as flat records and loading it back in two passes;
- the arithmetic of the birthday calendar.

The model is functional. A family is a map from id to person record, with
four id-sets per person. An operation is a pure function from one family
to the next. A list a class does not own reads as empty, as
`getattr(x, name, [])` does. `Graph.Valid` is the consistency invariant:

- every person sits under its own id;
- a class's unowned lists stay empty;
- every listed id names a member;
- every edge has its back-reference.

Modules, in dependency order:

- `Outcomes` (outcomes.dfy): `Option`, `Result` and the error kinds.
- `Persons` (persons.dfy): classes, list kinds, person records and the death-date setter.
- `Graph` (graph.dfy): edges, the invariant, and the add and remove steps.
- `Roles` (roles.dfy): the add methods and `convert`.
- `Registry` (registry.dfy): the family registry.
- `Queries` (queries.dfy): the relationship queries.
- `Statistics` (statistics.dfy): the children-per-parent counts.
- `Serialization` (serialization.dfy): export and import.
- `Calendar` (calendar.dfy): the calendar arithmetic.

Where the program's design description and its code disagree, the model
follows the code:

- Loading an empty or missing file returns an empty family and leaves the
  id counter untouched (yaml_lib.py:61-63). The counter is not reset to 1.
- The extended-family set does not take the person out. In a family where
  two siblings are both parents of the same child, that child is its own
  cousin and lands in its own extended family
  (`Queries.SelfInExtendedFamily`).
- `convert` in family_lib.py builds the hybrid without the death date.
  The earlier copy in Family.py keeps it.
- Each promotion builds a new object, so it consumes a value of the shared
  id counter, even though the hybrid then takes over the old id.

## Model

| member | source | states |
|---|---|---|
| Persons.SetDeathDate | family_lib.py:40-52 | A dead person given a non-empty date that does not parse gets a ValueError, and only then. Otherwise the person is unchanged apart from the death date. That date is kept exactly when the person is dead and the date is non-empty. A live person or an empty date stores none. |
| Graph.Link | family_lib.py:63-71 | The add step. The edge is afterwards present. If it already was, nothing changes. Otherwise exactly the edge and its back-reference are added, and every person keeps its other fields. |
| Graph.LinkValid | family_lib.py:63-71 | On a consistent family the add step keeps the family consistent and changes the edge relation by exactly the edge and its back-reference. |
| Graph.Drop | main.py:381-393 | The guarded `list.remove`: exactly one directed edge disappears, everything else is kept, and unowned lists stay empty. |
| Graph.RemovedKeepsValid | main.py:381-393 | Removing an edge together with its back-reference keeps a family consistent. |
| Roles.ParentAddPerson | family_lib.py:63-71 | Succeeds exactly when the other person is Child-capable, and otherwise raises TypeError with nothing changed. On success the other person is listed as a child, this one as their parent, and nothing else changes. |
| Roles.ParentAddPartner | family_lib.py:73-81 | Succeeds exactly when the other person is Parent-capable, and otherwise raises TypeError. On success the partner edge is recorded on both sides and nothing else changes. |
| Roles.ChildAddPerson | family_lib.py:92-100 | Succeeds exactly when the other person is Parent-capable, and otherwise raises TypeError. On success the other person is listed as a parent, this one as their child. |
| Roles.ChildAddSibling | family_lib.py:102-110 | Succeeds exactly when the other person is Child-capable, and otherwise raises TypeError. On success the sibling edge is recorded on both sides. |
| Roles.PartnerAddPerson | family_lib.py:120-128 | Succeeds exactly when the other person is a bare Partner. A Parent, Child or hybrid raises TypeError. |
| Roles.ParentChildAddPerson | family_lib.py:141-154 | Fails only on a bare Partner. A Child-capable person, another hybrid included, becomes a child. A bare Parent becomes a parent. |
| Roles.Call | family_lib.py:141-177 | Dispatch on the receiver's class. An add method the class lacks is MissingMethod (AttributeError), and exactly then. A hybrid's add_partner accepts Parent-capable people and its add_sibling Child-capable ones. A success adds exactly one edge and its back-reference. |
| Roles.CallKeepsValid | family_lib.py:63-177 | Every successful add keeps a consistent family consistent. Afterwards the edge relation is the old one plus the new edge and its back-reference. |
| Roles.HybridsAccept | family_lib.py:141-177 | Between two hybrids every add method exists and accepts the other side. This is why the retry after promotion never fails. |
| Roles.CallIdempotent | family_lib.py:63-177 | Repeating a successful add returns the same family: no duplicates. |
| Roles.CallFromEitherSide | family_lib.py:63-110 | When `a.op(b)` and `b.op(a)` write reciprocal lists and both succeed, they produce the same family. |
| Roles.ParentAndChildSidesAgree | testing.py:25-37 | A parent adding a bare Child and the Child adding the parent both succeed and build the same family, with the child in the parent's children and the parent in the child's parents. |
| Roles.Convert | family_lib.py:179-215 | The promoted person keeps its id, name, date of birth, living status and ethnicity, and becomes a hybrid with no death date. Every other person is unchanged. The edge relation is unchanged. |
| Roles.LegacyConvert | Family.py:125-149 | The same as `Roles.Convert`, except that the death date is carried over. |
| Roles.ConvertKeepsLists | family_lib.py:188-213 | After promotion every list of every person reads exactly as before, the promoted person's included. Neighbours' back-references by id remain valid. |
| Roles.ConvertKeepsValid | family_lib.py:188-213 | Both versions of promotion keep a consistent family consistent. |
| Roles.ConvertsDifferInDeathDate | Family.py:125-133 | The two versions of `convert` differ only in the promoted person's death date, and agree when there is none. |
| Registry.Create | family_lib.py:12-16 | A new person takes the counter value as id and the counter advances by one. The person joins the end of the family list with no edges, and everyone else is unchanged. |
| Registry.CreateKeepsValid | family_lib.py:12-16 | On a consistent family the counter value is a new id. The family grows by exactly one member, keeps every edge, and stays consistent. |
| Registry.Promote | main.py:241-248 | The hybrid is substituted under the same id, the member order is kept, and one counter value is used. |
| Registry.PromoteBoth | main.py:240-256 | After the handler both people are hybrids and everyone else is unchanged. The edge relation is unchanged and consistency is kept. Each person that was not yet a hybrid uses one counter value. |
| Registry.EstablishAsWritten | main.py:223-260 | As written. It fails exactly when choice 4 asks a person who is not Parent-capable, or choice 3 a person who is not Child-capable, and the error is then a missing method. A first attempt that succeeds adds the edge of the add method it called, dispatched on the receiver's class, and uses no counter value. A first attempt that raises TypeError ends with both people hybrids, the counter advanced as by the handler, and exactly the relation the choice names added. Members are kept and consistency is preserved. |
| Registry.LinkRelation | main.py:224-239 | When both people hold the needed roles, the requested relation is recorded in the orientation the menu choice names, and nothing else is added. |
| Registry.Establish | main.py:204-260 | Corrected version: the requested relation always holds afterwards, in the orientation the choice names. The counter is untouched when the roles already fit. Otherwise both people end up hybrids. People other than the two keep their fields. |
| Registry.EstablishKeepsValid | main.py:223-260 | The corrected version keeps the family consistent and adds exactly the requested edge and its back-reference. |
| Registry.EstablishAgreesWhenRolesFit | main.py:223-239 | Where the roles already fit and the first person is not a bare Partner, the code as written and the corrected version give the same family. |
| Registry.AsWrittenReversesParentage | main.py:224-226 | As written, asking that a Child be the parent of a bare Parent succeeds but records the opposite parentage. The corrected version records the requested one. |
| Registry.AsWrittenMissingMethod | main.py:230-240 | As written, a Child asked to be a partner, or a bare Parent asked to be a sibling, ends in an uncaught missing-method error. The corrected version records the relation in both cases. |
| Registry.ExistingRelationships | main.py:327-358 | Each of the four relations is listed exactly when its edge is present, and the list follows the fixed menu order. |
| Registry.RemoveParentChild | main.py:370-379 | If `a` is a parent of `b`, that edge and its back-reference go. Otherwise, if `b` is a parent of `a`, that one goes. Only one orientation is removed, and with neither present nothing changes. The back-reference is removed without a membership test: when the child owns a parents list that lacks the parent, the result is a ValueError, and exactly then. On a symmetric family this never happens. |
| Registry.RemoveParentChildRaises | main.py:370-375 | A Parent that lists a Child whose parents list lacks it: removing the parent-child relation raises ValueError. |
| Registry.RemoveSibling | main.py:381-386 | Exactly the sibling edge in both directions is removed. |
| Registry.RemovePartner | main.py:388-393 | Exactly the partner edge in both directions is removed. |
| Registry.RemoveRelationship | main.py:310-325 | With no relation between the two it fails with no change. Otherwise the chosen relation's edge pair is removed, and only a parent-child removal can fail, with ValueError. On a symmetric family it fails exactly when no relation exists. |
| Registry.WalkedLists | main.py:290-301 | The lists walked never include children, and include every other list the person's class owns. |
| Registry.HybridWalkedAsParent | main.py:290-301 | A hybrid walks Parent's lists, because it is an instance of Parent and the first matching class decides. Its own entry, which names children, is never used. |
| Registry.DetachList | main.py:303-308 | Walking one list empties it and removes the back-reference of each entry. No other edge changes and consistency is kept. |
| Registry.RemoveAllRelationships | main.py:288-308 | For a person without children, afterwards nobody lists the person and the person lists nobody. Edges between other people are unchanged. |
| Registry.DetachedRemoval | main.py:285 | Taking a detached person out of the family keeps it consistent, shrinks it by one and keeps every edge. |
| Registry.RemoveFirst | main.py:285 | `list.remove`: one occurrence fewer when present, the same list when absent, and distinctness is kept. |
| Registry.LeaveKeepsValid | main.py:283-286 | The last step of removal leaves a consistent family one smaller. No one references the removed id, and every other edge and person is kept. |
| Registry.PersonRemover | main.py:262-286 | Refuses, changing nothing, exactly when the person is Parent-capable and has children. Otherwise the person is gone: no remaining member references them, the family shrinks by exactly one and stays consistent, and the other edges are kept. |
| Queries.Hop | main.py:579-617 | One hop: an id is reached exactly when some starting person lists it under the given kind. |
| Queries.Grandparents | main.py:579-585 | Someone is a grandparent exactly when one of the person's parents lists them as a parent. Empty when the person owns no parents list. Within the family when it is closed. |
| Queries.Grandchildren | main.py:587-593 | Someone is a grandchild exactly when one of the person's children lists them as a child. Empty when the person owns no children list. Within the family when it is closed. |
| Queries.AuntsUncles | main.py:595-601 | Someone is an aunt or uncle exactly when one of the person's parents lists them as a sibling. Empty when the person owns no parents list. Within the family when it is closed. |
| Queries.NiecesNephews | main.py:603-609 | Someone is a niece or nephew exactly when one of the person's siblings lists them as a child. Empty when the person owns no siblings list. Within the family when it is closed. |
| Queries.Cousins | main.py:611-617 | Someone is a cousin exactly when an aunt or uncle lists them as a child, that is, when some parent has a sibling who has them as a child. Empty when the person owns no parents list. |
| Queries.ImmediateFamily | main.py:619-626 | Someone is immediate family exactly when the person lists them under some kind. |
| Queries.ExtendedFamily | main.py:628-638 | Disjoint from immediate family. Together with immediate family it covers exactly the derived relatives and the immediate family. |
| Queries.GrandparentsMirrorGrandchildren | main.py:579-593 | On a consistent family, `g` is a grandparent of `p` if and only if `p` is a grandchild of `g`. |
| Queries.AuntsUnclesMirrorNiecesNephews | main.py:595-609 | On a consistent family, `a` is an aunt or uncle of `p` if and only if `p` is a niece or nephew of `a`. |
| Queries.CousinsSymmetric | main.py:611-617 | On a consistent family, being cousins is mutual. |
| Queries.ImmediateSymmetric | main.py:619-626 | On a consistent family, immediate family is mutual. |
| Queries.ExtendedSymmetric | main.py:628-638 | On a consistent family, extended family is mutual. |
| Queries.SelfInExtendedFamily | main.py:628-638 | A consistent family in which a person is in their own extended family. |
| Statistics.Totals | main.py:753-756 | The running totals: the children summed are never fewer than the members counted. |
| Statistics.CountZeroIffChildless | main.py:753-763 | The count is zero exactly when no member has children. |
| Statistics.CountIsParents | main.py:753-756 | With distinct members, the count is the number of members with at least one child. |
| Statistics.ChildrenPerParent | main.py:749-763 | Returns nothing exactly when no member has children. Otherwise it returns the totals, with the sum at least the count and the count positive. |
| Statistics.TotalsSurvivePromotion | main.py:753-756 | Promoting anyone leaves the totals unchanged. |
| Statistics.TwoParentsFiveChildren | main.py:753-756 | Members with two, no and three children give five children over two parents. |
| Serialization.VariantOf | yaml_lib.py:68-98 | The four class names select their classes, and every other name is unknown. It is the inverse of the tag export writes. |
| Serialization.Enumerate | yaml_lib.py:33-44 | Lists every id of a set exactly once. |
| Serialization.Export | yaml_lib.py:21-45 | One record per member in family order. Each record holds the member's id, class name and scalar fields, and per kind each listed id once. A list the class lacks gives an empty one. |
| Serialization.Admit | yaml_lib.py:67-105 | A record is rejected with ValueError exactly when its tag is unknown, or it is of a dead person with a non-empty death date that does not parse. Otherwise it yields a person of the named class with the record's id and scalars and no edges. The death date is kept only for a dead person. |
| Serialization.Construct | yaml_lib.py:67-105 | Pass one succeeds exactly when every record is admitted. The members are then the record ids in order, and the counter has advanced once per record. A failure leaves the counter between the old value and one per record. |
| Serialization.ConstructKeys | yaml_lib.py:99-105 | After pass one the id map holds exactly the record ids. |
| Serialization.ConstructPeople | yaml_lib.py:99-105 | With distinct ids, each id maps to the person its record admits. |
| Serialization.RequestOwners | yaml_lib.py:111-112 | Every link request of pass two starts from a constructed person. |
| Serialization.RecordRequests | yaml_lib.py:113-136 | A record requests exactly its own id linked to each id in each of its four lists. |
| Serialization.Requests | yaml_lib.py:111-136 | The requests of all records are exactly the pairs some record lists. |
| Serialization.LinkStep | yaml_lib.py:113-136 | An unknown target is skipped and the members are always kept. A known target ends up listed, unless a side lacks the list, which raises AttributeError. |
| Serialization.LinkAll | yaml_lib.py:111-136 | Pass two keeps the members and can fail only by a missing list. |
| Serialization.LinkStepOnValid | yaml_lib.py:113-136 | On a consistent family one step skips an unknown id, fails exactly when a side lacks the list, and is otherwise the add step. |
| Serialization.LinkAllCharacterised | yaml_lib.py:111-136 | On a consistent family pass two succeeds exactly when every request with a known target fits both ends. It then yields a consistent family holding exactly the old edges, the requested ones and their back-references. |
| Serialization.MaxId | yaml_lib.py:106 | `max(ids, default=0)`: an upper bound that is one of the ids, and 0 for no ids. |
| Serialization.Import | yaml_lib.py:55-152 | No data gives an empty family with the counter untouched. Any failure gives an empty family. A non-empty result has the counter one past the largest id. |
| Serialization.ConstructedValid | yaml_lib.py:67-105 | With distinct ids, pass one builds a consistent family with no edges. |
| Serialization.ImportCharacterised | yaml_lib.py:106-136 | With distinct ids, an import is non-empty exactly when every record is admitted and every listed edge between known ids fits. The result then has the records' ids in order and is consistent. It holds exactly the listed edges and their back-references, with the counter past every id. |
| Serialization.UnknownTagRejected | yaml_lib.py:97-98 | An unknown class name yields an empty family with the counter untouched. |
| Serialization.BadDeathDateRejected | yaml_lib.py:99-101 | A dead person's unparseable death date yields an empty family after one counter value is used. |
| Serialization.AdmitExported | yaml_lib.py:22-32 | An exported record is admitted as its member without edges. |
| Serialization.ConstructExport | yaml_lib.py:22-105 | Pass one over an export rebuilds every member, without edges, in family order. |
| Serialization.ExportListsEdges | yaml_lib.py:33-44 | The requests of an export are exactly the family's edges. |
| Serialization.Relink | yaml_lib.py:111-136 | Replaying exactly the edges of a consistent family onto its stripped members restores it. |
| Serialization.RoundTrip | yaml_lib.py:22-45 | Exporting a consistent non-empty family and importing the records gives the same members in the same order and the same people with the same edges. The counter restarts one past the largest id, never above the saved counter. |
| Calendar.OrdinalSuffix | family_calendar.py:34-38 | Days 11 to 13 get "th", and every day gets one of the four suffixes. |
| Calendar.SuffixTable | family_calendar.py:34-38 | The suffix of every day of a month matches English ordinals: 1st, 2nd, 3rd, 21st, 22nd, 23rd, 31st, and "th" otherwise. |
| Calendar.HandleInput | family_calendar.py:111-125 | Only the exit key stops the loop. Exit and other keys keep the month and year. From a valid month the result is a valid month, one month later or earlier on the arrows. |
| Calendar.ForwardBackInverse | family_calendar.py:113-122 | Forward then back, and back then forward, return to the same month and year across the year boundary. |
| Calendar.TwelveStepsAYear | family_calendar.py:113-117 | Twelve steps forward keep the month and advance the year by one. |
| Calendar.Age | family_calendar.py:69-76 | The age is the number of whole years whose anniversary is on or before the reference date, with the next one still ahead. |
| Calendar.AgeUnique | family_calendar.py:69-76 | No other number of years has that property. |
| Calendar.AgeOnBirthday | family_calendar.py:50-58 | On the n-th anniversary the age is n. |
| Calendar.EntryOf | family_calendar.py:50-84 | A dead person's entry gives the age at death. A living person's gives the age on the first of the month shown. |
| Calendar.BirthdaysInMonth | family_calendar.py:41-85 | A day is a key exactly when someone is born on it in the month shown. Its list holds the entries of the people born that day, in input order. |
| Calendar.BornOn | family_calendar.py:45-49 | Empty exactly when nobody is born on that day of the month. |
| Calendar.BornOnCounts | family_calendar.py:45-85 | A day's list is as long as the number of people born on it. |
| Calendar.BornOnLists | family_calendar.py:45-85 | Everyone born in the month shown appears under their day. |

## Left out

- Interactive input and output are not modelled: prompts, menus, printed messages and the help text of main.py, and the command parsing.
- A menu choice is an argument: the `rel` of `establish_relationship` and the choice of `remove_relationship`.
- Looking up a person by name (`get_id`) is not modelled. Operations take ids of members.
- The average age and average death age depend on today's date and on floating-point division, so they are left out.
- The children-per-parent quotient and its two-decimal formatting are left out. Only the two counts are modelled.
- Parsing a date with the year-month-day format is the parameter `isDate`.
- The calendar takes dates as plain numbers. `datetime` parsing and date validity are not modelled.
- Reading and writing the save file, the YAML encoding, the save folder and the timestamped filename are left out. Import receives the records, or nothing for a missing or empty file.
- The GUI, the tree visualiser, curses rendering, `generate_month_calendar` and `format_birthday_line` are presentation only.
- Prototype copies of the program and its own test scripts are not part of this model.
- The program keeps a second reference to the family list in its statistics object, and that reference goes stale after a promotion. The model has one family.
- Lists are id-sets, so the order and multiplicity of the source's lists are not modelled. Nothing in the program adds a duplicate, since every add step checks membership first.
- Queries.Grandparents: this query and the other derived queries return sets. The source returns lists that can repeat a relative, for example a grandparent reached through both parents.
- Registry.RemoveRelationship: the prompt loops until the user picks a listed relation. The model takes that choice as a precondition.
- Registry.RemoveAllRelationships: the choice `remove_all_relationships` leaves to the user is the relation matching the list being walked. The model requires the person to have no children, as `person_remover` guarantees before calling it.
- Registry.PersonRemover: the person is found by id, not by name.
- Serialization.ImportCharacterised: requires distinct record ids. With repeated ids the source maps the id to the last record's person but keeps both objects in the family list. `Serialization.Import` itself accepts any records.
- Serialization.Export: writes each id list in some order, not in the source's insertion order.
- Records are complete: each carries an id, a class name, the scalar fields and the four id lists. In the source a record missing the id or a scalar field raises KeyError, which the last handler turns into an empty family (yaml_lib.py:150-152). A missing class name reads as "Person", an unknown class, which is the rejection `Serialization.Admit` models. A missing id list reads as empty.
- Statistics.ChildrenPerParent: returns the two counts, not the printed average.

## Findings

| source | as written | input that shows it | evidently intended | confidence | as-written member | corrected member |
|---|---|---|---|---|---|---|
| main.py:224-229 | Menu choice 1 calls `per1.add_person(per2)`, whose meaning depends on per1's class. A Child's `add_person` adds a parent. | per1 a Child, per2 a bare Parent, choice 1 ("per1 is the parent of per2") | per1 becomes the parent of per2, promoting per1 to a hybrid if needed | not executed | Registry.EstablishAsWritten (shown by Registry.AsWrittenReversesParentage) | Registry.Establish |
| main.py:230-240 | Choices 3 and 4 call `add_sibling` and `add_partner` on per1. A class without the method raises AttributeError, which the `except TypeError` handler does not catch, so no promotion happens. | per1 a Child, choice 4 (partners); or per1 a bare Parent, choice 3 (siblings) | both people are promoted and the relation is recorded, as for a role mismatch | not executed | Registry.EstablishAsWritten (shown by Registry.AsWrittenMissingMethod) | Registry.Establish |
