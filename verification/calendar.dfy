/** The arithmetic of the birthday calendar: ordinal suffixes, month
    navigation, whole-year ages and grouping birthdays by day.

    Dates are plain (year, month, day) triples compared the way Python
    compares tuples; parsing, the month names and the screen drawing are
    not modelled.
 */
module Calendar {
  import opened Outcomes

  /** `get_ordinal_suffix`. Dafny's `%` agrees with Python's for the
      positive divisor 10. */
  function OrdinalSuffix(day: int): (r: string)
    ensures 11 <= day <= 13 ==> r == "th"
    ensures r == "st" || r == "nd" || r == "rd" || r == "th"
  {
    if 11 <= day <= 13 then "th"
    else if day % 10 == 1 then "st"
    else if day % 10 == 2 then "nd"
    else if day % 10 == 3 then "rd"
    else "th"
  }

  /** The English ordinals of the days of a month, written out. */
  lemma SuffixTable(day: int)
    requires 1 <= day <= 31
    ensures OrdinalSuffix(day) ==
      if day == 1 || day == 21 || day == 31 then "st"
      else if day == 2 || day == 22 then "nd"
      else if day == 3 || day == 23 then "rd"
      else "th"
  {
  }

  /** The keys the calendar reacts to: the arrows and x/X. */
  datatype Key = Right | Down | Left | Up | Exit | Other

  /** `handle_user_input`: whether to keep going, and the month and year
      shown next. */
  function HandleInput(key: Key, month: int, year: int): (r: (bool, int, int))
    ensures r.0 <==> key != Exit
    ensures (key == Exit || key == Other) ==> r.1 == month && r.2 == year
    ensures 1 <= month <= 12 ==> 1 <= r.1 <= 12
    ensures 1 <= month <= 12 ==> MonthIndex(r.2, r.1) == MonthIndex(year, month) + Step(key)
  {
    match key
    case Right => if month + 1 > 12 then (true, 1, year + 1) else (true, month + 1, year)
    case Down => if month + 1 > 12 then (true, 1, year + 1) else (true, month + 1, year)
    case Left => if month - 1 < 1 then (true, 12, year - 1) else (true, month - 1, year)
    case Up => if month - 1 < 1 then (true, 12, year - 1) else (true, month - 1, year)
    case Exit => (false, month, year)
    case Other => (true, month, year)
  }

  /** Months counted from year 0, so that consecutive months differ by one. */
  function MonthIndex(year: int, month: int): int {
    year * 12 + (month - 1)
  }

  /** How many months a key moves. */
  function Step(key: Key): int {
    match key
    case Right => 1
    case Down => 1
    case Left => -1
    case Up => -1
    case Exit => 0
    case Other => 0
  }

  /** Moving forward and then back, or back and then forward, returns to the
      month and year shown. */
  lemma ForwardBackInverse(month: int, year: int)
    requires 1 <= month <= 12
    ensures var f := HandleInput(Right, month, year); HandleInput(Left, f.1, f.2) == (true, month, year)
    ensures var b := HandleInput(Left, month, year); HandleInput(Right, b.1, b.2) == (true, month, year)
  {
  }

  /** Twelve steps forward advance the year and keep the month. */
  lemma {:induction false} TwelveStepsAYear(month: int, year: int, n: nat)
    requires 1 <= month <= 12 && n <= 12
    ensures var r := Forward(month, year, n);
      1 <= r.0 <= 12 && MonthIndex(r.1, r.0) == MonthIndex(year, month) + n
    ensures n == 12 ==> Forward(month, year, n) == (month, year + 1)
  {
    if n > 0 {
      TwelveStepsAYear(month, year, n - 1);
    }
    if n == 12 {
      var r := Forward(month, year, 12);
      assert MonthIndex(r.1, r.0) == MonthIndex(year + 1, month);
      MonthIndexInjective(r.1, r.0, year + 1, month);
    }
  }

  /** `n` presses of the forward arrow. */
  function Forward(month: int, year: int, n: nat): (int, int) {
    if n == 0 then (month, year)
    else
      var prev := Forward(month, year, n - 1);
      var r := HandleInput(Right, prev.0, prev.1);
      (r.1, r.2)
  }

  /** Within months 1 to 12 the index determines the month and year. */
  lemma MonthIndexInjective(y1: int, m1: int, y2: int, m2: int)
    requires 1 <= m1 <= 12 && 1 <= m2 <= 12
    requires MonthIndex(y1, m1) == MonthIndex(y2, m2)
    ensures y1 == y2 && m1 == m2
  {
  }

  datatype Date = Date(year: int, month: int, day: int)

  /** Python's `(a.month, a.day) < (b.month, b.day)`. */
  predicate DayBefore(a: Date, b: Date) {
    a.month < b.month || (a.month == b.month && a.day < b.day)
  }

  /** Python's tuple order on (year, month, day). */
  predicate Before(a: Date, b: Date) {
    a.year < b.year || (a.year == b.year && DayBefore(a, b))
  }

  /** The `n`th anniversary of `birth`. */
  function Anniversary(birth: Date, n: int): Date {
    Date(birth.year + n, birth.month, birth.day)
  }

  /** The age on `ref` of someone born on `birth`: the difference in years,
      less one while this year's birthday is still to come. */
  function Age(birth: Date, ref: Date): (r: int)
    ensures !Before(ref, Anniversary(birth, r)) && Before(ref, Anniversary(birth, r + 1))
  {
    ref.year - birth.year - (if DayBefore(ref, birth) then 1 else 0)
  }

  /** The age is the only whole number of years whose anniversary has
      passed while the next one has not. */
  lemma AgeUnique(birth: Date, ref: Date, n: int)
    requires !Before(ref, Anniversary(birth, n)) && Before(ref, Anniversary(birth, n + 1))
    ensures n == Age(birth, ref)
  {
  }

  /** The age on one's birthday is the difference in years. */
  lemma AgeOnBirthday(birth: Date, n: int)
    ensures Age(birth, Anniversary(birth, n)) == n
  {
  }

  /** A person's birthday and, if given, death date. */
  datatype Dates = Dates(name: string, birth: Date, death: Option<Date>)

  /** One line of a day's list: the age in the year shown, or the age at
      death. */
  datatype Entry =
    | Living(name: string, age: int, birth: Date)
    | Died(name: string, ageAtDeath: int, death: Date, birth: Date)

  /** The entry for one person whose birthday falls in the month shown;
      the living age is taken on the first of that month. */
  function EntryOf(p: Dates, month: int, year: int): (e: Entry)
    ensures p.death.Some? <==> e.Died?
    ensures e.name == p.name && e.birth == p.birth
    ensures e.Living? ==> e.age == Age(p.birth, Date(year, month, 1))
    ensures e.Died? ==> e.death == p.death.value && e.ageAtDeath == Age(p.birth, p.death.value)
  {
    match p.death
    case Some(d) => Died(p.name, Age(p.birth, d), d, p.birth)
    case None => Living(p.name, Age(p.birth, Date(year, month, 1)), p.birth)
  }

  /** The days of `month` on which someone in `people` was born. */
  function BirthDays(people: seq<Dates>, month: int): set<int> {
    set i | 0 <= i < |people| && people[i].birth.month == month :: people[i].birth.day
  }

  /** `get_birthdays_in_month`: the people born in `month`, grouped by day
      of birth, each list in input order. */
  function BirthdaysInMonth(people: seq<Dates>, month: int, year: int): (r: map<int, seq<Entry>>)
    ensures r.Keys == BirthDays(people, month)
    ensures forall d | d in r :: r[d] == BornOn(people, month, d, year)
    decreases |people|
  {
    if people == [] then map[]
    else
      var n := |people| - 1;
      var init := people[..n];
      var p := people[n];
      var prior := BirthdaysInMonth(init, month, year);
      BirthDaysStep(people, month);
      BornOnStep(people, month, year);
      if p.birth.month != month then prior
      else
        var d := p.birth.day;
        BornOnListed(init, month, d, year);
        prior[d := (if d in prior then prior[d] else []) + [EntryOf(p, month, year)]]
  }

  /** The last person adds their day of birth to the days of the month
      exactly when born in that month. */
  lemma BirthDaysStep(people: seq<Dates>, month: int)
    requires people != []
    ensures var n := |people| - 1;
      var p := people[n];
      BirthDays(people, month) == BirthDays(people[..n], month) + (if p.birth.month == month then {p.birth.day} else {})
  {
    var n := |people| - 1;
    var init := people[..n];
    assert forall i | 0 <= i < n :: init[i] == people[i];
    forall d | d in BirthDays(init, month) ensures d in BirthDays(people, month) {
      var i :| 0 <= i < n && init[i].birth.month == month && init[i].birth.day == d;
      assert people[i] == init[i];
    }
  }

  /** The last person adds their entry to the end of their own day's list
      and to no other. */
  lemma BornOnStep(people: seq<Dates>, month: int, year: int)
    requires people != []
    ensures var n := |people| - 1;
      var p := people[n];
      forall d :: (BornOn(people, month, d, year) == BornOn(people[..n], month, d, year) +
        (if p.birth.month == month && p.birth.day == d then [EntryOf(p, month, year)] else []))
  {
  }

  /** A day with someone born on it is one of the birth days. */
  lemma BornOnListed(people: seq<Dates>, month: int, d: int, year: int)
    ensures BornOn(people, month, d, year) != [] ==> d in BirthDays(people, month)
  {
    if BornOn(people, month, d, year) != [] {
      var i :| 0 <= i < |people| && people[i].birth.month == month && people[i].birth.day == d;
      assert d in BirthDays(people, month);
    }
  }

  /** The entries of the people born on `day` of `month`, in input order. */
  function BornOn(people: seq<Dates>, month: int, day: int, year: int): (r: seq<Entry>)
    ensures |r| <= |people|
    ensures r == [] <==> forall i | 0 <= i < |people| :: !(people[i].birth.month == month && people[i].birth.day == day)
    decreases |people|
  {
    if people == [] then []
    else
      var init := people[..|people| - 1];
      var p := people[|people| - 1];
      assert forall i | 0 <= i < |init| :: init[i] == people[i];
      BornOn(init, month, day, year) +
        (if p.birth.month == month && p.birth.day == day then [EntryOf(p, month, year)] else [])
  }

  /** The people born on that day, by position. */
  function BornOnIndices(people: seq<Dates>, month: int, day: int): set<int> {
    set i | 0 <= i < |people| && people[i].birth.month == month && people[i].birth.day == day
  }

  /** Each person born on the day is listed under it, once: the list is as
      long as the number of such people. */
  lemma {:induction false} BornOnCounts(people: seq<Dates>, month: int, day: int, year: int)
    ensures |BornOn(people, month, day, year)| == |BornOnIndices(people, month, day)|
    decreases |people|
  {
    if people != [] {
      var n := |people| - 1;
      var init := people[..n];
      BornOnCounts(init, month, day, year);
      IndicesStep(people, month, day);
    }
  }

  /** The last person adds their own position to the indices exactly when
      born on the day. */
  lemma IndicesStep(people: seq<Dates>, month: int, day: int)
    requires people != []
    ensures var n := |people| - 1;
      var here := people[n].birth.month == month && people[n].birth.day == day;
      && n !in BornOnIndices(people[..n], month, day)
      && BornOnIndices(people, month, day) == BornOnIndices(people[..n], month, day) + (if here then {n} else {})
  {
    var n := |people| - 1;
    var init := people[..n];
    assert forall i | 0 <= i < n :: init[i] == people[i];
  }

  /** The entry of every person born on the day is in its list. */
  lemma {:induction false} BornOnLists(people: seq<Dates>, month: int, year: int, i: int)
    requires 0 <= i < |people| && people[i].birth.month == month
    ensures var r := BirthdaysInMonth(people, month, year);
      people[i].birth.day in r && EntryOf(people[i], month, year) in r[people[i].birth.day]
  {
    BornOnHas(people, month, people[i].birth.day, year, i);
  }

  lemma {:induction false} BornOnHas(people: seq<Dates>, month: int, day: int, year: int, i: int)
    requires 0 <= i < |people| && people[i].birth.month == month && people[i].birth.day == day
    ensures EntryOf(people[i], month, year) in BornOn(people, month, day, year)
    decreases |people|
  {
    var n := |people| - 1;
    if i < n {
      var init := people[..n];
      assert init[i] == people[i];
      BornOnHas(init, month, day, year, i);
    }
  }
}
