/** The feeder's record store: three tables (foods, schedules, history) with
    auto-increment ids, the queries the application and the scheduler run on
    them, and the two grams/calories conversions. The tables are kept in
    memory as sequences in id order; the SQL engine itself is not modelled. */
module Models {
  import opened Wrappers
  import Sorting

  /** A row of `foods`; the ratios are validated by the form, not by the table. */
  datatype Food = Food(id: int, name: string, gramsPerPortion: real, caloriesPerPortion: real)

  /** A row of `schedules`; `executed` starts false and only ever becomes true. */
  datatype Schedule = Schedule(id: int, foodId: int, hopperIndex: int, grams: real, whenTs: int, executed: bool)

  /** A row of the `list_schedules` join: the schedule with the name of its food. */
  datatype ScheduleRow = ScheduleRow(id: int, foodName: string, hopperIndex: int, grams: real,
                                     whenTs: int, executed: bool, foodId: int)

  /** A row of `history`; the food name is a snapshot taken at dispense time. */
  datatype HistoryEntry = HistoryEntry(foodName: string, hopperIndex: int, grams: real, calories: real, ts: int)

  /** The foods a new store is seeded with: name, grams and calories per portion. */
  const DefaultFoods: seq<(string, real, real)> :=
    [("Arroz", 100.0, 130.0), ("Avena", 100.0, 389.0), ("Frijol", 100.0, 347.0)]

  /** Seven days in seconds, the reach of the history query. */
  const HistoryWindow: int := 7 * 24 * 3600

  // ---------------------------------------------------------------- lookups

  /** `SELECT … FROM foods WHERE id = ?`: the food with that id, if any. */
  function FoodById(foods: seq<Food>, id: int): (r: Option<Food>)
    ensures r.Some? ==> r.value in foods && r.value.id == id
    ensures r.None? ==> forall f :: f in foods ==> f.id != id
  {
    if foods == [] then None
    else if foods[0].id == id then Some(foods[0])
    else FoodById(foods[1..], id)
  }

  /** `SELECT … FROM foods WHERE name = ?`: the food with that name, if any. */
  function FoodNamed(foods: seq<Food>, name: string): (r: Option<Food>)
    ensures r.Some? ==> r.value in foods && r.value.name == name
    ensures r.None? ==> forall f :: f in foods ==> f.name != name
  {
    if foods == [] then None
    else if foods[0].name == name then Some(foods[0])
    else FoodNamed(foods[1..], name)
  }

  // ---------------------------------------------------------------- orderings

  /** Binary collation of text: code point by code point, a proper prefix first. */
  predicate NameLe(a: string, b: string)
  {
    if a == [] then true
    else if b == [] then false
    else if a[0] != b[0] then a[0] < b[0]
    else NameLe(a[1..], b[1..])
  }

  lemma {:induction false} NameLeTotal(a: string, b: string)
    ensures NameLe(a, b) || NameLe(b, a)
  {
    if a != [] && b != [] && a[0] == b[0] {
      NameLeTotal(a[1..], b[1..]);
    }
  }

  lemma {:induction false} NameLeTransitive(a: string, b: string, c: string)
    requires NameLe(a, b) && NameLe(b, c)
    ensures NameLe(a, c)
  {
    if a != [] && b != [] && c != [] && a[0] == b[0] && b[0] == c[0] {
      NameLeTransitive(a[1..], b[1..], c[1..]);
    }
  }

  /** Two names that collate both ways are the same name, so unique names sort in one way only. */
  lemma {:induction false} NameLeAntisymmetric(a: string, b: string)
    requires NameLe(a, b) && NameLe(b, a)
    ensures a == b
  {
    if a != [] && b != [] {
      NameLeAntisymmetric(a[1..], b[1..]);
      assert a == [a[0]] + a[1..] && b == [b[0]] + b[1..];
    }
  }

  /** `ORDER BY name`. */
  predicate FoodLe(x: Food, y: Food)
  {
    NameLe(x.name, y.name)
  }

  /** `ORDER BY s.when_ts ASC`. */
  predicate WhenLe(x: ScheduleRow, y: ScheduleRow)
  {
    x.whenTs <= y.whenTs
  }

  /** `ORDER BY ts DESC`. */
  predicate NewerOrSame(x: HistoryEntry, y: HistoryEntry)
  {
    x.ts >= y.ts
  }

  lemma FoodLePreorder()
    ensures Sorting.TotalPreorder(FoodLe)
  {
    forall a: Food, b: Food ensures FoodLe(a, b) || FoodLe(b, a) {
      NameLeTotal(a.name, b.name);
    }
    forall a: Food, b: Food, c: Food | FoodLe(a, b) && FoodLe(b, c) ensures FoodLe(a, c) {
      NameLeTransitive(a.name, b.name, c.name);
    }
  }

  // ---------------------------------------------------------------- queries

  /** Names are unique, so `ORDER BY name` meets no ties: two name-sorted arrangements of
      the same foods are the same sequence, whatever order the table holds them in. */
  lemma {:induction false} FoodsOrderDetermined(a: seq<Food>, b: seq<Food>)
    requires multiset(a) == multiset(b)
    requires Sorting.SortedBy(a, FoodLe) && Sorting.SortedBy(b, FoodLe)
    requires forall i, j :: 0 <= i < j < |a| ==> a[i].name != a[j].name
    ensures a == b
  {
    assert |a| == |multiset(a)| == |multiset(b)| == |b|;
    if a != [] {
      SameFirstFood(a, b);
      assert multiset(a[1..]) == multiset(a) - multiset{a[0]} by {
        assert a == [a[0]] + a[1..];
      }
      assert multiset(b[1..]) == multiset(b) - multiset{b[0]} by {
        assert b == [b[0]] + b[1..];
      }
      Sorting.SortedTail(a, FoodLe);
      Sorting.SortedTail(b, FoodLe);
      FoodsOrderDetermined(a[1..], b[1..]);
      assert a == [a[0]] + a[1..] && b == [b[0]] + b[1..];
    }
  }

  /** Two name-sorted arrangements of the same foods with unique names start alike. */
  lemma SameFirstFood(a: seq<Food>, b: seq<Food>)
    requires a != [] && multiset(a) == multiset(b)
    requires Sorting.SortedBy(a, FoodLe) && Sorting.SortedBy(b, FoodLe)
    requires forall i, j :: 0 <= i < j < |a| ==> a[i].name != a[j].name
    ensures b != [] && a[0] == b[0]
  {
    assert a[0] in multiset(b);
    assert b != [] && b[0] in multiset(a);
    if a[0] != b[0] {
      var ka :| 0 <= ka < |b| && b[ka] == a[0];
      var kb :| 0 <= kb < |a| && a[kb] == b[0];
      assert FoodLe(b[0], b[ka]) && FoodLe(a[0], a[kb]);
      NameLeAntisymmetric(a[0].name, b[0].name);
      assert false;
    }
  }

  /** `list_foods`: all foods ordered by name. */
  function FoodsByName(foods: seq<Food>): (r: seq<Food>)
    ensures multiset(r) == multiset(foods)
    ensures Sorting.SortedBy(r, FoodLe)
  {
    FoodLePreorder();
    Sorting.SortSorted(foods, FoodLe);
    Sorting.Sort(foods, FoodLe)
  }

  /** The join row of one schedule, present only when its food exists. */
  function RowFor(foods: seq<Food>, s: Schedule): Option<ScheduleRow>
  {
    match FoodById(foods, s.foodId)
    case Some(f) => Some(ScheduleRow(s.id, f.name, s.hopperIndex, s.grams, s.whenTs, s.executed, s.foodId))
    case None => None
  }

  /** `schedules s JOIN foods f ON f.id = s.food_id`, in table order. */
  function JoinRows(foods: seq<Food>, schedules: seq<Schedule>): seq<ScheduleRow>
  {
    if schedules == [] then []
    else
      (match RowFor(foods, schedules[0]) case Some(row) => [row] case None => [])
      + JoinRows(foods, schedules[1..])
  }

  /** The join holds exactly the rows of the schedules whose food exists. */
  lemma {:induction false} JoinRowsMembership(foods: seq<Food>, schedules: seq<Schedule>, row: ScheduleRow)
    ensures row in JoinRows(foods, schedules) <==>
      exists i :: 0 <= i < |schedules| && RowFor(foods, schedules[i]) == Some(row)
  {
    if schedules != [] {
      var tail := schedules[1..];
      JoinRowsMembership(foods, tail, row);
      if exists i :: 0 <= i < |tail| && RowFor(foods, tail[i]) == Some(row) {
        var i :| 0 <= i < |tail| && RowFor(foods, tail[i]) == Some(row);
        assert schedules[i + 1] == tail[i];
      }
      if exists i :: 0 <= i < |schedules| && RowFor(foods, schedules[i]) == Some(row) {
        var i :| 0 <= i < |schedules| && RowFor(foods, schedules[i]) == Some(row);
        if i > 0 {
          assert tail[i - 1] == schedules[i];
        }
      }
    }
  }

  /** `list_schedules`: the join ordered by due time. */
  function ScheduleRows(foods: seq<Food>, schedules: seq<Schedule>): seq<ScheduleRow>
  {
    Sorting.Sort(JoinRows(foods, schedules), WhenLe)
  }

  /** `list_schedules` returns, ascending by `when_ts`, a row for every schedule whose food
      exists and no other row. */
  lemma ScheduleRowsSpec(foods: seq<Food>, schedules: seq<Schedule>)
    ensures Sorting.SortedBy(ScheduleRows(foods, schedules), WhenLe)
    ensures forall row :: row in ScheduleRows(foods, schedules) <==>
      exists i :: 0 <= i < |schedules| && RowFor(foods, schedules[i]) == Some(row)
    ensures multiset(ScheduleRows(foods, schedules)) == multiset(JoinRows(foods, schedules))
  {
    Sorting.SortSorted(JoinRows(foods, schedules), WhenLe);
    forall row ensures row in ScheduleRows(foods, schedules) <==>
      exists i :: 0 <= i < |schedules| && RowFor(foods, schedules[i]) == Some(row)
    {
      assert row in ScheduleRows(foods, schedules) <==> row in multiset(ScheduleRows(foods, schedules));
      JoinRowsMembership(foods, schedules, row);
    }
  }

  function RowId(row: ScheduleRow): int
  {
    row.id
  }

  /** Schedules in strictly increasing id order, the order auto-increment leaves them in. */
  ghost predicate IdsIncreasing(schedules: seq<Schedule>)
  {
    forall i, j :: 0 <= i < j < |schedules| ==> schedules[i].id < schedules[j].id
  }

  lemma {:induction false} JoinRowsDistinct(foods: seq<Food>, schedules: seq<Schedule>)
    requires IdsIncreasing(schedules)
    ensures Sorting.DistinctBy(JoinRows(foods, schedules), RowId)
  {
    if schedules != [] {
      var tail := schedules[1..];
      JoinRowsDistinct(foods, tail);
      var rest := JoinRows(foods, tail);
      forall row | row in rest ensures row.id > schedules[0].id {
        JoinRowsMembership(foods, tail, row);
        var i :| 0 <= i < |tail| && RowFor(foods, tail[i]) == Some(row);
        assert tail[i] == schedules[i + 1];
      }
      var head := match RowFor(foods, schedules[0]) case Some(row) => [row] case None => [];
      var r := head + rest;
      forall i, j | 0 <= i < j < |r| ensures RowId(r[i]) != RowId(r[j]) {
        if i < |head| {
          assert r[i] == RowFor(foods, schedules[0]).value && r[j] == rest[j - |head|];
          assert r[j] in rest;
        } else {
          assert r[i] == rest[i - |head|] && r[j] == rest[j - |head|];
        }
      }
    }
  }

  /** Schedule ids are unique, so no row of `list_schedules` appears twice. */
  lemma ScheduleRowsDistinct(foods: seq<Food>, schedules: seq<Schedule>)
    requires IdsIncreasing(schedules)
    ensures Sorting.DistinctBy(ScheduleRows(foods, schedules), RowId)
  {
    JoinRowsDistinct(foods, schedules);
    Sorting.SortDistinct(JoinRows(foods, schedules), WhenLe, RowId);
  }

  /** `history_last_7_days`: the entries no older than a week, newest first. */
  function RecentHistory(history: seq<HistoryEntry>, now: int): seq<HistoryEntry>
  {
    Sorting.Sort(Sorting.Filter(history, NoOlderThan(now - HistoryWindow)), NewerOrSame)
  }

  /** The filter `ts >= since`. */
  function NoOlderThan(since: int): HistoryEntry -> bool
  {
    (e: HistoryEntry) => e.ts >= since
  }

  /** The history query returns each entry with `ts >= now - 604800` exactly as often as it
      was recorded, no other entry, and in descending `ts` order. */
  lemma RecentHistorySpec(history: seq<HistoryEntry>, now: int)
    ensures Sorting.SortedBy(RecentHistory(history, now), NewerOrSame)
    ensures forall e :: multiset(RecentHistory(history, now))[e] ==
                        (if e.ts >= now - 604800 then multiset(history)[e] else 0)
  {
    var p := NoOlderThan(now - HistoryWindow);
    Sorting.SortSorted(Sorting.Filter(history, p), NewerOrSame);
    forall e ensures multiset(RecentHistory(history, now))[e] ==
                     (if e.ts >= now - 604800 then multiset(history)[e] else 0)
    {
      Sorting.FilterCount(history, p, e);
    }
  }

  // ---------------------------------------------------------------- table updates as values

  /** The schedules with `executed` set for every id in `ids`. */
  function MarkIds(schedules: seq<Schedule>, ids: set<int>): seq<Schedule>
  {
    seq(|schedules|, i requires 0 <= i < |schedules| =>
      if schedules[i].id in ids then schedules[i].(executed := true) else schedules[i])
  }

  /** Marking sets the flag exactly for the listed ids, never clears one, and leaves every
      other field of every row as it was. */
  lemma MarkIdsEffect(schedules: seq<Schedule>, ids: set<int>, i: int)
    requires 0 <= i < |schedules|
    ensures |MarkIds(schedules, ids)| == |schedules|
    ensures MarkIds(schedules, ids)[i].executed <==> schedules[i].executed || schedules[i].id in ids
    ensures MarkIds(schedules, ids)[i].(executed := schedules[i].executed) == schedules[i]
  {
  }

  /** Marking twice is marking once with both id sets; in particular `mark_executed` is idempotent. */
  lemma MarkIdsTwice(schedules: seq<Schedule>, a: set<int>, b: set<int>)
    ensures MarkIds(MarkIds(schedules, a), b) == MarkIds(schedules, a + b)
    ensures MarkIds(MarkIds(schedules, a), a) == MarkIds(schedules, a)
  {
  }

  /** Every food whose name is `name` now carries the given ratios. */
  function WithRatios(foods: seq<Food>, name: string, gpp: real, cpp: real): seq<Food>
  {
    seq(|foods|, i requires 0 <= i < |foods| =>
      if foods[i].name == name then foods[i].(gramsPerPortion := gpp, caloriesPerPortion := cpp) else foods[i])
  }

  /** The food with id `id`, if any, now has the given name and ratios. */
  function WithFood(foods: seq<Food>, id: int, name: string, gpp: real, cpp: real): seq<Food>
  {
    seq(|foods|, i requires 0 <= i < |foods| =>
      if foods[i].id == id then Food(id, name, gpp, cpp) else foods[i])
  }

  /** No food other than the one with id `id` is called `name` (the UNIQUE constraint). */
  ghost predicate NameFreeFor(foods: seq<Food>, name: string, id: int)
  {
    forall f :: f in foods && f.name == name ==> f.id == id
  }

  /** The seeded foods, numbered from `start`. */
  function Seeded(start: int): seq<Food>
  {
    seq(|DefaultFoods|, k requires 0 <= k < |DefaultFoods| =>
      Food(start + k, DefaultFoods[k].0, DefaultFoods[k].1, DefaultFoods[k].2))
  }

  // ---------------------------------------------------------------- the store

  /** The contents of the database file when it is opened: the three tables and the two
      auto-increment counters. */
  datatype StoredTables = StoredTables(foods: seq<Food>, schedules: seq<Schedule>, history: seq<HistoryEntry>,
                                       nextFoodId: int, nextScheduleId: int)

  /** A file that does not exist yet: empty tables, both counters at 1. */
  const NewFile: StoredTables := StoredTables([], [], [], 1, 1)

  lemma NewFileValid()
    ensures StoredValid(NewFile)
  {
  }

  /** What the schema's constraints guarantee of a stored file. */
  ghost predicate StoredValid(file: StoredTables)
  {
    FoodsValid(file.foods, file.nextFoodId) && SchedulesValid(file.schedules, file.nextScheduleId, file.foods)
  }

  /** In-memory store of the three tables; the `next…` fields are the auto-increment counters. */
  class DB {
    var foods: seq<Food>
    var schedules: seq<Schedule>
    var history: seq<HistoryEntry>
    var nextFoodId: int
    var nextScheduleId: int

    /** Ids are positive, increasing and below their counters; names are unique; every
        schedule refers to an existing food (the foreign key). */
    ghost predicate Valid()
      reads this
    {
      FoodsValid(foods, nextFoodId) && SchedulesValid(schedules, nextScheduleId, foods)
    }

    /** Opening the database file: the stored tables are loaded and `_migrate` runs, which
        seeds the default foods only when the foods table is empty. */
    constructor (file: StoredTables)
      requires StoredValid(file)
      ensures Valid()
      ensures schedules == file.schedules && history == file.history && nextScheduleId == file.nextScheduleId
      ensures file.foods == [] ==> foods == Seeded(file.nextFoodId) && nextFoodId == file.nextFoodId + |DefaultFoods|
      ensures file.foods != [] ==> foods == file.foods && nextFoodId == file.nextFoodId
    {
      foods, schedules, history := file.foods, file.schedules, file.history;
      nextFoodId, nextScheduleId := file.nextFoodId, file.nextScheduleId;
      new;
      Migrate();
    }

    /** Seeds the default foods, but only into an empty foods table. */
    method Migrate()
      requires Valid()
      modifies this
      ensures Valid()
      ensures schedules == old(schedules) && history == old(history) && nextScheduleId == old(nextScheduleId)
      ensures old(foods) == [] ==> foods == Seeded(old(nextFoodId)) && nextFoodId == old(nextFoodId) + |DefaultFoods|
      ensures old(foods) != [] ==> foods == old(foods) && nextFoodId == old(nextFoodId)
    {
      if |foods| == 0 {
        var start := nextFoodId;
        var k := 0;
        while k < |DefaultFoods|
          invariant 0 <= k <= |DefaultFoods|
          invariant Valid()
          invariant foods == Seeded(start)[..k] && nextFoodId == start + k
          invariant schedules == old(schedules) && history == old(history)
          invariant nextScheduleId == old(nextScheduleId)
        {
          SeedOne(start, k);
          k := k + 1;
        }
      }
    }

    /** One iteration of the seeding loop: inserts the `k`-th default food. */
    method SeedOne(start: int, k: int)
      requires 0 <= k < |DefaultFoods|
      requires Valid() && foods == Seeded(start)[..k] && nextFoodId == start + k
      modifies this
      ensures Valid() && foods == Seeded(start)[..k + 1] && nextFoodId == start + k + 1
      ensures schedules == old(schedules) && history == old(history) && nextScheduleId == old(nextScheduleId)
    {
      SeededStep(start, k);
      var _ := UpsertFood(DefaultFoods[k].0, DefaultFoods[k].1, DefaultFoods[k].2, None);
    }

    /** `list_foods`: every food exactly once, ordered by name. */
    function ListFoods(): (r: seq<Food>)
      reads this
      ensures multiset(r) == multiset(foods)
      ensures Sorting.SortedBy(r, FoodLe)
    {
      FoodsByName(foods)
    }

    /** `upsert_food`: without an id, the food with this name now has these ratios (added
        under a fresh id if it did not exist); with an id, that food is renamed and given
        these ratios, unless another food already has the name. */
    method UpsertFood(name: string, gpp: real, cpp: real, foodId: Option<int>) returns (ok: bool)
      requires Valid()
      modifies this
      ensures Valid()
      ensures schedules == old(schedules) && history == old(history) && nextScheduleId == old(nextScheduleId)
      ensures foodId.None? ==> ok
      ensures foodId.None? && FoodNamed(old(foods), name).None? ==>
        foods == old(foods) + [Food(old(nextFoodId), name, gpp, cpp)] && nextFoodId == old(nextFoodId) + 1
      ensures foodId.None? && FoodNamed(old(foods), name).Some? ==>
        foods == WithRatios(old(foods), name, gpp, cpp) && nextFoodId == old(nextFoodId)
      ensures foodId.None? ==>
        (FoodNamed(foods, name).Some? &&
         FoodNamed(foods, name).value.gramsPerPortion == gpp && FoodNamed(foods, name).value.caloriesPerPortion == cpp)
      ensures foodId.Some? ==> (ok <==> NameFreeFor(old(foods), name, foodId.value))
      ensures foodId.Some? && ok ==> foods == WithFood(old(foods), foodId.value, name, gpp, cpp)
      ensures foodId.Some? ==> nextFoodId == old(nextFoodId)
      ensures !ok ==> foods == old(foods)
    {
      match foodId {
        case None =>
          ok := true;
          var before := foods;
          if FoodNamed(foods, name).None? {
            foods := foods + [Food(nextFoodId, name, gpp, cpp)];
            AppendFoodValid(before, nextFoodId, name, gpp, cpp);
            nextFoodId := nextFoodId + 1;
          } else {
            foods := WithRatios(foods, name, gpp, cpp);
            WithRatiosValid(before, nextFoodId, name, gpp, cpp);
          }
          KeysKept(before, foods, schedules, nextScheduleId);
        case Some(id) =>
          if forall f :: f in foods && f.name == name ==> f.id == id {
            ok := true;
            var before := foods;
            foods := WithFood(foods, id, name, gpp, cpp);
            WithFoodValid(before, nextFoodId, id, name, gpp, cpp);
            KeysKept(before, foods, schedules, nextScheduleId);
          } else {
            ok := false;
          }
      }
    }

    /** `get_food`: the food with that id, or nothing when there is none. */
    function GetFood(id: int): (r: Option<Food>)
      reads this
      ensures r.Some? ==> r.value in foods && r.value.id == id
      ensures r.None? ==> forall f :: f in foods ==> f.id != id
    {
      FoodById(foods, id)
    }

    /** `food_by_name`: the food with exactly that name, or nothing when there is none. */
    function FoodByName(name: string): (r: Option<Food>)
      reads this
      ensures r.Some? ==> r.value in foods && r.value.name == name
      ensures r.None? ==> forall f :: f in foods ==> f.name != name
    {
      FoodNamed(foods, name)
    }

    /** `calories_for_grams`: zero for an unknown ratio, else the same share of a portion. */
    static function CaloriesForGrams(grams: real, gramsPerPortion: real, caloriesPerPortion: real): (r: real)
      ensures gramsPerPortion <= 0.0 ==> r == 0.0
      ensures gramsPerPortion > 0.0 ==> r * gramsPerPortion == grams * caloriesPerPortion
    {
      if gramsPerPortion <= 0.0 then 0.0
      else (grams / gramsPerPortion) * caloriesPerPortion
    }

    /** `grams_for_calories`: zero for an unknown ratio, else the same share of a portion. */
    static function GramsForCalories(calories: real, gramsPerPortion: real, caloriesPerPortion: real): (r: real)
      ensures caloriesPerPortion <= 0.0 ==> r == 0.0
      ensures caloriesPerPortion > 0.0 ==> r * caloriesPerPortion == calories * gramsPerPortion
    {
      if caloriesPerPortion <= 0.0 then 0.0
      else (calories / caloriesPerPortion) * gramsPerPortion
    }

    /** With both ratios positive, converting grams to calories and back gives the grams
        again, and calories to grams and back gives the calories again. */
    static lemma ConversionRoundTrip(amount: real, gramsPerPortion: real, caloriesPerPortion: real)
      requires gramsPerPortion > 0.0 && caloriesPerPortion > 0.0
      ensures GramsForCalories(CaloriesForGrams(amount, gramsPerPortion, caloriesPerPortion),
                               gramsPerPortion, caloriesPerPortion) == amount
      ensures CaloriesForGrams(GramsForCalories(amount, gramsPerPortion, caloriesPerPortion),
                               gramsPerPortion, caloriesPerPortion) == amount
    {
      var c := CaloriesForGrams(amount, gramsPerPortion, caloriesPerPortion);
      var g := GramsForCalories(c, gramsPerPortion, caloriesPerPortion);
      assert g * caloriesPerPortion == amount * caloriesPerPortion;
      var g2 := GramsForCalories(amount, gramsPerPortion, caloriesPerPortion);
      var c2 := CaloriesForGrams(g2, gramsPerPortion, caloriesPerPortion);
      assert c2 * gramsPerPortion == amount * gramsPerPortion;
    }

    /** `add_schedule`: appends one pending row under a fresh id; the foreign key rejects a
        food id that does not exist, leaving the table as it was. */
    method AddSchedule(foodId: int, hopperIndex: int, grams: real, whenTs: int) returns (ok: bool)
      requires Valid()
      modifies this
      ensures Valid()
      ensures foods == old(foods) && history == old(history) && nextFoodId == old(nextFoodId)
      ensures ok <==> FoodById(foods, foodId).Some?
      ensures ok ==> schedules == old(schedules) + [Schedule(old(nextScheduleId), foodId, hopperIndex, grams, whenTs, false)]
                     && nextScheduleId == old(nextScheduleId) + 1
      ensures !ok ==> schedules == old(schedules) && nextScheduleId == old(nextScheduleId)
    {
      ok := FoodById(foods, foodId).Some?;
      if ok {
        schedules := schedules + [Schedule(nextScheduleId, foodId, hopperIndex, grams, whenTs, false)];
        nextScheduleId := nextScheduleId + 1;
      }
    }

    /** `list_schedules`: ascending by due time, one row per schedule whose food exists. */
    function ListSchedules(): (r: seq<ScheduleRow>)
      reads this
      ensures Sorting.SortedBy(r, WhenLe)
      ensures forall row :: row in r <==>
        exists i :: 0 <= i < |schedules| && RowFor(foods, schedules[i]) == Some(row)
      ensures multiset(r) == multiset(JoinRows(foods, schedules))
      ensures Valid() ==> Sorting.DistinctBy(r, RowId)
    {
      ScheduleRowsSpec(foods, schedules);
      assert IdsIncreasing(schedules) ==> Sorting.DistinctBy(ScheduleRows(foods, schedules), RowId) by {
        if IdsIncreasing(schedules) {
          ScheduleRowsDistinct(foods, schedules);
        }
      }
      ScheduleRows(foods, schedules)
    }

    /** `mark_executed`: sets the flag of the row with that id and touches nothing else. */
    method MarkExecuted(id: int)
      requires Valid()
      modifies this
      ensures Valid()
      ensures schedules == MarkIds(old(schedules), {id})
      ensures foods == old(foods) && history == old(history)
      ensures nextFoodId == old(nextFoodId) && nextScheduleId == old(nextScheduleId)
    {
      schedules := MarkIds(schedules, {id});
    }

    /** `add_history`: appends one entry. */
    method AddHistory(foodName: string, hopperIndex: int, grams: real, calories: real, ts: int)
      requires Valid()
      modifies this
      ensures Valid()
      ensures history == old(history) + [HistoryEntry(foodName, hopperIndex, grams, calories, ts)]
      ensures foods == old(foods) && schedules == old(schedules)
      ensures nextFoodId == old(nextFoodId) && nextScheduleId == old(nextScheduleId)
    {
      history := history + [HistoryEntry(foodName, hopperIndex, grams, calories, ts)];
    }

    /** `history_last_7_days`: the entries of the last week, newest first. */
    function HistoryLast7Days(now: int): (r: seq<HistoryEntry>)
      reads this
      ensures Sorting.SortedBy(r, NewerOrSame)
      ensures forall e :: multiset(r)[e] == (if e.ts >= now - 604800 then multiset(history)[e] else 0)
    {
      RecentHistorySpec(history, now);
      RecentHistory(history, now)
    }
  }

  // ---------------------------------------------------------------- helper facts

  /** The next default food is not among the ones already seeded, and seeding it extends them. */
  lemma SeededStep(start: int, k: int)
    requires 0 <= k < |DefaultFoods|
    ensures FoodNamed(Seeded(start)[..k], DefaultFoods[k].0).None?
    ensures Seeded(start)[..k + 1] ==
      Seeded(start)[..k] + [Food(start + k, DefaultFoods[k].0, DefaultFoods[k].1, DefaultFoods[k].2)]
  {
    var foods := Seeded(start)[..k];
    forall f | f in foods ensures f.name != DefaultFoods[k].0 {
      var j :| 0 <= j < k && foods[j] == f;
      DefaultNamesDistinct(j, k);
    }
    assert Seeded(start)[..k + 1] == Seeded(start)[..k] + [Seeded(start)[k]];
  }

  lemma DefaultNamesDistinct(i: int, j: int)
    requires 0 <= i < j < |DefaultFoods|
    ensures DefaultFoods[i].0 != DefaultFoods[j].0
  {
    assert DefaultFoods[0].0[1] == 'r' && DefaultFoods[1].0[1] == 'v';
    assert |DefaultFoods[2].0| == 6;
  }

  /** Food ids are positive, increasing and below the counter; names are unique. */
  ghost predicate FoodsValid(foods: seq<Food>, nextFoodId: int)
  {
    1 <= nextFoodId &&
    (forall i :: 0 <= i < |foods| ==> 1 <= foods[i].id < nextFoodId) &&
    (forall i, j :: 0 <= i < j < |foods| ==> foods[i].id < foods[j].id) &&
    (forall i, j :: 0 <= i < j < |foods| ==> foods[i].name != foods[j].name)
  }

  /** Schedule ids are positive, increasing and below the counter; every food id exists. */
  ghost predicate SchedulesValid(schedules: seq<Schedule>, nextScheduleId: int, foods: seq<Food>)
  {
    1 <= nextScheduleId &&
    (forall i :: 0 <= i < |schedules| ==> 1 <= schedules[i].id < nextScheduleId) &&
    IdsIncreasing(schedules) &&
    (forall i :: 0 <= i < |schedules| ==> FoodById(foods, schedules[i].foodId).Some?)
  }

  lemma AppendFoodValid(foods: seq<Food>, next: int, name: string, gpp: real, cpp: real)
    requires FoodsValid(foods, next) && FoodNamed(foods, name).None?
    ensures FoodsValid(foods + [Food(next, name, gpp, cpp)], next + 1)
    ensures FoodNamed(foods + [Food(next, name, gpp, cpp)], name) == Some(Food(next, name, gpp, cpp))
  {
    var r := foods + [Food(next, name, gpp, cpp)];
    forall i, j | 0 <= i < j < |r| ensures r[i].name != r[j].name {
      if j == |foods| {
        assert r[i] in foods;
      }
    }
    FoodNamedUnique(r, |foods|);
  }

  lemma WithRatiosValid(foods: seq<Food>, next: int, name: string, gpp: real, cpp: real)
    requires FoodsValid(foods, next) && FoodNamed(foods, name).Some?
    ensures FoodsValid(WithRatios(foods, name, gpp, cpp), next)
    ensures var f := FoodNamed(WithRatios(foods, name, gpp, cpp), name);
            f.Some? && f.value.gramsPerPortion == gpp && f.value.caloriesPerPortion == cpp
  {
    var r := WithRatios(foods, name, gpp, cpp);
    assert forall i :: 0 <= i < |foods| ==> r[i].id == foods[i].id && r[i].name == foods[i].name;
    var i :| 0 <= i < |foods| && foods[i] == FoodNamed(foods, name).value;
    FoodNamedUnique(r, i);
  }

  lemma WithFoodValid(foods: seq<Food>, next: int, id: int, name: string, gpp: real, cpp: real)
    requires FoodsValid(foods, next) && NameFreeFor(foods, name, id)
    ensures FoodsValid(WithFood(foods, id, name, gpp, cpp), next)
  {
    var r := WithFood(foods, id, name, gpp, cpp);
    assert forall i :: 0 <= i < |foods| ==> r[i].id == foods[i].id;
    forall i, j | 0 <= i < j < |r| ensures r[i].name != r[j].name {
      assert foods[i] in foods && foods[j] in foods;
    }
  }

  /** Changing foods without changing their ids keeps every schedule's food reference valid. */
  lemma KeysKept(a: seq<Food>, b: seq<Food>, schedules: seq<Schedule>, next: int)
    requires |a| <= |b| && forall i :: 0 <= i < |a| ==> b[i].id == a[i].id
    requires SchedulesValid(schedules, next, a)
    ensures SchedulesValid(schedules, next, b)
  {
    forall i | 0 <= i < |schedules| ensures FoodById(b, schedules[i].foodId).Some? {
      var f := FoodById(a, schedules[i].foodId).value;
      var k :| 0 <= k < |a| && a[k] == f;
      assert b[k] in b;
    }
  }

  /** With unique names, the lookup by name finds the food at any position holding it. */
  lemma FoodNamedUnique(foods: seq<Food>, i: int)
    requires 0 <= i < |foods|
    requires forall a, b :: 0 <= a < b < |foods| ==> foods[a].name != foods[b].name
    ensures FoodNamed(foods, foods[i].name) == Some(foods[i])
  {
    var r := FoodNamed(foods, foods[i].name);
    var j :| 0 <= j < |foods| && foods[j] == r.value;
    assert j == i;
  }
}
