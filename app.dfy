/** The decision logic of the feeder application: the hopper and amount read off
    the dispenser screen, manual dispensing, the sender the scheduler is wired to,
    and the checks the food and schedule forms make before writing to the store.
    Screens, dialogs and toasts are left out; the form fields arrive already parsed,
    `None` standing for text that does not parse, and the time of day is `now`. */
module App {
  import opened Wrappers
  import opened Models
  import Transport
  import Scheduler
  import Command

  // ---------------------------------------------------------------- the stub transport

  /** The stand-in installed when no Bluetooth transport can be created: never connected,
      nothing paired, and every connect or send refused. */
  class DummyBT {
    constructor ()
    {
    }

    function IsConnected(): (r: bool)
      ensures !r
    {
      false
    }

    function ListPaired(): (r: seq<Transport.Device>)
      ensures r == []
    {
      []
    }

    method Connect(mac: string) returns (ok: bool, msg: string)
      ensures !ok && msg == "Bluetooth no disponible"
    {
      ok, msg := false, "Bluetooth no disponible";
    }

    method Send(cmd: string) returns (ok: bool, msg: string)
      ensures !ok && msg == "Bluetooth no disponible"
    {
      ok, msg := false, "Bluetooth no disponible";
    }
  }

  /** The transport the application holds: a real one, or the stub. */
  datatype Link = Bt(bt: Transport.Bluetooth) | Stub(stub: DummyBT)

  ghost function LinkObjects(l: Link): set<object>
  {
    match l
    case Bt(b) => Transport.Objects(b)
    case Stub(d) => {d}
  }

  /** `self.bt.is_connected()`, for the real transport or the stub. */
  function LinkConnected(l: Link): bool
    reads LinkObjects(l)
  {
    match l
    case Bt(b) => Transport.IsConnected(b)
    case Stub(d) => d.IsConnected()
  }

  /** Whether a send succeeds now, given the stream fault the Android link would meet. */
  function LinkAccepts(l: Link, fault: Option<string>): bool
    reads LinkObjects(l)
  {
    match l
    case Bt(b) => Transport.Accepts(b, fault)
    case Stub(_) => false
  }

  /** What the link's output stream has received. */
  function LinkWritten(l: Link): seq<string>
    reads LinkObjects(l)
  {
    match l
    case Bt(b) => Transport.Written(b)
    case Stub(_) => []
  }

  /** Ready to send: a real transport that is ready; the stub never is. */
  function LinkReady(l: Link): bool
    reads LinkObjects(l)
  {
    match l
    case Bt(b) => Transport.Ready(b)
    case Stub(_) => false
  }

  /** `self.bt.send(cmd)`: succeeds exactly when the link accepts; the stream receives the
      newline-terminated command when it does. */
  method LinkSend(l: Link, text: string, fault: Option<string>) returns (ok: bool, msg: string)
    modifies LinkObjects(l)
    ensures ok == old(LinkAccepts(l, fault))
    ensures LinkConnected(l) == old(LinkConnected(l)) && LinkReady(l) == old(LinkReady(l))
    ensures LinkAccepts(l, fault) == old(LinkAccepts(l, fault))
    ensures LinkWritten(l) == old(LinkWritten(l)) + (if ok && l.Bt? && l.bt.AndroidBt? then [Transport.WithNewline(text)] else [])
    ensures l.Bt? && l.bt.MockBt? ==> unchanged(l.bt.mock)
  {
    match l
    case Bt(b) =>
      ok, msg := Transport.Send(b, text, fault);
    case Stub(d) =>
      ok, msg := d.Send(text);
  }

  /** The sends of one tick, each meeting the same stream fault: every command reaches an
      accepting link, and the link's state is kept. */
  method SendAll(l: Link, cmds: seq<string>, fault: Option<string>)
    modifies LinkObjects(l)
    ensures LinkWritten(l) == old(LinkWritten(l)) +
      (if old(LinkAccepts(l, fault)) && l.Bt? && l.bt.AndroidBt? then Terminated(cmds) else [])
    ensures LinkConnected(l) == old(LinkConnected(l)) && LinkReady(l) == old(LinkReady(l))
    ensures LinkAccepts(l, fault) == old(LinkAccepts(l, fault))
  {
    ghost var android := old(LinkAccepts(l, fault)) && l.Bt? && l.bt.AndroidBt?;
    var i := 0;
    while i < |cmds|
      invariant 0 <= i <= |cmds|
      invariant LinkWritten(l) == old(LinkWritten(l)) + (if android then Terminated(cmds[..i]) else [])
      invariant LinkConnected(l) == old(LinkConnected(l)) && LinkReady(l) == old(LinkReady(l))
      invariant LinkAccepts(l, fault) == old(LinkAccepts(l, fault))
    {
      var _, _ := LinkSend(l, cmds[i], fault);
      TerminatedStep(cmds, i);
      i := i + 1;
    }
    assert cmds[..i] == cmds;
  }

  // ---------------------------------------------------------------- screen values

  /** `_current_hopper`: the hopper field clamped to 1..3, and 1 when it does not parse. */
  function CurrentHopper(input: Option<int>): (r: int)
    ensures 1 <= r <= 3
    ensures input.None? ==> r == 1
    ensures input.Some? && 1 <= input.value <= 3 ==> r == input.value
    ensures input.Some? && input.value < 1 ==> r == 1
    ensures input.Some? && input.value > 3 ==> r == 3
  {
    match input
    case None => 1
    case Some(v) => if v < 1 then 1 else if v > 3 then 3 else v
  }

  /** `_current_amount`: the amount field, and 0 when it does not parse. */
  function CurrentAmount(input: Option<real>): (r: real)
    ensures input.Some? ==> r == input.value
    ensures input.None? ==> r == 0.0
  {
    input.GetOr(0.0)
  }

  const Grams: string := "gramos"

  /** The grams `dispense` asks for: the amount itself in the grams unit, else the grams
      holding that many calories of the food; never negative. */
  function DispenseGrams(unit: string, amount: real, food: Food): (r: real)
    ensures r >= 0.0
    ensures unit == Grams ==> (r == amount <==> amount >= 0.0) && (amount < 0.0 ==> r == 0.0)
    ensures unit != Grams && food.caloriesPerPortion > 0.0 && amount >= 0.0 && food.gramsPerPortion >= 0.0 ==>
      r * food.caloriesPerPortion == amount * food.gramsPerPortion
    ensures unit != Grams && food.caloriesPerPortion <= 0.0 ==> r == 0.0
    ensures unit != Grams && DB.GramsForCalories(amount, food.gramsPerPortion, food.caloriesPerPortion) < 0.0 ==> r == 0.0
    ensures unit != Grams && DB.GramsForCalories(amount, food.gramsPerPortion, food.caloriesPerPortion) >= 0.0 ==>
      r == DB.GramsForCalories(amount, food.gramsPerPortion, food.caloriesPerPortion)
  {
    var grams := if unit == Grams then amount
                 else DB.GramsForCalories(amount, food.gramsPerPortion, food.caloriesPerPortion);
    if grams < 0.0 then 0.0 else grams
  }

  /** Dispensing a non-negative number of calories of a food with valid ratios records
      exactly those calories. */
  lemma DispenseByCalories(unit: string, amount: real, food: Food)
    requires unit != Grams && amount >= 0.0
    requires food.gramsPerPortion > 0.0 && food.caloriesPerPortion > 0.0
    ensures DB.CaloriesForGrams(DispenseGrams(unit, amount, food), food.gramsPerPortion, food.caloriesPerPortion) == amount
  {
    DB.ConversionRoundTrip(amount, food.gramsPerPortion, food.caloriesPerPortion);
    assert DispenseGrams(unit, amount, food) ==
      DB.GramsForCalories(amount, food.gramsPerPortion, food.caloriesPerPortion);
  }

  // ---------------------------------------------------------------- the scheduler's sender

  /** What `_send_schedule` answers, given whether the link accepts the command: success and
      one history entry under the stored food's name and ratios when the send succeeds and
      the food still exists, and failure without history otherwise. */
  function ScheduleReply(accepts: bool, foods: seq<Food>, now: int, foodId: int, hopper: int, grams: real): (r: Scheduler.Reply)
    ensures r.ok <==> accepts && FoodById(foods, foodId).Some?
    ensures r.logged.Some? <==> r.ok
    ensures r.ok ==> r.logged.value.foodName == FoodById(foods, foodId).value.name &&
                     r.logged.value.hopperIndex == hopper && r.logged.value.grams == grams &&
                     r.logged.value.ts == now
    ensures r.ok ==>
      var f := FoodById(foods, foodId).value;
      r.logged.value.calories == DB.CaloriesForGrams(grams, f.gramsPerPortion, f.caloriesPerPortion)
  {
    if !accepts then Scheduler.Reply(false, None)
    else
      match FoodById(foods, foodId)
      case None => Scheduler.Reply(false, None)
      case Some(f) =>
        Scheduler.Reply(true, Some(HistoryEntry(f.name, hopper, grams,
          DB.CaloriesForGrams(grams, f.gramsPerPortion, f.caloriesPerPortion), now)))
  }

  /** `_send_schedule` as the scheduler sees it. */
  function ScheduleSender(accepts: bool, foods: seq<Food>, now: int): ScheduleRow -> Scheduler.Reply
  {
    (row: ScheduleRow) => ScheduleReply(accepts, foods, now, row.foodId, row.hopperIndex, row.grams)
  }

  /** A dispatched row's food exists, so the sender succeeds on it exactly when the link accepts. */
  lemma DispatchedReply(foods: seq<Food>, schedules: seq<Schedule>, now: int, accepts: bool, row: ScheduleRow)
    requires row in Scheduler.Dispatched(foods, schedules, now)
    ensures ScheduleSender(accepts, foods, now)(row).ok == accepts
  {
    Scheduler.DispatchedFromStore(foods, schedules, now, row);
    var i :| 0 <= i < |schedules| && RowFor(foods, schedules[i]) == Some(row) && !schedules[i].executed;
    assert FoodById(foods, schedules[i].foodId).Some?;
  }

  /** While the link refuses every send, a tick marks nothing and records no history. */
  lemma TickWhileRefused(foods: seq<Food>, schedules: seq<Schedule>, now: int)
    ensures Scheduler.AfterTick(foods, schedules, now, Scheduler.OkOf(ScheduleSender(false, foods, now))) == schedules
    ensures Scheduler.Logged(Scheduler.Dispatched(foods, schedules, now), ScheduleSender(false, foods, now)) == []
  {
    var sender := ScheduleSender(false, foods, now);
    var calls := Scheduler.Dispatched(foods, schedules, now);
    assert Scheduler.Succeeded(calls, Scheduler.OkOf(sender)) == {};
    Scheduler.LoggedEmpty(calls, sender);
  }

  /** While the link accepts every send, a tick marks every due schedule and records exactly
      one history entry per dispatched row, in dispatch order. */
  lemma TickWhileAccepted(foods: seq<Food>, schedules: seq<Schedule>, now: int, i: int)
    requires IdsIncreasing(schedules)
    requires 0 <= i < |schedules|
    ensures |Scheduler.AfterTick(foods, schedules, now, Scheduler.OkOf(ScheduleSender(true, foods, now)))| == |schedules|
    ensures Scheduler.AfterTick(foods, schedules, now, Scheduler.OkOf(ScheduleSender(true, foods, now)))[i].executed <==>
      schedules[i].executed ||
      (RowFor(foods, schedules[i]).Some? && Scheduler.IsDue(RowFor(foods, schedules[i]).value, now))
    ensures var calls := Scheduler.Dispatched(foods, schedules, now);
      |Scheduler.Logged(calls, ScheduleSender(true, foods, now))| == |calls| &&
      forall k :: 0 <= k < |calls| ==>
        Scheduler.Logged(calls, ScheduleSender(true, foods, now))[k].hopperIndex == calls[k].hopperIndex &&
        Scheduler.Logged(calls, ScheduleSender(true, foods, now))[k].grams == calls[k].grams &&
        Scheduler.Logged(calls, ScheduleSender(true, foods, now))[k].ts == now
  {
    var sender := ScheduleSender(true, foods, now);
    var calls := Scheduler.Dispatched(foods, schedules, now);
    Scheduler.AfterTickMarks(foods, schedules, now, Scheduler.OkOf(sender), i);
    if RowFor(foods, schedules[i]).Some? && Scheduler.IsDue(RowFor(foods, schedules[i]).value, now) {
      var row := RowFor(foods, schedules[i]).value;
      Scheduler.DispatchedIff(foods, schedules, now, i);
      DispatchedReply(foods, schedules, now, true, row);
    }
    forall r | r in calls ensures sender(r).logged.Some? {
      DispatchedReply(foods, schedules, now, true, r);
    }
    Scheduler.LoggedEvery(calls, sender);
  }

  /** The commands `_send_schedule` sends for a tick's calls, in call order. */
  function TickCommands(calls: seq<ScheduleRow>): seq<string>
  {
    seq(|calls|, k requires 0 <= k < |calls| => Command.DispenseCommand(calls[k].hopperIndex, calls[k].grams))
  }

  /** The texts an Android stream receives for `cmds`: each newline-terminated. */
  function Terminated(cmds: seq<string>): seq<string>
  {
    seq(|cmds|, k requires 0 <= k < |cmds| => Transport.WithNewline(cmds[k]))
  }

  /** Terminating one more command extends the terminated prefix by that command. */
  lemma TerminatedStep(cmds: seq<string>, i: nat)
    requires i < |cmds|
    ensures Terminated(cmds[..i + 1]) == Terminated(cmds[..i]) + [Transport.WithNewline(cmds[i])]
  {
  }

  // ---------------------------------------------------------------- form checks

  /** The food form's check: a name, and both ratios parsed and positive. */
  predicate FoodFormValid(name: string, gpp: Option<real>, cpp: Option<real>): (ok: bool)
    ensures !ok <==> name == "" || gpp.None? || cpp.None? || gpp.value <= 0.0 || cpp.value <= 0.0
  {
    name != "" && gpp.Some? && cpp.Some? && gpp.value > 0.0 && cpp.value > 0.0
  }

  /** Outcome of the dispense button. */
  datatype DispenseOutcome =
    | NotConnected
    | NoFoodSelected
    | Attempted(command: string, ok: bool, message: string)

  // ---------------------------------------------------------------- the application

  /** `AppMain`: the store, the transport, the scheduler wired to the store, and the
      dispenser screen's selected food (a snapshot of its row) and unit. */
  class AppMain {
    const db: DB
    var link: Link
    const scheduler: Scheduler.SchedulerEngine
    var selectedFood: Option<Food>
    var selectedFoodName: Option<string>
    var unit: string
    var statusText: string

    ghost predicate Valid()
      reads this, db
    {
      db.Valid() && scheduler.db == db && db !in LinkObjects(link) && scheduler !in LinkObjects(link)
    }

    /** `build`: opens the store from the database file `file`, creates the platform's
        transport, or the stub when that fails, and starts the scheduler. */
    constructor Build(isAndroid: bool, bluetoothFails: bool, file: StoredTables)
      requires StoredValid(file)
      ensures Valid() && fresh(db) && fresh(scheduler) && fresh(LinkObjects(link))
      ensures db.schedules == file.schedules && db.history == file.history
      ensures db.nextScheduleId == file.nextScheduleId
      ensures file.foods == [] ==> db.foods == Seeded(file.nextFoodId) && db.nextFoodId == file.nextFoodId + |DefaultFoods|
      ensures file.foods != [] ==> db.foods == file.foods && db.nextFoodId == file.nextFoodId
      ensures bluetoothFails ==> link.Stub? && statusText == "BT no disponible"
      ensures !bluetoothFails ==> link.Bt? && (link.bt.AndroidBt? <==> isAndroid) && statusText == "No conectado"
      ensures !LinkConnected(link) && LinkWritten(link) == []
      ensures scheduler.event.Some?
      ensures selectedFood.None? && selectedFoodName.None? && unit == Grams
    {
      var store := new DB(file);
      var l: Link;
      var status := "No conectado";
      if bluetoothFails {
        var d := new DummyBT();
        l := Stub(d);
        status := "BT no disponible";
      } else {
        var b := Transport.GetBluetooth(isAndroid);
        l := Bt(b);
      }
      var engine := new Scheduler.SchedulerEngine(store);
      engine.Start();
      db := store;
      link := l;
      scheduler := engine;
      selectedFood := None;
      selectedFoodName := None;
      unit := Grams;
      statusText := status;
    }

    /** `_select_food`: takes a snapshot of the food's row (nothing if it is gone). */
    method SelectFood(foodId: int, foodName: string)
      modifies this
      ensures selectedFood == db.GetFood(foodId) && selectedFoodName == Some(foodName)
      ensures link == old(link) && unit == old(unit) && statusText == old(statusText)
    {
      selectedFood := db.GetFood(foodId);
      selectedFoodName := Some(foodName);
    }

    /** `set_unit`. */
    method SetUnit(unitText: string)
      modifies this
      ensures unit == unitText
      ensures link == old(link) && selectedFood == old(selectedFood) && selectedFoodName == old(selectedFoodName)
      ensures statusText == old(statusText)
    {
      unit := unitText;
    }

    /** `dispense`: refuses without a connection or a selected food; otherwise sends the
        command for the clamped grams to the clamped hopper, and records one history entry,
        with the calories of those grams, exactly when the send succeeds. */
    method Dispense(amountInput: Option<real>, hopperInput: Option<int>, now: int, fault: Option<string>)
      returns (outcome: DispenseOutcome)
      requires Valid()
      modifies db, LinkObjects(link)
      ensures Valid()
      ensures db.foods == old(db.foods) && db.schedules == old(db.schedules)
      ensures db.nextFoodId == old(db.nextFoodId) && db.nextScheduleId == old(db.nextScheduleId)
      ensures !old(LinkConnected(link)) ==> outcome == NotConnected
      ensures old(LinkConnected(link)) && selectedFood.None? ==> outcome == NoFoodSelected
      ensures old(LinkConnected(link)) && selectedFood.Some? ==>
        var food := selectedFood.value;
        var hopper := CurrentHopper(hopperInput);
        var grams := DispenseGrams(unit, CurrentAmount(amountInput), food);
        outcome.Attempted? &&
        outcome.command == Command.DispenseCommand(hopper, grams) &&
        outcome.ok == old(LinkAccepts(link, fault)) &&
        (outcome.ok ==>
           db.history == old(db.history) +
             [HistoryEntry(food.name, hopper, grams,
                           DB.CaloriesForGrams(grams, food.gramsPerPortion, food.caloriesPerPortion), now)])
      ensures !(outcome.Attempted? && outcome.ok) ==> db.history == old(db.history)
      ensures LinkWritten(link) == old(LinkWritten(link)) +
        (if outcome.Attempted? && outcome.ok && link.Bt? && link.bt.AndroidBt?
         then [Transport.WithNewline(outcome.command)] else [])
      ensures LinkConnected(link) == old(LinkConnected(link)) && LinkReady(link) == old(LinkReady(link))
    {
      if !LinkConnected(link) {
        return NotConnected;
      }
      if selectedFood.None? {
        return NoFoodSelected;
      }
      var amount := CurrentAmount(amountInput);
      var hopper := CurrentHopper(hopperInput);
      var food := selectedFood.value;
      var grams := DispenseGrams(unit, amount, food);
      var cmd := Command.DispenseCommand(hopper, grams);
      var ok, msg := LinkSend(link, cmd, fault);
      if ok {
        var kcal := DB.CaloriesForGrams(grams, food.gramsPerPortion, food.caloriesPerPortion);
        db.AddHistory(food.name, hopper, grams, kcal, now);
      }
      outcome := Attempted(cmd, ok, msg);
    }

    /** `_send_schedule`: sends the command; on success records one entry under the stored
        food's name and ratios, or answers failure when that food is gone. The `foodName`
        argument is not used. */
    method SendSchedule(foodId: int, foodName: string, hopper: int, grams: real, now: int, fault: Option<string>)
      returns (ok: bool)
      requires Valid()
      modifies db, LinkObjects(link)
      ensures Valid()
      ensures db.foods == old(db.foods) && db.schedules == old(db.schedules)
      ensures db.nextFoodId == old(db.nextFoodId) && db.nextScheduleId == old(db.nextScheduleId)
      ensures var reply := ScheduleReply(old(LinkAccepts(link, fault)), old(db.foods), now, foodId, hopper, grams);
        ok == reply.ok && db.history == old(db.history) + Scheduler.EntriesOf(reply)
      ensures LinkWritten(link) == old(LinkWritten(link)) +
        (if old(LinkAccepts(link, fault)) && link.Bt? && link.bt.AndroidBt?
         then [Transport.WithNewline(Command.DispenseCommand(hopper, grams))] else [])
      ensures LinkConnected(link) == old(LinkConnected(link)) && LinkReady(link) == old(LinkReady(link))
    {
      ghost var reply := ScheduleReply(LinkAccepts(link, fault), db.foods, now, foodId, hopper, grams);
      ghost var foods := db.foods;
      var cmd := Command.DispenseCommand(hopper, grams);
      var sent, msg := LinkSend(link, cmd, fault);
      if !sent {
        assert reply == Scheduler.Reply(false, None);
        return false;
      }
      assert db.foods == foods && reply == ScheduleReply(true, foods, now, foodId, hopper, grams);
      ok := RecordScheduled(foodId, hopper, grams, now);
    }

    /** `_send_schedule` after an accepted send: looks up the stored food and records the
        entry with its name and the calories at its ratios; fails when the food is gone. */
    method RecordScheduled(foodId: int, hopper: int, grams: real, now: int) returns (ok: bool)
      requires Valid()
      modifies db
      ensures Valid()
      ensures db.foods == old(db.foods) && db.schedules == old(db.schedules)
      ensures db.nextFoodId == old(db.nextFoodId) && db.nextScheduleId == old(db.nextScheduleId)
      ensures var reply := ScheduleReply(true, old(db.foods), now, foodId, hopper, grams);
        ok == reply.ok && db.history == old(db.history) + Scheduler.EntriesOf(reply)
    {
      var food := db.GetFood(foodId);
      if food.None? {
        return false;
      }
      var f := food.value;
      var kcal := DB.CaloriesForGrams(grams, f.gramsPerPortion, f.caloriesPerPortion);
      db.AddHistory(f.name, hopper, grams, kcal, now);
      ok := true;
    }

    /** A firing of the scheduler's timer with `_send_schedule` as its sender, every send of
        the tick meeting the same stream fault: the store moves as the tick says, and the
        stream receives the command of every dispatched row. */
    method SchedulerFire(now: int, fault: Option<string>) returns (calls: seq<ScheduleRow>)
      requires Valid()
      modifies db, LinkObjects(link)
      ensures Valid()
      ensures var sender := ScheduleSender(old(LinkAccepts(link, fault)), old(db.foods), now);
        (scheduler.event.None? ==> calls == [] && db.schedules == old(db.schedules) && db.history == old(db.history)) &&
        (scheduler.event.Some? ==>
          calls == Scheduler.Dispatched(old(db.foods), old(db.schedules), now) &&
          db.schedules == Scheduler.AfterTick(old(db.foods), old(db.schedules), now, Scheduler.OkOf(sender)) &&
          db.history == old(db.history) + Scheduler.Logged(calls, sender))
      ensures db.foods == old(db.foods)
      ensures db.nextFoodId == old(db.nextFoodId) && db.nextScheduleId == old(db.nextScheduleId)
      ensures LinkWritten(link) == old(LinkWritten(link)) +
        (if old(LinkAccepts(link, fault)) && link.Bt? && link.bt.AndroidBt? then Terminated(TickCommands(calls)) else [])
      ensures LinkConnected(link) == old(LinkConnected(link)) && LinkReady(link) == old(LinkReady(link))
    {
      calls := StoreTick(now, fault);
      SendAll(link, TickCommands(calls), fault);
    }

    /** The store's side of a timer firing: the tick, run with `_send_schedule`'s replies. */
    method StoreTick(now: int, fault: Option<string>) returns (calls: seq<ScheduleRow>)
      requires Valid()
      modifies db
      ensures Valid()
      ensures var sender := ScheduleSender(old(LinkAccepts(link, fault)), old(db.foods), now);
        (scheduler.event.None? ==> calls == [] && db.schedules == old(db.schedules) && db.history == old(db.history)) &&
        (scheduler.event.Some? ==>
          calls == Scheduler.Dispatched(old(db.foods), old(db.schedules), now) &&
          db.schedules == Scheduler.AfterTick(old(db.foods), old(db.schedules), now, Scheduler.OkOf(sender)) &&
          db.history == old(db.history) + Scheduler.Logged(calls, sender))
      ensures db.foods == old(db.foods)
      ensures db.nextFoodId == old(db.nextFoodId) && db.nextScheduleId == old(db.nextScheduleId)
      ensures unchanged(LinkObjects(link))
      ensures LinkWritten(link) == old(LinkWritten(link)) && LinkAccepts(link, fault) == old(LinkAccepts(link, fault))
      ensures LinkConnected(link) == old(LinkConnected(link)) && LinkReady(link) == old(LinkReady(link))
    {
      var sender := ScheduleSender(LinkAccepts(link, fault), db.foods, now);
      calls := scheduler.Fire(now, sender);
    }

    /** `_save_food`: an invalid form leaves the store as it was; a valid one is written
        with `upsert_food`, which fails only when renaming onto a name another food has. */
    method SaveFood(name: string, gpp: Option<real>, cpp: Option<real>, foodId: Option<int>) returns (saved: bool)
      requires Valid()
      modifies db
      ensures Valid()
      ensures db.schedules == old(db.schedules) && db.history == old(db.history)
      ensures db.nextScheduleId == old(db.nextScheduleId)
      ensures !FoodFormValid(name, gpp, cpp) ==> !saved && db.foods == old(db.foods) && db.nextFoodId == old(db.nextFoodId)
      ensures FoodFormValid(name, gpp, cpp) && foodId.None? ==>
        saved && FoodNamed(db.foods, name).Some? &&
        FoodNamed(db.foods, name).value.gramsPerPortion == gpp.value &&
        FoodNamed(db.foods, name).value.caloriesPerPortion == cpp.value
      ensures FoodFormValid(name, gpp, cpp) && foodId.None? && FoodNamed(old(db.foods), name).None? ==>
        db.foods == old(db.foods) + [Food(old(db.nextFoodId), name, gpp.value, cpp.value)] &&
        db.nextFoodId == old(db.nextFoodId) + 1
      ensures FoodFormValid(name, gpp, cpp) && foodId.None? && FoodNamed(old(db.foods), name).Some? ==>
        db.foods == WithRatios(old(db.foods), name, gpp.value, cpp.value) && db.nextFoodId == old(db.nextFoodId)
      ensures foodId.Some? ==> db.nextFoodId == old(db.nextFoodId)
      ensures FoodFormValid(name, gpp, cpp) && foodId.Some? ==>
        (saved <==> NameFreeFor(old(db.foods), name, foodId.value)) &&
        (saved ==> db.foods == WithFood(old(db.foods), foodId.value, name, gpp.value, cpp.value))
      ensures !saved ==> db.foods == old(db.foods)
    {
      if !FoodFormValid(name, gpp, cpp) {
        return false;
      }
      saved := db.UpsertFood(name, gpp.value, cpp.value, foodId);
    }

    /** `_save_schedule`: adds a pending schedule for the food with exactly this name when
        every field parses; otherwise, or when no food has the name, the store is unchanged.
        Hopper and grams are not range-checked. */
    method SaveSchedule(foodName: string, hopper: Option<int>, grams: Option<real>, whenTs: Option<int>)
      returns (saved: bool)
      requires Valid()
      modifies db
      ensures Valid()
      ensures db.foods == old(db.foods) && db.history == old(db.history) && db.nextFoodId == old(db.nextFoodId)
      ensures saved <==> hopper.Some? && grams.Some? && whenTs.Some? && FoodNamed(old(db.foods), foodName).Some?
      ensures saved ==>
        db.schedules == old(db.schedules) +
          [Schedule(old(db.nextScheduleId), FoodNamed(old(db.foods), foodName).value.id,
                    hopper.value, grams.value, whenTs.value, false)] &&
        db.nextScheduleId == old(db.nextScheduleId) + 1
      ensures !saved ==> db.schedules == old(db.schedules) && db.nextScheduleId == old(db.nextScheduleId)
    {
      if hopper.None? || grams.None? || whenTs.None? {
        return false;
      }
      var food := db.FoodByName(foodName);
      if food.None? {
        return false;
      }
      saved := db.AddSchedule(food.value.id, hopper.value, grams.value, whenTs.value);
    }
  }
}
