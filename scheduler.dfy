/** The scheduler engine: a timer handle that `Start` and `Stop` set and clear,
    and the tick that hands every pending schedule whose due window contains
    `now` to the application's sender, marking it executed when the sender
    reports success. The periodic clock is replaced by `Fire`, one firing of
    the timer, and the time of day by the `now` argument. */
module Scheduler {
  import opened Wrappers
  import opened Models
  import Sorting

  /** Seconds a schedule stays eligible after its due moment. */
  const DueWindow: int := 30

  /** A row the tick dispatches at `now`: not yet executed, and `now` inside its window. */
  predicate IsDue(row: ScheduleRow, now: int)
  {
    !row.executed && row.whenTs <= now <= row.whenTs + DueWindow
  }

  function DueAt(now: int): ScheduleRow -> bool
  {
    (row: ScheduleRow) => IsDue(row, now)
  }

  /** The rows a tick at `now` hands to the sender, in the order it visits them. */
  function DueRows(rows: seq<ScheduleRow>, now: int): seq<ScheduleRow>
  {
    Sorting.Filter(rows, DueAt(now))
  }

  /** The calls one tick makes on the store's current content. */
  function Dispatched(foods: seq<Food>, schedules: seq<Schedule>, now: int): seq<ScheduleRow>
  {
    DueRows(ScheduleRows(foods, schedules), now)
  }

  /** The ids of the calls the sender answered with success. */
  function Succeeded(calls: seq<ScheduleRow>, replies: ScheduleRow -> bool): set<int>
  {
    set row | row in calls && replies(row) :: row.id
  }

  /** The schedules after one tick at `now` whose sender answers with `replies`. */
  function AfterTick(foods: seq<Food>, schedules: seq<Schedule>, now: int, replies: ScheduleRow -> bool): seq<Schedule>
  {
    MarkIds(schedules, Succeeded(Dispatched(foods, schedules, now), replies))
  }

  /** The sender's answer for one row: whether it succeeded, and the history entry it
      recorded on the way, if any. */
  datatype Reply = Reply(ok: bool, logged: Option<HistoryEntry>)

  /** The success flags of a sender. */
  function OkOf(sender: ScheduleRow -> Reply): ScheduleRow -> bool
  {
    (row: ScheduleRow) => sender(row).ok
  }

  /** The history entry of one reply, as a sequence of zero or one entries. */
  function EntriesOf(reply: Reply): seq<HistoryEntry>
  {
    match reply.logged
    case Some(e) => [e]
    case None => []
  }

  /** The history entries a sender records for the given calls, in call order. */
  function Logged(calls: seq<ScheduleRow>, sender: ScheduleRow -> Reply): seq<HistoryEntry>
    decreases |calls|
  {
    if calls == [] then []
    else Logged(calls[..|calls| - 1], sender) + EntriesOf(sender(calls[|calls| - 1]))
  }

  /** One dispatched row moves the marks and the history on by that row's reply alone. */
  lemma VisitStep(baseSchedules: seq<Schedule>, baseHistory: seq<HistoryEntry>, calls: seq<ScheduleRow>,
                  row: ScheduleRow, sender: ScheduleRow -> Reply)
    ensures MarkIds(MarkIds(baseSchedules, Succeeded(calls, OkOf(sender))), if sender(row).ok then {row.id} else {})
         == MarkIds(baseSchedules, Succeeded(calls + [row], OkOf(sender)))
    ensures baseHistory + Logged(calls, sender) + EntriesOf(sender(row)) == baseHistory + Logged(calls + [row], sender)
  {
    SucceededAppend(calls, row, OkOf(sender));
    assert OkOf(sender)(row) == sender(row).ok;
    MarkIdsTwice(baseSchedules, Succeeded(calls, OkOf(sender)), if sender(row).ok then {row.id} else {});
    LoggedAppend(calls, row, sender);
  }

  /** A sender that records nothing for any of the calls leaves the history as it was. */
  lemma {:induction false} LoggedEmpty(calls: seq<ScheduleRow>, sender: ScheduleRow -> Reply)
    requires forall r :: r in calls ==> sender(r).logged.None?
    ensures Logged(calls, sender) == []
    decreases |calls|
  {
    if calls != [] {
      var init := calls[..|calls| - 1];
      assert forall r :: r in init ==> r in calls;
      LoggedEmpty(init, sender);
    }
  }

  /** A sender that records an entry for every call records them one per call, in call order. */
  lemma {:induction false} LoggedEvery(calls: seq<ScheduleRow>, sender: ScheduleRow -> Reply)
    requires forall r :: r in calls ==> sender(r).logged.Some?
    ensures |Logged(calls, sender)| == |calls|
    ensures forall k :: 0 <= k < |calls| ==> Logged(calls, sender)[k] == sender(calls[k]).logged.value
    decreases |calls|
  {
    if calls != [] {
      var init := calls[..|calls| - 1];
      assert forall r :: r in init ==> r in calls;
      LoggedEvery(init, sender);
      assert calls[|calls| - 1] in calls;
      forall k | 0 <= k < |calls| ensures Logged(calls, sender)[k] == sender(calls[k]).logged.value {
        if k < |init| {
          assert calls[k] == init[k];
        }
      }
    }
  }

  /** Visiting one more row adds it to the calls exactly when it is due. */
  lemma DueRowsStep(items: seq<ScheduleRow>, i: int, now: int)
    requires 0 <= i < |items|
    ensures DueRows(items[..i + 1], now) == DueRows(items[..i], now) + (if IsDue(items[i], now) then [items[i]] else [])
  {
    assert items[..i + 1] == items[..i] + [items[i]];
    Sorting.FilterAppend(items[..i], items[i], DueAt(now));
  }

  lemma LoggedAppend(calls: seq<ScheduleRow>, row: ScheduleRow, sender: ScheduleRow -> Reply)
    ensures Logged(calls + [row], sender) == Logged(calls, sender) + EntriesOf(sender(row))
  {
    assert (calls + [row])[..|calls|] == calls;
  }

  /** One firing of the timer: the time it reads and what the sender answers in it. */
  datatype TickInput = TickInput(now: int, replies: ScheduleRow -> bool)

  /** The schedules after a sequence of ticks (ticks change no food). */
  function AfterTicks(foods: seq<Food>, schedules: seq<Schedule>, ticks: seq<TickInput>): seq<Schedule>
    decreases |ticks|
  {
    if ticks == [] then schedules
    else AfterTicks(foods, AfterTick(foods, schedules, ticks[0].now, ticks[0].replies), ticks[1..])
  }

  // ---------------------------------------------------------------- one tick

  /** A tick dispatches exactly the listed rows that are pending and inside their window. */
  lemma DueRowsMembership(rows: seq<ScheduleRow>, now: int, row: ScheduleRow)
    ensures row in DueRows(rows, now) <==> row in rows && !row.executed && row.whenTs <= now <= row.whenTs + 30
  {
  }

  /** For a schedule whose food exists, the tick calls the sender with its row iff the schedule
      is pending and `when_ts <= now <= when_ts + 30`; an executed, early or stale schedule is
      never dispatched. */
  lemma {:induction false} DispatchedIff(foods: seq<Food>, schedules: seq<Schedule>, now: int, i: int)
    requires 0 <= i < |schedules| && RowFor(foods, schedules[i]).Some?
    ensures RowFor(foods, schedules[i]).value in Dispatched(foods, schedules, now) <==>
      (!schedules[i].executed && schedules[i].whenTs <= now <= schedules[i].whenTs + 30)
  {
    var row := RowFor(foods, schedules[i]).value;
    ScheduleRowsSpec(foods, schedules);
    assert row in ScheduleRows(foods, schedules);
  }

  /** Every dispatched row is a pending schedule of the store, seen at its current state. */
  lemma {:induction false} DispatchedFromStore(foods: seq<Food>, schedules: seq<Schedule>, now: int, row: ScheduleRow)
    requires row in Dispatched(foods, schedules, now)
    ensures exists i :: 0 <= i < |schedules| && RowFor(foods, schedules[i]) == Some(row) && !schedules[i].executed
    ensures row.whenTs <= now <= row.whenTs + 30
  {
    ScheduleRowsSpec(foods, schedules);
    var i :| 0 <= i < |schedules| && RowFor(foods, schedules[i]) == Some(row);
    assert !schedules[i].executed;
  }

  /** A tick visits the dispatched rows in ascending `when_ts` order. */
  lemma DispatchOrder(foods: seq<Food>, schedules: seq<Schedule>, now: int)
    ensures Sorting.SortedBy(Dispatched(foods, schedules, now), WhenLe)
  {
    ScheduleRowsSpec(foods, schedules);
    Sorting.FilterSorted(ScheduleRows(foods, schedules), DueAt(now), WhenLe);
  }

  /** Within one tick no schedule is dispatched twice. */
  lemma DispatchAtMostOnce(foods: seq<Food>, schedules: seq<Schedule>, now: int)
    requires IdsIncreasing(schedules)
    ensures Sorting.DistinctBy(Dispatched(foods, schedules, now), RowId)
  {
    ScheduleRowsDistinct(foods, schedules);
    Sorting.FilterDistinct(ScheduleRows(foods, schedules), DueAt(now), RowId);
  }

  /** The ids in `Succeeded` grow by the new call's id exactly when its reply is true. */
  lemma SucceededAppend(calls: seq<ScheduleRow>, row: ScheduleRow, replies: ScheduleRow -> bool)
    ensures Succeeded(calls + [row], replies) ==
      Succeeded(calls, replies) + (if replies(row) then {row.id} else {})
  {
    var lhs := Succeeded(calls + [row], replies);
    var rhs := Succeeded(calls, replies) + (if replies(row) then {row.id} else {});
    forall id | id in lhs ensures id in rhs {
      var r :| r in calls + [row] && replies(r) && r.id == id;
      if r != row {
        assert r in calls;
      }
    }
    forall id | id in rhs ensures id in lhs {
      if id in Succeeded(calls, replies) {
        var r :| r in calls && replies(r) && r.id == id;
        assert r in calls + [row];
      } else {
        assert row in calls + [row];
      }
    }
  }

  /** After a tick a schedule is executed iff it already was, or the tick dispatched its row and
      the sender answered true for it. */
  lemma {:induction false} AfterTickMarks(foods: seq<Food>, schedules: seq<Schedule>, now: int,
                                          replies: ScheduleRow -> bool, i: int)
    requires IdsIncreasing(schedules)
    requires 0 <= i < |schedules|
    ensures |AfterTick(foods, schedules, now, replies)| == |schedules|
    ensures AfterTick(foods, schedules, now, replies)[i].executed <==>
      (schedules[i].executed ||
       (RowFor(foods, schedules[i]).Some? &&
        IsDue(RowFor(foods, schedules[i]).value, now) && replies(RowFor(foods, schedules[i]).value)))
  {
    var calls := Dispatched(foods, schedules, now);
    MarkIdsEffect(schedules, Succeeded(calls, replies), i);
    if RowFor(foods, schedules[i]).Some? {
      DispatchedIff(foods, schedules, now, i);
    }
    if schedules[i].id in Succeeded(calls, replies) {
      var r :| r in calls && replies(r) && r.id == schedules[i].id;
      DispatchedFromStore(foods, schedules, now, r);
      var j :| 0 <= j < |schedules| && RowFor(foods, schedules[j]) == Some(r) && !schedules[j].executed;
      assert schedules[j].id == schedules[i].id;
      assert j == i;
    }
  }

  /** A schedule that is already executed is not dispatched: no dispatched row carries its id. */
  lemma {:induction false} ExecutedNotDispatched(foods: seq<Food>, schedules: seq<Schedule>, now: int, i: int)
    requires IdsIncreasing(schedules)
    requires 0 <= i < |schedules| && schedules[i].executed
    ensures forall r :: r in Dispatched(foods, schedules, now) ==> r.id != schedules[i].id
  {
    forall r | r in Dispatched(foods, schedules, now) ensures r.id != schedules[i].id {
      DispatchedFromStore(foods, schedules, now, r);
      var j :| 0 <= j < |schedules| && RowFor(foods, schedules[j]) == Some(r) && !schedules[j].executed;
      assert j != i;
    }
  }

  // ---------------------------------------------------------------- many ticks

  /** Ticks change no schedule's id, food, hopper, grams or due time, and never clear a flag. */
  lemma {:induction false} AfterTicksKeeps(foods: seq<Food>, schedules: seq<Schedule>, ticks: seq<TickInput>)
    ensures |AfterTicks(foods, schedules, ticks)| == |schedules|
    ensures forall i :: 0 <= i < |schedules| ==>
      AfterTicks(foods, schedules, ticks)[i].(executed := schedules[i].executed) == schedules[i] &&
      (schedules[i].executed ==> AfterTicks(foods, schedules, ticks)[i].executed)
    decreases |ticks|
  {
    if ticks != [] {
      var next := AfterTick(foods, schedules, ticks[0].now, ticks[0].replies);
      forall i | 0 <= i < |schedules|
        ensures next[i].(executed := schedules[i].executed) == schedules[i]
        ensures schedules[i].executed ==> next[i].executed
      {
        MarkIdsEffect(schedules, Succeeded(Dispatched(foods, schedules, ticks[0].now), ticks[0].replies), i);
      }
      AfterTicksKeeps(foods, next, ticks[1..]);
    }
  }

  lemma AfterTicksIds(foods: seq<Food>, schedules: seq<Schedule>, ticks: seq<TickInput>)
    requires IdsIncreasing(schedules)
    ensures IdsIncreasing(AfterTicks(foods, schedules, ticks))
  {
    AfterTicksKeeps(foods, schedules, ticks);
    var after := AfterTicks(foods, schedules, ticks);
    assert forall i :: 0 <= i < |schedules| ==> after[i].id == schedules[i].id;
  }

  /** `executed` is monotonic, and an executed schedule is never dispatched by any later tick. */
  lemma NeverDispatchedAgain(foods: seq<Food>, schedules: seq<Schedule>, ticks: seq<TickInput>, i: int, k: int)
    requires IdsIncreasing(schedules)
    requires 0 <= i < |schedules| && schedules[i].executed
    requires 0 <= k < |ticks|
    ensures |AfterTicks(foods, schedules, ticks)| == |schedules|
    ensures AfterTicks(foods, schedules, ticks)[i].executed
    ensures forall r :: r in Dispatched(foods, AfterTicks(foods, schedules, ticks[..k]), ticks[k].now) ==>
      r.id != schedules[i].id
  {
    AfterTicksKeeps(foods, schedules, ticks);
    var before := AfterTicks(foods, schedules, ticks[..k]);
    AfterTicksKeeps(foods, schedules, ticks[..k]);
    AfterTicksIds(foods, schedules, ticks[..k]);
    ExecutedNotDispatched(foods, before, ticks[k].now, i);
  }

  /** A pending schedule whose window has passed before every later tick stays pending forever:
      it is neither dispatched nor marked. */
  lemma {:induction false} StaleStaysPending(foods: seq<Food>, schedules: seq<Schedule>, ticks: seq<TickInput>, i: int)
    requires IdsIncreasing(schedules)
    requires 0 <= i < |schedules| && !schedules[i].executed
    requires forall k :: 0 <= k < |ticks| ==> ticks[k].now > schedules[i].whenTs + 30
    ensures |AfterTicks(foods, schedules, ticks)| == |schedules|
    ensures !AfterTicks(foods, schedules, ticks)[i].executed
    decreases |ticks|
  {
    AfterTicksKeeps(foods, schedules, ticks);
    if ticks != [] {
      var next := AfterTick(foods, schedules, ticks[0].now, ticks[0].replies);
      AfterTickMarks(foods, schedules, ticks[0].now, ticks[0].replies, i);
      MarkIdsEffect(schedules, Succeeded(Dispatched(foods, schedules, ticks[0].now), ticks[0].replies), i);
      AfterTicksIds(foods, schedules, [ticks[0]]);
      assert AfterTicks(foods, schedules, [ticks[0]]) == next;
      StaleStaysPending(foods, next, ticks[1..], i);
    }
  }

  // ---------------------------------------------------------------- the engine

  /** `SchedulerEngine`: the store it polls and the handle of its periodic timer; `issued`
      counts the timers it has created. The sender is the `sender` argument of each tick. */
  class SchedulerEngine {
    const db: DB
    var event: Option<int>
    var issued: nat

    constructor (db: DB)
      ensures this.db == db && event == None && issued == 0
    {
      this.db := db;
      event := None;
      issued := 0;
    }

    /** Starts the periodic timer unless one is already running. */
    method Start()
      modifies this
      ensures event.Some?
      ensures old(event).Some? ==> event == old(event) && issued == old(issued)
      ensures old(event).None? ==> event == Some(old(issued)) && issued == old(issued) + 1
    {
      if event.None? {
        event := Some(issued);
        issued := issued + 1;
      }
    }

    /** Cancels the periodic timer if one is running. */
    method Stop()
      modifies this
      ensures event.None? && issued == old(issued)
    {
      if event.Some? {
        event := None;
      }
    }

    /** `_tick`: visits the rows of `list_schedules` in order, hands every pending row whose
        window contains `now` to the sender, and marks it executed when the sender answers true;
        the only other change is the history the sender records. */
    method Tick(now: int, sender: ScheduleRow -> Reply) returns (calls: seq<ScheduleRow>)
      requires db.Valid()
      modifies db
      ensures db.Valid()
      ensures calls == Dispatched(old(db.foods), old(db.schedules), now)
      ensures db.schedules == AfterTick(old(db.foods), old(db.schedules), now, OkOf(sender))
      ensures db.history == old(db.history) + Logged(calls, sender)
      ensures db.foods == old(db.foods)
      ensures db.nextFoodId == old(db.nextFoodId) && db.nextScheduleId == old(db.nextScheduleId)
    {
      ghost var schedules0, history0 := db.schedules, db.history;
      var items := db.ListSchedules();
      calls := [];
      var i := 0;
      while i < |items|
        invariant 0 <= i <= |items|
        invariant db.Valid()
        invariant calls == DueRows(items[..i], now)
        invariant db.schedules == MarkIds(schedules0, Succeeded(calls, OkOf(sender)))
        invariant db.history == history0 + Logged(calls, sender)
        invariant db.foods == old(db.foods)
        invariant db.nextFoodId == old(db.nextFoodId) && db.nextScheduleId == old(db.nextScheduleId)
      {
        calls := Visit(items, i, now, sender, schedules0, history0, calls);
        i := i + 1;
      }
      assert items[..|items|] == items;
    }

    /** One iteration of the tick, on `items[i]`: a row that is pending and inside its window
        goes to the sender, is recorded as a call, and is marked executed if the sender
        succeeded; any other row is skipped. */
    method Visit(items: seq<ScheduleRow>, i: int, now: int, sender: ScheduleRow -> Reply,
                 ghost baseSchedules: seq<Schedule>, ghost baseHistory: seq<HistoryEntry>,
                 calls: seq<ScheduleRow>) returns (calls': seq<ScheduleRow>)
      requires 0 <= i < |items|
      requires db.Valid()
      requires calls == DueRows(items[..i], now)
      requires db.schedules == MarkIds(baseSchedules, Succeeded(calls, OkOf(sender)))
      requires db.history == baseHistory + Logged(calls, sender)
      modifies db
      ensures db.Valid()
      ensures calls' == DueRows(items[..i + 1], now)
      ensures db.schedules == MarkIds(baseSchedules, Succeeded(calls', OkOf(sender)))
      ensures db.history == baseHistory + Logged(calls', sender)
      ensures db.foods == old(db.foods)
      ensures db.nextFoodId == old(db.nextFoodId) && db.nextScheduleId == old(db.nextScheduleId)
    {
      var row := items[i];
      DueRowsStep(items, i, now);
      calls' := calls;
      if row.executed {
        return;
      }
      if row.whenTs <= now <= row.whenTs + DueWindow {
        var reply := sender(row);
        ghost var schedules, history := db.schedules, db.history;
        if reply.logged.Some? {
          var e := reply.logged.value;
          db.AddHistory(e.foodName, e.hopperIndex, e.grams, e.calories, e.ts);
        }
        if reply.ok {
          db.MarkExecuted(row.id);
        }
        assert db.schedules == MarkIds(schedules, if reply.ok then {row.id} else {});
        assert db.history == history + EntriesOf(reply);
        VisitStep(baseSchedules, baseHistory, calls, row, sender);
        calls' := calls + [row];
      }
    }

    /** One firing of the clock: a tick while the timer runs, nothing once it is stopped. */
    method Fire(now: int, sender: ScheduleRow -> Reply) returns (calls: seq<ScheduleRow>)
      requires db.Valid()
      modifies db
      ensures db.Valid()
      ensures event.None? ==> calls == [] && db.schedules == old(db.schedules) && db.history == old(db.history)
      ensures event.Some? ==> calls == Dispatched(old(db.foods), old(db.schedules), now) &&
                              db.schedules == AfterTick(old(db.foods), old(db.schedules), now, OkOf(sender)) &&
                              db.history == old(db.history) + Logged(calls, sender)
      ensures db.foods == old(db.foods)
      ensures db.nextFoodId == old(db.nextFoodId) && db.nextScheduleId == old(db.nextScheduleId)
    {
      if event.Some? {
        calls := Tick(now, sender);
      } else {
        calls := [];
      }
    }
  }
}
