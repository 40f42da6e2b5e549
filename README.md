# Smart pet-food dispenser: store, scheduler, transport and dispense logic

This project is a Dafny model of the core of a small Kivy app. The app drives a
Bluetooth pet-food dispenser with three hoppers. The model covers:

- **The record store** (`models.py`, module `Models`). Class `DB` holds three tables as
  sequences: foods, schedules and the dispense history. Foods and schedules each have
  an auto-increment counter for their ids; the history's own row id is not modelled.
  - Opening the database file loads its stored tables. An empty foods table is then
    seeded with three default foods; a non-empty one is kept.
  - Food names are unique. Every schedule refers to an existing food.
  - Listing foods orders them by name. Listing schedules joins each schedule with its
    food's name and orders the rows by due time.
  - The history query keeps the last seven days, newest first.
  - Grams and calories convert through each food's per-portion ratios. The two
    conversions are exact inverses for positive ratios.
- **The scheduler engine** (`scheduler.py`, module `Scheduler`).
  - `Start` and `Stop` manage a repeating one-second timer handle.
  - Each tick lists the schedule rows. It hands every pending row that is due to the
    sender. A row is due when the tick's time lies between its `when_ts` and 30
    seconds after. When the sender reports success, the row is marked executed.
  - Lemmas over sequences of ticks show three things. A schedule is dispatched at
    most once per tick. An executed schedule is never dispatched again. A schedule
    whose 30-second window has passed stays pending for good.
- **The Bluetooth transports** (`bt.py`, module `Transport`).
  - The desktop mock always connects and sends exactly while connected.
  - The Android serial link refuses to send unless it is connected with an open
    stream. It newline-terminates what it writes. It reports connection and write
    errors as messages.
  - `GetBluetooth` picks the transport for the platform.
- **The wire command** (`main.py`, module `Command`). The text `DISPENSE:<hopper>:<grams>`
  carries the grams rounded the way Python's `round` rounds, halves to even. A reader
  of the command is defined beside it, and reading a written command gives back the
  hopper and the rounded grams.
- **The application** (`main.py`, module `App`).
  - `build` wires the store, the transport (or the `DummyBT` stub when creating the
    transport fails) and the scheduler.
  - The dispense button's guards come first, then the clamped hopper, then the grams
    in either unit. The history is recorded only after a successful send.
  - `_send_schedule` is the scheduler's sender.
  - The food and schedule forms carry their validation guards.

Values the program reads from outside become parameters:

- the clock's `time()` becomes `now`;
- a parsed text field becomes an `Option` value, `None` when parsing fails;
- the platform becomes `isAndroid`;
- an exception raised by a foreign call becomes an error parameter
  (`socketError`, `fault`, `bluetoothFails`);
- the Android adapter becomes an `Adapter` value.

The scheduler's sender becomes a function from a schedule row to a `Reply`. A reply
holds the success flag and the history entry the send recorded, if any. In one tick
each row is visited at most once, so a function of the row is as general as the
callback for that tick. `App.ScheduleSender` is the app's own sender, `_send_schedule`.
`App.AppMain.SendSchedule` is the same operation written as a method over the live
transport. Its `ensures` ties its reply and history to `App.ScheduleReply`, the
function `App.ScheduleSender` is built from.

Two details of the code the model keeps as written:

- `_save_schedule` (main.py:412-429) checks neither the hopper nor the grams. The
  schedule form's hint `Tolva (1-3)` (main.py:82) and the clamp in `_current_hopper`
  (main.py:227) show that hoppers 1..3 are meant. A scheduled command can
  nevertheless name any hopper and any grams.
- `_send_schedule` does not use its `food_name` argument. It records the history
  under the stored food's name.

## Model

| member | source | states |
|---|---|---|
| Models.FoodById | models.py:77-80 | the food with that id, or none when no stored food has it |
| Models.FoodNamed | models.py:82-85 | the food with exactly that name, or none when no stored food has it |
| Models.FoodNamedUnique | models.py:22 | with unique names, looking up a stored food's name yields that food |
| Models.FoodsByName | models.py:58-61 | the foods reordered by name: a permutation of the table, sorted by name |
| Models.NameLeTotal | models.py:60 | the name order compares any two names |
| Models.NameLeTransitive | models.py:60 | the name order is transitive |
| Models.NameLeAntisymmetric | models.py:60 | two names that are each ordered before the other are equal |
| Models.SameFirstFood | models.py:58-61 | two name-sorted orderings of the same foods with distinct names start with the same food |
| Models.FoodsOrderDetermined | models.py:58-61 | with unique names the name order has no ties, so the sorted listing of the foods is determined: any two name-sorted orderings of the same foods are equal |
| Models.JoinRowsMembership | models.py:107-113 | a joined row exists exactly for a stored schedule whose food exists, carrying that food's name |
| Models.ScheduleRowsSpec | models.py:107-113 | the schedule listing is sorted by due time, and is exactly the join of schedules with foods |
| Models.ScheduleRowsDistinct | models.py:107-113 | no schedule id appears twice in the listing while ids are increasing |
| Models.RecentHistorySpec | models.py:128-135 | the history query keeps each entry no older than seven days, as often as it occurs, drops the rest, and lists newest first |
| Models.MarkIdsEffect | models.py:115-118 | marking sets `executed` on exactly the schedules with the given ids, and changes nothing else |
| Models.MarkIdsTwice | models.py:115-118 | marking twice is marking the union once; marking is idempotent |
| Models.SeededStep | models.py:52-55 | each default food's name is absent when it is inserted, and the seeded table grows by that food |
| Models.DefaultNamesDistinct | models.py:5-9 | the three default foods have distinct names |
| Models.AppendFoodValid | models.py:63-75 | inserting a new name keeps names unique and ids below the counter; the name then finds the new food |
| Models.WithRatiosValid | models.py:63-75 | replacing an existing name's ratios keeps the table valid; the name then finds the new ratios |
| Models.WithFoodValid | models.py:71-74 | an update onto a name no other food has keeps names unique |
| Models.KeysKept | models.py:35 | schedules keep referring to existing foods when the food ids are kept |
| Models.NewFileValid | models.py:12-48 | a newly created database file, all tables empty and the counters at 1, meets the schema's constraints |
| Models.DB.constructor | models.py:12-15 | opening the file keeps its schedules and history; an empty foods table is seeded with the defaults, a non-empty one is kept |
| Models.DB.Migrate | models.py:50-56 | an empty foods table is seeded with the defaults in order; a non-empty one is left as it is |
| Models.DB.SeedOne | models.py:52-55 | inserting the next default food extends the seeded prefix by one |
| Models.DB.ListFoods | models.py:58-61 | the foods as a permutation of the table, sorted by name |
| Models.DB.UpsertFood | models.py:63-75 | without an id, a new name is inserted with the next id and an existing name gets the new ratios; with an id, the row is updated exactly when no other food has the name, otherwise nothing changes |
| Models.DB.GetFood | models.py:77-80 | the stored food with that id, or none |
| Models.DB.FoodByName | models.py:82-85 | the stored food with that name, or none |
| Models.DB.CaloriesForGrams | models.py:87-91 | zero for a non-positive grams ratio; otherwise calories are proportional to grams at the food's ratio |
| Models.DB.GramsForCalories | models.py:93-97 | zero for a non-positive calories ratio; otherwise grams are proportional to calories at the food's ratio |
| Models.DB.ConversionRoundTrip | models.py:87-97 | for positive ratios each conversion undoes the other |
| Models.DB.AddSchedule | models.py:99-105 | a pending schedule with the next id is appended exactly when its food exists |
| Models.DB.ListSchedules | models.py:107-113 | rows sorted by due time, one for each schedule whose food exists, with that food's name: as a multiset exactly the join of schedules with foods, each joined schedule once, and no schedule id twice in a valid store |
| Models.DB.MarkExecuted | models.py:115-118 | the schedule with that id is marked executed and nothing else changes |
| Models.DB.AddHistory | models.py:120-126 | exactly one entry is appended to the history |
| Models.DB.HistoryLast7Days | models.py:128-135 | the entries no older than 604800 seconds, each as often as stored, newest first |
| Scheduler.DueRowsMembership | scheduler.py:24-26 | a row is due exactly when it is pending and the time lies in its 30-second window |
| Scheduler.DispatchedIff | scheduler.py:21-27 | a stored schedule is handed to the sender exactly when its food exists, it is pending and it is due |
| Scheduler.DispatchedFromStore | scheduler.py:21-27 | every dispatched row comes from a pending stored schedule inside its window |
| Scheduler.DispatchOrder | scheduler.py:21-22 | rows reach the sender in due-time order |
| Scheduler.DispatchAtMostOnce | scheduler.py:22-27 | no schedule is handed to the sender twice in one tick |
| Scheduler.AfterTickMarks | scheduler.py:27-29 | after a tick a schedule is executed exactly when it was already, or it was dispatched and the sender succeeded; nothing else changes |
| Scheduler.ExecutedNotDispatched | scheduler.py:24-25 | an executed schedule is not dispatched |
| Scheduler.AfterTicksKeeps | scheduler.py:19-29 | over any run of ticks only `executed` changes, and it never reverts to false |
| Scheduler.AfterTicksIds | scheduler.py:19-29 | ticks keep schedule ids increasing |
| Scheduler.NeverDispatchedAgain | scheduler.py:24-29 | once executed, a schedule stays executed and no later tick dispatches it |
| Scheduler.StaleStaysPending | scheduler.py:26 | a pending schedule whose window has passed at every tick is never executed |
| Scheduler.LoggedEmpty | scheduler.py:27 | when no reply records anything, a tick adds no history |
| Scheduler.LoggedEvery | scheduler.py:27 | when every reply records an entry, the tick's history is one entry per dispatched row, in order |
| Scheduler.LoggedAppend | scheduler.py:22-27 | one more dispatched row adds exactly that row's recorded entries |
| Scheduler.DueRowsStep | scheduler.py:22-26 | the due rows of a longer prefix extend those of the shorter one |
| Scheduler.VisitStep | scheduler.py:27-29 | one more visited row updates the marks and the history as the whole-tick definitions say |
| Scheduler.SchedulerEngine.constructor | scheduler.py:5-8 | the engine is bound to the store, with no timer |
| Scheduler.SchedulerEngine.Start | scheduler.py:10-12 | a timer is created only when none is running |
| Scheduler.SchedulerEngine.Stop | scheduler.py:14-17 | the timer is cancelled and cleared |
| Scheduler.SchedulerEngine.Tick | scheduler.py:19-29 | the sender is called on exactly the due pending rows in listing order; successes are marked executed; the history grows by the sender's entries; foods are untouched |
| Scheduler.SchedulerEngine.Visit | scheduler.py:23-29 | one loop step keeps the prefix form of the tick's calls, marks and history |
| Scheduler.SchedulerEngine.Fire | scheduler.py:12 | a timer firing runs a tick while the timer is set, and does nothing after `stop` |
| Transport.WithNewline | bt.py:83-84 | the written text ends in a newline and starts with the given text, at most one character longer |
| Transport.WithNewlineIdempotent | bt.py:83-84 | terminating twice is terminating once; a terminated text is left unchanged |
| Transport.MockBluetooth.constructor | bt.py:12-14 | the mock starts disconnected |
| Transport.MockBluetooth.ListPaired | bt.py:16-17 | exactly the one mock device is paired |
| Transport.MockBluetooth.IsConnected | bt.py:24-25 | the mock reports its connected flag |
| Transport.MockBluetooth.Connect | bt.py:19-22 | connecting always succeeds and remembers the name |
| Transport.MockBluetooth.Send | bt.py:27-31 | a send succeeds exactly while connected |
| Transport.FindBonded | bt.py:55-59 | the first bonded device whose address or name matches, or none when none matches |
| Transport.AndroidBluetooth.constructor | bt.py:34-38 | the link starts disconnected, without a stream |
| Transport.AndroidBluetooth.ListPaired | bt.py:40-48 | no devices when the adapter is missing or off, otherwise the bonded devices |
| Transport.AndroidBluetooth.Connect | bt.py:50-74 | each failure has its message and leaves the link unchanged; success exactly when the adapter is on, a bonded device matches and the socket connects, with the name of the first matching device in the message |
| Transport.AndroidBluetooth.IsConnected | bt.py:76-77 | the link reports its connected flag |
| Transport.AndroidBluetooth.Send | bt.py:79-89 | success exactly when connected with a stream and the write does not fail; only a success writes, and it writes the newline-terminated text |
| Transport.GetBluetooth | bt.py:91-94 | the Android link exactly on Android, otherwise the mock; either one disconnected |
| Transport.Send | bt.py:27-89 | sending through either transport succeeds exactly when that transport accepts; only an accepted Android send writes, the terminated text; the connection, readiness and acceptance are kept, and the mock is left exactly as it was |
| Command.RoundHalfEven | main.py:275 | the integer within a half of the grams, even on a tie, and non-negative for non-negative grams |
| Command.RoundHalfEvenUnique | main.py:275 | those properties determine the rounding |
| Command.NatToDecimal | main.py:275 | decimal digits without leading zeros |
| Command.IntToDecimal | main.py:275 | a minus sign exactly for negative numbers, and no colon |
| Command.DecimalRoundTrip | main.py:275 | reading the digits back gives the number |
| Command.ParseIntRoundTrip | main.py:275 | reading a written integer gives it back |
| Command.SplitAtColonJoin | main.py:275 | splitting at the first colon separates the hopper field from the grams field |
| Command.DispenseCommand | main.py:275 | the command starts with `DISPENSE:` |
| Command.CommandRoundTrip | main.py:275 | reading a command gives back its hopper and rounded grams |
| Command.CommandInjective | main.py:433 | two commands are equal exactly when hopper and rounded grams are |
| App.DummyBT.IsConnected | main.py:126-127 | the stub is never connected |
| App.DummyBT.ListPaired | main.py:129-130 | the stub has no paired devices |
| App.DummyBT.Connect | main.py:132-133 | connecting through the stub always fails with its message |
| App.DummyBT.Send | main.py:135-136 | sending through the stub always fails with its message |
| App.LinkSend | main.py:276 | a send through the app's link succeeds exactly when the link accepts; only an accepting Android stream receives the terminated text; the connection is kept and the mock is left as it was |
| App.CurrentHopper | main.py:224-229 | the hopper field clamped to 1..3, and 1 when it does not parse |
| App.CurrentAmount | main.py:218-222 | the amount field's value, and 0 when it does not parse |
| App.DispenseGrams | main.py:268-273 | grams are never negative: the amount itself in grams, otherwise the grams holding that many calories, a negative result clamped to 0 |
| App.DispenseByCalories | main.py:268-281 | dispensing by calories records exactly the requested calories |
| App.ScheduleReply | main.py:431-444 | success and one history entry exactly when the send succeeds and the food exists; the entry has the stored food's name and the calories of the grams at its ratios |
| App.DispatchedReply | main.py:435-437 | a dispatched row's food exists, so the sender succeeds exactly when the link accepts |
| App.TickWhileRefused | main.py:431-444 | while the link refuses, a tick marks nothing and records nothing |
| App.TickWhileAccepted | main.py:431-444 | while the link accepts, a tick marks every due schedule and records one entry per dispatched row |
| App.AppMain.Build | main.py:103-148 | the store opened from the file, with its schedules, history and counters, the foods seeded (and the food counter advanced past the defaults) only when the file has none; the platform transport or the stub with its status; scheduler started; nothing connected or selected |
| App.AppMain.SelectFood | main.py:205-207 | the selected food is the stored row for that id |
| App.AppMain.SetUnit | main.py:212-213 | the unit becomes the given text; the link, selection and status are kept |
| App.AppMain.Dispense | main.py:248-285 | refused without connection or food; otherwise sends the command for the clamped hopper and grams, which an accepting Android stream receives newline-terminated, and records one entry exactly when the send succeeds |
| App.AppMain.SendSchedule | main.py:431-444 | the reply and the history follow `ScheduleReply`; an accepted Android send writes the terminated command |
| App.AppMain.RecordScheduled | main.py:435-439 | after an accepted send, the stored food is looked up and exactly one entry with its name and calories is recorded; nothing when the food is gone |
| App.AppMain.SchedulerFire | main.py:143-144 | a timer firing runs the tick with `_send_schedule` as sender and the link's acceptance; an accepting Android stream receives the newline-terminated command of every dispatched row, in dispatch order, and nothing else; foods and both id counters are kept; the connection is kept |
| App.AppMain.StoreTick | main.py:431-444 | the store's side of a firing: marks and history move as the tick with `_send_schedule`'s replies says, foods and both id counters are untouched, and the transport is not touched |
| App.SendAll | main.py:433-434 | sending a tick's commands one after another: an accepting Android stream receives each newline-terminated, in order; a refusing link receives nothing; connection and acceptance are kept |
| App.FoodFormValid | main.py:363-366 | the guard of main.py:363-366 itself, which the `SaveFood` contract uses: the form is rejected exactly when the name is empty, a ratio does not parse, or a ratio is not positive |
| App.AppMain.SaveFood | main.py:360-373 | an invalid form changes nothing; a valid one upserts the food: a new name is appended under the next id, an existing name gets the new ratios, an id renames that food unless the name is taken; schedules, history and the schedule counter are kept |
| App.AppMain.SaveSchedule | main.py:412-429 | a schedule is added, under the next schedule id with the counter advanced by one, exactly when every field parses and a food has that exact name; foods, history and the food counter are kept |

## Left out

- The Kivy user interface is not modelled: screens, menus, dialogs, toasts, labels,
  `_refresh_*` methods, `go`, `go_back` and the conversion label. None of it changes the
  store or the transport.
- `refresh_paired` and `_connect_to` are not modelled. They are UI glue around the
  transports' `list_paired` and `connect`, which are modelled.
- `print` output and `traceback` logging are not modelled: the mock's echo, and the
  error prints in `build`.
- SQLite itself is not modelled: files, connections, commits, `CREATE TABLE` and SQL text.
  The tables are sequences and the ids are counters.
- Order of equal sort keys: `ORDER BY` leaves ties unspecified, and the model keeps
  insertion order. For foods there are no ties, because names are unique
  (`Models.FoodsOrderDetermined`). For schedules with equal `when_ts`, the model's tick
  calls the sender and records history in the table's insertion order, and
  `Scheduler.SchedulerEngine.Tick`, `Scheduler.SchedulerEngine.Fire`,
  `App.AppMain.SchedulerFire` and `Scheduler.LoggedEvery` state that order, which SQLite
  does not promise. History entries with equal timestamps keep insertion order.
- Models.DB.UpsertFood: `INSERT OR REPLACE` on an existing name deletes and re-inserts
  the row in SQLite, giving it a new id. The deletion may also cascade to its schedules.
  The model keeps the id and updates the ratios in place.
- Models.DB.UpsertFood: an update whose new name clashes raises SQLite's UNIQUE error.
  The model reports `ok == false` and changes nothing. An update of a missing id
  changes nothing.
- Models.DB.AddSchedule: a missing food makes SQLite raise an IntegrityError, because
  foreign keys are switched on. The model reports `ok == false` and changes nothing.
- Models.DB.constructor: the database file is a `StoredTables` value handed to the
  constructor, assumed to meet the schema's constraints. Reading and writing the file
  are not modelled, and neither is a file that fails to open.
- Floating point is not modelled: grams, ratios and calories are exact `real`s.
  `Command.RoundHalfEven` is exact on reals. The float formatting of the UI is not
  modelled.
- Text parsing is not modelled: `float(...)`, `int(...)`, `strptime` and
  `datetime.timestamp` arrive as `Option` values. `strip()` is not modelled: names arrive
  already stripped.
- The clock is not modelled: `time()` is the `now` parameter. The Kivy timer that calls
  `_tick` every second is replaced by `Fire` and the `event` handle.
- App.AppMain.SchedulerFire: every send of one tick meets the same stream fault, and the
  history uses the tick's `now` where `_send_schedule` calls `time()` again. The store's
  side of the tick runs first and the tick's commands are then sent in dispatch order,
  where the source interleaves one send and one store update per row. The stream and the
  store are separate, so the end state is the same.
- Scheduler.SchedulerEngine.Tick: the sender is a function of the row. A callback that
  raises is not modelled; `_send_schedule` catches its own exceptions.
- The Android foreign calls (`jnius`, `BluetoothAdapter`, RFCOMM sockets, streams) are not
  modelled. Their outcomes are parameters. Only the socket's connect error and the
  stream's write error are modelled as exceptions.
- UTF-8 encoding and `flush` are not modelled: the Android link records written texts as
  strings.
- App.AppMain.Dispense: the outer `try` that turns any exception into a toast is not
  modelled, because no modelled step raises. The guard that treats a failing
  `is_connected` as disconnected is not modelled either.
- App.AppMain.Build: a failing store or scheduler construction is not modelled, because
  neither fails in the model. Only the transport's failure, which selects the stub, is
  modelled.
- FoodForm and ScheduleForm field layouts are not modelled; only the values they deliver
  are.
