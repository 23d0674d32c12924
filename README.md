# Canary server bookkeeping in Dafny

This project models three pieces of sequential bookkeeping in the Canary MMORPG server emulator and proves properties about them.

- **The delayed-event scheduler** (`src/game/scheduling/scheduler.cpp`).
  - State: a priority queue of tasks keyed by deadline, the set of live event ids, a 32-bit id counter, and the thread state.
  - Operations: `addEvent`, `stopEvent` (lazy cancellation by id), one timer firing of the scheduler thread, and `shutdown`.
  - `SchedulerModel` states each operation as a function on a `State` value. It also proves facts about whole runs of cancellations and firings (runs that add no task):
    - every id live at the start ends up still live, dispatched once, or cancelled once;
    - a cancelled task is never dispatched;
    - tasks reach the dispatcher in deadline order.
  - `Scheduling.Scheduler` is the mutable object. Each of its methods is proved to move its fields exactly as the matching model function does.
- **Map tiles** (`src/items/tile.h`).
  - `Tiles.TileItemVector` splits one vector of items into a prefix of "down" items and a suffix of "top" items.
  - `Tiles.Tile` covers the flag word and the priority-ordered zone derived from it, the thing count, and the lazy, allocate-once item and creature lists of static tiles.
- **The Lua script environment** (`src/lua/scripts/script_environment.cpp`).
  - `localMap`: the uid table of items handed to scripts, with its `lastUID` counter.
  - The range-based uid lookup and removal.
  - The table of database results, with its `lastResultId` counter.
  - The nested-callback guard.
  - The multimap of temporary items that every environment shares (`Scripts.TempItemTable`).

Machine integers are explicit. `uint32_t` counters wrap through `Common.Inc32`. `size_t` arithmetic narrowed to `uint32_t` is written out in `Tiles.TileItemVector.TopItemCount`.

Things the code asks of the world are a `Scripts.World` value passed to the operations that need it:
- whether a thing is removed;
- an item's UNIQUEID attribute;
- the game's creature and unique-item lookups;
- an item's parent and container-ness.

## Model

| member | source | states |
|---|---|---|
| Common.Inc32 | src/game/scheduling/scheduler.cpp:62 | `++` on a `uint32_t`: the successor below the maximum, 0 after the maximum, never the old value |
| SchedulerModel.NextEventId | src/game/scheduling/scheduler.cpp:60-66 | the automatically assigned id is never 0: it is the counter plus one, and 1 when the counter wraps |
| SchedulerModel.AddEvent | src/game/scheduling/scheduler.cpp:53-91 | when not running: returns 0, state unchanged, no signal. When running: a caller id is kept and an auto id is `NextEventId`; the id is nonzero and is in the live set; no other id changes; the queue grows by exactly the renamed task; the invariant is kept. An automatic id is fresh (no queued task and no live id carries it) while the counter bounds every queued id and has not reached its maximum, and an automatic add or a caller id no larger than the counter keeps that bound |
| SchedulerModel.AddEventSignal | src/game/scheduling/scheduler.cpp:75-77 | the waiting loop is signalled only when the new task is now the earliest and ties no queued deadline; without a signal, some queued task is due no later |
| SchedulerModel.StopEvent | src/game/scheduling/scheduler.cpp:93-109 | id 0 fails and changes nothing; success iff the id is live; exactly that id leaves the live set; the queue is never touched |
| SchedulerModel.Pop | src/game/scheduling/scheduler.cpp:30-46 | the popped task leaves the queue; it is handed off iff its id was live, and then with `dontExpire` set; its id is no longer live afterwards; queue size drops by one; a counter that bounds every queued id still does |
| SchedulerModel.Shutdown | src/game/scheduling/scheduler.cpp:111-125 | terminated, empty queue, empty id set, counter kept; the invariant holds |
| SchedulerModel.EarliestExists | src/game/scheduling/scheduler.cpp:26-32 | every non-empty queue has a top: a task no later than any other |
| SchedulerModel.AfterShutdown | src/game/scheduling/scheduler.cpp:58-82 | after shutdown, `addEvent` returns 0 and changes nothing, a second shutdown changes nothing, and nothing is due at any time |
| SchedulerModel.RunKeepsValid | src/game/scheduling/scheduler.cpp:30-46 | any run of cancellations and firings keeps the invariant: ids nonzero, every live id queued, a terminated scheduler empty |
| SchedulerModel.RunMarksDontExpire | src/game/scheduling/scheduler.cpp:45-46 | every task handed to the dispatcher carries the non-expiring mark |
| SchedulerModel.RunAccounts | src/game/scheduling/scheduler.cpp:36-42 | the ids live at the start of a run are partitioned into those still live, those dispatched and those cancelled |
| SchedulerModel.RunDispatchesOnce | src/game/scheduling/scheduler.cpp:36-46 | no id reaches the dispatcher twice: a dispatched id is retired at once |
| SchedulerModel.RunCancelsOnce | src/game/scheduling/scheduler.cpp:102-107 | no id is cancelled successfully twice |
| SchedulerModel.RunAbove | src/game/scheduling/scheduler.cpp:26-33 | a run dispatches no task earlier than a bound on every deadline queued at its start |
| SchedulerModel.RunInDeadlineOrder | src/game/scheduling/scheduler.cpp:26-33 | tasks reach the dispatcher in nondecreasing deadline order |
| SchedulerModel.CancelOrDispatch | src/game/scheduling/scheduler.cpp:36-42 | once the queue has drained, each id live at the start was dispatched or cancelled, exactly one of the two |
| SchedulerModel.CancelledNeverDispatched | src/game/scheduling/scheduler.cpp:102-107 | after a successful `stopEvent`, no later run of cancellations and firings dispatches that id (such runs add no task at all) |
| SchedulerModel.ReAddRevivesCancelled | src/game/scheduling/scheduler.cpp:36-46 | an `addEvent` reusing a cancelled id makes it live again: the earlier, cancelled task is then popped and dispatched, and the new task is dropped |
| Scheduling.Scheduler.constructor | src/game/scheduling/scheduler.cpp:14-17 | a started scheduler: running, nothing queued, counter 0 |
| Scheduling.Scheduler.AddEvent | src/game/scheduling/scheduler.cpp:53-91 | the object's new state, the returned id and the signal are exactly `SchedulerModel.AddEvent` of its old state; nothing is dispatched |
| Scheduling.Scheduler.StopEvent | src/game/scheduling/scheduler.cpp:93-109 | the new state and result are exactly `SchedulerModel.StopEvent` of the old state |
| Scheduling.Scheduler.Step | src/game/scheduling/scheduler.cpp:17-49 | nothing happens unless a deadline has passed; otherwise an earliest task, due by `now`, is popped as `SchedulerModel.Pop` says, and the dispatch log grows by exactly the hand-off |
| Scheduling.Scheduler.Shutdown | src/game/scheduling/scheduler.cpp:111-125 | the drain loop destroys exactly the queued tasks; the end state is `SchedulerModel.Shutdown` of the old one |
| Tiles.TileItemVector.constructor | src/items/tile.h:101 | a new vector is empty, with no down items |
| Tiles.TileItemVector.DownItems | src/items/tile.h:50-61 | the down items are the first `downItemCount` items of the vector |
| Tiles.TileItemVector.TopItems | src/items/tile.h:62-73 | the top items are the rest of the vector after the down items; there are `getTopItemCount()` of them |
| Tiles.TileItemVector.DownItemCount | src/items/tile.h:78-80 | the down count and the top count add up to the size of the vector |
| Tiles.TileItemVector.TopItemCount | src/items/tile.h:75-77 | the size minus the down count while the down count fits; the `uint32_t` wrap-around of that difference when it does not |
| Tiles.TileItemVector.TopTopItem | src/items/tile.h:81-86 | null iff there are no top items; otherwise the last item, the last top item |
| Tiles.TileItemVector.TopDownItem | src/items/tile.h:87-92 | null iff there are no down items; otherwise the first item |
| Tiles.TileItemVector.IncreaseDownItemCount | src/items/tile.h:93-95 | the count grows by one in `uint32_t` arithmetic; the items are untouched; the partition stays valid while a top item is left to absorb |
| Tiles.TileItemVector.DecreaseDownItemCount | src/items/tile.h:96-98 | the count drops by exactly one in `uint32_t` arithmetic, so 0 wraps to 0xFFFFFFFF; the items are untouched; a nonzero count is valid again after an item was erased |
| Tiles.TileItemVector.Insert | src/items/tile.h:40 | the vector's `insert` at a position |
| Tiles.TileItemVector.Erase | src/items/tile.h:41 | the vector's `erase` at a position |
| Tiles.TileItemVector.PushBack | src/items/tile.h:42 | `push_back` appends a top item and leaves the down items as they were |
| Tiles.AddDownItem | src/items/tile.h:93-95 | inserting at the front and counting it makes the item the first down item and leaves the top items alone |
| Tiles.RemoveDownItem | src/items/tile.h:96-98 | erasing a down item and uncounting it removes exactly that down item and leaves the top items alone |
| Tiles.EitherBitSet | src/items/tile.h:164-166 | a union of two masks meets a flag word iff one of them does |
| Tiles.ZoneIgnoresOtherFlags | src/items/tile.h:174-186 | two tiles whose flag words agree on the four zone bits are in the same zone |
| Tiles.SetFlagBits | src/items/tile.h:167-169 | `setFlag` makes the flag set and leaves every bit outside it unchanged |
| Tiles.ResetFlagBits | src/items/tile.h:170-172 | `resetFlag` makes the flag unset and leaves every bit outside it unchanged |
| Tiles.ResetUndoesSet | src/items/tile.h:167-172 | resetting a flag after setting it leaves what resetting alone would |
| Tiles.Tile.DynamicTile | src/items/tile.h:281-299 | a dynamic tile owns both lists from the start, empty |
| Tiles.Tile.StaticTile | src/items/tile.h:303-310 | a static tile starts with neither list |
| Tiles.Tile.HasFlag | src/items/tile.h:164-166 | true iff some bit of the flag is set in the tile's flag word |
| Tiles.Tile.SetFlag | src/items/tile.h:167-169 | the flag word gains exactly the given bits, and `hasFlag` then holds for a nonzero flag |
| Tiles.Tile.ResetFlag | src/items/tile.h:170-172 | the flag word loses exactly the given bits, and `hasFlag` then fails |
| Tiles.Tile.GetZone | src/items/tile.h:174-186 | each zone is chosen iff its flag is set and no higher-priority flag is (protection, no-PvP, no-logout, PvP); normal iff no zone flag is set |
| Tiles.Tile.ThingCount | src/items/tile.h:148-154 | zero iff the tile has no ground, no creatures and no items; never less than creatures plus items |
| Tiles.Tile.SetGround | src/items/tile.h:240-242 | the ground becomes the given item |
| Tiles.Tile.MakeItemList | src/items/tile.h:329-334 | allocates a fresh empty list only when there is none; otherwise returns the existing one; the thing count does not change |
| Tiles.Tile.MakeCreatures | src/items/tile.h:342-347 | allocates a fresh empty creature list only when there is none; otherwise returns the existing one; the thing count does not change |
| Scripts.Without | src/lua/scripts/script_environment.cpp:33-41 | no entry of the environment remains, and no entry is added |
| Scripts.WithoutMembers | src/lua/scripts/script_environment.cpp:33-41 | exactly the entries of the other environments remain |
| Scripts.WithoutSorted | src/lua/scripts/script_environment.cpp:33-41 | the multimap stays ordered by key and the environment has no entry left |
| Scripts.WithoutKeepsOthers | src/lua/scripts/script_environment.cpp:33-41 | every other environment keeps its items, in their order |
| Scripts.Emplace | src/lua/scripts/script_environment.cpp:148-150 | `emplace` grows the multimap by one entry |
| Scripts.EmplaceMultiset | src/lua/scripts/script_environment.cpp:148-150 | the entries after `emplace` are the old entries plus exactly the new one |
| Scripts.EmplaceSorted | src/lua/scripts/script_environment.cpp:148-150 | `emplace` keeps the multimap ordered by key |
| Scripts.EmplaceItems | src/lua/scripts/script_environment.cpp:148-150 | the new item becomes the last item of its environment, and no other environment's items change |
| Scripts.InVirtualCylinder | src/lua/scripts/script_environment.cpp:36-38 | the released items are exactly those of the environment's items that sit in the virtual cylinder |
| Scripts.SplitOffEnv | src/lua/scripts/script_environment.cpp:33-41 | the erase loop keeps exactly the other environments' entries and releases the virtual-cylinder items of this one |
| Scripts.FirstEntryOf | src/lua/scripts/script_environment.cpp:153-158 | the search finds the first entry holding the item, or reports that none does |
| Scripts.TempItemTable.constructor | src/lua/scripts/script_environment.cpp:148-150 | the shared multimap starts empty and ordered |
| Scripts.ScriptEnvironment.constructor | src/lua/scripts/script_environment.cpp:17-19 | a new environment is reset: cleared context and tables, and no temporary items of its own |
| Scripts.ScriptEnvironment.ResetEnv | src/lua/scripts/script_environment.cpp:25-42 | script, callback and timer fields cleared; no interface; uid and result tables empty; this environment's temporary items are gone, the releases done, and other environments left exactly as they were |
| Scripts.ScriptEnvironment.SetCallbackId | src/lua/scripts/script_environment.cpp:44-56 | succeeds iff no callback is active; on success sets the callback and interface; otherwise changes nothing |
| Scripts.ScriptEnvironment.FindLocalUid | src/lua/scripts/script_environment.cpp:80-84 | the search finds a uid under which the item is stored, or shows that the item is not stored at all |
| Scripts.ScriptEnvironment.AddThing | src/lua/scripts/script_environment.cpp:65-88 | 0 for a null or removed thing, the id for a creature, the UNIQUEID for an item that has one; an item already stored keeps its uid and nothing changes; otherwise it is stored under `++lastUID`; a local-range uid leads `getThingByUID` back to the thing |
| Scripts.ScriptEnvironment.InsertItem | src/lua/scripts/script_environment.cpp:90-95 | a taken uid is never overwritten; a free uid is bound to the item |
| Scripts.ScriptEnvironment.GetThingByUID | src/lua/scripts/script_environment.cpp:97-118 | uids from 0x10000000 go to the creatures, uids up to 0xFFFF to the unique items, the rest to the uid table; a removed item is never returned |
| Scripts.ScriptEnvironment.GetItemByUID | src/lua/scripts/script_environment.cpp:120-126 | found iff the uid names an item, and then that item |
| Scripts.ScriptEnvironment.GetContainerByUID | src/lua/scripts/script_environment.cpp:128-134 | found iff the uid names an item that is a container |
| Scripts.ScriptEnvironment.RemoveItemByUID | src/lua/scripts/script_environment.cpp:136-146 | uids up to 0xFFFF go to the game's unique-item table and leave the uid table alone; any other uid removes that key only |
| Scripts.ScriptEnvironment.AddTempItem | src/lua/scripts/script_environment.cpp:148-150 | the item joins this environment's temporary items, last, and the multimap stays ordered |
| Scripts.ScriptEnvironment.RemoveTempItem | src/lua/scripts/script_environment.cpp:152-159 | erases exactly the first entry that holds the item, whichever environment it belongs to, or nothing if none does |
| Scripts.ScriptEnvironment.AddResult | src/lua/scripts/script_environment.cpp:161-164 | stores the result under `++lastResultId`, which `getResultByID` then finds; the id is fresh while the counter has not wrapped |
| Scripts.ScriptEnvironment.RemoveResult | src/lua/scripts/script_environment.cpp:166-174 | true iff the id was present; afterwards it is absent and nothing else is removed |
| Scripts.ScriptEnvironment.GetResultByID | src/lua/scripts/script_environment.cpp:176-182 | found iff the id is stored, and then that result |

## Left out

- Threads, the mutex, the condition variable and the waits: each scheduler method is one atomic step, and the timed wait is `Step(now)` with time as an integer. The wait on an empty queue is a liveness detail.
- `g_dispatcher().addTask` is a foreign call. The dispatch is the ghost log `dispatched`.
- `delete` and ownership: a dropped task is simply a discarded value.
- `createSchedulerTask` and `SchedulerTask`'s clock: src/game/scheduling/scheduler.h is not part of this model, so a task's deadline is an integer and its callable an opaque number.
- The heap order: the comparator lives in scheduler.h. The queue is a multiset with extract-min, so among equal deadlines the model may pop any task. The signal allows the new task to reach the top only when it is strictly earlier than every queued task, as the standard heap's sift-up does.
- Scheduling.Scheduler.constructor: the initial counter 0 and the running state come from scheduler.h and the thread holder, which are not part of this model.
- Caller-supplied event ids are not forced to be unique. The code accepts duplicates, and so does the model: of the tasks sharing an id, whichever pops first is dispatched and whichever pops later is dropped.
- Runs of scheduler actions (`SchedulerModel.Run`) contain cancellations and firings but no `addEvent`. The run lemmas say nothing about a run that adds tasks partway through. In particular, an `addEvent` that reuses a cancelled id (a caller id, or an automatic id after the counter wraps) revives it, as `SchedulerModel.ReAddRevivesCancelled` shows.
- SchedulerModel.AddEvent: automatic ids are proved fresh only while the counter bounds every queued id. A caller id above the counter, or a wrap of the counter, lets an automatic id collide with a queued one, as in the code.
- All of src/server/signals.cpp: operating-system signal handling and reload plumbing.
- The `g_game()` calls (`ReleaseItem`, `getCreatureByID`, `getUniqueItem`, `removeUniqueItem`) are the `World` value, or a result flag. `ReleaseItem` is the ghost `released` list of `ResetEnv`, and `removeUniqueItem` is `RemoveItemByUID`'s `forwardedToGame` result.
- `SPDLOG_ERROR` and `reportErrorFunc`: logging only.
- `DBResult_ptr` contents are opaque handles.
- `getEventInfo`: it only copies four fields out.
- Tile's `Cylinder` virtual methods are declared in tile.h but defined elsewhere.
- The destructors' reference-count decrements.
- Tiles.Tile.ThingCount: `getCreatureCount` and `getItemCount` are declared in tile.h but defined elsewhere. They are taken as the sizes of the lists, 0 when a list is absent.
- `hasBitSet` is defined outside tile.h. It is taken to be "some bit of the mask is set in the word" and written out in `Tiles.Tile.HasFlag`.
- The values of the `tileflags_t` zone constants are defined outside tile.h. The model uses 0x80, 0x100, 0x200 and 0x400.
- Scripts.ScriptEnvironment.constructor: `lastUID` starts at 0xFFFF (just above the unique-item range) and `lastResultId` at 0. Their declarations are in script_environment.hpp, which is not part of this model. The result table and its counter are kept per environment.
- Scripts.ScriptEnvironment.AddThing: a thing that is neither a creature nor an item (such as a tile) is not modelled. The round trip to `getThingByUID` is stated only for uids in the local range (0xFFFF, 0x10000000). Once `lastUID` has grown past it, the counter hands out uids that the lookup routes to creatures or unique items.
- Scripts.ScriptEnvironment.AddThing: when one item is stored under several uids, this model's search may return any of them. The code returns the first in `localMap`'s iteration order.
- Scripts.ScriptEnvironment.AddResult: the id is proved fresh only while the counter has not wrapped. After a wrap, an id still in the table is overwritten, as in the code.
