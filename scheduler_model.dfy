/**
 * The delayed-event scheduler of src/game/scheduling/scheduler.cpp as a state machine on values.
 *
 * The scheduler's four pieces of state -- the heap of pending tasks keyed by deadline, the set of
 * live event ids, the 32-bit id counter and the thread state -- form a `State`. Each operation is a
 * function from the old state to the new one; the class in scheduler.dfy is proved against them.
 * The lemmas at the end are about runs of cancellations and timer firings: every dispatched id is
 * dispatched once, a cancelled id is never dispatched, and tasks leave in deadline order.
 */
module SchedulerModel {
  import opened Common

  type EventId = U32

  datatype ThreadState = Running | Terminated

  /**
   * A `SchedulerTask`: `cycle` is its deadline, `eventId` its identity (0 means "assign one"),
   * `dontExpire` the flag set when it is handed to the dispatcher, and `body` an opaque stand-in
   * for the callable it carries.
   */
  datatype Task = Task(eventId: EventId, cycle: int, dontExpire: bool, body: nat)

  /** `eventList` is a priority queue, so only the multiset of its tasks matters here. */
  datatype State = State(eventList: multiset<Task>, eventIds: set<EventId>, lastEventId: EventId, threadState: ThreadState)

  function Ids(m: multiset<Task>): set<EventId>
  {
    set t | t in m :: t.eventId
  }

  /** Every queued task has a nonzero id, every live id has a queued task, and a terminated scheduler holds nothing. */
  predicate Valid(s: State)
  {
    && (forall t | t in s.eventList :: t.eventId != 0)
    && s.eventIds <= Ids(s.eventList)
    && (s.threadState == Terminated ==> s.eventList == multiset{} && s.eventIds == {})
  }

  /** A started scheduler: nothing queued, counter at 0. */
  const Initial: State := State(multiset{}, {}, 0, Running)

  predicate IsEarliest(t: Task, m: multiset<Task>)
  {
    t in m && forall u | u in m :: t.cycle <= u.cycle
  }

  /**
   * Whether `eventList.top()` is `t` right after `eventList.push(t)`. The heap is a min-heap on
   * `cycle` and its sift-up stops at a parent whose deadline is not later, so the new task reaches
   * the top iff it is strictly earlier than every task already queued.
   */
  predicate PushedToTop(t: Task, before: multiset<Task>)
  {
    forall u | u in before :: t.cycle < u.cycle
  }

  /** The timer wait at scheduler.cpp:26 times out iff some queued deadline has been reached. */
  predicate Due(s: State, now: int)
  {
    exists t | t in s.eventList :: t.cycle <= now
  }

  /** The counter is at least every queued id: true while only automatic ids have been handed out. */
  predicate CounterAbove(s: State)
  {
    forall t | t in s.eventList :: t.eventId <= s.lastEventId
  }

  /** The id `addEvent` assigns: `++lastEventId`, and 1 instead of 0 when the counter wraps. */
  function NextEventId(last: EventId): (r: EventId)
    ensures r != 0
    ensures last < MaxU32 ==> r == last + 1
    ensures last == MaxU32 ==> r == 1
  {
    var n := Inc32(last);
    if n == 0 then 1 else n
  }

  lemma IdsAdd(m: multiset<Task>, t: Task)
    ensures Ids(m + multiset{t}) == Ids(m) + {t.eventId}
  {
    assert t in m + multiset{t};
  }

  lemma IdsRemove(m: multiset<Task>, t: Task, k: EventId)
    requires t in m && k in Ids(m) && k != t.eventId
    ensures k in Ids(m - multiset{t})
  {
    var u :| u in m && u.eventId == k;
    assert u != t;
    assert u in m - multiset{t};
  }

  datatype Added = Added(next: State, id: EventId, signal: bool)

  /** `Scheduler::addEvent` (scheduler.cpp:53-91): the new state, the returned id and whether the waiting loop is signalled. */
  function AddEvent(s: State, task: Task): (r: Added)
    ensures s.threadState != Running ==> r == Added(s, 0, false)
    ensures s.threadState == Running ==>
      && r.id != 0
      && (task.eventId != 0 ==> r.id == task.eventId && r.next.lastEventId == s.lastEventId)
      && (task.eventId == 0 ==> r.id == NextEventId(s.lastEventId) && r.next.lastEventId == r.id)
      && r.id in r.next.eventIds
      && r.next.eventIds - {r.id} == s.eventIds - {r.id}
      && r.next.eventList == s.eventList + multiset{task.(eventId := r.id)}
      && |r.next.eventList| == |s.eventList| + 1
      && r.next.threadState == Running
    ensures Valid(s) ==> Valid(r.next)
    ensures s.threadState == Running && task.eventId == 0 && s.lastEventId < MaxU32 && CounterAbove(s) ==>
      r.id !in Ids(s.eventList) && (Valid(s) ==> r.id !in s.eventIds)
    ensures CounterAbove(s) && (if task.eventId == 0 then s.lastEventId < MaxU32 else task.eventId <= s.lastEventId) ==>
      CounterAbove(r.next)
  {
    if s.threadState != Running then
      Added(s, 0, false)
    else
      var last := if task.eventId == 0 then NextEventId(s.lastEventId) else s.lastEventId;
      var t := if task.eventId == 0 then task.(eventId := last) else task;
      IdsAdd(s.eventList, t);
      Added(State(s.eventList + multiset{t}, s.eventIds + {t.eventId}, last, s.threadState),
            t.eventId, PushedToTop(t, s.eventList))
  }

  datatype Stopped = Stopped(next: State, ok: bool)

  /** `Scheduler::stopEvent` (scheduler.cpp:93-109): lazy cancellation, by the id set alone. */
  function StopEvent(s: State, id: EventId): (r: Stopped)
    ensures id == 0 ==> r == Stopped(s, false)
    ensures r.ok <==> id != 0 && id in s.eventIds
    ensures r.next.eventIds == s.eventIds - {id} || id == 0
    ensures r.next.eventList == s.eventList
    ensures r.next.lastEventId == s.lastEventId && r.next.threadState == s.threadState
    ensures Valid(s) ==> Valid(r.next)
  {
    if id == 0 || id !in s.eventIds then Stopped(s, false)
    else Stopped(s.(eventIds := s.eventIds - {id}), true)
  }

  datatype Popped = Popped(next: State, handoff: Option<Task>)

  /**
   * One timer firing of `Scheduler::threadMain` (scheduler.cpp:30-46) after `t` was taken from the
   * top: the task is dropped if its id is no longer live, otherwise its id is retired and the task
   * is handed to the dispatcher marked as non-expiring.
   */
  function Pop(s: State, t: Task): (r: Popped)
    requires t in s.eventList
    ensures r.next.eventList == s.eventList - multiset{t}
    ensures |r.next.eventList| == |s.eventList| - 1
    ensures r.handoff.Some? <==> t.eventId in s.eventIds
    ensures r.handoff.Some? ==> r.handoff.value == t.(dontExpire := true)
    ensures r.next.eventIds == s.eventIds - {t.eventId}
    ensures r.next.lastEventId == s.lastEventId && r.next.threadState == s.threadState
    ensures Valid(s) ==> Valid(r.next)
    ensures CounterAbove(s) ==> CounterAbove(r.next)
  {
    var rest := s.eventList - multiset{t};
    var r := if t.eventId !in s.eventIds then Popped(s.(eventList := rest), None)
             else Popped(s.(eventList := rest, eventIds := s.eventIds - {t.eventId}), Some(t.(dontExpire := true)));
    assert Valid(s) ==> r.next.eventIds <= Ids(rest) by {
      if Valid(s) {
        forall k | k in r.next.eventIds ensures k in Ids(rest) {
          IdsRemove(s.eventList, t, k);
        }
      }
    }
    r
  }

  /** `Scheduler::shutdown` (scheduler.cpp:111-125): terminate, destroy every queued task, forget every id. */
  function Shutdown(s: State): (r: State)
    ensures Valid(r)
    ensures r.threadState == Terminated && r.eventList == multiset{} && r.eventIds == {}
    ensures r.lastEventId == s.lastEventId
  {
    State(multiset{}, {}, s.lastEventId, Terminated)
  }

  /** Every non-empty queue has a top: a task no later than any other. */
  lemma {:induction false} EarliestExists(m: multiset<Task>)
    requires |m| > 0
    ensures exists t :: IsEarliest(t, m)
    decreases |m|
  {
    var x :| x in m;
    var rest := m - multiset{x};
    if |rest| == 0 {
      assert rest == multiset{};
      assert m == multiset{x};
      assert IsEarliest(x, m);
    } else {
      EarliestExists(rest);
      var y :| IsEarliest(y, rest);
      if x.cycle <= y.cycle {
        assert IsEarliest(x, m);
      } else {
        assert IsEarliest(y, m);
      }
    }
  }

  /** The waiting loop is signalled iff the new task is now the one the loop must wake up for. */
  lemma AddEventSignal(s: State, task: Task)
    requires s.threadState == Running
    ensures var r := AddEvent(s, task);
      && (r.signal ==> IsEarliest(task.(eventId := r.id), r.next.eventList)
                       && forall u | u in s.eventList :: u.cycle != task.cycle)
      && (!r.signal ==> exists u | u in s.eventList :: u.cycle <= task.cycle)
  {
    var r := AddEvent(s, task);
    var t := task.(eventId := r.id);
    if r.signal {
      assert PushedToTop(t, s.eventList);
      forall u | u in r.next.eventList ensures t.cycle <= u.cycle {
        if u != t { assert u in s.eventList; }
      }
    } else {
      assert !PushedToTop(t, s.eventList);
    }
  }

  /** Once shut down, a scheduler rejects every task and a second shutdown changes nothing. */
  lemma AfterShutdown(s: State, task: Task, now: int)
    ensures AddEvent(Shutdown(s), task) == Added(Shutdown(s), 0, false)
    ensures Shutdown(Shutdown(s)) == Shutdown(s)
    ensures !Due(Shutdown(s), now)
  {
  }

  /** What a producer or the waiting loop can do to a running scheduler without adding tasks. */
  datatype Action = Stop(id: EventId) | Fire(task: Task)

  /** Each firing takes a task that is at the top of the queue at that moment. */
  predicate Legal(s: State, acts: seq<Action>)
    decreases |acts|
  {
    if acts == [] then true
    else match acts[0]
      case Stop(id) => Legal(StopEvent(s, id).next, acts[1..])
      case Fire(t) => IsEarliest(t, s.eventList) && Legal(Pop(s, t).next, acts[1..])
  }

  /** The end state, the tasks handed to the dispatcher in order, and the ids whose `stopEvent` returned true. */
  datatype Trace = Trace(final: State, dispatched: seq<Task>, cancelled: seq<EventId>)

  function Run(s: State, acts: seq<Action>): Trace
    requires Legal(s, acts)
    decreases |acts|
  {
    if acts == [] then Trace(s, [], [])
    else match acts[0]
      case Stop(id) =>
        var st := StopEvent(s, id);
        var rest := Run(st.next, acts[1..]);
        Trace(rest.final, rest.dispatched, (if st.ok then [id] else []) + rest.cancelled)
      case Fire(t) =>
        var p := Pop(s, t);
        var rest := Run(p.next, acts[1..]);
        Trace(rest.final, (if p.handoff.Some? then [p.handoff.value] else []) + rest.dispatched, rest.cancelled)
  }

  function DispatchedIds(d: seq<Task>): set<EventId>
  {
    set t | t in d :: t.eventId
  }

  predicate DistinctIds(d: seq<Task>)
  {
    forall i, j | 0 <= i < j < |d| :: d[i].eventId != d[j].eventId
  }

  predicate Distinct(c: seq<EventId>)
  {
    forall i, j | 0 <= i < j < |c| :: c[i] != c[j]
  }

  predicate InDeadlineOrder(d: seq<Task>)
  {
    forall i, j | 0 <= i < j < |d| :: d[i].cycle <= d[j].cycle
  }

  lemma {:induction false} RunKeepsValid(s: State, acts: seq<Action>)
    requires Valid(s) && Legal(s, acts)
    ensures Valid(Run(s, acts).final)
    decreases |acts|
  {
    if acts != [] {
      match acts[0]
      case Stop(id) => RunKeepsValid(StopEvent(s, id).next, acts[1..]);
      case Fire(t) => RunKeepsValid(Pop(s, t).next, acts[1..]);
    }
  }

  function CancelledIds(c: seq<EventId>): set<EventId>
  {
    set i | i in c
  }

  /** Every dispatched task was handed off marked as non-expiring. */
  lemma {:induction false} RunMarksDontExpire(s: State, acts: seq<Action>)
    requires Legal(s, acts)
    ensures forall k | 0 <= k < |Run(s, acts).dispatched| :: Run(s, acts).dispatched[k].dontExpire
    decreases |acts|
  {
    if acts != [] {
      match acts[0]
      case Stop(id) => RunMarksDontExpire(StopEvent(s, id).next, acts[1..]);
      case Fire(t) => RunMarksDontExpire(Pop(s, t).next, acts[1..]);
    }
  }

  /** `start` splits into the ids still live at the end, the dispatched ids and the cancelled ids. */
  predicate Accounts(start: set<EventId>, r: Trace)
  {
    && start == r.final.eventIds + DispatchedIds(r.dispatched) + CancelledIds(r.cancelled)
    && r.final.eventIds !! DispatchedIds(r.dispatched)
    && r.final.eventIds !! CancelledIds(r.cancelled)
    && DispatchedIds(r.dispatched) !! CancelledIds(r.cancelled)
  }

  lemma DispatchedIdsCons(h: Task, d: seq<Task>)
    ensures DispatchedIds([h] + d) == {h.eventId} + DispatchedIds(d)
  {
    assert forall x | x in [h] + d :: x == h || x in d;
  }

  lemma CancelledIdsCons(x: EventId, c: seq<EventId>)
    ensures CancelledIds([x] + c) == {x} + CancelledIds(c)
  {
    assert forall y | y in [x] + c :: y == x || y in c;
  }

  lemma AccountsStop(s: State, id: EventId, acts: seq<Action>)
    requires id != 0 && id in s.eventIds
    requires Legal(StopEvent(s, id).next, acts)
    requires Accounts(StopEvent(s, id).next.eventIds, Run(StopEvent(s, id).next, acts))
    ensures Accounts(s.eventIds, Run(s, [Stop(id)] + acts))
  {
    var rest := Run(StopEvent(s, id).next, acts);
    assert ([Stop(id)] + acts)[1..] == acts;
    var r := Run(s, [Stop(id)] + acts);
    assert r == Trace(rest.final, rest.dispatched, [id] + rest.cancelled);
    CancelledIdsCons(id, rest.cancelled);
  }

  /** Putting back the one id a step retired restores the partition of the larger id set. */
  lemma PartitionWithOneMore(start: set<EventId>, x: EventId, live: set<EventId>, d: set<EventId>, c: set<EventId>)
    requires x in start && start - {x} == live + d + c
    ensures start == live + ({x} + d) + c
    ensures x !in live && x !in c
  {
    assert start == (start - {x}) + {x};
  }

  lemma AccountsFire(s: State, t: Task, acts: seq<Action>)
    requires IsEarliest(t, s.eventList) && t.eventId in s.eventIds
    requires Legal(Pop(s, t).next, acts)
    requires Accounts(Pop(s, t).next.eventIds, Run(Pop(s, t).next, acts))
    ensures Accounts(s.eventIds, Run(s, [Fire(t)] + acts))
  {
    var h := t.(dontExpire := true);
    var p := Pop(s, t);
    var rest := Run(p.next, acts);
    assert ([Fire(t)] + acts)[1..] == acts;
    var r := Run(s, [Fire(t)] + acts);
    assert r == Trace(rest.final, [h] + rest.dispatched, rest.cancelled);
    DispatchedIdsCons(h, rest.dispatched);
    PartitionWithOneMore(s.eventIds, t.eventId, rest.final.eventIds, DispatchedIds(rest.dispatched), CancelledIds(rest.cancelled));
  }

  /** A failed `stopEvent` leaves the id set and both logs alone. */
  lemma QuietStop(s: State, id: EventId, acts: seq<Action>)
    requires Legal(s, [Stop(id)] + acts)
    requires !StopEvent(s, id).ok
    ensures StopEvent(s, id).next == s
    ensures Legal(s, acts) && Run(s, [Stop(id)] + acts) == Run(s, acts)
  {
    assert ([Stop(id)] + acts)[1..] == acts;
  }

  /** A firing that drops a cancelled task leaves the id set and both logs alone. */
  lemma QuietFire(s: State, t: Task, acts: seq<Action>)
    requires Legal(s, [Fire(t)] + acts)
    requires t.eventId !in s.eventIds
    ensures Pop(s, t).next.eventIds == s.eventIds
    ensures Legal(Pop(s, t).next, acts) && Run(s, [Fire(t)] + acts) == Run(Pop(s, t).next, acts)
  {
    assert ([Fire(t)] + acts)[1..] == acts;
  }

  /** Every id live at the start is, at the end, exactly one of: still live, dispatched, or cancelled. */
  lemma {:induction false} RunAccounts(s: State, acts: seq<Action>)
    requires Legal(s, acts)
    ensures Accounts(s.eventIds, Run(s, acts))
    decreases |acts|
  {
    if acts != [] {
      var a, rest := acts[0], acts[1..];
      assert acts == [a] + rest;
      match a
      case Stop(id) =>
        var st := StopEvent(s, id);
        RunAccounts(st.next, rest);
        if st.ok {
          AccountsStop(s, id, rest);
        } else {
          QuietStop(s, id, rest);
        }
      case Fire(t) =>
        var p := Pop(s, t);
        RunAccounts(p.next, rest);
        if p.handoff.Some? {
          AccountsFire(s, t, rest);
        } else {
          QuietFire(s, t, rest);
        }
    }
  }

  lemma ConsDistinctIds(h: Task, d: seq<Task>)
    requires DistinctIds(d) && h.eventId !in DispatchedIds(d)
    ensures DistinctIds([h] + d)
  {
    var r := [h] + d;
    forall i, j | 0 <= i < j < |r| ensures r[i].eventId != r[j].eventId {
      assert r[j] == d[j - 1];
      if i > 0 {
        assert r[i] == d[i - 1];
      } else {
        assert d[j - 1] in d;
      }
    }
  }

  lemma ConsDistinct(x: EventId, c: seq<EventId>)
    requires Distinct(c) && x !in c
    ensures Distinct([x] + c)
  {
    var r := [x] + c;
    forall i, j | 0 <= i < j < |r| ensures r[i] != r[j] {
      assert r[j] == c[j - 1];
      if i > 0 {
        assert r[i] == c[i - 1];
      }
    }
  }

  /** No id reaches the dispatcher twice. */
  lemma {:induction false} RunDispatchesOnce(s: State, acts: seq<Action>)
    requires Legal(s, acts)
    ensures DistinctIds(Run(s, acts).dispatched)
    decreases |acts|
  {
    if acts != [] {
      match acts[0]
      case Stop(id) =>
        RunDispatchesOnce(StopEvent(s, id).next, acts[1..]);
      case Fire(t) =>
        var p := Pop(s, t);
        RunDispatchesOnce(p.next, acts[1..]);
        if p.handoff.Some? {
          RunAccounts(p.next, acts[1..]);
          ConsDistinctIds(p.handoff.value, Run(p.next, acts[1..]).dispatched);
        }
    }
  }

  /** No id is cancelled twice. */
  lemma {:induction false} RunCancelsOnce(s: State, acts: seq<Action>)
    requires Legal(s, acts)
    ensures Distinct(Run(s, acts).cancelled)
    decreases |acts|
  {
    if acts != [] {
      match acts[0]
      case Stop(id) =>
        var st := StopEvent(s, id);
        RunCancelsOnce(st.next, acts[1..]);
        if st.ok {
          RunAccounts(st.next, acts[1..]);
          var c := Run(st.next, acts[1..]).cancelled;
          assert id !in c by {
            assert id in c ==> id in CancelledIds(c);
          }
          ConsDistinct(id, c);
        }
      case Fire(t) =>
        RunCancelsOnce(Pop(s, t).next, acts[1..]);
    }
  }

  /** No run dispatches a task earlier than a deadline that bounds every task queued at its start. */
  lemma {:induction false} RunAbove(s: State, acts: seq<Action>, floor: int)
    requires Legal(s, acts)
    requires forall u | u in s.eventList :: floor <= u.cycle
    ensures forall k | 0 <= k < |Run(s, acts).dispatched| :: floor <= Run(s, acts).dispatched[k].cycle
    decreases |acts|
  {
    if acts != [] {
      match acts[0]
      case Stop(id) => RunAbove(StopEvent(s, id).next, acts[1..], floor);
      case Fire(t) =>
        var p := Pop(s, t);
        RunAbove(p.next, acts[1..], floor);
    }
  }

  /** Tasks reach the dispatcher in nondecreasing deadline order. */
  lemma {:induction false} RunInDeadlineOrder(s: State, acts: seq<Action>)
    requires Legal(s, acts)
    ensures InDeadlineOrder(Run(s, acts).dispatched)
    decreases |acts|
  {
    if acts != [] {
      match acts[0]
      case Stop(id) => RunInDeadlineOrder(StopEvent(s, id).next, acts[1..]);
      case Fire(t) =>
        var p := Pop(s, t);
        RunInDeadlineOrder(p.next, acts[1..]);
        RunAbove(p.next, acts[1..], t.cycle);
        var rest := Run(p.next, acts[1..]);
        var r := Run(s, acts);
        if p.handoff.Some? {
          assert r.dispatched == [p.handoff.value] + rest.dispatched;
          forall i, j | 0 <= i < j < |r.dispatched| ensures r.dispatched[i].cycle <= r.dispatched[j].cycle {
            if i > 0 {
              assert r.dispatched[i] == rest.dispatched[i - 1];
            }
            assert r.dispatched[j] == rest.dispatched[j - 1];
          }
        }
    }
  }

  /**
   * The cancellation race has exactly one winner: once a run has emptied the queue, every task id
   * that was live at its start was either dispatched once or cancelled once, never both, never neither.
   */
  lemma CancelOrDispatch(s: State, acts: seq<Action>, id: EventId)
    requires Valid(s) && Legal(s, acts)
    requires Run(s, acts).final.eventList == multiset{}
    requires id in s.eventIds
    ensures var r := Run(s, acts);
      (id in DispatchedIds(r.dispatched)) != (id in r.cancelled)
  {
    RunKeepsValid(s, acts);
    RunAccounts(s, acts);
    var r := Run(s, acts);
    assert id in r.cancelled <==> id in CancelledIds(r.cancelled);
  }

  /**
   * A successful cancellation means the task is never dispatched by any later run of cancellations
   * and firings. Runs add no tasks: `ReAddRevivesCancelled` shows what an `addEvent` of the same id does.
   */
  lemma CancelledNeverDispatched(s: State, id: EventId, acts: seq<Action>)
    requires Legal(StopEvent(s, id).next, acts)
    requires StopEvent(s, id).ok
    ensures id !in DispatchedIds(Run(StopEvent(s, id).next, acts).dispatched)
  {
    RunAccounts(StopEvent(s, id).next, acts);
  }

  /**
   * Cancellation is by id only: an `addEvent` that reuses a cancelled id makes it live again, so the
   * cancelled task, if it is earlier, pops first and is dispatched, and the new task is then dropped.
   */
  lemma ReAddRevivesCancelled(s: State, a: Task, b: Task)
    requires Valid(s) && s.threadState == Running
    requires s.eventList == multiset{a} && a.eventId in s.eventIds
    requires b.eventId == a.eventId && a.cycle < b.cycle
    ensures var st := StopEvent(s, a.eventId);
      var ad := AddEvent(st.next, b);
      && st.ok
      && a.eventId !in st.next.eventIds
      && ad.id == a.eventId && a.eventId in ad.next.eventIds
      && IsEarliest(a, ad.next.eventList)
      && Pop(ad.next, a).handoff == Some(a.(dontExpire := true))
      && b in Pop(ad.next, a).next.eventList
      && Pop(Pop(ad.next, a).next, b).handoff == None
  {
    var st := StopEvent(s, a.eventId);
    var ad := AddEvent(st.next, b);
    assert ad.next.eventList == multiset{a, b};
    assert IsEarliest(a, ad.next.eventList);
    assert Pop(ad.next, a).next.eventList == multiset{b};
  }
}
