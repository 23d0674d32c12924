/**
 * The `Scheduler` object of src/game/scheduling/scheduler.cpp with its mutable state, one method
 * per operation. The lock, the condition variable and the dedicated thread are gone: each method
 * runs as the atomic block it is under `eventLock`, and one pass of the waiting loop is `Step(now)`.
 * Each method is proved to move the object's state exactly as the matching function of
 * SchedulerModel moves a `State`.
 */
module Scheduling {
  import opened Common
  import opened SchedulerModel

  /** What one pass of the waiting loop did: nothing, or pop the top task and maybe hand it off. */
  datatype StepOutcome = Idle | Fired(popped: Task, handoff: Option<Task>)

  class Scheduler {
    var eventList: multiset<Task>
    var eventIds: set<EventId>
    var lastEventId: EventId
    var threadState: ThreadState
    /** Every task handed to `g_dispatcher().addTask`, in order. */
    ghost var dispatched: seq<Task>

    function Model(): State
      reads this
    {
      State(eventList, eventIds, lastEventId, threadState)
    }

    ghost predicate Valid()
      reads this
    {
      SchedulerModel.Valid(Model())
    }

    /** A started scheduler (`start()` of the thread holder, which is not part of this model). */
    constructor ()
      ensures Valid() && Model() == Initial && dispatched == []
    {
      eventList := multiset{};
      eventIds := {};
      lastEventId := 0;
      threadState := Running;
      dispatched := [];
    }

    method AddEvent(task: Task) returns (id: EventId, signal: bool)
      requires Valid()
      modifies this
      ensures Valid()
      ensures Added(Model(), id, signal) == SchedulerModel.AddEvent(old(Model()), task)
      ensures dispatched == old(dispatched)
    {
      if threadState != Running {
        // the task is deleted
        return 0, false;
      }
      ghost var expected := SchedulerModel.AddEvent(Model(), task);
      var t := task;
      if t.eventId == 0 {
        lastEventId := Inc32(lastEventId);
        if lastEventId == 0 {
          lastEventId := 1;
        }
        t := t.(eventId := lastEventId);
      }
      assert t == task.(eventId := expected.id) && lastEventId == expected.next.lastEventId;
      eventIds := eventIds + {t.eventId};
      var before := eventList;
      eventList := eventList + multiset{t};
      signal := PushedToTop(t, before);
      id := t.eventId;
      assert Model() == expected.next;
    }

    method StopEvent(id: EventId) returns (ok: bool)
      requires Valid()
      modifies this
      ensures Valid()
      ensures Stopped(Model(), ok) == SchedulerModel.StopEvent(old(Model()), id)
      ensures dispatched == old(dispatched)
    {
      if id == 0 {
        return false;
      }
      if id !in eventIds {
        return false;
      }
      eventIds := eventIds - {id};
      return true;
    }

    /**
     * One pass of `threadMain` at time `now`: if the earliest deadline has passed, pop that task and
     * either drop it (its id was cancelled) or retire its id and hand it to the dispatcher.
     */
    method Step(now: int) returns (r: StepOutcome)
      requires Valid()
      modifies this
      ensures Valid()
      ensures !Due(old(Model()), now) ==> r == Idle && Model() == old(Model()) && dispatched == old(dispatched)
      ensures Due(old(Model()), now) ==>
        && r.Fired?
        && IsEarliest(r.popped, old(eventList)) && r.popped.cycle <= now
        && Popped(Model(), r.handoff) == Pop(old(Model()), r.popped)
        && dispatched == old(dispatched) + (if r.handoff.Some? then [r.handoff.value] else [])
    {
      if threadState == Terminated || eventList == multiset{} {
        return Idle;
      }
      EarliestExists(eventList);
      var task :| IsEarliest(task, eventList);
      if task.cycle > now {
        // the wait did not time out
        return Idle;
      }
      eventList := eventList - multiset{task};
      if task.eventId !in eventIds {
        // the event was stopped: delete the task
        return Fired(task, None);
      }
      eventIds := eventIds - {task.eventId};
      var handed := task.(dontExpire := true);
      dispatched := dispatched + [handed];
      r := Fired(task, Some(handed));
    }

    /** `shutdown`: terminate, then pop and delete every queued task and clear the id set. */
    method Shutdown() returns (ghost deleted: seq<Task>)
      requires Valid()
      modifies this
      ensures Valid()
      ensures Model() == SchedulerModel.Shutdown(old(Model()))
      ensures multiset(deleted) == old(eventList)
      ensures dispatched == old(dispatched)
    {
      threadState := Terminated;
      deleted := [];
      while eventList != multiset{}
        invariant multiset(deleted) + eventList == old(eventList)
        invariant eventIds == old(eventIds) && lastEventId == old(lastEventId) && threadState == Terminated
        invariant dispatched == old(dispatched)
        decreases |eventList|
      {
        var top :| top in eventList;
        eventList := eventList - multiset{top};
        deleted := deleted + [top];
      }
      eventIds := {};
    }
  }

  /**
   * Scenario: a task cancelled before its deadline is dropped, not dispatched, when its deadline
   * passes, and cancelling it a second time fails.
   */
  method CancelBeforeDeadline(s: Scheduler, body: nat)
    requires s.Valid() && s.threadState == Running && s.eventList == multiset{}
    modifies s
  {
    var id, _ := s.AddEvent(Task(0, 100, false, body));
    var ok := s.StopEvent(id);
    assert ok;
    var r := s.Step(100);
    assert r == Fired(Task(id, 100, false, body), None);
    ok := s.StopEvent(id);
    assert !ok;
  }

  /** Scenario: once a task has been dispatched, cancelling it fails and changes nothing. */
  method StopAfterDispatch(s: Scheduler, body: nat)
    requires s.Valid() && s.threadState == Running && s.eventList == multiset{}
    modifies s
  {
    var id, _ := s.AddEvent(Task(0, 100, false, body));
    var r := s.Step(100);
    assert r == Fired(Task(id, 100, false, body), Some(Task(id, 100, true, body)));
    assert s.dispatched[|s.dispatched| - 1] == Task(id, 100, true, body);
    var ok := s.StopEvent(id);
    assert !ok && s.eventList == multiset{};
  }

  /** Scenario: of two tasks, the one with the earlier deadline reaches the dispatcher first. */
  method EarlierDeadlineFirst(s: Scheduler)
    requires s.Valid() && s.threadState == Running && s.eventList == multiset{}
    modifies s
  {
    var x, _ := s.AddEvent(Task(0, 50, false, 1));
    var y, signalled := s.AddEvent(Task(0, 10, false, 2));
    assert signalled;
    var r := s.Step(60);
    assert r.Fired? && r.popped.cycle == 10;
    r := s.Step(60);
    assert r.Fired? && r.popped.cycle == 50;
  }

  /** Scenario: after shutdown, adding a task returns 0 and leaves nothing queued. */
  method AddAfterShutdown(s: Scheduler)
    requires s.Valid()
    modifies s
  {
    var _ := s.Shutdown();
    var id, _ := s.AddEvent(Task(0, 1, false, 0));
    assert id == 0 && s.eventList == multiset{} && s.eventIds == {};
  }
}
