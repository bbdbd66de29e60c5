/** iSCSITaskQueue.cpp: the queue of a connection's tasks and its one-at-a-time start protocol. */
module TaskQueue {
  import opened Hba

  /** The queue together with its history: all tags ever queued, how many have left the queue, the
      positions (in order of arrival) of the tasks whose action was called, and whether the task at
      the head has been started. */
  datatype State = State(
    enabled: bool,
    newTask: bool,
    tasks: seq<u32>,
    queued: seq<u32>,
    removed: nat,
    starts: seq<nat>,
    headStarted: bool)

  const INITIAL: State := State(true, false, [], [], 0, [], false)

  function Queue(s: State, tag: u32): State {
    s.(tasks := s.tasks + [tag], queued := s.queued + [tag], newTask := s.newTask || s.tasks == [])
  }

  function Complete(s: State): State {
    if s.tasks == [] then s
    else
      s.(tasks := s.tasks[1..], removed := s.removed + 1, headStarted := false,
         newTask := s.newTask || |s.tasks| > 1)
  }

  function Check(s: State): State {
    if !s.enabled || !s.newTask then s
    else if s.tasks == [] then s.(newTask := false)
    else s.(newTask := false, headStarted := true, starts := s.starts + [s.removed])
  }

  /** Clearing leaves newTask as it was. */
  function Clear(s: State): State {
    s.(enabled := false, tasks := [], removed := s.removed + |s.tasks|, headStarted := false)
  }

  datatype Event = QueueTask(tag: u32) | CompleteCurrent | CheckForWork | ClearTasks | Enable | Disable

  function Step(s: State, e: Event): State {
    match e
    case QueueTask(tag) => Queue(s, tag)
    case CompleteCurrent => Complete(s)
    case CheckForWork => Check(s)
    case ClearTasks => Clear(s)
    case Enable => s.(enabled := true)
    case Disable => s.(enabled := false)
  }

  function Run(s: State, es: seq<Event>): State
    decreases |es|
  {
    if es == [] then s else Run(Step(s, es[0]), es[1..])
  }

  // ----- the class -----

  class Source {
    var enabled: bool
    var newTask: bool
    var taskQueue: seq<u32>
    ghost var queued: seq<u32>
    ghost var removed: nat
    ghost var starts: seq<nat>
    ghost var headStarted: bool

    ghost function Value(): State
      reads this
    {
      State(enabled, newTask, taskQueue, queued, removed, starts, headStarted)
    }

    constructor ()
      ensures Value() == INITIAL
    {
      enabled, newTask, taskQueue := true, false, [];
      queued, removed, starts, headStarted := [], 0, [], false;
    }

    method SetEnabled(on: bool)
      modifies this
      ensures Value() == Step(old(Value()), if on then Enable else Disable)
    {
      enabled := on;
    }

    method Enqueue(tag: u32)
      modifies this
      ensures Value() == Queue(old(Value()), tag)
    {
      var firstTaskInQueue := taskQueue == [];
      taskQueue := taskQueue + [tag];
      if firstTaskInQueue {
        newTask := true;
      }
      queued := queued + [tag];
    }

    /** completeCurrentTask; the result is zero when the queue was empty. */
    method CompleteCurrentTask() returns (tag: u32)
      modifies this
      ensures Value() == Complete(old(Value()))
      ensures tag == if old(taskQueue) == [] then 0 else old(taskQueue)[0]
    {
      if taskQueue == [] {
        return 0;
      }
      tag := taskQueue[0];
      taskQueue := taskQueue[1..];
      removed, headStarted := removed + 1, false;
      if taskQueue != [] {
        newTask := true;
      }
    }

    /** checkForWork; the result says whether the action was called, and for which tag. */
    method CheckForWork() returns (started: bool, tag: u32)
      modifies this
      ensures Value() == Check(old(Value()))
      ensures started == (old(enabled) && old(newTask) && old(taskQueue) != [])
      ensures started ==> tag == old(taskQueue)[0]
    {
      started, tag := false, 0;
      if !enabled {
        return;
      }
      if !newTask {
        return;
      }
      newTask := false;
      if taskQueue == [] {
        return;
      }
      starts, headStarted := starts + [removed], true;
      return true, taskQueue[0];
    }

    method ClearTasksFromQueue()
      modifies this
      ensures Value() == Clear(old(Value()))
    {
      enabled := false;
      while taskQueue != []
        invariant !enabled && newTask == old(newTask) && starts == old(starts) && queued == old(queued)
        invariant removed + |taskQueue| == old(removed) + |old(taskQueue)|
        decreases |taskQueue|
      {
        taskQueue := taskQueue[1..];
        removed := removed + 1;
      }
      headStarted := false;
    }
  }

  // ----- what every run keeps -----

  ghost predicate Increasing(s: seq<nat>) {
    forall i, j :: 0 <= i < j < |s| ==> s[i] < s[j]
  }

  /** The queue is what arrived and has not left; tasks were started in the order of their arrival,
      each at most once; a started task other than the head has left the queue; and a nonempty queue
      has either a start pending or a started head, never both. */
  ghost predicate Valid(s: State) {
    s.removed <= |s.queued| && s.tasks == s.queued[s.removed..] &&
    Increasing(s.starts) &&
    (forall k :: 0 <= k < |s.starts| ==>
      s.starts[k] < s.removed || (s.headStarted && k == |s.starts| - 1 && s.starts[k] == s.removed)) &&
    (s.headStarted ==> s.tasks != [] && |s.starts| > 0 && s.starts[|s.starts| - 1] == s.removed) &&
    (s.tasks != [] ==> s.newTask != s.headStarted)
  }

  lemma StepKeepsValid(s: State, e: Event)
    requires Valid(s)
    ensures Valid(Step(s, e))
  {
    match e
    case QueueTask(tag) => QueueKeepsValid(s, tag);
    case CompleteCurrent => CompleteKeepsValid(s);
    case _ =>
  }

  lemma QueueKeepsValid(s: State, tag: u32)
    requires Valid(s)
    ensures Valid(Queue(s, tag))
  {
    assert (s.queued + [tag])[s.removed..] == s.tasks + [tag];
  }

  lemma CompleteKeepsValid(s: State)
    requires Valid(s)
    ensures Valid(Complete(s))
  {
    assert s.tasks != [] ==> s.queued[s.removed + 1..] == s.tasks[1..];
  }

  lemma {:induction false} RunKeepsValid(s: State, es: seq<Event>)
    requires Valid(s)
    ensures Valid(Run(s, es))
    decreases |es|
  {
    if es != [] {
      StepKeepsValid(s, es[0]);
      RunKeepsValid(Step(s, es[0]), es[1..]);
    }
  }

  /** In every interleaving: starts are in FIFO order without repetition, at most one started task is
      still in the queue, and it is the head. */
  lemma RunsAreValid(es: seq<Event>)
    ensures Valid(Run(INITIAL, es))
  {
    RunKeepsValid(INITIAL, es);
  }

  /** The tags that a run queues. */
  function TagsOf(es: seq<Event>): seq<u32> {
    if es == [] then [] else (if es[0].QueueTask? then [es[0].tag] else []) + TagsOf(es[1..])
  }

  /** Every task queued in a run has arrived, in order; together with the validity of the run, the queue is
      what has arrived and has not left. */
  lemma {:induction false} AllArrive(s: State, es: seq<Event>)
    ensures Run(s, es).queued == s.queued + TagsOf(es)
    decreases |es|
  {
    if es == [] {
      assert s.queued + TagsOf(es) == s.queued;
    } else {
      var here := if es[0].QueueTask? then [es[0].tag] else [];
      StepArrives(s, es[0]);
      AllArrive(Step(s, es[0]), es[1..]);
      hide Step;
      assert TagsOf(es) == here + TagsOf(es[1..]);
      assert s.queued + here + TagsOf(es[1..]) == s.queued + (here + TagsOf(es[1..]));
    }
  }

  lemma StepArrives(s: State, e: Event)
    ensures Step(s, e).queued == s.queued + if e.QueueTask? then [e.tag] else []
  {
    assert s.queued + [] == s.queued;
  }

  /** Whether the last event that switches the queue on or off leaves it on. */
  function SwitchedOn(on: bool, es: seq<Event>): bool
    decreases |es|
  {
    if es == [] then on
    else SwitchedOn((on || es[0].Enable?) && !es[0].Disable? && !es[0].ClearTasks?, es[1..])
  }

  lemma {:induction false} EnabledByRun(s: State, es: seq<Event>)
    ensures Run(s, es).enabled == SwitchedOn(s.enabled, es)
    decreases |es|
  {
    if es != [] {
      EnabledByRun(Step(s, es[0]), es[1..]);
    }
  }

  /** Until it is enabled again, a disabled queue starts nothing. */
  lemma {:induction false} DisabledStartsNothing(s: State, es: seq<Event>)
    requires !s.enabled && Enable !in es
    ensures Run(s, es).starts == s.starts && !Run(s, es).enabled
    decreases |es|
  {
    if es != [] {
      assert es[0] in es && forall e :: e in es[1..] ==> e in es;
      DisabledStartsNothing(Step(s, es[0]), es[1..]);
    }
  }

  /** Clearing empties the queue for good: until a task is queued, nothing is in it and nothing is
      started, even when the queue is enabled again. */
  lemma {:induction false} ClearedStaysEmpty(s: State, es: seq<Event>)
    requires s.tasks == [] && TagsOf(es) == []
    ensures Run(s, es).tasks == [] && Run(s, es).starts == s.starts
    decreases |es|
  {
    if es != [] {
      ClearedStaysEmpty(Step(s, es[0]), es[1..]);
    }
  }

  lemma ClearEmpties(s: State)
    ensures Clear(s).tasks == [] && !Clear(s).enabled && Clear(s).starts == s.starts && Clear(s).newTask == s.newTask
  {}

  /** Started tasks that have not left the queue. */
  ghost function Outstanding(s: State): set<nat> {
    set k | 0 <= k < |s.starts| && s.starts[k] >= s.removed :: s.starts[k]
  }

  lemma AtMostOneOutstanding(es: seq<Event>)
    ensures
      var s := Run(INITIAL, es);
      Outstanding(s) == if s.headStarted then {s.removed} else {}
  {
    RunsAreValid(es);
    var s := Run(INITIAL, es);
    if s.headStarted {
      assert s.starts[|s.starts| - 1] == s.removed;
    }
  }

  /** No queued head is forgotten: whenever the head has not been started, the next check of the
      enabled queue starts it, and if it has been, no check does anything. */
  lemma HeadIsNotForgotten(es: seq<Event>)
    ensures
      var s := Run(INITIAL, es);
      s.enabled && s.tasks != [] ==>
        Check(s) ==
          if s.headStarted then s
          else s.(newTask := false, headStarted := true, starts := s.starts + [s.removed])
  {
    RunsAreValid(es);
  }

  /** Checking and completing in turn, n times. */
  function Serve(n: nat): seq<Event> {
    if n == 0 then [] else [CheckForWork, CompleteCurrent] + Serve(n - 1)
  }

  function UpFrom(lo: nat, n: nat): seq<nat>
    decreases n
  {
    if n == 0 then [] else [lo] + UpFrom(lo + 1, n - 1)
  }

  lemma ServeOnce(s: State)
    requires Valid(s) && s.enabled && s.tasks != []
    ensures
      var next := Complete(Check(s));
      Valid(next) && next.enabled && !next.headStarted && next.tasks == s.tasks[1..] && next.removed == s.removed + 1 &&
      next.starts == s.starts + if s.headStarted then [] else [s.removed]
  {
    StepKeepsValid(s, CheckForWork);
    StepKeepsValid(Check(s), CompleteCurrent);
  }

  lemma RunServe(s: State, n: nat)
    requires n > 0
    ensures Run(s, Serve(n)) == Run(Complete(Check(s)), Serve(n - 1))
  {
    hide Check, Complete;
    var es := Serve(n);
    assert es[1..][1..] == Serve(n - 1);
    assert Run(s, es) == Run(Step(s, CheckForWork), es[1..]);
    assert Run(Step(s, CheckForWork), es[1..]) == Run(Step(Step(s, CheckForWork), CompleteCurrent), es[1..][1..]);
  }

  /** The queued tasks that have not been started, by order of arrival. */
  function Pending(s: State): seq<nat> {
    if s.headStarted && s.tasks != [] then UpFrom(s.removed + 1, |s.tasks| - 1) else UpFrom(s.removed, |s.tasks|)
  }

  lemma PendingStep(s: State, next: State)
    requires s.tasks != [] && next.tasks == s.tasks[1..] && next.removed == s.removed + 1 && !next.headStarted
    ensures Pending(s) == (if s.headStarted then [] else [s.removed]) + Pending(next)
  {}

  lemma RunNothing(s: State)
    ensures Run(s, Serve(0)) == s && (s.tasks == [] ==> Pending(s) == [])
  {}

  /** Serving an enabled queue as often as it has tasks empties it, and starts exactly the tasks that
      were not started yet, in order of arrival. */
  lemma {:induction false} ServingStartsAll(s: State)
    requires Valid(s) && s.enabled
    ensures Run(s, Serve(|s.tasks|)).tasks == []
    ensures Run(s, Serve(|s.tasks|)).starts == s.starts + Pending(s)
    decreases |s.tasks|
  {
    hide Valid, Check, Complete, Run, Serve, Pending;
    if s.tasks == [] {
      RunNothing(s);
    } else {
      var next := Complete(Check(s));
      ServeOnce(s);
      RunServe(s, |s.tasks|);
      ServingStartsAll(next);
      PendingStep(s, next);
    }
  }
}
