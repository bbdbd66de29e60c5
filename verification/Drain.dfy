/** Task tags, and the loop of DeactivateConnection that fails every queued task of a connection
    while completing tasks may itself queue latency measurements. */
module Drain {
  import opened Words
  import opened Hba
  import TaskQueue

  // ----- initiator task tags -----

  const SCSI_TASK: byte := 0
  const LATENCY: byte := 1

  /** Bitwise or. */
  function Or(a: nat, b: nat): nat
    decreases a + b
  {
    if a == 0 then b
    else if b == 0 then a
    else (if a % 2 == 1 || b % 2 == 1 then 1 else 0) + 2 * Or(a / 2, b / 2)
  }

  lemma {:induction false} OrDisjoint(a: nat, b: nat, k: nat)
    requires a < Pow2(k)
    ensures Or(a, Pow2(k) * b) == a + Pow2(k) * b
    decreases k
  {
    if k > 0 && a > 0 && b > 0 {
      var h := Pow2(k - 1) * b;
      Pow2Step(k);
      DoubledProduct(Pow2(k - 1), b);
      Halves(a, h);
      OrDisjoint(a / 2, b, k - 1);
      OrStep(a, 2 * h);
    }
  }

  lemma Halves(a: nat, h: nat)
    ensures 2 * h % 2 == 0 && 2 * h / 2 == h && a == a % 2 + 2 * (a / 2)
  {}

  lemma OrStep(a: nat, b: nat)
    requires a > 0 && b > 0
    ensures Or(a, b) == (if a % 2 == 1 || b % 2 == 1 then 1 else 0) + 2 * Or(a / 2, b / 2)
  {}

  lemma {:induction false} OrZero(a: nat, b: nat)
    ensures Or(a, b) == 0 <==> a == 0 && b == 0
    decreases a + b
  {
    if a > 0 && b > 0 {
      OrZero(a / 2, b / 2);
    }
  }

  lemma {:induction false} OrBelow(a: nat, b: nat, k: nat)
    requires a < Pow2(k) && b < Pow2(k)
    ensures Or(a, b) < Pow2(k)
    decreases k
  {
    if a > 0 && b > 0 {
      Pow2Step(k);
      OrBelow(a / 2, b / 2, k - 1);
      OrStep(a, b);
    }
  }

  /** Bit by bit. */
  lemma {:induction false} OrIsBitwise(a: nat, b: nat, k: nat)
    ensures forall i :: 0 <= i < k ==> Bits(Or(a, b), k)[i] == (Bits(a, k)[i] || Bits(b, k)[i])
    decreases k
  {
    if k > 0 {
      OrHalves(a, b);
      OrIsBitwise(a / 2, b / 2, k - 1);
    }
  }

  lemma OrHalves(a: nat, b: nat)
    ensures Or(a, b) / 2 == Or(a / 2, b / 2)
    ensures Or(a, b) % 2 == 1 <==> a % 2 == 1 || b % 2 == 1
  {}

  /** BuildInitiatorTaskTag: identifier and LUN are cast to 32 bits and or-ed together with the type,
      even where they overlap. */
  function BuildTag(taskType: byte, LUN: u64, taskId: u64): (tag: u32) {
    Pow2Values();
    OrBelow(LUN % 0x1_0000 * 0x1_0000, taskType * 0x100_0000, 32);
    OrBelow(taskId % 0x1_0000_0000, Or(LUN % 0x1_0000 * 0x1_0000, taskType * 0x100_0000), 32);
    Or(taskId % 0x1_0000_0000, Or(LUN % 0x1_0000 * 0x1_0000, taskType * 0x100_0000))
  }

  function TagType(tag: u32): byte {
    tag / 0x100_0000 % 0x100
  }

  function TagLUN(tag: u32): byte {
    tag / 0x1_0000 % 0x100
  }

  function TagTaskId(tag: u32): nat {
    tag % 0x1_0000
  }

  lemma SmallPowers()
    ensures Pow2(16) == 0x1_0000 && Pow2(24) == 0x100_0000
  {
    Pow2Values();
    Pow2Add(8, 8);
    Pow2Add(16, 8);
  }

  lemma TagOfSmallParts(taskType: byte, LUN: u64, taskId: u64)
    requires LUN < 0x100 && taskId < 0x1_0000
    ensures BuildTag(taskType, LUN, taskId) == taskId + 0x1_0000 * (LUN + 0x100 * taskType)
  {
    hide Or, Pow2;
    SmallPowers();
    OrDisjoint(LUN * 0x1_0000, taskType, 24);
    OrDisjoint(taskId, LUN + 0x100 * taskType, 16);
  }

  lemma PartsOfSum(low: nat, high: nat)
    requires low < 0x1_0000
    ensures (low + 0x1_0000 * high) % 0x1_0000 == low && (low + 0x1_0000 * high) / 0x1_0000 == high
  {}

  lemma UpperParts(taskType: byte, LUN: nat)
    requires LUN < 0x100
    ensures (LUN + 0x100 * taskType) % 0x100 == LUN && (LUN + 0x100 * taskType) / 0x100 == taskType
  {}

  lemma ShiftTwice(tag: u32)
    ensures tag / 0x100_0000 == tag / 0x1_0000 / 0x100
  {}

  /** A tag gives back what it was built from exactly when the LUN has 8 bits and the identifier 16; it
      is zero exactly when the 16 lowest bits of the LUN and the 32 lowest of the identifier are. */
  lemma TagParts(taskType: byte, LUN: u64, taskId: u64)
    ensures
      var tag := BuildTag(taskType, LUN, taskId);
      TagType(tag) == taskType && TagLUN(tag) == LUN && TagTaskId(tag) == taskId <==>
      LUN < 0x100 && taskId < 0x1_0000
    ensures
      BuildTag(taskType, LUN, taskId) == 0 <==>
      taskType == SCSI_TASK && LUN % 0x1_0000 == 0 && taskId % 0x1_0000_0000 == 0
  {
    hide Or;
    OrZero(LUN % 0x1_0000 * 0x1_0000, taskType * 0x100_0000);
    OrZero(taskId % 0x1_0000_0000, Or(LUN % 0x1_0000 * 0x1_0000, taskType * 0x100_0000));
    if LUN < 0x100 && taskId < 0x1_0000 {
      var tag := BuildTag(taskType, LUN, taskId);
      TagOfSmallParts(taskType, LUN, taskId);
      hide BuildTag;
      PartsOfSum(taskId, LUN + 0x100 * taskType);
      UpperParts(taskType, LUN);
      ShiftTwice(tag);
    }
  }

  const LATENCY_TAG: u32 := 0x100_0000

  lemma LatencyTag()
    ensures BuildTag(LATENCY, 0, 0) == LATENCY_TAG == 0x100_0000
  {}

  // ----- the drain as a function -----

  /** The speed history has this many entries; each time it wraps, the latency is measured. */
  const WINDOW: nat := 30

  /** The queue, the tasks the driver stack still has outstanding with whether they transfer data,
      the position in the speed history, and the tags failed so far. */
  datatype Board = Board(queue: seq<u32>, tasks: map<u32, bool>, history: nat, failed: seq<u32>)

  /** CompleteParallelTask: the stack forgets the task; a transfer advances the history, and when the
      history wraps a latency task joins the queue. */
  function Finish(b: Board, tag: u32): Board
    requires tag in b.tasks
  {
    var wraps := b.tasks[tag] && b.history + 1 == WINDOW;
    Board(
      if wraps then b.queue + [LATENCY_TAG] else b.queue,
      b.tasks - {tag},
      if !b.tasks[tag] then b.history else if wraps then 0 else b.history + 1,
      b.failed + [tag])
  }

  /** The tags in turn; those that are not outstanding are passed over. */
  function FinishAll(b: Board, ts: seq<u32>): Board
    decreases |ts|
  {
    if ts == [] then b else FinishAll(if ts[0] in b.tasks then Finish(b, ts[0]) else b, ts[1..])
  }

  /** How many of the tags complete a transfer. */
  function Transfers(tasks: map<u32, bool>, ts: seq<u32>): nat
    decreases |ts|
  {
    if ts == [] then 0
    else (if ts[0] in tasks && tasks[ts[0]] then 1 else 0) + Transfers(tasks - {ts[0]}, ts[1..])
  }

  function LatencyTags(n: nat): seq<u32> {
    seq(n, _ => 0x100_0000)
  }

  /** Every thirtieth transfer, and nothing else, queues a latency measurement. */
  lemma {:induction false} LatencyEveryThirtieth(b: Board, ts: seq<u32>)
    requires b.history < 30
    ensures
      var r, n := FinishAll(b, ts), b.history + Transfers(b.tasks, ts);
      r.history == n % 30 && r.queue == b.queue + LatencyTags(n / 30)
    decreases |ts|
  {
    if ts == [] {
      assert LatencyTags(0) == [];
    } else {
      var next := if ts[0] in b.tasks then Finish(b, ts[0]) else b;
      if ts[0] !in b.tasks {
        assert b.tasks - {ts[0]} == b.tasks;
      }
      LatencyEveryThirtieth(next, ts[1..]);
      var k := Transfers(next.tasks, ts[1..]);
      if next.queue != b.queue {
        assert b.history + 1 + k == 30 + k;
        LatencyTagsMore(k / 30);
        assert b.queue + ([0x100_0000] + LatencyTags(k / 30)) == b.queue + [0x100_0000] + LatencyTags(k / 30);
      }
    }
  }

  lemma LatencyTagsMore(n: nat)
    ensures LatencyTags(n + 1) == [0x100_0000] + LatencyTags(n)
  {}

  /** What is finished leaves the outstanding tasks and joins the failed ones. */
  lemma FinishEffect(b: Board, tag: u32)
    requires tag in b.tasks
    ensures Finish(b, tag).tasks == b.tasks - {tag} && Finish(b, tag).failed == b.failed + [tag]
  {}

  /** The loop of DeactivateConnection, which stops at a tag of zero. */
  function DrainAll(b: Board): Board
    decreases |b.tasks|, |b.queue|
  {
    if b.queue == [] then b
    else
      var rest := b.(queue := b.queue[1..]);
      if b.queue[0] == 0 then rest
      else if b.queue[0] in b.tasks then
        assert (b.tasks - {b.queue[0]}).Keys == b.tasks.Keys - {b.queue[0]};
        DrainAll(Finish(rest, b.queue[0]))
      else DrainAll(rest)
  }

  function WithHead(b: Board, tag: u32): Board {
    b.(queue := [tag] + b.queue)
  }

  /** Taking the next tag off the queue: zero when it is empty. */
  function Head(b: Board): u32 {
    if b.queue == [] then 0 else b.queue[0]
  }

  function Behind(b: Board): Board {
    if b.queue == [] then b else b.(queue := b.queue[1..])
  }

  lemma TakeHead(b: Board)
    ensures DrainAll(b) == if Head(b) == 0 then Behind(b) else DrainAll(WithHead(Behind(b), Head(b)))
  {
    if Head(b) != 0 {
      assert WithHead(Behind(b), Head(b)) == b;
    }
  }

  /** One round of the loop, for a tag that has been taken off the queue. */
  lemma Round(b: Board, tag: u32)
    requires tag != 0
    ensures DrainAll(WithHead(b, tag)) == if tag in b.tasks then DrainAll(Finish(b, tag)) else DrainAll(b)
  {
    assert WithHead(b, tag).queue[1..] == b.queue;
  }

  lemma FewerTasks(b: Board, tag: u32)
    requires tag in b.tasks
    ensures |Finish(b, tag).tasks| < |b.tasks|
  {
    assert (b.tasks - {tag}).Keys == b.tasks.Keys - {tag};
  }

  /** The outstanding tasks in a queue, each once, in FIFO order. */
  function Known(q: seq<u32>, tasks: set<u32>): seq<u32> {
    if q == [] then []
    else if q[0] in tasks then [q[0]] + Known(q[1..], tasks - {q[0]})
    else Known(q[1..], tasks)
  }

  function UpToZero(q: seq<u32>): seq<u32> {
    if q == [] || q[0] == 0 then [] else [q[0]] + UpToZero(q[1..])
  }

  /** Only the driver's own latency tasks have the latency tag. */
  ghost predicate Proper(b: Board) {
    LATENCY_TAG !in b.tasks && b.history < WINDOW
  }

  lemma {:induction false} KnownIgnores(q: seq<u32>, x: u32, tasks: set<u32>)
    requires x !in tasks
    ensures Known(q + [x], tasks) == Known(q, tasks)
    decreases |q|
  {
    if q == [] {
      assert q + [x] == [x];
      assert Known([x], tasks) == Known([x][1..], tasks);
    } else {
      assert (q + [x])[1..] == q[1..] + [x];
      KnownIgnores(q[1..], x, if q[0] in tasks then tasks - {q[0]} else tasks);
    }
  }

  lemma {:induction false} UpToZeroAppend(q: seq<u32>, x: u32)
    requires x != 0
    ensures UpToZero(q + [x]) == if 0 in q then UpToZero(q) else UpToZero(q) + [x]
    decreases |q|
  {
    if q == [] {
      assert q + [x] == [x];
      assert UpToZero([x]) == [x] + UpToZero([x][1..]);
    } else {
      assert (q + [x])[1..] == q[1..] + [x];
      UpToZeroAppend(q[1..], x);
      assert 0 in q <==> q[0] == 0 || 0 in q[1..];
    }
  }

  /** r is b after everything outstanding before the first zero has been failed. */
  ghost predicate Drained(b: Board, r: Board) {
    var ts := Known(UpToZero(b.queue), b.tasks.Keys);
    r.failed == b.failed + ts &&
    (0 !in b.queue ==> r.queue == []) &&
    r.tasks == b.tasks - (set t | t in ts) &&
    Proper(r)
  }

  lemma DrainedAfterFound(b: Board, r: Board)
    requires Proper(b) && b.queue != [] && b.queue[0] != 0 && b.queue[0] in b.tasks
    requires Drained(Finish(b.(queue := b.queue[1..]), b.queue[0]), r)
    ensures Drained(b, r)
  {
    hide Known, UpToZero;
    var t, q := b.queue[0], b.queue[1..];
    var next := Finish(b.(queue := q), t);
    assert next.tasks.Keys == b.tasks.Keys - {t};
    var ts := Known(UpToZero(q), next.tasks.Keys);
    KnownAfterFinish(next.queue, q, next.tasks.Keys);
    KnownStep(t, q, b.tasks.Keys);
    assert b.queue == [t] + q;
    FailedSet(t, ts, b.tasks);
    assert b.failed + ([t] + ts) == next.failed + ts;
  }

  lemma KnownAfterFinish(next: seq<u32>, q: seq<u32>, tasks: set<u32>)
    requires next == q || next == q + [LATENCY_TAG]
    requires LATENCY_TAG !in tasks
    ensures Known(UpToZero(next), tasks) == Known(UpToZero(q), tasks)
    ensures 0 in next <==> 0 in q
  {
    UpToZeroAppend(q, LATENCY_TAG);
    KnownIgnores(UpToZero(q), LATENCY_TAG, tasks);
  }

  lemma KnownStep(t: u32, q: seq<u32>, tasks: set<u32>)
    requires t != 0 && t in tasks
    ensures Known(UpToZero([t] + q), tasks) == [t] + Known(UpToZero(q), tasks - {t})
    ensures 0 in [t] + q <==> 0 in q
  {
    assert ([t] + q)[1..] == q;
    assert UpToZero([t] + q)[1..] == UpToZero(q);
  }

  lemma DrainedAfterUnknown(b: Board, r: Board)
    requires b.queue != [] && b.queue[0] != 0 && b.queue[0] !in b.tasks
    requires Drained(b.(queue := b.queue[1..]), r)
    ensures Drained(b, r)
  {
    assert UpToZero(b.queue)[1..] == UpToZero(b.queue[1..]);
    assert 0 in b.queue <==> 0 in b.queue[1..];
  }

  /** What the drain fails is exactly what is outstanding among the tags before the first zero, each
      task once and in FIFO order; the queue ends empty if it held no zero; and no task that was not
      failed is forgotten. */
  lemma {:induction false} DrainFails(b: Board)
    requires Proper(b)
    ensures Drained(b, DrainAll(b))
    decreases |b.tasks|, |b.queue|
  {
    if b.queue == [] || b.queue[0] == 0 {
      assert Known([], b.tasks.Keys) == [];
      assert b.tasks - (set t | t in []) == b.tasks;
    } else {
      var rest := b.(queue := b.queue[1..]);
      if b.queue[0] in b.tasks {
        assert (b.tasks - {b.queue[0]}).Keys == b.tasks.Keys - {b.queue[0]};
        DrainFails(Finish(rest, b.queue[0]));
        DrainedAfterFound(b, DrainAll(b));
      } else {
        DrainFails(rest);
        DrainedAfterUnknown(b, DrainAll(b));
      }
    }
  }

  lemma FailedSet(t: u32, ts: seq<u32>, tasks: map<u32, bool>)
    ensures tasks - {t} - (set x | x in ts) == tasks - (set x | x in [t] + ts)
  {
    assert (set x | x in [t] + ts) == {t} + (set x | x in ts);
  }

  lemma {:induction false} UpToZeroWhole(q: seq<u32>)
    requires 0 !in q
    ensures UpToZero(q) == q
    decreases |q|
  {
    if q != [] {
      UpToZeroWhole(q[1..]);
    }
  }

  lemma {:induction false} KnownMembers(q: seq<u32>, tasks: set<u32>, t: u32)
    ensures t in Known(q, tasks) <==> t in q && t in tasks
    decreases |q|
  {
    if q != [] {
      KnownMembers(q[1..], if q[0] in tasks then tasks - {q[0]} else tasks, t);
    }
  }

  lemma {:induction false} NoZeroBefore(q: seq<u32>)
    ensures 0 !in UpToZero(q)
    decreases |q|
  {
    if q != [] && q[0] != 0 {
      NoZeroBefore(q[1..]);
    }
  }

  ghost predicate Distinct(q: seq<u32>) {
    forall i, j :: 0 <= i < j < |q| ==> q[i] != q[j]
  }

  /** No task twice. */
  lemma {:induction false} KnownOnce(q: seq<u32>, tasks: set<u32>)
    ensures Distinct(Known(q, tasks))
    decreases |q|
  {
    if q != [] {
      var left := if q[0] in tasks then tasks - {q[0]} else tasks;
      KnownOnce(q[1..], left);
      KnownMembers(q[1..], left, q[0]);
    }
  }

  /** Of tasks that are queued once, all in the order of the queue. */
  lemma {:induction false} KnownWhole(q: seq<u32>, tasks: set<u32>)
    requires Distinct(q) && forall t :: t in q ==> t in tasks
    ensures Known(q, tasks) == q
    decreases |q|
  {
    if q != [] {
      assert q[0] in q && forall i :: 0 < i < |q| ==> q[i] in q;
      assert forall t :: t in q[1..] ==> t in tasks - {q[0]};
      KnownWhole(q[1..], tasks - {q[0]});
      assert Known(q, tasks) == [q[0]] + Known(q[1..], tasks - {q[0]});
    }
  }

  /** The tags before the first zero. */
  lemma {:induction false} UpToZeroMeans(q: seq<u32>)
    ensures UpToZero(q) <= q && 0 !in UpToZero(q)
    ensures |UpToZero(q)| < |q| ==> q[|UpToZero(q)|] == 0
    decreases |q|
  {
    if q != [] && q[0] != 0 {
      UpToZeroMeans(q[1..]);
    }
  }

  /** When every queued tag is an outstanding task or a latency task, the drain fails all queued tasks
      exactly when none of them has tag zero. */
  lemma DrainCompleteIff(b: Board)
    requires Proper(b)
    requires forall t :: t in b.queue ==> t in b.tasks || t == LATENCY_TAG
    ensures DrainAll(b).failed == b.failed + Known(b.queue, b.tasks.Keys) <==> 0 !in b.queue
    ensures 0 !in b.queue ==> DrainAll(b).queue == []
  {
    DrainFails(b);
    if 0 in b.queue {
      KnownMembers(b.queue, b.tasks.Keys, 0);
      KnownMembers(UpToZero(b.queue), b.tasks.Keys, 0);
      NoZeroBefore(b.queue);
      if DrainAll(b).failed == b.failed + Known(b.queue, b.tasks.Keys) {
        SameTail(b.failed, Known(UpToZero(b.queue), b.tasks.Keys), Known(b.queue, b.tasks.Keys));
      }
    } else {
      UpToZeroWhole(b.queue);
    }
  }

  lemma SameTail(a: seq<u32>, x: seq<u32>, y: seq<u32>)
    requires a + x == a + y
    ensures x == y
  {
    assert x == (a + x)[|a|..] && y == (a + y)[|a|..];
  }

  /** An untagged task on LUN 0 at the head of the queue: nothing is failed, and the task behind it
      stays queued. */
  lemma ZeroTagStopsDrain()
    ensures DrainAll(Board([0, 7], map[0 := true, 7 := true], 0, [])) == Board([7], map[0 := true, 7 := true], 0, [])
  {}

  // ----- the method -----

  class Controller {
    const queue: TaskQueue.Source
    var tasks: map<u32, bool>
    var history: nat
    var failed: seq<u32>

    ghost function Value(): Board
      reads this, queue
    {
      Board(queue.taskQueue, tasks, history, failed)
    }

    constructor (queue: TaskQueue.Source, tasks: map<u32, bool>)
      ensures this.queue == queue && this.tasks == tasks && history == 0 && failed == []
    {
      this.queue, this.tasks := queue, tasks;
      history, failed := 0, [];
    }

    /** CompleteParallelTask of the driver, with the stack's own bookkeeping. */
    method CompleteParallelTask(tag: u32)
      requires tag in tasks
      modifies this, queue
      ensures Value() == Finish(old(Value()), tag) && queue.enabled == old(queue.enabled)
    {
      if tasks[tag] {
        history := history + 1;
        if history == WINDOW {
          history := 0;
          LatencyTag();
          queue.Enqueue(BuildTag(LATENCY, 0, 0));
        }
      }
      tasks := tasks - {tag};
      failed := failed + [tag];
    }

    /** The drain of DeactivateConnection: terminates although completing a task may queue another. */
    method FailQueuedTasks()
      modifies this, queue
      ensures Value() == DrainAll(old(Value()))
      ensures !queue.enabled
    {
      hide DrainAll, Finish, WithHead;
      queue.SetEnabled(false);
      ghost var before := Value();
      TakeHead(before);
      var tag := queue.CompleteCurrentTask();
      while tag != 0
        invariant !queue.enabled
        invariant DrainAll(before) == if tag == 0 then Value() else DrainAll(WithHead(Value(), tag))
        decreases |tasks|, |queue.taskQueue| + (if tag != 0 then 1 else 0)
      {
        Round(Value(), tag);
        if tag in tasks {
          FewerTasks(Value(), tag);
          CompleteParallelTask(tag);
        }
        TakeHead(Value());
        tag := queue.CompleteCurrentTask();
      }
    }
  }
}
