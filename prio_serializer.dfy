/** The priority serializer of the extensibility demos: an executor that
    runs at most one of its tasks at a time, always choosing next the oldest
    task of the most urgent (lowest-index) non-empty priority queue.

    `concore::spawn` is modelled by appending to `spawned`: the task is
    handed to the base executor, which runs it later and then calls its
    continuation. The continuation call is the method WrappedContinuation. */
module PrioSerializer {

  /** A continuation supplied by the user with a task: none, or a callback
      known by its identity. */
  datatype UserContinuation = NoContinuation | Callback(id: nat)

  /** A task as given to `add_task`: its body (by identity) and its own
      continuation. */
  datatype Task = Task(id: nat, cont: UserContinuation)

  /** A task after `set_continuation`: its continuation first calls the
      user's one (if any), then the serializer's `on_cont`. */
  datatype SerializedTask = SerializedTask(id: nat, inner: UserContinuation)

  /** What a continuation does, in order. */
  datatype Effect = RanCallback(id: nat) | RanOnCont

  /** `set_continuation`. */
  function SetContinuation(t: Task): (r: SerializedTask)
    ensures r.id == t.id && r.inner == t.cont
  {
    SerializedTask(t.id, t.cont)
  }

  /** The calls made by the continuation installed by `set_continuation`. */
  function Effects(t: SerializedTask): seq<Effect>
  {
    match t.inner
    case NoContinuation => [RanOnCont]
    case Callback(id) => [RanCallback(id), RanOnCont]
  }

  /** The wrapped continuation runs the task's own continuation first, then
      `on_cont`, and `on_cont` exactly once. */
  lemma WrappedContinuationOrder(t: Task)
    ensures var e := Effects(SetContinuation(t));
      && e[|e| - 1] == RanOnCont
      && multiset(e)[RanOnCont] == 1
      && (t.cont.Callback? ==> e == [RanCallback(t.cont.id), RanOnCont])
      && (t.cont.NoContinuation? ==> e == [RanOnCont])
  {
  }

  /** The number of tasks in all queues. */
  function Queued(qs: seq<seq<SerializedTask>>): nat
  {
    if qs == [] then 0 else Queued(qs[..|qs| - 1]) + |qs[|qs| - 1]|
  }

  lemma {:induction false} QueuedUpdate(qs: seq<seq<SerializedTask>>, i: nat, q: seq<SerializedTask>)
    requires i < |qs|
    ensures Queued(qs[i := q]) == Queued(qs) - |qs[i]| + |q|
    decreases |qs|
  {
    var n := |qs|;
    if i < n - 1 {
      assert qs[i := q][..n - 1] == qs[..n - 1][i := q];
      QueuedUpdate(qs[..n - 1], i, q);
    } else {
      assert qs[i := q][..n - 1] == qs[..n - 1];
    }
  }

  lemma {:induction false} QueuedZero(qs: seq<seq<SerializedTask>>)
    ensures Queued(qs) == 0 <==> forall j :: 0 <= j < |qs| ==> qs[j] == []
    decreases |qs|
  {
    if qs != [] {
      var n := |qs|;
      QueuedZero(qs[..n - 1]);
      assert forall j :: 0 <= j < n - 1 ==> qs[..n - 1][j] == qs[j];
    }
  }

  /** The queue `start_next_task` pops from: the lowest-index non-empty one. */
  function FirstNonEmpty(qs: seq<seq<SerializedTask>>): (i: nat)
    requires Queued(qs) > 0
    ensures i < |qs| && qs[i] != []
    ensures forall j :: 0 <= j < i ==> qs[j] == []
    decreases |qs|
  {
    QueuedZero(qs);
    if qs[0] != [] then 0
    else
      QueuedZero(qs[1..]);
      assert forall j :: 0 <= j < |qs| - 1 ==> qs[1..][j] == qs[j + 1];
      1 + FirstNonEmpty(qs[1..])
  }

  /** The serializer's state as a value: the queues, `count_`, the tasks
      handed to the base executor, the effects their continuations had, and
      two ghost tallies (tasks added, tasks whose continuation ran). */
  datatype State = State(
    queues: seq<seq<SerializedTask>>,
    count: int,
    spawned: seq<SerializedTask>,
    log: seq<Effect>,
    added: nat,
    finished: nat)

  /** The serializer's invariant: `count_` is the number of queued tasks
      plus one when a task is in flight; a task is in flight exactly when
      `count_` is positive; every task added is queued, in flight or
      finished; and `on_cont` ran once per finished task. */
  ghost predicate Inv(s: State)
  {
    && (s.count == 0 ==> Queued(s.queues) == 0 && |s.spawned| == s.finished)
    && (s.count != 0 ==> s.count == Queued(s.queues) + 1 && |s.spawned| == s.finished + 1)
    && s.added == s.finished + s.count
    && multiset(s.log)[RanOnCont] == s.finished
  }

  /** The number of this serializer's tasks that run at the moment: spawned
      and not yet through their continuation. */
  function InFlight(s: State): int
  {
    |s.spawned| - s.finished
  }

  /** Mutual exclusion: at most one task of the serializer is in flight,
      and one is exactly when `count_` is positive. */
  lemma AtMostOneInFlight(s: State)
    requires Inv(s)
    ensures 0 <= InFlight(s) <= 1
    ensures InFlight(s) == 1 <==> s.count > 0
    ensures s.count >= 0
  {
  }

  function Initial(numPrios: nat): (s: State)
    ensures Inv(s) && |s.queues| == numPrios
  {
    var s := State(seq(numPrios, _ => []), 0, [], [], 0, 0);
    QueuedZero(s.queues);
    s
  }

  /** `start_next_task`: pop the oldest task of the lowest-index non-empty
      queue and spawn it. */
  function StartNext(s: State): (r: State)
    requires Queued(s.queues) > 0
    ensures Queued(r.queues) == Queued(s.queues) - 1
    ensures |r.spawned| == |s.spawned| + 1
    ensures var i := FirstNonEmpty(s.queues);
      r.spawned[|r.spawned| - 1] == s.queues[i][0]
      && r.queues == s.queues[i := s.queues[i][1..]]
    ensures r.count == s.count && r.log == s.log && r.added == s.added && r.finished == s.finished
  {
    var i := FirstNonEmpty(s.queues);
    QueuedUpdate(s.queues, i, s.queues[i][1..]);
    s.(queues := s.queues[i := s.queues[i][1..]], spawned := s.spawned + [s.queues[i][0]])
  }

  /** `add_task(prio, t)`: wrap the continuation, push onto queue `prio`,
      increment `count_`, and start a task if `count_` was 0. */
  function AddTaskStep(s: State, prio: int, t: Task): (r: State)
    requires 0 <= prio < |s.queues|
  {
    var pushed := s.(queues := s.queues[prio := s.queues[prio] + [SetContinuation(t)]],
                     count := s.count + 1, added := s.added + 1);
    QueuedUpdate(s.queues, prio, s.queues[prio] + [SetContinuation(t)]);
    if s.count == 0 then StartNext(pushed) else pushed
  }

  /** `on_cont`: decrement `count_`; start the next task only if it was
      greater than 1. */
  function OnContStep(s: State): (r: State)
    requires s.count > 1 ==> Queued(s.queues) > 0
  {
    var dec := s.(count := s.count - 1);
    if s.count > 1 then StartNext(dec) else dec
  }

  /** The continuation of the task in flight, as installed by
      `set_continuation`: the user's continuation, then `on_cont`. */
  function Complete(s: State): (r: State)
    requires Inv(s) && s.count > 0
  {
    var t := s.spawned[|s.spawned| - 1];
    OnContStep(s.(log := s.log + Effects(t), finished := s.finished + 1))
  }

  /** `add_task` keeps the invariant; it counts the task once, spawns it
      right away exactly when nothing was in flight, and otherwise leaves it
      at the back of its queue. */
  lemma AddTaskPreservesInv(s: State, prio: int, t: Task)
    requires Inv(s) && 0 <= prio < |s.queues|
    ensures var r := AddTaskStep(s, prio, t);
      && Inv(r)
      && r.count == s.count + 1
      && r.added == s.added + 1
      && (s.count == 0 ==> r.spawned == s.spawned + [SetContinuation(t)] && r.queues == s.queues)
      && (s.count != 0 ==>
            r.spawned == s.spawned && r.queues == s.queues[prio := s.queues[prio] + [SetContinuation(t)]])
  {
    QueuedUpdate(s.queues, prio, s.queues[prio] + [SetContinuation(t)]);
    if s.count == 0 {
      QueuedZero(s.queues);
      var pushed := s.queues[prio := s.queues[prio] + [SetContinuation(t)]];
      assert s.queues[prio] == [];
      assert FirstNonEmpty(pushed) == prio;
      assert pushed[prio] == [SetContinuation(t)];
      assert pushed[prio][1..] == [] == s.queues[prio];
      assert pushed[prio := pushed[prio][1..]] == s.queues;
    }
  }

  /** Completing the task in flight keeps the invariant: its continuation's
      effects are logged, `count_` drops by one, and the next task is
      spawned exactly when other tasks were waiting. */
  lemma CompletePreservesInv(s: State)
    requires Inv(s) && s.count > 0
    ensures var r := Complete(s);
      && Inv(r)
      && r.count == s.count - 1
      && r.finished == s.finished + 1
      && r.log == s.log + Effects(s.spawned[|s.spawned| - 1])
      && (s.count > 1 <==> |r.spawned| == |s.spawned| + 1)
      && (s.count == 1 ==> r.spawned == s.spawned && r.queues == s.queues)
  {
    var t := s.spawned[|s.spawned| - 1];
    assert multiset(s.log + Effects(t))[RanOnCont] == multiset(s.log)[RanOnCont] + 1;
  }

  /** The state between the user's continuation and `on_cont`: `Complete`
      is `on_cont` applied to it, and `on_cont` may be called there. */
  lemma CompleteViaOnCont(s: State) returns (mid: State)
    requires Inv(s) && s.count > 0
    ensures mid == s.(log := s.log + Effects(s.spawned[|s.spawned| - 1]), finished := s.finished + 1)
    ensures mid.count > 1 ==> Queued(mid.queues) > 0
    ensures Complete(s) == OnContStep(mid)
    ensures s.spawned != [] && Inv(OnContStep(mid))
  {
    mid := s.(log := s.log + Effects(s.spawned[|s.spawned| - 1]), finished := s.finished + 1);
    CompletePreservesInv(s);
  }

  /** The task spawned next is the oldest one of the most urgent non-empty
      priority: no task of a lower index waits while it starts, and within a
      priority tasks start in the order they were added. */
  lemma NextIsMostUrgentOldest(s: State)
    requires Inv(s) && s.count > 1
    ensures var r := Complete(s);
      var i := FirstNonEmpty(s.queues);
      && r.spawned[|r.spawned| - 1] == s.queues[i][0]
      && (forall j :: 0 <= j < i ==> s.queues[j] == [])
      && r.queues[i] == s.queues[i][1..]
  {
  }

  /** `prio_serializer`. */
  class PrioSerializer {
    const numPrios: nat
    const tasksPerPrio: array<seq<SerializedTask>>
    var count: int
    var spawned: seq<SerializedTask>
    var log: seq<Effect>
    ghost var added: nat
    ghost var finished: nat

    ghost function Abs(): State
      reads this, tasksPerPrio
    {
      State(tasksPerPrio[..], count, spawned, log, added, finished)
    }

    ghost predicate Valid()
      reads this, tasksPerPrio
    {
      tasksPerPrio.Length == numPrios && Inv(Abs())
    }

    /** `prio_serializer(num_prios)`: `num_prios` empty queues. */
    constructor (numPrios: nat)
      ensures Valid() && fresh(tasksPerPrio)
      ensures Abs() == Initial(numPrios)
    {
      this.numPrios := numPrios;
      tasksPerPrio := new seq<SerializedTask>[numPrios](_ => []);
      count := 0;
      spawned := [];
      log := [];
      added := 0;
      finished := 0;
      new;
      assert tasksPerPrio[..] == Initial(numPrios).queues;
    }

    /** `start_next_task`: scan the queues from priority 0 and spawn the
        first task found. The source retries the scan forever when every
        queue is empty; its callers only call it with a task queued. */
    method StartNextTask()
      requires tasksPerPrio.Length == numPrios && Queued(tasksPerPrio[..]) > 0
      modifies tasksPerPrio, this`spawned
      ensures Abs() == StartNext(old(Abs()))
    {
      ghost var qs := tasksPerPrio[..];
      var i := 0;
      while tasksPerPrio[i] == []
        invariant 0 <= i <= FirstNonEmpty(qs)
        decreases numPrios - i
      {
        i := i + 1;
      }
      var toExecute := tasksPerPrio[i][0];
      tasksPerPrio[i] := tasksPerPrio[i][1..];
      spawned := spawned + [toExecute];
    }

    /** `add_task(prio, t)`. The queue index must name one of the
        `num_prios` queues. */
    method AddTask(prio: int, t: Task)
      requires Valid() && 0 <= prio < numPrios
      modifies this, tasksPerPrio
      ensures Valid()
      ensures Abs() == AddTaskStep(old(Abs()), prio, t)
    {
      ghost var s := Abs();
      AddTaskPreservesInv(s, prio, t);
      var wrapped := SetContinuation(t);
      tasksPerPrio[prio] := tasksPerPrio[prio] + [wrapped];
      added := added + 1;
      var oldCount := count;
      count := count + 1;
      QueuedUpdate(s.queues, prio, s.queues[prio] + [wrapped]);
      if oldCount == 0 {
        StartNextTask();
      }
    }

    /** `on_cont`. */
    method OnCont()
      requires tasksPerPrio.Length == numPrios
      requires count > 1 ==> Queued(tasksPerPrio[..]) > 0
      modifies this, tasksPerPrio
      ensures Abs() == OnContStep(old(Abs()))
    {
      var oldCount := count;
      count := count - 1;
      if oldCount > 1 {
        StartNextTask();
      }
    }

    /** The user's continuation of the task in flight, if it has one,
        followed by the call of `on_cont` being logged. */
    method RunTaskContinuation()
      requires spawned != []
      modifies this`log, this`finished
      ensures log == old(log) + Effects(spawned[|spawned| - 1])
      ensures finished == old(finished) + 1
      ensures Abs() == old(Abs()).(log := log, finished := finished)
    {
      var t := spawned[|spawned| - 1];
      match t.inner {
        case Callback(id) => log := log + [RanCallback(id)];
        case NoContinuation =>
      }
      log := log + [RanOnCont];
      finished := finished + 1;
    }

    /** The continuation `set_continuation` installs, run by the base
        executor when the task in flight finishes: the task's own
        continuation, then `on_cont`. */
    method WrappedContinuation()
      requires Valid() && count > 0
      modifies this, tasksPerPrio
      ensures Valid()
      ensures Abs() == Complete(old(Abs()))
    {
      ghost var mid := CompleteViaOnCont(Abs());
      RunTaskContinuation();
      OnCont();
    }
  }

  /** `prio_serializer_executor`: the executor concept over one priority of
      a serializer. */
  class PrioSerializerExecutor {
    const ser: PrioSerializer
    const prio: int

    constructor (ser: PrioSerializer, prio: int)
      ensures this.ser == ser && this.prio == prio
    {
      this.ser := ser;
      this.prio := prio;
    }

    /** `execute(t)`: `add_task` with the executor's fixed priority. */
    method Execute(t: Task)
      requires ser.Valid() && 0 <= prio < ser.numPrios
      modifies ser, ser.tasksPerPrio
      ensures ser.Valid()
      ensures ser.Abs() == AddTaskStep(old(ser.Abs()), prio, t)
    {
      ser.AddTask(prio, t);
    }
  }

  /** The priority the demo gives to task i. */
  function DemoPriority(i: int): int
  {
    (i + 1) % 5
  }

  /** How many of the tasks m..m+n-1 get priority p. */
  function CountInWindow(m: int, n: nat, p: int): nat
  {
    if n == 0 then 0 else CountInWindow(m, n - 1, p) + (if DemoPriority(m + n - 1) == p then 1 else 0)
  }

  /** How many of the tasks 0..n-1 get priority p. */
  function CountWithPriority(n: nat, p: int): nat
  {
    CountInWindow(0, n, p)
  }

  /** A window of a + b tasks is a window of a tasks followed by one of b. */
  lemma {:induction false} WindowSplit(m: int, a: nat, b: nat, p: int)
    ensures CountInWindow(m, a + b, p) == CountInWindow(m, a, p) + CountInWindow(m + a, b, p)
    decreases b
  {
    if b > 0 {
      WindowSplit(m, a, b - 1, p);
    }
  }

  /** Among any 5k consecutive tasks, starting anywhere, each priority is
      used k times. */
  lemma {:induction false} FiveConsecutiveTasks(m: int, k: nat, p: int)
    requires 0 <= p < 5
    ensures CountInWindow(m, 5 * k, p) == k
  {
    if k > 0 {
      FiveConsecutiveTasks(m, k - 1, p);
      WindowSplit(m, 5 * (k - 1), 5, p);
      NextFiveTasks(m + 5 * (k - 1), p);
    }
  }

  /** The priorities of five consecutive tasks go round 0..4 from the
      first one's. */
  lemma PriorityRotation(m: int)
    ensures 0 <= DemoPriority(m) < 5
    ensures DemoPriority(m + 1) == (DemoPriority(m) + 1) % 5
    ensures DemoPriority(m + 2) == (DemoPriority(m) + 2) % 5
    ensures DemoPriority(m + 3) == (DemoPriority(m) + 3) % 5
    ensures DemoPriority(m + 4) == (DemoPriority(m) + 4) % 5
  {
  }

  /** Any five consecutive tasks get the five priorities, one each. */
  lemma NextFiveTasks(m: int, p: int)
    requires 0 <= p < 5
    ensures CountInWindow(m, 5, p) == 1
  {
    PriorityRotation(m);
    var d := DemoPriority(m);
    assert CountInWindow(m, 1, p) == (if d == p then 1 else 0);
    assert CountInWindow(m, 2, p) == CountInWindow(m, 1, p) + (if (d + 1) % 5 == p then 1 else 0);
    assert CountInWindow(m, 3, p) == CountInWindow(m, 2, p) + (if (d + 2) % 5 == p then 1 else 0);
    assert CountInWindow(m, 4, p) == CountInWindow(m, 3, p) + (if (d + 3) % 5 == p then 1 else 0);
    assert CountInWindow(m, 5, p) == CountInWindow(m, 4, p) + (if (d + 4) % 5 == p then 1 else 0);
  }

  /** The demo's 100 tasks fall evenly on the 5 priorities: 20 each. */
  lemma DemoPrioritiesAreEven(p: int)
    requires 0 <= p < 5
    ensures CountWithPriority(100, p) == 20
    ensures DemoPriority(0) == 1 && DemoPriority(99) == 0
  {
    FiveConsecutiveTasks(0, 20, p);
  }
}
