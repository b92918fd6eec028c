/** The continuation-chain demo: an `async_result` holds a shared value slot
    and a list of work items; `then` appends an item that reads the current
    slot and writes a fresh one, and `start` folds the items, last to first,
    into one task that runs them in insertion order, spawning the rest of
    the chain after each item returns.

    The shared slots (`std::shared_ptr`) are cells of a store, numbered in
    allocation order: allocating a slot appends to the store. A work item's
    function may return a value or throw. The C++ chain changes value types
    from link to link (int, double, bool); here a slot holds a `Value` of one
    of those kinds. */
module ContinuationChain {

  datatype Value = IntValue(i: int) | RealValue(r: real) | BoolValue(b: bool)

  /** What calling a work item's function does: return a value, or throw. */
  datatype Outcome = Returns(v: Value) | Throws

  /** The work item built by `then`: `*dst = f(*src)`. */
  datatype Item = Item(src: nat, dst: nat, f: Value -> Outcome)

  /** An `async_result`: the slot holding its value and its work items. */
  datatype Chain = Chain(val: nat, items: seq<Item>)

  /** Every slot an item reads or writes is allocated in a store of size n. */
  predicate ItemsFit(items: seq<Item>, n: nat)
  {
    forall k :: 0 <= k < |items| ==> items[k].src < n && items[k].dst < n
  }

  predicate ChainFits(c: Chain, n: nat)
  {
    c.val < n && ItemsFit(c.items, n)
  }

  /** `start_async(val)`: a fresh slot holding `val`, and no work items. */
  function StartAsync(store: seq<Value>, v: Value): (r: (seq<Value>, Chain))
    ensures r.1.items == [] && |r.0| == |store| + 1
    ensures r.1.val == |store| && r.0[..|store|] == store && r.0[r.1.val] == v
    ensures ChainFits(r.1, |r.0|)
  {
    (store + [v], Chain(|store|, []))
  }

  /** `then(f)`: the old items are taken over, a fresh slot initialised to
      `zero` (the value-initialised `T2`) is allocated, and exactly one item
      is appended that reads the old slot and writes the fresh one. */
  function Then(store: seq<Value>, c: Chain, f: Value -> Outcome, zero: Value): (r: (seq<Value>, Chain))
    requires ChainFits(c, |store|)
    ensures |r.1.items| == |c.items| + 1 && r.1.items[..|c.items|] == c.items
    ensures r.1.items[|c.items|].src == c.val && r.1.items[|c.items|].dst == r.1.val
    ensures r.1.items[|c.items|].f == f
    ensures |r.0| == |store| + 1 && r.1.val == |store| && r.0[..|store|] == store
    ensures ChainFits(r.1, |r.0|)
  {
    var slot := |store|;
    (store + [zero], Chain(slot, c.items + [Item(c.val, slot, f)]))
  }

  /** The chain's items are linked from slot `origin`: the first item reads
      `origin`, item k reads the slot item k-1 writes, each item writes a slot
      allocated after the one it reads, and the chain's value is the slot the
      last item writes. */
  predicate Linked(c: Chain, origin: nat)
  {
    && (c.items == [] ==> c.val == origin)
    && (c.items != [] ==>
          && c.items[0].src == origin
          && c.val == c.items[|c.items| - 1].dst)
    && (forall k :: 0 < k < |c.items| ==> c.items[k].src == c.items[k - 1].dst)
    && (forall k :: 0 <= k < |c.items| ==> c.items[k].src < c.items[k].dst)
  }

  lemma StartAsyncIsLinked(store: seq<Value>, v: Value)
    ensures Linked(StartAsync(store, v).1, |store|)
  {
  }

  /** `then` keeps the chain linked: the new item reads the slot the previous
      last item wrote. */
  lemma ThenKeepsLinked(store: seq<Value>, c: Chain, origin: nat, f: Value -> Outcome, zero: Value)
    requires ChainFits(c, |store|) && Linked(c, origin)
    ensures Linked(Then(store, c, f, zero).1, origin)
  {
    var c' := Then(store, c, f, zero).1;
    var n := |c.items|;
    forall k | 0 < k < |c'.items|
      ensures c'.items[k].src == c'.items[k - 1].dst
    {
      if k < n {
        assert c'.items[k] == c.items[k] && c'.items[k - 1] == c.items[k - 1];
      }
    }
    forall k | 0 <= k < |c'.items|
      ensures c'.items[k].src < c'.items[k].dst
    {
      if k < n {
        assert c'.items[k] == c.items[k];
      }
    }
    if n > 0 {
      assert c'.items[0] == c.items[0];
    }
  }

  /** In a linked chain the slots written by the items grow with the item
      index, so no two items write the same slot and no item overwrites the
      slot an earlier item produced. */
  lemma {:induction false} LinkedWritesGrow(c: Chain, origin: nat, j: nat, k: nat)
    requires Linked(c, origin) && j < k < |c.items|
    ensures c.items[j].dst < c.items[k].dst
    decreases k - j
  {
    assert c.items[k].src == c.items[k - 1].dst;
    if j < k - 1 {
      LinkedWritesGrow(c, origin, j, k - 1);
    }
  }

  /** The task `start` builds: the default-constructed (empty) function, a
      single work item, or the lambda that runs `first` and then spawns
      `next`. */
  datatype Work = EmptyFunction | Single(item: Item) | RunThenSpawn(first: Item, next: Work)

  /** The items a task runs, in order. */
  function Items(w: Work): seq<Item>
  {
    match w
    case EmptyFunction => []
    case Single(it) => [it]
    case RunThenSpawn(it, next) => [it] + Items(next)
  }

  /** The composed task as a right-to-left definition would give it: one
      item alone, otherwise the first item followed by the composition of
      the rest. */
  function Compose(items: seq<Item>): (w: Work)
    ensures w.EmptyFunction? <==> items == []
    ensures w.RunThenSpawn? ==> !w.next.EmptyFunction?
  {
    if items == [] then EmptyFunction
    else if |items| == 1 then Single(items[0])
    else RunThenSpawn(items[0], Compose(items[1..]))
  }

  /** The composed task runs exactly the chain's items, in insertion order. */
  lemma {:induction false} ComposeRunsInOrder(items: seq<Item>)
    ensures Items(Compose(items)) == items
  {
    if |items| > 1 {
      ComposeRunsInOrder(items[1..]);
      assert items == [items[0]] + items[1..];
    }
  }

  /** `start`: walks the items from the last to the first, wrapping the task
      built so far as the continuation of the current item (or taking the
      item itself when nothing was built yet), and returns the task that is
      spawned. With no items the spawned task is the empty function. */
  method Start(c: Chain) returns (spawned: Work)
    ensures spawned == Compose(c.items)
    ensures Items(spawned) == c.items
    ensures spawned.EmptyFunction? <==> c.items == []
  {
    var lastWork := EmptyFunction;
    var i := |c.items|;
    while i > 0
      invariant 0 <= i <= |c.items|
      invariant lastWork == Compose(c.items[i..])
    {
      i := i - 1;
      assert c.items[i..][1..] == c.items[i + 1..];
      if !lastWork.EmptyFunction? {
        lastWork := RunThenSpawn(c.items[i], lastWork);
      } else {
        lastWork := Single(c.items[i]);
      }
    }
    assert c.items[0..] == c.items;
    spawned := lastWork;
    ComposeRunsInOrder(c.items);
  }

  /** The result of running one item on the store: the store with the
      item's slot written, or the exception. */
  datatype Step = Returned(store: seq<Value>) | Threw

  function RunItem(store: seq<Value>, it: Item): (r: Step)
    requires it.src < |store| && it.dst < |store|
    ensures r.Returned? <==> it.f(store[it.src]).Returns?
    ensures r.Returned? ==> r.store == store[it.dst := it.f(store[it.src]).v]
  {
    match it.f(store[it.src])
    case Returns(v) => Returned(store[it.dst := v])
    case Throws => Threw
  }

  /** The reference behaviour: the items run one after another until one
      throws. */
  datatype Status = AllReturned | ThrewAt(index: nat)

  function RunItems(store: seq<Value>, items: seq<Item>): (r: (seq<Value>, Status))
    requires ItemsFit(items, |store|)
    ensures |r.0| == |store|
    ensures r.1.ThrewAt? ==> r.1.index < |items|
    decreases |items|
  {
    if items == [] then (store, AllReturned)
    else
      match RunItem(store, items[0])
      case Threw => (store, ThrewAt(0))
      case Returned(s) =>
        var rest := RunItems(s, items[1..]);
        (rest.0, if rest.1.ThrewAt? then ThrewAt(rest.1.index + 1) else AllReturned)
  }

  /** How a spawned task ends: every item returned; an item with a
      continuation threw and the program was terminated; the last item threw
      and the exception left the task (it has no `try` around it); or the
      empty function was invoked. */
  datatype End = Completed | Terminated | Escaped | EmptyFunctionCalled

  predicate WorkFits(w: Work, n: nat)
  {
    ItemsFit(Items(w), n)
  }

  /** Running a spawned task, and the tasks it spawns, to the end. Each task
      spawns its continuation only after its item returned, so the items run
      one at a time. */
  function Execute(store: seq<Value>, w: Work): (r: (seq<Value>, End))
    requires WorkFits(w, |store|)
    decreases w
  {
    match w
    case EmptyFunction => (store, EmptyFunctionCalled)
    case Single(it) =>
      assert Items(w)[0] == it;
      (match RunItem(store, it)
       case Threw => (store, Escaped)
       case Returned(s) => (s, Completed))
    case RunThenSpawn(it, next) =>
      assert Items(w)[0] == it;
      assert forall k :: 0 <= k < |Items(next)| ==> Items(next)[k] == Items(w)[k + 1];
      match RunItem(store, it)
      case Threw => (store, Terminated)
      case Returned(s) => Execute(s, next)
  }

  /** Running the task `start` spawns behaves as running the items in
      insertion order: it completes with the same store when every item
      returns; it stops at the first item that throws, terminating the
      program unless that item is the last one, whose exception escapes the
      task; and with no items the empty function is invoked. */
  lemma {:induction false} ExecuteFollowsInsertionOrder(store: seq<Value>, items: seq<Item>)
    requires ItemsFit(items, |store|)
    ensures WorkFits(Compose(items), |store|)
    ensures items == [] ==> Execute(store, Compose(items)) == (store, EmptyFunctionCalled)
    ensures items != [] && RunItems(store, items).1 == AllReturned ==>
      Execute(store, Compose(items)) == (RunItems(store, items).0, Completed)
    ensures items != [] && RunItems(store, items).1 == ThrewAt(|items| - 1) ==>
      Execute(store, Compose(items)) == (RunItems(store, items).0, Escaped)
    ensures items != [] && RunItems(store, items).1.ThrewAt? && RunItems(store, items).1.index < |items| - 1 ==>
      Execute(store, Compose(items)) == (RunItems(store, items).0, Terminated)
    decreases |items|
  {
    ComposeRunsInOrder(items);
    if |items| > 1 {
      assert ItemsFit(items[1..], |store|);
      match RunItem(store, items[0])
      case Threw =>
      case Returned(s) =>
        ExecuteFollowsInsertionOrder(s, items[1..]);
    }
  }

  /** The demo's functions: `sqr`, `timesPi` and `print` (the printing is
      left out; it returns true). */
  function Sqr(v: Value): Outcome
  {
    match v
    case IntValue(x) => Returns(IntValue(x * x))
    case _ => Returns(IntValue(0))
  }

  const Pi: real := 3.141592653589793

  function TimesPi(v: Value): Outcome
  {
    match v
    case IntValue(x) => Returns(RealValue(Pi * x as real))
    case _ => Returns(RealValue(0.0))
  }

  function PrintValue(v: Value): Outcome
  {
    Returns(BoolValue(true))
  }

  /** The chain of `main`: `start_async(3).then(sqr).then(timesPi).then(print)`. */
  function DemoChain(): (r: (seq<Value>, Chain))
    ensures ChainFits(r.1, |r.0|)
  {
    var (s0, c0) := StartAsync([], IntValue(3));
    var (s1, c1) := Then(s0, c0, Sqr, IntValue(0));
    var (s2, c2) := Then(s1, c1, TimesPi, RealValue(0.0));
    Then(s2, c2, PrintValue, BoolValue(false))
  }

  /** The demo chain allocates four slots, initialised to 3 and the
      value-initialised int, double and bool, and holds three items, each
      reading the slot the previous one writes. */
  lemma DemoChainShape()
    ensures DemoChain() == ([IntValue(3), IntValue(0), RealValue(0.0), BoolValue(false)],
                            Chain(3, [Item(0, 1, Sqr), Item(1, 2, TimesPi), Item(2, 3, PrintValue)]))
    ensures Linked(DemoChain().1, 0)
  {
    var (s0, c0) := StartAsync([], IntValue(3));
    StartAsyncIsLinked([], IntValue(3));
    var (s1, c1) := Then(s0, c0, Sqr, IntValue(0));
    ThenKeepsLinked(s0, c0, 0, Sqr, IntValue(0));
    var (s2, c2) := Then(s1, c1, TimesPi, RealValue(0.0));
    ThenKeepsLinked(s1, c1, 0, TimesPi, RealValue(0.0));
    ThenKeepsLinked(s2, c2, 0, PrintValue, BoolValue(false));
    assert c1.items == [Item(0, 1, Sqr)];
    assert c2.items == [Item(0, 1, Sqr), Item(1, 2, TimesPi)];
    var (s3, c3) := Then(s2, c2, PrintValue, BoolValue(false));
    assert c3.items == [Item(0, 1, Sqr), Item(1, 2, TimesPi), Item(2, 3, PrintValue)];
    assert s3 == [IntValue(3), IntValue(0), RealValue(0.0), BoolValue(false)];
    assert DemoChain() == (s3, c3);
  }

  /** Running the demo chain's items fills the slots with 3, 9, 9 pi and
      true. */
  lemma DemoChainRuns()
    ensures ItemsFit(DemoChain().1.items, |DemoChain().0|)
    ensures RunItems(DemoChain().0, DemoChain().1.items)
      == ([IntValue(3), IntValue(9), RealValue(9.0 * Pi), BoolValue(true)], AllReturned)
  {
    DemoChainShape();
    var items := [Item(0, 1, Sqr), Item(1, 2, TimesPi), Item(2, 3, PrintValue)];
    var s0 := [IntValue(3), IntValue(0), RealValue(0.0), BoolValue(false)];
    var s1 := [IntValue(3), IntValue(9), RealValue(0.0), BoolValue(false)];
    var s2 := [IntValue(3), IntValue(9), RealValue(9.0 * Pi), BoolValue(false)];
    var s3 := [IntValue(3), IntValue(9), RealValue(9.0 * Pi), BoolValue(true)];
    assert RunItem(s0, items[0]) == Returned(s1);
    assert RunItem(s1, items[1]) == Returned(s2);
    assert RunItem(s2, items[2]) == Returned(s3);
    assert items[1..][1..] == [items[2]];
    assert RunItems(s2, items[1..][1..]) == (s3, AllReturned);
    assert RunItems(s1, items[1..]) == (s3, AllReturned);
  }

  /** Started, the demo chain's task completes with 9 pi in the third slot
      and true in the chain's own slot. */
  lemma DemoChainCompletes()
    ensures WorkFits(Compose(DemoChain().1.items), |DemoChain().0|)
    ensures Execute(DemoChain().0, Compose(DemoChain().1.items))
      == ([IntValue(3), IntValue(9), RealValue(9.0 * Pi), BoolValue(true)], Completed)
  {
    DemoChainRuns();
    ExecuteFollowsInsertionOrder(DemoChain().0, DemoChain().1.items);
  }
}
