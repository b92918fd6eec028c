/** The task-graph demo: nine request-handling steps and a final task,
    connected by dependencies so that a task runs once all its predecessors
    have finished. A `chained_task` keeps a counter of unfinished
    predecessors and a list of successors; when it finishes it decrements
    each successor's counter and spawns the successors whose counter reaches
    0. Tasks are numbered 0..9 (t1..t9, then t_done). `concore::spawn` is
    modelled by appending to `spawned`; the base executor later runs a
    spawned task, then its continuation (the method RunContinuation). */
module TaskGraph {

  /** A dependency (from, to): `to` may start only after `from` finished. */
  type Edge = (nat, nat)

  const T1: nat := 0
  const T2: nat := 1
  const T3: nat := 2
  const T4: nat := 3
  const T5: nat := 4
  const T6: nat := 5
  const T7: nat := 6
  const T8: nat := 7
  const T9: nat := 8
  const TDone: nat := 9
  const NumTasks: nat := 10

  /** The number of dependencies of v: its predecessor counter once the
      graph is built. */
  function InDegree(edges: seq<Edge>, v: nat): nat
  {
    if edges == [] then 0
    else InDegree(edges[..|edges| - 1], v) + if edges[|edges| - 1].1 == v then 1 else 0
  }

  /** How many times the dependency (u, v) was declared. */
  function EdgeCount(edges: seq<Edge>, u: nat, v: nat): nat
  {
    if edges == [] then 0
    else EdgeCount(edges[..|edges| - 1], u, v) + if edges[|edges| - 1] == (u, v) then 1 else 0
  }

  /** How many of v's dependencies come from finished tasks. */
  function CompletedPreds(edges: seq<Edge>, done: set<nat>, v: nat): nat
  {
    if edges == [] then 0
    else
      var e := edges[|edges| - 1];
      CompletedPreds(edges[..|edges| - 1], done, v) + if e.1 == v && e.0 in done then 1 else 0
  }

  /** The successor list of u, in the order the dependencies were added. */
  function SuccessorsOf(edges: seq<Edge>, u: nat): seq<nat>
  {
    if edges == [] then []
    else
      var e := edges[|edges| - 1];
      SuccessorsOf(edges[..|edges| - 1], u) + if e.0 == u then [e.1] else []
  }

  /** Every endpoint of a dependency is one of the n tasks. */
  predicate EdgesWithin(edges: seq<Edge>, n: nat)
  {
    forall i :: 0 <= i < |edges| ==> edges[i].0 < n && edges[i].1 < n
  }

  lemma {:induction false} SuccessorsCount(edges: seq<Edge>, u: nat, v: nat)
    ensures multiset(SuccessorsOf(edges, u))[v] == EdgeCount(edges, u, v)
  {
    if edges != [] {
      SuccessorsCount(edges[..|edges| - 1], u, v);
    }
  }

  lemma {:induction false} SuccessorsWithin(edges: seq<Edge>, n: nat, u: nat)
    requires EdgesWithin(edges, n)
    ensures forall i :: 0 <= i < |SuccessorsOf(edges, u)| ==> SuccessorsOf(edges, u)[i] < n
  {
    if edges != [] {
      SuccessorsWithin(edges[..|edges| - 1], n, u);
    }
  }

  /** Finishing u completes exactly the dependencies that start at u, and
      those were still open: a counter never counts more finished
      predecessors than it has. */
  lemma {:induction false} CompletedPredsAdd(edges: seq<Edge>, done: set<nat>, u: nat, v: nat)
    requires u !in done
    ensures CompletedPreds(edges, done + {u}, v) == CompletedPreds(edges, done, v) + EdgeCount(edges, u, v)
    ensures CompletedPreds(edges, done, v) + EdgeCount(edges, u, v) <= InDegree(edges, v)
  {
    if edges != [] {
      CompletedPredsAdd(edges[..|edges| - 1], done, u, v);
    }
  }

  lemma {:induction false} CompletedPredsNone(edges: seq<Edge>, v: nat)
    ensures CompletedPreds(edges, {}, v) == 0
  {
    if edges != [] {
      CompletedPredsNone(edges[..|edges| - 1], v);
    }
  }

  /** The tasks the dependencies point to, in order. */
  function Heads(edges: seq<Edge>): (r: seq<nat>)
    ensures |r| == |edges| && forall i :: 0 <= i < |edges| ==> r[i] == edges[i].1
  {
    seq(|edges|, i requires 0 <= i < |edges| => edges[i].1)
  }

  /** The in-degree counts the occurrences of v among the heads. */
  lemma {:induction false} InDegreeByHeads(edges: seq<Edge>, v: nat)
    ensures InDegree(edges, v) == multiset(Heads(edges))[v]
  {
    if edges != [] {
      var init := edges[..|edges| - 1];
      InDegreeByHeads(init, v);
      assert Heads(edges) == Heads(init) + [edges[|edges| - 1].1];
    }
  }

  /** A task that no dependency points to has in-degree 0. */
  lemma {:induction false} InDegreeOfNoHead(edges: seq<Edge>, v: nat)
    requires forall i :: 0 <= i < |edges| ==> edges[i].1 != v
    ensures InDegree(edges, v) == 0
  {
    if edges != [] {
      InDegreeOfNoHead(edges[..|edges| - 1], v);
    }
  }

  /** A counter at 0 means every predecessor has finished. */
  lemma {:induction false} AllPredsDone(edges: seq<Edge>, done: set<nat>, v: nat)
    requires CompletedPreds(edges, done, v) == InDegree(edges, v)
    ensures forall i :: 0 <= i < |edges| && edges[i].1 == v ==> edges[i].0 in done
  {
    if edges != [] {
      var init := edges[..|edges| - 1];
      CompletedPredsBound(init, done, v);
      AllPredsDone(init, done, v);
      assert forall i :: 0 <= i < |init| ==> init[i] == edges[i];
    }
  }

  lemma {:induction false} CompletedPredsBound(edges: seq<Edge>, done: set<nat>, v: nat)
    ensures CompletedPreds(edges, done, v) <= InDegree(edges, v)
  {
    if edges != [] {
      CompletedPredsBound(edges[..|edges| - 1], done, v);
    }
  }

  /** A finishing task's continuation on values: for each successor in
      turn, decrement its counter and spawn it when the counter drops from 1
      to 0. */
  function Release(counts: seq<int>, succ: seq<nat>, spawned: seq<nat>): (r: (seq<int>, seq<nat>))
    requires forall i :: 0 <= i < |succ| ==> succ[i] < |counts|
    ensures |r.0| == |counts|
    ensures forall w :: w in spawned ==> w in r.1
    ensures forall w :: w in r.1 ==> w in spawned || w in succ
  {
    if succ == [] then (counts, spawned)
    else
      var p := Release(counts, succ[..|succ| - 1], spawned);
      var v := succ[|succ| - 1];
      (p.0[v := p.0[v] - 1], p.1 + if p.0[v] == 1 then [v] else [])
  }

  /** Each counter drops by the number of times the task appears among the
      successors, and the task is spawned once exactly when its counter
      passes from 1 to 0 on the way. */
  lemma {:induction false} ReleaseEffect(counts: seq<int>, succ: seq<nat>, spawned: seq<nat>, v: nat)
    requires forall i :: 0 <= i < |succ| ==> succ[i] < |counts|
    requires v < |counts|
    ensures Release(counts, succ, spawned).0[v] == counts[v] - multiset(succ)[v]
    ensures multiset(Release(counts, succ, spawned).1)[v]
      == multiset(spawned)[v] + if 1 <= counts[v] <= multiset(succ)[v] then 1 else 0
  {
    if succ != [] {
      var init := succ[..|succ| - 1];
      assert succ == init + [succ[|succ| - 1]];
      ReleaseEffect(counts, init, spawned, v);
    }
  }

  /** The graph's shape: n counters and n successor lists, the lists being
      the declared dependencies. */
  ghost predicate Built(n: nat, edges: seq<Edge>, counts: seq<int>, succs: seq<seq<nat>>)
  {
    && |counts| == n && |succs| == n
    && EdgesWithin(edges, n)
    && (forall u :: 0 <= u < n ==> succs[u] == SuccessorsOf(edges, u))
    && (forall u, i :: 0 <= u < n && 0 <= i < |succs[u]| ==> succs[u][i] < n)
  }

  /** The activation invariant: each counter is the number of unfinished
      predecessors; a task with dependencies was spawned once exactly when
      its counter is 0; a task without any was spawned at most once (by
      the user); only spawned tasks finish. */
  ghost predicate Running(n: nat, edges: seq<Edge>, counts: seq<int>, spawned: seq<nat>, done: set<nat>)
    requires |counts| == n
  {
    && (forall v :: 0 <= v < n ==> counts[v] == InDegree(edges, v) - CompletedPreds(edges, done, v))
    && (forall v :: 0 <= v < n && InDegree(edges, v) > 0 ==>
          multiset(spawned)[v] == if counts[v] == 0 then 1 else 0)
    && (forall v :: 0 <= v < n && InDegree(edges, v) == 0 ==> multiset(spawned)[v] <= 1)
    && (forall v :: v in spawned ==> v < n)
    && (forall u :: u in done ==> u in spawned)
  }

  /** A finishing task keeps the activation invariant. */
  lemma CompleteKeepsRunning(n: nat, edges: seq<Edge>, counts: seq<int>, succs: seq<seq<nat>>,
                             spawned: seq<nat>, done: set<nat>, u: nat, counts': seq<int>, spawned': seq<nat>)
    requires Built(n, edges, counts, succs) && Running(n, edges, counts, spawned, done)
    requires u in spawned && u !in done
    requires forall i :: 0 <= i < |succs[u]| ==> succs[u][i] < n
    requires (counts', spawned') == Release(counts, succs[u], spawned)
    ensures |counts'| == n && Running(n, edges, counts', spawned', done + {u})
  {
    forall v | 0 <= v < n
      ensures counts'[v] == InDegree(edges, v) - CompletedPreds(edges, done + {u}, v)
      ensures InDegree(edges, v) > 0 ==> multiset(spawned')[v] == if counts'[v] == 0 then 1 else 0
      ensures InDegree(edges, v) == 0 ==> multiset(spawned')[v] <= 1
    {
      ReleaseEffect(counts, succs[u], spawned, v);
      SuccessorsCount(edges, u, v);
      CompletedPredsAdd(edges, done, u, v);
    }
  }

  /** A spawned task with dependencies was spawned after all of its
      predecessors had finished. */
  lemma RunsAfterPredecessors(n: nat, edges: seq<Edge>, counts: seq<int>, spawned: seq<nat>, done: set<nat>, v: nat)
    requires |counts| == n && Running(n, edges, counts, spawned, done)
    requires v in spawned && InDegree(edges, v) > 0
    ensures forall i :: 0 <= i < |edges| && edges[i].1 == v ==> edges[i].0 in done
  {
    assert multiset(spawned)[v] > 0;
    AllPredsDone(edges, done, v);
  }

  /** The dependencies (from, to) for every `to` in `tos`. */
  function FanOut(from: nat, tos: seq<nat>): (r: seq<Edge>)
    ensures |r| == |tos| && forall i :: 0 <= i < |tos| ==> r[i] == (from, tos[i])
  {
    seq(|tos|, i requires 0 <= i < |tos| => (from, tos[i]))
  }

  /** The dependencies (from, to) for every `from` in `froms`. */
  function FanIn(froms: seq<nat>, to: nat): (r: seq<Edge>)
    ensures |r| == |froms| && forall i :: 0 <= i < |froms| ==> r[i] == (froms[i], to)
  {
    seq(|froms|, i requires 0 <= i < |froms| => (froms[i], to))
  }

  /** The dependencies declared by lines 103-109 of the demo, in order. */
  const DemoEdges: seq<Edge> :=
    [(T1, T2), (T1, T3)]
    + [(T2, T4)]
    + [(T3, T4), (T3, T5)]
    + [(T4, T7)]
    + [(T3, T6), (T5, T6)]
    + [(T6, T7), (T6, T8), (T6, T9)]
    + [(T7, TDone), (T8, TDone), (T9, TDone)]

  lemma HeadsAppend(a: seq<Edge>, b: seq<Edge>)
    ensures Heads(a + b) == Heads(a) + Heads(b)
  {
  }

  /** The tasks of the demo graph that wait for several predecessors: t4,
      t6 and t7 wait for 2, t_done for 3. */
  lemma DemoJoinInDegrees()
    ensures InDegree(DemoEdges, T4) == 2 && InDegree(DemoEdges, T6) == 2
    ensures InDegree(DemoEdges, T7) == 2 && InDegree(DemoEdges, TDone) == 3
  {
    DemoInDegree(T4);
    DemoInDegree(T6);
    DemoInDegree(T7);
    DemoInDegree(TDone);
  }

  /** The in-degree of one task of the demo graph, read off the heads. */
  lemma DemoInDegree(v: nat)
    ensures InDegree(DemoEdges, v)
      == multiset([T2, T3])[v] + multiset([T4])[v] + multiset([T4, T5])[v] + multiset([T7])[v]
       + multiset([T6, T6])[v] + multiset([T7, T8, T9])[v] + multiset([TDone, TDone, TDone])[v]
  {
    var e1, e2, e3 := [(T1, T2), (T1, T3)], [(T2, T4)], [(T3, T4), (T3, T5)];
    var e4, e5 := [(T4, T7)], [(T3, T6), (T5, T6)];
    var e6, e7 := [(T6, T7), (T6, T8), (T6, T9)], [(T7, TDone), (T8, TDone), (T9, TDone)];
    InDegreeByHeads(DemoEdges, v);
    HeadsAppend(e1 + e2 + e3 + e4 + e5 + e6, e7);
    HeadsAppend(e1 + e2 + e3 + e4 + e5, e6);
    HeadsAppend(e1 + e2 + e3 + e4, e5);
    HeadsAppend(e1 + e2 + e3, e4);
    HeadsAppend(e1 + e2, e3);
    HeadsAppend(e1, e2);
    DemoChunkHeads();
  }

  lemma DemoChunkHeads()
    ensures Heads([(T1, T2), (T1, T3)]) == [T2, T3]
    ensures Heads([(T2, T4)]) == [T4]
    ensures Heads([(T3, T4), (T3, T5)]) == [T4, T5]
    ensures Heads([(T4, T7)]) == [T7]
    ensures Heads([(T3, T6), (T5, T6)]) == [T6, T6]
    ensures Heads([(T6, T7), (T6, T8), (T6, T9)]) == [T7, T8, T9]
    ensures Heads([(T7, TDone), (T8, TDone), (T9, TDone)]) == [TDone, TDone, TDone]
  {
  }

  /** t1 waits for nothing: it is the root the demo spawns. */
  lemma DemoRootInDegree()
    ensures InDegree(DemoEdges, T1) == 0
  {
    forall i | 0 <= i < |DemoEdges|
      ensures DemoEdges[i].1 != T1
    {
      DemoEdgesAscend();
    }
    InDegreeOfNoHead(DemoEdges, T1);
  }

  /** The other tasks of the demo graph: t2, t3, t5, t8 and t9 wait for
      one predecessor each. */
  lemma DemoOtherInDegrees()
    ensures InDegree(DemoEdges, T2) == 1 && InDegree(DemoEdges, T3) == 1 && InDegree(DemoEdges, T5) == 1
    ensures InDegree(DemoEdges, T8) == 1 && InDegree(DemoEdges, T9) == 1
  {
    DemoInDegree(T2);
    DemoInDegree(T3);
    DemoInDegree(T5);
    DemoInDegree(T8);
    DemoInDegree(T9);
  }

  /** Every dependency of the demo goes from a lower to a higher task
      number: the numbering is a topological order. */
  lemma DemoEdgesAscend()
    ensures EdgesWithin(DemoEdges, NumTasks)
    ensures forall i :: 0 <= i < |DemoEdges| ==> DemoEdges[i].0 < DemoEdges[i].1
  {
  }

  /** A chain of declared dependencies p, the i-th step being dependency
      number ks[i]. */
  predicate IsPath(edges: seq<Edge>, p: seq<nat>, ks: seq<nat>)
  {
    && |ks| == |p| - 1
    && forall i :: 0 <= i < |ks| ==> ks[i] < |edges| && edges[ks[i]] == (p[i], p[i + 1])
  }

  /** Along a chain of ascending dependencies the task number grows. */
  lemma {:induction false} PathAscends(edges: seq<Edge>, p: seq<nat>, ks: seq<nat>)
    requires forall i :: 0 <= i < |edges| ==> edges[i].0 < edges[i].1
    requires IsPath(edges, p, ks) && |p| >= 2
    ensures p[0] < p[|p| - 1]
    decreases |p|
  {
    assert edges[ks[0]] == (p[0], p[1]);
    if |p| > 2 {
      PathAscends(edges, p[1..], ks[1..]);
    }
  }

  /** The demo graph is acyclic: no chain of dependencies leads from a task
      back to itself. */
  lemma DemoAcyclic(p: seq<nat>, ks: seq<nat>)
    requires IsPath(DemoEdges, p, ks) && |p| >= 2
    ensures p[0] != p[|p| - 1]
  {
    DemoEdgesAscend();
    PathAscends(DemoEdges, p, ks);
  }

  /** Every task of the demo is reachable from t1, the only task spawned. */
  lemma DemoReachableFromT1(v: nat)
    requires v < NumTasks
    ensures exists p, ks :: IsPath(DemoEdges, p, ks) && |p| >= 1 && p[0] == T1 && p[|p| - 1] == v
  {
    var p, ks;
    if v == T1 { p, ks := [T1], []; }
    else if v == T2 { p, ks := [T1, T2], [0]; }
    else if v == T3 { p, ks := [T1, T3], [1]; }
    else if v == T4 { p, ks := [T1, T2, T4], [0, 2]; }
    else if v == T5 { p, ks := [T1, T3, T5], [1, 4]; }
    else if v == T6 { p, ks := [T1, T3, T6], [1, 6]; }
    else if v == T7 { p, ks := [T1, T2, T4, T7], [0, 2, 5]; }
    else if v == T8 { p, ks := [T1, T3, T6, T8], [1, 6, 9]; }
    else if v == T9 { p, ks := [T1, T3, T6, T9], [1, 6, 10]; }
    else { p, ks := [T1, T3, T6, T9, TDone], [1, 6, 10, 13]; }
    assert IsPath(DemoEdges, p, ks);
  }

  /** Every task of the demo leads to t_done. */
  lemma DemoLeadsToDone(v: nat)
    requires v < NumTasks
    ensures exists p, ks :: IsPath(DemoEdges, p, ks) && |p| >= 1 && p[0] == v && p[|p| - 1] == TDone
  {
    var p, ks;
    if v == T1 { p, ks := [T1, T2, T4, T7, TDone], [0, 2, 5, 11]; }
    else if v == T2 { p, ks := [T2, T4, T7, TDone], [2, 5, 11]; }
    else if v == T3 { p, ks := [T3, T4, T7, TDone], [3, 5, 11]; }
    else if v == T4 { p, ks := [T4, T7, TDone], [5, 11]; }
    else if v == T5 { p, ks := [T5, T6, T7, TDone], [7, 8, 11]; }
    else if v == T6 { p, ks := [T6, T7, TDone], [8, 11]; }
    else if v == T7 { p, ks := [T7, TDone], [11]; }
    else if v == T8 { p, ks := [T8, TDone], [12]; }
    else if v == T9 { p, ks := [T9, TDone], [13]; }
    else { p, ks := [TDone], []; }
    assert IsPath(DemoEdges, p, ks);
  }

  /** In the demo, once t_done has been spawned every other task has
      finished: `done.wait()` returns only after the whole graph ran. */
  lemma TDoneRunsLast(counts: seq<int>, spawned: seq<nat>, done: set<nat>)
    requires |counts| == NumTasks && Running(NumTasks, DemoEdges, counts, spawned, done)
    requires TDone in spawned
    ensures forall v :: 0 <= v < TDone ==> v in done
  {
    DemoJoinInDegrees();
    DemoOtherInDegrees();
    RunsAfterPredecessors(NumTasks, DemoEdges, counts, spawned, done, TDone);
    assert DemoEdges[11] == (T7, TDone) && DemoEdges[12] == (T8, TDone) && DemoEdges[13] == (T9, TDone);
    RunsAfterPredecessors(NumTasks, DemoEdges, counts, spawned, done, T7);
    RunsAfterPredecessors(NumTasks, DemoEdges, counts, spawned, done, T8);
    assert DemoEdges[5] == (T4, T7) && DemoEdges[8] == (T6, T7);
    RunsAfterPredecessors(NumTasks, DemoEdges, counts, spawned, done, T4);
    RunsAfterPredecessors(NumTasks, DemoEdges, counts, spawned, done, T6);
    assert DemoEdges[2] == (T2, T4) && DemoEdges[3] == (T3, T4);
    assert DemoEdges[6] == (T3, T6) && DemoEdges[7] == (T5, T6);
    RunsAfterPredecessors(NumTasks, DemoEdges, counts, spawned, done, T2);
    assert DemoEdges[0] == (T1, T2);
  }

  /** The chained tasks of a graph: one predecessor counter and one
      successor list per task. */
  class Graph {
    const n: nat
    var predCount: seq<int>
    var successors: seq<seq<nat>>
    var spawned: seq<nat>
    ghost var edges: seq<Edge>
    ghost var completed: set<nat>

    ghost predicate Valid()
      reads this
    {
      Built(n, edges, predCount, successors) && Running(n, edges, predCount, spawned, completed)
    }

    /** n new chained tasks: no dependencies, nothing spawned. */
    constructor (n: nat)
      ensures Valid() && this.n == n
      ensures edges == [] && spawned == [] && completed == {}
      ensures predCount == seq(n, _ => 0) && successors == seq(n, _ => [])
    {
      this.n := n;
      predCount := seq(n, _ => 0);
      successors := seq(n, _ => []);
      spawned := [];
      edges := [];
      completed := {};
    }

    /** `add_dependency(from, to)`: record `to` as a successor of `from` and
        raise `to`'s counter. Dependencies are declared before any task of
        the graph starts. */
    method AddDependency(from: nat, to: nat)
      requires Valid() && from < n && to < n
      requires spawned == [] && completed == {}
      modifies this
      ensures Valid() && spawned == [] && completed == {}
      ensures edges == old(edges) + [(from, to)]
      ensures successors == old(successors)[from := old(successors[from]) + [to]]
      ensures predCount == old(predCount)[to := old(predCount[to]) + 1]
    {
      successors := successors[from := successors[from] + [to]];
      predCount := predCount[to := predCount[to] + 1];
      edges := edges + [(from, to)];
      assert edges[..|edges| - 1] == old(edges);
      forall v | 0 <= v < n
        ensures predCount[v] == InDegree(edges, v) - CompletedPreds(edges, completed, v)
        ensures predCount[v] == InDegree(edges, v)
      {
        CompletedPredsNone(edges, v);
        CompletedPredsNone(old(edges), v);
      }
    }

    /** `add_dependencies(from, {to...})`: one dependency per successor, in
        order. */
    method AddDependenciesFrom(from: nat, tos: seq<nat>)
      requires Valid() && from < n && forall i :: 0 <= i < |tos| ==> tos[i] < n
      requires spawned == [] && completed == {}
      modifies this
      ensures Valid() && spawned == [] && completed == {}
      ensures edges == old(edges) + FanOut(from, tos)
    {
      for i := 0 to |tos|
        invariant Valid() && spawned == [] && completed == {}
        invariant edges == old(edges) + FanOut(from, tos[..i])
      {
        AddDependency(from, tos[i]);
        assert FanOut(from, tos[..i + 1]) == FanOut(from, tos[..i]) + [(from, tos[i])];
      }
      assert tos[..|tos|] == tos;
    }

    /** `add_dependencies({from...}, to)`: one dependency per predecessor, in
        order. */
    method AddDependenciesTo(froms: seq<nat>, to: nat)
      requires Valid() && to < n && forall i :: 0 <= i < |froms| ==> froms[i] < n
      requires spawned == [] && completed == {}
      modifies this
      ensures Valid() && spawned == [] && completed == {}
      ensures edges == old(edges) + FanIn(froms, to)
    {
      for i := 0 to |froms|
        invariant Valid() && spawned == [] && completed == {}
        invariant edges == old(edges) + FanIn(froms[..i], to)
      {
        AddDependency(froms[i], to);
        assert FanIn(froms[..i + 1], to) == FanIn(froms[..i], to) + [(froms[i], to)];
      }
      assert froms[..|froms|] == froms;
    }

    /** `concore::spawn(t)` on a task without dependencies, by the user. */
    method Spawn(v: nat)
      requires Valid() && v < n && InDegree(edges, v) == 0 && v !in spawned
      modifies this`spawned
      ensures Valid() && spawned == old(spawned) + [v]
    {
      spawned := spawned + [v];
    }

    /** The continuation of chained task u, run by the base executor once
        the task's body returned: walk its successors, decrement each
        counter, and spawn a successor whose counter drops from 1 to 0. */
    method FinishTask(u: nat)
      requires u < n && |predCount| == n && |successors| == n
      requires forall i :: 0 <= i < |successors[u]| ==> successors[u][i] < n
      modifies this`predCount, this`spawned
      ensures (predCount, spawned) == Release(old(predCount), successors[u], old(spawned))
    {
      var succ := successors[u];
      for i := 0 to |succ|
        invariant |predCount| == n
        invariant (predCount, spawned) == Release(old(predCount), succ[..i], old(spawned))
      {
        var v := succ[i];
        var before := predCount[v];
        assert succ[..i + 1][..i] == succ[..i];
        assert Release(old(predCount), succ[..i + 1], old(spawned))
          == (predCount[v := before - 1], spawned + if before == 1 then [v] else []);
        predCount := predCount[v := before - 1];
        if before == 1 {
          spawned := spawned + [v];
        }
        assert predCount == Release(old(predCount), succ[..i + 1], old(spawned)).0;
        assert spawned == Release(old(predCount), succ[..i + 1], old(spawned)).1;
      }
      assert succ[..|succ|] == succ;
    }

    /** A spawned task that has not finished yet finishes: the invariant
        holds after it, and exactly the successors that became ready were
        spawned. */
    method RunContinuation(u: nat)
      requires Valid() && u in spawned && u !in completed
      modifies this
      ensures Valid()
      ensures edges == old(edges) && successors == old(successors)
      ensures completed == old(completed) + {u}
      ensures (predCount, spawned) == Release(old(predCount), successors[u], old(spawned))
    {
      assert u < n;
      SuccessorsWithin(edges, n, u);
      ghost var counts0, spawned0, done0 := predCount, spawned, completed;
      FinishTask(u);
      completed := completed + {u};
      CompleteKeepsRunning(n, edges, counts0, successors, spawned0, done0, u, predCount, spawned);
    }
  }

  /** The demo's graph, built by lines 103-109: ten chained tasks with
      exactly the declared dependencies, then t1 spawned. */
  method BuildDemo() returns (g: Graph)
    ensures fresh(g) && g.Valid() && g.n == NumTasks
    ensures g.edges == DemoEdges
    ensures g.spawned == [T1] && g.completed == {}
  {
    g := new Graph(NumTasks);
    g.AddDependenciesFrom(T1, [T2, T3]);
    assert g.edges == [(T1, T2), (T1, T3)];
    g.AddDependency(T2, T4);
    g.AddDependenciesFrom(T3, [T4, T5]);
    assert FanOut(T3, [T4, T5]) == [(T3, T4), (T3, T5)];
    g.AddDependency(T4, T7);
    g.AddDependenciesTo([T3, T5], T6);
    assert FanIn([T3, T5], T6) == [(T3, T6), (T5, T6)];
    g.AddDependenciesFrom(T6, [T7, T8, T9]);
    assert FanOut(T6, [T7, T8, T9]) == [(T6, T7), (T6, T8), (T6, T9)];
    g.AddDependenciesTo([T7, T8, T9], TDone);
    assert FanIn([T7, T8, T9], TDone) == [(T7, TDone), (T8, TDone), (T9, TDone)];
    assert g.edges == DemoEdges;
    DemoRootInDegree();
    g.Spawn(T1);
  }
}
