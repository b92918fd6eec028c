/** The matrix wavefront demo: cell (x, y) of a w-by-h matrix may run once
    its left neighbour (x-1, y) and its up-right neighbour (x+1, y-1) have
    run. Each cell has a dependency counter; a finishing cell decrements the
    counters of the cells it unblocks, and a cell is spawned when its counter
    drops from 1 to 0. `concore::spawn` is modelled by appending to
    `spawned`; the base executor later runs a spawned cell, then its
    continuation (the method CellContinuation). */
module MatrixProcessing {

  datatype Cell = Cell(x: int, y: int)

  /** What the matrix hands to the runtime: a cell task, or `done_task_`. */
  datatype Spawned = CellTask(cell: Cell) | DoneTask

  predicate InGrid(w: int, h: int, c: Cell)
  {
    0 <= c.x < w && 0 <= c.y < h
  }

  lemma MulMonotone(a: int, b: int, w: int)
    requires a <= b && w >= 0
    ensures a * w <= b * w
  {
    assert b * w - a * w == (b - a) * w;
  }

  /** The row-major index `y * width + x` of a cell; inside the grid it is
      inside the `w * h` elements of the vector. */
  function Idx(w: int, h: int, c: Cell): (i: int)
    ensures InGrid(w, h, c) ==> 0 <= i < w * h
  {
    if InGrid(w, h, c) then
      MulMonotone(c.y + 1, h, w);
      assert c.y * w + w == (c.y + 1) * w;
      c.y * w + c.x
    else
      c.y * w + c.x
  }

  /** Distinct cells of the grid have distinct indices, so writing one cell
      leaves every other cell alone. */
  lemma IdxInjective(w: int, h: int, c: Cell, d: Cell)
    requires InGrid(w, h, c) && InGrid(w, h, d) && c != d
    ensures Idx(w, h, c) != Idx(w, h, d)
  {
    if c.y < d.y {
      MulMonotone(c.y + 1, d.y, w);
      assert c.y * w + w == (c.y + 1) * w;
    } else if d.y < c.y {
      MulMonotone(d.y + 1, c.y, w);
      assert d.y * w + w == (d.y + 1) * w;
    }
  }

  lemma AllIdxInjective(w: int, h: int)
    ensures forall c, d :: InGrid(w, h, c) && InGrid(w, h, d) && c != d ==> Idx(w, h, c) != Idx(w, h, d)
  {
    forall c, d | InGrid(w, h, c) && InGrid(w, h, d) && c != d
      ensures Idx(w, h, c) != Idx(w, h, d)
    {
      IdxInjective(w, h, c, d);
    }
  }

  /** The counter `start` gives a cell: 1 on the left column, the top row
      and the right column, 2 elsewhere. */
  function InitialCount(w: int, c: Cell): int
  {
    if c.x == 0 || c.y == 0 || c.x == w - 1 then 1 else 2
  }

  /** The cells the continuation of u unblocks, in the order it unblocks
      them: the bottom-left one, then the right one. */
  function Targets(w: int, h: int, u: Cell): seq<Cell>
  {
    (if u.y < h - 1 && u.x > 0 then [Cell(u.x - 1, u.y + 1)] else [])
    + (if u.x < w - 1 then [Cell(u.x + 1, u.y)] else [])
  }

  predicate HasLeft(c: Cell)
  {
    c.x > 0
  }

  function Left(c: Cell): Cell
  {
    Cell(c.x - 1, c.y)
  }

  predicate HasUpRight(w: int, c: Cell)
  {
    c.y > 0 && c.x < w - 1
  }

  function UpRight(c: Cell): Cell
  {
    Cell(c.x + 1, c.y - 1)
  }

  /** How many cells unblock c: its left and its up-right neighbour, where
      they exist. */
  function NumUnblockers(w: int, c: Cell): int
  {
    (if HasLeft(c) then 1 else 0) + (if HasUpRight(w, c) then 1 else 0)
  }

  /** The unblock relation read from both ends: u's continuation unblocks c
      exactly when u is c's left or up-right neighbour. */
  lemma TargetsAreUnblocked(w: int, h: int, u: Cell, c: Cell)
    requires InGrid(w, h, u) && InGrid(w, h, c)
    ensures c in Targets(w, h, u) <==>
      (HasLeft(c) && Left(c) == u) || (HasUpRight(w, c) && UpRight(c) == u)
  {
  }

  /** The counter of c once the cells in `done` have finished. */
  function Pending(w: int, done: set<Cell>, c: Cell): int
  {
    InitialCount(w, c)
    - (if HasLeft(c) && Left(c) in done then 1 else 0)
    - (if HasUpRight(w, c) && UpRight(c) in done then 1 else 0)
  }

  /** For w >= 2, every cell other than (0, 0) starts with a count equal to
      the number of cells that unblock it. */
  lemma CountIsUnblockers(w: int, h: int, c: Cell)
    requires w >= 2 && InGrid(w, h, c) && c != Cell(0, 0)
    ensures InitialCount(w, c) == NumUnblockers(w, c)
  {
  }

  /** With w == 1, the cells (0, y) below row 0 start at 1 but no cell
      unblocks them, so their counter stays 1 whatever has finished. */
  lemma WidthOneStalls(h: int, done: set<Cell>, y: int)
    requires 0 < y < h
    ensures InitialCount(1, Cell(0, y)) == 1 && NumUnblockers(1, Cell(0, y)) == 0
    ensures Pending(1, done, Cell(0, y)) == 1
    ensures forall u :: InGrid(1, h, u) ==> Cell(0, y) !in Targets(1, h, u)
  {
  }

  /** A counter never drops below the number of its unblockers that have
      not finished. */
  lemma PendingBound(w: int, h: int, done: set<Cell>, c: Cell)
    requires InGrid(w, h, c)
    ensures Pending(w, done, c) >= (if HasLeft(c) && Left(c) !in done then 1 else 0)
                                   + (if HasUpRight(w, c) && UpRight(c) !in done then 1 else 0)
    ensures Pending(w, done, c) >= 0
  {
  }

  /** A counter at 0 means both of the cell's unblockers have finished. */
  lemma ReadyOnlyAfterUnblockers(w: int, h: int, done: set<Cell>, c: Cell)
    requires InGrid(w, h, c) && Pending(w, done, c) == 0
    ensures HasLeft(c) ==> Left(c) in done
    ensures HasUpRight(w, c) ==> UpRight(c) in done
  {
  }

  /** Finishing u lowers by one the counters of the cells it unblocks, and
      leaves every other counter as it was. */
  lemma PendingAfter(w: int, h: int, done: set<Cell>, u: Cell, c: Cell)
    requires InGrid(w, h, u) && InGrid(w, h, c) && u !in done
    ensures Pending(w, done + {u}, c) == Pending(w, done, c) - (if c in Targets(w, h, u) then 1 else 0)
  {
    TargetsAreUnblocked(w, h, u, c);
  }

  /** The tasks the continuation of u spawns, given the cells finished
      before it: each target whose counter reaches 0, then `done_task_` if u
      is the bottom-right cell. */
  function Released(w: int, h: int, done: set<Cell>, u: Cell): seq<Spawned>
  {
    var after := done + {u};
    var bottom := Cell(u.x - 1, u.y + 1);
    var right := Cell(u.x + 1, u.y);
    (if u.y < h - 1 && u.x > 0 && Pending(w, after, bottom) == 0 then [CellTask(bottom)] else [])
    + (if u.x < w - 1 && Pending(w, after, right) == 0 then [CellTask(right)] else [])
    + (if u == Cell(w - 1, h - 1) then [DoneTask] else [])
  }

  /** No deadlock for w >= 2: if every cell that is ready (the first cell,
      or a cell whose counter is 0) has finished, then every cell has. */
  lemma {:induction false} NoDeadlock(w: int, h: int, done: set<Cell>, c: Cell)
    requires w >= 2 && InGrid(w, h, c)
    requires forall d :: InGrid(w, h, d) && (d == Cell(0, 0) || Pending(w, done, d) == 0) ==> d in done
    ensures c in done
    decreases c.y, c.x
  {
    if c != Cell(0, 0) {
      if HasLeft(c) {
        NoDeadlock(w, h, done, Left(c));
      }
      if HasUpRight(w, c) {
        NoDeadlock(w, h, done, UpRight(c));
      }
      CountIsUnblockers(w, h, c);
    }
  }

  /** For w >= 2 every cell is an ancestor of the bottom-right cell, whose
      continuation spawns `done_task_`: a chain of unblock steps leads from
      the cell to it. */
  function PathToCorner(w: int, h: int, c: Cell): (p: seq<Cell>)
    requires w >= 2 && InGrid(w, h, c)
    ensures |p| >= 1 && p[0] == c && p[|p| - 1] == Cell(w - 1, h - 1)
    ensures forall i :: 0 <= i < |p| ==> InGrid(w, h, p[i])
    ensures forall i :: 0 <= i < |p| - 1 ==> p[i + 1] in Targets(w, h, p[i])
    decreases h - c.y, w - c.x
  {
    if c.x < w - 1 then
      [c] + PathToCorner(w, h, Cell(c.x + 1, c.y))
    else if c.y < h - 1 then
      [c] + PathToCorner(w, h, Cell(c.x - 1, c.y + 1))
    else
      [c]
  }

  /** The matrix's invariant, on its state as values: the counters agree
      with the cells that have finished; a cell is spawned once exactly when
      it is the first cell or its counter is 0; `done_task_` is spawned once
      exactly when the bottom-right cell has finished; and only spawned
      cells finish. */
  ghost predicate ValidState(w: int, h: int, counts: seq<int>, spawned: seq<Spawned>, done: set<Cell>)
  {
    && w >= 1 && h >= 1
    && |counts| == w * h
    && CountsAgree(w, h, counts, done)
    && SpawnedOnce(w, h, spawned, done)
    && (forall s :: s in spawned && s.CellTask? ==> InGrid(w, h, s.cell))
    && (forall c :: c in done ==> InGrid(w, h, c) && CellTask(c) in spawned)
    && multiset(spawned)[DoneTask] == if Cell(w - 1, h - 1) in done then 1 else 0
  }

  ghost predicate CountsAgree(w: int, h: int, counts: seq<int>, done: set<Cell>)
    requires |counts| == w * h
  {
    forall c :: InGrid(w, h, c) ==> counts[Idx(w, h, c)] == Pending(w, done, c)
  }

  ghost predicate SpawnedOnce(w: int, h: int, spawned: seq<Spawned>, done: set<Cell>)
  {
    forall c :: InGrid(w, h, c) ==>
      multiset(spawned)[CellTask(c)] == if c == Cell(0, 0) || Pending(w, done, c) == 0 then 1 else 0
  }

  /** No cell task is spawned twice. */
  lemma NoCellSpawnedTwice(w: int, h: int, counts: seq<int>, spawned: seq<Spawned>, done: set<Cell>, c: Cell)
    requires ValidState(w, h, counts, spawned, done)
    ensures multiset(spawned)[CellTask(c)] <= 1
    ensures multiset(spawned)[DoneTask] <= 1
  {
    if !InGrid(w, h, c) && CellTask(c) in spawned {
      assert false;
    }
  }

  /** With w == 1 the cells below row 0 are never spawned: the demo would
      wait forever for `done_task_`. */
  lemma WidthOneNeverSpawns(h: int, counts: seq<int>, spawned: seq<Spawned>, done: set<Cell>, y: int)
    requires ValidState(1, h, counts, spawned, done) && 0 < y < h
    ensures CellTask(Cell(0, y)) !in spawned
    ensures Cell(0, y) !in done && Cell(0, h - 1) !in done
  {
    WidthOneStalls(h, done, y);
    WidthOneStalls(h, done, h - 1);
  }

  /** A spawned cell other than (0, 0) was spawned after both of its
      unblockers had finished. */
  lemma SpawnedAfterUnblockers(w: int, h: int, counts: seq<int>, spawned: seq<Spawned>, done: set<Cell>, c: Cell)
    requires ValidState(w, h, counts, spawned, done)
    requires CellTask(c) in spawned && c != Cell(0, 0)
    ensures HasLeft(c) ==> Left(c) in done
    ensures HasUpRight(w, c) ==> UpRight(c) in done
  {
    assert InGrid(w, h, c);
    ReadyOnlyAfterUnblockers(w, h, done, c);
  }

  /** `unblock_cell` on values: decrement the counter, spawn the cell when
      the old counter was 1. */
  function UnblockStep(w: int, h: int, counts: seq<int>, spawned: seq<Spawned>, d: Cell): (r: (seq<int>, seq<Spawned>))
    requires InGrid(w, h, d) && |counts| == w * h
    ensures |r.0| == |counts|
  {
    var i := Idx(w, h, d);
    (counts[i := counts[i] - 1], spawned + if counts[i] == 1 then [CellTask(d)] else [])
  }

  /** The continuation of c on values: unblock the bottom-left cell, then
      the right cell, then spawn `done_task_` when c is the last cell. */
  function ContinueStep(w: int, h: int, counts: seq<int>, spawned: seq<Spawned>, c: Cell): (r: (seq<int>, seq<Spawned>))
    requires |counts| == w * h
    requires InGrid(w, h, c)
    ensures |r.0| == |counts|
  {
    var s1 := if c.y < h - 1 && c.x > 0 then UnblockStep(w, h, counts, spawned, Cell(c.x - 1, c.y + 1)) else (counts, spawned);
    var s2 := if c.x < w - 1 then UnblockStep(w, h, s1.0, s1.1, Cell(c.x + 1, c.y)) else s1;
    (s2.0, s2.1 + if c == Cell(w - 1, h - 1) then [DoneTask] else [])
  }

  /** The counters after c's continuation: each target of c lowered by one,
      and no other counter touched. */
  lemma ContinueCounts(w: int, h: int, counts: seq<int>, spawned: seq<Spawned>, c: Cell)
    requires |counts| == w * h && InGrid(w, h, c)
    ensures var r := ContinueStep(w, h, counts, spawned, c);
      forall d :: InGrid(w, h, d) ==>
        r.0[Idx(w, h, d)] == counts[Idx(w, h, d)] - if d in Targets(w, h, c) then 1 else 0
  {
    AllIdxInjective(w, h);
  }

  /** The tasks c's continuation spawns, read off the counters before it. */
  lemma ContinueSpawns(w: int, h: int, counts: seq<int>, spawned: seq<Spawned>, c: Cell)
    requires |counts| == w * h && InGrid(w, h, c)
    ensures var r := ContinueStep(w, h, counts, spawned, c);
      var bottom := Cell(c.x - 1, c.y + 1);
      var right := Cell(c.x + 1, c.y);
      r.1 == spawned
        + (if c.y < h - 1 && c.x > 0 && counts[Idx(w, h, bottom)] == 1 then [CellTask(bottom)] else [])
        + (if c.x < w - 1 && counts[Idx(w, h, right)] == 1 then [CellTask(right)] else [])
        + (if c == Cell(w - 1, h - 1) then [DoneTask] else [])
  {
    var bottom := Cell(c.x - 1, c.y + 1);
    var right := Cell(c.x + 1, c.y);
    if c.y < h - 1 && c.x > 0 && c.x < w - 1 {
      IdxInjective(w, h, bottom, right);
    }
  }

  /** The counters after c's continuation agree with the cells finished. */
  lemma ContinueKeepsCounts(w: int, h: int, counts: seq<int>, spawned: seq<Spawned>, done: set<Cell>, c: Cell)
    requires |counts| == w * h && CountsAgree(w, h, counts, done)
    requires InGrid(w, h, c) && c !in done
    ensures CountsAgree(w, h, ContinueStep(w, h, counts, spawned, c).0, done + {c})
  {
    ContinueCounts(w, h, counts, spawned, c);
    forall d | InGrid(w, h, d)
      ensures Pending(w, done + {c}, d) == Pending(w, done, d) - (if d in Targets(w, h, c) then 1 else 0)
    {
      PendingAfter(w, h, done, c, d);
    }
  }

  /** The continuation spawns exactly the targets whose counter reaches 0. */
  lemma ContinueReleases(w: int, h: int, counts: seq<int>, spawned: seq<Spawned>, done: set<Cell>, c: Cell)
    requires |counts| == w * h && CountsAgree(w, h, counts, done)
    requires InGrid(w, h, c) && c !in done
    ensures ContinueStep(w, h, counts, spawned, c).1 == spawned + Released(w, h, done, c)
  {
    ContinueSpawns(w, h, counts, spawned, c);
    var bottom := Cell(c.x - 1, c.y + 1);
    var right := Cell(c.x + 1, c.y);
    if c.y < h - 1 && c.x > 0 {
      PendingAfter(w, h, done, c, bottom);
    }
    if c.x < w - 1 {
      PendingAfter(w, h, done, c, right);
    }
  }

  /** How often `Released` names each task. */
  lemma ReleasedOnce(w: int, h: int, done: set<Cell>, c: Cell, d: Cell)
    requires InGrid(w, h, c) && InGrid(w, h, d)
    ensures multiset(Released(w, h, done, c))[CellTask(d)]
      == if d in Targets(w, h, c) && Pending(w, done + {c}, d) == 0 then 1 else 0
    ensures multiset(Released(w, h, done, c))[DoneTask] == if c == Cell(w - 1, h - 1) then 1 else 0
    ensures forall s :: s in Released(w, h, done, c) && s.CellTask? ==> InGrid(w, h, s.cell)
  {
    ReleasedParts(w, h, done, c);
    ReleasedCellCount(w, h, done, c, d);
    ReleasedInGrid(w, h, done, c);
  }

  lemma ReleasedCellCount(w: int, h: int, done: set<Cell>, c: Cell, d: Cell)
    ensures multiset(ReleasedBottom(w, h, done, c) + ReleasedRight(w, h, done, c)
                     + (if c == Cell(w - 1, h - 1) then [DoneTask] else []))[CellTask(d)]
      == if d in Targets(w, h, c) && Pending(w, done + {c}, d) == 0 then 1 else 0
  {
    var a := ReleasedBottom(w, h, done, c);
    var b := ReleasedRight(w, h, done, c);
    var e := if c == Cell(w - 1, h - 1) then [DoneTask] else [];
    assert multiset(a + b + e) == multiset(a) + multiset(b) + multiset(e);
    assert multiset(e)[CellTask(d)] == 0;
    var hasBottom := c.y < h - 1 && c.x > 0;
    var hasRight := c.x < w - 1;
    var ts := (if hasBottom then [Cell(c.x - 1, c.y + 1)] else []) + (if hasRight then [Cell(c.x + 1, c.y)] else []);
    assert Targets(w, h, c) == ts;
    assert d in ts <==> (hasBottom && d == Cell(c.x - 1, c.y + 1)) || (hasRight && d == Cell(c.x + 1, c.y));
  }

  lemma ReleasedInGrid(w: int, h: int, done: set<Cell>, c: Cell)
    requires InGrid(w, h, c)
    ensures forall s ::
      (s in ReleasedBottom(w, h, done, c) + ReleasedRight(w, h, done, c)
         + (if c == Cell(w - 1, h - 1) then [DoneTask] else [])) && s.CellTask?
      ==> InGrid(w, h, s.cell)
  {
  }

  /** The first part of `Released`: the bottom-left cell, when its counter
      reaches 0. */
  function ReleasedBottom(w: int, h: int, done: set<Cell>, u: Cell): seq<Spawned>
  {
    if u.y < h - 1 && u.x > 0 && Pending(w, done + {u}, Cell(u.x - 1, u.y + 1)) == 0
    then [CellTask(Cell(u.x - 1, u.y + 1))] else []
  }

  /** The second part of `Released`: the right cell, when its counter
      reaches 0. */
  function ReleasedRight(w: int, h: int, done: set<Cell>, u: Cell): seq<Spawned>
  {
    if u.x < w - 1 && Pending(w, done + {u}, Cell(u.x + 1, u.y)) == 0
    then [CellTask(Cell(u.x + 1, u.y))] else []
  }

  lemma ReleasedParts(w: int, h: int, done: set<Cell>, u: Cell)
    ensures Released(w, h, done, u)
      == ReleasedBottom(w, h, done, u) + ReleasedRight(w, h, done, u)
         + (if u == Cell(w - 1, h - 1) then [DoneTask] else [])
  {
  }

  /** The spawn multiplicities after c's continuation. */
  lemma ContinueKeepsSpawnedOnce(w: int, h: int, spawned: seq<Spawned>, done: set<Cell>, c: Cell)
    requires SpawnedOnce(w, h, spawned, done)
    requires InGrid(w, h, c) && c !in done
    ensures SpawnedOnce(w, h, spawned + Released(w, h, done, c), done + {c})
  {
    forall d | InGrid(w, h, d)
      ensures multiset(spawned + Released(w, h, done, c))[CellTask(d)]
        == if d == Cell(0, 0) || Pending(w, done + {c}, d) == 0 then 1 else 0
    {
      ReleasedOnce(w, h, done, c, d);
      PendingAfter(w, h, done, c, d);
      if d in Targets(w, h, c) {
        TargetsAreUnblocked(w, h, c, d);
        PendingBound(w, h, done, d);
      }
    }
  }

  /** A continuation keeps the invariant, and it spawns exactly the targets
      whose counter reaches 0 (and `done_task_` after the last cell). */
  lemma ContinuationKeepsInvariant(w: int, h: int, counts: seq<int>, spawned: seq<Spawned>, done: set<Cell>, c: Cell,
                                   counts': seq<int>, spawned': seq<Spawned>)
    requires ValidState(w, h, counts, spawned, done)
    requires CellTask(c) in spawned && c !in done
    requires (counts', spawned') == ContinueStep(w, h, counts, spawned, c)
    ensures ValidState(w, h, counts', spawned', done + {c})
    ensures spawned' == spawned + Released(w, h, done, c)
  {
    ContinueKeepsCounts(w, h, counts, spawned, done, c);
    ContinueReleases(w, h, counts, spawned, done, c);
    ContinueKeepsSpawnedOnce(w, h, spawned, done, c);
    ReleasedOnce(w, h, done, c, c);
  }

  /** The state `start` leaves satisfies the invariant. */
  lemma InitialStateValid(w: int, h: int, counts: seq<int>)
    requires w >= 1 && h >= 1 && |counts| == w * h
    requires forall c :: InGrid(w, h, c) ==> counts[Idx(w, h, c)] == InitialCount(w, c)
    ensures ValidState(w, h, counts, [CellTask(Cell(0, 0))], {})
  {
    assert forall c :: Pending(w, {}, c) == InitialCount(w, c);
  }

  /** `process_matrix`. `cell_fun_` is the caller's and is not modelled;
      `completed` records the cells whose continuation has run. */
  class ProcessMatrix {
    var width: int
    var height: int
    var refCounts: array<int>
    var spawned: seq<Spawned>
    ghost var completed: set<Cell>

    ghost predicate Valid()
      reads this, refCounts
    {
      ValidState(width, height, refCounts[..], spawned, completed)
    }

    constructor ()
      ensures width == 0 && height == 0 && refCounts.Length == 0
      ensures spawned == [] && completed == {}
    {
      width := 0;
      height := 0;
      refCounts := new int[0];
      spawned := [];
      completed := {};
    }

    /** `start(w, h, cf, donet)`: size the counters, give each cell its
        initial count, and spawn cell (0, 0) only. */
    method Start(w: int, h: int)
      requires w >= 1 && h >= 1
      requires spawned == [] && completed == {}
      modifies this
      ensures Valid() && fresh(refCounts)
      ensures width == w && height == h && completed == {}
      ensures forall c :: InGrid(w, h, c) ==> refCounts[Idx(w, h, c)] == InitialCount(w, c)
      ensures spawned == [CellTask(Cell(0, 0))]
    {
      var counts := InitialCounts(w, h);
      width := w;
      height := h;
      refCounts := counts;
      spawned := [CellTask(Cell(0, 0))];
      InitialStateValid(w, h, counts[..]);
    }

    /** The nested loops of `start` that fill the counters, on a fresh
        vector of `h * w` elements. */
    static method InitialCounts(w: int, h: int) returns (counts: array<int>)
      requires w >= 1 && h >= 1
      ensures fresh(counts) && counts.Length == w * h
      ensures forall c :: InGrid(w, h, c) ==> counts[Idx(w, h, c)] == InitialCount(w, c)
    {
      MulMonotone(0, h, w);
      counts := new int[h * w];
      AllIdxInjective(w, h);
      var y := 0;
      while y < h
        invariant 0 <= y <= h
        invariant forall c :: InGrid(w, h, c) && c.y < y ==> counts[Idx(w, h, c)] == InitialCount(w, c)
      {
        var x := 0;
        while x < w
          invariant 0 <= x <= w
          invariant forall c :: InGrid(w, h, c) && (c.y < y || (c.y == y && c.x < x)) ==>
            counts[Idx(w, h, c)] == InitialCount(w, c)
        {
          counts[Idx(w, h, Cell(x, y))] := if x == 0 || y == 0 || x == w - 1 then 1 else 2;
          x := x + 1;
        }
        y := y + 1;
      }
    }

    /** `unblock_cell(x, y)`: decrement the cell's counter and spawn the
        cell exactly when the old value was 1. */
    method UnblockCell(c: Cell)
      requires InGrid(width, height, c) && refCounts.Length == width * height
      modifies refCounts, this`spawned
      ensures refCounts[..] == UnblockStep(width, height, old(refCounts[..]), old(spawned), c).0
      ensures spawned == UnblockStep(width, height, old(refCounts[..]), old(spawned), c).1
    {
      var idx := c.y * width + c.x;
      assert idx == Idx(width, height, c);
      var before := refCounts[idx];
      refCounts[idx] := before - 1;
      if before == 1 {
        spawned := spawned + [CellTask(c)];
      }
    }

    /** The continuation of cell c's task: unblock the bottom-left cell,
        then the right cell, then spawn `done_task_` if c is the last cell. */
    method CellContinuation(c: Cell)
      requires InGrid(width, height, c) && refCounts.Length == width * height
      modifies refCounts, this`spawned
      ensures refCounts[..] == ContinueStep(width, height, old(refCounts[..]), old(spawned), c).0
      ensures spawned == ContinueStep(width, height, old(refCounts[..]), old(spawned), c).1
    {
      ghost var counts0, spawned0 := refCounts[..], spawned;
      ghost var s1 := if c.y < height - 1 && c.x > 0
        then UnblockStep(width, height, counts0, spawned0, Cell(c.x - 1, c.y + 1)) else (counts0, spawned0);
      if c.y < height - 1 && c.x > 0 {
        UnblockCell(Cell(c.x - 1, c.y + 1));
      }
      assert refCounts[..] == s1.0 && spawned == s1.1;
      if c.x < width - 1 {
        UnblockCell(Cell(c.x + 1, c.y));
      }
      if c.y == height - 1 && c.x == width - 1 {
        spawned := spawned + [DoneTask];
      }
    }

    /** The base executor running the continuation of a spawned cell that
        has not finished yet: the invariant holds after it, and exactly the
        cells whose counter reached 0 (and `done_task_` after the last cell)
        were spawned. */
    method RunContinuation(c: Cell)
      requires Valid() && CellTask(c) in spawned && c !in completed
      modifies this, refCounts
      ensures Valid()
      ensures width == old(width) && height == old(height) && refCounts == old(refCounts)
      ensures completed == old(completed) + {c}
      ensures spawned == old(spawned) + Released(width, height, old(completed), c)
    {
      ghost var counts0, spawned0, done0 := refCounts[..], spawned, completed;
      assert InGrid(width, height, c);
      CellContinuation(c);
      completed := completed + {c};
      ContinuationKeepsInvariant(width, height, counts0, spawned0, done0, c, refCounts[..], spawned);
    }
  }

  /** `my_matrix`: the demo's record of finished cells. */
  class MyMatrix {
    const width: int
    const height: int
    const doneBlocks: array<int>

    /** `my_matrix(w, h)`: `w * h` cells, none done. */
    constructor (w: int, h: int)
      requires w >= 0 && h >= 0
      ensures width == w && height == h && doneBlocks.Length == w * h
      ensures forall i :: 0 <= i < doneBlocks.Length ==> doneBlocks[i] == 0
    {
      width := w;
      height := h;
      MulMonotone(0, h, w);
      doneBlocks := new int[w * h](_ => 0);
    }

    /** `set_done(x, y)`: marks exactly the cell's element, which lies
        inside the vector for a cell of the grid. */
    method SetDone(x: int, y: int)
      requires InGrid(width, height, Cell(x, y)) && doneBlocks.Length == width * height
      modifies doneBlocks
      ensures doneBlocks[Idx(width, height, Cell(x, y))] == 1
      ensures forall i :: 0 <= i < doneBlocks.Length && i != Idx(width, height, Cell(x, y)) ==>
        doneBlocks[i] == old(doneBlocks[i])
    {
      assert y * width + x == Idx(width, height, Cell(x, y));
      doneBlocks[y * width + x] := 1;
    }
  }
}
