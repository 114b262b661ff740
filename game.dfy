/** The simulation: the play/pause flag, Conway's B3/S23 transition rule, the
    per-frame generation step over a snapshot of the board, the click handler
    and the start-up board. The board is an array of cells in row-major order:
    the cell at index i has the position PositionAt(i, SIZE). */
module Game {
  import opened Cells
  import opened Topology
  import opened StepClock

  /** Side of the square board and number of cells on it. */
  const SIZE: int := 50
  const SIZE_CNT: int := 2500

  /** The `Playing` resource: whether generations advance. */
  class Playing {
    var on: bool

    /** Inserted as `Playing(false)`. */
    constructor ()
      ensures !on
    {
      on := false;
    }

    /** `Playing::toggle`. */
    method Toggle()
      modifies this
      ensures on == !old(on)
    {
      on := !on;
    }
  }

  // ---------------------------------------------------------------------
  // Transition rule

  /** Conway's rule B3/S23: a cell is alive in the next generation when it
      has 3 live neighbours, or is alive now and has 2. */
  predicate BornOrSurvives(s: CellState, aliveNeighbours: nat)
  {
    aliveNeighbours == 3 || (s == Alive && aliveNeighbours == 2)
  }

  /** The rule as the source applies it: a live cell without 2 or 3 live
      neighbours is toggled, a dead cell with exactly 3 is toggled. */
  function Transition(c: Cell, aliveNeighbours: nat): (r: Cell)
    ensures r.state == Alive <==> BornOrSurvives(c.state, aliveNeighbours)
  {
    match c.state
    case Alive => if aliveNeighbours == 2 || aliveNeighbours == 3 then c else c.Toggle()
    case Dead => if aliveNeighbours == 3 then c.Toggle() else c
  }

  /** The rule, case by case. */
  lemma TransitionTable(n: nat)
    ensures Transition(Cell(Dead), 3) == Cell(Alive)
    ensures n != 3 ==> Transition(Cell(Dead), n) == Cell(Dead)
    ensures Transition(Cell(Alive), 2) == Cell(Alive) && Transition(Cell(Alive), 3) == Cell(Alive)
    ensures n != 2 && n != 3 ==> Transition(Cell(Alive), n) == Cell(Dead)
  {
  }

  // ---------------------------------------------------------------------
  // Reference definition of a generation

  /** 1 when q is on the board and alive in g, else 0. */
  function LiveAt(g: seq<Cell>, q: Position): (n: nat)
    requires |g| == SIZE_CNT
  {
    if InRange(q, SIZE) && g[RowMajor(q, SIZE)].state == Alive then 1 else 0
  }

  /** The number of live cells among the eight surrounding p in g. */
  function LiveNeighbours(g: seq<Cell>, p: Position): (n: nat)
    requires |g| == SIZE_CNT
    ensures n <= 8
  {
    LiveAt(g, Position(p.x - 1, p.y - 1)) + LiveAt(g, Position(p.x, p.y - 1)) + LiveAt(g, Position(p.x + 1, p.y - 1))
    + LiveAt(g, Position(p.x - 1, p.y)) + LiveAt(g, Position(p.x + 1, p.y))
    + LiveAt(g, Position(p.x - 1, p.y + 1)) + LiveAt(g, Position(p.x, p.y + 1)) + LiveAt(g, Position(p.x + 1, p.y + 1))
  }

  /** The next generation of g: every cell follows B3/S23 on its neighbours in g. */
  function NextGeneration(g: seq<Cell>): (h: seq<Cell>)
    requires |g| == SIZE_CNT
    ensures |h| == SIZE_CNT
  {
    seq(SIZE_CNT, i requires 0 <= i < SIZE_CNT =>
      Cell(if BornOrSurvives(g[i].state, LiveNeighbours(g, PositionAt(i, SIZE))) then Alive else Dead))
  }

  /** How many positions of s are live cells of g. */
  function CountAlive(g: seq<Cell>, s: seq<Position>): (n: nat)
    requires |g| == SIZE_CNT
  {
    if s == [] then 0 else CountAlive(g, s[..|s| - 1]) + LiveAt(g, s[|s| - 1])
  }

  /** Counting over s extended by q adds q's live count. */
  lemma CountAliveSnoc(g: seq<Cell>, s: seq<Position>, q: Position)
    requires |g| == SIZE_CNT
    ensures CountAlive(g, s + [q]) == CountAlive(g, s) + LiveAt(g, q)
  {
    assert (s + [q])[..|s|] == s;
  }

  /** Filtering out the off-board positions does not change the count. */
  lemma {:induction false} CountAliveOnBoard(g: seq<Cell>, s: seq<Position>)
    requires |g| == SIZE_CNT
    ensures CountAlive(g, OnBoard(s, SIZE)) == CountAlive(g, s)
  {
    if s != [] {
      var init, last := s[..|s| - 1], s[|s| - 1];
      CountAliveOnBoard(g, init);
      assert OnBoard(s, SIZE) == OnBoard(init, SIZE) + Kept(last, SIZE);
      if InRange(last, SIZE) {
        CountAliveSnoc(g, OnBoard(init, SIZE), last);
      } else {
        assert OnBoard(init, SIZE) + [] == OnBoard(init, SIZE);
      }
    }
  }

  /** Counting over eight appended positions, one by one. */
  lemma CountAliveEight(g: seq<Cell>, q0: Position, q1: Position, q2: Position, q3: Position,
                        q4: Position, q5: Position, q6: Position, q7: Position)
    requires |g| == SIZE_CNT
    ensures CountAlive(g, [q0] + [q1] + [q2] + [q3] + [q4] + [q5] + [q6] + [q7])
         == LiveAt(g, q0) + LiveAt(g, q1) + LiveAt(g, q2) + LiveAt(g, q3)
          + LiveAt(g, q4) + LiveAt(g, q5) + LiveAt(g, q6) + LiveAt(g, q7)
  {
    var s := [q0];
    CountAliveSnoc(g, [], q0);
    assert [] + [q0] == s;
    var n := CountAlive(g, s);
    assert n == LiveAt(g, q0);
    CountAliveSnoc(g, s, q1);
    n, s := n + LiveAt(g, q1), s + [q1];
    assert CountAlive(g, s) == n;
    CountAliveSnoc(g, s, q2);
    n, s := n + LiveAt(g, q2), s + [q2];
    assert CountAlive(g, s) == n;
    CountAliveSnoc(g, s, q3);
    n, s := n + LiveAt(g, q3), s + [q3];
    assert CountAlive(g, s) == n;
    CountAliveSnoc(g, s, q4);
    n, s := n + LiveAt(g, q4), s + [q4];
    assert CountAlive(g, s) == n;
    CountAliveSnoc(g, s, q5);
    n, s := n + LiveAt(g, q5), s + [q5];
    assert CountAlive(g, s) == n;
    CountAliveSnoc(g, s, q6);
    n, s := n + LiveAt(g, q6), s + [q6];
    assert CountAlive(g, s) == n;
    CountAliveSnoc(g, s, q7);
  }

  /** Counting over all eight surrounding positions gives the live-neighbour count. */
  lemma CountAliveCandidates(g: seq<Cell>, p: Position)
    requires |g| == SIZE_CNT
    ensures CountAlive(g, Candidates(p)) == LiveNeighbours(g, p)
  {
    CountAliveEight(g, Position(p.x - 1, p.y - 1), Position(p.x, p.y - 1), Position(p.x + 1, p.y - 1),
      Position(p.x - 1, p.y), Position(p.x + 1, p.y),
      Position(p.x - 1, p.y + 1), Position(p.x, p.y + 1), Position(p.x + 1, p.y + 1));
  }

  /** Counting over the neighbour list gives the live-neighbour count. */
  lemma CountAliveMoore(g: seq<Cell>, p: Position)
    requires |g| == SIZE_CNT
    ensures CountAlive(g, MooreNeighbours(p, SIZE)) == LiveNeighbours(g, p)
  {
    CountAliveOnBoard(g, Candidates(p));
    CountAliveCandidates(g, p);
  }

  // ---------------------------------------------------------------------
  // The generation step

  /** An on-board position resolves to an index of the board, and its
      live count is read at that index. */
  lemma ResolveOnBoard(g: seq<Cell>, q: Position)
    requires |g| == SIZE_CNT && InRange(q, SIZE)
    ensures 0 <= RowMajor(q, SIZE) < SIZE_CNT
    ensures ToIndex(q, SIZE, SIZE_CNT) == Some(RowMajor(q, SIZE))
    ensures LiveAt(g, q) == if g[RowMajor(q, SIZE)].state == Alive then 1 else 0
  {
    assert RowMajor(q, SIZE) == 50 * q.y + q.x;
  }

  /** The neighbour-counting loop of `step`: every position of ns is
      resolved with `to_index` and looked up in the snapshot. Both defensive
      branches ("This should not happen") are proved unreachable for
      on-board positions. */
  method CountLiveIn(snapshot: seq<Cell>, ns: seq<Position>) returns (count: nat)
    requires |snapshot| == SIZE_CNT
    requires forall q <- ns :: InRange(q, SIZE)
    ensures count == CountAlive(snapshot, ns)
  {
    count := 0;
    for k := 0 to |ns|
      invariant count == CountAlive(snapshot, ns[..k])
    {
      var q := ns[k];
      assert q in ns;
      ResolveOnBoard(snapshot, q);
      CountAliveSnoc(snapshot, ns[..k], q);
      assert ns[..k + 1] == ns[..k] + [q];
      match ToIndex(q, SIZE, SIZE_CNT)
      case Some(i) =>
        if 0 <= i < |snapshot| {
          if snapshot[i].state == Alive {
            count := count + 1;
          }
        } else {
          assert false;
        }
      case None =>
        assert false;
    }
    assert ns[..|ns|] == ns;
  }

  /** The live-neighbour count of the cell at p, as `step` computes it:
      the neighbour list of p, counted in the snapshot. */
  method AliveNeighbours(snapshot: seq<Cell>, p: Position) returns (count: nat)
    requires |snapshot| == SIZE_CNT && InRange(p, SIZE)
    ensures count == LiveNeighbours(snapshot, p)
  {
    var ns := NeighborCoords(p, SIZE);
    MooreNeighboursMembers(p, SIZE);
    count := CountLiveIn(snapshot, ns);
    CountAliveMoore(snapshot, p);
  }

  /** The first pass of `step`: a copy of every cell, in index order. */
  method Snapshot(cells: array<Cell>) returns (snapshot: seq<Cell>)
    ensures snapshot == cells[..]
  {
    snapshot := [];
    for i := 0 to cells.Length
      invariant snapshot == cells[..i]
    {
      snapshot := snapshot + [cells[i]];
    }
    assert cells[..cells.Length] == cells[..];
  }

  /** The rule applied to cell i of g is cell i of the next generation. */
  lemma TransitionIsNextGeneration(g: seq<Cell>, i: int)
    requires |g| == SIZE_CNT && 0 <= i < SIZE_CNT
    ensures Transition(g[i], LiveNeighbours(g, PositionAt(i, SIZE))) == NextGeneration(g)[i]
  {
  }

  /** The second pass of `step`: visiting the cells in `order`, every cell
      is replaced by the rule applied to its state and its live neighbours in
      the snapshot. Since only the snapshot is read, the cells visited so
      far do not influence the rest. */
  method ApplyRule(cells: array<Cell>, positions: seq<Position>, snapshot: seq<Cell>, order: seq<int>)
    requires cells.Length == SIZE_CNT && snapshot == cells[..]
    requires |positions| == SIZE_CNT && forall i :: 0 <= i < SIZE_CNT ==> positions[i] == PositionAt(i, SIZE)
    requires forall k :: 0 <= k < |order| ==> 0 <= order[k] < SIZE_CNT
    requires forall a, b :: 0 <= a < b < |order| ==> order[a] != order[b]
    requires forall i :: 0 <= i < SIZE_CNT ==> i in order
    modifies cells
    ensures cells[..] == NextGeneration(snapshot)
  {
    ghost var next := NextGeneration(snapshot);
    ghost var visited: set<int> := {};
    for k := 0 to |order|
      invariant forall j {:trigger cells[j]} :: 0 <= j < SIZE_CNT ==> cells[j] == if j in visited then next[j] else snapshot[j]
      invariant forall m :: 0 <= m < k ==> order[m] in visited
      invariant forall m :: k <= m < |order| ==> order[m] !in visited
    {
      var idx := order[k];
      RowMajorRoundTrip(idx, SIZE);
      var count := AliveNeighbours(snapshot, positions[idx]);
      TransitionIsNextGeneration(snapshot, idx);
      cells[idx] := Transition(cells[idx], count);
      visited := visited + {idx};
    }
    forall j | 0 <= j < SIZE_CNT
      ensures cells[j] == next[j]
    {
      assert j in order;
      var m :| 0 <= m < |order| && order[m] == j;
    }
    assert cells[..] == next;
  }

  /** `step`, one frame. The first pass copies every cell into the snapshot.
      Unless playing, nothing else happens (and the timer is not advanced).
      When playing, the timer is advanced, and if a period has just finished
      the second pass replaces every cell by the rule applied to its own
      state and its live neighbours in the snapshot. The second pass visits
      the cells in `order`, any order that visits every cell once; the
      result is the same for all of them. `positions` are the cells'
      Position components, as spawned. */
  method Step(cells: array<Cell>, positions: seq<Position>, timer: StepTimer, playing: Playing,
              fired: bool, order: seq<int>)
    requires cells.Length == SIZE_CNT
    requires |positions| == SIZE_CNT && forall i :: 0 <= i < SIZE_CNT ==> positions[i] == PositionAt(i, SIZE)
    requires forall k :: 0 <= k < |order| ==> 0 <= order[k] < SIZE_CNT
    requires forall a, b :: 0 <= a < b < |order| ==> order[a] != order[b]
    requires forall i :: 0 <= i < SIZE_CNT ==> i in order
    modifies cells, timer`ticks
    ensures timer.ticks == old(timer.ticks) + (if playing.on then 1 else 0)
    ensures cells[..] == if playing.on && fired then NextGeneration(old(cells[..])) else old(cells[..])
  {
    var snapshot := Snapshot(cells);
    if !playing.on {
      return;
    }
    var finished := timer.Tick(fired);
    if !finished {
      return;
    }
    ApplyRule(cells, positions, snapshot, order);
  }

  /** No life comes from nothing: an all-dead board stays all dead. */
  lemma AllDeadIsStable()
    ensures NextGeneration(seq(SIZE_CNT, _ => Cell(Dead))) == seq(SIZE_CNT, _ => Cell(Dead))
  {
    var g := seq(SIZE_CNT, _ => Cell(Dead));
    forall i | 0 <= i < SIZE_CNT
      ensures NextGeneration(g)[i] == g[i]
    {
      assert LiveNeighbours(g, PositionAt(i, SIZE)) == 0;
    }
  }

  predicate InBlock(x0: int, y0: int, x: int, y: int)
  {
    x0 <= x <= x0 + 1 && y0 <= y <= y0 + 1
  }

  /** The board whose only live cells form the 2x2 block with top-left corner (x0, y0). */
  function Block(x0: int, y0: int): (g: seq<Cell>)
    ensures |g| == SIZE_CNT
  {
    seq(SIZE_CNT, i => Cell(if InBlock(x0, y0, i % SIZE, i / SIZE) then Alive else Dead))
  }

  lemma LiveAtBlock(x0: int, y0: int, x: int, y: int)
    requires 0 <= x0 < SIZE - 1 && 0 <= y0 < SIZE - 1
    ensures LiveAt(Block(x0, y0), Position(x, y)) == InBlockCount(x0, y0, x, y)
  {
    if InRange(Position(x, y), SIZE) {
      PositionAtRowMajor(Position(x, y), SIZE);
    }
  }

  /** 1 for a cell of the block, else 0. */
  function InBlockCount(x0: int, y0: int, x: int, y: int): (n: nat)
  {
    (if InBlock(x0, y0, x, y) then 1 else 0)
  }

  /** A cell of the block has 3 of its neighbours in the block; a cell outside
      it has at most 2. */
  lemma BlockNeighbourCount(x0: int, y0: int, x: int, y: int)
    ensures var n := InBlockCount(x0, y0, x - 1, y - 1) + InBlockCount(x0, y0, x, y - 1) + InBlockCount(x0, y0, x + 1, y - 1)
                   + InBlockCount(x0, y0, x - 1, y) + InBlockCount(x0, y0, x + 1, y)
                   + InBlockCount(x0, y0, x - 1, y + 1) + InBlockCount(x0, y0, x, y + 1) + InBlockCount(x0, y0, x + 1, y + 1);
            (InBlock(x0, y0, x, y) ==> n == 3) && (!InBlock(x0, y0, x, y) ==> n <= 2)
  {
  }

  /** Each cell of a block board keeps its state. */
  lemma BlockCellIsStable(x0: int, y0: int, i: int)
    requires 0 <= x0 < SIZE - 1 && 0 <= y0 < SIZE - 1 && 0 <= i < SIZE_CNT
    ensures NextGeneration(Block(x0, y0))[i] == Block(x0, y0)[i]
  {
    var p := PositionAt(i, SIZE);
    var x, y := p.x, p.y;
    LiveAtBlock(x0, y0, x - 1, y - 1);
    LiveAtBlock(x0, y0, x, y - 1);
    LiveAtBlock(x0, y0, x + 1, y - 1);
    LiveAtBlock(x0, y0, x - 1, y);
    LiveAtBlock(x0, y0, x + 1, y);
    LiveAtBlock(x0, y0, x - 1, y + 1);
    LiveAtBlock(x0, y0, x, y + 1);
    LiveAtBlock(x0, y0, x + 1, y + 1);
    BlockNeighbourCount(x0, y0, x, y);
  }

  /** A 2x2 block anywhere on the board is a still life. */
  lemma BlockIsStable(x0: int, y0: int)
    requires 0 <= x0 < SIZE - 1 && 0 <= y0 < SIZE - 1
    ensures NextGeneration(Block(x0, y0)) == Block(x0, y0)
  {
    forall i | 0 <= i < SIZE_CNT
      ensures NextGeneration(Block(x0, y0))[i] == Block(x0, y0)[i]
    {
      BlockCellIsStable(x0, y0, i);
    }
  }

  // ---------------------------------------------------------------------
  // Clicks

  /** How many of the events target cell i. */
  function Occurrences(events: seq<int>, i: int): (n: nat)
  {
    if events == [] then 0
    else Occurrences(events[..|events| - 1], i) + (if events[|events| - 1] == i then 1 else 0)
  }

  /** c toggled n times. */
  function ToggledTimes(c: Cell, n: nat): (r: Cell)
    ensures r.state == c.state <==> n % 2 == 0
  {
    if n % 2 == 1 then c.Toggle() else c
  }

  /** `clicked_on_cell`: every event whose target is a cell toggles that
      cell; an event whose target does not resolve changes nothing. Events
      are handled in order. */
  method ClickedOnCell(cells: array<Cell>, events: seq<int>)
    modifies cells
    ensures forall i :: 0 <= i < cells.Length ==> cells[i] == ToggledTimes(old(cells[i]), Occurrences(events, i))
  {
    for k := 0 to |events|
      invariant forall i :: 0 <= i < cells.Length ==> cells[i] == ToggledTimes(old(cells[i]), Occurrences(events[..k], i))
    {
      var e := events[k];
      assert events[..k + 1][..k] == events[..k];
      if 0 <= e < cells.Length {
        ToggleIsInvolution(old(cells[e]));
        cells[e] := cells[e].Toggle();
      }
    }
    assert events[..|events|] == events;
  }

  lemma {:induction false} OccurrencesAppend(s: seq<int>, t: seq<int>, i: int)
    ensures Occurrences(s + t, i) == Occurrences(s, i) + Occurrences(t, i)
    decreases |t|
  {
    if t == [] {
      assert s + t == s;
    } else {
      var u := t[..|t| - 1];
      assert (s + t)[..|s + t| - 1] == s + u;
      OccurrencesAppend(s, u, i);
    }
  }

  /** A single event targets only its own cell, once. */
  lemma OccurrencesSingle(e: int, i: int)
    ensures Occurrences([e], i) == if e == i then 1 else 0
  {
    assert [e][..0] == [];
  }

  /** A single click toggles its own target and no other cell. */
  lemma SingleClickTogglesTarget(c: Cell, e: int, i: int)
    ensures ToggledTimes(c, Occurrences([e], i)) == if e == i then c.Toggle() else c
  {
    OccurrencesSingle(e, i);
  }

  /** Two more clicks on the same target leave every cell as it was. */
  lemma DoubleClickCancels(c: Cell, events: seq<int>, e: int, i: int)
    ensures ToggledTimes(c, Occurrences(events + [e, e], i)) == ToggledTimes(c, Occurrences(events, i))
  {
    OccurrencesAppend(events, [e, e], i);
    OccurrencesSingle(e, i);
    assert [e, e][..1] == [e];
    assert Occurrences([e, e], i) == if e == i then 2 else 0;
  }

  // ---------------------------------------------------------------------
  // Start-up

  /** `spawn_cells`: one dead cell per position, rows (y) outer and columns
      (x) inner, so the k-th spawned cell has position PositionAt(k, SIZE). */
  method SpawnCells() returns (cells: array<Cell>, positions: seq<Position>)
    ensures fresh(cells) && cells.Length == SIZE_CNT
    ensures forall i :: 0 <= i < SIZE_CNT ==> cells[i] == Cell(Dead)
    ensures |positions| == SIZE_CNT
    ensures forall i :: 0 <= i < SIZE_CNT ==> positions[i] == PositionAt(i, SIZE)
    ensures forall i :: 0 <= i < SIZE_CNT ==> ToIndex(positions[i], SIZE, SIZE_CNT) == Some(i)
  {
    cells := new Cell[SIZE_CNT];
    positions := [];
    for y := 0 to SIZE
      invariant |positions| == SIZE * y
      invariant forall i :: 0 <= i < |positions| ==> positions[i] == PositionAt(i, SIZE) && cells[i] == Cell(Dead)
    {
      for x := 0 to SIZE
        invariant |positions| == SIZE * y + x
        invariant forall i :: 0 <= i < |positions| ==> positions[i] == PositionAt(i, SIZE) && cells[i] == Cell(Dead)
      {
        // the initial draw is Alive with probability 0.0
        var cellState := Dead;
        PositionAtRowMajor(Position(x, y), SIZE);
        cells[|positions|] := Cell(cellState);
        positions := positions + [Position(x, y)];
      }
    }
    forall i | 0 <= i < SIZE_CNT
      ensures ToIndex(positions[i], SIZE, SIZE_CNT) == Some(i)
    {
      RowMajorRoundTrip(i, SIZE);
    }
  }

  /** The start-up state: an all-dead board, paused, at one step per second. */
  method Startup() returns (cells: array<Cell>, positions: seq<Position>, playing: Playing, timer: StepTimer)
    ensures fresh(cells) && fresh(playing) && fresh(timer)
    ensures cells.Length == SIZE_CNT && forall i :: 0 <= i < SIZE_CNT ==> cells[i] == Cell(Dead)
    ensures |positions| == SIZE_CNT && forall i :: 0 <= i < SIZE_CNT ==> positions[i] == PositionAt(i, SIZE)
    ensures !playing.on
    ensures timer.Valid() && timer.stepsPerSecond == 1 && timer.durationMs == 1000 && timer.ticks == 0
  {
    playing := new Playing();
    timer := new StepTimer(1);
    cells, positions := SpawnCells();
  }

  // ---------------------------------------------------------------------
  // Client examples

  /** Play, one frame without an elapsed period, pause, one more frame: the
      board is as before and the timer was advanced once. */
  method PausePlayPauseKeepsBoard(cells: array<Cell>, positions: seq<Position>, timer: StepTimer, playing: Playing,
                                  fired: bool, order: seq<int>)
    requires cells.Length == SIZE_CNT
    requires |positions| == SIZE_CNT && forall i :: 0 <= i < SIZE_CNT ==> positions[i] == PositionAt(i, SIZE)
    requires forall k :: 0 <= k < |order| ==> 0 <= order[k] < SIZE_CNT
    requires forall a, b :: 0 <= a < b < |order| ==> order[a] != order[b]
    requires forall i :: 0 <= i < SIZE_CNT ==> i in order
    requires !playing.on
    modifies cells, timer`ticks, playing
    ensures cells[..] == old(cells[..]) && !playing.on
    ensures timer.ticks == old(timer.ticks) + 1 && timer.stepsPerSecond == old(timer.stepsPerSecond)
    ensures timer.durationMs == old(timer.durationMs)
  {
    playing.Toggle();
    Step(cells, positions, timer, playing, false, order);
    playing.Toggle();
    Step(cells, positions, timer, playing, fired, order);
  }

  /** A session on the start-up board: a click on cell 0 makes exactly that
      cell alive, and a second click on it (with a click outside the board)
      makes the board all dead again. On the start-up timer, `dec` keeps the
      rate at 1 and the period at 1000 ms; nine `inc`s reach the fastest rate
      512, and a tenth leaves it at 512 with a period of 1 ms. */
  method FreshSession() returns (afterOne: seq<Cell>, afterTwo: seq<Cell>, slowPeriod: nat, fastRate: nat, fastPeriod: nat)
    ensures afterOne == seq(SIZE_CNT, i => if i == 0 then Cell(Alive) else Cell(Dead))
    ensures afterTwo == seq(SIZE_CNT, _ => Cell(Dead))
    ensures slowPeriod == 1000
    ensures fastRate == MaxRate && fastPeriod == 1
  {
    var cells, positions, playing, timer := Startup();
    ClickedOnCell(cells, [0]);
    forall i | 0 <= i < SIZE_CNT
      ensures cells[i] == if i == 0 then Cell(Alive) else Cell(Dead)
    {
      OccurrencesSingle(0, i);
    }
    afterOne := cells[..];
    ClickedOnCell(cells, [0, -1]);
    forall i | 0 <= i < SIZE_CNT
      ensures cells[i] == Cell(Dead)
    {
      assert [0, -1][..1] == [0];
      OccurrencesSingle(0, i);
    }
    afterTwo := cells[..];
    timer.Dec();
    assert timer.stepsPerSecond == 1;
    slowPeriod := timer.durationMs;
    timer.Inc(); timer.Inc(); timer.Inc(); timer.Inc(); timer.Inc();
    assert timer.stepsPerSecond == 32 && timer.durationMs == 31;
    timer.Inc(); timer.Inc(); timer.Inc(); timer.Inc();
    assert timer.stepsPerSecond == 512;
    timer.Inc();
    fastRate, fastPeriod := timer.stepsPerSecond, timer.durationMs;
  }
}
