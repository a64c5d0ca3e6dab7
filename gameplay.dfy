/**
 * src/ecs/systems/gameplay.rs: the game of life as the running game plays it. The world is a
 * slice of rows of `Entity` objects, indexed `[x][y]`; a generation step counts each cell's
 * live neighbours on the torus and rewrites every entity's state in place, and the gameplay
 * object keeps the editing state (drag selection, a pending prefab, a pending resize).
 */
module GameplaySystem {
  import opened Wrappers
  import opened Entities
  import opened Grid
  import opened Vec2Ints
  import opened Sequences
  import opened KeyBuffers
  import ComponentsUserInput

  /** src/ecs/systems/prefabs.rs: the names under which the prefab catalogue stores its patterns. */
  datatype Prefab = Glider | SmallExploder | Exploder | Spaceship | Tumbler | GliderGun

  /** The bits of `GameplayFlags`. */
  datatype GameplayFlag = Resize

  /** The grid as `&[Vec<Entity>]` reads it: rows of entities indexed `[x][y]`. */
  type Rows = seq<seq<Entity>>

  /** The grid as `&mut [Vec<Entity>]` holds it: a slice of rows updated in place. */
  type World = array<seq<Entity>>

  type Pattern = seq<seq<State>>

  /** The states of one row of entities, in order. */
  function RowStates(row: seq<Entity>): (r: seq<State>)
    ensures |r| == |row| && forall j :: 0 <= j < |row| ==> r[j] == row[j].state
  {
    if row == [] then [] else RowStates(row[..|row| - 1]) + [row[|row| - 1].state]
  }

  /** The cell states of the grid, in the same layout. */
  function States(rows: Rows): (g: Pattern)
    ensures |g| == |rows| && forall i :: 0 <= i < |rows| ==> g[i] == RowStates(rows[i])
  {
    if rows == [] then [] else States(rows[..|rows| - 1]) + [RowStates(rows[|rows| - 1])]
  }

  /** Every entity of the grid holds the state at its position in `g`. */
  predicate HasStates(rows: Rows, g: Pattern) {
    |g| == |rows| && (forall i :: 0 <= i < |rows| ==> |g[i]| == |rows[i]|) &&
    forall i, j :: 0 <= i < |rows| && 0 <= j < |rows[i]| ==> rows[i][j].state == g[i][j]
  }

  /** The states of the grid are `g` exactly when they agree with it cell by cell. */
  lemma StatesAre(rows: Rows, g: Pattern)
    ensures States(rows) == g <==> HasStates(rows, g)
  {
    if HasStates(rows, g) {
      var s := States(rows);
      forall i | 0 <= i < |rows|
        ensures s[i] == g[i]
      {
      }
    }
  }

  /** `after` has the rows, row lengths and entity positions of `before`; only states may differ. */
  predicate SameLayout(before: Rows, after: Rows) {
    |after| == |before| && (forall i :: 0 <= i < |before| ==> |after[i]| == |before[i]|) &&
    forall i, j :: 0 <= i < |before| && 0 <= j < |before[i]| ==> after[i][j].position == before[i][j].position
  }

  /**
   * `get_entity`: the element one probe away from `pos`. x wraps over the number of rows, y over
   * the length of the first row, and the vertical move is reversed. On the torus this is the
   * element at `pos` plus the probe's offset, both coordinates taken around the grid's dimensions.
   */
  function GetEntity<T>(entities: seq<seq<T>>, pos: (nat, nat), horizontalMove: Move, verticalMove: Move): (e: T)
    requires Rectangular(entities) && pos.0 < |entities| && pos.1 < |entities[0]|
    ensures e == entities[Torus(pos.0 + Delta(horizontalMove), |entities|)][Torus(pos.1 + Delta(Reverse(verticalMove)), |entities[0]|)]
  {
    WrapIsModular(pos.0, horizontalMove, |entities|);
    WrapIsModular(pos.1, Reverse(verticalMove), |entities[0]|);
    var x := Wrap(pos.0, horizontalMove, |entities|);
    var y := Wrap(pos.1, Reverse(verticalMove), |entities[0]|);
    entities[x][y]
  }

  /** `entity_is_alive`: whether the probed neighbour is alive, i.e. counts 1 in the reference count. */
  function EntityIsAlive(entities: Rows, pos: (nat, nat), horizontalMove: Move, verticalMove: Move): (alive: bool)
    requires Rectangular(entities) && pos.0 < |entities| && pos.1 < |entities[0]|
    ensures alive <==> GetEntity(States(entities), pos, horizontalMove, verticalMove) == Alive
  {
    var entity := GetEntity(entities, pos, horizontalMove, verticalMove);
    entity.state == Alive
  }

  /** The (x, y) offset a gameplay probe reaches: the vertical move is applied reversed. */
  function ProbeOffset(probe: (Move, Move)): (int, int) {
    (Delta(probe.0), Delta(Reverse(probe.1)))
  }

  /** The same probe read without the reversal. */
  function PlainOffset(probe: (Move, Move)): (int, int) {
    (Delta(probe.0), Delta(probe.1))
  }

  /** The offsets the first k probes of `set_rules` reach, in probing order. */
  function ProbedUpTo(k: nat): (r: seq<(int, int)>)
    requires k <= ProbeCount
    ensures |r| == k
  {
    if k == 0 then [] else ProbedUpTo(k - 1) + [ProbeOffset(SourceProbe(k - 1))]
  }

  /** The same probes read without the vertical reversal. */
  function PlainUpTo(k: nat): (r: seq<(int, int)>)
    requires k <= ProbeCount
    ensures |r| == k
  {
    if k == 0 then [] else PlainUpTo(k - 1) + [PlainOffset(SourceProbe(k - 1))]
  }

  /** The eight probes of `set_rules` reach every Moore offset exactly once. */
  lemma ProbesCoverMoore()
    ensures NoDuplicates(ProbedUpTo(ProbeCount))
    ensures forall o :: o in ProbedUpTo(ProbeCount) <==> IsNeighbourOffset(o)
    ensures multiset(ProbedUpTo(ProbeCount)) == multiset(Moore)
  {
    var probed := ProbedUpTo(ProbeCount);
    assert probed == [(-1, -1), (0, -1), (1, -1), (1, 0), (1, 1), (0, 1), (-1, 1), (-1, 0)];
    assert NoDuplicates(probed);
    assert forall o :: o in probed <==> IsNeighbourOffset(o);
    MooreIsTheNeighbourhood();
    SameElementsSameMultiset(probed, Moore);
  }

  /** Reversing the vertical move only reorders the offsets the probes reach. */
  lemma ReversalOnlyReorders()
    ensures multiset(PlainUpTo(ProbeCount)) == multiset(ProbedUpTo(ProbeCount))
  {
    var plain := PlainUpTo(ProbeCount);
    assert plain == [(-1, 1), (0, 1), (1, 1), (1, 0), (1, -1), (0, -1), (-1, -1), (-1, 0)];
    assert NoDuplicates(plain);
    assert forall o :: o in plain <==> IsNeighbourOffset(o);
    ProbesCoverMoore();
    SameElementsSameMultiset(plain, ProbedUpTo(ProbeCount));
  }

  /** The number of live cells among the first k probes of `set_rules`, in probing order. */
  function ProbeSum(g: Pattern, pos: (nat, nat), k: nat): (n: nat)
    requires Rectangular(g) && pos.0 < |g| && pos.1 < |g[0]| && k <= ProbeCount
    ensures n <= k
  {
    if k == 0 then 0
    else
      var probe := SourceProbe(k - 1);
      ProbeSum(g, pos, k - 1) + (if GetEntity(g, pos, probe.0, probe.1) == Alive then 1 else 0)
  }

  /** What a probe finds is the reference liveness of the cell at its offset. */
  lemma ProbeIsLive(g: Pattern, pos: (nat, nat), probe: (Move, Move))
    requires Rectangular(g) && pos.0 < |g| && pos.1 < |g[0]|
    ensures var o := ProbeOffset(probe);
      Live(g, pos.0 + o.0, pos.1 + o.1) == (if GetEntity(g, pos, probe.0, probe.1) == Alive then 1 else 0)
  {
  }

  /** Probing one more offset adds what that probe finds. */
  lemma ProbeStep(g: Pattern, pos: (nat, nat), k: nat)
    requires Rectangular(g) && pos.0 < |g| && pos.1 < |g[0]| && k < ProbeCount
    ensures var probe := SourceProbe(k);
      CountOver(g, pos.0, pos.1, ProbedUpTo(k + 1)) ==
        CountOver(g, pos.0, pos.1, ProbedUpTo(k)) + (if GetEntity(g, pos, probe.0, probe.1) == Alive then 1 else 0)
  {
    var probe := SourceProbe(k);
    var o := ProbeOffset(probe);
    ProbeIsLive(g, pos, probe);
    assert ProbedUpTo(k + 1) == ProbedUpTo(k) + [o];
    CountOverSnoc(g, pos.0, pos.1, ProbedUpTo(k), o);
  }

  /** The first k probes count the live cells at the first k probed offsets. */
  lemma {:induction false} ProbeSumCountsProbed(g: Pattern, pos: (nat, nat), k: nat)
    requires Rectangular(g) && pos.0 < |g| && pos.1 < |g[0]| && k <= ProbeCount
    ensures ProbeSum(g, pos, k) == CountOver(g, pos.0, pos.1, ProbedUpTo(k))
  {
    if k > 0 {
      ProbeSumCountsProbed(g, pos, k - 1);
      ProbeStep(g, pos, k - 1);
    }
  }

  /** All eight probes together count exactly the live Moore neighbours on the torus. */
  lemma ProbesCountNeighbours(g: Pattern, pos: (nat, nat))
    requires Rectangular(g) && pos.0 < |g| && pos.1 < |g[0]|
    ensures ProbeSum(g, pos, ProbeCount) == Neighbours(g, pos.0, pos.1)
  {
    ProbeSumCountsProbed(g, pos, ProbeCount);
    ProbesCoverMoore();
    CountOverPermutation(g, pos.0, pos.1, ProbedUpTo(ProbeCount), Moore);
  }

  /**
   * Conway's B3/S23 rule as `Gameplay::set_rules` applies it: a live cell survives with two or
   * three live neighbours, any other cell is born with exactly three; a cell that is not born
   * keeps its not-alive state, so an `Unborn` cell stays `Unborn`.
   */
  function NextState(s: State, count: nat): (r: State)
    ensures s == Alive ==> (r == Alive <==> count == 2 || count == 3)
    ensures s != Alive ==> (r == Alive <==> count == 3)
    ensures r != Alive ==> (s == Unborn ==> r == Unborn) && (s != Unborn ==> r == Dead)
  {
    match s
    case Alive => if 2 <= count <= 3 then Alive else Dead
    case Dead => if count == 3 then Alive else Dead
    case Unborn => if count == 3 then Alive else Unborn
  }

  /** The next state of cell (i, j) of a rectangular grid, its neighbours counted on the torus. */
  function NextCell(g: Pattern, i: nat, j: nat): State
    requires Rectangular(g) && i < |g| && j < |g[i]|
  {
    NextState(g[i][j], Neighbours(g, i, j))
  }

  /** The next states of the first m cells of row i, in order. */
  function RowNext(g: Pattern, i: nat, m: nat): (r: seq<State>)
    requires Rectangular(g) && i < |g| && m <= |g[i]|
    ensures |r| == m
  {
    if m == 0 then [] else RowNext(g, i, m - 1) + [NextCell(g, i, m - 1)]
  }

  /** The next states of the first n rows, row by row. */
  function RowsNext(g: Pattern, n: nat): (r: Pattern)
    requires Rectangular(g) && n <= |g|
    ensures |r| == n && forall i :: 0 <= i < n ==> |r[i]| == |g[i]|
  {
    if n == 0 then [] else RowsNext(g, n - 1) + [RowNext(g, n - 1, |g[n - 1]|)]
  }

  /** The next generation of a rectangular grid: every cell stepped, each counted on the old grid. */
  function Generation(g: Pattern): (r: Pattern)
    requires Rectangular(g)
    ensures |r| == |g| && forall i :: 0 <= i < |g| ==> |r[i]| == |g[i]|
  {
    RowsNext(g, |g|)
  }

  lemma {:induction false} RowNextCells(g: Pattern, i: nat, m: nat)
    requires Rectangular(g) && i < |g| && m <= |g[i]|
    ensures forall j :: 0 <= j < m ==> RowNext(g, i, m)[j] == NextCell(g, i, j)
  {
    if m > 0 {
      RowNextCells(g, i, m - 1);
    }
  }

  lemma {:induction false} RowsNextRows(g: Pattern, n: nat)
    requires Rectangular(g) && n <= |g|
    ensures forall i :: 0 <= i < n ==> RowsNext(g, n)[i] == RowNext(g, i, |g[i]|)
  {
    if n > 0 {
      RowsNextRows(g, n - 1);
    }
  }

  /**
   * Each cell of the next generation is the rule applied to what that cell held and to its
   * live-neighbour count on the old grid.
   */
  lemma GenerationCells(g: Pattern)
    requires Rectangular(g)
    ensures forall i, j :: 0 <= i < |g| && 0 <= j < |g[i]| ==> Generation(g)[i][j] == NextCell(g, i, j)
  {
    RowsNextRows(g, |g|);
    forall i | 0 <= i < |g|
      ensures forall j :: 0 <= j < |g[i]| ==> Generation(g)[i][j] == NextCell(g, i, j)
    {
      RowNextCells(g, i, |g[i]|);
    }
  }

  /** The number of the first k probes of `set_rules` that find a live entity, in probing order. */
  function LiveProbes(entities: Rows, pos: (nat, nat), k: nat): (n: nat)
    requires Rectangular(entities) && pos.0 < |entities| && pos.1 < |entities[0]| && k <= ProbeCount
    ensures n <= k
  {
    if k == 0 then 0
    else
      var probe := SourceProbe(k - 1);
      LiveProbes(entities, pos, k - 1) + if EntityIsAlive(entities, pos, probe.0, probe.1) then 1 else 0
  }

  /** A probe finds a live entity exactly where the states hold `Alive`. */
  lemma ProbeAgrees(entities: Rows, g: Pattern, pos: (nat, nat), probe: (Move, Move))
    requires Rectangular(entities) && HasStates(entities, g) && Rectangular(g)
    requires pos.0 < |entities| && pos.1 < |entities[0]|
    ensures EntityIsAlive(entities, pos, probe.0, probe.1) <==> GetEntity(g, pos, probe.0, probe.1) == Alive
  {
  }

  /** Probing the entities finds what probing their states finds. */
  lemma {:induction false} LiveProbesAreProbeSum(entities: Rows, g: Pattern, pos: (nat, nat), k: nat)
    requires Rectangular(entities) && HasStates(entities, g) && Rectangular(g)
    requires pos.0 < |entities| && pos.1 < |entities[0]| && k <= ProbeCount
    ensures LiveProbes(entities, pos, k) == ProbeSum(g, pos, k)
  {
    if k > 0 {
      LiveProbesAreProbeSum(entities, g, pos, k - 1);
      ProbeAgrees(entities, g, pos, SourceProbe(k - 1));
    }
  }

  /**
   * The eight neighbour checks `Gameplay::set_rules` makes for the cell at `pos`, in its order,
   * each adding one when the probed entity is alive: exactly the reference live-neighbour count.
   */
  method CountLiveNeighbours(entities: Rows, pos: (nat, nat), ghost g: Pattern) returns (count: nat)
    requires Rectangular(entities) && HasStates(entities, g) && Rectangular(g)
    requires pos.0 < |entities| && pos.1 < |entities[0]|
    ensures count == Neighbours(g, pos.0, pos.1)
  {
    count := 0;

    // Up-Left
    if EntityIsAlive(entities, pos, Negative, Positive) {
      count := count + 1;
    }
    assert count == LiveProbes(entities, pos, 1);

    // Up
    if EntityIsAlive(entities, pos, Remain, Positive) {
      count := count + 1;
    }
    assert count == LiveProbes(entities, pos, 2);

    // Up-Right
    if EntityIsAlive(entities, pos, Positive, Positive) {
      count := count + 1;
    }
    assert count == LiveProbes(entities, pos, 3);

    // Right
    if EntityIsAlive(entities, pos, Positive, Remain) {
      count := count + 1;
    }
    assert count == LiveProbes(entities, pos, 4);

    // Down-Right
    if EntityIsAlive(entities, pos, Positive, Negative) {
      count := count + 1;
    }
    assert count == LiveProbes(entities, pos, 5);

    // Down
    if EntityIsAlive(entities, pos, Remain, Negative) {
      count := count + 1;
    }
    assert count == LiveProbes(entities, pos, 6);

    // Down-Left
    if EntityIsAlive(entities, pos, Negative, Negative) {
      count := count + 1;
    }
    assert count == LiveProbes(entities, pos, 7);

    // Left
    if EntityIsAlive(entities, pos, Negative, Remain) {
      count := count + 1;
    }
    assert count == LiveProbes(entities, pos, ProbeCount);
    LiveProbesAreProbeSum(entities, g, pos, ProbeCount);
    ProbesCountNeighbours(g, pos);
  }

  /** The rule step of `set_rules` on a counted cell gives the cell's next state. */
  lemma NextCellIs(g: Pattern, i: nat, j: nat, count: nat)
    requires Rectangular(g) && i < |g| && j < |g[i]| && count == Neighbours(g, i, j)
    ensures NextCell(g, i, j) == NextState(g[i][j], count)
  {
  }

  /** One row of the scratch grid of `set_rules`: every cell of row x stepped, in order. */
  method NextRow(entities: Rows, x: nat, ghost g: Pattern) returns (retRow: seq<State>)
    requires Rectangular(entities) && HasStates(entities, g) && Rectangular(g) && x < |entities|
    ensures retRow == RowNext(g, x, |entities[x]|)
  {
    retRow := [];
    var y := 0;
    while y < |entities[x]|
      invariant 0 <= y <= |entities[x]|
      invariant retRow == RowNext(g, x, y)
    {
      var count := CountLiveNeighbours(entities, (x, y), g);
      var entity := entities[x][y];
      var next: State;
      if entity.state == Alive {
        next := if 2 <= count <= 3 then Alive else Dead;
      } else {
        next := if count == 3 then Alive else if entity.state == Dead then Dead else Unborn;
      }
      NextCellIs(g, x, y, count);
      retRow := retRow + [next];
      y := y + 1;
    }
  }

  /**
   * The first half of `Gameplay::set_rules`: the scratch grid `ret` of next states, built row by
   * row, every count made on the grid as it is before the step.
   */
  method NextStates(entities: Rows) returns (ret: Pattern)
    requires Rectangular(entities)
    ensures Rectangular(States(entities))
    ensures ret == Generation(States(entities))
  {
    ghost var g := States(entities);
    StatesAre(entities, g);
    assert Rectangular(g);
    ret := [];
    var x := 0;
    while x < |entities|
      invariant 0 <= x <= |entities|
      invariant ret == RowsNext(g, x)
    {
      var retRow := NextRow(entities, x, g);
      ret := ret + [retRow];
      x := x + 1;
    }
  }

  /** The second half of `Gameplay::set_rules`: each entity takes its state from `ret`. */
  method WriteStates(world: World, ret: Pattern)
    requires |ret| == world.Length && forall i :: 0 <= i < world.Length ==> |ret[i]| == |world[i]|
    modifies world
    ensures States(world[..]) == ret
    ensures SameLayout(old(world[..]), world[..])
  {
    var x := 0;
    while x < world.Length
      invariant 0 <= x <= world.Length
      invariant SameLayout(old(world[..]), world[..])
      invariant forall i :: 0 <= i < x ==> RowStates(world[i]) == ret[i]
    {
      var y := 0;
      while y < |world[x]|
        invariant 0 <= y <= |world[x]|
        invariant SameLayout(old(world[..]), world[..])
        invariant forall i :: 0 <= i < x ==> RowStates(world[i]) == ret[i]
        invariant forall j :: 0 <= j < y ==> world[x][j].state == ret[x][j]
      {
        world[x] := world[x][y := world[x][y].(state := ret[x][y])];
        y := y + 1;
      }
      x := x + 1;
    }
  }

  /**
   * `Gameplay::set_rules`: one generation in place. Every next state is computed from the grid
   * before the step; only the states change, and shape and positions stay as they were.
   */
  method SetRules(world: World)
    requires Rectangular(world[..])
    modifies world
    ensures States(world[..]) == Generation(old(States(world[..])))
    ensures SameLayout(old(world[..]), world[..])
  {
    var ret := NextStates(world[..]);
    WriteStates(world, ret);
  }

  /**
   * What `paste_cells` writes when a pattern value lands on a cell: the pattern value, except that
   * a `Dead` pattern cell leaves an `Unborn` cell `Unborn`.
   */
  function Merge(current: State, incoming: State): (r: State)
    ensures r == Alive <==> incoming == Alive
    ensures r == Unborn <==> incoming == Unborn || (current == Unborn && incoming == Dead)
  {
    if current == Unborn && incoming == Dead then current else incoming
  }

  /** Cell (i, j) lies under the pattern placed with its first cell at `at`; the rows may be ragged. */
  predicate InFootprint(at: (nat, nat), prefab: Pattern, i: nat, j: nat) {
    at.0 <= i < at.0 + |prefab| && at.1 <= j < at.1 + |prefab[i - at.0]|
  }

  /** The state of cell (i, j) once the pattern is pasted at `at`. */
  function PastedCell(before: Pattern, at: (nat, nat), prefab: Pattern, i: nat, j: nat): State
    requires i < |before| && j < |before[i]|
  {
    if InFootprint(at, prefab, i, j) then Merge(before[i][j], prefab[i - at.0][j - at.1]) else before[i][j]
  }

  /**
   * `after` is `before` with `prefab` pasted at `at`: the same shape, every cell under the pattern
   * merged with its pattern value, every other cell as it was. Pattern cells that fall outside the
   * grid are dropped.
   */
  predicate IsPasted(before: Pattern, after: Pattern, at: (nat, nat), prefab: Pattern) {
    |after| == |before| && (forall i :: 0 <= i < |before| ==> |after[i]| == |before[i]|) &&
    forall i, j :: 0 <= i < |before| && 0 <= j < |before[i]| ==> after[i][j] == PastedCell(before, at, prefab, i, j)
  }

  /** Pasting the same pattern at the same place a second time changes nothing. */
  lemma PasteIdempotent(a: Pattern, b: Pattern, c: Pattern, at: (nat, nat), prefab: Pattern)
    requires IsPasted(a, b, at, prefab) && IsPasted(b, c, at, prefab)
    ensures c == b
  {
    forall i | 0 <= i < |c|
      ensures c[i] == b[i]
    {
    }
  }

  /** Pasting a grid onto itself at the origin gives the grid back. */
  lemma PasteOntoItself(g: Pattern, after: Pattern)
    requires IsPasted(g, after, (0, 0), g)
    ensures after == g
  {
    forall i | 0 <= i < |g|
      ensures after[i] == g[i]
    {
    }
  }

  /** Pasting yields one grid only: the outcome is determined by the grid, the place and the pattern. */
  lemma PasteIsDeterministic(before: Pattern, a: Pattern, b: Pattern, at: (nat, nat), prefab: Pattern)
    requires IsPasted(before, a, at, prefab) && IsPasted(before, b, at, prefab)
    ensures a == b
  {
    forall i | 0 <= i < |a|
      ensures a[i] == b[i]
    {
    }
  }

  /**
   * The cells of `world` before row x, and those of row x before column y, hold their pasted
   * states; all others still hold their states from `before`.
   */
  ghost predicate PastedUpTo(before: Pattern, world: Rows, at: (nat, nat), prefab: Pattern, x: nat, y: nat) {
    |world| == |before| && (forall i :: 0 <= i < |before| ==> |world[i]| == |before[i]|) &&
    forall i, j :: 0 <= i < |before| && 0 <= j < |before[i]| ==>
      world[i][j].state == if i < x || (i == x && j < y) then PastedCell(before, at, prefab, i, j) else before[i][j]
  }

  /** Before the first row under the pattern, nothing needs pasting. */
  lemma PasteStart(before: Pattern, w: Rows, at: (nat, nat), prefab: Pattern)
    requires HasStates(w, before)
    ensures PastedUpTo(before, w, at, prefab, at.0, 0)
  {
  }

  /** The cells of a row left of the pattern need no pasting. */
  lemma PasteRowStart(before: Pattern, w: Rows, at: (nat, nat), prefab: Pattern, x: nat)
    requires PastedUpTo(before, w, at, prefab, x, 0)
    ensures PastedUpTo(before, w, at, prefab, x, at.1)
  {
  }

  /** The cells of a row right of the pattern need no pasting either. */
  lemma PasteRowEnd(before: Pattern, w: Rows, at: (nat, nat), prefab: Pattern, x: nat)
    requires at.0 <= x < at.0 + |prefab|
    requires PastedUpTo(before, w, at, prefab, x, at.1 + |prefab[x - at.0]|)
    ensures PastedUpTo(before, w, at, prefab, x + 1, 0)
  {
  }

  /** A destination outside the grid is skipped. */
  lemma PasteSkip(before: Pattern, w: Rows, at: (nat, nat), prefab: Pattern, x: nat, y: nat)
    requires PastedUpTo(before, w, at, prefab, x, y) && !(x < |w| && y < |w[x]|)
    ensures PastedUpTo(before, w, at, prefab, x, y + 1)
  {
  }

  /** Writing the pasted state into the next cell moves the progress on by one cell. */
  lemma PasteWrite(before: Pattern, w: Rows, at: (nat, nat), prefab: Pattern, x: nat, y: nat, s: State)
    requires PastedUpTo(before, w, at, prefab, x, y) && x < |w| && y < |w[x]|
    requires s == PastedCell(before, at, prefab, x, y)
    ensures var w' := w[x := w[x][y := w[x][y].(state := s)]];
      PastedUpTo(before, w', at, prefab, x, y + 1) && SameLayout(w, w')
  {
  }

  /** A cell that already holds its pasted state is left as it is. */
  lemma PasteKeep(before: Pattern, w: Rows, at: (nat, nat), prefab: Pattern, x: nat, y: nat)
    requires PastedUpTo(before, w, at, prefab, x, y) && x < |w| && y < |w[x]|
    requires w[x][y].state == PastedCell(before, at, prefab, x, y)
    ensures PastedUpTo(before, w, at, prefab, x, y + 1)
  {
  }

  /** Once every row under the pattern is done, the grid holds the pasted states. */
  lemma PasteEnd(before: Pattern, w: Rows, at: (nat, nat), prefab: Pattern)
    requires PastedUpTo(before, w, at, prefab, at.0 + |prefab|, 0)
    ensures IsPasted(before, States(w), at, prefab)
  {
    var g := States(w);
    StatesAre(w, g);
  }

  /**
   * `Gameplay::paste_cells`: stamps `prefab` onto the grid with its first cell at `clickPos`,
   * skipping destinations outside the grid and never turning an `Unborn` cell `Dead`.
   */
  method PasteCells(clickPos: (nat, nat), prefab: Pattern, entities: World)
    modifies entities
    ensures IsPasted(old(States(entities[..])), States(entities[..]), clickPos, prefab)
    ensures SameLayout(old(entities[..]), entities[..])
  {
    ghost var before := States(entities[..]);
    StatesAre(entities[..], before);
    PasteStart(before, entities[..], clickPos, prefab);
    for thisX := clickPos.0 to clickPos.0 + |prefab|
      invariant SameLayout(old(entities[..]), entities[..])
      invariant PastedUpTo(before, entities[..], clickPos, prefab, thisX, 0)
    {
      var commandX := thisX - clickPos.0;
      PasteRowStart(before, entities[..], clickPos, prefab, thisX);
      for thisY := clickPos.1 to clickPos.1 + |prefab[commandX]|
        invariant SameLayout(old(entities[..]), entities[..])
        invariant PastedUpTo(before, entities[..], clickPos, prefab, thisX, thisY)
      {
        if thisX >= entities.Length || thisY >= |entities[thisX]| {
          PasteSkip(before, entities[..], clickPos, prefab, thisX, thisY);
          continue;
        }
        var commandY := thisY - clickPos.1;
        var entity := entities[thisX][thisY];
        var newState := prefab[commandX][commandY];
        if !(entity.state == Unborn && newState == Dead) {
          PasteWrite(before, entities[..], clickPos, prefab, thisX, thisY, newState);
          entities[thisX] := entities[thisX][thisY := entity.(state := newState)];
        } else {
          PasteKeep(before, entities[..], clickPos, prefab, thisX, thisY);
        }
      }
      PasteRowEnd(before, entities[..], clickPos, prefab, thisX);
    }
    PasteEnd(before, entities[..], clickPos, prefab);
  }

  /** The number of values `0..n` yields: none when `n` is negative. */
  function Span(n: i32): nat {
    if n < 0 then 0 else n as int
  }

  /** A grid of `rows` rows of `cols` cells, none of them ever touched. */
  function Blank(rows: nat, cols: nat): (g: Pattern)
    ensures |g| == rows && Rectangular(g)
    ensures forall i :: 0 <= i < rows ==> |g[i]| == cols
    ensures forall i, j :: 0 <= i < rows && 0 <= j < cols ==> g[i][j] == Unborn
  {
    seq(rows, _ => seq(cols, _ => Unborn))
  }

  /**
   * `Gameplay::create_game_world`: `size.x` rows of `size.y` fresh entities (none for a negative
   * size), each at the position of its own indices.
   */
  method CreateGameWorld(size: Vec2Int) returns (entities: Rows)
    ensures |entities| == Span(size.x) && Rectangular(entities)
    ensures forall i :: 0 <= i < |entities| ==> |entities[i]| == Span(size.y)
    ensures forall i, j :: 0 <= i < |entities| && 0 <= j < |entities[i]| ==>
      entities[i][j] == NewEntity(Vec2(i as real, j as real))
    ensures States(entities) == Blank(Span(size.x), Span(size.y))
  {
    entities := [];
    var x := 0;
    while x < size.x as int
      invariant 0 <= x <= Span(size.x) && |entities| == x
      invariant forall i :: 0 <= i < x ==> |entities[i]| == Span(size.y)
      invariant forall i, j :: 0 <= i < x && 0 <= j < |entities[i]| ==>
        entities[i][j] == NewEntity(Vec2(i as real, j as real))
    {
      var thisVec := [];
      var y := 0;
      while y < size.y as int
        invariant 0 <= y <= Span(size.y) && |thisVec| == y
        invariant forall j :: 0 <= j < y ==> thisVec[j] == NewEntity(Vec2(x as real, j as real))
      {
        thisVec := thisVec + [NewEntity(Vec2(x as real, y as real))];
        y := y + 1;
      }
      entities := entities + [thisVec];
      x := x + 1;
    }
    StatesAre(entities, Blank(Span(size.x), Span(size.y)));
  }

  /** `Gameplay::to_pure_states`: the states of the entities, row by row. */
  method ToPureStates(entities: Rows) returns (ret: Pattern)
    ensures ret == States(entities)
  {
    ret := [];
    for x := 0 to |entities|
      invariant ret == States(entities[..x])
    {
      var retRow := [];
      for y := 0 to |entities[x]|
        invariant retRow == RowStates(entities[x][..y])
      {
        assert entities[x][..y + 1][..y] == entities[x][..y];
        retRow := retRow + [entities[x][y].state];
      }
      assert entities[x][..|entities[x]|] == entities[x];
      assert entities[..x + 1][..x] == entities[..x];
      ret := ret + [retRow];
    }
    assert entities[..|entities|] == entities;
  }

  /** `q` is `d` with its fractional part dropped, as the `f32` to `i32` cast does (toward zero). */
  predicate TruncatesTo(d: real, q: int) {
    if d >= 0.0 then q as real <= d < q as real + 1.0 else q as real - 1.0 < d <= q as real
  }

  /**
   * One component of the centring offset `new_size` computes: `next / 2.0 - old / 2.0`, cast to
   * `i32`. It is non-negative exactly when the grid shrinks by at most one cell along that axis.
   */
  function CenterComponent(next: i32, current: i32): (c: i32)
    ensures TruncatesTo((next as int) as real / 2.0 - (current as int) as real / 2.0, c as int)
    ensures c >= 0 <==> next as int >= current as int - 1
  {
    var a := next as int - current as int;
    var q := TruncDiv(a, 2);
    assert a == 2 * q + (a - q * 2);
    q as i32
  }

  /** Growing an axis by `2 * k` cells puts the current content `k` cells in. */
  lemma GrowingCentres(current: i32, k: nat)
    requires IsI32(current as int + 2 * k)
    ensures CenterComponent((current as int + 2 * k) as i32, current) as int == k
  {
    var c := CenterComponent((current as int + 2 * k) as i32, current);
    assert TruncatesTo((2 * k) as real / 2.0, c as int);
  }

  /**
   * `world` is the grid `new_size` builds from a grid holding `before` at size `current` for the
   * size `next`: fresh entities at their own indices, holding `before` pasted at the centring
   * offset, or none of it when that offset is negative along either axis.
   */
  ghost predicate IsResized(before: Pattern, current: Vec2Int, next: Vec2Int, world: Rows) {
    var cx := CenterComponent(next.x, current.x);
    var cy := CenterComponent(next.y, current.y);
    var blank := Blank(Span(next.x), Span(next.y));
    |world| == Span(next.x) && Rectangular(world) &&
    (forall i :: 0 <= i < |world| ==> |world[i]| == Span(next.y)) &&
    (forall i, j :: 0 <= i < |world| && 0 <= j < |world[i]| ==>
      world[i][j].position == Vec2(i as real, j as real)) &&
    if cx >= 0 && cy >= 0
    then IsPasted(blank, States(world), (cx as nat, cy as nat), before)
    else States(world) == blank
  }

  /** The body of `new_size` once it has a size: build, take the old states, centre, paste. */
  method ResizedWorld(entities: Rows, current: Vec2Int, nextSize: Vec2Int) returns (world: Rows)
    ensures IsResized(States(entities), current, nextSize, world)
  {
    var newEntities := CreateGameWorld(nextSize);
    var oldWorld := ToPureStates(entities);
    var centerRoundDown := Vec2Int(CenterComponent(nextSize.x, current.x), CenterComponent(nextSize.y, current.y));
    world := PasteUnlessNegative(newEntities, oldWorld, centerRoundDown);
  }

  /**
   * The guarded paste of `new_size`: `prefab` pasted into `rows` at `at` unless a component of
   * `at` is negative, in which case the rows are returned as they are.
   */
  method PasteUnlessNegative(rows: Rows, prefab: Pattern, at: Vec2Int) returns (r: Rows)
    ensures SameLayout(rows, r)
    ensures at.x >= 0 && at.y >= 0 ==> IsPasted(States(rows), States(r), (at.x as nat, at.y as nat), prefab)
    ensures at.x < 0 || at.y < 0 ==> r == rows
  {
    var grid := new seq<Entity>[|rows|](i requires 0 <= i < |rows| => rows[i]);
    assert grid[..] == rows;
    if !(at.x < 0 || at.y < 0) {
      var pos := IntoRawUsize(at).value;
      PasteCells(pos, prefab, grid);
    }
    r := grid[..];
  }

  /**
   * The grid steps of `Gameplay::update`: one for Return, and one more when auto stepping is due,
   * unless Return stepped already; so a frame advances the grid at most once.
   */
  method AdvanceGrid(entities: World, returnKey: bool, autoStep: bool)
    requires Rectangular(entities[..])
    modifies entities
    ensures SameLayout(old(entities[..]), entities[..])
    ensures States(entities[..]) ==
      if returnKey || autoStep then Generation(old(States(entities[..]))) else old(States(entities[..]))
  {
    var doNotUpdateAgain := false;
    if returnKey {
      SetRules(entities);
      doNotUpdateAgain := true;
    }
    if autoStep && !doNotUpdateAgain {
      SetRules(entities);
    }
  }

  /** Every field of `Gameplay` the model keeps, as one value. */
  datatype Settings = Settings(
    autoIncrement: bool, showDebug: bool, showInstructions: bool, showPlayControl: bool,
    showSettingsControl: bool, playing: bool, showUi: bool, savedPrefab: Option<Prefab>,
    gameSize: Vec2Int, nextGameSize: Option<Vec2Int>, coordsPressed: seq<(nat, nat)>,
    flags: set<GameplayFlag>)

  /**
   * `struct Gameplay`: the editing and playback state. Colours, sounds, the increment rate and
   * the frame timer are not part of the model; `prefabs` is the catalogue `Prefabs::new` loads.
   */
  class Gameplay {
    var autoIncrement: bool
    var showDebug: bool
    var showInstructions: bool
    var showPlayControl: bool
    var showSettingsControl: bool
    var playing: bool
    var showUi: bool
    var savedPrefab: Option<Prefab>
    var gameSize: Vec2Int
    var nextGameSize: Option<Vec2Int>
    var coordsPressed: seq<(nat, nat)>
    const prefabs: map<Prefab, Pattern>
    var flags: set<GameplayFlag>

    function View(): Settings
      reads this
    {
      Settings(autoIncrement, showDebug, showInstructions, showPlayControl, showSettingsControl,
        playing, showUi, savedPrefab, gameSize, nextGameSize, coordsPressed, flags)
    }

    /** `Gameplay::new`, with the catalogue passed in instead of loaded from files. */
    constructor (gameSize: Vec2Int, prefabs: map<Prefab, Pattern>)
      ensures View() == Settings(false, true, true, true, false, true, true, None, gameSize, None, [], {})
      ensures this.prefabs == prefabs
    {
      autoIncrement := false;
      coordsPressed := [];
      showDebug := true;
      showInstructions := true;
      showUi := true;
      playing := true;
      showPlayControl := true;
      showSettingsControl := false;
      savedPrefab := None;
      this.prefabs := prefabs;
      this.gameSize := gameSize;
      nextGameSize := None;
      flags := {};
    }

    /** `next_game_size`: the pending size, or the current one when none is pending. */
    function NextGameSize(): (size: Vec2Int)
      reads this
      ensures nextGameSize.Some? ==> size == nextGameSize.value
      ensures nextGameSize.None? ==> size == gameSize
    {
      match nextGameSize
      case Some(gz) => gz
      case None => gameSize
    }

    /** `set_next_game_size`: records the size the next resize builds. */
    method SetNextGameSize(size: Vec2Int)
      modifies this
      ensures NextGameSize() == size
      ensures View() == old(View()).(nextGameSize := Some(size))
    {
      nextGameSize := Some(size);
    }

    /** `resize_this_frame`: raises the RESIZE flag. */
    method ResizeThisFrame()
      modifies this
      ensures View() == old(View()).(flags := old(flags) + {Resize})
    {
      flags := flags + {Resize};
    }

    /** A click pastes the pending prefab: one is pending and the catalogue has it. */
    predicate PastesPrefab()
      reads this
    {
      savedPrefab.Some? && savedPrefab.value in prefabs
    }

    /** A click toggles its cell: no prefab is pasted and the cell was not touched in this drag. */
    predicate FlipsAt(clickPos: (nat, nat))
      reads this
    {
      !PastesPrefab() && clickPos !in coordsPressed
    }

    /**
     * `Gameplay::select`: a click at `clickPos`. With a pending prefab the catalogue holds, the
     * prefab is pasted there and is no longer pending; otherwise (a missing prefab stays pending)
     * the cell is toggled unless this drag touched it already. Either action records the cell.
     */
    method Select(clickPos: (nat, nat), entities: World)
      requires FlipsAt(clickPos) ==> clickPos.0 < entities.Length && clickPos.1 < |entities[clickPos.0]|
      modifies this, entities
      ensures old(PastesPrefab()) ==>
        IsPasted(old(States(entities[..])), States(entities[..]), clickPos, prefabs[old(savedPrefab).value]) &&
        SameLayout(old(entities[..]), entities[..]) &&
        View() == old(View()).(savedPrefab := None, coordsPressed := old(coordsPressed) + [clickPos])
      ensures old(FlipsAt(clickPos)) ==>
        entities[..] == old(entities[..])[clickPos.0 :=
          old(entities[clickPos.0])[clickPos.1 := old(entities[clickPos.0][clickPos.1]).FlipState().0]] &&
        View() == old(View()).(coordsPressed := old(coordsPressed) + [clickPos])
      ensures old(!PastesPrefab() && clickPos in coordsPressed) ==>
        entities[..] == old(entities[..]) && View() == old(View())
    {
      if savedPrefab.Some? && savedPrefab.value in prefabs {
        var prefab := prefabs[savedPrefab.value];
        PasteCells(clickPos, prefab, entities);
        savedPrefab := None;
        coordsPressed := coordsPressed + [clickPos];
        return;
      }
      if clickPos !in coordsPressed {
        var entity := entities[clickPos.0][clickPos.1];
        var (flipped, _) := entity.FlipState();
        entities[clickPos.0] := entities[clickPos.0][clickPos.1 := flipped];
        coordsPressed := coordsPressed + [clickPos];
      }
    }

    /**
     * `Gameplay::new_size`: when a resize is flagged and a size is pending, the grid resized to
     * that size; the flag is cleared and the pending size stays recorded. Otherwise nothing.
     */
    method NewSize(entities: World) returns (r: Option<Rows>)
      modifies this
      ensures old(Resize in flags && nextGameSize.Some?) ==>
        r.Some? && IsResized(old(States(entities[..])), old(gameSize), old(nextGameSize.value), r.value) &&
        View() == old(View()).(gameSize := old(nextGameSize.value), flags := old(flags) - {Resize})
      ensures old(!(Resize in flags && nextGameSize.Some?)) ==> r.None? && View() == old(View())
    {
      if Resize !in flags {
        return None;
      }
      match nextGameSize {
        case None =>
          return None;
        case Some(nextSize) =>
          var newEntities := ResizedWorld(entities[..], gameSize, nextSize);
          gameSize := nextSize;
          flags := flags - {Resize};
          return Some(newEntities);
      }
    }

    /** A frame advances the grid: Return was pressed, or, with auto stepping on and the game
     *  playing (after this frame's Space), the increment interval elapsed. */
    predicate Steps(returnPressed: bool, playingNow: bool, tickElapsed: bool)
      reads this
    {
      returnPressed || (autoIncrement && playingNow && tickElapsed)
    }

    /**
     * `Gameplay::update`: one frame of input. A left-button release ends the drag; Return steps
     * the grid once; Space, F1, F2 and F10 toggle playing, the UI, the instructions and the debug
     * view; with auto stepping on and the game playing, a step is due when `tickElapsed` (the
     * frame timer passed the increment interval), unless Return stepped already.
     */
    method Update(userInput: ComponentsUserInput.UserInput, entities: World, tickElapsed: bool)
      requires userInput.Valid() && Rectangular(entities[..])
      modifies this`coordsPressed, this`playing, this`showUi, this`showInstructions, this`showDebug, entities
      ensures coordsPressed == if old(userInput.mouseInput.IsReleased(ComponentsUserInput.Left)) then [] else old(coordsPressed)
      ensures playing == (old(playing) != old(userInput.kbInput.IsPressed(Space)))
      ensures showUi == (old(showUi) != old(userInput.kbInput.IsPressed(F1)))
      ensures showInstructions == (old(showInstructions) != old(userInput.kbInput.IsPressed(F2)))
      ensures showDebug == (old(showDebug) != old(userInput.kbInput.IsPressed(F10)))
      ensures SameLayout(old(entities[..]), entities[..])
      ensures States(entities[..]) ==
        if Steps(old(userInput.kbInput.IsPressed(Return)), playing, tickElapsed)
        then Generation(old(States(entities[..])))
        else old(States(entities[..]))
    {
      var kb := userInput.kbInput;
      var leftReleased := userInput.mouseInput.IsReleased(ComponentsUserInput.Left);
      var returnKey := kb.IsPressed(Return);
      RespondToKeys(leftReleased, kb.IsPressed(Space), kb.IsPressed(F1), kb.IsPressed(F2), kb.IsPressed(F10));
      AdvanceGrid(entities, returnKey, autoIncrement && playing && tickElapsed);
    }

    /**
     * The state changes of `update` other than the grid steps: the end of the drag and the four
     * toggles. They touch nothing the grid steps read or write, so the order between the two
     * does not matter.
     */
    method RespondToKeys(leftReleased: bool, spaceKey: bool, f1Key: bool, f2Key: bool, f10Key: bool)
      modifies this`coordsPressed, this`playing, this`showUi, this`showInstructions, this`showDebug
      ensures coordsPressed == if leftReleased then [] else old(coordsPressed)
      ensures playing == (old(playing) != spaceKey) && showUi == (old(showUi) != f1Key)
      ensures showInstructions == (old(showInstructions) != f2Key) && showDebug == (old(showDebug) != f10Key)
    {
      if leftReleased {
        coordsPressed := [];
      }
      if spaceKey {
        playing := !playing;
      }
      if f1Key {
        showUi := !showUi;
      }
      if f2Key {
        showInstructions := !showInstructions;
      }
      if f10Key {
        showDebug := !showDebug;
      }
    }
  }
}
