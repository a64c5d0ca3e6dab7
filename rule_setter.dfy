/**
 * src/ecs/systems/rule_setter.rs: the older, pure rule engine. It reads a grid of states whose
 * rows are indexed by y (`entities[y][x]`) and builds the next generation as a new grid,
 * leaving its input alone. Every cell that is not born or kept alive becomes `Dead`.
 */
module RuleSetter {
  import opened Entities
  import opened Grid
  import opened Sequences
  import GameplaySystem

  type Pattern = seq<seq<State>>

  /**
   * `get_entity`: the state one probe away from `pos` = (x, y). x wraps over the length of the
   * first row, y over the number of rows, and the vertical move is reversed. On the torus this is
   * the cell in the row the reversed vertical move reaches and the column the horizontal move
   * reaches, each taken around its own dimension.
   */
  function GetEntity(entities: Pattern, pos: (nat, nat), horizontalMove: Move, verticalMove: Move): (s: State)
    requires Rectangular(entities) && pos.1 < |entities| && pos.0 < |entities[0]|
    ensures s == entities[Torus(pos.1 + Delta(Reverse(verticalMove)), |entities|)][Torus(pos.0 + Delta(horizontalMove), |entities[0]|)]
  {
    WrapIsModular(pos.0, horizontalMove, |entities[0]|);
    WrapIsModular(pos.1, Reverse(verticalMove), |entities|);
    var x := Wrap(pos.0, horizontalMove, |entities[0]|);
    var y := Wrap(pos.1, Reverse(verticalMove), |entities|);
    entities[y][x]
  }

  /** The (row, column) offset a probe of this engine reaches: rows move against the vertical move. */
  function RuleOffset(probe: (Move, Move)): (int, int) {
    (Delta(Reverse(probe.1)), Delta(probe.0))
  }

  /**
   * `entity_is_alive`: the probe finds a live cell exactly when the cell at its offset from
   * row y, column x, taken around the torus, is alive.
   */
  function EntityIsAlive(entities: Pattern, pos: (nat, nat), horizontalMove: Move, verticalMove: Move): (alive: bool)
    requires Rectangular(entities) && pos.1 < |entities| && pos.0 < |entities[0]|
    ensures var o := RuleOffset((horizontalMove, verticalMove));
      alive <==> Live(entities, pos.1 + o.0, pos.0 + o.1) == 1
  {
    GetEntity(entities, pos, horizontalMove, verticalMove) == Alive
  }

  /** The offsets the first k probes reach, in probing order. */
  function ProbedUpTo(k: nat): (r: seq<(int, int)>)
    requires k <= ProbeCount
    ensures |r| == k
  {
    if k == 0 then [] else ProbedUpTo(k - 1) + [RuleOffset(SourceProbe(k - 1))]
  }

  /** The eight probes of this engine reach every Moore offset exactly once, too. */
  lemma ProbesCoverMoore()
    ensures NoDuplicates(ProbedUpTo(ProbeCount))
    ensures multiset(ProbedUpTo(ProbeCount)) == multiset(Moore)
  {
    var probed := ProbedUpTo(ProbeCount);
    assert probed == [(-1, -1), (-1, 0), (-1, 1), (0, 1), (1, 1), (1, 0), (1, -1), (0, -1)];
    assert NoDuplicates(probed);
    assert forall o :: o in probed <==> IsNeighbourOffset(o);
    MooreIsTheNeighbourhood();
    SameElementsSameMultiset(probed, Moore);
  }

  /** The number of the first k probes that find a live cell, in probing order. */
  function LiveProbes(entities: Pattern, pos: (nat, nat), k: nat): (n: nat)
    requires Rectangular(entities) && pos.1 < |entities| && pos.0 < |entities[0]| && k <= ProbeCount
    ensures n <= k
  {
    if k == 0 then 0
    else
      var probe := SourceProbe(k - 1);
      LiveProbes(entities, pos, k - 1) + if EntityIsAlive(entities, pos, probe.0, probe.1) then 1 else 0
  }

  /** Probing one more offset adds what that probe finds. */
  lemma ProbeStep(g: Pattern, pos: (nat, nat), k: nat)
    requires Rectangular(g) && pos.1 < |g| && pos.0 < |g[0]| && k < ProbeCount
    ensures var probe := SourceProbe(k);
      CountOver(g, pos.1, pos.0, ProbedUpTo(k + 1)) ==
        CountOver(g, pos.1, pos.0, ProbedUpTo(k)) + (if EntityIsAlive(g, pos, probe.0, probe.1) then 1 else 0)
  {
    var probe := SourceProbe(k);
    var o := RuleOffset(probe);
    assert ProbedUpTo(k + 1) == ProbedUpTo(k) + [o];
    CountOverSnoc(g, pos.1, pos.0, ProbedUpTo(k), o);
  }

  /** The first k probes count the live cells at the first k probed offsets. */
  lemma {:induction false} LiveProbesCountProbed(g: Pattern, pos: (nat, nat), k: nat)
    requires Rectangular(g) && pos.1 < |g| && pos.0 < |g[0]| && k <= ProbeCount
    ensures LiveProbes(g, pos, k) == CountOver(g, pos.1, pos.0, ProbedUpTo(k))
  {
    if k > 0 {
      LiveProbesCountProbed(g, pos, k - 1);
      ProbeStep(g, pos, k - 1);
    }
  }

  /** All eight probes together count exactly the live Moore neighbours on the torus. */
  lemma ProbesCountNeighbours(g: Pattern, pos: (nat, nat))
    requires Rectangular(g) && pos.1 < |g| && pos.0 < |g[0]|
    ensures LiveProbes(g, pos, ProbeCount) == Neighbours(g, pos.1, pos.0)
  {
    LiveProbesCountProbed(g, pos, ProbeCount);
    ProbesCoverMoore();
    CountOverPermutation(g, pos.1, pos.0, ProbedUpTo(ProbeCount), Moore);
  }

  /**
   * The rule of `set_rules` here: a live cell survives with two or three live neighbours, any
   * other cell is born with exactly three, and every cell that is not alive next is `Dead`.
   */
  function RuleNext(s: State, count: nat): (r: State)
    ensures s == Alive ==> (r == Alive <==> count == 2 || count == 3)
    ensures s != Alive ==> (r == Alive <==> count == 3)
    ensures r != Unborn
  {
    if s == Alive then
      if 2 <= count <= 3 then Alive else Dead
    else
      if count == 3 then Alive else Dead
  }

  /** Row `row` is row y of `g` stepped: each cell the rule applied to its state and its count. */
  predicate IsSteppedRow(g: Pattern, y: nat, row: seq<State>)
    requires Rectangular(g) && y < |g|
  {
    |row| == |g[y]| &&
    forall x :: 0 <= x < |row| ==> row[x] == RuleNext(g[y][x], Neighbours(g, y, x))
  }

  /** `next` is `g` stepped once by this engine: same rows, each row stepped. */
  predicate IsStep(g: Pattern, next: Pattern)
    requires Rectangular(g)
  {
    |next| == |g| && forall y :: 0 <= y < |g| ==> IsSteppedRow(g, y, next[y])
  }

  /**
   * The eight neighbour checks `set_rules` makes for the cell at `pos` = (x, y), in its order,
   * each adding one when the probed cell is alive: exactly the reference live-neighbour count.
   */
  method CountLiveNeighbours(entities: Pattern, pos: (nat, nat)) returns (count: nat)
    requires Rectangular(entities) && pos.1 < |entities| && pos.0 < |entities[0]|
    ensures count == Neighbours(entities, pos.1, pos.0)
  {
    count := 0;

    // Up-Left
    if EntityIsAlive(entities, pos, Negative, Positive) {
      count := count + 1;
    }
    assert count == LiveProbes(entities, pos, 1);

    // Up
    if EntityIsAlive(entities, pos, Remain, Positive) {
      count := count + 1;
    }
    assert count == LiveProbes(entities, pos, 2);

    // Up-Right
    if EntityIsAlive(entities, pos, Positive, Positive) {
      count := count + 1;
    }
    assert count == LiveProbes(entities, pos, 3);

    // Right
    if EntityIsAlive(entities, pos, Positive, Remain) {
      count := count + 1;
    }
    assert count == LiveProbes(entities, pos, 4);

    // Down-Right
    if EntityIsAlive(entities, pos, Positive, Negative) {
      count := count + 1;
    }
    assert count == LiveProbes(entities, pos, 5);

    // Down
    if EntityIsAlive(entities, pos, Remain, Negative) {
      count := count + 1;
    }
    assert count == LiveProbes(entities, pos, 6);

    // Down-Left
    if EntityIsAlive(entities, pos, Negative, Negative) {
      count := count + 1;
    }
    assert count == LiveProbes(entities, pos, 7);

    // Left
    if EntityIsAlive(entities, pos, Negative, Remain) {
      count := count + 1;
    }
    assert count == LiveProbes(entities, pos, ProbeCount);
    ProbesCountNeighbours(entities, pos);
  }

  /** One row of the result: every cell of row y stepped, in order. */
  method NextRow(currentEntities: Pattern, y: nat) returns (retRow: seq<State>)
    requires Rectangular(currentEntities) && y < |currentEntities|
    ensures IsSteppedRow(currentEntities, y, retRow)
  {
    retRow := [];
    for x := 0 to |currentEntities[y]|
      invariant |retRow| == x
      invariant forall i :: 0 <= i < x ==>
        retRow[i] == RuleNext(currentEntities[y][i], Neighbours(currentEntities, y, i))
    {
      var count := CountLiveNeighbours(currentEntities, (x, y));
      var entity := currentEntities[y][x];
      if entity == Alive {
        retRow := retRow + [if 2 <= count <= 3 then Alive else Dead];
      } else {
        retRow := retRow + [if count == 3 then Alive else Dead];
      }
    }
  }

  /**
   * `rule_setter::set_rules`: the next generation as a new grid of the same shape, every count
   * made on the input, which is not changed.
   */
  method SetRules(currentEntities: Pattern) returns (ret: Pattern)
    requires Rectangular(currentEntities)
    ensures IsStep(currentEntities, ret)
  {
    ret := [];
    for y := 0 to |currentEntities|
      invariant |ret| == y
      invariant forall i :: 0 <= i < y ==> IsSteppedRow(currentEntities, i, ret[i])
    {
      var retRow := NextRow(currentEntities, y);
      ret := ret + [retRow];
    }
  }

  /** A step keeps the shape of the grid, and no cell of the result is `Unborn`. */
  lemma StepShape(g: Pattern, next: Pattern)
    requires Rectangular(g) && IsStep(g, next)
    ensures |next| == |g| && Rectangular(next)
    ensures forall y, x :: 0 <= y < |next| && 0 <= x < |next[y]| ==> next[y][x] != Unborn
  {
    forall y | 0 <= y < |next|
      ensures |next[y]| == |g[y]|
    {
      assert IsSteppedRow(g, y, next[y]);
    }
  }

  /**
   * On the same rectangular grid both engines bring the same cells to life; they differ only
   * where `Gameplay::set_rules` keeps a cell `Unborn` and this engine makes it `Dead`.
   */
  lemma EnginesAgree(g: Pattern, next: Pattern)
    requires Rectangular(g) && IsStep(g, next)
    ensures |next| == |GameplaySystem.Generation(g)|
    ensures forall i, j :: 0 <= i < |g| && 0 <= j < |g[i]| ==>
      |next[i]| == |GameplaySystem.Generation(g)[i]| &&
      (next[i][j] == Alive <==> GameplaySystem.Generation(g)[i][j] == Alive) &&
      (next[i][j] != GameplaySystem.Generation(g)[i][j] ==>
        next[i][j] == Dead && GameplaySystem.Generation(g)[i][j] == Unborn)
  {
    var other := GameplaySystem.Generation(g);
    GameplaySystem.GenerationCells(g);
    forall i, j | 0 <= i < |g| && 0 <= j < |g[i]|
      ensures |next[i]| == |other[i]|
      ensures next[i][j] == Alive <==> other[i][j] == Alive
      ensures next[i][j] != other[i][j] ==> next[i][j] == Dead && other[i][j] == Unborn
    {
      assert IsSteppedRow(g, i, next[i]);
      assert other[i][j] == GameplaySystem.NextState(g[i][j], Neighbours(g, i, j));
    }
  }
}
