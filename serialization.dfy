/**
 * src/ecs/systems/simple_serialization.rs: `flip_vector`, the transpose applied to a grid of
 * states before it is saved and after it is loaded. The JSON encoding and the file access
 * around it are not part of this model; `save` and `load` are the transposes they apply.
 */
module Serialization {
  import opened Entities
  import opened Grid

  type Pattern = seq<seq<State>>

  /**
   * What `flip_vector` may be given without panicking: at least one row (it reads the first),
   * and no row longer than the first (their cells are written into rows sized by the first).
   */
  predicate Flippable(original: Pattern) {
    |original| > 0 && forall x :: 0 <= x < |original| ==> |original[x]| <= |original[0]|
  }

  /**
   * The transpose of `original` as `flip_vector` lays it out: one row per cell of the first
   * row, one column per row of `original`; a cell no row supplies stays `Dead`.
   */
  function Transposed(original: Pattern): (t: Pattern)
    requires |original| > 0
  {
    seq(|original[0]|, y requires 0 <= y < |original[0]| =>
      seq(|original|, x requires 0 <= x < |original| =>
        if y < |original[x]| then original[x][y] else Dead))
  }

  /** The shape of the transpose, and where its cells come from. */
  lemma TransposedCells(original: Pattern)
    requires |original| > 0
    ensures |Transposed(original)| == |original[0]| && Rectangular(Transposed(original))
    ensures forall y, x :: 0 <= y < |original[0]| && 0 <= x < |original| ==>
      |Transposed(original)[y]| == |original| &&
      Transposed(original)[y][x] == (if y < |original[x]| then original[x][y] else Dead)
    ensures Rectangular(original) ==>
      forall y, x :: 0 <= y < |original[0]| && 0 <= x < |original| ==>
        Transposed(original)[y][x] == original[x][y]
  {
  }

  /**
   * On a non-empty rectangular grid the transpose is an involution, and the transpose can be
   * flipped again: a grid saved and loaded again is the grid that was saved.
   */
  lemma TransposeTwice(g: Pattern)
    requires NonEmpty(g) && Rectangular(g)
    ensures Flippable(Transposed(g))
    ensures Transposed(Transposed(g)) == g
  {
    var t := Transposed(g);
    TransposedCells(g);
    TransposedCells(t);
    var tt := Transposed(t);
    assert |tt| == |g|;
    forall x | 0 <= x < |g|
      ensures tt[x] == g[x]
    {
      assert |tt[x]| == |g[x]|;
      forall y | 0 <= y < |g[x]|
        ensures tt[x][y] == g[x][y]
      {
        assert tt[x][y] == t[y][x];
      }
    }
  }

  /** `ret` is the Dead-filled grid with its first x columns, and y cells of column x, copied. */
  ghost predicate FilledUpTo(original: Pattern, ret: Pattern, x: nat, y: nat)
    requires |original| > 0
  {
    |ret| == |original[0]| &&
    (forall r :: 0 <= r < |ret| ==> |ret[r]| == |original|) &&
    forall r, c :: 0 <= r < |ret| && 0 <= c < |original| ==>
      ret[r][c] == if c < x || (c == x && r < y) then (if r < |original[c]| then original[c][r] else Dead) else Dead
  }

  /** The pre-fill of `flip_vector`: `rows` rows of `cols` cells, all `Dead`. */
  method DeadFilled(rows: nat, cols: nat) returns (ret: Pattern)
    ensures |ret| == rows
    ensures forall r :: 0 <= r < rows ==> |ret[r]| == cols
    ensures forall r, c :: 0 <= r < rows && 0 <= c < cols ==> ret[r][c] == Dead
  {
    ret := [];
    for i := 0 to rows
      invariant |ret| == i
      invariant forall r :: 0 <= r < i ==> |ret[r]| == cols
      invariant forall r, c :: 0 <= r < i && 0 <= c < cols ==> ret[r][c] == Dead
    {
      var thisOne: seq<State> := [];
      for j := 0 to cols
        invariant |thisOne| == j
        invariant forall c :: 0 <= c < j ==> thisOne[c] == Dead
      {
        thisOne := thisOne + [Dead];
      }
      ret := ret + [thisOne];
    }
  }

  /** Copying one more cell of column x keeps `FilledUpTo` one step further on. */
  lemma FillStep(original: Pattern, ret: Pattern, x: nat, y: nat)
    requires Flippable(original) && x < |original| && y < |original[x]|
    requires FilledUpTo(original, ret, x, y)
    ensures y < |ret| && x < |ret[y]|
    ensures FilledUpTo(original, ret[y := ret[y][x := original[x][y]]], x, y + 1)
  {
  }

  /** The whole grid filled is the transpose. */
  lemma FilledIsTransposed(original: Pattern, ret: Pattern)
    requires Flippable(original) && FilledUpTo(original, ret, |original|, 0)
    ensures ret == Transposed(original)
  {
    TransposedCells(original);
    forall r | 0 <= r < |ret|
      ensures ret[r] == Transposed(original)[r]
    {
    }
  }

  /**
   * `flip_vector`: a Dead-filled grid of `original[0].len()` rows of `original.len()` cells,
   * then cell `ret[y][x]` set from `original[x][y]` for every cell of `original`.
   */
  method FlipVector(original: Pattern) returns (ret: Pattern)
    requires Flippable(original)
    ensures ret == Transposed(original)
  {
    ret := DeadFilled(|original[0]|, |original|);
    for x := 0 to |original|
      invariant FilledUpTo(original, ret, x, 0)
    {
      var thisRow := original[x];
      for y := 0 to |thisRow|
        invariant FilledUpTo(original, ret, x, y)
      {
        FillStep(original, ret, x, y);
        ret := ret[y := ret[y][x := thisRow[y]]];
      }
    }
    FilledIsTransposed(original, ret);
  }

  /**
   * `save`: what is written is the transpose of `data`; for a non-empty rectangular grid,
   * transposing it back recovers `data`.
   */
  method Save(data: Pattern) returns (written: Pattern)
    requires Flippable(data)
    ensures written == Transposed(data)
    ensures NonEmpty(data) && Rectangular(data) ==>
      Flippable(written) && Transposed(written) == data
  {
    written := FlipVector(data);
    if NonEmpty(data) && Rectangular(data) {
      TransposeTwice(data);
    }
  }

  /**
   * `load`: the grid returned is the transpose of what was parsed, so loading what `save`
   * wrote returns the saved grid.
   */
  method Load(parsed: Pattern) returns (loaded: Pattern)
    requires Flippable(parsed)
    ensures loaded == Transposed(parsed)
    ensures NonEmpty(parsed) && Rectangular(parsed) ==> Transposed(loaded) == parsed
  {
    loaded := FlipVector(parsed);
    if NonEmpty(parsed) && Rectangular(parsed) {
      TransposeTwice(parsed);
    }
  }
}
