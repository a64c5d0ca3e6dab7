/**
 * What gameplay.rs and rule_setter.rs share about the cell grid: the rectangular shape,
 * the `Move` enum with `reverse` and the toroidal `wrap` (each file carries an identical copy),
 * the order in which both probe the eight neighbours, and the reference neighbour count both
 * rule engines are proved against: the eight Moore offsets taken modulo the grid dimensions.
 */
module Grid {
  import opened Entities
  import opened Sequences

  /** Every row is as long as the first one (vacuous for the empty grid). */
  predicate Rectangular<T>(g: seq<seq<T>>) {
    forall i :: 0 <= i < |g| ==> |g[i]| == |g[0]|
  }

  /** At least one row, and the first row holds at least one cell. */
  predicate NonEmpty<T>(g: seq<seq<T>>) {
    |g| > 0 && |g[0]| > 0
  }

  /** One step along an axis. */
  datatype Move = Positive | Negative | Remain

  /** The signed distance a move travels. */
  function Delta(m: Move): int {
    match m
    case Positive => 1
    case Negative => -1
    case Remain => 0
  }

  /** `Move::reverse` (gameplay.rs and rule_setter.rs): the move in the opposite direction. */
  function Reverse(m: Move): (r: Move)
    ensures Delta(r) == -Delta(m)
  {
    match m
    case Positive => Negative
    case Negative => Positive
    case Remain => Remain
  }

  lemma ReverseIsInvolution(m: Move)
    ensures Reverse(Reverse(m)) == m
  {
  }

  /**
   * `wrap`: one step from `current` along an axis of `wrapSize` cells, leaving one edge
   * re-enters at the other. A zero-sized axis makes the Rust code underflow, hence the requires.
   * For an in-range coordinate this is exactly addition modulo the axis length.
   */
  function Wrap(current: nat, moveAmount: Move, wrapSize: nat): (r: nat)
    requires wrapSize > 0
    ensures current < wrapSize ==> r < wrapSize
    ensures moveAmount == Remain ==> r == current
  {
    if current == 0 && moveAmount == Negative then
      wrapSize - 1
    else if current == wrapSize - 1 && moveAmount == Positive then
      0
    else
      match moveAmount
      case Positive => current + 1
      case Negative => current - 1
      case Remain => current
  }

  /** Modulo of a value one period below the range. */
  lemma ModBelow(a: int, n: int)
    requires -n <= a < 0
    ensures a % n == a + n
  {
  }

  /** Modulo of a value one period above the range. */
  lemma ModAbove(a: int, n: int)
    requires n <= a < 2 * n
    ensures a % n == a - n
  {
  }

  /** Modulo of a value already in range. */
  lemma ModInRange(a: int, n: int)
    requires 0 <= a < n
    ensures a % n == a
  {
  }

  lemma ModTwice(n: int)
    requires n > 0
    ensures (2 * n) % n == 0
  {
  }

  /**
   * The coordinate `a` names on an axis of `n` cells that closes into a ring: `a` shifted by a
   * whole number of turns into [0, n).
   */
  function Torus(a: int, n: int): (r: int)
    requires n > 0
    ensures 0 <= r < n
    decreases if a < 0 then n - a else a
  {
    if a < 0 then Torus(a + n, n) else if a >= n then Torus(a - n, n) else a
  }

  /** Within one turn of the range the ring coordinate is Euclidean modulo. */
  lemma TorusIsModulo(a: int, n: int)
    requires n > 0 && -n <= a < 2 * n
    ensures Torus(a, n) == a % n
  {
    if a < 0 {
      ModBelow(a, n);
      ModInRange(a + n, n);
    } else if a >= n {
      ModAbove(a, n);
      ModInRange(a - n, n);
    } else {
      ModInRange(a, n);
    }
  }

  /** For an in-range coordinate `wrap` is addition of the move's delta modulo the axis length. */
  lemma WrapIsModular(current: nat, moveAmount: Move, wrapSize: nat)
    requires current < wrapSize
    ensures Wrap(current, moveAmount, wrapSize) == (current + Delta(moveAmount)) % wrapSize
    ensures Wrap(current, moveAmount, wrapSize) == (current + Delta(moveAmount) + wrapSize) % wrapSize
    ensures Wrap(current, moveAmount, wrapSize) == Torus(current + Delta(moveAmount), wrapSize)
  {
    TorusIsModulo(current + Delta(moveAmount), wrapSize);
    var a := current + Delta(moveAmount);
    if a < 0 {
      ModBelow(a, wrapSize);
      ModInRange(a + wrapSize, wrapSize);
    } else if a == wrapSize {
      ModAbove(a, wrapSize);
      ModTwice(wrapSize);
    } else {
      ModInRange(a, wrapSize);
      ModAbove(a + wrapSize, wrapSize);
    }
  }

  /** The number of neighbour probes each `set_rules` makes per cell. */
  const ProbeCount: nat := 8

  /**
   * Probe k of both `set_rules`, as the (horizontal, vertical) moves they pass to
   * `entity_is_alive`, in their order: up-left, up, up-right, right, down-right, down,
   * down-left, left.
   */
  function SourceProbe(k: nat): (Move, Move)
    requires k < ProbeCount
  {
    match k
    case 0 => (Negative, Positive)
    case 1 => (Remain, Positive)
    case 2 => (Positive, Positive)
    case 3 => (Positive, Remain)
    case 4 => (Positive, Negative)
    case 5 => (Remain, Negative)
    case 6 => (Negative, Negative)
    case _ => (Negative, Remain)
  }

  /** The Moore neighbourhood as (outer index, inner index) offsets, in row-major order. */
  const Moore: seq<(int, int)> :=
    [(-1, -1), (-1, 0), (-1, 1), (0, -1), (0, 1), (1, -1), (1, 0), (1, 1)]

  /** An offset to one of the eight cells that touch a cell. */
  predicate IsNeighbourOffset(o: (int, int)) {
    -1 <= o.0 <= 1 && -1 <= o.1 <= 1 && o != (0, 0)
  }

  /** `Moore` lists every neighbour offset, and each one once. */
  lemma MooreIsTheNeighbourhood()
    ensures |Moore| == 8
    ensures forall o :: o in Moore <==> IsNeighbourOffset(o)
    ensures NoDuplicates(Moore)
  {
  }

  /** 1 when the cell at (a, b), both taken around the torus, is alive; else 0. */
  function Live(g: seq<seq<State>>, a: int, b: int): (n: nat)
    requires NonEmpty(g) && Rectangular(g)
    ensures n <= 1
  {
    if g[Torus(a, |g|)][Torus(b, |g[0]|)] == Alive then 1 else 0
  }

  /** The number of live cells among (i, j) + o for the offsets o in `offsets`, with repetition. */
  function CountOver(g: seq<seq<State>>, i: int, j: int, offsets: seq<(int, int)>): (n: nat)
    requires NonEmpty(g) && Rectangular(g)
    ensures n <= |offsets|
  {
    if offsets == [] then 0
    else
      var o := offsets[|offsets| - 1];
      CountOver(g, i, j, offsets[..|offsets| - 1]) + Live(g, i + o.0, j + o.1)
  }

  /** The reference live-neighbour count of cell (i, j) on the torus. */
  function Neighbours(g: seq<seq<State>>, i: int, j: int): (n: nat)
    requires NonEmpty(g) && Rectangular(g)
    ensures n <= 8
  {
    CountOver(g, i, j, Moore)
  }

  lemma {:induction false} CountOverAppend(g: seq<seq<State>>, i: int, j: int, a: seq<(int, int)>, b: seq<(int, int)>)
    requires NonEmpty(g) && Rectangular(g)
    ensures CountOver(g, i, j, a + b) == CountOver(g, i, j, a) + CountOver(g, i, j, b)
    decreases |b|
  {
    if b == [] {
      assert a + b == a;
    } else {
      var b' := b[..|b| - 1];
      assert (a + b)[..|a + b| - 1] == a + b';
      CountOverAppend(g, i, j, a, b');
    }
  }

  /** Taking the offset at position k out of a sequence removes that cell from the count. */
  lemma {:induction false} CountOverRemove(g: seq<seq<State>>, i: int, j: int, q: seq<(int, int)>, k: nat)
    requires NonEmpty(g) && Rectangular(g) && k < |q|
    ensures CountOver(g, i, j, q) ==
      CountOver(g, i, j, q[..k] + q[k + 1..]) + Live(g, i + q[k].0, j + q[k].1)
  {
    assert q == (q[..k] + [q[k]]) + q[k + 1..];
    CountOverAppend(g, i, j, q[..k] + [q[k]], q[k + 1..]);
    CountOverSnoc(g, i, j, q[..k], q[k]);
    CountOverAppend(g, i, j, q[..k], q[k + 1..]);
  }

  /** Counting over a rearrangement of the offsets gives the same count. */
  lemma {:induction false} CountOverPermutation(g: seq<seq<State>>, i: int, j: int, p: seq<(int, int)>, q: seq<(int, int)>)
    requires NonEmpty(g) && Rectangular(g)
    requires multiset(p) == multiset(q)
    ensures CountOver(g, i, j, p) == CountOver(g, i, j, q)
    decreases |p|
  {
    if p == [] {
      assert |q| == |multiset(q)| == 0;
    } else {
      var o := p[|p| - 1];
      var p' := p[..|p| - 1];
      assert p == p' + [o];
      assert o in multiset(q);
      assert o in q;
      var k :| 0 <= k < |q| && q[k] == o;
      var q' := q[..k] + q[k + 1..];
      MultisetSplit(q, k);
      assert multiset(p') + multiset{o} == multiset(p);
      MultisetCancel(multiset(p'), multiset(q'), o);
      CountOverPermutation(g, i, j, p', q');
      CountOverRemove(g, i, j, q, k);
    }
  }

  /** Counting one more offset adds that offset's cell. */
  lemma {:induction false} CountOverSnoc(g: seq<seq<State>>, i: int, j: int, s: seq<(int, int)>, o: (int, int))
    requires NonEmpty(g) && Rectangular(g)
    ensures CountOver(g, i, j, s + [o]) == CountOver(g, i, j, s) + Live(g, i + o.0, j + o.1)
  {
    assert (s + [o])[..|s|] == s;
  }
}
