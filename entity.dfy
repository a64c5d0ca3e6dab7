/**
 * src/entity/entity.rs: the three-valued cell state and the grid entity that carries it.
 * An `Entity` is a plain struct the grid's `Vec`s own by value, so it is a datatype here, and
 * `flip_state(&mut self)` yields the updated entity together with the state it returns.
 */
module Entities {

  /** The state of one cell. `Unborn` is a cell never toggled; `Dead` one that was alive once. */
  datatype State = Unborn | Alive | Dead

  /** The floating-point position of an entity (utilities/vec2.rs); only stored, never computed with. */
  datatype Vec2 = Vec2(x: real, y: real)

  /** The state `flip_state` moves a cell to: anything that is not alive becomes alive, alive becomes dead. */
  function Flipped(s: State): (r: State)
    ensures r != Unborn
    ensures r == Alive <==> s != Alive
  {
    match s
    case Unborn => Alive
    case Dead => Alive
    case Alive => Dead
  }

  datatype Entity = Entity(position: Vec2, state: State)
  {
    /**
     * `Entity::flip_state`: the entity after the toggle and the state it returns, which is the
     * state it now holds; the position is untouched.
     */
    function FlipState(): (r: (Entity, State))
      ensures r.0.position == position && r.1 == r.0.state
      ensures r.1 != Unborn && (r.1 == Alive <==> state != Alive)
    {
      var newState := Flipped(state);
      (this.(state := newState), newState)
    }
  }

  /** `Entity::new`: a fresh entity at `position`, `Unborn`. */
  function NewEntity(position: Vec2): (e: Entity)
    ensures e.position == position && e.state == Unborn
  {
    Entity(position, Unborn)
  }

  /** Two flips bring a cell that was ever alive back to its state; an unborn one ends up dead. */
  lemma FlipTwice(e: Entity)
    ensures var twice := e.FlipState().0.FlipState().0;
      twice.position == e.position && twice.state == (if e.state == Unborn then Dead else e.state)
  {
  }
}
