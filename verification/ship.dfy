/**
  The player's ship (`function Ship()` and its `move`).

  Each frame the ship takes one explicit Euler step with a fixed timestep: while
  the space bar is held its velocity is first overwritten by an upward impulse,
  then the position advances by the velocity and the velocity gains
  `gravity * delta`. Numbers are reals, an idealisation of JavaScript doubles;
  drawing and clearing the sprite are not modelled.
*/
module ShipMotion {
  import opened KeyInput

  datatype Ship = Ship(x: real, y: real, velocity: real, gravity: real, delta: real, counter: nat)

  /** The velocity the space bar sets. */
  const Impulse: real := -6.0

  /** `new Ship()` (gravity 2, velocity 1, timestep 0.1) placed by `init(x, y, ...)`. */
  function NewShip(x: real, y: real): (s: Ship)
  {
    Ship(x, y, 1.0, 2.0, 0.1, 0)
  }

  /** `move()`, reading the space bar from the key status. */
  function Move(s: Ship, keys: KeyStatus): (r: Ship)
    ensures r.x == s.x && r.gravity == s.gravity && r.delta == s.delta
    ensures r.counter == s.counter + 1
  {
    var v := if Held(keys, Space) then Impulse else s.velocity;
    s.(counter := s.counter + 1, y := s.y + v, velocity := v + s.gravity * s.delta)
  }

  /** The step backwards: the state before a move, given the state after it and
      the velocity the position advanced by. */
  function Unmove(t: Ship): (s: Ship)
    requires t.counter >= 1
  {
    var v := t.velocity - t.gravity * t.delta;
    t.(counter := t.counter - 1, y := t.y - v, velocity := v)
  }

  /** Order of operations: the position advances by the velocity as it stood
      before gravity was added, and the new velocity is that velocity plus
      `gravity * delta`; without the space bar that velocity is the old one. */
  lemma MoveIsEulerStep(s: Ship, keys: KeyStatus)
    ensures var r := Move(s, keys);
            r.y - s.y == r.velocity - s.gravity * s.delta
    ensures !Held(keys, Space) ==> Move(s, keys).velocity - s.velocity == s.gravity * s.delta
  {
  }

  /** The impulse overrides: with the space bar held the step does not depend on
      the velocity before it, and the ship rises by exactly 6. */
  lemma ImpulseOverrides(s: Ship, v: real, keys: KeyStatus)
    requires Held(keys, Space)
    ensures Move(s, keys) == Move(s.(velocity := v), keys)
    ensures Move(s, keys).y == s.y - 6.0
    ensures Move(s, keys).velocity == Impulse + s.gravity * s.delta
  {
  }

  /** `Unmove` undoes `Move`, up to the velocity the impulse overwrote. */
  lemma UnmoveMove(s: Ship, keys: KeyStatus)
    ensures Unmove(Move(s, keys)) == if Held(keys, Space) then s.(velocity := Impulse) else s
  {
  }

  /** From rest, with no key held, the first frame moves the ship down by its
      initial velocity 1 and leaves it falling at `1 + 2 * 0.1`. */
  lemma FirstStepFromRest(x: real, y: real)
    ensures var r := Move(NewShip(x, y), InitialStatus());
            r.y == y + 1.0 && r.velocity == 1.2 && r.counter == 1
  {
    assert !Held(InitialStatus(), Space);
  }

  /** The space bar is read only through the key status, and only its entry
      matters: other keys never change the step. */
  lemma OnlySpaceMatters(s: Ship, keys: KeyStatus, e: KeyEvent)
    requires Code(e) in KeyCodes && KeyCodes[Code(e)] != Space
    ensures Move(s, KeyDown(keys, e)) == Move(s, keys)
    ensures Move(s, KeyUp(keys, e)) == Move(s, keys)
  {
  }
}
