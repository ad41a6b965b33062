/**
 * The server's `movement` handler: how a movement intent becomes the
 * velocity of the player's physics body.
 *
 * A velocity component is represented exactly by its sign and its square
 * (it stands for the real number of that sign whose absolute value is the
 * square root of `square`), so normalising a vector needs no
 * square root: normalising and scaling by `speed` divides every square by
 * the squared length and multiplies it by `speed * speed`.
 */
module Velocity {
  import opened Protocol

  /** The movement speed in world units per second. */
  const Speed: real := 175.0

  datatype Sign = Neg | Zero | Pos

  /** One velocity component: the real of sign `sign` and absolute value the square root of `square`. */
  datatype Component = Component(sign: Sign, square: real)

  datatype Vector = Vector(x: Component, y: Component)

  /** The component value zero. */
  const Still: Component := Component(Zero, 0.0)

  /** The body velocity after `setVelocity(0)`. */
  const Rest: Vector := Vector(Still, Still)

  /** A component is well formed: non-negative square, zero exactly when the sign is zero. */
  predicate WellFormed(c: Component) {
    c.square >= 0.0 && (c.sign == Zero <==> c.square == 0.0)
  }

  /** The squared length of a vector. */
  function Magnitude2(v: Vector): real {
    v.x.square + v.y.square
  }

  /** The sign of the horizontal velocity the `left` / `right` branches choose: `left` is checked first. */
  function HorizontalSign(m: Movement): Sign {
    if m.left then Neg else if m.right then Pos else Zero
  }

  /** The sign of the vertical velocity the `up` / `down` branches choose: `up` is checked first. */
  function VerticalSign(m: Movement): Sign {
    if m.up then Neg else if m.down then Pos else Zero
  }

  /** The component whose value is `+magnitude`, `-magnitude` or zero, by `sign`. */
  function Signed(sign: Sign, magnitude: real): Component {
    if sign == Zero then Still else Component(sign, magnitude * magnitude)
  }

  /**
   * The raw body velocity after the handler has reset it to zero and run
   * its two `if / else if` chains, before normalisation.
   */
  function RawVelocity(m: Movement): (v: Vector)
    ensures m.left ==> v.x == Component(Neg, Speed * Speed)
    ensures !m.left && m.right ==> v.x == Component(Pos, Speed * Speed)
    ensures !m.left && !m.right ==> v.x == Still
    ensures m.up ==> v.y == Component(Neg, Speed * Speed)
    ensures !m.up && m.down ==> v.y == Component(Pos, Speed * Speed)
    ensures !m.up && !m.down ==> v.y == Still
  {
    var v := Rest;
    var v := if m.left then v.(x := Signed(Neg, Speed)) else if m.right then v.(x := Signed(Pos, Speed)) else v;
    var v := if m.up then v.(y := Signed(Neg, Speed)) else if m.down then v.(y := Signed(Pos, Speed)) else v;
    v
  }

  /** How many components of `v` are non-zero. */
  function Axes(v: Vector): nat {
    (if v.x.sign == Zero then 0 else 1) + (if v.y.sign == Zero then 0 else 1)
  }

  /** Well-formed, with both components of equal magnitude when both are non-zero, as every raw velocity of the handler is. */
  predicate Balanced(v: Vector) {
    && WellFormed(v.x) && WellFormed(v.y)
    && (v.x.sign != Zero && v.y.sign != Zero ==> v.x.square == v.y.square)
  }

  /** A non-zero component with its square replaced by `share`, keeping its sign. */
  function Rescaled(c: Component, share: real): Component {
    if c.sign == Zero then Still else Component(c.sign, share)
  }

  /**
   * Phaser's `normalize().scale(speed)`, given `speed2 == speed * speed`,
   * on a balanced vector with `n` non-zero components of square `a`: the
   * squared length is `n * a`, so dividing by the length and multiplying by
   * `speed` leaves every non-zero component with square `speed2 / n` and
   * its sign. The zero vector is left unchanged.
   */
  function NormalizeScale(v: Vector, speed2: real): (r: Vector)
    requires Balanced(v)
    requires speed2 > 0.0
    ensures WellFormed(r.x) && WellFormed(r.y)
    ensures r.x.sign == v.x.sign && r.y.sign == v.y.sign
    ensures Magnitude2(v) == 0.0 ==> r == Rest
    ensures Magnitude2(v) != 0.0 ==> Magnitude2(r) == speed2
    ensures v.x.square == v.y.square ==> r.x.square == r.y.square
  {
    var n := Axes(v);
    if n == 0 then Rest
    else
      var share := if n == 1 then speed2 else speed2 / 2.0;
      Vector(Rescaled(v.x, share), Rescaled(v.y, share))
  }

  /**
   * The `movement` handler's velocity rule. The result depends on the
   * intent alone: the reset at the start of the handler lets nothing of an
   * earlier velocity survive.
   */
  function Steer(m: Movement): (v: Vector)
    ensures v.x.sign == HorizontalSign(m) && v.y.sign == VerticalSign(m)
    ensures WellFormed(v.x) && WellFormed(v.y)
    ensures HorizontalSign(m) == Zero && VerticalSign(m) == Zero ==> v == Rest
    ensures HorizontalSign(m) != Zero || VerticalSign(m) != Zero ==> Magnitude2(v) == Speed * Speed
    ensures HorizontalSign(m) != Zero && VerticalSign(m) != Zero ==> v.x.square == v.y.square == Speed * Speed / 2.0
    ensures HorizontalSign(m) != Zero && VerticalSign(m) == Zero ==> v.x.square == Speed * Speed
    ensures HorizontalSign(m) == Zero && VerticalSign(m) != Zero ==> v.y.square == Speed * Speed
  {
    NormalizeScale(RawVelocity(m), Speed * Speed)
  }
}
