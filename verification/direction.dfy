/**
 * The client's direction classifier and a proxy's animation pose.
 */
module Direction {
  import opened Wrappers
  import opened Protocol

  datatype Direction = Left | Right | Up | Down

  /** `isLeftDirection(current, previous)`. */
  predicate IsLeft(cur: Entry, prev: Entry) {
    cur.x < prev.x
  }

  /** `isRightDirection(current, previous)`. */
  predicate IsRight(cur: Entry, prev: Entry) {
    cur.x > prev.x
  }

  /** `isUpDirection(current, previous)`: screen `y` grows downwards. */
  predicate IsUp(cur: Entry, prev: Entry) {
    cur.y < prev.y
  }

  /** `isDownDirection(current, previous)`. */
  predicate IsDown(cur: Entry, prev: Entry) {
    cur.y > prev.y
  }

  /**
   * The `if / else if` chain of the update loop: the first of left, right,
   * up, down that holds, or none when the position did not change. A
   * horizontal change always wins; up or down is reported only when `x`
   * stayed the same.
   */
  function Classify(cur: Entry, prev: Entry): (d: Option<Direction>)
    ensures d == Some(Left) <==> cur.x < prev.x
    ensures d == Some(Right) <==> cur.x > prev.x
    ensures d == Some(Up) <==> cur.x == prev.x && cur.y < prev.y
    ensures d == Some(Down) <==> cur.x == prev.x && cur.y > prev.y
    ensures d == None <==> cur.x == prev.x && cur.y == prev.y
  {
    if IsLeft(cur, prev) then Some(Left)
    else if IsRight(cur, prev) then Some(Right)
    else if IsUp(cur, prev) then Some(Up)
    else if IsDown(cur, prev) then Some(Down)
    else None
  }

  /**
   * A proxy sprite's animation state: the initial `left-walk-003` frame
   * with nothing playing, a walk loop playing, or a walk stopped on its
   * current frame.
   */
  datatype Pose = Idle | Walking(dir: Direction) | Stopped(dir: Direction)

  /** `anims.play(walk, true)` with the walk animation of `d`: that walk plays, restarting nothing if it already does. */
  function Play(p: Pose, d: Direction): (r: Pose)
    ensures r.Walking? && r.dir == d
  {
    Walking(d)
  }

  /** `anims.stop()`: a playing walk halts on its frame; a sprite not playing is unaffected. */
  function Halt(p: Pose): (r: Pose)
    ensures !r.Walking?
    ensures p.Walking? ==> r == Stopped(p.dir)
    ensures !p.Walking? ==> r == p
  {
    match p
    case Walking(d) => Stopped(d)
    case _ => p
  }
}
