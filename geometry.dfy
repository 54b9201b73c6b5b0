/**
 Grid geometry of the snake game: cell positions, the four headings and
 their integer encoding, one step of the head, the wall rule, apple
 placement and the tick interval. Everything here is pure.
 */
module Geometry {

  /** A grid cell; x grows to the right, y grows downwards. */
  datatype Position = Position(x: int, y: int)

  // Heading encoding: opposite headings are negatives of each other, and
  // the two vertical headings have absolute value 1, the horizontal ones 2.
  const Right: int := -2
  const Down: int := -1
  const Up: int := 1
  const Left: int := 2

  predicate IsDirection(d: int) {
    d == Right || d == Down || d == Up || d == Left
  }

  predicate IsVertical(d: int) {
    d == Up || d == Down
  }

  /** Two headings lie on different axes. */
  predicate Perpendicular(a: int, b: int) {
    IsVertical(a) != IsVertical(b)
  }

  function Abs(v: int): (r: int)
    ensures r >= 0
    ensures r == v || r == -v
  {
    if v < 0 then -v else v
  }

  /** The heading after a tick: the pending one is adopted only when its
      absolute value differs from the current one's. */
  function Turn(cur: int, next: int): (d: int)
    ensures d == cur || d == next
  {
    if Abs(cur) != Abs(next) then next else cur
  }

  /** On the four headings the absolute-value test is exactly "perpendicular":
      a perpendicular heading is adopted, the same or the opposite one is not,
      so the snake can never reverse onto itself in one tick. */
  lemma TurnOnlyPerpendicular(cur: int, next: int)
    requires IsDirection(cur) && IsDirection(next)
    ensures Turn(cur, next) != cur <==> Perpendicular(cur, next)
    ensures Perpendicular(cur, next) ==> Turn(cur, next) == next
    ensures next == -cur ==> Turn(cur, next) == cur
    ensures Turn(cur, next) != -cur
    ensures IsDirection(Turn(cur, next))
  {
  }

  /** The head one cell further along heading d; an unknown heading does not move it. */
  function Advance(p: Position, d: int): (q: Position)
    ensures IsDirection(d) ==> Abs(q.x - p.x) + Abs(q.y - p.y) == 1
    ensures IsVertical(d) ==> q.x == p.x
    ensures IsDirection(d) && !IsVertical(d) ==> q.y == p.y
    ensures IsDirection(d) ==> q.x + q.y == p.x + p.y - (if d > 0 then 1 else -1)
    ensures !IsDirection(d) ==> q == p
  {
    if d == Up then p.(y := p.y - 1)
    else if d == Down then p.(y := p.y + 1)
    else if d == Left then p.(x := p.x - 1)
    else if d == Right then p.(x := p.x + 1)
    else p
  }

  predicate OnBoard(p: Position, size: int) {
    0 <= p.x < size && 0 <= p.y < size
  }

  /** Strictly inside the wall ring. */
  predicate Interior(p: Position, size: int) {
    1 <= p.x <= size - 2 && 1 <= p.y <= size - 2
  }

  /** The wall ring: the outermost rows and columns of the board. */
  predicate OnRing(p: Position, size: int) {
    OnBoard(p, size) && !Interior(p, size)
  }

  /** The wall rule: the first matching ring condition, tried in the order
      x == 0, x == size-1, y == 0, y == size-1, moves that one coordinate to
      the opposite interior edge; a hit is reported iff the position changed. */
  function WallCheck(p: Position, size: int): (r: (Position, bool))
    ensures r.1 <==> r.0 != p
    ensures r.0.x == p.x || r.0.y == p.y
  {
    var q :=
      if p.x == 0 then p.(x := size - 2)
      else if p.x == size - 1 then p.(x := 1)
      else if p.y == 0 then p.(y := size - 2)
      else if p.y == size - 1 then p.(y := 1)
      else p;
    if q != p then (q, true) else (p, false)
  }

  /** An interior position passes the wall rule untouched. */
  lemma WallCheckKeepsInterior(p: Position, size: int)
    requires Interior(p, size)
    ensures WallCheck(p, size) == (p, false)
  {
  }

  /** On the board, a hit is reported exactly for ring positions; only the
      coordinate named by the first matching rule moves. */
  lemma WallCheckRing(p: Position, size: int)
    requires size >= 3 && OnBoard(p, size)
    ensures WallCheck(p, size).1 <==> OnRing(p, size)
    ensures p.x == 0 ==> WallCheck(p, size).0 == Position(size - 2, p.y)
    ensures p.x == size - 1 ==> WallCheck(p, size).0 == Position(1, p.y)
    ensures 0 < p.x < size - 1 && p.y == 0 ==> WallCheck(p, size).0 == Position(p.x, size - 2)
    ensures 0 < p.x < size - 1 && p.y == size - 1 ==> WallCheck(p, size).0 == Position(p.x, 1)
  {
  }

  /** A corner is only moved along x, so it stays on the ring. */
  lemma CornerStaysOnRing(size: int)
    requires size >= 4
    ensures WallCheck(Position(0, 0), size) == (Position(size - 2, 0), true)
    ensures OnRing(WallCheck(Position(0, 0), size).0, size)
  {
  }

  /** One step from an interior cell, followed by the wall rule, lands in the
      interior again: this is what keeps a wrapping snake on the board. */
  lemma WrapAfterStep(p: Position, d: int, size: int)
    requires size >= 3 && Interior(p, size) && IsDirection(d)
    ensures OnBoard(Advance(p, d), size)
    ensures Interior(WallCheck(Advance(p, d), size).0, size)
    ensures WallCheck(Advance(p, d), size).1 <==> OnRing(Advance(p, d), size)
  {
  }

  /** Apple placement from two draws r1, r2 in [0, size-2). */
  function Spawn(size: int, r1: int, r2: int): (a: Position)
    requires 0 <= r1 < size - 2 && 0 <= r2 < size - 2
    ensures Interior(a, size)
  {
    Position(r1 + 1, r2 + 1)
  }

  /** Every interior cell is produced by exactly one pair of draws. */
  lemma SpawnCoversInterior(p: Position, size: int)
    requires Interior(p, size)
    ensures Spawn(size, p.x - 1, p.y - 1) == p
    ensures forall r1, r2 :: 0 <= r1 < size - 2 && 0 <= r2 < size - 2 && Spawn(size, r1, r2) == p ==> r1 == p.x - 1 && r2 == p.y - 1
  {
  }

  /** Integer halving that truncates toward zero, as Go's `/` does. */
  function HalfTowardZero(n: int): (h: int)
    ensures 2 * Abs(h) <= Abs(n) < 2 * Abs(h) + 2
    ensures h > 0 ==> n > 0
    ensures h < 0 ==> n < 0
    ensures n >= 0 ==> h == n / 2
  {
    if n >= 0 then n / 2 else -((-n) / 2)
  }

  /** Milliseconds between two ticks at a difficulty level. */
  function IntervalMs(level: int): (ms: int)
    ensures 1 <= level <= 10 ==> 25 <= ms <= 475
    ensures level > 10 ==> ms < 25
  {
    525 - level * 50
  }

  /** A higher level always ticks faster, by 50 ms per level. */
  lemma IntervalDecreases(l1: int, l2: int)
    requires l1 < l2
    ensures IntervalMs(l2) < IntervalMs(l1)
    ensures IntervalMs(l1) - IntervalMs(l2) == 50 * (l2 - l1)
  {
  }
}
