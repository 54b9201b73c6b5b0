/**
 The running game: the state the game loop owns and the per-tick update.
 Closing the one-shot exit signal is the flag `exited`; the keyboard
 listener's only effect, the pending heading, is the field `nextDirection`.
 */
module Game {
  import opened Geometry
  import opened Body

  /** The keys the listener reacts to; any other key changes nothing. */
  datatype Key = ArrowUp | ArrowDown | ArrowLeft | ArrowRight | OtherKey

  /** What happens between two ticks: one key press, and the two draws the
      apple spawner uses if this tick eats the apple. */
  datatype Input = Input(key: Key, r1: int, r2: int)

  /** Each apple adds 10 points: the score is 10 per segment grown. */
  const ApplePoints: int := 10

  /** Where the head lands after the wall rule: outside no-clip mode a wall
      hit leaves it on the ring cell; otherwise it takes the rule's position,
      which wraps it through the wall. */
  function Landing(raw: Position, size: int, debug: bool): (p: Position)
    ensures !WallCheck(raw, size).1 ==> p == raw
    ensures !debug && WallCheck(raw, size).1 ==> p == raw
    ensures debug ==> p == WallCheck(raw, size).0
  {
    if !debug && WallCheck(raw, size).1 then raw else WallCheck(raw, size).0
  }

  /** How often a tick closes the exit signal when the unwrapped new head is
      raw: once per segment of the old body on raw (the tail included), and
      once more for a wall hit outside no-clip mode. */
  function Closes(body: seq<Position>, raw: Position, size: int, debug: bool): (c: nat)
    ensures c > 0 <==> raw in body || (!debug && WallCheck(raw, size).1)
  {
    CollisionCount(body, raw) + if !debug && WallCheck(raw, size).1 then 1 else 0
  }

  /** The body after a tick: it grows by one when the apple was eaten. */
  function Moved(body: seq<Position>, head: Position, ate: bool): (r: seq<Position>)
    requires |body| > 0
    ensures |r| == |body| + (if ate then 1 else 0)
    ensures r[0] == head
    ensures forall i :: 1 <= i < |body| ==> r[i] == body[i - 1]
    ensures ate ==> r[1..] == body
  {
    if ate then [head] + body else Shift(body, head)
  }

  /** The body part of a tick: step the head along d, scan the old body for
      it, apply the wall rule, then shift (and grow when ate). Returns how
      often the exit signal was closed and the new body. */
  method MoveBody(body: seq<Position>, d: int, size: int, debug: bool, ate: bool)
    returns (quits: nat, nb: seq<Position>)
    requires |body| > 0
    ensures quits == Closes(body, Advance(body[0], d), size, debug)
    ensures nb == Moved(body, Landing(Advance(body[0], d), size, debug), ate)
  {
    var raw := Advance(body[0], d);
    quits := CountCollisions(body, raw);
    var check := WallCheck(raw, size);
    var head := raw;
    if !debug && check.1 {
      quits := quits + 1;
    } else {
      head := check.0;
    }
    nb := ShiftBody(body, head);
    if ate {
      GrowIsCons(body, head);
      nb := nb + [body[|body| - 1]];
    }
  }

  /** A tick from a body inside the walls puts the head on the board; if the
      signal is not closed the body stays inside the walls; and outside
      no-clip mode a body without overlaps closes the signal at most once and,
      while running, keeps having no overlaps. */
  lemma TickKeepsShape(body: seq<Position>, d: int, size: int, debug: bool, ate: bool)
    requires size >= 3 && |body| > 0 && IsDirection(d) && AllInterior(body, size)
    ensures OnBoard(Landing(Advance(body[0], d), size, debug), size)
    ensures Closes(body, Advance(body[0], d), size, debug) == 0 ==>
              AllInterior(Moved(body, Landing(Advance(body[0], d), size, debug), ate), size)
    ensures !debug && Distinct(body) ==>
              Closes(body, Advance(body[0], d), size, debug) <= 1 &&
              (Closes(body, Advance(body[0], d), size, debug) == 0 ==>
                 Distinct(Moved(body, Landing(Advance(body[0], d), size, debug), ate)))
  {
    var raw := Advance(body[0], d);
    var head := Landing(raw, size, debug);
    WrapAfterStep(body[0], d, size);
    ShiftKeepsShape(body, head, size);
    if !debug && Distinct(body) {
      if WallCheck(raw, size).1 {
        assert raw !in body;
      } else {
        CollisionCountDistinct(body, raw);
      }
    }
  }

  /** On a board of size 5 the seed head (2, 0) already sits on the wall
      ring; moving up takes it to (2, -1), which no ring rule matches, so the
      head leaves the board without a hit and without closing the signal. */
  lemma SmallBoardHeadLeavesBoard(body: seq<Position>)
    requires |body| > 0 && body[0] == Position(2, 0)
    requires forall i :: 0 <= i < |body| ==> body[i].y >= 0
    ensures OnRing(body[0], 5)
    ensures !WallCheck(Advance(body[0], Up), 5).1
    ensures Landing(Advance(body[0], Up), 5, false) == Position(2, -1)
    ensures !OnBoard(Landing(Advance(body[0], Up), 5, false), 5)
    ensures Closes(body, Advance(body[0], Up), 5, false) == 0
  {
  }

  /** In no-clip mode the collision scan looks at the unwrapped head only, so
      a head wrapped through the wall can land on the body without closing the
      signal: the body then overlaps itself. */
  lemma NoClipCanLandOnBody(body: seq<Position>)
    requires |body| > 0 && body[0] == Position(1, 5) && Position(28, 5) in body
    requires forall i :: 0 <= i < |body| ==> body[i].x >= 1
    ensures Landing(Advance(body[0], Left), 30, true) == Position(28, 5)
    ensures Closes(body, Advance(body[0], Left), 30, true) == 0
    ensures !Distinct(Moved(body, Landing(Advance(body[0], Left), 30, true), true))
  {
  }

  /** Outside no-clip mode the wall ends the game: a head at (1, 5) moving
      left on a 30-wide board stays on the ring cell (0, 5) and the exit
      signal is closed. */
  lemma WallStopsWithoutNoClip(body: seq<Position>)
    requires |body| > 0 && body[0] == Position(1, 5)
    ensures Advance(body[0], Left) == Position(0, 5)
    ensures WallCheck(Position(0, 5), 30) == (Position(28, 5), true)
    ensures Landing(Advance(body[0], Left), 30, false) == Position(0, 5)
    ensures OnRing(Landing(Advance(body[0], Left), 30, false), 30)
    ensures Closes(body, Advance(body[0], Left), 30, false) >= 1
  {
  }

  /** The state a tick reads and writes, as a value. */
  datatype Snapshot = Snapshot(
    cur: int, next: int, body: seq<Position>, apple: Position, score: int, exited: bool)

  /** The pending heading after a key press: each arrow key sets its own
      heading, any other key leaves the pending one as it was. */
  function KeyHeading(key: Key, next: int): (h: int)
    ensures key != OtherKey ==> IsDirection(h)
    ensures key == OtherKey ==> h == next
    ensures key == ArrowUp || key == ArrowDown ==> IsVertical(h)
    ensures key == ArrowLeft || key == ArrowRight ==> IsDirection(h) && !IsVertical(h)
    ensures key == ArrowUp || key == ArrowLeft ==> h > 0
    ensures key == ArrowDown || key == ArrowRight ==> h < 0
  {
    match key
    case ArrowUp => Up
    case ArrowDown => Down
    case ArrowLeft => Left
    case ArrowRight => Right
    case OtherKey => next
  }

  /** One tick on a snapshot: turn, step, scan, wall rule, shift or grow,
      re-draw the apple and score when the pre-move head was on the apple. */
  function TickFrom(s: Snapshot, r1: int, r2: int, size: int, debug: bool): (t: Snapshot)
    requires |s.body| > 0
    requires 0 <= r1 < size - 2 && 0 <= r2 < size - 2
    ensures t.next == s.next && t.cur == Turn(s.cur, s.next)
    ensures |t.body| == |s.body| + (if s.body[0] == s.apple then 1 else 0)
    ensures t.score == s.score + (if s.body[0] == s.apple then ApplePoints else 0)
    ensures t.body == Moved(s.body, Landing(Advance(s.body[0], t.cur), size, debug), s.body[0] == s.apple)
    ensures s.body[0] == s.apple ==> t.apple == Spawn(size, r1, r2)
    ensures s.body[0] != s.apple ==> t.apple == s.apple
    ensures t.exited <==> s.exited || Closes(s.body, Advance(s.body[0], t.cur), size, debug) > 0
  {
    var cur := Turn(s.cur, s.next);
    var raw := Advance(s.body[0], cur);
    var ate := s.body[0] == s.apple;
    Snapshot(cur, s.next,
             Moved(s.body, Landing(raw, size, debug), ate),
             if ate then Spawn(size, r1, r2) else s.apple,
             s.score + (if ate then ApplePoints else 0),
             s.exited || Closes(s.body, raw, size, debug) > 0)
  }

  /** Over a whole run the body never shrinks and the score grows by 10 per
      segment gained. */
  lemma {:induction false} ReplayGrows(s: Snapshot, inputs: seq<Input>, size: int, debug: bool)
    requires |s.body| > 0 && InputsInRange(inputs, size)
    ensures |Replay(s, inputs, size, debug).0.body| >= |s.body|
    ensures Replay(s, inputs, size, debug).0.score - s.score ==
              ApplePoints * (|Replay(s, inputs, size, debug).0.body| - |s.body|)
    decreases |inputs|
  {
    if inputs != [] && !s.exited {
      var pressed := s.(next := KeyHeading(inputs[0].key, s.next));
      assert InputsInRange(inputs[1..], size) by {
        forall k | 0 <= k < |inputs[1..]| ensures inputs[1..][k] == inputs[k + 1] { }
      }
      ReplayGrows(TickFrom(pressed, inputs[0].r1, inputs[0].r2, size, debug), inputs[1..], size, debug);
    }
  }

  /** One round of Replay on a running game: press the first key, tick, and
      replay the rest. */
  lemma ReplayStep(s: Snapshot, t: Snapshot, inputs: seq<Input>, size: int, debug: bool)
    requires |s.body| > 0 && InputsInRange(inputs, size)
    requires !s.exited && inputs != []
    requires t == TickFrom(s.(next := KeyHeading(inputs[0].key, s.next)), inputs[0].r1, inputs[0].r2, size, debug)
    ensures InputsInRange(inputs[1..], size)
    ensures Replay(s, inputs, size, debug).0 == Replay(t, inputs[1..], size, debug).0
    ensures Replay(s, inputs, size, debug).1 == Replay(t, inputs[1..], size, debug).1 + 1
  {
  }

  /** The game's standing invariant: a board with an interior, a body of at
      least the seed length, 10 points per segment grown, legal headings and
      an apple inside the walls. */
  ghost predicate WellFormed(s: Snapshot, size: int) {
    size >= 3 &&
    |s.body| >= SeedLength &&
    s.score == ApplePoints * (|s.body| - SeedLength) &&
    IsDirection(s.cur) && IsDirection(s.next) &&
    Interior(s.apple, size)
  }

  /** While the game runs, every segment is strictly inside the walls. */
  ghost predicate Inside(s: Snapshot, size: int) {
    s.exited || AllInterior(s.body, size)
  }

  /** Without no-clip, a running snake never overlaps itself. */
  ghost predicate NoOverlap(s: Snapshot, debug: bool) {
    s.exited || debug || Distinct(s.body)
  }

  /** A tick keeps the standing invariant; from a body inside the walls it
      keeps the body inside and the head on the board; and outside no-clip
      mode, from a body without overlaps, it closes the exit signal at most
      once and keeps the body without overlaps. */
  lemma TickFromKeeps(s: Snapshot, r1: int, r2: int, size: int, debug: bool)
    requires WellFormed(s, size) && !s.exited
    requires 0 <= r1 < size - 2 && 0 <= r2 < size - 2
    ensures WellFormed(TickFrom(s, r1, r2, size, debug), size)
    ensures Inside(s, size) ==>
              Inside(TickFrom(s, r1, r2, size, debug), size) &&
              OnBoard(TickFrom(s, r1, r2, size, debug).body[0], size)
    ensures Inside(s, size) && NoOverlap(s, debug) ==>
              NoOverlap(TickFrom(s, r1, r2, size, debug), debug) &&
              (!debug ==> Closes(s.body, Advance(s.body[0], Turn(s.cur, s.next)), size, debug) <= 1)
  {
    TurnOnlyPerpendicular(s.cur, s.next);
    if AllInterior(s.body, size) {
      TickKeepsShape(s.body, Turn(s.cur, s.next), size, debug, s.body[0] == s.apple);
    }
  }

  /** Outside no-clip mode a tick keeps a running body free of overlaps on its
      own: a tick that does not close the signal moved the head to a cell that
      is off the old body and not on the ring, so it lands there unwrapped. */
  lemma TickKeepsNoOverlap(s: Snapshot, r1: int, r2: int, size: int, debug: bool)
    requires |s.body| > 0
    requires 0 <= r1 < size - 2 && 0 <= r2 < size - 2
    ensures NoOverlap(s, debug) ==> NoOverlap(TickFrom(s, r1, r2, size, debug), debug)
  {
  }

  predicate InputsInRange(inputs: seq<Input>, size: int) {
    forall k :: 0 <= k < |inputs| ==> 0 <= inputs[k].r1 < size - 2 && 0 <= inputs[k].r2 < size - 2
  }

  /** The game loop on a snapshot: for each input a key press and a tick,
      stopping once the exit signal is closed. Returns the final snapshot and
      how many inputs were used. */
  function Replay(s: Snapshot, inputs: seq<Input>, size: int, debug: bool): (r: (Snapshot, nat))
    requires |s.body| > 0 && InputsInRange(inputs, size)
    ensures r.1 <= |inputs|
    ensures r.1 < |inputs| ==> r.0.exited
    ensures s.exited ==> r == (s, 0)
    ensures !s.exited && inputs != [] ==> r.1 > 0
    decreases |inputs|
  {
    if inputs == [] || s.exited then (s, 0)
    else
      var pressed := s.(next := KeyHeading(inputs[0].key, s.next));
      var n := Replay(TickFrom(pressed, inputs[0].r1, inputs[0].r2, size, debug), inputs[1..], size, debug);
      (n.0, n.1 + 1)
  }

  class App {
    const size: int
    const debug: bool
    const intervalMs: int

    var curDirection: int
    var nextDirection: int
    var body: seq<Position>
    var apple: Position
    var score: int
    var exited: bool

    /** The fields a tick changes, as a value. */
    function Snap(): Snapshot
      reads this
    {
      Snapshot(curDirection, nextDirection, body, apple, score, exited)
    }

    ghost predicate Valid()
      reads this
    {
      WellFormed(Snap(), size)
    }

    /** A new game: heading up, the seed column in the middle, an apple drawn
        from r1 and r2. `rand.Intn(size-2)` needs a positive bound, so size >= 3. */
    constructor (size: int, level: int, debug: bool, r1: int, r2: int)
      requires size >= 3
      requires 0 <= r1 < size - 2 && 0 <= r2 < size - 2
      ensures Valid() && !exited && score == 0
      ensures this.size == size && this.debug == debug && intervalMs == IntervalMs(level)
      ensures curDirection == Up && nextDirection == Up
      ensures |body| == SeedLength && body[0] == Position(size / 2, size / 2 - 2)
      ensures forall i :: 0 <= i < SeedLength - 1 ==> body[i + 1] == Position(body[i].x, body[i].y + 1)
      ensures apple == Spawn(size, r1, r2)
      ensures size >= 7 ==> Inside(Snap(), size) && NoOverlap(Snap(), debug)
    {
      this.size := size;
      this.debug := debug;
      intervalMs := IntervalMs(level);
      curDirection := Up;
      nextDirection := Up;
      var seed := SeedBody(size);
      body := seed;
      score := 0;
      exited := false;
      apple := Spawn(size, r1, r2);
    }

    /** Draws a new apple. */
    method GenNewApple(r1: int, r2: int)
      requires 0 <= r1 < size - 2 && 0 <= r2 < size - 2
      modifies this`apple
      ensures apple == Spawn(size, r1, r2) && Interior(apple, size)
    {
      apple := Spawn(size, r1, r2);
    }

    /** The head is on the apple. Apples are always inside the walls, so
        eating only ever happens there. */
    function EatsApple(): (r: bool)
      reads this
      requires Valid()
      ensures r ==> Interior(body[0], size)
      ensures r <==> body[0] == apple
    {
      body[0].x == apple.x && body[0].y == apple.y
    }

    /** The listener: an arrow key sets the pending heading. */
    method Press(key: Key)
      requires Valid()
      modifies this`nextDirection
      ensures Valid()
      ensures nextDirection == KeyHeading(key, old(nextDirection))
      ensures Snap() == old(Snap()).(next := KeyHeading(key, old(nextDirection)))
    {
      match key
      case ArrowUp => nextDirection := Up;
      case ArrowDown => nextDirection := Down;
      case ArrowLeft => nextDirection := Left;
      case ArrowRight => nextDirection := Right;
      case OtherKey =>
    }

    /** One tick of the game loop. It returns how many times the tick closed
        the exit signal (see Closes). The update is completed even when the
        signal is closed. */
    method Tick(r1: int, r2: int) returns (quits: nat)
      requires Valid() && !exited
      requires 0 <= r1 < size - 2 && 0 <= r2 < size - 2
      modifies this
      ensures Snap() == TickFrom(old(Snap()), r1, r2, size, debug)
      ensures quits == Closes(old(body), Advance(old(body)[0], curDirection), size, debug)
      ensures Valid()
      ensures Inside(old(Snap()), size) ==> Inside(Snap(), size) && OnBoard(body[0], size)
      ensures Inside(old(Snap()), size) && NoOverlap(old(Snap()), debug) ==>
                NoOverlap(Snap(), debug) && (!debug ==> quits <= 1)
    {
      ghost var before := Snap();
      var eat := EatsApple();

      if Abs(curDirection) != Abs(nextDirection) {
        curDirection := nextDirection;
      }

      var q, nb := MoveBody(body, curDirection, size, debug, eat);
      quits := q;
      if eat {
        GenNewApple(r1, r2);
        score := score + ApplePoints;
      }
      body := nb;
      if quits > 0 {
        exited := true;
      }

      ghost var after := TickFrom(before, r1, r2, size, debug);
      assert after.cur == curDirection && after.next == nextDirection;
      assert after.body == body;
      assert after.apple == apple && after.score == score && after.exited == exited;
      TickFromKeeps(before, r1, r2, size, debug);
    }

    /** One iteration of the game loop: the listener's key press, then a
        tick. When `input` heads a run of inputs `rest`, the round is the first
        step of Replay over `rest`. */
    method Round(input: Input, ghost rest: seq<Input>) returns (quits: nat)
      requires Valid() && !exited
      requires 0 <= input.r1 < size - 2 && 0 <= input.r2 < size - 2
      requires rest != [] && rest[0] == input && InputsInRange(rest, size)
      modifies this
      ensures Snap() == TickFrom(old(Snap()).(next := KeyHeading(input.key, old(nextDirection))), input.r1, input.r2, size, debug)
      ensures InputsInRange(rest[1..], size)
      ensures Replay(old(Snap()), rest, size, debug).0 == Replay(Snap(), rest[1..], size, debug).0
      ensures Replay(old(Snap()), rest, size, debug).1 == Replay(Snap(), rest[1..], size, debug).1 + 1
      ensures Valid()
      ensures exited <==> quits > 0
      ensures Inside(old(Snap()), size) ==> Inside(Snap(), size)
      ensures Inside(old(Snap()), size) && NoOverlap(old(Snap()), debug) ==>
                NoOverlap(Snap(), debug) && (!debug ==> quits <= 1)
    {
      ghost var before := Snap();
      Press(input.key);
      quits := Tick(input.r1, input.r2);
      ReplayStep(before, Snap(), rest, size, debug);
    }

    /** The game loop over a run of inputs: a key press, then a tick, until
        the exit signal is closed or the inputs run out. The final state and
        the number of ticks are those of Replay; `closes` is the number of
        times the signal was closed in all. */
    method Run(inputs: seq<Input>) returns (ticks: nat, closes: nat)
      requires Valid() && !exited
      requires InputsInRange(inputs, size)
      modifies this
      ensures (Snap(), ticks) == Replay(old(Snap()), inputs, size, debug)
      ensures Valid()
      ensures exited <==> closes > 0
      ensures Inside(old(Snap()), size) ==> Inside(Snap(), size)
      ensures Inside(old(Snap()), size) && NoOverlap(old(Snap()), debug) ==>
                NoOverlap(Snap(), debug) && (!debug ==> closes <= 1)
    {
      ticks, closes := 0, 0;
      ghost var start := Snap();
      ghost var final := Replay(start, inputs, size, debug);
      ghost var rest := inputs;
      while ticks < |inputs| && !exited
        invariant Valid()
        invariant ticks <= |inputs| && rest == inputs[ticks..]
        invariant InputsInRange(rest, size)
        invariant Replay(Snap(), rest, size, debug).0 == final.0
        invariant Replay(Snap(), rest, size, debug).1 + ticks == final.1
        invariant exited <==> closes > 0
        invariant Inside(start, size) ==> Inside(Snap(), size)
        invariant Inside(start, size) && NoOverlap(start, debug) ==>
                    NoOverlap(Snap(), debug) && (!debug ==> closes <= 1)
        decreases |inputs| - ticks
      {
        var q := Round(inputs[ticks], rest);
        closes := closes + q;
        ticks := ticks + 1;
        rest := rest[1..];
      }
    }
  }
}
