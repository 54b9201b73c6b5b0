/**
 The snake's body as a sequence of cells, head first: the initial column,
 the shift that moves it one cell, the self-collision count, and the loops
 of the tick that compute them.
 */
module Body {
  import opened Geometry

  /** A new game's body has five segments. */
  const SeedLength: nat := 5

  /** No two segments share a cell. */
  ghost predicate Distinct(s: seq<Position>) {
    forall i, j :: 0 <= i < j < |s| ==> s[i] != s[j]
  }

  ghost predicate AllInterior(s: seq<Position>, size: int) {
    forall i :: 0 <= i < |s| ==> Interior(s[i], size)
  }

  /** The body after a move without growth: the new head in front, every old
      segment one place further back, the old tail dropped. */
  function Shift(body: seq<Position>, head: Position): (r: seq<Position>)
    requires |body| > 0
    ensures |r| == |body| && r[0] == head
    ensures forall i :: 1 <= i < |r| ==> r[i] == body[i - 1]
  {
    [head] + body[..|body| - 1]
  }

  /** Growing re-appends the old tail, which is the same as keeping the
      whole old body behind the new head. */
  lemma GrowIsCons(body: seq<Position>, head: Position)
    requires |body| > 0
    ensures Shift(body, head) + [body[|body| - 1]] == [head] + body
    ensures |Shift(body, head) + [body[|body| - 1]]| == |body| + 1
  {
  }

  /** How many segments occupy cell p: the number of times the collision
      scan of a tick closes the exit signal. */
  function CollisionCount(s: seq<Position>, p: Position): (c: nat)
    ensures c <= |s|
    ensures c > 0 <==> p in s
  {
    if s == [] then 0
    else CollisionCount(s[..|s| - 1], p) + (if s[|s| - 1] == p then 1 else 0)
  }

  /** In a body without overlaps a cell is hit at most once. */
  lemma {:induction false} CollisionCountDistinct(s: seq<Position>, p: Position)
    requires Distinct(s)
    ensures CollisionCount(s, p) <= 1
  {
    if s != [] {
      var init := s[..|s| - 1];
      assert Distinct(init);
      CollisionCountDistinct(init, p);
      if s[|s| - 1] == p {
        assert p !in init by {
          forall i | 0 <= i < |init| ensures init[i] != p {
            assert s[i] == init[i];
          }
        }
      }
    }
  }

  /** Moving onto a free cell keeps the body free of overlaps and inside the
      walls, with or without growth. */
  lemma ShiftKeepsShape(body: seq<Position>, head: Position, size: int)
    requires |body| > 0
    ensures Distinct(body) && head !in body ==> Distinct(Shift(body, head)) && Distinct([head] + body)
    ensures AllInterior(body, size) && Interior(head, size) ==>
              AllInterior(Shift(body, head), size) && AllInterior([head] + body, size)
  {
  }

  /** The seed column of a new game, head on top, in the middle column
      (halving truncates toward zero, as integer division does in Go). */
  method SeedBody(size: int) returns (b: seq<Position>)
    ensures |b| == SeedLength
    ensures b[0] == Position(HalfTowardZero(size), HalfTowardZero(size) - 2)
    ensures forall i :: 0 <= i < SeedLength - 1 ==> b[i + 1] == Position(b[i].x, b[i].y + 1)
    ensures Distinct(b)
    ensures size >= 7 ==> AllInterior(b, size)
  {
    var half := HalfTowardZero(size);
    var a := new Position[SeedLength];
    var i := 0;
    while i < SeedLength
      invariant 0 <= i <= SeedLength
      invariant forall k :: 0 <= k < i ==> a[k] == Position(half, half - 2 + k)
    {
      a[i] := Position(half, half - 2 + i);
      i := i + 1;
    }
    b := a[..];
  }

  /** The collision scan: one close of the exit signal per segment on cell p. */
  method CountCollisions(body: seq<Position>, p: Position) returns (hits: nat)
    ensures hits == CollisionCount(body, p)
    ensures hits > 0 <==> p in body
  {
    hits := 0;
    var i := 0;
    while i < |body|
      invariant 0 <= i <= |body|
      invariant hits == CollisionCount(body[..i], p)
    {
      assert body[..i + 1][..i] == body[..i];
      if body[i] == p {
        hits := hits + 1;
      }
      i := i + 1;
    }
    assert body[..|body|] == body;
  }

  /** Builds the shifted body in a fresh array: the head first, then each old
      segment copied one place back. */
  method ShiftBody(body: seq<Position>, head: Position) returns (nb: seq<Position>)
    requires |body| > 0
    ensures nb == Shift(body, head)
  {
    var a := new Position[|body|];
    a[0] := head;
    var i := 1;
    while i < a.Length
      invariant 1 <= i <= a.Length
      invariant a[0] == head
      invariant forall k :: 1 <= k < i ==> a[k] == body[k - 1]
    {
      a[i] := body[i - 1];
      i := i + 1;
    }
    nb := a[..];
  }
}
