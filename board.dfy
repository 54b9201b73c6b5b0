/**
 The picture drawn every tick: a size-by-size grid of glyphs, row y and
 column x, holding the apple, the wall ring, the snake and blank floor.
 */
module Board {
  import opened Geometry

  const AppleGlyph: char := 'A'
  const WallGlyph: char := 'W'
  const SnakeGlyph: char := 'O'
  const FloorGlyph: char := ' '

  /** The glyph of a board cell before the snake is drawn: the apple wins
      over the wall, the wall is the ring, the rest is floor. */
  function BaseGlyph(size: int, apple: Position, x: int, y: int): char {
    var p := Position(x, y);
    if p == apple then AppleGlyph
    else if OnRing(p, size) then WallGlyph
    else FloorGlyph
  }

  /** The glyph of a board cell once every on-board segment is drawn over it. */
  function Glyph(size: int, apple: Position, snake: seq<Position>, x: int, y: int): char {
    if Position(x, y) in snake then SnakeGlyph else BaseGlyph(size, apple, x, y)
  }

  /** Each on-board cell shows exactly one of the four things it can hold. */
  lemma GlyphMeaning(size: int, apple: Position, snake: seq<Position>, x: int, y: int)
    requires OnBoard(Position(x, y), size)
    ensures Glyph(size, apple, snake, x, y) == SnakeGlyph <==> Position(x, y) in snake
    ensures Glyph(size, apple, snake, x, y) == AppleGlyph <==>
              Position(x, y) == apple && Position(x, y) !in snake
    ensures Glyph(size, apple, snake, x, y) == WallGlyph <==>
              OnRing(Position(x, y), size) && Position(x, y) != apple && Position(x, y) !in snake
    ensures Glyph(size, apple, snake, x, y) == FloorGlyph <==>
              Interior(Position(x, y), size) && Position(x, y) != apple && Position(x, y) !in snake
  {
  }

  /** Draws the grid: rows and columns first (apple, then the first and last
      row, then the first and last column), then every segment that lies on
      the board; segments off the board are skipped. */
  method Render(size: nat, apple: Position, snake: seq<Position>) returns (grid: array2<char>)
    ensures fresh(grid)
    ensures grid.Length0 == size && grid.Length1 == size
    ensures forall y, x :: 0 <= y < size && 0 <= x < size ==> grid[y, x] == Glyph(size, apple, snake, x, y)
  {
    grid := new char[size, size];
    var i := 0;
    while i < size
      invariant 0 <= i <= size
      invariant forall y, x :: 0 <= y < i && 0 <= x < size ==> grid[y, x] == BaseGlyph(size, apple, x, y)
    {
      var j := 0;
      while j < size
        invariant 0 <= j <= size
        invariant forall y, x :: 0 <= y < i && 0 <= x < size ==> grid[y, x] == BaseGlyph(size, apple, x, y)
        invariant forall x :: 0 <= x < j ==> grid[i, x] == BaseGlyph(size, apple, x, i)
      {
        if i == apple.y && j == apple.x {
          grid[i, j] := AppleGlyph;
        } else if i == size - 1 || i == 0 {
          grid[i, j] := WallGlyph;
        } else if j == size - 1 || j == 0 {
          grid[i, j] := WallGlyph;
        } else {
          grid[i, j] := FloorGlyph;
        }
        j := j + 1;
      }
      i := i + 1;
    }

    var k := 0;
    while k < |snake|
      invariant 0 <= k <= |snake|
      invariant forall y, x :: 0 <= y < size && 0 <= x < size ==> grid[y, x] == Glyph(size, apple, snake[..k], x, y)
    {
      var pos := snake[k];
      assert snake[..k + 1] == snake[..k] + [pos];
      if 0 <= pos.y < size && 0 <= pos.x < size {
        grid[pos.y, pos.x] := SnakeGlyph;
      }
      k := k + 1;
    }
    assert snake[..|snake|] == snake;
  }
}
