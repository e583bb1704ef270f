/** Model of the C version of the game (C_battleships.c).

    Each board is a fixed 10×10 `char` array of which the game uses the
    size×size corner; ship state lives only in the glyphs, plus one `int`
    counter per side that `main` owns and the turns decrement through a
    pointer (here: passed in and returned). Console input is a finite
    sequence of `scanf` results and the random source a finite sequence of
    draws; running out of either ends a loop with an "exhausted" result,
    where the program itself would loop forever. */
module CBattleships {
  import opened Prelude
  import opened Glyph

  const MaxGridSize: int := 10

  /** One `scanf("%d %d", &x, &y)` attempt: both integers when it read two,
      `None` otherwise. */
  type Scan = Option<(int, int)>

  predicate Dims(grid: array2<char>)
  {
    grid.Length0 == MaxGridSize && grid.Length1 == MaxGridSize
  }

  /** The size×size corner of a board that the game uses, as rows. */
  ghost function View(grid: array2<char>, size: int): (v: seq<seq<char>>)
    reads grid
    requires Dims(grid) && 0 <= size <= MaxGridSize
    ensures |v| == size
    ensures forall i :: 0 <= i < size ==> |v[i]| == size
    ensures forall i, j :: 0 <= i < size && 0 <= j < size ==> v[i][j] == grid[i, j]
  {
    seq(size, i reads grid requires 0 <= i < size =>
      seq(size, j reads grid requires 0 <= j < size => grid[i, j]))
  }

  /** No cell outside the size×size corner has changed. */
  twostate predicate OutsideUnchanged(grid: array2<char>, size: int)
    reads grid
  {
    forall i, j :: 0 <= i < grid.Length0 && 0 <= j < grid.Length1 && !(i < size && j < size) ==>
      grid[i, j] == old(grid[i, j])
  }

  // ---------------------------------------------------------------------
  // Counting glyphs
  // ---------------------------------------------------------------------

  function CountRow(row: seq<char>, c: char): nat
  {
    if row == [] then 0 else CountRow(row[..|row| - 1], c) + (if row[|row| - 1] == c then 1 else 0)
  }

  /** The number of cells showing `c`. */
  function Count(rows: seq<seq<char>>, c: char): nat
  {
    if rows == [] then 0 else Count(rows[..|rows| - 1], c) + CountRow(rows[|rows| - 1], c)
  }

  /** Cells already guessed: hits and misses. */
  function Guessed(rows: seq<seq<char>>): nat
  {
    Count(rows, Hit) + Count(rows, Miss)
  }

  lemma {:induction false} CountRowWrite(row: seq<char>, j: nat, b: char, c: char)
    requires j < |row|
    ensures CountRow(row[j := b], c) ==
      CountRow(row, c) - (if row[j] == c then 1 else 0) + (if b == c then 1 else 0)
  {
    var last := |row| - 1;
    if j == last {
      assert row[j := b][..last] == row[..last];
    } else {
      assert row[j := b][..last] == row[..last][j := b];
      CountRowWrite(row[..last], j, b, c);
    }
  }

  /** Overwriting one cell with `b` moves one unit of count from the glyph
      it held to `b`, and leaves every other glyph's count alone. */
  lemma {:induction false} CountWrite(rows: seq<seq<char>>, i: nat, j: nat, b: char, c: char)
    requires i < |rows| && j < |rows[i]|
    ensures Count(rows[i := rows[i][j := b]], c) ==
      Count(rows, c) - (if rows[i][j] == c then 1 else 0) + (if b == c then 1 else 0)
  {
    var last := |rows| - 1;
    var written := rows[i := rows[i][j := b]];
    if i == last {
      assert written[..last] == rows[..last];
      CountRowWrite(rows[i], j, b, c);
    } else {
      assert written[..last] == rows[..last][i := rows[i][j := b]];
      CountWrite(rows[..last], i, j, b, c);
    }
  }

  lemma WriteCounts(rows: seq<seq<char>>, i: nat, j: nat, b: char)
    requires i < |rows| && j < |rows[i]|
    ensures forall c ::
      Count(rows[i := rows[i][j := b]], c) ==
        Count(rows, c) - (if rows[i][j] == c then 1 else 0) + (if b == c then 1 else 0)
  {
    forall c
      ensures Count(rows[i := rows[i][j := b]], c) ==
        Count(rows, c) - (if rows[i][j] == c then 1 else 0) + (if b == c then 1 else 0)
    {
      CountWrite(rows, i, j, b, c);
    }
  }

  lemma {:induction false} CountRowUniform(row: seq<char>, w: char, c: char)
    requires forall j :: 0 <= j < |row| ==> row[j] == w
    ensures CountRow(row, c) == if c == w then |row| else 0
  {
    if row != [] {
      CountRowUniform(row[..|row| - 1], w, c);
    }
  }

  /** A square board of side `n` filled with `w` counts n² cells of `w` and
      none of any other glyph. */
  lemma {:induction false} CountUniform(rows: seq<seq<char>>, n: nat, w: char, c: char)
    requires forall i :: 0 <= i < |rows| ==> |rows[i]| == n
    requires forall i, j :: 0 <= i < |rows| && 0 <= j < n ==> rows[i][j] == w
    ensures Count(rows, c) == if c == w then |rows| * n else 0
  {
    if rows != [] {
      var last := |rows| - 1;
      CountUniform(rows[..last], n, w, c);
      CountRowUniform(rows[last], w, c);
      assert (|rows| - 1) * n + n == |rows| * n;
    }
  }

  /** A glyph with a positive count occurs somewhere: while fewer ships are
      placed than there were water cells, `placeShips` has a cell to hit. */
  lemma {:induction false} GlyphPresent(rows: seq<seq<char>>, c: char)
    requires Count(rows, c) > 0
    ensures exists i, j :: 0 <= i < |rows| && 0 <= j < |rows[i]| && rows[i][j] == c
  {
    var last := |rows| - 1;
    if Count(rows[..last], c) > 0 {
      GlyphPresent(rows[..last], c);
      var i, j :| 0 <= i < last && 0 <= j < |rows[..last][i]| && rows[..last][i][j] == c;
      assert rows[i][j] == c;
    } else {
      RowGlyphPresent(rows[last], c);
      var j :| 0 <= j < |rows[last]| && rows[last][j] == c;
      assert rows[last][j] == c;
    }
  }

  lemma {:induction false} RowGlyphPresent(row: seq<char>, c: char)
    requires CountRow(row, c) > 0
    ensures exists j :: 0 <= j < |row| && row[j] == c
  {
    var last := |row| - 1;
    if row[last] != c {
      RowGlyphPresent(row[..last], c);
      var j :| 0 <= j < last && row[..last][j] == c;
      assert row[j] == c;
    }
  }

  /** Some draw selects a cell of the square board `rows` showing `c`. */
  ghost predicate Drawable(rows: seq<seq<char>>, size: int, c: char)
    requires Square(rows, size)
  {
    exists d: Draw :: rows[CellOf(d, size).0][CellOf(d, size).1] == c
  }

  /** A glyph that occurs on a square board is selected by some draw. */
  lemma GlyphDrawable(rows: seq<seq<char>>, size: int, c: char)
    requires Square(rows, size) && Count(rows, c) > 0
    ensures Drawable(rows, size, c)
  {
    GlyphPresent(rows, c);
    var i, j :| 0 <= i < |rows| && 0 <= j < |rows[i]| && rows[i][j] == c;
    assert CellOf(Draw(i, j), size) == (i, j);
  }

  // ---------------------------------------------------------------------
  // Cell updates
  // ---------------------------------------------------------------------

  /** The mark a resolved guess leaves: a ship becomes a hit, anything
      else a miss; no other cell changes. */
  function Strike(rows: seq<seq<char>>, x: nat, y: nat): (struck: seq<seq<char>>)
    requires x < |rows| && y < |rows[x]|
    ensures |struck| == |rows| && forall i :: 0 <= i < |rows| ==> |struck[i]| == |rows[i]|
    ensures struck[x][y] == if rows[x][y] == Ship then Hit else Miss
    ensures forall i, j :: 0 <= i < |rows| && 0 <= j < |rows[i]| && (i, j) != (x, y) ==>
      struck[i][j] == rows[i][j]
  {
    rows[x := rows[x][y := if rows[x][y] == Ship then Hit else Miss]]
  }

  /** A strike on a ship or water cell shifts one count: ship to hit, or
      water to miss. */
  lemma StrikeCounts(rows: seq<seq<char>>, x: nat, y: nat)
    requires x < |rows| && y < |rows[x]| && rows[x][y] in {Ship, Water}
    ensures rows[x][y] == Ship ==>
      Count(Strike(rows, x, y), Ship) == Count(rows, Ship) - 1 &&
      Count(Strike(rows, x, y), Hit) == Count(rows, Hit) + 1 &&
      Count(Strike(rows, x, y), Water) == Count(rows, Water) &&
      Count(Strike(rows, x, y), Miss) == Count(rows, Miss)
    ensures rows[x][y] == Water ==>
      Count(Strike(rows, x, y), Ship) == Count(rows, Ship) &&
      Count(Strike(rows, x, y), Hit) == Count(rows, Hit) &&
      Count(Strike(rows, x, y), Water) == Count(rows, Water) - 1 &&
      Count(Strike(rows, x, y), Miss) == Count(rows, Miss) + 1
    ensures Guessed(Strike(rows, x, y)) == Guessed(rows) + 1
  {
    WriteCounts(rows, x, y, if rows[x][y] == Ship then Hit else Miss);
  }

  /** `grid[x][y] = c`, with its effect on the used corner. */
  method SetCell(grid: array2<char>, size: int, x: int, y: int, c: char)
    requires Dims(grid) && 0 <= size <= MaxGridSize && 0 <= x < size && 0 <= y < size
    modifies grid
    ensures grid[x, y] == c
    ensures forall i, j :: 0 <= i < MaxGridSize && 0 <= j < MaxGridSize && (i != x || j != y) ==>
      grid[i, j] == old(grid[i, j])
    ensures View(grid, size) == old(View(grid, size))[x := old(View(grid, size))[x][y := c]]
  {
    ghost var before := View(grid, size);
    grid[x, y] := c;
    ghost var after := View(grid, size);
    ghost var expected := before[x := before[x][y := c]];
    forall i | 0 <= i < size
      ensures after[i] == expected[i]
    {
      assert forall j :: 0 <= j < size ==> after[i][j] == expected[i][j];
    }
  }

  // ---------------------------------------------------------------------
  // Board set-up
  // ---------------------------------------------------------------------

  /** `initializeGrid`: every cell of the size×size corner becomes water. */
  method InitializeGrid(grid: array2<char>, size: int)
    requires Dims(grid) && 0 <= size <= MaxGridSize
    modifies grid
    ensures forall i, j :: 0 <= i < size && 0 <= j < size ==> grid[i, j] == Water
    ensures OutsideUnchanged(grid, size)
    ensures forall c :: Count(View(grid, size), c) == if c == Water then size * size else 0
  {
    var i := 0;
    while i < size
      invariant 0 <= i <= size
      invariant forall a, b :: 0 <= a < i && 0 <= b < size ==> grid[a, b] == Water
      invariant forall a, b :: 0 <= a < MaxGridSize && 0 <= b < MaxGridSize && !(a < i && b < size) ==>
        grid[a, b] == old(grid[a, b])
    {
      var j := 0;
      while j < size
        invariant 0 <= j <= size
        invariant forall a, b :: 0 <= a < i && 0 <= b < size ==> grid[a, b] == Water
        invariant forall b :: 0 <= b < j ==> grid[i, b] == Water
        invariant forall a, b ::
          0 <= a < MaxGridSize && 0 <= b < MaxGridSize && !(a < i && b < size) && !(a == i && b < j) ==>
            grid[a, b] == old(grid[a, b])
      {
        grid[i, j] := Water;
        j := j + 1;
      }
      i := i + 1;
    }
    forall c ensures Count(View(grid, size), c) == if c == Water then size * size else 0 {
      CountUniform(View(grid, size), size, Water, c);
    }
  }

  /** `now` is `before` with `placed` water cells turned into ships, as far
      as the glyph counts tell. */
  predicate PlacedSince(before: seq<seq<char>>, now: seq<seq<char>>, placed: int)
  {
    Count(now, Ship) == Count(before, Ship) + placed && Count(now, Water) == Count(before, Water) - placed &&
    forall c :: c != Ship && c != Water ==> Count(now, c) == Count(before, c)
  }

  /** `now` is `before` with every water cell that a draw of `ds` selects
      turned into a ship, and every other cell as it was. */
  predicate PlacedBy(before: seq<seq<char>>, now: seq<seq<char>>, size: int, ds: seq<Draw>)
  {
    Square(before, size) && Square(now, size) &&
    forall i: nat, j: nat :: i < size && j < size ==>
      now[i][j] == if before[i][j] == Water && (i, j) in DrawnCells(ds, size) then Ship else before[i][j]
  }

  /** Under `PlacedBy`, a cell either keeps its glyph or goes from water
      to a ship. */
  lemma PlacedOnlyShips(before: seq<seq<char>>, now: seq<seq<char>>, size: int, ds: seq<Draw>)
    requires PlacedBy(before, now, size, ds)
    ensures forall i, j :: 0 <= i < size && 0 <= j < size ==>
      now[i][j] == before[i][j] || (before[i][j] == Water && now[i][j] == Ship)
  {
    forall i, j | 0 <= i < size && 0 <= j < size
      ensures now[i][j] == before[i][j] || (before[i][j] == Water && now[i][j] == Ship)
    {
      assert now[i][j] == if before[i][j] == Water && (i, j) in DrawnCells(ds, size) then Ship else before[i][j];
    }
  }

  /** How many ships the draws `ds` place on `before`: a draw places one
      when it selects a water cell that no earlier draw selected. */
  function PlacedCount(before: seq<seq<char>>, size: int, ds: seq<Draw>): nat
    requires Square(before, size)
  {
    if ds == [] then 0
    else
      var c := CellOf(ds[|ds| - 1], size);
      PlacedCount(before, size, ds[..|ds| - 1]) +
        (if before[c.0][c.1] == Water && c !in DrawnCells(ds[..|ds| - 1], size) then 1 else 0)
  }

  /** One more draw in `placeShips`' loop: the board still shows water at
      the drawn cell exactly when no earlier draw selected that water
      cell; turning it into a ship then keeps `PlacedBy` for the longer run
      of draws and raises `PlacedCount` by one, and leaving any other cell
      alone keeps both. */
  lemma PlaceStep(before: seq<seq<char>>, now: seq<seq<char>>, size: int, ds: seq<Draw>, d: Draw)
    requires PlacedBy(before, now, size, ds)
    ensures var (x, y) := CellOf(d, size);
      var hit := now[x][y] == Water;
      (hit <==> before[x][y] == Water && (x, y) !in DrawnCells(ds, size)) &&
      PlacedBy(before, if hit then now[x := now[x][y := Ship]] else now, size, ds + [d]) &&
      PlacedCount(before, size, ds + [d]) == PlacedCount(before, size, ds) + (if hit then 1 else 0)
  {
    assert (ds + [d])[..|ds|] == ds;
  }

  /** The board `placeShips` leaves after reading the draws `ds` from
      `before`: each draw turns the cell it selects into a ship when that
      cell is water at the time. */
  function PlaceAll(before: seq<seq<char>>, size: int, ds: seq<Draw>): (after: seq<seq<char>>)
    requires Square(before, size)
    ensures Square(after, size)
  {
    if ds == [] then before
    else
      var prior := PlaceAll(before, size, ds[..|ds| - 1]);
      var c := CellOf(ds[|ds| - 1], size);
      if prior[c.0][c.1] == Water then prior[c.0 := prior[c.0][c.1 := Ship]] else prior
  }

  /** One more draw: the board after `ds + [d]` is the board after `ds`
      with the cell `d` selects turned into a ship if it is water. */
  lemma PlaceAllSnoc(before: seq<seq<char>>, size: int, ds: seq<Draw>, d: Draw)
    requires Square(before, size)
    ensures var prior := PlaceAll(before, size, ds);
      var (x, y) := CellOf(d, size);
      PlaceAll(before, size, ds + [d]) == if prior[x][y] == Water then prior[x := prior[x][y := Ship]] else prior
  {
    assert (ds + [d])[..|ds|] == ds;
  }

  /** One more draw places a ship exactly when the board built so far
      shows water at the cell it selects. */
  lemma PlacedCountStep(before: seq<seq<char>>, size: int, ds: seq<Draw>, d: Draw)
    requires Square(before, size)
    ensures var (x, y) := CellOf(d, size);
      PlacedCount(before, size, ds + [d]) ==
        PlacedCount(before, size, ds) + (if PlaceAll(before, size, ds)[x][y] == Water then 1 else 0)
  {
    PlaceAllCells(before, size, ds);
    PlaceStep(before, PlaceAll(before, size, ds), size, ds, d);
  }

  /** Placing draw by draw turns into ships exactly the water cells that
      some draw selects. */
  lemma {:induction false} PlaceAllCells(before: seq<seq<char>>, size: int, ds: seq<Draw>)
    requires Square(before, size)
    ensures PlacedBy(before, PlaceAll(before, size, ds), size, ds)
  {
    if ds == [] {
      assert DrawnCells(ds, size) == {};
    } else {
      var prior := ds[..|ds| - 1];
      PlaceAllCells(before, size, prior);
      PlaceStep(before, PlaceAll(before, size, prior), size, prior, ds[|ds| - 1]);
      assert prior + [ds[|ds| - 1]] == ds;
    }
  }

  /** Placing draw by draw turns `PlacedCount` water cells into ships and
      changes no other glyph count. */
  lemma {:induction false} PlaceAllCounts(before: seq<seq<char>>, size: int, ds: seq<Draw>)
    requires Square(before, size)
    ensures PlacedSince(before, PlaceAll(before, size, ds), PlacedCount(before, size, ds))
  {
    if ds != [] {
      var prior := ds[..|ds| - 1];
      var d := ds[|ds| - 1];
      var now := PlaceAll(before, size, prior);
      PlaceAllCounts(before, size, prior);
      PlaceAllCells(before, size, prior);
      PlaceStep(before, now, size, prior, d);
      assert prior + [d] == ds;
      var c := CellOf(d, size);
      if now[c.0][c.1] == Water {
        WriteCounts(now, c.0, c.1, Ship);
      }
    }
  }

  /** On a board of water, the ships placed are the distinct cells drawn. */
  lemma {:induction false} PlacedOnWater(before: seq<seq<char>>, size: int, ds: seq<Draw>)
    requires Square(before, size)
    requires forall i, j :: 0 <= i < size && 0 <= j < size ==> before[i][j] == Water
    ensures PlacedCount(before, size, ds) == |DrawnCells(ds, size)|
  {
    if ds != [] {
      PlacedOnWater(before, size, ds[..|ds| - 1]);
    }
  }

  /** While fewer than `numShips` ships are placed on a board that had at
      least `numShips` water cells, a water cell is left and some draw
      selects it, so some draw still places a ship. This is why
      `placeShips` asks for `numShips` water cells; the loop here, bounded
      by its draws, stops without it. */
  lemma WaterToPlace(before: seq<seq<char>>, now: seq<seq<char>>, size: int, shipsPlaced: int, numShips: int)
    requires Square(now, size) && PlacedSince(before, now, shipsPlaced)
    requires shipsPlaced < numShips <= Count(before, Water)
    ensures Drawable(now, size, Water)
  {
    GlyphDrawable(now, size, Water);
  }

  /** `placeShips`: draws cells and turns each drawn water cell into a ship
      until `numShips` ships are placed. Exactly the water cells some draw
      read selects become ships; the loop stops at the first draw that
      makes `numShips` of them, or when the draws run out short of that.
      When every ship is placed, the ship count has grown by `numShips` and
      the water count shrunk by as much. The caller must leave at least
      `numShips` water cells, or the loop can never finish. */
  method PlaceShips(grid: array2<char>, size: int, numShips: int, draws: seq<Draw>, from: nat)
    returns (placed: bool, next: nat)
    requires Dims(grid) && 1 <= size <= MaxGridSize && from <= |draws|
    requires 0 <= numShips <= Count(View(grid, size), Water)
    modifies grid
    ensures from <= next <= |draws|
    ensures OutsideUnchanged(grid, size)
    ensures View(grid, size) == PlaceAll(old(View(grid, size)), size, draws[from..next])
    ensures forall i, j :: 0 <= i < size && 0 <= j < size ==>
      grid[i, j] == old(grid[i, j]) || (old(grid[i, j]) == Water && grid[i, j] == Ship)
    ensures PlacedBy(old(View(grid, size)), View(grid, size), size, draws[from..next])
    ensures forall k :: from <= k < next ==> PlacedCount(old(View(grid, size)), size, draws[from..k]) < numShips
    ensures placed ==> PlacedCount(old(View(grid, size)), size, draws[from..next]) == numShips
    ensures placed ==> Count(View(grid, size), Ship) == old(Count(View(grid, size), Ship)) + numShips
    ensures placed ==> Count(View(grid, size), Water) == old(Count(View(grid, size), Water)) - numShips
    ensures forall c :: c != Ship && c != Water ==> Count(View(grid, size), c) == old(Count(View(grid, size), c))
    ensures !placed ==> next == |draws| && PlacedCount(old(View(grid, size)), size, draws[from..next]) < numShips
  {
    ghost var start := View(grid, size);
    var shipsPlaced;
    shipsPlaced, next := PlaceLoop(grid, size, numShips, draws, from);
    placed := shipsPlaced == numShips;
    PlaceAllCounts(start, size, draws[from..next]);
    PlaceAllCells(start, size, draws[from..next]);
    PlacedOnlyShips(start, View(grid, size), size, draws[from..next]);
  }

  /** The loop of `placeShips`: each draw read is placed in turn, and the
      loop stops once `numShips` ships are placed or the draws run out. */
  method PlaceLoop(grid: array2<char>, size: int, numShips: int, draws: seq<Draw>, from: nat)
    returns (shipsPlaced: int, next: nat)
    requires Dims(grid) && 1 <= size <= MaxGridSize && from <= |draws|
    requires 0 <= numShips <= Count(View(grid, size), Water)
    modifies grid
    ensures 0 <= shipsPlaced <= numShips && from <= next <= |draws|
    ensures shipsPlaced < numShips ==> next == |draws|
    ensures OutsideUnchanged(grid, size)
    ensures View(grid, size) == PlaceAll(old(View(grid, size)), size, draws[from..next])
    ensures shipsPlaced == PlacedCount(old(View(grid, size)), size, draws[from..next])
    ensures forall k :: from <= k < next ==> PlacedCount(old(View(grid, size)), size, draws[from..k]) < numShips
  {
    shipsPlaced := 0;
    next := from;
    ghost var start := View(grid, size);
    while shipsPlaced < numShips && next < |draws|
      invariant 0 <= shipsPlaced <= numShips && from <= next <= |draws| && Square(start, size)
      invariant OutsideUnchanged(grid, size)
      invariant View(grid, size) == PlaceAll(start, size, draws[from..next])
      invariant shipsPlaced == PlacedCount(start, size, draws[from..next])
      invariant forall k :: from <= k < next ==> PlacedCount(start, size, draws[from..k]) < numShips
      decreases |draws| - next
    {
      ShortThrough(start, size, draws, from, next, numShips);
      ghost var before := View(grid, size);
      var cell := CellOf(draws[next], size);
      var x, y := cell.0, cell.1;
      var hit := PlaceAt(grid, size, x, y);
      PlaceAtStep(start, before, View(grid, size), size, draws, from, next, shipsPlaced, x, y, hit);
      if hit {
        shipsPlaced := shipsPlaced + 1;
      }
      next := next + 1;
    }
  }

  /** `if (grid[x][y] == '~') grid[x][y] = 'S'`: the cell `(x, y)`
      becomes a ship exactly when it is water, and no other cell changes. */
  method PlaceAt(grid: array2<char>, size: int, x: nat, y: nat) returns (hit: bool)
    requires Dims(grid) && 1 <= size <= MaxGridSize && x < size && y < size
    modifies grid
    ensures hit <==> old(grid[x, y]) == Water
    ensures grid[x, y] == if hit then Ship else old(grid[x, y])
    ensures forall i, j :: 0 <= i < MaxGridSize && 0 <= j < MaxGridSize && (i != x || j != y) ==>
      grid[i, j] == old(grid[i, j])
    ensures View(grid, size) ==
      if hit then old(View(grid, size))[x := old(View(grid, size))[x][y := Ship]] else old(View(grid, size))
  {
    hit := grid[x, y] == Water;
    if hit {
      SetCell(grid, size, x, y, Ship);
    }
  }

  /** `placeShips`' loop body on the boards' values: the board before it
      is the one placing `draws[from..next]`, and the board after it has
      the drawn cell `(x, y)` turned into a ship exactly when the cell was
      water, so it is the one placing one more draw, with the count one
      higher exactly then. */
  lemma PlaceAtStep(start: seq<seq<char>>, before: seq<seq<char>>, after: seq<seq<char>>, size: int,
                    draws: seq<Draw>, from: nat, next: nat, shipsPlaced: int, x: nat, y: nat, hit: bool)
    requires Square(start, size) && from <= next < |draws| && CellOf(draws[next], size) == (x, y)
    requires before == PlaceAll(start, size, draws[from..next])
    requires shipsPlaced == PlacedCount(start, size, draws[from..next])
    requires hit == (before[x][y] == Water)
    requires after == if hit then before[x := before[x][y := Ship]] else before
    ensures after == PlaceAll(start, size, draws[from..next + 1])
    ensures shipsPlaced + (if hit then 1 else 0) == PlacedCount(start, size, draws[from..next + 1])
  {
    PlaceNext(start, before, size, draws, from, next);
    PlaceNextCount(start, size, draws, from, next, shipsPlaced);
  }

  /** `placeShips`' loop reads one more draw from the board `before` it
      has built so far: the board it builds is `before` with the drawn cell
      turned into a ship if that cell is water. */
  lemma PlaceNext(start: seq<seq<char>>, before: seq<seq<char>>, size: int, draws: seq<Draw>,
                  from: nat, next: nat)
    requires Square(start, size) && from <= next < |draws|
    requires before == PlaceAll(start, size, draws[from..next])
    ensures var (x, y) := CellOf(draws[next], size);
      PlaceAll(start, size, draws[from..next + 1]) ==
        if before[x][y] == Water then before[x := before[x][y := Ship]] else before
  {
    SliceSnoc(draws, from, next);
    PlaceAllSnoc(start, size, draws[from..next], draws[next]);
  }

  /** The count of ships placed goes up by one exactly when the drawn cell
      of the board built so far is water. */
  lemma PlaceNextCount(start: seq<seq<char>>, size: int, draws: seq<Draw>,
                       from: nat, next: nat, shipsPlaced: int)
    requires Square(start, size) && from <= next < |draws|
    requires shipsPlaced == PlacedCount(start, size, draws[from..next])
    ensures var (x, y) := CellOf(draws[next], size);
      PlacedCount(start, size, draws[from..next + 1]) ==
        shipsPlaced + (if PlaceAll(start, size, draws[from..next])[x][y] == Water then 1 else 0)
  {
    SliceSnoc(draws, from, next);
    PlacedCountStep(start, size, draws[from..next], draws[next]);
  }

  /** When `placeShips`' loop reads the draw at `next`, every prefix it
      has read, that one included, placed fewer than `numShips` ships. */
  lemma ShortThrough(start: seq<seq<char>>, size: int, draws: seq<Draw>, from: nat, next: nat, numShips: int)
    requires Square(start, size)
    requires from <= next <= |draws| && PlacedCount(start, size, draws[from..next]) < numShips
    requires forall k :: from <= k < next ==> PlacedCount(start, size, draws[from..k]) < numShips
    ensures forall k :: from <= k < next + 1 ==> PlacedCount(start, size, draws[from..k]) < numShips
  {
  }

  // ---------------------------------------------------------------------
  // Turns
  // ---------------------------------------------------------------------

  /** A scan `makeGuess` acts on: both numbers read, both in range, and the
      cell a ship or water (not already guessed). */
  predicate Accepted(rows: seq<seq<char>>, scan: Scan)
  {
    scan.Some? && 0 <= scan.value.0 < |rows| && 0 <= scan.value.1 < |rows[scan.value.0]| &&
    rows[scan.value.0][scan.value.1] in {Ship, Water}
  }

  /** None of `input[from..to]` is a scan `makeGuess` acts on. */
  predicate Rejected(rows: seq<seq<char>>, input: seq<Scan>, from: nat, to: nat)
  {
    from <= to <= |input| && forall k :: from <= k < to ==> !Accepted(rows, input[k])
  }

  /** The human's move over `input[from..next]`: every scan but the last
      was turned away, the last was acted on, and `after` is `before`
      struck at the cell it names. */
  predicate HumanMoved(before: seq<seq<char>>, after: seq<seq<char>>, input: seq<Scan>, from: nat, next: nat)
  {
    from < next <= |input| && Rejected(before, input, from, next - 1) && Accepted(before, input[next - 1]) &&
    after == Strike(before, input[next - 1].value.0, input[next - 1].value.1)
  }

  /** A square board of side `size`, as rows. */
  predicate Square(rows: seq<seq<char>>, size: int)
  {
    1 <= size && |rows| == size && forall i :: 0 <= i < size ==> |rows[i]| == size
  }

  /** Every draw of `draws[from..to]` selects a cell of `rows` already hit
      or missed. */
  predicate Skipped(rows: seq<seq<char>>, size: int, draws: seq<Draw>, from: nat, to: nat)
  {
    Square(rows, size) && from <= to <= |draws| &&
    forall k :: from <= k < to ==>
      var (x, y) := CellOf(draws[k], size); rows[x][y] !in {Ship, Water}
  }

  /** The computer's move over `draws[from..next]`: every draw but the last
      was skipped, the last selects a ship or water cell, and `after` is
      `before` struck there. */
  predicate ComputerMoved(before: seq<seq<char>>, after: seq<seq<char>>, size: int,
                          draws: seq<Draw>, from: nat, next: nat)
  {
    from < next <= |draws| && Skipped(before, size, draws, from, next - 1) &&
    var (x, y) := CellOf(draws[next - 1], size);
    before[x][y] in {Ship, Water} && after == Strike(before, x, y)
  }

  /** `makeGuess`: reads guesses until one names an unguessed in-range
      cell; every earlier one left the board alone. A ship there becomes a
      hit, the counter is decremented and 1 returned; water becomes a miss,
      0 is returned and the counter kept. `left` is the value stored
      through `shipsLeft`. */
  method MakeGuess(grid: array2<char>, size: int, shipsLeft: int, input: seq<Scan>, from: nat)
    returns (ret: int, left: int, next: nat, answered: bool)
    requires Dims(grid) && 1 <= size <= MaxGridSize && from <= |input|
    modifies grid
    ensures from <= next <= |input|
    ensures OutsideUnchanged(grid, size)
    ensures answered ==>
      from < next && Accepted(old(View(grid, size)), input[next - 1]) &&
      var (x, y) := input[next - 1].value;
      View(grid, size) == Strike(old(View(grid, size)), x, y) &&
      ret == (if old(grid[x, y]) == Ship then 1 else 0) && left == shipsLeft - ret
    ensures !answered ==> next == |input| && View(grid, size) == old(View(grid, size)) && left == shipsLeft
    ensures var tried := if answered then next - 1 else next;
      forall k :: from <= k < tried ==> !Accepted(old(View(grid, size)), input[k])
  {
    ghost var before := View(grid, size);
    next := from;
    while next < |input|
      invariant from <= next <= |input|
      invariant unchanged(grid)
      invariant forall k :: from <= k < next ==> !Accepted(before, input[k])
    {
      var scan := input[next];
      next := next + 1;
      if scan.Some? && scan.value.0 >= 0 && scan.value.0 < size && scan.value.1 >= 0 && scan.value.1 < size {
        var x, y := scan.value.0, scan.value.1;
        if grid[x, y] == Ship {
          SetCell(grid, size, x, y, Hit);
          return 1, shipsLeft - 1, next, true;
        } else if grid[x, y] == Water {
          SetCell(grid, size, x, y, Miss);
          return 0, shipsLeft, next, true;
        }
      }
    }
    return 0, shipsLeft, next, false;
  }

  /** `computerTurn`: draws cells until one is a ship or water, and strikes
      it: a ship becomes a hit and the counter is decremented, water becomes
      a miss. Hits and misses are never touched; every skipped draw landed
      on one. */
  method ComputerTurn(playerGrid: array2<char>, size: int, playerShipsLeft: int, draws: seq<Draw>, from: nat)
    returns (left: int, next: nat, moved: bool)
    requires Dims(playerGrid) && 1 <= size <= MaxGridSize && from <= |draws|
    modifies playerGrid
    ensures from <= next <= |draws|
    ensures OutsideUnchanged(playerGrid, size)
    ensures moved ==>
      ComputerMoved(old(View(playerGrid, size)), View(playerGrid, size), size, draws, from, next) &&
      var (x, y) := CellOf(draws[next - 1], size);
      left == playerShipsLeft - (if old(playerGrid[x, y]) == Ship then 1 else 0)
    ensures !moved ==>
      next == |draws| && View(playerGrid, size) == old(View(playerGrid, size)) && left == playerShipsLeft &&
      Skipped(old(View(playerGrid, size)), size, draws, from, next)
  {
    ghost var before := View(playerGrid, size);
    next := from;
    while next < |draws|
      invariant from <= next <= |draws|
      invariant unchanged(playerGrid)
      invariant Skipped(before, size, draws, from, next)
    {
      var cell := CellOf(draws[next], size);
      var x, y := cell.0, cell.1;
      next := next + 1;
      if playerGrid[x, y] == Ship {
        SetCell(playerGrid, size, x, y, Hit);
        return playerShipsLeft - 1, next, true;
      } else if playerGrid[x, y] == Water {
        SetCell(playerGrid, size, x, y, Miss);
        return playerShipsLeft, next, true;
      }
    }
    return playerShipsLeft, next, false;
  }

  /** `printGrid`: the glyphs shown for the size×size corner; with
      `revealShips == 0` a ship is shown as water. */
  method PrintGrid(grid: array2<char>, size: int, revealShips: int) returns (shown: seq<seq<char>>)
    requires Dims(grid) && 0 <= size <= MaxGridSize
    ensures shown == Masked(View(grid, size), revealShips != 0)
  {
    shown := [];
    var i := 0;
    while i < size
      invariant 0 <= i <= size && |shown| == i
      invariant forall a :: 0 <= a < i ==> shown[a] == MaskRow(View(grid, size)[a], revealShips != 0)
    {
      var row := [];
      var j := 0;
      while j < size
        invariant 0 <= j <= size && |row| == j
        invariant forall b :: 0 <= b < j ==> row[b] == Shown(grid[i, b], revealShips != 0)
      {
        if grid[i, j] == Ship && revealShips == 0 {
          row := row + [Water];
        } else {
          row := row + [grid[i, j]];
        }
        j := j + 1;
      }
      assert row == MaskRow(View(grid, size)[i], revealShips != 0);
      shown := shown + [row];
      i := i + 1;
    }
  }

  // ---------------------------------------------------------------------
  // The game
  // ---------------------------------------------------------------------

  datatype Ending = HumanWins | ComputerWins | SilentExit | InputExhausted | DrawsExhausted

  /** The human's turn at line 52, `computerShipsLeft -= makeGuess(
      computerGrid, gridSize, &computerShipsLeft)`, under the reading in
      which the left operand is read after the call has returned: the
      counter ends as the value makeGuess stored minus the value it
      returned, so a hit costs it two. */
  method HumanTurn(computerGrid: array2<char>, size: int, computerShipsLeft: int, input: seq<Scan>, from: nat)
    returns (newLeft: int, next: nat, answered: bool)
    requires Dims(computerGrid) && 1 <= size <= MaxGridSize && from <= |input|
    modifies computerGrid
    ensures from <= next <= |input|
    ensures answered ==>
      HumanMoved(old(View(computerGrid, size)), View(computerGrid, size), input, from, next) &&
      var (x, y) := input[next - 1].value;
      newLeft == computerShipsLeft - (if old(computerGrid[x, y]) == Ship then 2 else 0)
    ensures !answered ==>
      next == |input| && View(computerGrid, size) == old(View(computerGrid, size)) &&
      newLeft == computerShipsLeft && Rejected(old(View(computerGrid, size)), input, from, next)
  {
    var ret, stored;
    ret, stored, next, answered := MakeGuess(computerGrid, size, computerShipsLeft, input, from);
    newLeft := computerShipsLeft;
    if answered {
      newLeft := stored - ret;
    }
  }

  /** What `main` knows between its turns, stated on the two boards'
      glyphs: the player's counter is the player's un-hit ships, the
      computer's counter is its un-hit ships minus its hit ships, no ship
      glyph has appeared or vanished on either board (every ship is still
      `S` or has become `X`), and the computer's board has `extra` more
      guessed cells than the player's. */
  predicate Balanced(player: seq<seq<char>>, computer: seq<seq<char>>, numShips: int,
                     playerShipsLeft: int, computerShipsLeft: int, extra: int)
  {
    playerShipsLeft == Count(player, Ship) && Count(player, Ship) + Count(player, Hit) == numShips &&
    computerShipsLeft == Count(computer, Ship) - Count(computer, Hit) &&
    Count(computer, Ship) + Count(computer, Hit) == numShips &&
    Guessed(computer) == Guessed(player) + extra
  }

  /** The human's accepted guess keeps the balance, with the counter
      lowered by two on a hit, and puts the computer's board one guess
      ahead. */
  lemma HumanStrikeBalanced(player: seq<seq<char>>, computer: seq<seq<char>>, numShips: int,
                            playerShipsLeft: int, computerShipsLeft: int, x: nat, y: nat)
    requires Balanced(player, computer, numShips, playerShipsLeft, computerShipsLeft, 0)
    requires x < |computer| && y < |computer[x]| && computer[x][y] in {Ship, Water}
    ensures Balanced(player, Strike(computer, x, y), numShips, playerShipsLeft,
                     computerShipsLeft - (if computer[x][y] == Ship then 2 else 0), 1)
  {
    StrikeCounts(computer, x, y);
  }

  /** The computer's strike keeps the balance, with the player's counter
      lowered by one on a hit, and evens the number of guesses. */
  lemma ComputerStrikeBalanced(player: seq<seq<char>>, computer: seq<seq<char>>, numShips: int,
                               playerShipsLeft: int, computerShipsLeft: int, x: nat, y: nat)
    requires Balanced(player, computer, numShips, playerShipsLeft, computerShipsLeft, 1)
    requires x < |player| && y < |player[x]| && player[x][y] in {Ship, Water}
    ensures Balanced(Strike(player, x, y), computer, numShips,
                     playerShipsLeft - (if player[x][y] == Ship then 1 else 0), computerShipsLeft, 0)
  {
    StrikeCounts(player, x, y);
  }

  /** While the player's counter is positive, a ship is left on the
      player's board and some draw selects it, so `computerTurn` has a cell
      to strike. */
  lemma ShipToStrike(player: seq<seq<char>>, size: int, playerShipsLeft: int)
    requires Square(player, size)
    requires playerShipsLeft == Count(player, Ship) && playerShipsLeft > 0
    ensures Drawable(player, size, Ship)
  {
    GlyphDrawable(player, size, Ship);
  }

  /** The corner shows a ship exactly on the cells `draws[from..to]`
      select, and water everywhere else. */
  predicate FleetShown(rows: seq<seq<char>>, size: int, draws: seq<Draw>, from: nat, to: nat)
  {
    Square(rows, size) && from <= to <= |draws| &&
    forall i: nat, j: nat :: i < size && j < size ==>
      rows[i][j] == if (i, j) in DrawnCells(draws[from..to], size) then Ship else Water
  }

  /** One board of `main`: declared, filled with water by
      `initializeGrid`, then given its ships by `placeShips`. The ships are
      the cells of the fewest draws from `from` on that give `numShips`
      cells, or no run of the remaining draws gives that many. */
  method NewBoard(size: int, numShips: int, draws: seq<Draw>, from: nat)
    returns (grid: array2<char>, placed: bool, next: nat)
    requires 1 <= size <= MaxGridSize && 1 <= numShips <= size * size && from <= |draws|
    ensures fresh(grid) && Dims(grid) && from <= next <= |draws|
    ensures FleetShown(View(grid, size), size, draws, from, next)
    ensures placed ==> FewestDraws(draws, size, numShips, from, next)
    ensures !placed ==> next == |draws| && NeverDrawn(draws, size, numShips, from)
    ensures placed ==>
      Count(View(grid, size), Ship) == numShips && Count(View(grid, size), Water) == size * size - numShips &&
      Count(View(grid, size), Hit) == 0 && Guessed(View(grid, size)) == 0
  {
    grid := new char[MaxGridSize, MaxGridSize];
    InitializeGrid(grid, size);
    ghost var ocean := View(grid, size);
    assert forall i, j :: 0 <= i < size && 0 <= j < size ==> ocean[i][j] == Water;
    placed, next := PlaceShips(grid, size, numShips, draws, from);
    FleetOnOcean(ocean, View(grid, size), size, numShips, draws, from, next, placed);
  }

  /** Placing on a board of water shows exactly the drawn cells as ships;
      a run of draws that places `numShips` ships after every shorter run
      placed fewer is the fewest draws giving `numShips` cells, and a run
      to the end that places fewer means no run gives that many. */
  lemma FleetOnOcean(ocean: seq<seq<char>>, now: seq<seq<char>>, size: int, numShips: int,
                     draws: seq<Draw>, from: nat, next: nat, placed: bool)
    requires Square(ocean, size) && forall i, j :: 0 <= i < size && 0 <= j < size ==> ocean[i][j] == Water
    requires from <= next <= |draws| && PlacedBy(ocean, now, size, draws[from..next])
    requires forall k :: from <= k < next ==> PlacedCount(ocean, size, draws[from..k]) < numShips
    requires placed ==> PlacedCount(ocean, size, draws[from..next]) == numShips
    requires !placed ==> next == |draws| && PlacedCount(ocean, size, draws[from..next]) < numShips
    ensures FleetShown(now, size, draws, from, next)
    ensures placed ==> FewestDraws(draws, size, numShips, from, next)
    ensures !placed ==> NeverDrawn(draws, size, numShips, from)
  {
    forall k | from <= k <= next
      ensures PlacedCount(ocean, size, draws[from..k]) == |DrawnCells(draws[from..k], size)|
      ensures k < next || !placed ==> |DrawnCells(draws[from..k], size)| != numShips
      ensures k == next && placed ==> |DrawnCells(draws[from..k], size)| == numShips
    {
      PlacedOnWater(ocean, size, draws[from..k]);
    }
  }

  /** The board set-up of `main`: the player's board is given its ships
      first, then the computer's, from one random source. Both programs
      initialise both boards before placing either fleet; as initialising
      draws nothing, the order of the draws is the same. The player's fleet
      is drawn from `draws[..split]` and the computer's from
      `draws[split..next]`. */
  method SetUp(gridSize: int, numShips: int, draws: seq<Draw>)
    returns (playerGrid: array2<char>, computerGrid: array2<char>, placed: bool, next: nat, ghost split: nat)
    requires 1 <= gridSize <= MaxGridSize && 1 <= numShips <= gridSize * gridSize
    ensures fresh(playerGrid) && fresh(computerGrid) && playerGrid != computerGrid
    ensures Dims(playerGrid) && Dims(computerGrid) && next <= |draws|
    ensures !placed ==> next == |draws| && NoFleets(draws, gridSize, numShips)
    ensures placed ==>
      FleetShown(View(playerGrid, gridSize), gridSize, draws, 0, split) &&
      FewestDraws(draws, gridSize, numShips, 0, split) &&
      FleetShown(View(computerGrid, gridSize), gridSize, draws, split, next) &&
      FewestDraws(draws, gridSize, numShips, split, next)
    ensures placed ==>
      Count(View(playerGrid, gridSize), Ship) == numShips && Count(View(playerGrid, gridSize), Hit) == 0 &&
      Guessed(View(playerGrid, gridSize)) == 0 &&
      Count(View(computerGrid, gridSize), Ship) == numShips && Count(View(computerGrid, gridSize), Hit) == 0 &&
      Guessed(View(computerGrid, gridSize)) == 0
  {
    playerGrid, placed, next := NewBoard(gridSize, numShips, draws, 0);
    split := next;
    computerGrid := new char[MaxGridSize, MaxGridSize];
    if placed {
      computerGrid, placed, next := NewBoard(gridSize, numShips, draws, next);
      if !placed {
        NoFleetsFrom(draws, gridSize, numShips, split, true);
      }
    } else {
      NoFleetsFrom(draws, gridSize, numShips, split, false);
    }
  }

  /** `Balanced`, read off the two boards. */
  ghost predicate Ledger(playerGrid: array2<char>, computerGrid: array2<char>, size: int, numShips: int,
                         playerShipsLeft: int, computerShipsLeft: int, extra: int)
    reads playerGrid, computerGrid
    requires Dims(playerGrid) && Dims(computerGrid) && 1 <= size <= MaxGridSize
  {
    Balanced(View(playerGrid, size), View(computerGrid, size), numShips, playerShipsLeft, computerShipsLeft, extra)
  }

  /** Where `main` stands at the start of a pass of its while loop: the
      corners of both boards and how far into the input and the draws it
      has read. */
  datatype Mark = Mark(player: seq<seq<char>>, computer: seq<seq<char>>, scan: nat, draw: nat)

  /** A whole pass from `a` to `b`: the human's move over the scans read,
      then the computer's move over the draws read. */
  predicate Pass(a: Mark, b: Mark, size: int, input: seq<Scan>, draws: seq<Draw>)
  {
    HumanMoved(a.computer, b.computer, input, a.scan, b.scan) &&
    ComputerMoved(a.player, b.player, size, draws, a.draw, b.draw)
  }

  /** The loop test at line 43 passes at `m`: the player still has an
      un-hit ship and the computer's counter, read off its board as in
      `Balanced`, is positive. */
  predicate InPlay(m: Mark)
  {
    Count(m.player, Ship) > 0 && Count(m.computer, Ship) - Count(m.computer, Hit) > 0
  }

  /** Every pass recorded in `marks` but the last began with both sides in
      play, so none of them left the loop. */
  predicate Undecided(marks: seq<Mark>)
  {
    forall i :: 0 <= i < |marks| - 1 ==> InPlay(marks[i])
  }

  /** Consecutive marks are whole passes. */
  predicate Played(marks: seq<Mark>, size: int, input: seq<Scan>, draws: seq<Draw>)
  {
    |marks| <= 1 ||
    (Played(marks[..|marks| - 1], size, input, draws) && Pass(marks[|marks| - 2], marks[|marks| - 1], size, input, draws))
  }

  lemma PlayedExtend(marks: seq<Mark>, m: Mark, size: int, input: seq<Scan>, draws: seq<Draw>)
    requires marks != [] && Played(marks, size, input, draws) && Pass(marks[|marks| - 1], m, size, input, draws)
    ensures Played(marks + [m], size, input, draws)
  {
    assert (marks + [m])[..|marks|] == marks;
  }

  /** The opening position: nothing read yet, the player's board shows the
      fleet of the fewest draws `draws[..split]` that give `numShips` cells,
      and the computer's board the fleet of the fewest next draws that do. */
  predicate Opened(m: Mark, size: int, numShips: int, draws: seq<Draw>, split: nat)
  {
    1 <= size && 1 <= numShips && m.scan == 0 &&
    FleetShown(m.player, size, draws, 0, split) && FewestDraws(draws, size, numShips, 0, split) &&
    FleetShown(m.computer, size, draws, split, m.draw) && FewestDraws(draws, size, numShips, split, m.draw)
  }

  /** How the pass that started at `last` left the loop with `ending`,
      with the boards `player` and `computer` and the cursors `scan` and
      `draw`: the loop test failed before it (`SilentExit`); every
      remaining scan was turned away (`InputExhausted`); the human's move
      sank the counter to 0 (`HumanWins`); both moved (`ComputerWins`); or
      the human moved, leaving the computer's `S` − `X` non-zero, and
      every remaining draw was skipped (`DrawsExhausted`). */
  predicate Ended(ending: Ending, last: Mark, player: seq<seq<char>>, computer: seq<seq<char>>,
                  scan: nat, draw: nat, size: int, input: seq<Scan>, draws: seq<Draw>)
  {
    match ending
    case SilentExit => Mark(player, computer, scan, draw) == last
    case InputExhausted =>
      scan == |input| && Rejected(last.computer, input, last.scan, scan) &&
      player == last.player && computer == last.computer && draw == last.draw
    case HumanWins =>
      HumanMoved(last.computer, computer, input, last.scan, scan) && player == last.player && draw == last.draw
    case ComputerWins => Pass(last, Mark(player, computer, scan, draw), size, input, draws)
    case DrawsExhausted =>
      HumanMoved(last.computer, computer, input, last.scan, scan) &&
      Count(computer, Ship) - Count(computer, Hit) != 0 &&
      draw == |draws| && Skipped(last.player, size, draws, last.draw, draw) && player == last.player
  }

  /** The second half of a pass of `main`'s while loop, after the human's
      guess left the computer's counter non-zero: the computer's guess and
      the test of the player's counter against 0. */
  method ComputerHalf(playerGrid: array2<char>, computerGrid: array2<char>, size: int, numShips: int,
                      playerShipsLeft: int, computerShipsLeft: int, draws: seq<Draw>, drawFrom: nat)
    returns (stop: Option<Ending>, newPlayerLeft: int, drawNext: nat)
    requires Dims(playerGrid) && Dims(computerGrid) && playerGrid != computerGrid && 1 <= size <= MaxGridSize
    requires drawFrom <= |draws|
    requires Ledger(playerGrid, computerGrid, size, numShips, playerShipsLeft, computerShipsLeft, 1)
    requires playerShipsLeft > 0
    modifies playerGrid
    ensures drawFrom <= drawNext <= |draws|
    ensures stop in {None, Some(ComputerWins), Some(DrawsExhausted)}
    ensures stop == None ==>
      newPlayerLeft > 0 && Ledger(playerGrid, computerGrid, size, numShips, newPlayerLeft, computerShipsLeft, 0)
    ensures stop == Some(ComputerWins) ==>
      newPlayerLeft == 0 && Ledger(playerGrid, computerGrid, size, numShips, newPlayerLeft, computerShipsLeft, 0)
    ensures stop != Some(DrawsExhausted) ==>
      ComputerMoved(old(View(playerGrid, size)), View(playerGrid, size), size, draws, drawFrom, drawNext)
    ensures stop == Some(DrawsExhausted) ==>
      drawNext == |draws| && Skipped(old(View(playerGrid, size)), size, draws, drawFrom, drawNext) &&
      View(playerGrid, size) == old(View(playerGrid, size)) && newPlayerLeft == playerShipsLeft &&
      Ledger(playerGrid, computerGrid, size, numShips, newPlayerLeft, computerShipsLeft, 1)
  {
    ghost var player, computer := View(playerGrid, size), View(computerGrid, size);
    ShipToStrike(player, size, playerShipsLeft);
    var moved;
    newPlayerLeft, drawNext, moved := ComputerTurn(playerGrid, size, playerShipsLeft, draws, drawFrom);
    if !moved {
      stop := Some(DrawsExhausted);
    } else {
      ghost var cell := CellOf(draws[drawNext - 1], size);
      ComputerStrikeBalanced(player, computer, numShips, playerShipsLeft, computerShipsLeft, cell.0, cell.1);
      stop := if newPlayerLeft == 0 then Some(ComputerWins) else None;
    }
  }

  /** One pass of `main`'s while loop: the human's guess, the test of the
      computer's counter against 0, the computer's guess and the test of
      the player's counter against 0. `stop` is `None` when the pass ran to
      its end, and otherwise names how the pass left the loop. */
  method PlayRound(playerGrid: array2<char>, computerGrid: array2<char>, size: int, numShips: int,
                   playerShipsLeft: int, computerShipsLeft: int,
                   input: seq<Scan>, from: nat, draws: seq<Draw>, drawFrom: nat)
    returns (stop: Option<Ending>, newPlayerLeft: int, newComputerLeft: int, next: nat, drawNext: nat)
    requires Dims(playerGrid) && Dims(computerGrid) && playerGrid != computerGrid && 1 <= size <= MaxGridSize
    requires from <= |input| && drawFrom <= |draws|
    requires Ledger(playerGrid, computerGrid, size, numShips, playerShipsLeft, computerShipsLeft, 0)
    requires playerShipsLeft > 0 && computerShipsLeft > 0
    modifies playerGrid, computerGrid
    ensures from <= next <= |input| && drawFrom <= drawNext <= |draws|
    ensures stop == None ==>
      from < next && newPlayerLeft > 0 && newComputerLeft != 0 &&
      newComputerLeft in {computerShipsLeft, computerShipsLeft - 2} &&
      Ledger(playerGrid, computerGrid, size, numShips, newPlayerLeft, newComputerLeft, 0)
    ensures stop == Some(HumanWins) ==>
      newComputerLeft == 0 && newPlayerLeft > 0 &&
      Ledger(playerGrid, computerGrid, size, numShips, newPlayerLeft, newComputerLeft, 1)
    ensures stop == Some(ComputerWins) ==>
      newPlayerLeft == 0 && newComputerLeft != 0 &&
      Ledger(playerGrid, computerGrid, size, numShips, newPlayerLeft, newComputerLeft, 0)
    ensures stop != None ==> stop.value in {HumanWins, ComputerWins, InputExhausted, DrawsExhausted}
    ensures stop == Some(InputExhausted) ==>
      next == |input| && Rejected(old(View(computerGrid, size)), input, from, next) &&
      View(computerGrid, size) == old(View(computerGrid, size)) && newComputerLeft == computerShipsLeft
    ensures stop != Some(InputExhausted) ==>
      HumanMoved(old(View(computerGrid, size)), View(computerGrid, size), input, from, next)
    ensures stop in {Some(InputExhausted), Some(HumanWins)} ==>
      drawNext == drawFrom && View(playerGrid, size) == old(View(playerGrid, size)) &&
      newPlayerLeft == playerShipsLeft
    ensures stop in {None, Some(ComputerWins)} ==>
      ComputerMoved(old(View(playerGrid, size)), View(playerGrid, size), size, draws, drawFrom, drawNext)
    ensures stop == Some(DrawsExhausted) ==>
      drawNext == |draws| && Skipped(old(View(playerGrid, size)), size, draws, drawFrom, drawNext) &&
      View(playerGrid, size) == old(View(playerGrid, size)) && newPlayerLeft == playerShipsLeft &&
      newComputerLeft != 0 && Ledger(playerGrid, computerGrid, size, numShips, newPlayerLeft, newComputerLeft, 1)
    ensures stop == None ==>
      Pass(Mark(old(View(playerGrid, size)), old(View(computerGrid, size)), from, drawFrom),
           Mark(View(playerGrid, size), View(computerGrid, size), next, drawNext), size, input, draws)
    ensures stop != None ==>
      Ended(stop.value, Mark(old(View(playerGrid, size)), old(View(computerGrid, size)), from, drawFrom),
            View(playerGrid, size), View(computerGrid, size), next, drawNext, size, input, draws)
  {
    newPlayerLeft, drawNext := playerShipsLeft, drawFrom;
    ghost var player, computer := View(playerGrid, size), View(computerGrid, size);
    var answered;
    newComputerLeft, next, answered := HumanTurn(computerGrid, size, computerShipsLeft, input, from);
    if !answered {
      stop := Some(InputExhausted);
    } else {
      HumanStrikeBalanced(player, computer, numShips, playerShipsLeft, computerShipsLeft,
                          input[next - 1].value.0, input[next - 1].value.1);
      if newComputerLeft == 0 {
        stop := Some(HumanWins);
      } else {
        stop, newPlayerLeft, drawNext :=
          ComputerHalf(playerGrid, computerGrid, size, numShips, playerShipsLeft, newComputerLeft, draws, drawFrom);
      }
    }
  }

  /** `main` after the two `getValidIntInput` calls, which supply
      1 <= gridSize <= 10 and 1 <= numShips <= gridSize².

      Line 52, `computerShipsLeft -= makeGuess(computerGrid, gridSize,
      &computerShipsLeft)`, reads its left operand either before or after
      the call, since the call is only indeterminately sequenced with that
      read. The model takes the reading in which the read comes after the
      call: a hit then costs the counter two, the one stored by makeGuess
      and the 1 it returns. So the computer's counter is its ship count
      minus its hit count, not its ship count. It is tested for 0 right
      after the human's turn, so the human is announced the winner once
      exactly half of an even fleet is sunk; with an odd fleet it jumps from
      1 to -1, the computer still takes its turn, and unless that turn wins
      the loop ends with no message. The player's counter always equals the
      ships left on the player's board. */
  method RunGame(gridSize: int, numShips: int, input: seq<Scan>, draws: seq<Draw>)
    returns (ending: Ending, playerGrid: array2<char>, computerGrid: array2<char>,
             playerShipsLeft: int, computerShipsLeft: int, inputCursor: nat, drawCursor: nat,
             ghost split: nat, ghost marks: seq<Mark>)
    requires 1 <= gridSize <= MaxGridSize && 1 <= numShips <= gridSize * gridSize
    ensures Dims(playerGrid) && Dims(computerGrid)
    ensures inputCursor <= |input| && drawCursor <= |draws|
    ensures ending == InputExhausted ==> inputCursor == |input|
    ensures ending == DrawsExhausted ==> drawCursor == |draws| && computerShipsLeft != 0
    ensures marks == [] ==>
      ending == DrawsExhausted && inputCursor == 0 && NoFleets(draws, gridSize, numShips)
    ensures marks != [] ==>
      Opened(marks[0], gridSize, numShips, draws, split) && Played(marks, gridSize, input, draws) &&
      Ended(ending, marks[|marks| - 1], View(playerGrid, gridSize), View(computerGrid, gridSize),
            inputCursor, drawCursor, gridSize, input, draws)
    ensures marks != [] ==>
      Undecided(marks) && (InPlay(marks[|marks| - 1]) <==> ending != SilentExit) &&
      Balanced(View(playerGrid, gridSize), View(computerGrid, gridSize), numShips, playerShipsLeft, computerShipsLeft,
               if ending in {HumanWins, DrawsExhausted} then 1 else 0)
    ensures ending == HumanWins ==>
      computerShipsLeft == 0 && playerShipsLeft > 0 &&
      2 * Count(View(computerGrid, gridSize), Hit) == numShips &&
      Guessed(View(computerGrid, gridSize)) == Guessed(View(playerGrid, gridSize)) + 1
    ensures ending == ComputerWins ==>
      playerShipsLeft == 0 && computerShipsLeft != 0 &&
      Guessed(View(computerGrid, gridSize)) == Guessed(View(playerGrid, gridSize))
    ensures ending == SilentExit ==>
      computerShipsLeft == -1 && playerShipsLeft > 0 &&
      2 * Count(View(computerGrid, gridSize), Hit) == numShips + 1 &&
      Guessed(View(computerGrid, gridSize)) == Guessed(View(playerGrid, gridSize))
  {
    var placed;
    playerGrid, computerGrid, placed, drawCursor, split := SetUp(gridSize, numShips, draws);
    playerShipsLeft, computerShipsLeft, inputCursor := numShips, numShips, 0;
    marks := [];
    if !placed {
      ending := DrawsExhausted;
      return;
    }
    ghost var first := Mark(View(playerGrid, gridSize), View(computerGrid, gridSize), 0, drawCursor);
    assert Opened(first, gridSize, numShips, draws, split);
    ending, playerShipsLeft, computerShipsLeft, inputCursor, drawCursor, marks :=
      MainLoop(playerGrid, computerGrid, gridSize, numShips, input, draws, drawCursor);
  }

  /** Where `main`'s while loop stands between passes, with the boards
      showing `player` and `computer`: both cursors in range, the counters
      still in play and in balance with the boards, and `marks` the record
      of the passes so far, from `first` to the current position. */
  predicate Course(player: seq<seq<char>>, computer: seq<seq<char>>, size: int, numShips: int,
                   input: seq<Scan>, draws: seq<Draw>, first: Mark, marks: seq<Mark>,
                   playerShipsLeft: int, computerShipsLeft: int, scan: nat, draw: nat)
  {
    scan <= |input| && draw <= |draws| &&
    playerShipsLeft > 0 && computerShipsLeft >= -1 && computerShipsLeft != 0 &&
    Balanced(player, computer, numShips, playerShipsLeft, computerShipsLeft, 0) &&
    marks != [] && marks[0] == first && Played(marks, size, input, draws) && Undecided(marks) &&
    marks[|marks| - 1] == Mark(player, computer, scan, draw)
  }

  /** How `main`'s while loop has been left with `ending`, with the boards
      showing `player` and `computer`: the passes recorded in `marks` from
      `first`, every one but the last begun with both sides in play, the
      last begun in play unless the loop test failed before it, the way it
      ended, and the balance each way out keeps. */
  predicate Closed(ending: Ending, player: seq<seq<char>>, computer: seq<seq<char>>, size: int,
                   numShips: int, input: seq<Scan>, draws: seq<Draw>, first: Mark, marks: seq<Mark>,
                   playerShipsLeft: int, computerShipsLeft: int, scan: nat, draw: nat)
  {
    scan <= |input| && draw <= |draws| &&
    marks != [] && marks[0] == first && Played(marks, size, input, draws) && Undecided(marks) &&
    (InPlay(marks[|marks| - 1]) <==> ending != SilentExit) &&
    Ended(ending, marks[|marks| - 1], player, computer, scan, draw, size, input, draws) &&
    (ending == HumanWins ==>
      computerShipsLeft == 0 && playerShipsLeft > 0 &&
      Balanced(player, computer, numShips, playerShipsLeft, computerShipsLeft, 1)) &&
    (ending == ComputerWins ==>
      playerShipsLeft == 0 && computerShipsLeft != 0 &&
      Balanced(player, computer, numShips, playerShipsLeft, computerShipsLeft, 0)) &&
    (ending == SilentExit ==>
      computerShipsLeft == -1 && playerShipsLeft > 0 &&
      Balanced(player, computer, numShips, playerShipsLeft, computerShipsLeft, 0)) &&
    (ending == InputExhausted ==> Balanced(player, computer, numShips, playerShipsLeft, computerShipsLeft, 0)) &&
    (ending == DrawsExhausted ==>
      computerShipsLeft != 0 && Balanced(player, computer, numShips, playerShipsLeft, computerShipsLeft, 1))
  }

  /** `main`'s while loop, from the opening position with both counters at
      `numShips`: the passes it plays and how it leaves. */
  method MainLoop(playerGrid: array2<char>, computerGrid: array2<char>, size: int, numShips: int,
                  input: seq<Scan>, draws: seq<Draw>, drawFrom: nat)
    returns (ending: Ending, playerShipsLeft: int, computerShipsLeft: int, inputCursor: nat, drawCursor: nat,
             ghost marks: seq<Mark>)
    requires Dims(playerGrid) && Dims(computerGrid) && playerGrid != computerGrid && 1 <= size <= MaxGridSize
    requires 1 <= numShips && drawFrom <= |draws|
    requires Ledger(playerGrid, computerGrid, size, numShips, numShips, numShips, 0)
    modifies playerGrid, computerGrid
    ensures Closed(ending, View(playerGrid, size), View(computerGrid, size), size, numShips, input, draws,
                   Mark(old(View(playerGrid, size)), old(View(computerGrid, size)), 0, drawFrom), marks,
                   playerShipsLeft, computerShipsLeft, inputCursor, drawCursor)
  {
    ghost var first := Mark(View(playerGrid, size), View(computerGrid, size), 0, drawFrom);
    playerShipsLeft, computerShipsLeft, inputCursor, drawCursor := numShips, numShips, 0, drawFrom;
    marks := [first];
    while playerShipsLeft > 0 && computerShipsLeft > 0
      invariant Course(View(playerGrid, size), View(computerGrid, size), size, numShips, input, draws, first, marks,
                       playerShipsLeft, computerShipsLeft, inputCursor, drawCursor)
      decreases |input| - inputCursor
    {
      var stop;
      stop, playerShipsLeft, computerShipsLeft, inputCursor, drawCursor, marks :=
        NextPass(playerGrid, computerGrid, size, numShips, input, draws, first, marks,
                 playerShipsLeft, computerShipsLeft, inputCursor, drawCursor);
      if stop.Some? {
        ending := stop.value;
        return;
      }
    }
    ending := SilentExit;
  }

  /** One pass of `main`'s while loop, from a position on its course: it
      either runs to its end, recorded as one more mark, or leaves the
      loop where `PlayRound` says. */
  method NextPass(playerGrid: array2<char>, computerGrid: array2<char>, size: int, numShips: int,
                  input: seq<Scan>, draws: seq<Draw>, ghost first: Mark, ghost marks: seq<Mark>,
                  playerShipsLeft: int, computerShipsLeft: int, scan: nat, draw: nat)
    returns (stop: Option<Ending>, newPlayerLeft: int, newComputerLeft: int, next: nat, drawNext: nat,
             ghost marks': seq<Mark>)
    requires Dims(playerGrid) && Dims(computerGrid) && playerGrid != computerGrid && 1 <= size <= MaxGridSize
    requires Course(View(playerGrid, size), View(computerGrid, size), size, numShips, input, draws, first, marks,
                    playerShipsLeft, computerShipsLeft, scan, draw)
    requires playerShipsLeft > 0 && computerShipsLeft > 0
    modifies playerGrid, computerGrid
    ensures stop == None ==>
      scan < next &&
      Course(View(playerGrid, size), View(computerGrid, size), size, numShips, input, draws, first, marks',
             newPlayerLeft, newComputerLeft, next, drawNext)
    ensures stop != None ==>
      Closed(stop.value, View(playerGrid, size), View(computerGrid, size), size, numShips, input, draws, first, marks',
             newPlayerLeft, newComputerLeft, next, drawNext)
  {
    ghost var player, computer := View(playerGrid, size), View(computerGrid, size);
    stop, newPlayerLeft, newComputerLeft, next, drawNext :=
      PlayRound(playerGrid, computerGrid, size, numShips, playerShipsLeft, computerShipsLeft,
                input, scan, draws, draw);
    ghost var m := Mark(View(playerGrid, size), View(computerGrid, size), next, drawNext);
    Advance(stop, Mark(player, computer, scan, draw), m, size, numShips, input, draws, first, marks,
            playerShipsLeft, computerShipsLeft, newPlayerLeft, newComputerLeft);
    marks' := if stop == None then marks + [m] else marks;
  }

  /** A pass that `PlayRound` ran from the last mark `a` of a course to `b`
      either extends the course by `b` or closes it the way it stopped. */
  lemma Advance(stop: Option<Ending>, a: Mark, b: Mark, size: int, numShips: int,
                input: seq<Scan>, draws: seq<Draw>, first: Mark, marks: seq<Mark>,
                playerShipsLeft: int, computerShipsLeft: int, newPlayerLeft: int, newComputerLeft: int)
    requires Course(a.player, a.computer, size, numShips, input, draws, first, marks,
                    playerShipsLeft, computerShipsLeft, a.scan, a.draw)
    requires playerShipsLeft > 0 && computerShipsLeft > 0
    requires b.scan <= |input| && b.draw <= |draws|
    requires stop == None ==>
      a.scan < b.scan && newPlayerLeft > 0 && newComputerLeft != 0 &&
      newComputerLeft in {computerShipsLeft, computerShipsLeft - 2} &&
      Balanced(b.player, b.computer, numShips, newPlayerLeft, newComputerLeft, 0) &&
      Pass(a, b, size, input, draws)
    requires stop != None ==>
      stop.value != SilentExit && Ended(stop.value, a, b.player, b.computer, b.scan, b.draw, size, input, draws)
    requires stop == Some(HumanWins) ==>
      newComputerLeft == 0 && newPlayerLeft > 0 &&
      Balanced(b.player, b.computer, numShips, newPlayerLeft, newComputerLeft, 1)
    requires stop == Some(ComputerWins) ==>
      newPlayerLeft == 0 && newComputerLeft != 0 &&
      Balanced(b.player, b.computer, numShips, newPlayerLeft, newComputerLeft, 0)
    requires stop == Some(InputExhausted) ==>
      newPlayerLeft == playerShipsLeft && newComputerLeft == computerShipsLeft
    requires stop == Some(DrawsExhausted) ==>
      newComputerLeft != 0 && Balanced(b.player, b.computer, numShips, newPlayerLeft, newComputerLeft, 1)
    ensures stop == None ==>
      Course(b.player, b.computer, size, numShips, input, draws, first, marks + [b],
             newPlayerLeft, newComputerLeft, b.scan, b.draw)
    ensures stop != None ==>
      Closed(stop.value, b.player, b.computer, size, numShips, input, draws, first, marks,
             newPlayerLeft, newComputerLeft, b.scan, b.draw)
  {
    if stop == None {
      PlayedExtend(marks, b, size, input, draws);
    }
  }
}
