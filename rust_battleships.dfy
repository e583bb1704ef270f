/** Model of the Rust version of the game (RUST_battleships.rs).

    A board is a square `seq<seq<char>>` of glyphs together with a set of
    positions that still hold an un-hit ship. Guesses are resolved against
    the set, never against the glyphs; the computer's own board is created
    without any ship glyph. Console input is a finite sequence of lines,
    each already split into whitespace-separated tokens that either parsed
    as a natural number or did not; the random source is a finite sequence
    of draws. Running out of either ends a loop with an "exhausted" result,
    where the program itself would loop forever. */
module RustBattleships {
  import opened Prelude
  import opened Glyph

  const MaxGridSize: nat := 10

  type Grid = seq<seq<char>>
  type Position = (nat, nat)

  /** The tokens of one input line, each parsed as a `usize` or not. */
  type Line = seq<Option<nat>>

  predicate InBounds(p: Position, n: nat)
  {
    p.0 < n && p.1 < n
  }

  predicate AllInBounds(s: set<Position>, n: nat)
  {
    forall p :: p in s ==> InBounds(p, n)
  }

  predicate IsSquare(grid: Grid, n: nat)
  {
    |grid| == n && forall i :: 0 <= i < n ==> |grid[i]| == n
  }

  // ---------------------------------------------------------------------
  // Input readers: what each accepts, and the re-prompting loops.
  // ---------------------------------------------------------------------

  /** `input.trim().parse::<usize>()`: a whole line parses only when it is a
      single token that parses. */
  function ParseLine(line: Line): Option<nat>
  {
    if |line| == 1 then line[0] else None
  }

  /** The guard of `get_grid_size`: a line holding one number, 1 to 10.
      The predicate is the definition; its ensures spells out what
      `ParseLine` lets through. */
  predicate AcceptGridSize(line: Line): (accepted: bool)
    ensures accepted <==> |line| == 1 && line[0].Some? && 1 <= line[0].value <= MaxGridSize
  {
    var v := ParseLine(line);
    v.Some? && 0 < v.value <= MaxGridSize
  }

  /** The guard of `get_num_ships`: a line holding one number, 1 to
      gridSize²; no line is accepted on an empty board. The predicate is
      the definition, spelled out in its ensures. */
  predicate AcceptNumShips(gridSize: nat, line: Line): (accepted: bool)
    ensures accepted <==> |line| == 1 && line[0].Some? && 1 <= line[0].value <= gridSize * gridSize
    ensures accepted ==> 0 < gridSize
  {
    var v := ParseLine(line);
    v.Some? && 0 < v.value <= gridSize * gridSize
  }

  /** The guard of `get_coordinates`: exactly two tokens, both numbers,
      naming a cell of the board. The predicate is the definition, spelled
      out in its ensures. */
  predicate AcceptCoordinates(gridSize: nat, line: Line): (accepted: bool)
    ensures accepted <==>
      |line| == 2 && line[0].Some? && line[1].Some? && InBounds((line[0].value, line[1].value), gridSize)
  {
    |line| == 2 && line[0].Some? && line[1].Some? &&
    line[0].value < gridSize && line[1].value < gridSize
  }

  /** `get_grid_size`: reads lines from `from` on until one is a size in
      1..=10, and returns it; every line it skipped was rejected. */
  method GetGridSize(input: seq<Line>, from: nat) returns (size: Option<nat>, next: nat)
    requires from <= |input|
    ensures from <= next <= |input|
    ensures size.Some? ==>
      from < next && AcceptGridSize(input[next - 1]) &&
      size.value == ParseLine(input[next - 1]).value && 1 <= size.value <= MaxGridSize
    ensures size.None? ==> next == |input|
    ensures var tried := if size.Some? then next - 1 else next;
      forall k :: from <= k < tried ==> !AcceptGridSize(input[k])
  {
    next := from;
    while next < |input|
      invariant from <= next <= |input|
      invariant forall k :: from <= k < next ==> !AcceptGridSize(input[k])
    {
      var parsed := ParseLine(input[next]);
      next := next + 1;
      if parsed.Some? && parsed.value > 0 && parsed.value <= MaxGridSize {
        return parsed, next;
      }
    }
    size := None;
  }

  /** `get_num_ships`: reads lines until one is a ship count in
      1..=gridSize², and returns it; every line it skipped was rejected. */
  method GetNumShips(gridSize: nat, input: seq<Line>, from: nat) returns (count: Option<nat>, next: nat)
    requires from <= |input|
    ensures from <= next <= |input|
    ensures count.Some? ==>
      from < next && AcceptNumShips(gridSize, input[next - 1]) &&
      count.value == ParseLine(input[next - 1]).value && 1 <= count.value <= gridSize * gridSize
    ensures count.None? ==> next == |input|
    ensures var tried := if count.Some? then next - 1 else next;
      forall k :: from <= k < tried ==> !AcceptNumShips(gridSize, input[k])
  {
    var maxShips := gridSize * gridSize;
    next := from;
    while next < |input|
      invariant from <= next <= |input|
      invariant forall k :: from <= k < next ==> !AcceptNumShips(gridSize, input[k])
    {
      var parsed := ParseLine(input[next]);
      next := next + 1;
      if parsed.Some? && parsed.value > 0 && parsed.value <= maxShips {
        return parsed, next;
      }
    }
    count := None;
  }

  /** `get_coordinates`: reads lines until one has exactly two tokens, both
      parsed and both below `gridSize`, and returns them as a position. */
  method GetCoordinates(gridSize: nat, input: seq<Line>, from: nat) returns (pos: Option<Position>, next: nat)
    requires from <= |input|
    ensures from <= next <= |input|
    ensures pos.Some? ==>
      from < next && AcceptCoordinates(gridSize, input[next - 1]) &&
      pos.value == (input[next - 1][0].value, input[next - 1][1].value) && InBounds(pos.value, gridSize)
    ensures pos.None? ==> next == |input|
    ensures var tried := if pos.Some? then next - 1 else next;
      forall k :: from <= k < tried ==> !AcceptCoordinates(gridSize, input[k])
    ensures AcceptedGuesses(gridSize, input[from..next]) == if pos.Some? then [pos.value] else []
  {
    next := from;
    while next < |input|
      invariant from <= next <= |input|
      invariant forall k :: from <= k < next ==> !AcceptCoordinates(gridSize, input[k])
    {
      var parts := input[next];
      next := next + 1;
      if |parts| == 2 {
        if parts[0].Some? && parts[1].Some? {
          var x, y := parts[0].value, parts[1].value;
          if x < gridSize && y < gridSize {
            AcceptedWindow(gridSize, input, from, next, true);
            return Some((x, y)), next;
          }
        }
      }
    }
    AcceptedWindow(gridSize, input, from, next, false);
    pos := None;
  }

  // ---------------------------------------------------------------------
  // Boards
  // ---------------------------------------------------------------------

  /** `initialize_grid`: a size×size grid of water. */
  function InitializeGrid(size: nat): (grid: Grid)
    ensures IsSquare(grid, size)
    ensures forall x, y :: 0 <= x < size && 0 <= y < size ==> grid[x][y] == Water
  {
    seq(size, _ => seq(size, _ => Water))
  }

  /** A board whose glyphs and ship set agree: a cell shows a ship exactly
      when its position is in the ship set. */
  predicate Consistent(grid: Grid, ships: set<Position>, n: nat)
  {
    IsSquare(grid, n) && AllInBounds(ships, n) &&
    forall x: nat, y: nat :: x < n && y < n ==> (grid[x][y] == Ship <==> (x, y) in ships)
  }

  /** A board that shows no ship glyph at all (the computer's board). */
  predicate Concealed(grid: Grid, n: nat)
  {
    IsSquare(grid, n) && forall x, y :: 0 <= x < n && 0 <= y < n ==> grid[x][y] != Ship
  }

  /** `initialize_grid_with_ships`: starts from water and writes a ship glyph
      at every position of `ships`, in whatever order the set yields them. */
  method InitializeGridWithShips(size: nat, ships: set<Position>) returns (grid: Grid)
    requires AllInBounds(ships, size)
    ensures IsSquare(grid, size)
    ensures forall x: nat, y: nat :: x < size && y < size ==>
      grid[x][y] == if (x, y) in ships then Ship else Water
    ensures Consistent(grid, ships, size)
  {
    grid := InitializeGrid(size);
    var rest := ships;
    while rest != {}
      invariant rest <= ships
      invariant IsSquare(grid, size)
      invariant forall x: nat, y: nat :: x < size && y < size ==>
        grid[x][y] == if (x, y) in ships - rest then Ship else Water
      decreases |rest|
    {
      var p :| p in rest;
      var (x, y) := p;
      grid := grid[x := grid[x][y := Ship]];
      rest := rest - {p};
    }
  }

  // ---------------------------------------------------------------------
  // Ship placement
  // ---------------------------------------------------------------------

  lemma {:induction false} DrawnCellsInBounds(draws: seq<Draw>, n: nat)
    requires 0 < n
    ensures AllInBounds(DrawnCells(draws, n), n)
  {
    if draws != [] {
      DrawnCellsInBounds(draws[..|draws| - 1], n);
    }
  }

  /** `place_ships`, with its tail recursion written as a loop: while the
      set does not yet hold `numShips` positions, add one drawn position
      (a duplicate draw adds nothing). The result is the input set plus
      exactly the cells drawn, and no shorter run of draws would have
      stopped the loop. `None` means the draws ran out first. */
  method PlaceShips(gridSize: nat, numShips: nat, ships: set<Position>, draws: seq<Draw>, from: nat)
    returns (placed: Option<set<Position>>, next: nat)
    requires 0 < gridSize
    requires AllInBounds(ships, gridSize)
    requires from <= |draws|
    ensures from <= next <= |draws|
    ensures placed.Some? ==>
      |placed.value| == numShips && ships <= placed.value && AllInBounds(placed.value, gridSize) &&
      placed.value == ships + DrawnCells(draws[from..next], gridSize)
    ensures forall k :: from <= k < next ==> |ships + DrawnCells(draws[from..k], gridSize)| != numShips
    ensures placed.None? ==> next == |draws| && |ships + DrawnCells(draws[from..next], gridSize)| != numShips
  {
    var current := ships;
    next := from;
    while |current| != numShips && next < |draws|
      invariant from <= next <= |draws|
      invariant current == ships + DrawnCells(draws[from..next], gridSize)
      invariant forall k :: from <= k < next ==> |ships + DrawnCells(draws[from..k], gridSize)| != numShips
      decreases |draws| - next
    {
      DrawnCellsExtend(draws, from, next, gridSize);
      current := current + {CellOf(draws[next], gridSize)};
      next := next + 1;
    }
    DrawnCellsInBounds(draws[from..next], gridSize);
    if |current| == numShips {
      placed := Some(current);
    } else {
      placed := None;
    }
  }

  /** Row `x` of a board of side `n`. */
  function RowCells(x: nat, n: nat): (cells: set<Position>)
    ensures forall p :: p in cells <==> p.0 == x && p.1 < n
    ensures |cells| == n
  {
    if n == 0 then {} else RowCells(x, n - 1) + {(x, n - 1)}
  }

  /** The first `m` rows of a board of side `n`. */
  function BoardCells(m: nat, n: nat): (cells: set<Position>)
    ensures forall p :: p in cells <==> p.0 < m && p.1 < n
    ensures |cells| == m * n
  {
    if m == 0 then {}
    else
      var upper := BoardCells(m - 1, n);
      var row := RowCells(m - 1, n);
      assert upper * row == {};
      upper + row
  }

  /** While fewer than gridSize² positions are placed, a free in-bounds cell
      exists, so each pass of `place_ships` can make progress; this is why
      the ship count must not exceed gridSize². */
  lemma FreeCellExists(n: nat, ships: set<Position>)
    requires AllInBounds(ships, n)
    requires |ships| < n * n
    ensures exists p: Position :: InBounds(p, n) && p !in ships
  {
    var all := BoardCells(n, n);
    assert ships <= all;
    assert |all - ships| == |all| - |ships| > 0;
    var p :| p in all - ships;
    assert InBounds(p, n);
  }

  // ---------------------------------------------------------------------
  // Guess resolution
  // ---------------------------------------------------------------------

  /** A guess resolved against the ship set: a ship there is marked hit and
      removed from the set; otherwise the cell is marked a miss, whatever
      it showed before (a repeated guess on a hit cell turns it into a
      miss). No other cell changes, and the set only ever loses the guess. */
  function Resolve(grid: Grid, ships: set<Position>, guess: Position): (r: (Grid, set<Position>))
    requires guess.0 < |grid| && guess.1 < |grid[guess.0]|
    ensures r.1 == ships - {guess}
    ensures |r.0| == |grid| && forall i :: 0 <= i < |grid| ==> |r.0[i]| == |grid[i]|
    ensures r.0[guess.0][guess.1] == if guess in ships then Hit else Miss
    ensures forall i, j :: 0 <= i < |grid| && 0 <= j < |grid[i]| && (i, j) != guess ==>
      r.0[i][j] == grid[i][j]
  {
    var (x, y) := guess;
    if guess in ships then (grid[x := grid[x][y := Hit]], ships - {guess})
    else (grid[x := grid[x][y := Miss]], ships)
  }

  /** `process_guess`: updates its owned grid and ship set in place. */
  method ProcessGuess(grid: Grid, ships: set<Position>, guess: Position)
    returns (newGrid: Grid, newShips: set<Position>)
    requires guess.0 < |grid| && guess.1 < |grid[guess.0]|
    ensures (newGrid, newShips) == Resolve(grid, ships, guess)
  {
    newGrid, newShips := grid, ships;
    var (x, y) := guess;
    if guess in newShips {
      newGrid := newGrid[x := newGrid[x][y := Hit]];
      newShips := newShips - {guess};
    } else {
      newGrid := newGrid[x := newGrid[x][y := Miss]];
    }
  }

  /** Resolving a guess keeps "a cell shows a ship iff it is in the set". */
  lemma ResolveKeepsConsistent(grid: Grid, ships: set<Position>, guess: Position, n: nat)
    requires Consistent(grid, ships, n) && InBounds(guess, n)
    ensures Consistent(Resolve(grid, ships, guess).0, Resolve(grid, ships, guess).1, n)
  {
    var (g, s) := Resolve(grid, ships, guess);
    forall x: nat, y: nat | x < n && y < n
      ensures g[x][y] == Ship <==> (x, y) in s
    {
      if (x, y) != guess {
        assert g[x][y] == grid[x][y];
      }
    }
  }

  /** Resolving a guess never writes a ship glyph. */
  lemma ResolveKeepsConcealed(grid: Grid, ships: set<Position>, guess: Position, n: nat)
    requires Concealed(grid, n) && InBounds(guess, n)
    ensures Concealed(Resolve(grid, ships, guess).0, n)
  {
    var g := Resolve(grid, ships, guess).0;
    forall x, y | 0 <= x < n && 0 <= y < n
      ensures g[x][y] != Ship
    {
      if (x, y) != guess {
        assert g[x][y] == grid[x][y];
      }
    }
  }

  /** Guessing a ship's position twice: the first guess marks it hit, the
      second (which the readers do not reject) turns the hit into a miss. */
  lemma RepeatHitBecomesMiss(grid: Grid, ships: set<Position>, guess: Position)
    requires guess.0 < |grid| && guess.1 < |grid[guess.0]| && guess in ships
    ensures var (g1, s1) := Resolve(grid, ships, guess);
      g1[guess.0][guess.1] == Hit &&
      Resolve(g1, s1, guess).0[guess.0][guess.1] == Miss &&
      Resolve(g1, s1, guess).1 == ships - {guess}
  {
  }

  // ---------------------------------------------------------------------
  // The computer's guess
  // ---------------------------------------------------------------------

  /** `make_computer_guess`: draws cells until one is not among `guesses`
      and returns it; every draw it skipped was a repeat. */
  method MakeComputerGuess(gridSize: nat, guesses: set<Position>, draws: seq<Draw>, from: nat)
    returns (guess: Option<Position>, next: nat)
    requires 0 < gridSize
    requires from <= |draws|
    ensures from <= next <= |draws|
    ensures guess.Some? ==>
      from < next && guess.value == CellOf(draws[next - 1], gridSize) &&
      InBounds(guess.value, gridSize) && guess.value !in guesses
    ensures guess.None? ==> next == |draws|
    ensures var tried := if guess.Some? then next - 1 else next;
      forall k :: from <= k < tried ==> CellOf(draws[k], gridSize) in guesses
    ensures FreshGuesses(gridSize, guesses, draws[from..next]) == if guess.Some? then [guess.value] else []
  {
    next := from;
    while next < |draws|
      invariant from <= next <= |draws|
      invariant forall k :: from <= k < next ==> CellOf(draws[k], gridSize) in guesses
    {
      var candidate := CellOf(draws[next], gridSize);
      next := next + 1;
      if candidate !in guesses {
        FreshWindow(gridSize, guesses, draws, from, next, true);
        return Some(candidate), next;
      }
    }
    FreshWindow(gridSize, guesses, draws, from, next, false);
    guess := None;
  }

  // ---------------------------------------------------------------------
  // What a run of input lines and draws yields
  // ---------------------------------------------------------------------

  /** The positions named by the lines `get_coordinates` accepts among
      `lines`, in order. */
  function AcceptedGuesses(gridSize: nat, lines: seq<Line>): seq<Position>
  {
    if lines == [] then []
    else
      (if AcceptCoordinates(gridSize, lines[0]) then [(lines[0][0].value, lines[0][1].value)] else []) +
      AcceptedGuesses(gridSize, lines[1..])
  }

  lemma {:induction false} AcceptedGuessesAppend(gridSize: nat, a: seq<Line>, b: seq<Line>)
    ensures AcceptedGuesses(gridSize, a + b) == AcceptedGuesses(gridSize, a) + AcceptedGuesses(gridSize, b)
  {
    if a != [] {
      assert (a + b)[0] == a[0] && (a + b)[1..] == a[1..] + b;
      AcceptedGuessesAppend(gridSize, a[1..], b);
      var head := if AcceptCoordinates(gridSize, a[0]) then [(a[0][0].value, a[0][1].value)] else [];
      assert AcceptedGuesses(gridSize, a + b) == head + (AcceptedGuesses(gridSize, a[1..]) + AcceptedGuesses(gridSize, b));
      assert head + (AcceptedGuesses(gridSize, a[1..]) + AcceptedGuesses(gridSize, b)) ==
        (head + AcceptedGuesses(gridSize, a[1..])) + AcceptedGuesses(gridSize, b);
      assert AcceptedGuesses(gridSize, a) == head + AcceptedGuesses(gridSize, a[1..]);
    } else {
      assert a + b == b;
    }
  }

  lemma {:induction false} AcceptedGuessesNone(gridSize: nat, lines: seq<Line>)
    requires forall k :: 0 <= k < |lines| ==> !AcceptCoordinates(gridSize, lines[k])
    ensures AcceptedGuesses(gridSize, lines) == []
  {
    if lines != [] {
      AcceptedGuessesNone(gridSize, lines[1..]);
    }
  }

  /** `AcceptedGuesses` over consecutive stretches of the input. */
  lemma InputSplit(gridSize: nat, input: seq<Line>, from: nat, mid: nat, to: nat)
    requires from <= mid <= to <= |input|
    ensures AcceptedGuesses(gridSize, input[from..to]) ==
      AcceptedGuesses(gridSize, input[from..mid]) + AcceptedGuesses(gridSize, input[mid..to])
  {
    assert input[from..to] == input[from..mid] + input[mid..to];
    AcceptedGuessesAppend(gridSize, input[from..mid], input[mid..to]);
  }

  /** The stretch of input one `get_coordinates` call reads yields its
      accepted position, or nothing when the input ran out. */
  lemma AcceptedWindow(gridSize: nat, input: seq<Line>, from: nat, next: nat, found: bool)
    requires from <= next <= |input|
    requires found ==> from < next && AcceptCoordinates(gridSize, input[next - 1])
    requires forall k :: from <= k < (if found then next - 1 else next) ==> !AcceptCoordinates(gridSize, input[k])
    ensures AcceptedGuesses(gridSize, input[from..next]) ==
      if found then [(input[next - 1][0].value, input[next - 1][1].value)] else []
  {
    if found {
      var skipped := input[from..next - 1];
      assert forall k :: 0 <= k < |skipped| ==> !AcceptCoordinates(gridSize, skipped[k]);
      AcceptedGuessesNone(gridSize, skipped);
      assert input[from..next] == skipped + [input[next - 1]];
      AcceptedGuessesAppend(gridSize, skipped, [input[next - 1]]);
      assert [input[next - 1]][1..] == [];
    } else {
      assert forall k :: 0 <= k < |input[from..next]| ==> !AcceptCoordinates(gridSize, input[from..next][k]);
      AcceptedGuessesNone(gridSize, input[from..next]);
    }
  }

  function Elems(s: seq<Position>): set<Position>
  {
    set p | p in s
  }

  /** The guesses `make_computer_guess` takes from a run of draws, starting
      from the guesses in `guesses`: a draw is taken when its cell is not
      yet guessed, and its cell is then guessed. */
  function FreshGuesses(n: nat, guesses: set<Position>, draws: seq<Draw>): seq<Position>
    requires 0 < n
    decreases |draws|
  {
    if draws == [] then []
    else
      var cell := CellOf(draws[0], n);
      if cell in guesses then FreshGuesses(n, guesses, draws[1..])
      else [cell] + FreshGuesses(n, guesses + {cell}, draws[1..])
  }

  lemma {:induction false} FreshGuessesAppend(n: nat, guesses: set<Position>, a: seq<Draw>, b: seq<Draw>)
    requires 0 < n
    ensures FreshGuesses(n, guesses, a + b) ==
      FreshGuesses(n, guesses, a) + FreshGuesses(n, guesses + Elems(FreshGuesses(n, guesses, a)), b)
    decreases |a|
  {
    if a != [] {
      assert (a + b)[0] == a[0] && (a + b)[1..] == a[1..] + b;
      var cell := CellOf(a[0], n);
      if cell in guesses {
        FreshGuessesAppend(n, guesses, a[1..], b);
      } else {
        var more := guesses + {cell};
        FreshGuessesAppend(n, more, a[1..], b);
        var rest := FreshGuesses(n, more, a[1..]);
        assert Elems([cell] + rest) == {cell} + Elems(rest);
        assert more + Elems(rest) == guesses + Elems([cell] + rest);
        assert FreshGuesses(n, guesses, a + b) == [cell] + (rest + FreshGuesses(n, more + Elems(rest), b));
        assert [cell] + (rest + FreshGuesses(n, more + Elems(rest), b)) ==
          ([cell] + rest) + FreshGuesses(n, more + Elems(rest), b);
      }
    } else {
      assert a + b == b;
      assert guesses + Elems(FreshGuesses(n, guesses, a)) == guesses;
    }
  }

  lemma {:induction false} FreshGuessesNone(n: nat, guesses: set<Position>, draws: seq<Draw>)
    requires 0 < n
    requires forall k :: 0 <= k < |draws| ==> CellOf(draws[k], n) in guesses
    ensures FreshGuesses(n, guesses, draws) == []
  {
    if draws != [] {
      FreshGuessesNone(n, guesses, draws[1..]);
    }
  }

  /** `FreshGuesses` over consecutive stretches of the draws. */
  lemma DrawSplit(n: nat, guesses: set<Position>, draws: seq<Draw>, from: nat, mid: nat, to: nat)
    requires 0 < n && from <= mid <= to <= |draws|
    ensures FreshGuesses(n, guesses, draws[from..to]) ==
      FreshGuesses(n, guesses, draws[from..mid]) +
      FreshGuesses(n, guesses + Elems(FreshGuesses(n, guesses, draws[from..mid])), draws[mid..to])
  {
    assert draws[from..to] == draws[from..mid] + draws[mid..to];
    FreshGuessesAppend(n, guesses, draws[from..mid], draws[mid..to]);
  }

  /** The draws one `make_computer_guess` call reads yield its guess, or
      nothing when the draws ran out. */
  lemma FreshWindow(n: nat, guesses: set<Position>, draws: seq<Draw>, from: nat, next: nat, found: bool)
    requires 0 < n && from <= next <= |draws|
    requires found ==> from < next && CellOf(draws[next - 1], n) !in guesses
    requires forall k :: from <= k < (if found then next - 1 else next) ==> CellOf(draws[k], n) in guesses
    ensures FreshGuesses(n, guesses, draws[from..next]) == if found then [CellOf(draws[next - 1], n)] else []
  {
    if found {
      var skipped := draws[from..next - 1];
      assert forall k :: 0 <= k < |skipped| ==> CellOf(skipped[k], n) in guesses;
      FreshGuessesNone(n, guesses, skipped);
      assert draws[from..next] == skipped + [draws[next - 1]];
      FreshGuessesAppend(n, guesses, skipped, [draws[next - 1]]);
      assert guesses + Elems([]) == guesses;
      assert [draws[next - 1]][1..] == [];
    } else {
      assert forall k :: 0 <= k < |draws[from..next]| ==> CellOf(draws[from..next][k], n) in guesses;
      FreshGuessesNone(n, guesses, draws[from..next]);
    }
  }

  // ---------------------------------------------------------------------
  // The game
  // ---------------------------------------------------------------------

  datatype Winner = Human | Computer

  /** The arguments `game_loop` passes to itself. */
  datatype Game = Game(
    playerGrid: Grid,
    computerGrid: Grid,
    playerShips: set<Position>,
    computerShips: set<Position>,
    computerGuesses: set<Position>)

  datatype Ending = Won(winner: Winner) | InputExhausted | DrawsExhausted

  predicate Shaped(game: Game, n: nat)
  {
    IsSquare(game.playerGrid, n) && IsSquare(game.computerGrid, n)
  }

  /** What holds of the game between rounds: the player's board agrees with
      its ship set; the computer's board shows no ships; every computer
      guess is in bounds and none is still an un-hit player ship. */
  predicate Valid(game: Game, n: nat)
  {
    Consistent(game.playerGrid, game.playerShips, n) &&
    Concealed(game.computerGrid, n) && AllInBounds(game.computerShips, n) &&
    AllInBounds(game.computerGuesses, n) && game.computerGuesses !! game.playerShips
  }

  /** The check at the top of `game_loop`: the computer's ships are tested
      first, so a game in which both sets are empty is a human win. */
  function WinnerOf(game: Game): (w: Option<Winner>)
    ensures w == Some(Human) <==> game.computerShips == {}
    ensures w == Some(Computer) <==> game.playerShips == {} && game.computerShips != {}
    ensures w == None <==> game.playerShips != {} && game.computerShips != {}
  {
    if game.computerShips == {} then Some(Human)
    else if game.playerShips == {} then Some(Computer)
    else None
  }

  /** One round of `game_loop`: the human's guess on the computer's board,
      then, unconditionally, the computer's guess on the player's board,
      which is added to the computer's guesses. */
  function Round(game: Game, n: nat, human: Position, computer: Position): (r: Game)
    requires Shaped(game, n) && InBounds(human, n) && InBounds(computer, n)
    ensures Shaped(r, n)
    ensures r.computerShips == game.computerShips - {human}
    ensures r.playerShips == game.playerShips - {computer}
    ensures r.computerGuesses == game.computerGuesses + {computer}
  {
    var (computerGrid, computerShips) := Resolve(game.computerGrid, game.computerShips, human);
    var (playerGrid, playerShips) := Resolve(game.playerGrid, game.playerShips, computer);
    Game(playerGrid, computerGrid, playerShips, computerShips, game.computerGuesses + {computer})
  }

  predicate RoundsInBounds(rounds: seq<(Position, Position)>, n: nat)
  {
    forall k :: 0 <= k < |rounds| ==> InBounds(rounds[k].0, n) && InBounds(rounds[k].1, n)
  }

  /** The game after a sequence of (human guess, computer guess) rounds. */
  function PlayRounds(game: Game, n: nat, rounds: seq<(Position, Position)>): (r: Game)
    requires Shaped(game, n) && RoundsInBounds(rounds, n)
    ensures Shaped(r, n)
    decreases |rounds|
  {
    if rounds == [] then game
    else
      var last := rounds[|rounds| - 1];
      Round(PlayRounds(game, n, rounds[..|rounds| - 1]), n, last.0, last.1)
  }

  /** No proper prefix of `rounds` leads to a decided game. */
  predicate Undecided(game: Game, n: nat, rounds: seq<(Position, Position)>)
    requires Shaped(game, n) && RoundsInBounds(rounds, n)
  {
    forall k :: 0 <= k < |rounds| ==> WinnerOf(PlayRounds(game, n, rounds[..k])) == None
  }

  /** Playing one more round after `rounds` from an undecided position. */
  lemma PlayRoundsExtend(game: Game, n: nat, rounds: seq<(Position, Position)>, round: (Position, Position))
    requires Shaped(game, n) && RoundsInBounds(rounds, n) && InBounds(round.0, n) && InBounds(round.1, n)
    ensures RoundsInBounds(rounds + [round], n)
    ensures PlayRounds(game, n, rounds + [round]) == Round(PlayRounds(game, n, rounds), n, round.0, round.1)
    ensures Undecided(game, n, rounds) && WinnerOf(PlayRounds(game, n, rounds)) == None ==>
      Undecided(game, n, rounds + [round])
  {
    var played := rounds + [round];
    assert played[..|rounds|] == rounds;
    if Undecided(game, n, rounds) && WinnerOf(PlayRounds(game, n, rounds)) == None {
      forall k | 0 <= k < |played|
        ensures WinnerOf(PlayRounds(game, n, played[..k])) == None
      {
        if k < |rounds| {
          assert played[..k] == rounds[..k];
        }
      }
    }
  }

  /** A round keeps the game's invariant as long as the computer's guess is
      new, which `make_computer_guess` ensures. */
  lemma RoundKeepsValid(game: Game, n: nat, human: Position, computer: Position)
    requires Valid(game, n) && InBounds(human, n) && InBounds(computer, n)
    requires computer !in game.computerGuesses
    ensures Valid(Round(game, n, human, computer), n)
  {
    ResolveKeepsConsistent(game.playerGrid, game.playerShips, computer, n);
    ResolveKeepsConcealed(game.computerGrid, game.computerShips, human, n);
  }

  /** Ship sets never grow and the computer's guesses never shrink over any
      number of rounds; in particular a side once defeated stays defeated. */
  lemma {:induction false} ShipsNeverGrow(game: Game, n: nat, rounds: seq<(Position, Position)>)
    requires Shaped(game, n) && RoundsInBounds(rounds, n)
    ensures PlayRounds(game, n, rounds).playerShips <= game.playerShips
    ensures PlayRounds(game, n, rounds).computerShips <= game.computerShips
    ensures game.computerGuesses <= PlayRounds(game, n, rounds).computerGuesses
  {
    if rounds != [] {
      ShipsNeverGrow(game, n, rounds[..|rounds| - 1]);
    }
  }

  /** Between rounds of an undecided game an unguessed cell always exists,
      and some draw selects it, so `make_computer_guess` can succeed. */
  lemma UnguessedCellExists(game: Game, n: nat)
    requires Valid(game, n) && game.playerShips != {}
    ensures 0 < n
    ensures exists d: Draw :: CellOf(d, n) !in game.computerGuesses
  {
    var p :| p in game.playerShips;
    assert CellOf(Draw(p.0, p.1), n) == p;
  }

  /** The human sinking the computer's last ship does not end the round: the
      computer still guesses, its guess is recorded and resolved; the win is
      announced at the next check. */
  lemma ComputerRepliesAfterLastSinking(game: Game, n: nat, human: Position, computer: Position)
    requires Shaped(game, n) && InBounds(human, n) && InBounds(computer, n)
    requires game.computerShips == {human}
    ensures var r := Round(game, n, human, computer);
      r.computerShips == {} && computer in r.computerGuesses &&
      r.playerGrid[computer.0][computer.1] == (if computer in game.playerShips then Hit else Miss) &&
      WinnerOf(r) == Some(Human)
  {
  }

  /** A round in which both players sink the other's last ship is a human
      win, because the computer's ship set is tested first. */
  lemma DoubleWipeOutIsHumanWin(game: Game, n: nat, human: Position, computer: Position)
    requires Shaped(game, n) && InBounds(human, n) && InBounds(computer, n)
    requires game.computerShips == {human} && game.playerShips == {computer}
    ensures Round(game, n, human, computer).playerShips == {}
    ensures WinnerOf(Round(game, n, human, computer)) == Some(Human)
  {
  }

  /** The computer answered `human` with `computer`, the cell of the last
      draw read, which it had not guessed before; `next` is the round
      played and keeps the invariant. */
  predicate Replied(n: nat, game: Game, human: Position, draws: seq<Draw>, drawFrom: nat,
                    computer: Position, next: Game, afterDraws: nat)
  {
    0 < n && Shaped(game, n) && InBounds(human, n) &&
    drawFrom < afterDraws <= |draws| && computer == CellOf(draws[afterDraws - 1], n) &&
    computer !in game.computerGuesses &&
    next == Round(game, n, human, computer) && Valid(next, n) &&
    |next.computerGuesses| == |game.computerGuesses| + 1
  }

  /** The computer's half of a pass of `game_loop`, after the human's
      guess has been resolved into `computerGrid` and `computerShips`: a
      fresh cell is drawn and resolved against the player's board. */
  method ComputerReplies(gridSize: nat, game: Game, human: Position,
                         computerGrid: Grid, computerShips: set<Position>, draws: seq<Draw>, drawFrom: nat)
    returns (computer: Option<Position>, next: Game, afterDraws: nat)
    requires 0 < gridSize && Valid(game, gridSize) && Shaped(game, gridSize) && InBounds(human, gridSize)
    requires (computerGrid, computerShips) == Resolve(game.computerGrid, game.computerShips, human)
    requires drawFrom <= |draws|
    ensures drawFrom <= afterDraws <= |draws|
    ensures computer.Some? ==> Replied(gridSize, game, human, draws, drawFrom, computer.value, next, afterDraws)
    ensures var tried := if computer.Some? then afterDraws - 1 else afterDraws;
      forall k :: drawFrom <= k < tried ==> CellOf(draws[k], gridSize) in game.computerGuesses
    ensures computer.None? ==> afterDraws == |draws|
    ensures FreshGuesses(gridSize, game.computerGuesses, draws[drawFrom..afterDraws]) ==
      if computer.Some? then [computer.value] else []
  {
    next := game;
    computer, afterDraws := MakeComputerGuess(gridSize, game.computerGuesses, draws, drawFrom);
    if computer.Some? {
      var playerGrid, playerShips := ProcessGuess(game.playerGrid, game.playerShips, computer.value);
      next := Game(playerGrid, computerGrid, playerShips, computerShips, game.computerGuesses + {computer.value});
      RoundKeepsValid(game, gridSize, human, computer.value);
    }
  }

  /** The turns of one pass of `game_loop`: the human's guess is read and
      resolved against the computer's board, then the computer's guess is
      drawn and resolved against the player's board. The human's guess is
      the next accepted line, the computer's the next draw of a cell not
      yet guessed; when either is missing, its source ran out. */
  method PlayTurns(gridSize: nat, game: Game, input: seq<Line>, from: nat, draws: seq<Draw>, drawFrom: nat)
    returns (human: Option<Position>, computer: Option<Position>, next: Game, afterInput: nat, afterDraws: nat)
    requires 0 < gridSize && Valid(game, gridSize)
    requires from <= |input| && drawFrom <= |draws|
    ensures from <= afterInput <= |input| && drawFrom <= afterDraws <= |draws|
    ensures human.Some? ==>
      from < afterInput && AcceptCoordinates(gridSize, input[afterInput - 1]) &&
      human.value == (input[afterInput - 1][0].value, input[afterInput - 1][1].value) &&
      InBounds(human.value, gridSize)
    ensures var tried := if human.Some? then afterInput - 1 else afterInput;
      forall k :: from <= k < tried ==> !AcceptCoordinates(gridSize, input[k])
    ensures human.None? ==> afterInput == |input| && computer.None? && afterDraws == drawFrom
    ensures AcceptedGuesses(gridSize, input[from..afterInput]) == if human.Some? then [human.value] else []
    ensures computer.Some? ==>
      human.Some? && Replied(gridSize, game, human.value, draws, drawFrom, computer.value, next, afterDraws)
    ensures var tried := if computer.Some? then afterDraws - 1 else afterDraws;
      forall k :: drawFrom <= k < tried ==> CellOf(draws[k], gridSize) in game.computerGuesses
    ensures human.Some? && computer.None? ==> afterDraws == |draws|
    ensures FreshGuesses(gridSize, game.computerGuesses, draws[drawFrom..afterDraws]) ==
      if computer.Some? then [computer.value] else []
  {
    next := game;
    computer := None;
    human, afterInput := GetCoordinates(gridSize, input, from);
    afterDraws := drawFrom;
    assert draws[drawFrom..afterDraws] == [];
    assert FreshGuesses(gridSize, game.computerGuesses, draws[drawFrom..afterDraws]) == [];
    if human.Some? {
      var computerGrid, computerShips := ProcessGuess(game.computerGrid, game.computerShips, human.value);
      computer, next, afterDraws :=
        ComputerReplies(gridSize, game, human.value, computerGrid, computerShips, draws, drawFrom);
    }
  }

  /** The human's guesses of a record of rounds, in order. */
  function Humans(rounds: seq<(Position, Position)>): seq<Position>
  {
    seq(|rounds|, k requires 0 <= k < |rounds| => rounds[k].0)
  }

  /** The computer's guesses of a record of rounds, in order. */
  function Computers(rounds: seq<(Position, Position)>): seq<Position>
  {
    seq(|rounds|, k requires 0 <= k < |rounds| => rounds[k].1)
  }

  lemma RecordRound(rounds: seq<(Position, Position)>, round: (Position, Position))
    ensures Humans(rounds + [round]) == Humans(rounds) + [round.0]
    ensures Computers(rounds + [round]) == Computers(rounds) + [round.1]
    ensures Elems(Computers(rounds + [round])) == Elems(Computers(rounds)) + {round.1}
  {
    assert Computers(rounds + [round]) == Computers(rounds) + [round.1];
  }

  /** What holds after `game_loop` has read `draws[drawFrom..drawCursor]`
      and played `rounds` from `start`: the game is those rounds replayed
      and keeps its invariant, no earlier prefix of them was decided, and
      the computer's guesses are the fresh cells of the draws read. */
  ghost predicate Progress(n: nat, start: Game, draws: seq<Draw>, drawFrom: nat, drawCursor: nat,
                           game: Game, rounds: seq<(Position, Position)>)
  {
    0 < n && Shaped(start, n) && drawFrom <= drawCursor <= |draws| &&
    Valid(game, n) && RoundsInBounds(rounds, n) && game == PlayRounds(start, n, rounds) &&
    Undecided(start, n, rounds) &&
    |game.computerGuesses| == |start.computerGuesses| + |rounds| &&
    FreshGuesses(n, start.computerGuesses, draws[drawFrom..drawCursor]) == Computers(rounds) &&
    game.computerGuesses == start.computerGuesses + Elems(Computers(rounds))
  }

  /** A round played from an undecided position, with the human's guess
      the one accepted line and the computer's the one fresh draw read
      since, extends the progress and the human's guesses by that round. */
  lemma ProgressStep(n: nat, start: Game, input: seq<Line>, from: nat, cursor: nat,
                     draws: seq<Draw>, drawFrom: nat, drawCursor: nat,
                     game: Game, rounds: seq<(Position, Position)>,
                     human: Position, computer: Position, next: Game, afterInput: nat, afterDraws: nat)
    requires Progress(n, start, draws, drawFrom, drawCursor, game, rounds)
    requires from <= cursor <= afterInput <= |input| && drawCursor <= afterDraws <= |draws|
    requires AcceptedGuesses(n, input[from..cursor]) == Humans(rounds)
    requires WinnerOf(game) == None
    requires InBounds(human, n) && InBounds(computer, n) && computer !in game.computerGuesses
    requires next == Round(game, n, human, computer) && Valid(next, n)
    requires |next.computerGuesses| == |game.computerGuesses| + 1
    requires AcceptedGuesses(n, input[cursor..afterInput]) == [human]
    requires FreshGuesses(n, game.computerGuesses, draws[drawCursor..afterDraws]) == [computer]
    ensures Progress(n, start, draws, drawFrom, afterDraws, next, rounds + [(human, computer)])
    ensures AcceptedGuesses(n, input[from..afterInput]) == Humans(rounds + [(human, computer)])
  {
    var round := (human, computer);
    InputSplit(n, input, from, cursor, afterInput);
    DrawSplit(n, start.computerGuesses, draws, drawFrom, drawCursor, afterDraws);
    PlayRoundsExtend(start, n, rounds, round);
    RecordRound(rounds, round);
  }

  /** `game_loop`, with its tail recursion written as a loop. Each pass
      tests the computer's ships, then the player's, then plays a round.
      `rounds` records the guesses of every completed round: the result is
      those rounds played from `start` (see `Progress`), and the game ends
      in a win exactly when the final state has a winner. The human's
      guesses are the lines accepted from the input read; a pass cut short
      by the draws running out has read one accepted line more. */
  method GameLoop(gridSize: nat, start: Game, input: seq<Line>, from: nat, draws: seq<Draw>, drawFrom: nat)
    returns (ending: Ending, final: Game, cursor: nat, drawCursor: nat, ghost rounds: seq<(Position, Position)>)
    requires 0 < gridSize && Valid(start, gridSize)
    requires from <= |input| && drawFrom <= |draws|
    ensures from <= cursor <= |input|
    ensures Progress(gridSize, start, draws, drawFrom, drawCursor, final, rounds)
    ensures ending.Won? <==> WinnerOf(final).Some?
    ensures ending.Won? ==> WinnerOf(final) == Some(ending.winner)
    ensures ending == InputExhausted ==> cursor == |input|
    ensures ending == DrawsExhausted ==> drawCursor == |draws|
    ensures ending != DrawsExhausted ==> AcceptedGuesses(gridSize, input[from..cursor]) == Humans(rounds)
    ensures ending == DrawsExhausted ==>
      |AcceptedGuesses(gridSize, input[from..cursor])| == |rounds| + 1 &&
      AcceptedGuesses(gridSize, input[from..cursor])[..|rounds|] == Humans(rounds)
  {
    var game := start;
    cursor, drawCursor := from, drawFrom;
    rounds := [];
    assert draws[drawFrom..drawCursor] == [] && input[from..cursor] == [];
    assert start.computerGuesses + Elems([]) == start.computerGuesses;
    while true
      invariant from <= cursor <= |input|
      invariant Progress(gridSize, start, draws, drawFrom, drawCursor, game, rounds)
      invariant AcceptedGuesses(gridSize, input[from..cursor]) == Humans(rounds)
      decreases |input| - cursor
    {
      if game.computerShips == {} {
        return Won(Human), game, cursor, drawCursor, rounds;
      }
      if game.playerShips == {} {
        return Won(Computer), game, cursor, drawCursor, rounds;
      }
      var human, computer, next, afterInput, afterDraws := PlayTurns(gridSize, game, input, cursor, draws, drawCursor);
      InputSplit(gridSize, input, from, cursor, afterInput);
      if human.None? {
        return InputExhausted, game, afterInput, drawCursor, rounds;
      }
      if computer.None? {
        DrawSplit(gridSize, start.computerGuesses, draws, drawFrom, drawCursor, afterDraws);
        return DrawsExhausted, game, afterInput, afterDraws, rounds;
      }
      ProgressStep(gridSize, start, input, from, cursor, draws, drawFrom, drawCursor, game, rounds,
                   human.value, computer.value, next, afterInput, afterDraws);
      game, rounds := next, rounds + [(human.value, computer.value)];
      cursor, drawCursor := afterInput, afterDraws;
    }
  }

  /** What `main` has set up when `game_loop` starts: the lines that gave
      the size and the ship count, the draws that placed each fleet, and
      the opening game. */
  datatype Start = Start(
    sizeLine: nat, countLine: nat, split: nat, placedTo: nat,
    gridSize: nat, numShips: nat, game: Game)

  /** The size is the first line `get_grid_size` accepts, at
      `sizeLine - 1`, and the count the next line `get_num_ships` accepts,
      at `countLine - 1`. */
  predicate SettingsFrom(input: seq<Line>, sizeLine: nat, countLine: nat, gridSize: nat, numShips: nat)
  {
    0 < sizeLine < countLine <= |input| &&
    AcceptGridSize(input[sizeLine - 1]) && gridSize == ParseLine(input[sizeLine - 1]).value &&
    (forall k :: 0 <= k < sizeLine - 1 ==> !AcceptGridSize(input[k])) &&
    AcceptNumShips(gridSize, input[countLine - 1]) && numShips == ParseLine(input[countLine - 1]).value &&
    (forall k :: sizeLine <= k < countLine - 1 ==> !AcceptNumShips(gridSize, input[k]))
  }

  /** The player's fleet is the cells of `draws[..split]`, the fewest
      first draws that give `numShips` cells, and the computer's fleet the
      cells of `draws[split..placedTo]`, the fewest next draws that do; the
      player's board shows its fleet and the computer's board is water. */
  predicate FleetsFrom(draws: seq<Draw>, n: nat, numShips: nat, split: nat, placedTo: nat, game: Game)
  {
    0 < n &&
    FewestDraws(draws, n, numShips, 0, split) && game.playerShips == DrawnCells(draws[0..split], n) &&
    FewestDraws(draws, n, numShips, split, placedTo) && game.computerShips == DrawnCells(draws[split..placedTo], n) &&
    Opening(game, n)
  }

  /** The opening boards: the player's shows its fleet, the computer's is
      water, and nothing has been guessed. */
  predicate Opening(game: Game, n: nat)
  {
    IsSquare(game.playerGrid, n) &&
    (forall x: nat, y: nat :: x < n && y < n ==>
      game.playerGrid[x][y] == if (x, y) in game.playerShips then Ship else Water) &&
    game.computerGrid == InitializeGrid(n) && game.computerGuesses == {}
  }

  /** The two boards `main` builds from the fleets. */
  method OpeningGame(gridSize: nat, playerShips: set<Position>, computerShips: set<Position>)
    returns (game: Game)
    requires 0 < gridSize && AllInBounds(playerShips, gridSize) && AllInBounds(computerShips, gridSize)
    ensures game.playerShips == playerShips && game.computerShips == computerShips
    ensures Opening(game, gridSize) && Valid(game, gridSize)
  {
    var playerGrid := InitializeGridWithShips(gridSize, playerShips);
    game := Game(playerGrid, InitializeGrid(gridSize), playerShips, computerShips, {});
    assert Concealed(game.computerGrid, gridSize);
  }

  /** `start` is what `main` builds from `input` and `draws`. */
  predicate StartedFrom(input: seq<Line>, draws: seq<Draw>, start: Start)
  {
    0 < start.gridSize &&
    SettingsFrom(input, start.sizeLine, start.countLine, start.gridSize, start.numShips) &&
    FleetsFrom(draws, start.gridSize, start.numShips, start.split, start.placedTo, start.game)
  }

  /** `main` cannot read both settings from `input`: the first line
      `get_grid_size` accepts, if there is one, is followed by no line
      `get_num_ships` accepts. */
  predicate NoSettings(input: seq<Line>)
  {
    forall s :: 0 <= s < |input| && AcceptGridSize(input[s]) && (forall k :: 0 <= k < s ==> !AcceptGridSize(input[k])) ==>
      forall k :: s < k < |input| ==> !AcceptNumShips(ParseLine(input[s]).value, input[k])
  }

  /** The settings `main` reads are determined by the input. */
  lemma SettingsUnique(input: seq<Line>, sizeLine: nat, countLine: nat, gridSize: nat, numShips: nat,
                       sizeLine': nat, countLine': nat, gridSize': nat, numShips': nat)
    requires SettingsFrom(input, sizeLine, countLine, gridSize, numShips)
    requires SettingsFrom(input, sizeLine', countLine', gridSize', numShips')
    ensures sizeLine == sizeLine' && countLine == countLine' && gridSize == gridSize' && numShips == numShips'
  {
    assert AcceptGridSize(input[sizeLine - 1]) && AcceptGridSize(input[sizeLine' - 1]);
    assert sizeLine == sizeLine';
    assert AcceptNumShips(gridSize, input[countLine - 1]) && AcceptNumShips(gridSize, input[countLine' - 1]);
  }

  /** The reading part of `main`: the grid size, then the ship count. */
  method ReadSettings(input: seq<Line>)
    returns (ok: bool, gridSize: nat, numShips: nat, sizeLine: nat, cursor: nat)
    ensures cursor <= |input|
    ensures ok ==>
      SettingsFrom(input, sizeLine, cursor, gridSize, numShips) &&
      1 <= gridSize <= MaxGridSize && 1 <= numShips <= gridSize * gridSize
    ensures !ok ==> cursor == |input| && NoSettings(input)
  {
    ok, gridSize, numShips, sizeLine := false, 0, 0, 0;
    var size;
    size, cursor := GetGridSize(input, 0);
    if size.Some? {
      sizeLine := cursor;
      var count;
      count, cursor := GetNumShips(size.value, input, cursor);
      if count.Some? {
        ok, gridSize, numShips := true, size.value, count.value;
      } else {
        forall s | 0 <= s < |input| && AcceptGridSize(input[s]) && (forall k :: 0 <= k < s ==> !AcceptGridSize(input[k]))
          ensures forall k :: s < k < |input| ==> !AcceptNumShips(ParseLine(input[s]).value, input[k])
        {
          assert AcceptGridSize(input[sizeLine - 1]);
        }
      }
    }
  }

  /** `place_ships` called by `main` on a new, empty set: the fleet is
      the cells of the fewest draws from `from` on that give `numShips`
      cells, or no run of the remaining draws gives that many. */
  method PlaceFleet(gridSize: nat, numShips: nat, draws: seq<Draw>, from: nat)
    returns (fleet: Option<set<Position>>, next: nat)
    requires 0 < gridSize && from <= |draws|
    ensures from <= next <= |draws|
    ensures fleet.Some? ==>
      FewestDraws(draws, gridSize, numShips, from, next) && fleet.value == DrawnCells(draws[from..next], gridSize) &&
      AllInBounds(fleet.value, gridSize)
    ensures fleet.None? ==> next == |draws| && NeverDrawn(draws, gridSize, numShips, from)
  {
    fleet, next := PlaceShips(gridSize, numShips, {}, draws, from);
    assert forall k :: from <= k <= next ==>
      {} + DrawnCells(draws[from..k], gridSize) == DrawnCells(draws[from..k], gridSize);
  }

  /** The placing part of `main`: the player's ships, then the computer's,
      then the two boards. */
  method PlaceFleets(gridSize: nat, numShips: nat, draws: seq<Draw>)
    returns (game: Option<Game>, split: nat, drawCursor: nat)
    requires 0 < gridSize
    ensures drawCursor <= |draws|
    ensures game.Some? ==>
      FleetsFrom(draws, gridSize, numShips, split, drawCursor, game.value) && Valid(game.value, gridSize)
    ensures game.None? ==> drawCursor == |draws| && NoFleets(draws, gridSize, numShips)
  {
    game := None;
    var playerShips;
    playerShips, split := PlaceFleet(gridSize, numShips, draws, 0);
    drawCursor := split;
    if playerShips.Some? {
      var computerShips;
      computerShips, drawCursor := PlaceFleet(gridSize, numShips, draws, split);
      if computerShips.Some? {
        var opening := OpeningGame(gridSize, playerShips.value, computerShips.value);
        game := Some(opening);
      } else {
        NoFleetsFrom(draws, gridSize, numShips, split, true);
      }
    } else {
      NoFleetsFrom(draws, gridSize, numShips, split, false);
    }
  }

  /** `main` reads both settings, and the draws cannot place the two
      fleets they ask for. */
  ghost predicate SettingsThenNoFleets(input: seq<Line>, draws: seq<Draw>)
  {
    exists sizeLine, countLine, gridSize, numShips ::
      SettingsFrom(input, sizeLine, countLine, gridSize, numShips) && 0 < gridSize &&
      NoFleets(draws, gridSize, numShips)
  }

  /** Everything `main` does before `game_loop`. `None` when the input or
      the draws ran out first. */
  method SetUp(input: seq<Line>, draws: seq<Draw>)
    returns (start: Option<Start>, ending: Ending, cursor: nat, drawCursor: nat)
    ensures cursor <= |input| && drawCursor <= |draws|
    ensures start.None? ==>
      (ending == InputExhausted && cursor == |input| && NoSettings(input)) ||
      (ending == DrawsExhausted && drawCursor == |draws| && SettingsThenNoFleets(input, draws))
    ensures start.Some? ==>
      StartedFrom(input, draws, start.value) &&
      cursor == start.value.countLine && drawCursor == start.value.placedTo &&
      1 <= start.value.gridSize <= MaxGridSize &&
      1 <= start.value.numShips <= start.value.gridSize * start.value.gridSize &&
      Valid(start.value.game, start.value.gridSize)
  {
    start, ending, drawCursor := None, InputExhausted, 0;
    var ok, gridSize, numShips, sizeLine;
    ok, gridSize, numShips, sizeLine, cursor := ReadSettings(input);
    if ok {
      var game, split;
      game, split, drawCursor := PlaceFleets(gridSize, numShips, draws);
      ending := DrawsExhausted;
      if game.Some? {
        start := Some(Start(sizeLine, cursor, split, drawCursor, gridSize, numShips, game.value));
      } else {
        assert SettingsFrom(input, sizeLine, cursor, gridSize, numShips);
      }
    }
  }

  /** `main`: sets the game up and runs `game_loop` on it. */
  method RunGame(input: seq<Line>, draws: seq<Draw>)
    returns (ending: Ending, start: Option<Start>, final: Game, cursor: nat, drawCursor: nat,
             ghost rounds: seq<(Position, Position)>)
    ensures cursor <= |input| && drawCursor <= |draws|
    ensures ending == InputExhausted ==> cursor == |input|
    ensures ending == DrawsExhausted ==> drawCursor == |draws|
    ensures ending.Won? ==> start.Some?
    ensures start.None? ==>
      (ending == InputExhausted && NoSettings(input)) ||
      (ending == DrawsExhausted && SettingsThenNoFleets(input, draws))
    ensures start.Some? ==>
      var st := start.value;
      StartedFrom(input, draws, st) && st.countLine <= cursor &&
      1 <= st.gridSize <= MaxGridSize && 1 <= st.numShips <= st.gridSize * st.gridSize &&
      Progress(st.gridSize, st.game, draws, st.placedTo, drawCursor, final, rounds) &&
      (ending.Won? <==> WinnerOf(final).Some?) &&
      (ending.Won? ==> WinnerOf(final) == Some(ending.winner)) &&
      (ending != DrawsExhausted ==> AcceptedGuesses(st.gridSize, input[st.countLine..cursor]) == Humans(rounds)) &&
      (ending == DrawsExhausted ==>
        |AcceptedGuesses(st.gridSize, input[st.countLine..cursor])| == |rounds| + 1 &&
        AcceptedGuesses(st.gridSize, input[st.countLine..cursor])[..|rounds|] == Humans(rounds))
  {
    final, rounds := Game([], [], {}, {}, {}), [];
    start, ending, cursor, drawCursor := SetUp(input, draws);
    if start.Some? {
      var st := start.value;
      ending, final, cursor, drawCursor, rounds := GameLoop(st.gridSize, st.game, input, cursor, draws, drawCursor);
    }
  }
}
