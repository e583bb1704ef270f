# Battleships, modelled in Dafny

Both versions of the Battleships engine are modelled here: the Rust one in
`RUST_battleships.rs` and the C one in `C_battleships.c`. Both play on a
square board of glyphs: `~` water, `S` an un-hit ship, `X` a hit, `O` a
miss. Board size is 1 to 10 and every ship takes one cell. The computer
places ships and guesses by random draws. The human guesses through the
console. The program announces a winner when one side has no ships left.

The project has four files:

- `prelude.dfy` (module `Prelude`): an `Option` type, and the random
  source. The random source is a finite sequence of `Draw`s, one raw pair
  per row-and-column draw. `CellOf` reduces a draw modulo the board side.
- `glyph.dfy` (module `Glyph`): the four glyphs, and the display rule both
  programs share. An un-hit ship is shown as water unless the board's
  ships are revealed.
- `rust_battleships.dfy` (module `RustBattleships`): the Rust version, on
  values.
  - A board is a `seq<seq<char>>` with a `set` of un-hit ship positions.
  - `process_guess` works on owned values, so it is a method tied to the
    function `Resolve`.
  - The tail recursions of `place_ships` and `game_loop` are loops.
    `game_loop`'s loop keeps a ghost record of the rounds played.
    `PlayRounds` replays that record as a fold over `Round`.
  - The readers `get_grid_size`, `get_num_ships` and `get_coordinates` are
    loops over already-tokenised lines.
- `c_battleships.dfy` (module `CBattleships`): the C version.
  - Each board is a 10×10 `array2<char>`, of which the game uses the
    size×size corner.
  - Each side has an `int` counter. The turns would decrement it through a
    pointer; here the counter is passed in and its new value returned.
  - Glyph counts (`Count`) over the used corner connect the counters to
    the boards.

Console input is a finite sequence: tokenised lines for Rust, `scanf`
results for C. The random source is a finite sequence of draws. Every
rejection loop runs until it finds what it looks for or runs out of input.
Running out is reported as an "exhausted" result. The programs themselves
would loop forever there. At end of file Rust's `read_line` yields an empty
line, which is rejected and read again (`RUST_battleships.rs:212-215`). C's
`getchar` drain loop never meets `'\n'` (`C_battleships.c:126, 154`). The
random loops keep drawing.

### Behaviour worth noting

- **Rust: the computer still guesses after a human win.** One might expect
  a human win to end the round before the computer's guess. In the Rust
  code the winner is tested only at the top of `game_loop`
  (`RUST_battleships.rs:105-114`). The computer's guess at lines 129-130
  therefore always happens, including after the human's guess sinks the
  last ship. The model follows the code; see
  `ComputerRepliesAfterLastSinking` and `DoubleWipeOutIsHumanWin`.
- **Rust: the computer's board has no `S`.** It is built by
  `initialize_grid` (line 34), so it never shows a ship glyph. Hits are
  decided by the ship set alone.
- **Rust: a repeated human guess on a hit cell turns it into `O`.**
  `get_coordinates` does not reject repeats (`RepeatHitBecomesMiss`).
- **C: line 52.**
  - `makeGuess` already decrements `*shipsLeft`, and it also returns 1 on
    a hit. The read of `computerShipsLeft` on the left of `-=` is
    indeterminately sequenced with the call (sections 6.5.2.2/10 and
    6.5.16 of ISO/IEC 9899:2011).
  - The model takes the reading in which that read happens after the
    call, so a hit costs the counter two. The counter then equals the
    computer's un-hit ships minus its hit ships; it is not the ship count.
  - With an even fleet, the human is declared the winner once half the
    fleet is sunk. With an odd fleet, the counter jumps from 1 to -1.
    The computer still takes its turn. Unless that turn wins, the loop
    ends without any message (`RunGame`, ending `SilentExit`).
  - The other reading, one decrement, is not modelled.

## Model

| member | source | states |
|---|---|---|
| Prelude.CellOf | RUST_battleships.rs:89-90 | A draw selects an in-bounds cell (`gen_range(0..n)`, in C `rand() % size`), and every in-bounds cell is selected by some draw |
| Prelude.FewestDrawsUnique | RUST_battleships.rs:85-93 | Two shortest runs of draws from the same point that select the same number of cells end at the same draw, so where placing stops is determined by the draws |
| Prelude.NoFleetsFrom | RUST_battleships.rs:25-28 | When the player's fleet cannot be drawn at all, or it is drawn by the fewest first draws and the computer's fleet cannot be drawn from there, no way of splitting the draws places both fleets |
| Glyph.Shown | RUST_battleships.rs:186-190 | The shown glyph is never a ship unless ships are revealed; an un-hit ship on a concealed board is shown as water; every other cell is shown verbatim |
| Glyph.MaskRow | RUST_battleships.rs:185-191 | A displayed row has the row's length, shows no `S` unless ships are revealed, shows a concealed ship as `~`, and shows every other cell verbatim |
| Glyph.Masked | RUST_battleships.rs:183-193 | A displayed board has the board's shape, shows no `S` when concealed, shows a concealed ship as `~`, and shows every other cell verbatim (the C loop at `C_battleships.c:89-99` is the same rule) |
| Glyph.ConcealedCannotTellShipFromWater | C_battleships.c:92-95 | Two boards that differ only between ship and water cells look identical when concealed |
| Glyph.RevealedShowsEverything | C_battleships.c:92-95 | With ships revealed, the display is the board itself |
| RustBattleships.AcceptGridSize | RUST_battleships.rs:48-49 | A line is accepted as a size exactly when it holds one token that parses as a number from 1 to 10 |
| RustBattleships.AcceptNumShips | RUST_battleships.rs:59-63 | A line is accepted as a count exactly when it holds one token that parses as a number from 1 to gridSize²; no count is accepted on a board of size 0 |
| RustBattleships.AcceptCoordinates | RUST_battleships.rs:201-204 | A line is accepted as a guess exactly when it holds two tokens, both parsed, naming an in-bounds cell |
| RustBattleships.GetGridSize | RUST_battleships.rs:45-53 | Returns the first line that parses as a single number in 1..=10; every skipped line was rejected; `None` only when the input is used up |
| RustBattleships.GetNumShips | RUST_battleships.rs:58-67 | Returns the first line that parses as a number in 1..=gridSize²; every skipped line was rejected |
| RustBattleships.GetCoordinates | RUST_battleships.rs:197-210 | Returns the first line of exactly two parsed tokens, both below the grid size, as an in-bounds position; every skipped line fails that test; the accepted positions of the lines it read are exactly the one it returns, or none when the input ran out |
| RustBattleships.AcceptedWindow | RUST_battleships.rs:197-210 | The lines one `get_coordinates` call reads yield exactly its returned position, or nothing when they were all rejected |
| RustBattleships.AcceptedGuessesAppend | RUST_battleships.rs:125-139 | The positions accepted from two stretches of input read one after the other are those of the first followed by those of the second |
| RustBattleships.InitializeGrid | RUST_battleships.rs:70-72 | A size×size grid, every cell water |
| RustBattleships.InitializeGridWithShips | RUST_battleships.rs:75-81 | A size×size grid whose cell is `S` if its position is in the set and `~` otherwise, so board and set agree |
| RustBattleships.DrawnCellsInBounds | RUST_battleships.rs:89-91 | Every drawn cell is in bounds |
| RustBattleships.PlaceShips | RUST_battleships.rs:85-93 | On success the set has exactly `numShips` positions, contains the input set, is in bounds, and is the input set plus the cells drawn; no shorter run of draws reached the count; with `None` the draws ran out and the input set plus every cell drawn still does not have `numShips` positions |
| RustBattleships.PlaceFleet | RUST_battleships.rs:25-28 | `place_ships` on a new empty set: the fleet is exactly the cells of the fewest draws from the cursor that select `numShips` cells, all in bounds; with `None` the draws ran out and no run of the remaining draws selects `numShips` cells |
| RustBattleships.FreeCellExists | RUST_battleships.rs:85-93 | While fewer than gridSize² positions are placed, an unplaced in-bounds cell exists, so the count must not exceed gridSize² |
| RustBattleships.Resolve | RUST_battleships.rs:143-159 | The guess leaves the ship set (the set is otherwise unchanged); its cell becomes `X` if it was a ship and `O` otherwise, whatever it held; no other cell changes |
| RustBattleships.ProcessGuess | RUST_battleships.rs:143-159 | The in-place update of grid and set produces exactly `Resolve`'s result |
| RustBattleships.ResolveKeepsConsistent | RUST_battleships.rs:149-153 | Resolving an in-bounds guess keeps "cell is `S` iff the position is in the ship set" |
| RustBattleships.ResolveKeepsConcealed | RUST_battleships.rs:152-156 | Resolving a guess never writes `S`, so the computer's board stays without ship glyphs |
| RustBattleships.RepeatHitBecomesMiss | RUST_battleships.rs:154-157 | Guessing a ship twice: the first guess marks it `X` and removes it; the second turns the `X` into `O` |
| RustBattleships.MakeComputerGuess | RUST_battleships.rs:162-170 | Returns the first drawn cell not already guessed; it is in bounds and new; every skipped draw was a repeat; the fresh cells of the draws it read are exactly its guess, or none when the draws ran out |
| RustBattleships.FreshWindow | RUST_battleships.rs:162-170 | The draws one `make_computer_guess` call reads yield exactly its guess as a fresh cell, or nothing when every draw was a repeat |
| RustBattleships.FreshGuessesAppend | RUST_battleships.rs:129-138 | The fresh cells of two runs of draws read one after the other are those of the first followed by those of the second, judged against the guesses grown by the first |
| RustBattleships.WinnerOf | RUST_battleships.rs:104-114 | Human wins iff the computer's set is empty; computer wins iff the player's set is empty and the computer's is not; otherwise no winner |
| RustBattleships.Round | RUST_battleships.rs:123-139 | The human's guess leaves the computer's set, the computer's guess leaves the player's set, and the computer's guess is recorded |
| RustBattleships.PlayRounds | RUST_battleships.rs:132-139 | Replaying any in-bounds rounds keeps both boards square |
| RustBattleships.PlayRoundsExtend | RUST_battleships.rs:132-139 | One more round extends the replay, and an undecided game stays undecided after a round played from a position without a winner |
| RustBattleships.RoundKeepsValid | RUST_battleships.rs:129-138 | A round with a new computer guess keeps the game invariant: the player's board agrees with its set, the computer's board has no `S`, and guesses are in bounds and disjoint from the player's un-hit ships |
| RustBattleships.ShipsNeverGrow | RUST_battleships.rs:150-153 | Over any rounds, ship sets only shrink and the computer's guesses only grow |
| RustBattleships.UnguessedCellExists | RUST_battleships.rs:111 | While the player has ships, some draw selects an unguessed cell, so `make_computer_guess` can succeed |
| RustBattleships.ComputerRepliesAfterLastSinking | RUST_battleships.rs:125-132 | When the human sinks the last computer ship, the computer still guesses; its guess is recorded and resolved; the human is the winner at the next check |
| RustBattleships.DoubleWipeOutIsHumanWin | RUST_battleships.rs:105-114 | A round that empties both sets is a human win |
| RustBattleships.ComputerReplies | RUST_battleships.rs:128-130 | The computer's guess is the cell of the last draw read, it is new, every earlier draw read was a repeat, and the game becomes `Round` of the two guesses with the invariant kept; with no guess, the draws ran out |
| RustBattleships.PlayTurns | RUST_battleships.rs:123-130 | The human's guess is the position of the one accepted line read, every earlier line read was rejected, and without it the input ran out and no draw was read; the computer's guess is the cell of the last draw read, new, every earlier draw a repeat, and without it the draws ran out; with both, the next game is `Round` of them with the invariant kept |
| RustBattleships.ProgressStep | RUST_battleships.rs:123-139 | A round played from an undecided game, with guesses taken from the next accepted line and the next fresh draw, extends the replayed record, the human's accepted guesses and the computer's fresh draws by that round |
| RustBattleships.GameLoop | RUST_battleships.rs:96-140 | The final game is the recorded rounds replayed from the start, with the invariant kept and no earlier round decided; the human's guesses are the positions accepted from the input read, and the computer's the fresh cells of the draws read; it ends in a win iff the final state has a winner, and names it; running out of input or draws means that source was read to its end |
| RustBattleships.ReadSettings | RUST_battleships.rs:19-22 | The size is the first accepted size line and the count the next accepted count line, with every line between rejected; otherwise the input ran out, and either no line is accepted as a size or no line after the first accepted size line is accepted as a count for it |
| RustBattleships.SettingsUnique | RUST_battleships.rs:19-22 | The size line, the count line and the two settings read are determined by the input |
| RustBattleships.OpeningGame | RUST_battleships.rs:31-37 | The player's board shows `S` exactly on its fleet and `~` elsewhere, the computer's board is all water, no guess is recorded, and the game invariant holds |
| RustBattleships.PlaceFleets | RUST_battleships.rs:25-34 | The player's fleet is the cells of the fewest first draws giving `numShips` cells, the computer's the cells of the fewest next draws doing so, and the boards are the opening boards; otherwise the draws ran out and no split of the draws gives both fleets |
| RustBattleships.SetUp | RUST_battleships.rs:16-37 | The opening game is built from the accepted size and count lines and the two fleets' draws, and satisfies the game invariant; otherwise either the input ran out before both settings were accepted, or both were read and the draws ran out with no split of them giving both fleets |
| RustBattleships.RunGame | RUST_battleships.rs:16-41 | The game starts from the size and count lines accepted, `numShips` ships per side placed from the draws, the player's board from `initialize_grid_with_ships` and the computer's from `initialize_grid`; from there `GameLoop`'s guarantees hold; a win needs a started game; without a start, either the input holds no accepted size line followed by an accepted count line, or the draws cannot place both fleets for the settings read; running out of input or draws means that source was read to its end |
| CBattleships.Strike | C_battleships.c:140-173 | A strike, by `makeGuess` or `computerTurn`, marks its cell `X` if it held a ship and `O` otherwise, keeps the board's shape, and changes no other cell |
| CBattleships.StrikeCounts | C_battleships.c:140-148 | Striking a ship or water cell moves one count: one `S` becomes `X` or one `~` becomes `O`, and one more cell is guessed |
| CBattleships.GlyphDrawable | C_battleships.c:107-109 | A glyph that occurs on a square board lies on a cell some draw selects |
| CBattleships.SetCell | C_battleships.c:141 | Writes one cell and changes nothing else |
| CBattleships.InitializeGrid | C_battleships.c:73-79 | Every cell of the size×size corner is `~`, the rest of the array is untouched, and the corner counts size² water cells and no other glyph |
| CBattleships.PlaceShips | C_battleships.c:104-114 | The board is the one built by placing the draws read one by one: exactly the `~` cells that some draw read selects become `S`, and every other cell keeps its glyph; the loop stops at the first draw that brings the ships placed to `numShips`, every shorter run placed fewer, and on failure the draws ran out with fewer placed; on success the `S` count grows by `numShips` and the `~` count drops by as much; other glyph counts stay the same |
| CBattleships.PlaceLoop | C_battleships.c:105-113 | The board is the one built by placing the draws read one by one, with the ships placed counted; the loop ends with `numShips` placed or with the draws used up, and every shorter run of the draws read placed fewer than `numShips` |
| CBattleships.PlaceAll | C_battleships.c:107-112 | Placing any run of draws keeps the board square |
| CBattleships.PlaceAllCells | C_battleships.c:107-112 | Placing draw by draw turns into `S` exactly the `~` cells some draw selects and leaves every other cell as it was |
| CBattleships.PlaceAllCounts | C_battleships.c:107-112 | Placing draw by draw turns `PlacedCount` `~` cells into `S` and changes no other glyph count |
| CBattleships.PlaceAllSnoc | C_battleships.c:108-111 | One more draw turns the cell it selects into `S` if that cell is `~` on the board built so far, and otherwise changes nothing |
| CBattleships.PlacedCountStep | C_battleships.c:108-111 | One more draw raises the ships placed by one exactly when the board built so far shows `~` at the cell it selects |
| CBattleships.PlaceStep | C_battleships.c:108-111 | The board built so far shows `~` at a drawn cell exactly when that cell was `~` at the start and no earlier draw selected it; placing there keeps the cell description for the longer run and raises the count by one, and leaving it alone keeps both |
| CBattleships.PlacedOnlyShips | C_battleships.c:108-110 | When the cells are placed that way, every cell either keeps its glyph or goes from `~` to `S` |
| CBattleships.PlacedOnWater | C_battleships.c:30-34 | On a board of water, the ships placed are the distinct cells drawn |
| CBattleships.PlaceNext | C_battleships.c:107-111 | One more draw builds the board so far with the drawn cell turned into `S` if it was `~` |
| CBattleships.PlaceNextCount | C_battleships.c:106-111 | One more draw raises the ships placed by one exactly when the drawn cell was `~` on the board built so far |
| CBattleships.WaterToPlace | C_battleships.c:106-109 | While fewer than `numShips` ships are placed on a board that had at least `numShips` water cells, a water cell is left and some draw selects it |
| CBattleships.PlaceAt | C_battleships.c:109-110 | The drawn cell becomes `S` exactly when it was `~`, and no other cell changes |
| CBattleships.PlaceAtStep | C_battleships.c:107-111 | After one pass of the loop body, the board is the one built by one more draw, and the count of ships placed goes up by one exactly when the drawn cell was `~` |
| CBattleships.MakeGuess | C_battleships.c:135-157 | Skips scans that are unread, out of range, or on an `X`/`O` cell, leaving the board alone; on the accepted cell, a ship becomes `X` with 1 returned and the counter decremented, and water becomes `O` with 0 returned |
| CBattleships.ComputerTurn | C_battleships.c:161-177 | Skips draws landing on `X`/`O`; strikes the first ship or water cell, decrementing the counter only on a hit; with no strike the draws ran out and the board is unchanged |
| CBattleships.PrintGrid | C_battleships.c:82-100 | The cells shown are the corner under the masking rule, with a ship shown as water when `revealShips == 0` |
| CBattleships.HumanTurn | C_battleships.c:52 | Every scan before the accepted one was turned away; the accepted guess strikes its cell, and under the chosen reading the counter drops by two on a hit and not at all on a miss; with no accepted scan the input ran out, every scan read was turned away, and board and counter are unchanged |
| CBattleships.HumanStrikeBalanced | C_battleships.c:52-54 | The human's strike keeps the counters' relation to the boards and puts the computer's board one guess ahead |
| CBattleships.ComputerStrikeBalanced | C_battleships.c:61-63 | The computer's strike keeps the counters' relation to the boards and evens the guesses |
| CBattleships.ShipToStrike | C_battleships.c:161-176 | While the player's counter is positive, the player's board has an `S` that some draw selects, so `computerTurn` has a cell to strike |
| CBattleships.NewBoard | C_battleships.c:27-34 | The board shows `S` exactly on the cells of the draws read and `~` elsewhere; when placed, those draws are the fewest from the cursor that select `numShips` cells, and the board has `numShips` `S`, size² − `numShips` `~`, and no hit or miss; otherwise the draws ran out and no run of the remaining draws selects `numShips` cells |
| CBattleships.FleetOnOcean | C_battleships.c:30-34 | Placing on a board of water shows exactly the drawn cells as `S`; a run that reaches `numShips` after every shorter run fell short is the fewest draws selecting `numShips` cells, and a run to the end that falls short means no run selects that many |
| CBattleships.SetUp | C_battleships.c:27-37 | The player's board shows `S` exactly on the cells of the fewest first draws selecting `numShips` cells, and the computer's on those of the fewest next draws doing so; both boards hold `numShips` ships and no guesses; when not placed, the draws ran out and no split of them gives both fleets |
| CBattleships.ComputerHalf | C_battleships.c:59-66 | The computer's strike is on the cell of the last draw read, every earlier draw read landed on `X`/`O`, and the balance is kept with the guesses evened; with no strike the draws ran out and the player's board is unchanged |
| CBattleships.PlayRound | C_battleships.c:43-66 | The computer's board is struck at the accepted scan, every earlier scan was turned away; the player's board is struck at the cell of the last draw read when the computer moved and unchanged otherwise; an exhausted stop read its source to the end and rejected everything it skipped; the relation between counters and boards is kept; it stops before the computer's turn when the computer's counter hits 0 (a human win), and after it when the player's counter hits 0; running out of draws happens only with the computer's counter non-zero after the human's strike |
| CBattleships.RunGame | C_battleships.c:17-70 | A ghost record of loop passes begins at the opening boards: each fleet is the fewest draws selecting `numShips` cells, and nothing has been read. Consecutive records are whole passes: the human's move over the scans read, then the computer's over the draws read. The last pass ends the loop as the ending says. An exhausted input turned away every scan read since that pass began, and exhausted draws skipped every draw read since the human's move, which left the computer's counter and its `S` − `X` non-zero. With no record, the draws could not place both fleets. Every recorded pass but the last began with both sides in play (the player has an `S` left and the computer's `S` − `X` is positive), so no earlier pass left the loop; the last began in play exactly when the ending is not the silent exit. On every ending after placement the player's counter equals its `S` count and the computer's equals `S` − `X`, with the computer's board one guess ahead after a human win or exhausted draws; a human win means half an even fleet is hit; a silent exit leaves the computer's counter at -1; the numbers of guessed cells stay in step; running out of input or draws means that source was read to its end |
| CBattleships.PlayedExtend | C_battleships.c:43-67 | A record of whole passes followed by one more pass is still a record of whole passes |
| CBattleships.Advance | C_battleships.c:43-67 | A pass played from the last record of the loop's course either extends the course by one record, the pass it came from having begun with both sides in play, with the counters in balance, or leaves the loop the way the pass stopped, with the balance that ending keeps and, on exhausted draws, the computer's counter non-zero |
| CBattleships.NextPass | C_battleships.c:43-67 | One pass of the loop from a position on its course: it either runs to its end and is recorded, having read at least one scan, or leaves the loop as `PlayRound` says |
| CBattleships.MainLoop | C_battleships.c:43-67 | The loop's record starts at the boards it was given with nothing read, consists of whole passes, every pass but the last began with both sides in play, the last began in play unless the loop test failed (silent exit, where the computer's `S` − `X` is -1), and its last pass ends the loop as the ending says, with the balance each of the five endings keeps; exhausted draws leave the computer's counter non-zero, since a human win breaks before the computer's turn |

## Left out

- Console I/O is not modelled. This covers `read_input`, the prints, the
  header and row-index layout of `print_grid`/`printGrid`, and the
  messages. Only the acceptance tests that follow parsing are modelled.
- The `getchar` drain loops (`C_battleships.c:126, 154`) are not modelled.
  They only discard the rest of a rejected line, and they never end at
  end of file.
- The `unwrap` panic on a standard-input error (`RUST_battleships.rs:214`)
  is not modelled.
- The lexical rules of `str::parse::<usize>` and `scanf("%d")` are left
  out, because they are library behaviour. A Rust line is a sequence of
  tokens, each parsed or not; a C scan is two integers or nothing.
- `getValidIntInput` (`C_battleships.c:118-130`) becomes the preconditions
  of `CBattleships.RunGame`: 1 ≤ gridSize ≤ 10 and 1 ≤ numShips ≤ gridSize².
- The random generators are replaced by an injected finite sequence of
  draws: `rand::thread_rng`, `srand(time(NULL))`, `rand()` and
  `gen_range`. Nothing is claimed about uniformity or modulo bias.
- The rejection-sampling loops terminate only with probability 1. Each
  model of them returns an "exhausted" result when its draws or input run
  out. A round cut short that way is half played: when the draws run out
  during the computer's turn, the human's guess has already been read and,
  in the C model, already struck on the computer's board
  (`CBattleships.PlayRound` states this strike and the balance one guess
  ahead). `RustBattleships.GameLoop` returns the game as it was before that
  round, because the Rust pass resolves both guesses before building the
  next game; it states the one extra accepted line.
- Stack depth of the Rust recursion, and the cost of rebuilding sets
  (`RUST_battleships.rs:91, 132-139`), are left out because they are not
  observable in the model.
- Rust `HashSet` iteration order in `initialize_grid_with_ships` is
  modelled as an arbitrary choice. The result does not depend on it.
- CBattleships.HumanTurn models only the two-decrement reading of
  `C_battleships.c:52`. The one-decrement reading, in which the counter
  equals the ship count, is not modelled.
