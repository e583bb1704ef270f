/** The cell glyphs both versions of the game use, and the rule by which a
    board is shown with or without its un-hit ships. */
module Glyph {

  const Water: char := '~'
  const Ship: char := 'S'
  const Hit: char := 'X'
  const Miss: char := 'O'

  /** The glyph printed for one cell: an un-hit ship is drawn as water unless
      the board's ships are revealed; every other glyph is drawn verbatim. */
  function Shown(cell: char, revealShips: bool): (shown: char)
    ensures shown != Ship || revealShips
    ensures cell != Ship || revealShips ==> shown == cell
    ensures cell == Ship && !revealShips ==> shown == Water
  {
    if cell == Ship && !revealShips then Water else cell
  }

  /** One row as displayed: same length; no ship glyph unless revealed; a
      cell that is not a ship, or any cell once revealed, verbatim; a
      concealed ship as water. */
  function MaskRow(row: seq<char>, revealShips: bool): (shown: seq<char>)
    ensures |shown| == |row|
    ensures forall j :: 0 <= j < |row| ==>
      (shown[j] != Ship || revealShips) &&
      (row[j] != Ship || revealShips ==> shown[j] == row[j]) &&
      (row[j] == Ship && !revealShips ==> shown[j] == Water)
  {
    seq(|row|, j requires 0 <= j < |row| => Shown(row[j], revealShips))
  }

  /** The glyphs a board is displayed with, row by row: the board's shape,
      and every cell shown as `MaskRow` shows it. A concealed board has no
      ship glyph at all. */
  function Masked(grid: seq<seq<char>>, revealShips: bool): (shown: seq<seq<char>>)
    ensures |shown| == |grid|
    ensures forall i :: 0 <= i < |grid| ==> |shown[i]| == |grid[i]|
    ensures forall i, j :: 0 <= i < |grid| && 0 <= j < |grid[i]| ==>
      (shown[i][j] != Ship || revealShips) &&
      (grid[i][j] != Ship || revealShips ==> shown[i][j] == grid[i][j]) &&
      (grid[i][j] == Ship && !revealShips ==> shown[i][j] == Water)
  {
    seq(|grid|, i requires 0 <= i < |grid| => MaskRow(grid[i], revealShips))
  }

  /** Two boards that differ only in whether some cells hold a ship or water
      look exactly the same when concealed: the display gives the ship
      positions away nowhere. */
  lemma ConcealedCannotTellShipFromWater(a: seq<seq<char>>, b: seq<seq<char>>)
    requires |a| == |b|
    requires forall i :: 0 <= i < |a| ==> |a[i]| == |b[i]|
    requires forall i, j :: 0 <= i < |a| && 0 <= j < |a[i]| ==>
      a[i][j] == b[i][j] || (a[i][j] in {Ship, Water} && b[i][j] in {Ship, Water})
    ensures Masked(a, false) == Masked(b, false)
  {
    forall i | 0 <= i < |a|
      ensures MaskRow(a[i], false) == MaskRow(b[i], false)
    {
      assert forall j :: 0 <= j < |a[i]| ==> MaskRow(a[i], false)[j] == MaskRow(b[i], false)[j];
    }
  }

  /** A revealed board is displayed verbatim. */
  lemma RevealedShowsEverything(grid: seq<seq<char>>)
    ensures Masked(grid, true) == grid
  {
    forall i | 0 <= i < |grid|
      ensures MaskRow(grid[i], true) == grid[i]
    {
      assert forall j :: 0 <= j < |grid[i]| ==> MaskRow(grid[i], true)[j] == grid[i][j];
    }
  }
}
