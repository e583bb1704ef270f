/** Small building blocks shared by both versions of the game: an optional
    value, and the random source, which the model injects as a finite
    sequence of draws instead of calling a generator. */
module Prelude {

  datatype Option<T> = None | Some(value: T)

  /** One pair of raw values taken from the random source: first the row
      draw, then the column draw. Both programs always draw a row and a
      column together, so a pair is the unit of consumption. */
  datatype Draw = Draw(row: nat, col: nat)

  /** The cell a draw selects on a board of side `n`. This stands for
      `rng.gen_range(0..n)` in the Rust version and for `rand() % n` in the
      C version; nothing is claimed about the distribution. Every in-range
      cell is the image of some draw, so no placement or guess the programs
      can make is missing from the model. */
  function CellOf(d: Draw, n: nat): (cell: (nat, nat))
    requires 0 < n
    ensures cell.0 < n && cell.1 < n
    ensures d.row < n && d.col < n ==> cell == (d.row, d.col)
  {
    SmallRemainder(d.row, n);
    SmallRemainder(d.col, n);
    (d.row % n, d.col % n)
  }

  /** A value below the modulus is its own remainder. */
  lemma SmallRemainder(a: nat, n: nat)
    requires 0 < n
    ensures a < n ==> a % n == a
  {
    if a < n {
      assert a / n == 0;
    }
  }

  /** The cells selected by a run of draws on a board of side `n`. */
  function DrawnCells(draws: seq<Draw>, n: nat): set<(nat, nat)>
    requires 0 < n
  {
    if draws == [] then {} else DrawnCells(draws[..|draws| - 1], n) + {CellOf(draws[|draws| - 1], n)}
  }

  /** A run of a sequence grown by its next element. */
  lemma SliceSnoc<T>(s: seq<T>, from: nat, next: nat)
    requires from <= next < |s|
    ensures s[from..next] + [s[next]] == s[from..next + 1]
  {
  }

  lemma DrawnCellsExtend(draws: seq<Draw>, from: nat, next: nat, n: nat)
    requires 0 < n && from <= next < |draws|
    ensures DrawnCells(draws[from..next + 1], n) == DrawnCells(draws[from..next], n) + {CellOf(draws[next], n)}
  {
    assert draws[from..next + 1][..next - from] == draws[from..next];
  }

  /** `draws[from..to]` is the shortest run of draws from `from` on that
      selects `count` distinct cells: where both programs' placement of a
      fleet of `count` ships on an empty board stops. */
  predicate FewestDraws(draws: seq<Draw>, n: nat, count: nat, from: nat, to: nat)
    requires 0 < n
  {
    from <= to <= |draws| && |DrawnCells(draws[from..to], n)| == count &&
    forall k :: from <= k < to ==> |DrawnCells(draws[from..k], n)| != count
  }

  /** No run of draws from `from` on selects `count` distinct cells: a
      fleet placed from there never completes. */
  predicate NeverDrawn(draws: seq<Draw>, n: nat, count: nat, from: nat)
    requires 0 < n
  {
    from <= |draws| && forall k :: from <= k <= |draws| ==> |DrawnCells(draws[from..k], n)| != count
  }

  /** The draws cannot place two fleets of `count` ships one after the
      other: wherever the first fleet completes, the second never does
      (and if the first never completes, there is nothing to say). */
  predicate NoFleets(draws: seq<Draw>, n: nat, count: nat)
    requires 0 < n
  {
    forall split: nat :: split <= |draws| && FewestDraws(draws, n, count, 0, split) ==> NeverDrawn(draws, n, count, split)
  }

  /** Where a fleet completes is determined by the draws. */
  lemma FewestDrawsUnique(draws: seq<Draw>, n: nat, count: nat, from: nat, a: nat, b: nat)
    requires 0 < n && FewestDraws(draws, n, count, from, a) && FewestDraws(draws, n, count, from, b)
    ensures a == b
  {
  }

  /** The two ways the draws can fail to give both fleets make `NoFleets`
      hold. */
  lemma NoFleetsFrom(draws: seq<Draw>, n: nat, count: nat, split: nat, playerPlaced: bool)
    requires 0 < n
    requires !playerPlaced ==> NeverDrawn(draws, n, count, 0)
    requires playerPlaced ==> FewestDraws(draws, n, count, 0, split) && NeverDrawn(draws, n, count, split)
    ensures NoFleets(draws, n, count)
  {
    forall s: nat | s <= |draws| && FewestDraws(draws, n, count, 0, s)
      ensures NeverDrawn(draws, n, count, s)
    {
      if playerPlaced {
        FewestDrawsUnique(draws, n, count, 0, s, split);
      } else {
        assert false;
      }
    }
  }
}
