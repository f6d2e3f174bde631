/**
 The data model of the hex board (src/game.h) and its pure geometry from src/game.cpp:
 coordinates, payloads, tiles, the staggered row widths, `checkBounds`, the neighbour
 offsets the per-tile neighbour references are computed from, and `checkMatch`.
 */
module Hex {

  const BOARD_WIDTH: int := 9
  const BOARD_HEIGHT: int := 36
  const MAX_PARTICLES: int := 1024
  const MAX_TODROP: int := 1024
  /** Number of cells a board really has: 18 rows of 9 and 18 rows of 8. */
  const VALID_CELLS: int := 306

  newtype byte = x: int | 0 <= x < 256

  /** `ThingPos`: a (row, col) coordinate; may lie outside the board. */
  datatype Pos = Pos(row: int, col: int)

  /** `ThingRef`: the source's `exists` flag (a keyword here, so `present`) and a coordinate. */
  datatype ThingRef = ThingRef(present: bool, pos: Pos)

  /** `Thing`: three independent byte attributes. */
  datatype Thing = Thing(clr: byte, shp: byte, sym: byte)

  /** `Tile`: the payload and its reference; neighbour references are computed by Boards.Board.Neighs. */
  datatype Tile = Tile(thing: Thing, ref: ThingRef)

  /** What a zero-initialised board cell holds. */
  const EMPTY_TILE: Tile := Tile(Thing(0, 0, 0), ThingRef(false, Pos(0, 0)))

  /** `(row + even) % 2`: 1 for a short row. */
  function Parity(row: int, even: bool): int
  {
    (row + (if even then 1 else 0)) % 2
  }

  /** Columns of a row: 9 for a long row, 8 for a short one. */
  function Width(row: int, even: bool): (w: int)
    ensures w == BOARD_WIDTH || w == BOARD_WIDTH - 1
  {
    BOARD_WIDTH - Parity(row, even)
  }

  function Min(a: int, b: int): int
  {
    if a <= b then a else b
  }

  /** Inside the 36 x 9 storage (what indexing `things` needs). */
  predicate InArray(p: Pos)
  {
    0 <= p.row < BOARD_HEIGHT && 0 <= p.col < BOARD_WIDTH
  }

  /** `checkBounds`: a coordinate of a real cell under the current parity flag; such a cell can be indexed. */
  predicate CheckBounds(even: bool, p: Pos): (b: bool)
    ensures b ==> InArray(p)
  {
    p.row >= 0 && p.row < BOARD_HEIGHT && p.col >= 0 && p.col < Width(p.row, even)
  }

  /** The short rows are exactly those of parity 1. */
  lemma BoundsInArray(even: bool, p: Pos)
    ensures CheckBounds(even, p) <==>
              0 <= p.row < 36 && 0 <= p.col && p.col < (if (p.row + (if even then 1 else 0)) % 2 == 1 then 8 else 9)
  {
  }

  /** Shifting by `off` rows and toggling the parity flag iff `off` is odd keeps each row's width. */
  lemma {:induction false} ShiftedWidth(row: int, off: int, even: bool)
    ensures Width(row + off, even != (off % 2 != 0)) == Width(row, even)
  {
    var b := if even then 1 else 0;
    var b' := if even != (off % 2 != 0) then 1 else 0;
    assert (row + off + b') % 2 == (row + b) % 2 by {
      if off % 2 == 0 {
        assert b' == b;
        assert off == 2 * (off / 2);
      } else {
        assert off == 2 * (off / 2) + 1;
        assert b' == 1 - b;
        assert row + off + b' == row + b + 2 * (off / 2 + 1 - b);
      }
    }
  }

  /** A cell keeps being a real cell when the board moves by `off` rows. */
  lemma ShiftedBounds(p: Pos, off: int, even: bool)
    requires 0 <= p.row + off < BOARD_HEIGHT && 0 <= p.row < BOARD_HEIGHT
    ensures CheckBounds(even, p) <==> CheckBounds(even != (off % 2 != 0), Pos(p.row + off, p.col))
  {
    ShiftedWidth(p.row, off, even);
  }

  /**
   The neighbour in direction `i` (`TOGO[i]`): 0 left, 1 right, 2 up-left, 3 up-right,
   4 down-left, 5 down-right. A short row is drawn half a tile to the right, so its
   diagonal neighbours are one column further right than those of a long row.
   */
  function Step(p: Pos, i: int, even: bool): (r: Pos)
    requires 0 <= i < 6
    ensures r != p && -1 <= r.col - p.col <= 1
    ensures i < 2 ==> r.row == p.row && r.col == p.col + (if i == 0 then -1 else 1)
    ensures 2 <= i < 4 ==> r.row == p.row - 1
    ensures 4 <= i ==> r.row == p.row + 1
  {
    var s := Parity(p.row, even);
    if i == 0 then Pos(p.row, p.col - 1)
    else if i == 1 then Pos(p.row, p.col + 1)
    else if i == 2 then Pos(p.row - 1, p.col - 1 + s)
    else if i == 3 then Pos(p.row - 1, p.col + s)
    else if i == 4 then Pos(p.row + 1, p.col - 1 + s)
    else Pos(p.row + 1, p.col + s)
  }

  /** `TOGOI[i]`: the direction that leads back. */
  function Reverse(i: int): (j: int)
    requires 0 <= i < 6
    ensures 0 <= j < 6 && j != i
  {
    if i == 0 then 1
    else if i == 1 then 0
    else if i == 2 then 5
    else if i == 3 then 4
    else if i == 4 then 3
    else 2
  }

  /** Going one step and back returns to the start (the neighbour relation is symmetric). */
  lemma {:induction false} StepReverse(p: Pos, i: int, even: bool)
    requires 0 <= i < 6
    ensures Reverse(Reverse(i)) == i
    ensures Step(Step(p, i, even), Reverse(i), even) == p
  {
    var b := if even then 1 else 0;
    if 2 <= i {
      var r := if i < 4 then p.row - 1 else p.row + 1;
      assert (r + b) % 2 == 1 - (p.row + b) % 2 by {
        if i < 4 { assert p.row + b == (r + b) + 1; } else { assert r + b == (p.row + b) + 1; }
      }
    }
  }

  /** The up to six real cells next to `p`. */
  function NeighbourSet(p: Pos, even: bool): (s: set<Pos>)
    ensures forall q :: q in s ==> CheckBounds(even, q)
  {
    set i | 0 <= i < 6 && CheckBounds(even, Step(p, i, even)) :: Step(p, i, even)
  }

  /** If `q` is a neighbour of `p`, then `p` is a neighbour of `q`. */
  lemma NeighbourSymmetric(p: Pos, q: Pos, even: bool)
    requires CheckBounds(even, p) && q in NeighbourSet(p, even)
    ensures p in NeighbourSet(q, even)
  {
    var i :| 0 <= i < 6 && Step(p, i, even) == q;
    StepReverse(p, i, even);
    assert Step(q, Reverse(i), even) == p;
  }

  /** One attribute of a payload; `param` outside 0..2 selects nothing. */
  function Attribute(t: Thing, param: int): byte
    requires 0 <= param <= 2
  {
    [t.clr, t.shp, t.sym][param]
  }

  /** `checkMatch`: two payloads match on one attribute; any other `param` never matches. */
  function CheckMatch(a: Thing, b: Thing, param: int): (m: bool)
    ensures m <==> 0 <= param <= 2 && Attribute(a, param) == Attribute(b, param)
  {
    match param
    case 0 => a.clr == b.clr
    case 1 => a.shp == b.shp
    case 2 => a.sym == b.sym
    case _ => false
  }

  /** The cells `Pos(row, c)` for `0 <= c < w`. */
  function RowCells(row: int, w: int): (s: set<Pos>)
    ensures forall p :: p in s <==> p.row == row && 0 <= p.col < w
  {
    set c | 0 <= c < w :: Pos(row, c)
  }

  /** A row of width `w` has `w` cells. */
  lemma {:induction false} RowCellsCount(row: int, w: nat)
    ensures |RowCells(row, w)| == w
  {
    if w == 0 {
      assert RowCells(row, w) == {};
    } else {
      RowCellsCount(row, w - 1);
      assert RowCells(row, w) == RowCells(row, w - 1) + {Pos(row, w - 1)};
    }
  }

  /**
   How many real cells lie in rows `0 .. n-1` (also the row-major index of row `n`'s
   first cell): nine per row, less one for each short row.
   */
  function CellsBefore(n: nat, even: bool): nat
  {
    BOARD_WIDTH * n - (n + (if even then 1 else 0)) / 2
  }

  /** Row `n` adds its width to the count. */
  lemma CellsBeforeNext(n: nat, even: bool)
    ensures CellsBefore(n + 1, even) == CellsBefore(n, even) + Width(n, even)
  {
    var m := n + (if even then 1 else 0);
    assert m == 2 * (m / 2) + m % 2;
    assert m + 1 == 2 * ((m + 1) / 2) + (m + 1) % 2;
  }

  /** `s` holds exactly the real cells of rows `0 .. n-1`. */
  ghost predicate CellsOfRows(s: set<Pos>, n: int, even: bool)
  {
    forall p {:trigger p in s} :: p in s <==> p.row < n && CheckBounds(even, p)
  }

  /** Splitting off row `n-1` leaves the real cells of the rows above it. */
  lemma SplitLastRow(s: set<Pos>, n: int, even: bool)
    requires 0 < n <= BOARD_HEIGHT && CellsOfRows(s, n, even)
    ensures CellsOfRows(s - RowCells(n - 1, Width(n - 1, even)), n - 1, even)
    ensures |s| == |s - RowCells(n - 1, Width(n - 1, even))| + Width(n - 1, even)
  {
    var row := RowCells(n - 1, Width(n - 1, even));
    forall p | p in row ensures p in s {
      assert p.row == n - 1 && 0 <= p.col < Width(p.row, even);
    }
    assert s == (s - row) + row;
    assert (s - row) * row == {};
    RowCellsCount(n - 1, Width(n - 1, even));
  }

  /** A set holding exactly the real cells of rows `0 .. n-1` has `CellsBefore(n)` members. */
  lemma {:induction false} CountCells(n: nat, even: bool, s: set<Pos>)
    requires n <= BOARD_HEIGHT && CellsOfRows(s, n, even)
    ensures |s| == CellsBefore(n, even)
  {
    if n > 0 {
      SplitLastRow(s, n, even);
      CountCells(n - 1, even, s - RowCells(n - 1, Width(n - 1, even)));
      CellsBeforeNext(n - 1, even);
    } else {
      assert forall p :: p !in s;
      assert s == {};
    }
  }

  /** All real cells of the board. */
  function ValidCells(even: bool): (s: set<Pos>)
    ensures forall p {:trigger p in s} :: p in s <==> CheckBounds(even, p)
  {
    set r, c | 0 <= r < BOARD_HEIGHT && 0 <= c < Width(r, even) :: Pos(r, c)
  }

  /** The board has exactly 306 real cells, whatever the parity flag, well below `MAX_TODROP`. */
  lemma ValidCellCount(even: bool)
    ensures |ValidCells(even)| == VALID_CELLS < MAX_TODROP
  {
    CountCells(BOARD_HEIGHT, even, ValidCells(even));
  }
}
