/**
 The board of src/game.h and its in-place edits from src/game.cpp: a 36 x 9 array of
 tiles whose rows alternate between 9 and 8 real columns, the parity flag `even` and the
 incrementally maintained count of packed rows at the top, `nFulRowsTop`.
 */
module Boards {
  import opened Hex
  import opened Arenas

  /** The tile `addTile` stores: the given tile, told its own coordinate, and forced occupied when `makeExist` is set. */
  function Placed(tile: Tile, pos: Pos, makeExist: bool): (t: Tile)
    ensures t.thing == tile.thing && t.ref.pos == pos
    ensures t.ref.present <==> tile.ref.present || makeExist
  {
    Tile(tile.thing, ThingRef(tile.ref.present || makeExist, pos))
  }

  /** A tile with its occupancy flag cleared and everything else kept. */
  function Removed(tile: Tile): (t: Tile)
    ensures !t.ref.present && t.thing == tile.thing && t.ref.pos == tile.ref.pos
  {
    tile.(ref := tile.ref.(present := false))
  }


  /** A snapshot of the storage: `BOARD_HEIGHT` rows of `BOARD_WIDTH` tiles. */
  type Grid = seq<seq<Tile>>

  predicate IsGrid(g: Grid)
  {
    |g| == BOARD_HEIGHT && forall r :: 0 <= r < BOARD_HEIGHT ==> |g[r]| == BOARD_WIDTH
  }

  /** The zero-initialised storage: every cell an empty tile. */
  function Blank(): (g: Grid)
    ensures IsGrid(g)
    ensures forall r, c :: 0 <= r < BOARD_HEIGHT && 0 <= c < BOARD_WIDTH ==> g[r][c] == EMPTY_TILE
  {
    seq(BOARD_HEIGHT, r => seq(BOARD_WIDTH, c => EMPTY_TILE))
  }

  /** The snapshot `g` with the tile at `p` replaced by `t` and every other cell kept. */
  function Put(g: Grid, p: Pos, t: Tile): (h: Grid)
    requires IsGrid(g) && InArray(p)
    ensures IsGrid(h)
    ensures forall r, c :: 0 <= r < BOARD_HEIGHT && 0 <= c < BOARD_WIDTH ==>
              h[r][c] == if r == p.row && c == p.col then t else g[r][c]
  {
    g[p.row := g[p.row][p.col := t]]
  }

  /** The occupied real cells of a snapshot under the parity flag `even`. */
  function Occupancy(g: Grid, even: bool): (s: set<Pos>)
    requires IsGrid(g)
    ensures forall p {:trigger p in s} :: p in s <==> CheckBounds(even, p) && g[p.row][p.col].ref.present
  {
    set r, c | 0 <= r < BOARD_HEIGHT && 0 <= c < Width(r, even) && g[r][c].ref.present :: Pos(r, c)
  }

  /**
   The six neighbour references `updateNeighs` stores in the tile at `p`: direction `i`
   refers to `Step(p, i)` and is marked present exactly when that is an occupied real cell.
   */
  function Neighs(g: Grid, even: bool, p: Pos): (refs: seq<ThingRef>)
    requires IsGrid(g)
    ensures |refs| == 6
    ensures forall i :: 0 <= i < 6 ==> refs[i].pos == Step(p, i, even)
    ensures forall i :: 0 <= i < 6 ==> (refs[i].present <==> Step(p, i, even) in Occupancy(g, even))
  {
    seq(6, i requires 0 <= i < 6 => ThingRef(Step(p, i, even) in Occupancy(g, even), Step(p, i, even)))
  }

  /**
   The back-reference half of `updateNeighs`: an occupied neighbour of an occupied cell
   refers back to it in the reverse direction `TOGOI[i]`.
   */
  lemma NeighsBackReference(g: Grid, even: bool, p: Pos, i: int)
    requires IsGrid(g) && 0 <= i < 6 && p in Occupancy(g, even) && Neighs(g, even, p)[i].present
    ensures Step(p, i, even) in NeighbourSet(p, even)
    ensures Neighs(g, even, Neighs(g, even, p)[i].pos)[Reverse(i)] == ThingRef(true, p)
  {
    StepReverse(p, i, even);
  }

  /** The cells of `s` moved down by `off` rows (up when negative); what leaves the board is dropped. */
  function Translated(s: set<Pos>, off: int): set<Pos>
  {
    set p | p in s && 0 <= p.row + off < BOARD_HEIGHT :: Pos(p.row + off, p.col)
  }

  /** The parity flag after `shiftBoard(off)`: toggled iff `off` is odd. */
  function Toggled(even: bool, off: int): (e: bool)
    ensures e <==> even != (off % 2 != 0)
  {
    if off % 2 != 0 then !even else even
  }

  /**
   What the toggle is for: a row moved by `off` rows keeps its shape under the new flag,
   so a long row stays long and a short row stays short.
   */
  lemma ToggledKeepsWidth(even: bool, off: int, r: int)
    ensures Width(r + off, Toggled(even, off)) == Width(r, even)
  {
  }

  /**
   What a shift by `off` rows leaves in cell (r, c) when its row loop visits the rows
   `0 .. rows-1` and `even` is the already toggled flag. Rows the loop does not visit and
   columns beyond the row's width keep their tile; the rows the shift vacates are cleared
   by `removeTile`; every other cell receives, through `addTile`, the tile `off` rows
   away, repositioned.
   */
  function ShiftedTile(g: Grid, off: int, even: bool, rows: int, r: int, c: int): Tile
    requires IsGrid(g) && 0 <= r < BOARD_HEIGHT && 0 <= c < BOARD_WIDTH
  {
    if r >= rows || c >= Width(r, even) then g[r][c]
    else if r < off || r > BOARD_HEIGHT - 1 + off then Removed(g[r][c])
    else Placed(g[r - off][c], Pos(r, c), false)
  }

  /** The whole snapshot after such a shift. */
  function ShiftGrid(g: Grid, off: int, even: bool, rows: int): (h: Grid)
    requires IsGrid(g)
    ensures IsGrid(h)
    ensures forall r, c :: 0 <= r < BOARD_HEIGHT && 0 <= c < BOARD_WIDTH ==> h[r][c] == ShiftedTile(g, off, even, rows, r, c)
  {
    seq(BOARD_HEIGHT, r requires 0 <= r < BOARD_HEIGHT =>
      seq(BOARD_WIDTH, c requires 0 <= c < BOARD_WIDTH => ShiftedTile(g, off, even, rows, r, c)))
  }

  /**
   Translation correctness of `shiftBoard` when its loop visits every row: the occupied
   cells afterwards are exactly the occupied cells before, moved by `off` rows, minus those
   moved off the board; in particular the vacated rows are empty.
   */
  lemma ShiftTranslatesOccupancy(g: Grid, off: int, even: bool)
    requires IsGrid(g)
    ensures var e := Toggled(even, off);
            Occupancy(ShiftGrid(g, off, e, BOARD_HEIGHT), e) == Translated(Occupancy(g, even), off)
  {
    ShiftedWithinTranslated(g, off, even);
    TranslatedWithinShifted(g, off, even);
  }

  /** Nothing becomes occupied that was not occupied `off` rows away. */
  lemma ShiftedWithinTranslated(g: Grid, off: int, even: bool)
    requires IsGrid(g)
    ensures var e := Toggled(even, off);
            Occupancy(ShiftGrid(g, off, e, BOARD_HEIGHT), e) <= Translated(Occupancy(g, even), off)
  {
    var e := Toggled(even, off);
    forall q | q in Occupancy(ShiftGrid(g, off, e, BOARD_HEIGHT), e) ensures q in Translated(Occupancy(g, even), off) {
      ShiftedCellSource(g, off, even, q);
    }
  }

  /** Every occupied cell that stays on the board is still occupied at its new place. */
  lemma TranslatedWithinShifted(g: Grid, off: int, even: bool)
    requires IsGrid(g)
    ensures var e := Toggled(even, off);
            Translated(Occupancy(g, even), off) <= Occupancy(ShiftGrid(g, off, e, BOARD_HEIGHT), e)
  {
    forall q | q in Translated(Occupancy(g, even), off)
      ensures q in Occupancy(ShiftGrid(g, off, Toggled(even, off), BOARD_HEIGHT), Toggled(even, off))
    {
      var p :| p in Occupancy(g, even) && 0 <= p.row + off < BOARD_HEIGHT && q == Pos(p.row + off, p.col);
      ShiftedCellTarget(g, off, even, p);
    }
  }

  /** An occupied cell after the shift came from an occupied cell `off` rows away. */
  lemma ShiftedCellSource(g: Grid, off: int, even: bool, q: Pos)
    requires IsGrid(g)
    requires var e := Toggled(even, off); q in Occupancy(ShiftGrid(g, off, e, BOARD_HEIGHT), e)
    ensures Pos(q.row - off, q.col) in Occupancy(g, even) && 0 <= q.row < BOARD_HEIGHT
  {
    var e := Toggled(even, off);
    var t := ShiftGrid(g, off, e, BOARD_HEIGHT)[q.row][q.col];
    assert CheckBounds(e, q) && t.ref.present;
    assert t == ShiftedTile(g, off, e, BOARD_HEIGHT, q.row, q.col);
    assert 0 <= q.row - off < BOARD_HEIGHT && t == Placed(g[q.row - off][q.col], q, false);
    ShiftedBounds(Pos(q.row - off, q.col), off, even);
  }

  /** An occupied cell that stays on the board is occupied at its new place after the shift. */
  lemma ShiftedCellTarget(g: Grid, off: int, even: bool, p: Pos)
    requires IsGrid(g) && p in Occupancy(g, even) && 0 <= p.row + off < BOARD_HEIGHT
    ensures var e := Toggled(even, off); Pos(p.row + off, p.col) in Occupancy(ShiftGrid(g, off, e, BOARD_HEIGHT), e)
  {
    var e := Toggled(even, off);
    ShiftedBounds(p, off, even);
    assert ShiftGrid(g, off, e, BOARD_HEIGHT)[p.row + off][p.col] == ShiftedTile(g, off, e, BOARD_HEIGHT, p.row + off, p.col);
  }

  /** A shift followed by the opposite shift gives every surviving real cell its payload and occupancy back. */
  lemma ShiftRoundTrip(g: Grid, off: int, even: bool, p: Pos)
    requires IsGrid(g) && CheckBounds(even, p) && 0 <= p.row + off < BOARD_HEIGHT
    ensures var e := Toggled(even, off);
            var back := ShiftGrid(ShiftGrid(g, off, e, BOARD_HEIGHT), -off, Toggled(e, -off), BOARD_HEIGHT);
            Toggled(e, -off) == even &&
            back[p.row][p.col].thing == g[p.row][p.col].thing &&
            back[p.row][p.col].ref.present == g[p.row][p.col].ref.present
  {
    var e := Toggled(even, off);
    assert (-off) % 2 == off % 2 by {
      if off % 2 == 0 { assert -off == 2 * (-(off / 2)); } else { assert -off == 2 * (-(off / 2) - 1) + 1; }
    }
    ShiftedBounds(p, off, even);
  }

  /**
   The upward branch as written visits only rows `0 .. BOARD_HEIGHT-2`: a tile in the
   bottom row survives a shift by -1, although after the move nothing may lie there.
   */
  lemma ShiftUpSkipsLastRow(g: Grid, even: bool)
    requires IsGrid(g) && g[BOARD_HEIGHT - 1][0].ref.present
    ensures var e := Toggled(even, -1);
            var asWritten := ShiftGrid(g, -1, e, BOARD_HEIGHT - 1);
            Pos(BOARD_HEIGHT - 1, 0) in Occupancy(asWritten, e) &&
            Pos(BOARD_HEIGHT - 1, 0) !in Translated(Occupancy(g, even), -1) &&
            Occupancy(asWritten, e) != Translated(Occupancy(g, even), -1)
  {
  }

  /** No real cell of row `r` of the snapshot is occupied. */
  ghost predicate GridRowEmpty(g: Grid, even: bool, r: int)
    requires IsGrid(g) && 0 <= r < BOARD_HEIGHT
  {
    forall c :: 0 <= c < Width(r, even) ==> !g[r][c].ref.present
  }

  /** No row of the zero-initialised storage holds a tile, whatever the parity. */
  lemma BlankRowsEmpty(even: bool)
    ensures forall r :: 0 <= r < BOARD_HEIGHT ==> GridRowEmpty(Blank(), even, r)
  {
  }

  /** Every real cell of row `r` of the snapshot is occupied. */
  ghost predicate GridRowFull(g: Grid, even: bool, r: int)
    requires IsGrid(g) && 0 <= r < BOARD_HEIGHT
  {
    forall c :: 0 <= c < Width(r, even) ==> g[r][c].ref.present
  }

  /** How many full rows of `g` the upward walk of `addTile` passes from `row`; it never tests row 0. */
  ghost function GridFullRun(g: Grid, even: bool, row: int): nat
    requires IsGrid(g) && row < BOARD_HEIGHT
    decreases row
  {
    if row > 0 && GridRowFull(g, even, row) then 1 + GridFullRun(g, even, row - 1) else 0
  }

  /**
   The empty rows at the bottom of `g`, counted upward from the `k`-th row from the
   bottom and stopping at the first row that holds a tile.
   */
  ghost function EmptyBelow(g: Grid, even: bool, k: int): (n: int)
    requires IsGrid(g) && 0 <= k <= BOARD_HEIGHT
    ensures k <= n <= BOARD_HEIGHT
    decreases BOARD_HEIGHT - k
  {
    if k < BOARD_HEIGHT && GridRowEmpty(g, even, BOARD_HEIGHT - 1 - k) then EmptyBelow(g, even, k + 1) else k
  }

  /** The rows `EmptyBelow` passes are empty, and it stops at a row holding a tile or at the top. */
  lemma {:induction false} EmptyBelowSpec(g: Grid, even: bool, k: int)
    requires IsGrid(g) && 0 <= k <= BOARD_HEIGHT
    ensures var n := EmptyBelow(g, even, k);
            && (forall r :: BOARD_HEIGHT - n <= r < BOARD_HEIGHT - k ==> GridRowEmpty(g, even, r))
            && (n < BOARD_HEIGHT ==> !GridRowEmpty(g, even, BOARD_HEIGHT - 1 - n))
    decreases BOARD_HEIGHT - k
  {
    if k < BOARD_HEIGHT && GridRowEmpty(g, even, BOARD_HEIGHT - 1 - k) {
      EmptyBelowSpec(g, even, k + 1);
    }
  }

  /** The number of empty rows at the bottom of `g`. */
  ghost function EmptyRows(g: Grid, even: bool): (n: int)
    requires IsGrid(g)
    ensures 0 <= n <= BOARD_HEIGHT
  {
    EmptyBelow(g, even, 0)
  }

  /**
   What `EmptyRows` counts: the bottom `n` rows hold no tile and, unless the whole board
   is empty, the row above them holds one.
   */
  lemma EmptyRowsSpec(g: Grid, even: bool)
    requires IsGrid(g)
    ensures var n := EmptyRows(g, even);
            && (forall r :: BOARD_HEIGHT - n <= r < BOARD_HEIGHT ==> GridRowEmpty(g, even, r))
            && (n < BOARD_HEIGHT ==> !GridRowEmpty(g, even, BOARD_HEIGHT - 1 - n))
  {
    EmptyBelowSpec(g, even, 0);
  }

  /** Those two facts pin the count down: any `n` with them is `EmptyRows`. */
  lemma EmptyRowsUnique(g: Grid, even: bool, n: int)
    requires IsGrid(g) && 0 <= n <= BOARD_HEIGHT
    requires forall r :: BOARD_HEIGHT - n <= r < BOARD_HEIGHT ==> GridRowEmpty(g, even, r)
    requires n < BOARD_HEIGHT ==> !GridRowEmpty(g, even, BOARD_HEIGHT - 1 - n)
    ensures n == EmptyRows(g, even)
  {
    EmptyRowsSpec(g, even);
  }

  /** A downward shift by `off` leaves its top `off` rows empty. */
  lemma ShiftedTopEmpty(g: Grid, off: int, even: bool, r: int)
    requires IsGrid(g) && 0 <= r < off
    ensures var e := Toggled(even, off);
            r < BOARD_HEIGHT ==> GridRowEmpty(ShiftGrid(g, off, e, BOARD_HEIGHT), e, r)
  {
    var e := Toggled(even, off);
    if r < BOARD_HEIGHT {
      var h: Grid := ShiftGrid(g, off, e, BOARD_HEIGHT);
      forall c | 0 <= c < Width(r, e) ensures !h[r][c].ref.present {
        assert h[r][c] == Removed(g[r][c]);
      }
    }
  }

  /** After a downward shift by `off`, row `r` is empty exactly when row `r - off` was. */
  lemma ShiftedRowEmpty(g: Grid, off: int, even: bool, r: int)
    requires IsGrid(g) && 0 <= off <= r < BOARD_HEIGHT
    ensures var e := Toggled(even, off);
            GridRowEmpty(ShiftGrid(g, off, e, BOARD_HEIGHT), e, r) <==> GridRowEmpty(g, even, r - off)
  {
    var e := Toggled(even, off);
    var h: Grid := ShiftGrid(g, off, e, BOARD_HEIGHT);
    ShiftedWidth(r - off, off, even);
    assert Width(r, e) == Width(r - off, even);
    var src := g[r - off];
    forall c: int | 0 <= c < Width(r, e) ensures h[r][c].ref.present == src[c].ref.present {
      assert h[r][c] == ShiftedTile(g, off, e, BOARD_HEIGHT, r, c);
    }
    if GridRowEmpty(g, even, r - off) {
      forall c | 0 <= c < Width(r, e) ensures !h[r][c].ref.present {
        assert !src[c].ref.present;
      }
    }
    if GridRowEmpty(h, e, r) {
      forall c | 0 <= c < Width(r - off, even) ensures !src[c].ref.present {
        assert !h[r][c].ref.present;
      }
    }
  }

  /** The snapshot with every listed cell's occupancy cleared, as `removeTile` leaves it. */
  function Cleared(g: Grid, cells: seq<Pos>): (h: Grid)
    requires IsGrid(g)
    ensures IsGrid(h)
    ensures forall r, c :: 0 <= r < BOARD_HEIGHT && 0 <= c < BOARD_WIDTH ==>
              h[r][c] == if Pos(r, c) in cells then Removed(g[r][c]) else g[r][c]
  {
    seq(BOARD_HEIGHT, r requires 0 <= r < BOARD_HEIGHT =>
      seq(BOARD_WIDTH, c requires 0 <= c < BOARD_WIDTH => if Pos(r, c) in cells then Removed(g[r][c]) else g[r][c]))
  }

  /** Clearing one list and then another is clearing both: a cell listed twice is cleared once. */
  lemma ClearedTwice(g: Grid, a: seq<Pos>, b: seq<Pos>)
    requires IsGrid(g)
    ensures Cleared(Cleared(g, a), b) == Cleared(g, a + b)
  {
    var x := Cleared(Cleared(g, a), b);
    var y := Cleared(g, a + b);
    forall r | 0 <= r < BOARD_HEIGHT ensures x[r] == y[r] {
      forall c | 0 <= c < BOARD_WIDTH ensures x[r][c] == y[r][c] {
        assert Pos(r, c) in a + b <==> Pos(r, c) in a || Pos(r, c) in b;
      }
    }
  }

  /** The snapshot `g` with every listed cell placed back at its own coordinate, occupancy forced. */
  function Restored(g: Grid, cells: seq<Pos>): (h: Grid)
    requires IsGrid(g)
    ensures IsGrid(h)
    ensures forall r, c :: 0 <= r < BOARD_HEIGHT && 0 <= c < BOARD_WIDTH ==>
              h[r][c] == if Pos(r, c) in cells then Placed(g[r][c], Pos(r, c), true) else g[r][c]
  {
    seq(BOARD_HEIGHT, r requires 0 <= r < BOARD_HEIGHT =>
      seq(BOARD_WIDTH, c requires 0 <= c < BOARD_WIDTH => if Pos(r, c) in cells then Placed(g[r][c], Pos(r, c), true) else g[r][c]))
  }

  /**
   Clearing is undone by placing back with occupancy forced: when every listed cell was
   occupied and knew its own coordinate, restoring the cleared snapshot gives the
   snapshot back.
   */
  lemma ClearedRestored(g: Grid, cells: seq<Pos>)
    requires IsGrid(g)
    requires forall q :: q in cells ==> InArray(q) && g[q.row][q.col].ref == ThingRef(true, q)
    ensures Restored(Cleared(g, cells), cells) == g
  {
    var h := Restored(Cleared(g, cells), cells);
    forall r | 0 <= r < BOARD_HEIGHT ensures h[r] == g[r] {
      forall c | 0 <= c < BOARD_WIDTH ensures h[r][c] == g[r][c] {
        if Pos(r, c) in cells {
          assert g[r][c].ref == ThingRef(true, Pos(r, c));
        }
      }
    }
  }

  /**
   `nFulRowsTop` after `removeTile` on each listed cell in turn, starting from `top`: a
   removal below the packed region's end pulls the end down to just past the removed cell.
   */
  function TopAfterRemovals(top: int, cells: seq<Pos>): (t: int)
    ensures t <= top
    decreases |cells|
  {
    if cells == [] then top
    else Min(TopAfterRemovals(top, cells[..|cells| - 1]), cells[|cells| - 1].row + 1)
  }

  /** Removing one list and then another moves the end as removing their concatenation does. */
  lemma {:induction false} TopAfterRemovalsAppend(top: int, a: seq<Pos>, b: seq<Pos>)
    ensures TopAfterRemovals(TopAfterRemovals(top, a), b) == TopAfterRemovals(top, a + b)
    decreases |b|
  {
    if b == [] {
      assert a + b == a;
    } else {
      assert (a + b)[..|a + b| - 1] == a + b[..|b| - 1];
      TopAfterRemovalsAppend(top, a, b[..|b| - 1]);
    }
  }

  /**
   The order of removal does not matter: the end becomes the least of `top` and one past
   each listed cell's row.
   */
  lemma {:induction false} TopAfterRemovalsLeast(top: int, cells: seq<Pos>)
    ensures forall q :: q in cells ==> TopAfterRemovals(top, cells) <= q.row + 1
    ensures TopAfterRemovals(top, cells) == top || exists q :: q in cells && TopAfterRemovals(top, cells) == q.row + 1
    decreases |cells|
  {
    if cells != [] {
      var init := cells[..|cells| - 1];
      TopAfterRemovalsLeast(top, init);
      assert cells == init + [cells[|cells| - 1]];
    }
  }

  class Board {
    /** `things`: row-major storage; only the columns below `Width(row, even)` are real. */
    const things: array2<Tile>
    /** `nFulRowsTop`: one past the last row of the packed region at the top. */
    var nFulRowsTop: int
    /** `even`: the parity flag, toggled by every shift of odd length. */
    var even: bool
    /** `nRowsGap`: how many empty rows `checkLines` keeps at the bottom; set once, never written. */
    const nRowsGap: int

    /** The storage has the board's dimensions and every occupied cell knows its coordinate. */
    ghost predicate Valid()
      reads things
    {
      && things.Length0 == BOARD_HEIGHT && things.Length1 == BOARD_WIDTH
      && forall r, c :: 0 <= r < BOARD_HEIGHT && 0 <= c < BOARD_WIDTH && things[r, c].ref.present ==>
           things[r, c].ref.pos == Pos(r, c)
    }

    /** A zero-initialised board: nothing occupied, no packed rows, parity flag clear. */
    constructor (gap: int)
      ensures Valid() && fresh(things)
      ensures nFulRowsTop == 0 && !even && nRowsGap == gap
      ensures Grid() == Blank()
    {
      things := new Tile[BOARD_HEIGHT, BOARD_WIDTH]((r, c) => EMPTY_TILE);
      nFulRowsTop := 0;
      even := false;
      nRowsGap := gap;
      new;
      GridIs(Blank());
    }

    function At(p: Pos): Tile
      reads things
      requires Valid() && InArray(p)
    {
      things[p.row, p.col]
    }

    /** The storage as a value. */
    function Grid(): (g: Grid)
      reads things
      requires Valid()
      ensures IsGrid(g)
      ensures forall r, c :: 0 <= r < BOARD_HEIGHT && 0 <= c < BOARD_WIDTH ==> g[r][c] == things[r, c]
    {
      seq(BOARD_HEIGHT, r requires 0 <= r < things.Length0 reads things =>
        seq(BOARD_WIDTH, c requires 0 <= c < things.Length1 reads things => things[r, c]))
    }

    /** A real cell holding a tile. */
    predicate Occupied(p: Pos)
      reads this`even, things
      requires Valid()
    {
      CheckBounds(even, p) && things[p.row, p.col].ref.present
    }

    /** Every real cell of `row` is occupied. */
    ghost predicate RowFull(row: int)
      reads this`even, things
      requires Valid() && 0 <= row < BOARD_HEIGHT
    {
      forall c :: 0 <= c < Width(row, even) ==> things[row, c].ref.present
    }

    /** No real cell of `row` is occupied. */
    ghost predicate RowEmpty(row: int)
      reads this`even, things
      requires Valid() && 0 <= row < BOARD_HEIGHT
    {
      forall c :: 0 <= c < Width(row, even) ==> !things[row, c].ref.present
    }

    /** The bottom `k` rows are empty. */
    ghost predicate BottomEmpty(k: int)
      reads this`even, things
      requires Valid()
    {
      forall r :: 0 <= r < BOARD_HEIGHT && BOARD_HEIGHT - k <= r ==> RowEmpty(r)
    }

    /** More than `nRowsGap` empty rows lie at the bottom: what makes `checkLines` move the board. */
    ghost predicate Surplus()
      reads this, things
      requires Valid()
    {
      nRowsGap < BOARD_HEIGHT && BottomEmpty(nRowsGap + 1)
    }

    /** How many full rows the upward walk of `addTile` passes from `row`; it never tests row 0. */
    ghost function FullRun(row: int): nat
      reads this`even, things
      requires Valid() && row < BOARD_HEIGHT
      decreases row
    {
      if row > 0 && RowFull(row) then 1 + FullRun(row - 1) else 0
    }

    /**
     `countBotEmpRows`: the number `n` of empty rows at the bottom, scanning upward and
     stopping at the first row that holds a tile.
     */
    method CountBotEmpRows() returns (n: int)
      requires Valid()
      ensures n == EmptyRows(Grid(), even)
      ensures 0 <= n <= BOARD_HEIGHT
      ensures forall r :: BOARD_HEIGHT - n <= r < BOARD_HEIGHT ==> RowEmpty(r)
      ensures n < BOARD_HEIGHT ==> !RowEmpty(BOARD_HEIGHT - 1 - n)
    {
      n := 0;
      var keep := true;
      var row := BOARD_HEIGHT - 1;
      while row >= 0
        invariant -1 <= row < BOARD_HEIGHT && n == BOARD_HEIGHT - 1 - row && keep
        invariant forall r :: row < r < BOARD_HEIGHT ==> RowEmpty(r)
      {
        var col := 0;
        while col < BOARD_WIDTH - Parity(row, even)
          invariant 0 <= col <= Width(row, even) && keep
          invariant forall c :: 0 <= c < col ==> !things[row, c].ref.present
        {
          if things[row, col].ref.present {
            keep := false;
            break;
          }
          col := col + 1;
        }
        if !keep {
          break;
        }
        n := n + 1;
        row := row - 1;
      }
      ghost var g := Grid();
      forall r | BOARD_HEIGHT - n <= r < BOARD_HEIGHT ensures GridRowEmpty(g, even, r) {
        RowEmptyIs(g, r);
      }
      if n < BOARD_HEIGHT {
        RowEmptyIs(g, BOARD_HEIGHT - 1 - n);
      }
      EmptyRowsUnique(g, even, n);
    }

    /** `checkFullRow`: whether every real cell of `row` is occupied. */
    method CheckFullRow(row: int) returns (fullrow: bool)
      requires Valid() && 0 <= row < BOARD_HEIGHT
      ensures fullrow <==> RowFull(row)
    {
      fullrow := true;
      var i := 0;
      while i < BOARD_WIDTH - Parity(row, even)
        invariant 0 <= i <= Width(row, even) && fullrow
        invariant forall c :: 0 <= c < i ==> things[row, c].ref.present
      {
        if !things[row, i].ref.present {
          fullrow := false;
          break;
        }
        i := i + 1;
      }
    }

    /**
     `addTile`: writes `tile` at `pos` with its coordinate set (and occupancy forced when
     `makeExist`), then, when `updateFullRows`, walks up over full rows (never testing row
     0) and moves `nFulRowsTop` to `pos.row + 1` if that walk reached the packed region.
     */
    method AddTile(pos: Pos, tile: Tile, updateFullRows: bool := true, makeExist: bool := false)
      requires Valid() && InArray(pos)
      modifies this`nFulRowsTop, things
      ensures Valid() && even == old(even)
      ensures Grid() == Put(old(Grid()), pos, Placed(tile, pos, makeExist))
      ensures var run := FullRun(pos.row);
              nFulRowsTop == if updateFullRows && run > 0 && pos.row - run <= old(nFulRowsTop)
                             then pos.row + 1 else old(nFulRowsTop)
    {
      ghost var g: Grid := Grid();
      things[pos.row, pos.col] := Placed(tile, pos, makeExist);
      GridIs(Put(g, pos, Placed(tile, pos, makeExist)));
      if updateFullRows {
        var i := CountFullRun(pos.row);
        if i > 0 && pos.row - i <= nFulRowsTop {
          nFulRowsTop := pos.row + 1;
        }
      }
    }

    /**
     The upward walk of `addTile`: starting at `row`, counts the full rows it passes,
     stopping at the first row that is not full and never testing row 0.
     */
    method CountFullRun(row: int) returns (i: int)
      requires Valid() && 0 <= row < BOARD_HEIGHT
      ensures 0 <= i <= row && i == FullRun(row)
      ensures forall r :: row - i < r <= row ==> RowFull(r)
      ensures row - i > 0 ==> !RowFull(row - i)
    {
      i := 0;
      while row - i > 0
        invariant 0 <= i <= row
        invariant FullRun(row) == i + FullRun(row - i)
        invariant forall r :: row - i < r <= row ==> RowFull(r)
      {
        var full := CheckFullRow(row - i);
        if !full {
          break;
        }
        i := i + 1;
      }
    }

    /**
     `removeTile`: clears the occupancy of `pos`; when `pos` lies in the packed region the
     region is cut back to end at `pos.row + 1`, so `nFulRowsTop` never grows.
     */
    method RemoveTile(pos: Pos)
      requires Valid() && InArray(pos)
      modifies this`nFulRowsTop, things
      ensures Valid() && even == old(even)
      ensures things[pos.row, pos.col] == Removed(old(things[pos.row, pos.col]))
      ensures forall r, c :: 0 <= r < BOARD_HEIGHT && 0 <= c < BOARD_WIDTH && (r != pos.row || c != pos.col) ==>
                things[r, c] == old(things[r, c])
      ensures nFulRowsTop == Min(old(nFulRowsTop), pos.row + 1)
    {
      things[pos.row, pos.col] := Removed(things[pos.row, pos.col]);
      if pos.row < nFulRowsTop {
        nFulRowsTop := pos.row + 1;
      }
    }

    /**
     `shiftBoard`: toggles the parity flag when `off` is odd, then moves every row by
     `off` (down when positive, visiting rows bottom-up so that each source row is read
     before it is overwritten; up when negative, visiting rows top-down), clearing the
     rows that are vacated. Every write goes through `addTile`/`removeTile`, so the
     packed-region count is reset: after a downward shift it is at most 1.
     */
    method ShiftBoard(off: int)
      requires Valid()
      modifies this`even, this`nFulRowsTop, things
      ensures Valid() && even == Toggled(old(even), off)
      ensures Grid() == ShiftGrid(old(Grid()), off, even, BOARD_HEIGHT)
      ensures old(nFulRowsTop) >= 0 ==> nFulRowsTop >= 0
      ensures off > 0 ==> nFulRowsTop <= 1
      ensures off > 0 && old(nFulRowsTop) > 0 ==> nFulRowsTop == 1
    {
      if off % 2 != 0 {
        even := !even;
      }
      if off < 0 {
        ShiftUp(off);
      } else {
        ShiftDown(off);
      }
    }

    /** The upward branch of `shiftBoard`: rows visited top-down, each receiving the row `-off` below it. */
    method ShiftUp(off: int)
      requires Valid() && off < 0
      modifies this`nFulRowsTop, things
      ensures Valid() && even == old(even)
      ensures Grid() == ShiftGrid(old(Grid()), off, even, BOARD_HEIGHT)
      ensures old(nFulRowsTop) >= 0 ==> nFulRowsTop >= 0
    {
      ghost var g := Grid();
      ghost var nt := nFulRowsTop;
      var row := 0;
      while row < BOARD_HEIGHT
        invariant 0 <= row <= BOARD_HEIGHT
        invariant Valid() && even == old(even)
        invariant nt >= 0 ==> nFulRowsTop >= 0
        invariant forall r, c :: 0 <= r < BOARD_HEIGHT && 0 <= c < BOARD_WIDTH ==>
                    things[r, c] == if r < row then ShiftedTile(g, off, even, BOARD_HEIGHT, r, c) else g[r][c]
      {
        var col := 0;
        while col < BOARD_WIDTH - Parity(row, even)
          invariant 0 <= col <= Width(row, even)
          invariant Valid() && even == old(even)
          invariant nt >= 0 ==> nFulRowsTop >= 0
          invariant forall r, c :: 0 <= r < BOARD_HEIGHT && 0 <= c < BOARD_WIDTH ==>
                      things[r, c] == if r < row || (r == row && c < col) then ShiftedTile(g, off, even, BOARD_HEIGHT, r, c) else g[r][c]
        {
          if row > BOARD_HEIGHT + off - 1 {
            RemoveTile(Pos(row, col));
          } else {
            AddTile(Pos(row, col), things[row - off, col]);
          }
          col := col + 1;
        }
        row := row + 1;
      }
      GridIs(ShiftGrid(g, off, even, BOARD_HEIGHT));
    }

    /** The downward branch of `shiftBoard`: rows visited bottom-up, each receiving the row `off` above it. */
    method ShiftDown(off: int)
      requires Valid() && off >= 0
      modifies this`nFulRowsTop, things
      ensures Valid() && even == old(even)
      ensures Grid() == ShiftGrid(old(Grid()), off, even, BOARD_HEIGHT)
      ensures old(nFulRowsTop) >= 0 ==> nFulRowsTop >= 0
      ensures off > 0 ==> nFulRowsTop <= 1
      ensures off > 0 && old(nFulRowsTop) > 0 ==> nFulRowsTop == 1
    {
      ghost var g := Grid();
      ghost var nt := nFulRowsTop;
      var row := BOARD_HEIGHT - 1;
      while row >= 0
        invariant -1 <= row < BOARD_HEIGHT
        invariant Valid() && even == old(even)
        invariant nt >= 0 ==> nFulRowsTop >= 0
        invariant nt > 0 ==> nFulRowsTop > 0
        invariant row < 0 && off > 0 ==> nFulRowsTop <= 1
        invariant forall r, c :: 0 <= r < BOARD_HEIGHT && 0 <= c < BOARD_WIDTH ==>
                    things[r, c] == if r > row then ShiftedTile(g, off, even, BOARD_HEIGHT, r, c) else g[r][c]
      {
        var col := 0;
        while col < BOARD_WIDTH - Parity(row, even)
          invariant 0 <= col <= Width(row, even)
          invariant Valid() && even == old(even)
          invariant nt >= 0 ==> nFulRowsTop >= 0
          invariant nt > 0 ==> nFulRowsTop > 0
          invariant row == 0 && col > 0 && off > 0 ==> nFulRowsTop <= 1
          invariant forall r, c :: 0 <= r < BOARD_HEIGHT && 0 <= c < BOARD_WIDTH ==>
                      things[r, c] == if r > row || (r == row && c < col) then ShiftedTile(g, off, even, BOARD_HEIGHT, r, c) else g[r][c]
        {
          if row < off {
            RemoveTile(Pos(row, col));
          } else {
            AddTile(Pos(row, col), things[row - off, col]);
          }
          col := col + 1;
        }
        row := row - 1;
      }
      GridIs(ShiftGrid(g, off, even, BOARD_HEIGHT));
    }

    /**
     The walk passes no more rows than there are above its start (row 0 is never tested),
     and it passes any only when the starting row is full.
     */
    lemma {:induction false} FullRunBound(row: int)
      requires Valid() && row < BOARD_HEIGHT
      ensures FullRun(row) <= if row > 0 then row else 0
      ensures FullRun(row) > 0 ==> RowFull(row)
      decreases row
    {
      if row > 0 && RowFull(row) {
        FullRunBound(row - 1);
      }
    }

    /** When rows `1 .. row` are all full the walk from `row` passes all of them. */
    lemma {:induction false} FullRunOfFullRows(row: int)
      requires Valid() && 0 <= row < BOARD_HEIGHT
      requires forall r :: 1 <= r <= row ==> RowFull(r)
      ensures FullRun(row) == row
      decreases row
    {
      if row > 0 {
        FullRunOfFullRows(row - 1);
      }
    }

    /**
     The first loop of the cluster handling in `checkDrop` (and each loop of `doDrop`):
     `removeTile` on every listed cell, in order.
     */
    method RemoveAll(cells: Arena<Pos>)
      requires Valid() && cells.Valid()
      requires forall i :: 0 <= i < cells.count ==> InArray(cells.data[i])
      modifies this`nFulRowsTop, things
      ensures Valid() && even == old(even)
      ensures Grid() == Cleared(old(Grid()), cells.Contents())
      ensures nFulRowsTop == TopAfterRemovals(old(nFulRowsTop), cells.Contents())
      ensures old(nFulRowsTop) >= 0 ==> nFulRowsTop >= 0
    {
      ghost var g := Grid();
      var i := 0;
      while i < cells.count
        invariant 0 <= i <= cells.count
        invariant Valid() && even == old(even)
        invariant nFulRowsTop == TopAfterRemovals(old(nFulRowsTop), cells.data[..i])
        invariant old(nFulRowsTop) >= 0 ==> nFulRowsTop >= 0
        invariant forall r, c :: 0 <= r < BOARD_HEIGHT && 0 <= c < BOARD_WIDTH ==>
                    things[r, c] == if Pos(r, c) in cells.data[..i] then Removed(g[r][c]) else g[r][c]
      {
        assert cells.data[..i + 1] == cells.data[..i] + [cells.data[i]];
        assert cells.data[..i + 1][..i] == cells.data[..i];
        RemoveTile(cells.Get(i));
        i := i + 1;
      }
      assert cells.data[..i] == cells.Contents();
      GridIs(Cleared(g, cells.Contents()));
    }

    /**
     The restoring loop of `checkDrop`: `addTile` of every listed cell's own current tile
     with occupancy forced.
     */
    method RestoreAll(cells: Arena<Pos>)
      requires Valid() && cells.Valid()
      requires forall i :: 0 <= i < cells.count ==> InArray(cells.data[i])
      modifies this`nFulRowsTop, things
      ensures Valid() && even == old(even)
      ensures Grid() == Restored(old(Grid()), cells.Contents())
      ensures old(nFulRowsTop) >= 0 ==> nFulRowsTop >= 0
    {
      ghost var g := Grid();
      var i := 0;
      while i < cells.count
        invariant 0 <= i <= cells.count
        invariant Valid() && even == old(even)
        invariant old(nFulRowsTop) >= 0 ==> nFulRowsTop >= 0
        invariant forall r, c :: 0 <= r < BOARD_HEIGHT && 0 <= c < BOARD_WIDTH ==>
                    things[r, c] == if Pos(r, c) in cells.data[..i] then Placed(old(things[r, c]), Pos(r, c), true) else old(things[r, c])
      {
        assert cells.data[..i + 1] == cells.data[..i] + [cells.data[i]];
        var p := cells.Get(i);
        AddTile(p, things[p.row, p.col], true, true);
        i := i + 1;
      }
      assert cells.data[..i] == cells.Contents();
      GridIs(Restored(g, cells.Contents()));
    }

    /** A row of the storage is empty exactly when the same row of a snapshot that agrees with it is. */
    lemma RowEmptyIs(h: Grid, r: int)
      requires Valid() && IsGrid(h) && 0 <= r < BOARD_HEIGHT
      requires forall c :: 0 <= c < BOARD_WIDTH ==> things[r, c] == h[r][c]
      ensures RowEmpty(r) <==> GridRowEmpty(h, even, r)
    {
    }

    /** The bottom `k` rows of the storage are empty exactly when its snapshot has at least `k` empty bottom rows, or no tile at all. */
    lemma BottomEmptyRows(k: int)
      requires Valid()
      ensures BottomEmpty(k) <==> k <= EmptyRows(Grid(), even) || EmptyRows(Grid(), even) == BOARD_HEIGHT
    {
      var g := Grid();
      var m := EmptyRows(g, even);
      EmptyRowsSpec(g, even);
      if k <= m || m == BOARD_HEIGHT {
        forall r | 0 <= r < BOARD_HEIGHT && BOARD_HEIGHT - k <= r ensures RowEmpty(r) {
          RowEmptyIs(g, r);
        }
      } else {
        RowEmptyIs(g, BOARD_HEIGHT - 1 - m);
      }
    }

    /** When rows `1 .. row` of the storage are full, the walk of `addTile` from `row` passes all of them. */
    lemma FullRunOfGrid(row: int, h: Grid)
      requires Valid() && IsGrid(h) && Grid() == h && 1 <= row < BOARD_HEIGHT
      requires forall r :: 1 <= r <= row ==> GridRowFull(h, even, r)
      ensures FullRun(row) == row
    {
      forall r | 1 <= r <= row ensures RowFull(r) {
        assert GridRowFull(h, even, r);
      }
      FullRunOfFullRows(row);
    }

    /** The walk over the storage is the walk over its snapshot. */
    lemma {:induction false} FullRunIsGrid(row: int)
      requires Valid() && row < BOARD_HEIGHT
      ensures FullRun(row) == GridFullRun(Grid(), even, row)
      decreases row
    {
      if row > 0 {
        assert RowFull(row) <==> GridRowFull(Grid(), even, row);
        FullRunIsGrid(row - 1);
      }
    }

    /** When `row` itself is not full the walk of `addTile` from it passes nothing. */
    lemma FullRunBlocked(row: int, h: Grid)
      requires Valid() && IsGrid(h) && Grid() == h && 0 <= row < BOARD_HEIGHT
      requires !GridRowFull(h, even, row)
      ensures FullRun(row) == 0
    {
    }

    /** The storage equals a snapshot when every cell does. */
    lemma GridIs(h: Grid)
      requires Valid() && IsGrid(h)
      requires forall r, c :: 0 <= r < BOARD_HEIGHT && 0 <= c < BOARD_WIDTH ==> things[r, c] == h[r][c]
      ensures Grid() == h
    {
      forall r | 0 <= r < BOARD_HEIGHT ensures Grid()[r] == h[r] {
        assert forall c :: 0 <= c < BOARD_WIDTH ==> Grid()[r][c] == h[r][c];
      }
    }
  }
}
