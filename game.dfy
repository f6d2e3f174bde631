/**
 The game state of src/game.cpp and the operations that drive the board: row generation
 from the seeded draws, the scroll-and-refill of `checkLines`, the cluster resolution of
 `checkDrop` and `doDrop`, the discrete transitions of the bullet in `flyBullet`, the gun
 queue, the best-score rule of `gameOver` and the two settings rules. Floating-point
 motion, timing, particles and drawing are not part of the model; where the source
 decides something geometrically (a hit, leaving the screen, the end of the rebounce) the
 outcome is a boolean parameter.
 */
module Game {
  import opened Hex
  import opened Arenas
  import opened Boards
  import opened Anchoring
  import opened Matching
  import opened Guns

  /** `GameState::UserData`: the persisted settings and best score. */
  datatype UserData = UserData(nParams: int, bestScore: int, velEnabled: bool, accEnabled: bool, musEnabled: bool)

  /** The largest value of `int`: the bound of the initial seed `rand() % INT_MAX`. */
  const INT_MAX: int := 0x7FFF_FFFF

  /** The seed the draws for cell (r, c) start from when generation starts at seed `s`: three draws per real cell before it. */
  function CellSeed(s: nat, even: bool, r: nat, c: nat): (t: nat)
    ensures t == s + 3 * CellsBefore(r, even) + 3 * c
  {
    s + 3 * (CellsBefore(r, even) + c)
  }

  /**
   The draws run in row-major order: the next cell of a row starts three draws after this
   one, and the first cell of the next row starts three draws per real cell of this row
   after this row's first cell.
   */
  lemma CellSeedSuccession(s: nat, even: bool, r: nat, c: nat)
    ensures CellSeed(s, even, r, c + 1) == CellSeed(s, even, r, c) + 3
    ensures CellSeed(s, even, r + 1, 0) == CellSeed(s, even, r, 0) + 3 * Width(r, even)
  {
    CellsBeforeNext(r, even);
  }

  /** The payloads of `k` consecutive cells whose draws start at seed `s`, three draws per cell; `pay` gives the payload of the draws from a seed. */
  function RowThings(pay: nat -> Thing, s: nat, k: nat): (ts: seq<Thing>)
    ensures |ts| == k
  {
    if k == 0 then [] else RowThings(pay, s, k - 1) + [pay(s + 3 * (k - 1))]
  }

  /** A run grows by the payload of the next cell's draws. */
  lemma RowThingsNext(pay: nat -> Thing, s: nat, k: nat, t: Thing)
    requires t == pay(s + 3 * k)
    ensures RowThings(pay, s, k) + [t] == RowThings(pay, s, k + 1)
  {
  }

  /** Cell `c` of such a run holds the payload of the draws starting `3 * c` after `s`. */
  lemma {:induction false} RowThingsAt(pay: nat -> Thing, s: nat, k: nat)
    ensures forall c :: 0 <= c < k ==> RowThings(pay, s, k)[c] == pay(s + 3 * c)
  {
    if k > 0 {
      RowThingsAt(pay, s, k - 1);
    }
  }

  /** The snapshot `g` with the first `|ts|` cells of `row` holding the payloads `ts`, each occupied and knowing its coordinate. */
  function PutRow(g: Grid, row: int, ts: seq<Thing>): (h: Grid)
    requires IsGrid(g) && 0 <= row < BOARD_HEIGHT && |ts| <= BOARD_WIDTH
    ensures IsGrid(h)
  {
    g[row := seq(BOARD_WIDTH, c requires 0 <= c < BOARD_WIDTH =>
      if c < |ts| then Tile(ts[c], ThingRef(true, Pos(row, c))) else g[row][c])]
  }

  /** Each cell of the row below `|ts|` holds its payload, occupied at its own coordinate; every other cell is kept. */
  lemma PutRowCells(g: Grid, row: int, ts: seq<Thing>)
    requires IsGrid(g) && 0 <= row < BOARD_HEIGHT && |ts| <= BOARD_WIDTH
    ensures var h := PutRow(g, row, ts);
            forall r, c :: 0 <= r < BOARD_HEIGHT && 0 <= c < BOARD_WIDTH ==>
              h[r][c] == if r == row && c < |ts| then Tile(ts[c], ThingRef(true, Pos(r, c))) else g[r][c]
  {
  }

  /** One cell of `PutRowCells`. */
  lemma PutRowCell(g: Grid, row: int, ts: seq<Thing>, r: int, c: int)
    requires IsGrid(g) && 0 <= row < BOARD_HEIGHT && |ts| <= BOARD_WIDTH
    requires 0 <= r < BOARD_HEIGHT && 0 <= c < BOARD_WIDTH
    ensures PutRow(g, row, ts)[r][c] == if r == row && c < |ts| then Tile(ts[c], ThingRef(true, Pos(r, c))) else g[r][c]
  {
  }

  /** With no payloads the row is left as it was. */
  lemma PutRowNone(g: Grid, row: int)
    requires IsGrid(g) && 0 <= row < BOARD_HEIGHT
    ensures PutRow(g, row, []) == g
  {
    var h: Grid := PutRow(g, row, []);
    PutRowCells(g, row, []);
    forall r | 0 <= r < BOARD_HEIGHT ensures h[r] == g[r] {
      assert forall c :: 0 <= c < BOARD_WIDTH ==> h[r][c] == g[r][c];
    }
  }

  /** Placing the next payload of the row as an occupied tile extends the placed run by one. */
  lemma PutRowStep(g: Grid, row: int, ts: seq<Thing>, t: Thing)
    requires IsGrid(g) && 0 <= row < BOARD_HEIGHT && |ts| < BOARD_WIDTH
    ensures Put(PutRow(g, row, ts), Pos(row, |ts|), Tile(t, ThingRef(true, Pos(row, |ts|)))) == PutRow(g, row, ts + [t])
  {
    var h: Grid := Put(PutRow(g, row, ts), Pos(row, |ts|), Tile(t, ThingRef(true, Pos(row, |ts|))));
    var k: Grid := PutRow(g, row, ts + [t]);
    PutRowCells(g, row, ts);
    PutRowCells(g, row, ts + [t]);
    forall r | 0 <= r < BOARD_HEIGHT ensures h[r] == k[r] {
      assert forall c :: 0 <= c < BOARD_WIDTH ==> h[r][c] == k[r][c];
    }
  }

  /**
   Placing payloads in `row` leaves the other rows' fullness alone, fills `row` once every
   real cell of it has a payload, and leaves an empty `row` open until then.
   */
  lemma PutRowFull(g: Grid, even: bool, row: int, ts: seq<Thing>, r: int)
    requires IsGrid(g) && 0 <= row < BOARD_HEIGHT && |ts| <= Width(row, even) && 0 <= r < BOARD_HEIGHT
    ensures r != row ==> (GridRowFull(PutRow(g, row, ts), even, r) <==> GridRowFull(g, even, r))
    ensures r == row && |ts| == Width(row, even) ==> GridRowFull(PutRow(g, row, ts), even, r)
    ensures r == row && |ts| < Width(row, even) && GridRowEmpty(g, even, row) ==> !GridRowFull(PutRow(g, row, ts), even, r)
  {
    var h: Grid := PutRow(g, row, ts);
    PutRowCells(g, row, ts);
    if r != row {
      assert forall c :: 0 <= c < BOARD_WIDTH ==> h[r][c] == g[r][c];
    }
    if r == row && |ts| < Width(row, even) {
      var w := Width(row, even);
      assert h[row][w - 1] == g[row][w - 1];
    }
  }

  /**
   The snapshot `g` after `generateRows(n)` drawing from seed `s`: row by row from the
   top, each real cell of rows `0 .. n-1` given the payload of three fresh draws.
   */
  function Generated(g: Grid, even: bool, pay: nat -> Thing, s: nat, n: int): (h: Grid)
    requires IsGrid(g) && n <= BOARD_HEIGHT
    ensures IsGrid(h)
    decreases n
  {
    if n <= 0 then g
    else PutRow(Generated(g, even, pay, s, n - 1), n - 1,
                RowThings(pay, s + 3 * CellsBefore(n - 1, even), Width(n - 1, even)))
  }

  /**
   Generating one more row is placing that row's payloads, drawn from the seed the earlier
   rows left, on what they left; the seed then moves past the row's draws.
   */
  lemma GeneratedNext(g: Grid, even: bool, pay: nat -> Thing, s: nat, n: int, h: Grid, t: nat, h': Grid, t': int)
    requires IsGrid(g) && 0 <= n < BOARD_HEIGHT
    requires h == Generated(g, even, pay, s, n) && t == s + 3 * CellsBefore(n, even)
    requires h' == PutRow(h, n, RowThings(pay, t, Width(n, even))) && t' == t + 3 * Width(n, even)
    ensures h' == Generated(g, even, pay, s, n + 1) && t' == s + 3 * CellsBefore(n + 1, even)
  {
    assert Generated(g, even, pay, s, n + 1) == PutRow(h, n, RowThings(pay, t, Width(n, even)));
    CellsBeforeNext(n, even);
  }


  /**
   What generation leaves in each cell: the real cells of the first `n` rows hold the
   payload drawn from their own seed `CellSeed(s, even, r, c)`, occupied and knowing their
   coordinate; every other cell is as it was.
   */
  lemma {:induction false} GeneratedCells(g: Grid, even: bool, pay: nat -> Thing, s: nat, n: int)
    requires IsGrid(g) && n <= BOARD_HEIGHT
    ensures var h := Generated(g, even, pay, s, n);
            forall r, c :: 0 <= r < BOARD_HEIGHT && 0 <= c < BOARD_WIDTH ==>
              h[r][c] == if r < n && c < Width(r, even)
                         then Tile(pay(CellSeed(s, even, r, c)), ThingRef(true, Pos(r, c)))
                         else g[r][c]
  {
    forall r, c | 0 <= r < BOARD_HEIGHT && 0 <= c < BOARD_WIDTH
      ensures Generated(g, even, pay, s, n)[r][c]
              == if r < n && c < Width(r, even) then Tile(pay(CellSeed(s, even, r, c)), ThingRef(true, Pos(r, c))) else g[r][c]
    {
      GeneratedCell(g, even, pay, s, n, r, c);
    }
  }

  /** One cell of `GeneratedCells`. */
  lemma {:induction false} GeneratedCell(g: Grid, even: bool, pay: nat -> Thing, s: nat, n: int, r: int, c: int)
    requires IsGrid(g) && n <= BOARD_HEIGHT && 0 <= r < BOARD_HEIGHT && 0 <= c < BOARD_WIDTH
    ensures Generated(g, even, pay, s, n)[r][c]
            == if r < n && c < Width(r, even) then Tile(pay(CellSeed(s, even, r, c)), ThingRef(true, Pos(r, c))) else g[r][c]
    decreases n
  {
    if n > 0 {
      var m := n - 1;
      if r == m {
        GeneratedRowCell(g, even, pay, s, m, c);
      } else {
        var prev: Grid := Generated(g, even, pay, s, m);
        var ts := RowThings(pay, s + 3 * CellsBefore(m, even), Width(m, even));
        assert Generated(g, even, pay, s, n) == PutRow(prev, m, ts);
        PutRowCell(prev, m, ts, r, c);
        GeneratedCell(g, even, pay, s, m, r, c);
      }
    }
  }

  /** The cells of the row generated last: the row's payloads, drawn from their own seeds. */
  lemma GeneratedRowCell(g: Grid, even: bool, pay: nat -> Thing, s: nat, m: int, c: int)
    requires IsGrid(g) && 0 <= m < BOARD_HEIGHT && 0 <= c < BOARD_WIDTH
    ensures Generated(g, even, pay, s, m + 1)[m][c]
            == if c < Width(m, even) then Tile(pay(CellSeed(s, even, m, c)), ThingRef(true, Pos(m, c))) else g[m][c]
  {
    var s1 := s + 3 * CellsBefore(m, even);
    var ts := RowThings(pay, s1, Width(m, even));
    var prev: Grid := Generated(g, even, pay, s, m);
    var h: Grid := PutRow(prev, m, ts);
    GeneratedNext(g, even, pay, s, m, prev, s1, h, s1 + 3 * Width(m, even));
    PutRowCell(prev, m, ts, m, c);
    if c < Width(m, even) {
      RowThingsAt(pay, s1, Width(m, even));
      assert CellSeed(s, even, m, c) == s1 + 3 * c;
      assert ts[c] == pay(s1 + 3 * c);
      assert h[m][c] == Tile(ts[c], ThingRef(true, Pos(m, c)));
    } else {
      GeneratedKeeps(g, even, pay, s, m, m);
      assert h[m][c] == prev[m][c];
    }
  }

  /** Rows from `n` on are not touched by generating `n` rows. */
  lemma {:induction false} GeneratedKeeps(g: Grid, even: bool, pay: nat -> Thing, s: nat, n: int, r: int)
    requires IsGrid(g) && 0 <= r < BOARD_HEIGHT && n <= r
    ensures Generated(g, even, pay, s, n)[r] == g[r]
    decreases n
  {
    if n > 0 {
      var h: Grid := Generated(g, even, pay, s, n - 1);
      GeneratedKeeps(g, even, pay, s, n - 1, r);
      PutRowCells(h, n - 1, RowThings(pay, s + 3 * CellsBefore(n - 1, even), Width(n - 1, even)));
      assert forall c :: 0 <= c < BOARD_WIDTH ==> Generated(g, even, pay, s, n)[r][c] == h[r][c];
    }
  }

  /**
   When the rows to be generated were empty, the next row to generate is still empty and
   every row generated so far is full.
   */
  lemma GeneratedNextOpen(g: Grid, even: bool, pay: nat -> Thing, s: nat, n: int, row: int, h: Grid)
    requires IsGrid(g) && 0 <= row < n <= BOARD_HEIGHT
    requires forall r :: 0 <= r < n ==> GridRowEmpty(g, even, r)
    requires h == Generated(g, even, pay, s, row)
    ensures GridRowEmpty(h, even, row) && forall r :: 1 <= r < row ==> GridRowFull(h, even, r)
  {
    GeneratedKeeps(g, even, pay, s, row, row);
    assert GridRowEmpty(g, even, row);
    forall r | 1 <= r < row ensures GridRowFull(h, even, r) {
      GeneratedFull(g, even, pay, s, row, r);
    }
  }

  /** Every generated row is full. */
  lemma {:induction false} GeneratedFull(g: Grid, even: bool, pay: nat -> Thing, s: nat, n: int, r: int)
    requires IsGrid(g) && 0 <= r < n <= BOARD_HEIGHT
    ensures GridRowFull(Generated(g, even, pay, s, n), even, r)
    decreases n
  {
    var ts := RowThings(pay, s + 3 * CellsBefore(n - 1, even), Width(n - 1, even));
    var prev: Grid := Generated(g, even, pay, s, n - 1);
    assert Generated(g, even, pay, s, n) == PutRow(prev, n - 1, ts);
    if r < n - 1 {
      GeneratedFull(g, even, pay, s, n - 1, r);
    }
    PutRowFull(prev, even, n - 1, ts, r);
  }

  /**
   The board, parity flag and seed `checkLines` leaves on the snapshot `g` drawing from
   seed `s`: when more than `gap` rows at the bottom are empty, the board moves down by
   the surplus (the flag toggled when it is odd) and the vacated top rows are generated;
   otherwise nothing changes.
   */
  ghost function CheckedLines(g: Grid, even: bool, pay: nat -> Thing, s: nat, gap: int): (r: (Grid, bool, nat))
    requires IsGrid(g) && gap >= 0
    ensures IsGrid(r.0)
  {
    var extra := EmptyRows(g, even) - gap;
    if extra > 0 then
      var e := Toggled(even, extra);
      (Generated(ShiftGrid(g, extra, e, BOARD_HEIGHT), e, pay, s, extra), e, s + 3 * CellsBefore(extra, e))
    else (g, even, s)
  }

  /**
   What `checkLines` is for: afterwards exactly `gap` empty rows lie at the bottom when
   there were more, and as many as before otherwise.
   */
  lemma CheckedLinesGap(g: Grid, even: bool, pay: nat -> Thing, s: nat, gap: int)
    requires IsGrid(g) && gap >= 0
    ensures var n := EmptyRows(g, even);
            EmptyRows(CheckedLines(g, even, pay, s, gap).0, CheckedLines(g, even, pay, s, gap).1)
              == if n > gap then gap else n
  {
    var n := EmptyRows(g, even);
    var after := CheckedLines(g, even, pay, s, gap);
    if n > gap {
      var extra := n - gap;
      var e := Toggled(even, extra);
      var h: Grid := Generated(ShiftGrid(g, extra, e, BOARD_HEIGHT), e, pay, s, extra);
      assert after.0 == h && after.1 == e;
      MovedBottomEmpty(g, even, pay, s, gap, extra, e, h);
      MovedAboveGap(g, even, pay, s, gap, extra, e, h);
      EmptyRowsUnique(h, e, gap);
    } else {
      assert after.0 == g && after.1 == even;
    }
  }

  /**
   The packed-region count after `checkLines` moved the board down by `extra` rows:
   unchanged without a move, the generated rows after a move of two or more, and after
   a move of one row at most one row, exactly one when there was a packed region before.
   */
  ghost predicate TopSettled(extra: int, before: int, after: int)
  {
    && (extra <= 0 ==> after == before)
    && (extra >= 2 ==> after == extra)
    && (extra == 1 ==> after <= 1 && (before > 0 ==> after == 1))
  }

  /** `CheckedLines` when the bottom holds `extra` surplus empty rows. */
  lemma CheckedLinesMoved(g: Grid, even: bool, pay: nat -> Thing, s: nat, gap: int, extra: int, e: bool, h: Grid, t: nat)
    requires IsGrid(g) && 0 <= gap && extra == EmptyRows(g, even) - gap > 0 && e == Toggled(even, extra)
    requires h == Generated(ShiftGrid(g, extra, e, BOARD_HEIGHT), e, pay, s, extra)
    requires t == s + 3 * CellsBefore(extra, e)
    ensures CheckedLines(g, even, pay, s, gap) == (h, e, t)
  {
  }

  /** After a move by the surplus `extra` and the refill (`h`), the bottom `gap` rows are empty. */
  lemma MovedBottomEmpty(g: Grid, even: bool, pay: nat -> Thing, s: nat, gap: int, extra: int, e: bool, h: Grid)
    requires IsGrid(g) && 0 <= gap && extra == EmptyRows(g, even) - gap > 0 && e == Toggled(even, extra)
    requires h == Generated(ShiftGrid(g, extra, e, BOARD_HEIGHT), e, pay, s, extra)
    ensures forall r :: BOARD_HEIGHT - gap <= r < BOARD_HEIGHT ==> GridRowEmpty(h, e, r)
  {
    EmptyRowsSpec(g, even);
    forall r | BOARD_HEIGHT - gap <= r < BOARD_HEIGHT ensures GridRowEmpty(h, e, r) {
      MovedRowEmpty(g, even, pay, s, extra, e, h, r);
    }
  }

  /** After a move by the surplus `extra` and the refill (`h`), the row above the bottom `gap` rows holds a tile. */
  lemma MovedAboveGap(g: Grid, even: bool, pay: nat -> Thing, s: nat, gap: int, extra: int, e: bool, h: Grid)
    requires IsGrid(g) && 0 <= gap && extra == EmptyRows(g, even) - gap > 0 && e == Toggled(even, extra)
    requires h == Generated(ShiftGrid(g, extra, e, BOARD_HEIGHT), e, pay, s, extra)
    ensures !GridRowEmpty(h, e, BOARD_HEIGHT - 1 - gap)
  {
    var n := EmptyRows(g, even);
    var last := BOARD_HEIGHT - 1 - gap;
    EmptyRowsSpec(g, even);
    if n < BOARD_HEIGHT {
      var src := BOARD_HEIGHT - 1 - n;
      assert !GridRowEmpty(g, even, src);
      assert last - extra == src;
      MovedRowEmpty(g, even, pay, s, extra, e, h, last);
    } else {
      GeneratedNotEmpty(ShiftGrid(g, extra, e, BOARD_HEIGHT), e, pay, s, extra, last);
    }
  }

  /** Below the generated rows, a row after the move and refill (`h`) is empty exactly when the row it came from was. */
  lemma MovedRowEmpty(g: Grid, even: bool, pay: nat -> Thing, s: nat, extra: int, e: bool, h: Grid, r: int)
    requires IsGrid(g) && 0 < extra <= r < BOARD_HEIGHT && e == Toggled(even, extra)
    requires h == Generated(ShiftGrid(g, extra, e, BOARD_HEIGHT), e, pay, s, extra)
    ensures GridRowEmpty(h, e, r) <==> GridRowEmpty(g, even, r - extra)
  {
    GeneratedKeeps(ShiftGrid(g, extra, e, BOARD_HEIGHT), e, pay, s, extra, r);
    ShiftedRowEmpty(g, extra, even, r);
  }

  /** A generated row holds a tile. */
  lemma GeneratedNotEmpty(g: Grid, even: bool, pay: nat -> Thing, s: nat, n: int, r: int)
    requires IsGrid(g) && 0 <= r < n <= BOARD_HEIGHT
    ensures !GridRowEmpty(Generated(g, even, pay, s, n), even, r)
  {
    GeneratedFull(g, even, pay, s, n, r);
    assert Generated(g, even, pay, s, n)[r][0].ref.present;
  }


  /**
   The choice of `checkDrop`: scanning the totals in order, a total replaces the best so
   far only when strictly larger, starting from total 0 at index 0.
   */
  function SelectBest(scores: seq<int>): (r: (int, int))
  {
    if |scores| == 0 then (0, 0)
    else
      var (k, b) := SelectBest(scores[..|scores| - 1]);
      if b < scores[|scores| - 1] then (|scores| - 1, scores[|scores| - 1]) else (k, b)
  }

  /**
   The choice is an index among the totals; its total is at least 0 and at least the
   last total, and a positive one is the total at the chosen index.
   */
  lemma {:induction false} SelectBestInRange(scores: seq<int>)
    ensures var (k, b) := SelectBest(scores);
            && 0 <= k && (|scores| > 0 ==> k < |scores|)
            && 0 <= b && (|scores| > 0 ==> scores[|scores| - 1] <= b)
            && (b > 0 ==> k < |scores| && scores[k] == b)
  {
    if |scores| > 0 {
      var init := scores[..|scores| - 1];
      SelectBestInRange(init);
      if SelectBest(init).1 > 0 {
        assert init[SelectBest(init).0] == scores[SelectBest(init).0];
      }
    }
  }

  /** One more total takes over the choice exactly when it beats the best so far. */
  lemma SelectBestAppend(scores: seq<int>, x: int)
    ensures SelectBest(scores + [x]) == if SelectBest(scores).1 < x then (|scores|, x) else SelectBest(scores)
  {
    assert (scores + [x])[..|scores|] == scores;
  }

  /**
   With non-negative totals the choice is the first maximum: its total is the largest,
   and every earlier index has a strictly smaller total, so ties keep the lowest index.
   */
  lemma {:induction false} SelectBestIsFirstMaximum(scores: seq<int>)
    requires |scores| >= 1 && forall j :: 0 <= j < |scores| ==> scores[j] >= 0
    ensures var (k, b) := SelectBest(scores);
            && 0 <= k < |scores| && b == scores[k]
            && (forall j :: 0 <= j < |scores| ==> scores[j] <= b)
            && (forall j :: 0 <= j < k ==> scores[j] < b)
  {
    var n := |scores|;
    var init := scores[..n - 1];
    if n == 1 {
      assert init == [];
    } else {
      SelectBestIsFirstMaximum(init);
      assert forall j :: 0 <= j < n - 1 ==> init[j] == scores[j];
    }
  }

  /** `n_params` after the settings key: `(n % 3) + 1`, with C++'s `%` truncating toward zero. */
  function CycledParams(n: int): (m: int)
    ensures n >= 0 ==> 1 <= m <= 3 && m - 1 == n % 3
    ensures n < 0 ==> -1 <= m <= 1
  {
    (if n >= 0 then n % 3 else -((-n) % 3)) + 1
  }

  /** Three presses bring any setting of 1..3 back to where it started. */
  lemma CycleThrice(n: int)
    requires 1 <= n <= 3
    ensures CycledParams(CycledParams(CycledParams(n))) == n
  {
  }

  /** A frame marks the game as played at an altered difficulty. */
  predicate AltersDifficulty(u: UserData)
  {
    !u.velEnabled || !u.accEnabled || u.nParams == 1
  }

  /** The flag after frames with the settings `frames`, starting from `flag`. */
  function AlteredAfter(flag: bool, frames: seq<UserData>): (r: bool)
    ensures flag ==> r
    decreases |frames|
  {
    if |frames| == 0 then flag
    else AlteredAfter(flag || AltersDifficulty(frames[0]), frames[1..])
  }

  /**
   The flag is sticky: after any frames it is set exactly when it was set before or some
   frame had an altered setting. Restoring the settings never clears it.
   */
  lemma {:induction false} AlteredSticky(flag: bool, frames: seq<UserData>)
    ensures AlteredAfter(flag, frames) <==> flag || exists i :: 0 <= i < |frames| && AltersDifficulty(frames[i])
    decreases |frames|
  {
    if |frames| > 0 {
      AlteredSticky(flag || AltersDifficulty(frames[0]), frames[1..]);
      assert forall i :: 1 <= i < |frames| ==> frames[1..][i - 1] == frames[i];
      if exists i :: 0 <= i < |frames| && AltersDifficulty(frames[i]) {
        var i :| 0 <= i < |frames| && AltersDifficulty(frames[i]);
        if i > 0 {
          assert AltersDifficulty(frames[1..][i - 1]);
        }
      }
    }
  }

  /** The best score after `gameOver`: replaced only by a strictly larger final score. */
  function BestAfter(best: int, score: int): (r: int)
    ensures r >= best && r >= score && (r == best || r == score)
    ensures score <= best ==> r == best
  {
    if score > best then score else best
  }

  /**
   `q` is what the orphan sweep from the cleared cells `cleared` collects: an unanchored
   occupied neighbour of a cleared cell, or a cell connected to one.
   */
  ghost predicate OrphanOf(occ: set<Pos>, even: bool, top: int, cleared: seq<Pos>, q: Pos)
  {
    exists c, i :: c in cleared && 0 <= i < 6 && !Anchored(occ, even, top, Step(c, i, even))
                   && Reaches(occ, even, Step(c, i, even), q)
  }

  /**
   What the orphan sweep of one attribute found once the cluster `flood` is cleared from
   `g`: distinct cells, exactly those connected to an occupied neighbour of a cleared cell
   that has no link to the anchor row `top - 1`.
   */
  ghost predicate Orphans(g: Grid, even: bool, flood: seq<Pos>, top: int, found: seq<Pos>)
    requires IsGrid(g)
  {
    var occ := Occupancy(Cleared(g, flood), even);
    Distinct(found) && forall q :: q in found <==> OrphanOf(occ, even, top, flood, q)
  }

  /** Every orphan is occupied and has no link to the anchor row. */
  lemma OrphansUnanchored(g: Grid, even: bool, flood: seq<Pos>, top: int, found: seq<Pos>)
    requires IsGrid(g) && Orphans(g, even, flood, top, found)
    ensures var occ := Occupancy(Cleared(g, flood), even);
            forall q :: q in found ==> q in occ && !Anchored(occ, even, top, q)
  {
    var occ := Occupancy(Cleared(g, flood), even);
    forall q | q in found ensures q in occ && !Anchored(occ, even, top, q) {
      OrphanOfUnanchored(occ, even, top, flood, q);
    }
  }

  /**
   What one attribute's pass of `checkDrop` left in `todrops[k]` and `uncons[k]`, with
   the `nFulRowsTop` the orphan sweep ran against.
   */
  datatype Attempt = Attempt(todrop: seq<Pos>, uncon: seq<Pos>, top: int)

  /** The total `checkDrop` compares across attributes. */
  function Total(a: Attempt): nat
  {
    |a.todrop| + |a.uncon|
  }

  /** The totals of the attempts, in order. */
  function Totals(tried: seq<Attempt>): (t: seq<int>)
    ensures |t| == |tried| && forall j :: 0 <= j < |tried| ==> t[j] == Total(tried[j]) >= 0
  {
    seq(|tried|, j requires 0 <= j < |tried| => Total(tried[j]))
  }

  /** One more attempt adds its total at the end. */
  lemma TotalsAppend(tried: seq<Attempt>, a: Attempt)
    ensures Totals(tried + [a]) == Totals(tried) + [Total(a)]
  {
    assert forall j :: 0 <= j < |tried| ==> (tried + [a])[j] == tried[j];
  }

  /**
   One attribute's pass of `checkDrop` on the snapshot `g`, for the payload `thing`
   landing at `last`: the cluster lists, once each, exactly the cells connected to `last`
   through cells that match on `param`. When it holds at least `need - 1` cells it is
   completed with `last` and the orphan list is exactly what the removal of the cluster
   cuts off from the anchor row; otherwise the orphan list is empty.
   */
  ghost predicate Resolved(g: Grid, even: bool, thing: Thing, param: int, last: Pos, need: int, a: Attempt)
    requires IsGrid(g)
  {
    var taken := |a.todrop| >= 1 && |a.todrop| >= need;
    var flood := if taken then a.todrop[..|a.todrop| - 1] else a.todrop;
    && Distinct(flood)
    && (forall q :: q in flood <==> InCluster(MatchSet(g, even, thing, param), even, last, q))
    && (taken ==> a.todrop[|a.todrop| - 1] == last && Orphans(g, even, flood, a.top, a.uncon))
    && (!taken ==> |flood| < need - 1 && a.uncon == [])
  }

  /** A list of `MAX_TODROP` slots whose elements are cells of the storage. */
  ghost predicate Listed(a: Arena<Pos>)
    reads a, a.data
  {
    a.Valid() && a.CAP == MAX_TODROP && forall i :: 0 <= i < a.count ==> InArray(a.data[i])
  }

  /** A list of matching cells holds cells of the storage only. */
  lemma MatchesListed(g: Grid, even: bool, thing: Thing, param: int, a: Arena<Pos>, s: seq<Pos>)
    requires IsGrid(g) && a.Valid() && a.Contents() == s
    requires forall q :: q in s ==> Matches(g, even, thing, param, q)
    ensures forall i :: 0 <= i < a.count ==> InArray(a.data[i])
  {
    forall i | 0 <= i < a.count ensures InArray(a.data[i]) {
      assert a.data[i] == s[i];
      assert Matches(g, even, thing, param, s[i]);
    }
  }

  /** The cluster search of `checkDrop` for attribute `param` from the landing cell `last`, into a fresh list. */
  method Flood(g: Grid, even: bool, last: Pos, thing: Thing, param: int) returns (td: Arena<Pos>, ghost flood: seq<Pos>)
    requires IsGrid(g)
    ensures fresh(td) && fresh(td.data) && Listed(td)
    ensures td.Contents() == flood && |flood| <= VALID_CELLS
    ensures Distinct(flood) && forall q :: q in flood ==> Matches(g, even, thing, param, q)
    ensures forall q :: q in flood <==> InCluster(MatchSet(g, even, thing, param), even, last, q)
  {
    td := new Arena<Pos>(MAX_TODROP);
    ValidCellCount(even);
    assert ValidCells(even) - {} == ValidCells(even);
    var visited: set<Pos>;
    visited, flood := CheckDropRecur(g, even, last, thing, param, td, {});
    assert visited - {} == visited;
    FloodComplete(g, even, thing, param, last, visited, flood);
    forall q | q in flood ensures Matches(g, even, thing, param, q) {
      ClusterMatches(MatchSet(g, even, thing, param), even, last, q);
    }
    MatchesListed(g, even, thing, param, td, flood);
  }

  /** Attempt `j` of `tried` is the pass of `checkDrop` for attribute `j`, for every `j`. */
  ghost predicate AllResolved(g: Grid, even: bool, thing: Thing, last: Pos, need: int, tried: seq<Attempt>)
    requires IsGrid(g)
  {
    forall j :: 0 <= j < |tried| ==> Resolved(g, even, thing, j, last, need, tried[j])
  }

  /** The pass for the next attribute extends the attempts. */
  lemma ResolvedAppend(g: Grid, even: bool, thing: Thing, last: Pos, need: int, tried: seq<Attempt>, a: Attempt)
    requires IsGrid(g) && AllResolved(g, even, thing, last, need, tried)
    requires Resolved(g, even, thing, |tried|, last, need, a)
    ensures AllResolved(g, even, thing, last, need, tried + [a])
  {
    forall j | 0 <= j < |tried| + 1 ensures Resolved(g, even, thing, j, last, need, (tried + [a])[j]) {
      if j < |tried| {
        assert (tried + [a])[j] == tried[j];
      }
    }
  }

  /**
   The cluster half of `checkDrop` for one attribute once the cluster is large enough:
   its cells are removed, the orphan sweep fills a fresh list against the board without
   them (and the `nFulRowsTop` the removals leave), and the cells are put back. The
   board ends as it was.
   */
  method SweepOrphans(board: Board, td: Arena<Pos>, ghost flood: seq<Pos>) returns (un: Arena<Pos>, ghost top: int)
    requires board.Valid() && board.nFulRowsTop >= 0 && Listed(td) && td.Contents() == flood
    requires forall q :: q in flood ==> InArray(q) && board.Grid()[q.row][q.col].ref == ThingRef(true, q)
    modifies board`nFulRowsTop, board.things
    ensures board.Valid() && board.nFulRowsTop >= 0
    ensures board.Grid() == old(board.Grid()) && board.even == old(board.even)
    ensures fresh(un) && fresh(un.data) && Listed(un)
    ensures Orphans(board.Grid(), board.even, flood, top, un.Contents())
    ensures top == TopAfterRemovals(old(board.nFulRowsTop), flood)
  {
    ghost var g: Grid := board.Grid();
    un := new Arena<Pos>(MAX_TODROP);
    board.RemoveAll(td);
    top := board.nFulRowsTop;
    ghost var found := CollectOrphans(board.Grid(), board.even, board.nFulRowsTop, td, un);
    board.RestoreAll(td);
    ClearedRestored(g, flood);
    forall i | 0 <= i < un.count ensures InArray(un.data[i]) {
      assert un.data[i] in found;
    }
  }

  /**
   The large-cluster branch of one attribute's pass: the orphan sweep over the cluster,
   then the landing cell appended to the cluster list.
   */
  method SweepAndAppend(board: Board, td: Arena<Pos>, ghost flood: seq<Pos>, last: Pos)
    returns (un: Arena<Pos>, ghost top: int)
    requires board.Valid() && board.nFulRowsTop >= 0 && Listed(td) && td.Contents() == flood
    requires InArray(last) && |flood| <= VALID_CELLS
    requires forall q :: q in flood ==> InArray(q) && board.Grid()[q.row][q.col].ref == ThingRef(true, q)
    modifies board`nFulRowsTop, board.things, td`count, td.data
    ensures board.Valid() && board.nFulRowsTop >= 0
    ensures board.Grid() == old(board.Grid()) && board.even == old(board.even)
    ensures fresh(un) && fresh(un.data) && Listed(un) && Listed(td)
    ensures td.Contents() == flood + [last]
    ensures Orphans(board.Grid(), board.even, flood, top, un.Contents())
    ensures top == TopAfterRemovals(old(board.nFulRowsTop), flood)
  {
    un, top := SweepOrphans(board, td, flood);
    var _ := td.Acquire(last);
  }

  /**
   One pass of the attribute loop of `checkDrop`, attribute `k`, for the payload `thing`
   that landed at `last`: the cluster search into `todrops[k]`; when it found at least
   `need - 1` cells (`N_TO_DROP - 1`), the orphan sweep fills `uncons[k]` and `last` is
   appended to the cluster list. The board ends as it was.
   */
  method ResolveAttribute(board: Board, thing: Thing, last: Pos, need: int, k: int)
    returns (td: Arena<Pos>, un: Arena<Pos>, ghost a: Attempt)
    requires board.Valid() && board.nFulRowsTop >= 0 && InArray(last)
    modifies board`nFulRowsTop, board.things
    ensures board.Valid() && board.nFulRowsTop >= 0
    ensures board.Grid() == old(board.Grid()) && board.even == old(board.even)
    ensures fresh(td) && fresh(td.data) && fresh(un) && fresh(un.data) && Listed(td) && Listed(un)
    ensures a.todrop == td.Contents() && a.uncon == un.Contents()
    ensures Resolved(board.Grid(), board.even, thing, k, last, need, a)
    ensures |a.todrop| >= 1 && |a.todrop| >= need ==>
              a.top == TopAfterRemovals(old(board.nFulRowsTop), a.todrop[..|a.todrop| - 1])
  {
    var g := board.Grid();
    ghost var flood: seq<Pos>;
    td, flood := Flood(g, board.even, last, thing, k);
    forall q | q in flood ensures InArray(q) && board.Grid()[q.row][q.col].ref == ThingRef(true, q) {
      assert Matches(g, board.even, thing, k, q);
    }
    ghost var top := board.nFulRowsTop;
    if td.count >= need - 1 {
      un, top := SweepAndAppend(board, td, flood, last);
    } else {
      un := new Arena<Pos>(MAX_TODROP);
    }
    a := Attempt(td.Contents(), un.Contents(), top);
    AttemptResolved(g, board.even, thing, k, last, need, flood, a);
  }

  /**
   An attempt built from an exact, duplicate-free cluster list and, when the cluster has
   at least `need - 1` cells, the landing cell and an exact orphan list, is resolved.
   */
  lemma AttemptResolved(g: Grid, even: bool, thing: Thing, param: int, last: Pos, need: int, flood: seq<Pos>, a: Attempt)
    requires IsGrid(g) && Distinct(flood)
    requires forall q :: q in flood <==> InCluster(MatchSet(g, even, thing, param), even, last, q)
    requires |flood| >= need - 1 ==> a.todrop == flood + [last] && Orphans(g, even, flood, a.top, a.uncon)
    requires |flood| < need - 1 ==> a.todrop == flood && a.uncon == []
    ensures Resolved(g, even, thing, param, last, need, a)
    ensures |a.todrop| >= 1 && |a.todrop| >= need ==> a.todrop[..|a.todrop| - 1] == flood
  {
    if |flood| >= need - 1 {
      assert a.todrop[..|a.todrop| - 1] == flood;
    }
  }

  /**
   One pass of the attribute loop of `checkDrop`: resolve attribute `k` and keep its
   lists in place of the best so far when its total is larger, or when it is the first.
   */
  method TryAttribute(board: Board, thing: Thing, last: Pos, need: int, k: int, ghost tried: seq<Attempt>,
                      bestTd: Arena<Pos>, bestUn: Arena<Pos>, bestK: int, bestScore: int)
    returns (keptTd: Arena<Pos>, keptUn: Arena<Pos>, keptK: int, keptScore: int, ghost a: Attempt)
    requires board.Valid() && board.nFulRowsTop >= 0 && InArray(last) && k == |tried|
    requires AllResolved(board.Grid(), board.even, thing, last, need, tried)
    requires (bestK, bestScore) == SelectBest(Totals(tried)) && 0 <= bestK && (|tried| > 0 ==> bestK < |tried|)
    requires Listed(bestTd) && Listed(bestUn)
    requires |tried| > 0 ==> bestTd.Contents() == tried[bestK].todrop && bestUn.Contents() == tried[bestK].uncon
    modifies board`nFulRowsTop, board.things
    ensures board.Valid() && board.nFulRowsTop >= 0
    ensures board.Grid() == old(board.Grid()) && board.even == old(board.even)
    ensures AllResolved(board.Grid(), board.even, thing, last, need, tried + [a])
    ensures (keptK, keptScore) == SelectBest(Totals(tried + [a])) && 0 <= keptK <= |tried|
    ensures (keptTd == bestTd && keptUn == bestUn) || (fresh(keptTd.data) && fresh(keptUn.data))
    ensures Listed(keptTd) && Listed(keptUn)
    ensures keptTd.Contents() == (tried + [a])[keptK].todrop && keptUn.Contents() == (tried + [a])[keptK].uncon
    ensures |a.todrop| >= 1 && |a.todrop| >= need ==>
              a.top == TopAfterRemovals(old(board.nFulRowsTop), a.todrop[..|a.todrop| - 1])
  {
    var td, un;
    td, un, a := ResolveAttribute(board, thing, last, need, k);
    ResolvedAppend(board.Grid(), board.even, thing, last, need, tried, a);
    var score := td.count + un.count;
    assert score == Total(a);
    TotalsAppend(tried, a);
    SelectBestAppend(Totals(tried), score);
    keptTd, keptUn, keptK, keptScore := bestTd, bestUn, bestK, bestScore;
    if k == 0 || bestScore < score {
      keptTd, keptUn := td, un;
    }
    if bestScore < score {
      keptK, keptScore := k, score;
    }
  }

  /**
   The attribute loop of `checkDrop`: attributes `0 .. nParams - 1` in order, each on the
   same board, keeping the lists of the first attempt with the largest total (the source
   keeps all of them in `todrops[3]` and `uncons[3]` and picks one afterwards).
   */
  method TryAttributes(board: Board, thing: Thing, last: Pos, need: int, nParams: int)
    returns (bestTd: Arena<Pos>, bestUn: Arena<Pos>, ghost tried: seq<Attempt>)
    requires board.Valid() && board.nFulRowsTop >= 0 && InArray(last) && nParams >= 1
    modifies board`nFulRowsTop, board.things
    ensures board.Valid() && board.nFulRowsTop >= 0
    ensures board.Grid() == old(board.Grid()) && board.even == old(board.even)
    ensures fresh(bestTd.data) && fresh(bestUn.data) && Listed(bestTd) && Listed(bestUn)
    ensures |tried| == nParams && AllResolved(board.Grid(), board.even, thing, last, need, tried)
    ensures var k := SelectBest(Totals(tried)).0;
            0 <= k < |tried| && bestTd.Contents() == tried[k].todrop && bestUn.Contents() == tried[k].uncon
  {
    ghost var g: Grid := board.Grid();
    var bestK := 0;
    var bestScore := 0;
    bestTd := new Arena<Pos>(MAX_TODROP);
    bestUn := new Arena<Pos>(MAX_TODROP);
    tried := [];
    var k := 0;
    while k < nParams
      invariant 0 <= k <= nParams && |tried| == k
      invariant board.Valid() && board.nFulRowsTop >= 0 && board.Grid() == g && board.even == old(board.even)
      invariant AllResolved(g, board.even, thing, last, need, tried)
      invariant (bestK, bestScore) == SelectBest(Totals(tried)) && 0 <= bestK && (k > 0 ==> bestK < k)
      invariant fresh(bestTd.data) && fresh(bestUn.data) && Listed(bestTd) && Listed(bestUn)
      invariant k > 0 ==> bestTd.Contents() == tried[bestK].todrop && bestUn.Contents() == tried[bestK].uncon
    {
      ghost var a;
      bestTd, bestUn, bestK, bestScore, a := TryAttribute(board, thing, last, need, k, tried, bestTd, bestUn, bestK, bestScore);
      tried := tried + [a];
      k := k + 1;
    }
  }

  /**
   The board and packed-region end after `addTile` puts `thing`, marked present, on the
   cell `pos` of the board `g` whose region ends at `top`: the end moves to just past that
   row when the walk over full rows from there reaches the old end.
   */
  ghost function Placement(g: Grid, even: bool, top: int, pos: Pos, thing: Thing): (r: (Grid, int))
    requires IsGrid(g) && InArray(pos)
    ensures IsGrid(r.0) && r.0[pos.row][pos.col] == Tile(thing, ThingRef(true, pos))
    ensures r.1 == top || r.1 == pos.row + 1
  {
    var placed := Put(g, pos, Tile(thing, ThingRef(true, pos)));
    var run := GridFullRun(placed, even, pos.row);
    (placed, if run > 0 && pos.row - run <= top then pos.row + 1 else top)
  }

  /** Some occupied real cell passes the hit test `near`. */
  ghost predicate Hit(g: Grid, even: bool, near: Pos -> bool)
    requires IsGrid(g)
  {
    exists p :: p in Occupancy(g, even) && near(p)
  }

  /**
   One step of the orphan loop: the sweep from neighbour `j` of the cleared cell `c`
   (which visited `v - seen` and found `more`) keeps the loop's invariant: the visited
   region stays spread over the unanchored cells, the neighbours already swept from stay
   visited, and everything found is an orphan.
   */
  lemma OrphanStep(occ: set<Pos>, even: bool, top: int, cleared: seq<Pos>, c: Pos, j: int,
                   seen: set<Pos>, found: seq<Pos>, v: set<Pos>, more: seq<Pos>)
    requires c in cleared && 0 <= j < 6 && seen + {Step(c, j, even)} <= v
    requires Spread(occ, even, Unanchored(occ, even, top), seen, seen, found)
    requires NeighboursIn(occ, even, c, j, seen)
    requires NewlyVisited(found, {}, seen) && NewlyVisited(more, seen, v)
    requires forall q :: q in found ==> OrphanOf(occ, even, top, cleared, q)
    requires forall q :: q in more ==> Reaches(occ, even, Step(c, j, even), q)
    requires |more| > 0 ==> Spread(occ, even, occ, v - seen, v, more) && !Anchored(occ, even, top, Step(c, j, even))
    requires |more| == 0 ==>
               v - seen <= {Step(c, j, even)} &&
               (Step(c, j, even) !in seen && Step(c, j, even) in occ ==> Anchored(occ, even, top, Step(c, j, even)))
    ensures NewlyVisited(found + more, {}, v)
    ensures Spread(occ, even, Unanchored(occ, even, top), v, v, found + more)
    ensures NeighboursIn(occ, even, c, j + 1, v)
    ensures forall q :: q in found + more ==> OrphanOf(occ, even, top, cleared, q)
  {
    NewlyVisitedJoin(found, more, {}, seen, v);
    var u := Unanchored(occ, even, top);
    forall x | x in v - seen && x in u ensures x in more && NeighboursIn(occ, even, x, 6, v) {
      assert x in occ && !Anchored(occ, even, top, x);
      if |more| == 0 {
        assert false;
      } else {
        assert NeighboursIn(occ, even, x, 6, v);
      }
    }
    assert Spread(occ, even, u, v - seen, v, more);
    SpreadJoin(occ, even, Unanchored(occ, even, top), seen, seen, found, v - seen, v, more);
    assert seen + (v - seen) == v;
    NeighboursInNext(occ, even, c, j, seen, v);
    forall q | q in more ensures OrphanOf(occ, even, top, cleared, q) {
      assert Reaches(occ, even, Step(c, j, even), q);
    }
  }

  /** An orphan is occupied and has no link to the anchor row. */
  lemma OrphanOfUnanchored(occ: set<Pos>, even: bool, top: int, cleared: seq<Pos>, q: Pos)
    requires OrphanOf(occ, even, top, cleared, q)
    ensures q in occ && !Anchored(occ, even, top, q)
  {
    var c, i :| c in cleared && 0 <= i < 6 && !Anchored(occ, even, top, Step(c, i, even))
                && Reaches(occ, even, Step(c, i, even), q);
    ReachesEnds(occ, even, Step(c, i, even), q);
    ReachedUnanchored(occ, even, top, Step(c, i, even), [q]);
  }

  /** Once every occupied neighbour of every cleared cell is visited, every orphan is found. */
  lemma OrphansComplete(occ: set<Pos>, even: bool, top: int, cleared: seq<Pos>, vis: set<Pos>, found: seq<Pos>)
    requires Spread(occ, even, Unanchored(occ, even, top), vis, vis, found)
    requires forall n :: 0 <= n < |cleared| ==> NeighboursIn(occ, even, cleared[n], 6, vis)
    ensures forall q :: OrphanOf(occ, even, top, cleared, q) ==> q in found
  {
    forall q | OrphanOf(occ, even, top, cleared, q) ensures q in found {
      var c, i :| c in cleared && 0 <= i < 6 && !Anchored(occ, even, top, Step(c, i, even))
                  && Reaches(occ, even, Step(c, i, even), q);
      ReachesEnds(occ, even, Step(c, i, even), q);
      var n :| 0 <= n < |cleared| && cleared[n] == c;
      assert NeighboursIn(occ, even, cleared[n], 6, vis);
      assert NeighbourIn(occ, even, c, i, vis);
      ReachesUnanchored(occ, even, top, Step(c, i, even), q);
      ReachesCovered(occ, even, Unanchored(occ, even, top), vis, found, Step(c, i, even), q);
    }
  }

  /**
   The inner loop of the orphan half of `checkDrop`: sweep from each occupied neighbour
   of the removed cell `c` (entry `i` of the removed list `cleared`), sharing the visited
   map. It keeps the loop's invariant and adds `c` to the cells whose neighbours are all
   visited.
   */
  method SweepAround(g: Grid, even: bool, top: int, ghost cleared: seq<Pos>, ghost i: int, c: Pos,
                     un: Arena<Pos>, vis: set<Pos>, ghost found: seq<Pos>) returns (vis': set<Pos>, ghost found': seq<Pos>)
    requires IsGrid(g) && 0 <= i < |cleared| && c == cleared[i]
    requires un.Valid() && un.CAP == MAX_TODROP && un.Contents() == found
    requires un.count + |ValidCells(even) - vis| <= |ValidCells(even)|
    requires NewlyVisited(found, {}, vis)
    requires Spread(Occupancy(g, even), even, Unanchored(Occupancy(g, even), even, top), vis, vis, found)
    requires forall n :: 0 <= n < i ==> NeighboursIn(Occupancy(g, even), even, cleared[n], 6, vis)
    requires forall q :: q in found ==> OrphanOf(Occupancy(g, even), even, top, cleared, q)
    modifies un`count, un.data
    ensures un.Valid() && un.Contents() == found'
    ensures un.count + |ValidCells(even) - vis'| <= |ValidCells(even)|
    ensures NewlyVisited(found', {}, vis')
    ensures Spread(Occupancy(g, even), even, Unanchored(Occupancy(g, even), even, top), vis', vis', found')
    ensures forall n :: 0 <= n < i + 1 ==> NeighboursIn(Occupancy(g, even), even, cleared[n], 6, vis')
    ensures forall q :: q in found' ==> OrphanOf(Occupancy(g, even), even, top, cleared, q)
  {
    ghost var occ := Occupancy(g, even);
    ghost var v := ValidCells(even);
    ValidCellCount(even);
    vis', found' := vis, found;
    var ns := Neighs(g, even, c);
    var j := 0;
    while j < 6
      invariant 0 <= j <= 6
      invariant un.Valid() && un.Contents() == found'
      invariant un.count + |v - vis'| <= |v|
      invariant NewlyVisited(found', {}, vis')
      invariant Spread(occ, even, Unanchored(occ, even, top), vis', vis', found')
      invariant vis <= vis' && NeighboursIn(occ, even, c, j, vis')
      invariant forall q :: q in found' ==> OrphanOf(occ, even, top, cleared, q)
    {
      if ns[j].present {
        ghost var seen := vis';
        ghost var more: seq<Pos>;
        vis', more := CheckUnconnectedRecur(g, even, top, ns[j].pos, vis', un);
        OrphanStep(occ, even, top, cleared, c, j, seen, found', vis', more);
        found' := found' + more;
      } else {
        NeighboursInNext(occ, even, c, j, vis', vis');
      }
      j := j + 1;
    }
    AllNeighboursGrow(occ, even, cleared, i, vis, vis');
  }

  /**
   The first loop of the cluster handling in `checkDrop`, orphan half: sweep from every
   occupied neighbour of a removed cell, with one visited map for all of them. It finds,
   once each, exactly the cells connected to an unanchored occupied neighbour of a
   removed cell.
   */
  method CollectOrphans(g: Grid, even: bool, top: int, td: Arena<Pos>, un: Arena<Pos>) returns (ghost found: seq<Pos>)
    requires IsGrid(g) && td.Valid() && un.Valid() && un.CAP == MAX_TODROP && un.count == 0
    requires td != un && td.data != un.data
    modifies un`count, un.data
    ensures un.Valid() && un.Contents() == found
    ensures Distinct(found)
    ensures forall q :: q in found ==> q in Occupancy(g, even) && !Anchored(Occupancy(g, even), even, top, q)
    ensures forall q :: q in found <==> OrphanOf(Occupancy(g, even), even, top, td.Contents(), q)
  {
    ValidCellCount(even);
    ghost var v := ValidCells(even);
    ghost var occ := Occupancy(g, even);
    ghost var cleared := td.Contents();
    var vis: set<Pos> := {};
    assert v - vis == v;
    found := [];
    var i := 0;
    while i < td.count
      invariant 0 <= i <= td.count && td.Contents() == cleared
      invariant un.Valid() && un.Contents() == found
      invariant un.count + |v - vis| <= |v|
      invariant NewlyVisited(found, {}, vis)
      invariant Spread(occ, even, Unanchored(occ, even, top), vis, vis, found)
      invariant forall n :: 0 <= n < i ==> NeighboursIn(occ, even, cleared[n], 6, vis)
      invariant forall q :: q in found ==> OrphanOf(occ, even, top, cleared, q)
    {
      vis, found := SweepAround(g, even, top, cleared, i, td.Get(i), un, vis, found);
      i := i + 1;
    }
    OrphansComplete(occ, even, top, cleared, vis, found);
    forall q | q in found ensures q in occ && !Anchored(occ, even, top, q) {
      OrphanOfUnanchored(occ, even, top, cleared, q);
    }
  }

  /** `GameState::Bullet`, its discrete part: the flags, payload, landing cell and drop lists. */
  class Bullet {
    /** `exists`. */
    var present: bool
    var rebouncing: bool
    var thing: Thing
    /** The last empty cell the bullet flew over: where it lands. */
    var lstEmp: Pos
    /** The cells of the cluster to drop, then the orphans it leaves. */
    const todrop: Arena<Pos>
    const uncon: Arena<Pos>

    ghost predicate Valid()
      reads this`lstEmp, todrop, uncon, todrop.data, uncon.data
    {
      && Listed(todrop) && Listed(uncon)
      && todrop != uncon && todrop.data != uncon.data
      && InArray(lstEmp)
    }

    /** A zero-initialised bullet: it neither exists nor rebounces, and its lists are empty. */
    constructor ()
      ensures Valid() && fresh(todrop) && fresh(uncon) && fresh(todrop.data) && fresh(uncon.data)
      ensures !present && !rebouncing && lstEmp == Pos(0, 0) && thing == Thing(0, 0, 0)
      ensures todrop.Contents() == [] && uncon.Contents() == []
    {
      present := false;
      rebouncing := false;
      thing := Thing(0, 0, 0);
      lstEmp := Pos(0, 0);
      todrop := new Arena<Pos>(MAX_TODROP);
      uncon := new Arena<Pos>(MAX_TODROP);
    }

    /** `a` is a scratch arena that shares nothing with the bullet's lists. */
    ghost predicate Separate(a: Arena<Pos>)
      reads this
    {
      a != todrop && a != uncon && a.data != todrop.data && a.data != uncon.data
    }

    /**
     The tail of `checkDrop`: the bullet takes copies of the chosen cluster and orphan
     lists and starts rebouncing.
     */
    method TakeLists(td: Arena<Pos>, un: Arena<Pos>)
      requires Valid() && Listed(td) && Listed(un) && Separate(td) && Separate(un)
      modifies this`rebouncing, todrop`count, todrop.data, uncon`count, uncon.data
      ensures Valid() && rebouncing
      ensures todrop.Contents() == td.Contents() && uncon.Contents() == un.Contents()
    {
      todrop.CopyFrom(td);
      uncon.CopyFrom(un);
      rebouncing := true;
    }
  }

  /**
   `GameState`, its discrete part. The values src/game.h and src/game.cpp do not define
   are constants of the state: `N_TO_DROP` (`nToDrop`), `COLORS.size()` (`nColors`), and
   the generator behind `GetRandomValue` as the draws reach it through the seed
   (`random`, which for a generator `gen` of 32-bit seeds is `Seeded(gen)`).
   */
  class GameState {
    const board: Board
    const bullet: Bullet
    var seed: nat
    var gun: Gun
    var usr: UserData
    var score: int
    var alteredDifficulty: bool
    var gameOver: bool
    var firstShotFired: bool
    const nToDrop: int
    const nColors: int
    const random: nat -> nat
    /** The payload `generateRows` makes of the three draws starting at a seed. */
    ghost const payload: nat -> Thing

    /** `payload` is the row payload of the draws: colour, shape and symbol, in that order. */
    ghost predicate Payloads()
    {
      nColors >= 1 && forall s: nat {:trigger RowThing(random, nColors, s)} :: payload(s) == RowThing(random, nColors, s)
    }

    /** The board and the constants the board operations rely on. */
    ghost predicate BoardReady()
      reads board`nFulRowsTop, board.things
    {
      board.Valid() && 0 <= board.nRowsGap <= BOARD_HEIGHT && board.nFulRowsTop >= 0 && Payloads()
    }

    ghost predicate Valid()
      reads this`usr, board`nFulRowsTop, board.things, bullet`lstEmp, bullet.todrop, bullet.uncon, bullet.todrop.data, bullet.uncon.data
    {
      BoardReady() && bullet.Valid() && 1 <= usr.nParams <= 3
    }

    /**
     The first half of `resetGame`: a zero-initialised state with the loaded settings
     `usr0` and the seed `seed0` (`rand() % INT_MAX`). The board is empty and `gun0` is
     the gun as the zero-initialisation leaves it. `Start` completes the reset.
     */
    constructor (usr0: UserData, seed0: int, gun0: Gun, gap: int, nColors: int, nToDrop: int, random: nat -> nat)
      requires 0 <= seed0 < INT_MAX && 0 <= gap <= BOARD_HEIGHT && nColors >= 1 && 1 <= usr0.nParams <= 3
      ensures Valid() && fresh(board) && fresh(board.things) && fresh(bullet)
      ensures this.nColors == nColors && this.nToDrop == nToDrop && this.random == random
      ensures forall s: nat :: payload(s) == RowThing(random, nColors, s)
      ensures seed == seed0 && gun == gun0
      ensures score == 0 && !gameOver && !alteredDifficulty && !firstShotFired && usr == usr0
      ensures !bullet.present && !bullet.rebouncing && bullet.todrop.Contents() == [] && bullet.uncon.Contents() == []
      ensures !board.even && board.nRowsGap == gap && board.nFulRowsTop == 0 && board.Grid() == Blank()
    {
      board := new Board(gap);
      bullet := new Bullet();
      seed := seed0;
      gun := gun0;
      usr := usr0;
      score := 0;
      alteredDifficulty := false;
      gameOver := false;
      firstShotFired := false;
      this.nToDrop := nToDrop;
      this.nColors := nColors;
      this.random := random;
      this.payload := (s: nat) => RowThing(random, nColors, s);
    }

    /**
     The second half of `resetGame`, on the zeroed state: `generateRows` over the top
     `BOARD_HEIGHT - nRowsGap` rows, which are empty, then `rearm`. Only the board, the
     seed and the gun change.
     */
    method Start() returns (ghost drawn: nat)
      requires BoardReady() && board.nFulRowsTop == 0 && board.Grid() == Blank() && !board.even
      modifies this`seed, this`gun, board`nFulRowsTop, board.things
      ensures BoardReady() && !board.even
      ensures board.Grid() == Generated(Blank(), false, payload, old(seed), BOARD_HEIGHT - board.nRowsGap)
      ensures board.nFulRowsTop == if BOARD_HEIGHT - board.nRowsGap >= 2 then BOARD_HEIGHT - board.nRowsGap else 0
      ensures drawn == old(seed) + 3 * CellsBefore(BOARD_HEIGHT - board.nRowsGap, false)
      ensures (gun, seed) == Guns.Rearm(old(gun), random, nColors, drawn)
    {
      var n := BOARD_HEIGHT - board.nRowsGap;
      BlankRowsEmpty(false);
      GenerateRows(n, true);
      drawn := seed;
      Rearm();
    }

    /** `getRandVal`: seeds the generator with the current seed, bumps the seed by one, and draws from `lo .. hi`. */
    method GetRandVal(lo: int, hi: int) returns (v: int)
      requires lo <= hi
      modifies this`seed
      ensures v == RandVal(random, old(seed), lo, hi) && lo <= v <= hi
      ensures seed == old(seed) + 1
    {
      var s := seed;
      seed := seed + 1;
      v := lo + random(s) % (hi - lo + 1);
    }

    /** One colour-range draw as an attribute byte. */
    method DrawAttribute() returns (b: byte)
      requires nColors >= 1
      modifies this`seed
      ensures b == Draw(random, nColors, old(seed)) && seed == old(seed) + 1
    {
      var v := GetRandVal(0, nColors - 1);
      b := ToByte(v);
    }

    /** The three draws of one tile of `generateRows`: colour, shape and symbol, in that order. */
    method DrawRowThing() returns (t: Thing)
      requires nColors >= 1
      modifies this`seed
      ensures t == RowThing(random, nColors, old(seed)) && seed == old(seed) + 3
    {
      ghost var x := seed;
      var clr := DrawAttribute();
      var shp := DrawAttribute();
      var sym := DrawAttribute();
      t := Thing(clr, shp, sym);
    }

    /**
     The body of the inner loop of `generateRows`: three draws for colour, shape and
     symbol, then `addTile` of the payload at (row, col), which is always a real cell.
     The row, which started as the snapshot `g` with its draws from seed `s0`, gains its
     next payload. When that completes a row that was empty and every row between it and
     row 0 is full, the packed region reaches past it; otherwise it stays as it was.
     */
    method GenerateTile(row: int, col: int, ghost g: Grid, ghost s0: nat)
      requires board.Valid() && board.nFulRowsTop >= 0 && Payloads() && IsGrid(g)
      requires 0 <= row < BOARD_HEIGHT && 0 <= col < Width(row, board.even)
      requires seed == s0 + 3 * col && board.Grid() == PutRow(g, row, RowThings(payload, s0, col))
      modifies this`seed, board`nFulRowsTop, board.things
      ensures board.Valid() && board.nFulRowsTop >= 0 && board.even == old(board.even)
      ensures seed == s0 + 3 * (col + 1)
      ensures board.Grid() == PutRow(g, row, RowThings(payload, s0, col + 1))
      ensures GridRowEmpty(g, board.even, row) && (forall r :: 1 <= r < row ==> GridRowFull(g, board.even, r)) ==>
                board.nFulRowsTop == if col + 1 == Width(row, board.even) && row >= 1 then row + 1 else old(board.nFulRowsTop)
    {
      ghost var ts := RowThings(payload, s0, col);
      ghost var even := board.even;
      var thing := DrawRowThing();
      var occupied := col != BOARD_WIDTH - 1 || Parity(row, board.even) == 0;
      board.AddTile(Pos(row, col), Tile(thing, ThingRef(occupied, Pos(row, col))));
      PutRowStep(g, row, ts, thing);
      ghost var ts1 := ts + [thing];
      RowThingsNext(payload, s0, col, thing);
      if GridRowEmpty(g, even, row) && (forall r :: 1 <= r < row ==> GridRowFull(g, even, r)) {
        RunAfterPlacing(row, g, ts1);
      }
    }

    /**
     The upward walk of `addTile` after the first `|ts|` cells of an empty `row` received
     payloads, when every row between it and row 0 is full: it passes all of them once the
     row is complete, and nothing before.
     */
    lemma RunAfterPlacing(row: int, g: Grid, ts: seq<Thing>)
      requires board.Valid() && IsGrid(g) && 0 <= row < BOARD_HEIGHT && |ts| <= Width(row, board.even)
      requires board.Grid() == PutRow(g, row, ts)
      requires GridRowEmpty(g, board.even, row) && forall r :: 1 <= r < row ==> GridRowFull(g, board.even, r)
      ensures board.FullRun(row) == if |ts| == Width(row, board.even) && row >= 1 then row else 0
    {
      var h: Grid := board.Grid();
      var even := board.even;
      if |ts| < Width(row, even) {
        PutRowFull(g, even, row, ts, row);
        board.FullRunBlocked(row, h);
      } else if row >= 1 {
        forall r | 1 <= r <= row ensures GridRowFull(h, even, r) {
          PutRowFull(g, even, row, ts, r);
        }
        board.FullRunOfGrid(row, h);
      }
    }

    /**
     One pass of the outer loop of `generateRows`: the real cells of `row`, left to right,
     each given the payload of the next three draws. When the caller knows (`cleared`) that
     the row was empty and the rows between it and row 0 were full, the row ends up full
     and, below row 0, the packed region then reaches past it.
     */
    method GenerateRow(row: int, ghost cleared: bool)
      requires board.Valid() && board.nFulRowsTop >= 0 && Payloads() && 0 <= row < BOARD_HEIGHT
      requires cleared ==>
                 GridRowEmpty(board.Grid(), board.even, row) &&
                 forall r :: 1 <= r < row ==> GridRowFull(board.Grid(), board.even, r)
      modifies this`seed, board`nFulRowsTop, board.things
      ensures board.Valid() && board.nFulRowsTop >= 0 && board.even == old(board.even)
      ensures seed == old(seed) + 3 * Width(row, board.even)
      ensures board.Grid() == PutRow(old(board.Grid()), row, RowThings(payload, old(seed), Width(row, board.even)))
      ensures cleared ==> board.nFulRowsTop == if row >= 1 then row + 1 else old(board.nFulRowsTop)
    {
      ghost var g: Grid := board.Grid();
      ghost var s0 := seed;
      ghost var even := board.even;
      ghost var w := Width(row, even);
      ghost var nt := board.nFulRowsTop;
      PutRowNone(g, row);
      var col := 0;
      assert w == BOARD_WIDTH - Parity(row, board.even);
      while col < BOARD_WIDTH - Parity(row, board.even)
        invariant 0 <= col <= w
        invariant board.Valid() && board.nFulRowsTop >= 0 && board.even == even
        invariant seed == s0 + 3 * col
        invariant board.Grid() == PutRow(g, row, RowThings(payload, s0, col))
        invariant cleared && (col < w || row == 0) ==> board.nFulRowsTop == nt
        invariant cleared && col == w && row >= 1 ==> board.nFulRowsTop == row + 1
      {
        GenerateTile(row, col, g, s0);
        col := col + 1;
      }
    }

    /**
     `generateRows(n)`: rows `0 .. n-1`, each left to right, every real cell given a
     payload of three fresh draws through `addTile`. Rows that were empty end up full, and
     the packed region then covers all of them.
     */
    method GenerateRows(n: int, ghost cleared: bool)
      requires BoardReady() && n <= BOARD_HEIGHT
      requires cleared ==> forall r :: 0 <= r < n ==> GridRowEmpty(board.Grid(), board.even, r)
      modifies this`seed, board`nFulRowsTop, board.things
      ensures BoardReady() && board.even == old(board.even)
      ensures seed == old(seed) + 3 * CellsBefore(if n < 0 then 0 else n, board.even)
      ensures board.Grid() == Generated(old(board.Grid()), board.even, payload, old(seed), n)
      ensures cleared ==> board.nFulRowsTop == if n >= 2 then n else old(board.nFulRowsTop)
    {
      ghost var g0: Grid := board.Grid();
      ghost var s0 := seed;
      ghost var nt0 := board.nFulRowsTop;
      ghost var even := board.even;
      var row := 0;
      while row < n
        invariant 0 <= row <= if n < 0 then 0 else n
        invariant board.Valid() && board.nFulRowsTop >= 0 && board.even == even
        invariant seed == s0 + 3 * CellsBefore(row, even)
        invariant board.Grid() == Generated(g0, even, payload, s0, row)
        invariant cleared ==> board.nFulRowsTop == if row >= 2 then row else nt0
      {
        ghost var h: Grid := board.Grid();
        ghost var t := seed;
        if cleared {
          GeneratedNextOpen(g0, even, payload, s0, n, row, h);
        }
        GenerateRow(row, cleared);
        GeneratedNext(g0, even, payload, s0, row, h, t, board.Grid(), seed);
        row := row + 1;
      }
      assert row == if n < 0 then 0 else n;
    }

    /**
     The body of `checkLines` once a surplus is found: `shiftBoard` moves the board down
     by `extra` rows and `generateRows` fills the `extra` rows vacated at the top. The
     generated rows were empty, so a move of two or more rows leaves the packed region
     covering exactly them; a move of one row leaves it at most one row.
     */
    method Descend(extra: int)
      requires BoardReady() && 0 < extra <= BOARD_HEIGHT
      modifies this`seed, board`nFulRowsTop, board`even, board.things
      ensures BoardReady() && board.even == Toggled(old(board.even), extra)
      ensures board.Grid()
                == Generated(ShiftGrid(old(board.Grid()), extra, board.even, BOARD_HEIGHT), board.even, payload, old(seed), extra)
      ensures seed == old(seed) + 3 * CellsBefore(extra, board.even)
      ensures extra >= 2 ==> board.nFulRowsTop == extra
      ensures extra == 1 ==> board.nFulRowsTop <= 1 && (old(board.nFulRowsTop) > 0 ==> board.nFulRowsTop == 1)
    {
      ghost var g0: Grid := board.Grid();
      ghost var e0 := board.even;
      board.ShiftBoard(extra);
      forall r | 0 <= r < extra ensures GridRowEmpty(board.Grid(), board.even, r) {
        ShiftedTopEmpty(g0, extra, e0, r);
      }
      GenerateRows(extra, true);
    }

    /**
     `checkLines`: when more than `nRowsGap` empty rows lie at the bottom, the board moves
     down by the surplus and the rows it vacates at the top are generated: the board,
     flag and seed become `CheckedLines` of the old ones. Afterwards the bottom never holds
     more than `nRowsGap` empty rows, and after a move exactly that many. A move of two or
     more rows leaves the packed region covering the generated rows.
     */
    method CheckLines() returns (ghost extra: int)
      requires BoardReady()
      modifies this`seed, board`nFulRowsTop, board`even, board.things
      ensures BoardReady()
      ensures (board.Grid(), board.even, seed)
                == CheckedLines(old(board.Grid()), old(board.even), payload, old(seed), board.nRowsGap)
      ensures board.nRowsGap < BOARD_HEIGHT ==> !board.BottomEmpty(board.nRowsGap + 1)
      ensures extra > 0 ==> board.BottomEmpty(board.nRowsGap)
      ensures extra == EmptyRows(old(board.Grid()), old(board.even)) - board.nRowsGap
      ensures TopSettled(extra, old(board.nFulRowsTop), board.nFulRowsTop)
    {
      ghost var g0: Grid := board.Grid();
      ghost var e0 := board.even;
      ghost var s0 := seed;
      board.BottomEmptyRows(board.nRowsGap + 1);
      var n := board.CountBotEmpRows();
      var extraRows := n - board.nRowsGap;
      extra := extraRows;
      if extraRows > 0 {
        Descend(extraRows);
        CheckedLinesMoved(g0, e0, payload, s0, board.nRowsGap, extraRows, board.even, board.Grid(), seed);
      } else {
        assert CheckedLines(g0, e0, payload, s0, board.nRowsGap) == (g0, e0, s0);
      }
      CheckedLinesGap(g0, e0, payload, s0, board.nRowsGap);
      board.BottomEmptyRows(board.nRowsGap);
      board.BottomEmptyRows(board.nRowsGap + 1);
    }

    /**
     `checkDrop`, its discrete part: every attribute below `n_params` is tried on the
     same board; the bullet takes the lists of the first attempt with the largest total
     and starts rebouncing. The board ends as it was.
     */
    method CheckDrop() returns (ghost tried: seq<Attempt>)
      requires Valid()
      modifies board`nFulRowsTop, board.things, bullet`rebouncing
      modifies bullet.todrop`count, bullet.todrop.data, bullet.uncon`count, bullet.uncon.data
      ensures Valid() && board.Grid() == old(board.Grid()) && board.even == old(board.even)
      ensures bullet.rebouncing && |tried| == usr.nParams
      ensures AllResolved(board.Grid(), board.even, bullet.thing, bullet.lstEmp, nToDrop, tried)
      ensures var k := SelectBest(Totals(tried)).0;
              && 0 <= k < |tried|
              && bullet.todrop.Contents() == tried[k].todrop && bullet.uncon.Contents() == tried[k].uncon
              && (forall j :: 0 <= j < |tried| ==> Total(tried[j]) <= Total(tried[k]))
              && (forall j :: 0 <= j < k ==> Total(tried[j]) < Total(tried[k]))
    {
      var bestTd, bestUn;
      bestTd, bestUn, tried := TryAttributes(board, bullet.thing, bullet.lstEmp, nToDrop, usr.nParams);
      SelectBestIsFirstMaximum(Totals(tried));
      bullet.TakeLists(bestTd, bestUn);
    }

    /**
     The removals of `doDrop`: when the cluster list holds at least `N_TO_DROP` cells, the
     score gains both list lengths and every listed cell is cleared; otherwise nothing
     happens.
     */
    method DropListed()
      requires Valid()
      modifies this`score, board`nFulRowsTop, board.things
      ensures Valid() && board.even == old(board.even)
      ensures var td := bullet.todrop.Contents();
              var un := bullet.uncon.Contents();
              if |td| >= nToDrop then
                score == old(score) + |td| + |un| && board.Grid() == Cleared(old(board.Grid()), td + un) &&
                board.nFulRowsTop == TopAfterRemovals(old(board.nFulRowsTop), td + un)
              else score == old(score) && board.Grid() == old(board.Grid()) && board.nFulRowsTop == old(board.nFulRowsTop)
    {
      if bullet.todrop.count >= nToDrop {
        score := score + bullet.todrop.count;
        score := score + bullet.uncon.count;
        ghost var g: Grid := board.Grid();
        board.RemoveAll(bullet.todrop);
        board.RemoveAll(bullet.uncon);
        ClearedTwice(g, bullet.todrop.Contents(), bullet.uncon.Contents());
        TopAfterRemovalsAppend(old(board.nFulRowsTop), bullet.todrop.Contents(), bullet.uncon.Contents());
      }
    }

    /**
     The state after a drop from the board `g0`, parity `e0`, seed `s0` and packed-region
     end `t0`: the listed cells are removed when `todrop` holds at least `nToDrop` of them
     (and the end moves as their removals move it), then the board, flag and seed are
     `CheckedLines` of what is left and the end settles as `checkLines` settles it.
     */
    ghost predicate Dropped(g0: Grid, e0: bool, s0: nat, t0: int)
      reads this`seed, this`usr, board`nFulRowsTop, board`even, board.things
      reads bullet`lstEmp, bullet.todrop, bullet.todrop.data, bullet.uncon, bullet.uncon.data
      requires Valid() && IsGrid(g0)
    {
      var listed := bullet.todrop.Contents() + bullet.uncon.Contents();
      var taken := bullet.todrop.count >= nToDrop;
      var mid := if taken then Cleared(g0, listed) else g0;
      var midTop := if taken then TopAfterRemovals(t0, listed) else t0;
      (board.Grid(), board.even, seed) == CheckedLines(mid, e0, payload, s0, board.nRowsGap) &&
      TopSettled(EmptyRows(mid, e0) - board.nRowsGap, midTop, board.nFulRowsTop)
    }

    /** `doDrop`: the removals, then `checkLines`. */
    method DoDrop()
      requires Valid()
      modifies this`score, this`seed, board`nFulRowsTop, board`even, board.things
      ensures Valid()
      ensures score == old(score) + if bullet.todrop.count >= nToDrop then bullet.todrop.count + bullet.uncon.count else 0
      ensures Dropped(old(board.Grid()), old(board.even), old(seed), old(board.nFulRowsTop))
      ensures board.nRowsGap < BOARD_HEIGHT ==> !board.BottomEmpty(board.nRowsGap + 1)
    {
      DropListed();
      ghost var extra := CheckLines();
    }

    /**
     The hit scan of `flyBullet`: the occupied real cells row by row, left to right, until
     one passes the hit test `near`, which runs `checkDrop`. The bullet rebounces exactly
     when some occupied cell passes the test; otherwise nothing changes.
     */
    method ScanForHit(near: Pos -> bool)
      requires Valid() && !bullet.rebouncing
      modifies board`nFulRowsTop, board.things, bullet`rebouncing
      modifies bullet.todrop`count, bullet.todrop.data, bullet.uncon`count, bullet.uncon.data
      ensures Valid() && board.Grid() == old(board.Grid()) && board.even == old(board.even)
      ensures bullet.rebouncing <==> Hit(board.Grid(), board.even, near)
      ensures !bullet.rebouncing ==> (board.nFulRowsTop == old(board.nFulRowsTop) &&
                bullet.todrop.Contents() == old(bullet.todrop.Contents()) && bullet.uncon.Contents() == old(bullet.uncon.Contents()))
    {
      ghost var g: Grid := board.Grid();
      ghost var occ := Occupancy(g, board.even);
      var i := 0;
      while i < BOARD_HEIGHT
        invariant 0 <= i <= BOARD_HEIGHT
        invariant Valid() && board.Grid() == g && board.even == old(board.even)
        invariant bullet.rebouncing ==> Hit(g, board.even, near)
        invariant !bullet.rebouncing ==> forall p :: p in occ && p.row < i ==> !near(p)
        invariant !bullet.rebouncing ==> (board.nFulRowsTop == old(board.nFulRowsTop) &&
                    bullet.todrop.Contents() == old(bullet.todrop.Contents()) && bullet.uncon.Contents() == old(bullet.uncon.Contents()))
      {
        var j := 0;
        while j < BOARD_WIDTH - Parity(i, board.even)
          invariant 0 <= j <= Width(i, board.even)
          invariant Valid() && board.Grid() == g && board.even == old(board.even)
          invariant bullet.rebouncing ==> Hit(g, board.even, near)
          invariant !bullet.rebouncing ==> forall c :: 0 <= c < j ==> !(Pos(i, c) in occ && near(Pos(i, c)))
          invariant !bullet.rebouncing ==> (board.nFulRowsTop == old(board.nFulRowsTop) &&
                      bullet.todrop.Contents() == old(bullet.todrop.Contents()) && bullet.uncon.Contents() == old(bullet.uncon.Contents()))
        {
          if board.things[i, j].ref.present && near(Pos(i, j)) {
            assert Pos(i, j) in occ;
            var _ := CheckDrop();
            break;
          }
          j := j + 1;
        }
        if bullet.rebouncing {
          break;
        }
        forall p | p in occ && p.row == i ensures !near(p) {
          assert p == Pos(i, p.col);
        }
        i := i + 1;
      }
      if !bullet.rebouncing {
        forall p | p in occ ensures !near(p) {
        }
      }
    }

    /**
     The state after a landing from the board `g0`, parity `e0`, seed `s0` and
     packed-region end `t0`: the payload occupies the last empty cell (and the end moves to
     just past its row when the walk of `addTile` over full rows from there reaches the old
     end), the listed cells are removed when there are enough of them, and `checkLines`
     runs on what is left.
     */
    ghost predicate Landed(g0: Grid, e0: bool, s0: nat, t0: int)
      reads this`seed, this`usr, board`nFulRowsTop, board`even, board.things
      reads bullet`lstEmp, bullet`thing, bullet.todrop, bullet.todrop.data, bullet.uncon, bullet.uncon.data
      requires Valid() && IsGrid(g0)
    {
      var (placed, t1) := Placement(g0, e0, t0, bullet.lstEmp, bullet.thing);
      Dropped(placed, e0, s0, t1)
    }

    /**
     The `addTile` of a landing: the payload, marked present, occupies the last empty cell,
     and the packed region's end moves to just past that row when the walk over full rows
     from there reaches the old end.
     */
    method PlacePayload()
      requires Valid()
      modifies board`nFulRowsTop, board.things
      ensures Valid() && board.even == old(board.even)
      ensures (board.Grid(), board.nFulRowsTop)
                == Placement(old(board.Grid()), board.even, old(board.nFulRowsTop), bullet.lstEmp, bullet.thing)
    {
      board.AddTile(bullet.lstEmp, Tile(bullet.thing, ThingRef(true, Pos(0, 0))));
      board.FullRunIsGrid(bullet.lstEmp.row);
    }

    /**
     The end of a rebounce in `flyBullet`: the bullet disappears, its payload is added
     (marked present) on the last empty cell, `doDrop` runs, and the rebounce stops.
     */
    method Land()
      requires Valid()
      modifies this`score, this`seed, board`nFulRowsTop, board`even, board.things
      modifies bullet`present, bullet`rebouncing
      ensures Valid() && !bullet.present && !bullet.rebouncing
      ensures score == old(score) + if bullet.todrop.count >= nToDrop then bullet.todrop.count + bullet.uncon.count else 0
      ensures Landed(old(board.Grid()), old(board.even), old(seed), old(board.nFulRowsTop))
    {
      bullet.present := false;
      PlacePayload();
      DoDrop();
      bullet.rebouncing := false;
    }

    /**
     `flyBullet`, its discrete part, with the floating-point geometry as inputs: `offTop`
     (the bullet has left the top of the screen), `cell` (`getPosByPix` of the bullet),
     `done` (the rebounce has run its time) and `near` (a tile's centre is within hit
     distance of the bullet). A rebounce that is done lands the payload on the last empty
     cell and drops; a flying bullet records the cell it is over when empty and scans for a hit.
     */
    method FlyBullet(offTop: bool, cell: Pos, done: bool, near: Pos -> bool)
      requires Valid()
      requires bullet.present && !offTop && !bullet.rebouncing ==> InArray(cell)
      modifies this`score, this`seed, board`nFulRowsTop, board`even, board.things
      modifies bullet`present, bullet`rebouncing, bullet`lstEmp
      modifies bullet.todrop`count, bullet.todrop.data, bullet.uncon`count, bullet.uncon.data
      ensures Valid()
      ensures old(bullet.rebouncing) && done ==>
                !bullet.present && !bullet.rebouncing && bullet.lstEmp == old(bullet.lstEmp) &&
                score == old(score) + if bullet.todrop.count >= nToDrop then bullet.todrop.count + bullet.uncon.count else 0
      ensures old(bullet.rebouncing) && done ==> Landed(old(board.Grid()), old(board.even), old(seed), old(board.nFulRowsTop))
      ensures old(bullet.rebouncing) && !done ==>
                bullet.present == (old(bullet.present) && !offTop) && bullet.rebouncing &&
                board.Grid() == old(board.Grid()) && score == old(score)
      ensures old(bullet.rebouncing) && !done ==>
                seed == old(seed) && board.even == old(board.even) && board.nFulRowsTop == old(board.nFulRowsTop) &&
                bullet.lstEmp == old(bullet.lstEmp) &&
                bullet.todrop.Contents() == old(bullet.todrop.Contents()) && bullet.uncon.Contents() == old(bullet.uncon.Contents())
      ensures !old(bullet.rebouncing) ==>
                bullet.present == (old(bullet.present) && !offTop) && score == old(score) && seed == old(seed) &&
                board.Grid() == old(board.Grid()) && board.even == old(board.even)
      ensures !old(bullet.rebouncing) && !bullet.rebouncing ==>
                board.nFulRowsTop == old(board.nFulRowsTop) &&
                bullet.todrop.Contents() == old(bullet.todrop.Contents()) && bullet.uncon.Contents() == old(bullet.uncon.Contents())
      ensures !old(bullet.rebouncing) && bullet.present ==>
                bullet.lstEmp == (if old(board.Grid())[cell.row][cell.col].ref.present then old(bullet.lstEmp) else cell) &&
                (bullet.rebouncing <==> Hit(old(board.Grid()), board.even, near))
      ensures !old(bullet.rebouncing) && !bullet.present ==> !bullet.rebouncing && bullet.lstEmp == old(bullet.lstEmp)
    {
      if offTop {
        bullet.present := false;
      }
      if bullet.rebouncing {
        if done {
          Land();
        }
      } else if bullet.present {
        if !board.things[cell.row, cell.col].ref.present {
          bullet.lstEmp := cell;
        }
        ScanForHit(near);
      }
    }

    /** `setNext`: shape, colour and symbol of the next payload are drawn in that order. */
    method SetNext()
      requires nColors >= 1
      modifies this`seed, this`gun
      ensures (gun, seed) == Guns.SetNext(old(gun), random, nColors, old(seed))
    {
      var shp := DrawAttribute();
      var clr := DrawAttribute();
      var sym := DrawAttribute();
      gun := gun.(next := Thing(clr, shp, sym), nextArmed := true);
    }

    /** `rearm`. */
    method Rearm()
      requires nColors >= 1
      modifies this`seed, this`gun
      ensures (gun, seed) == Guns.Rearm(old(gun), random, nColors, old(seed))
    {
      if !gun.nextArmed {
        SetNext();
      }
      gun := gun.(armed := gun.next);
      SetNext();
    }

    /** `swapExtra`. */
    method SwapExtra()
      requires nColors >= 1
      modifies this`seed, this`gun
      ensures (gun, seed) == Guns.SwapExtra(old(gun), random, nColors, old(seed))
    {
      if gun.extraArmed {
        var e := gun.extra;
        gun := gun.(extra := gun.armed);
        gun := gun.(armed := e);
        gun := gun.(firstSwap := false);
      } else {
        gun := gun.(extra := gun.armed);
        gun := gun.(extraArmed := true);
        Rearm();
      }
    }

    /** `shootAndRearm`, its discrete part: the armed payload flies and the gun is rearmed. */
    method ShootAndRearm()
      requires Valid()
      modifies this`firstShotFired, this`seed, this`gun, bullet`present, bullet`rebouncing, bullet`thing
      ensures Valid()
      ensures firstShotFired && bullet.present && !bullet.rebouncing && bullet.thing == old(gun.armed)
      ensures (gun, seed) == Guns.Rearm(old(gun), random, nColors, old(seed))
    {
      firstShotFired := true;
      bullet.present := true;
      bullet.rebouncing := false;
      bullet.thing := gun.armed;
      Rearm();
    }

    /** `gameOver`, its discrete part: the game ends, the bullet disappears and a better score is kept. */
    method GameOver()
      requires Valid()
      modifies this`gameOver, this`usr, bullet`present
      ensures Valid()
      ensures gameOver && !bullet.present
      ensures usr == old(usr).(bestScore := BestAfter(old(usr.bestScore), score))
    {
      gameOver := true;
      bullet.present := false;
      if score > usr.bestScore {
        usr := usr.(bestScore := score);
      }
    }

    /** The settings key of `update`: the number of attributes tried moves on to the next of 1, 2, 3. */
    method CycleParams()
      requires Valid()
      modifies this`usr
      ensures Valid()
      ensures usr == old(usr).(nParams := CycledParams(old(usr.nParams)))
    {
      var n := usr.nParams;
      usr := usr.(nParams := n % 3 + 1);
    }

    /** The check at the start of every frame: any altered setting marks the game, and nothing unmarks it. */
    method UpdateAlteredDifficulty()
      requires Valid()
      modifies this`alteredDifficulty
      ensures Valid()
      ensures alteredDifficulty == AlteredAfter(old(alteredDifficulty), [usr])
    {
      if !usr.velEnabled || !usr.accEnabled || usr.nParams == 1 {
        alteredDifficulty := true;
      }
    }
  }
}
