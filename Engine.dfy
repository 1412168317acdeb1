/**
 * The game state of Main.cpp (the global `board`, `death` and `num_opened`) as one object, and
 * the operations that change it in place: setType, openMines, openCell, toggleFlag, the board
 * part of init, and the tile-level dispatch of mouse.
 */
module Engine {
  import opened Grid
  import opened Cells
  import opened Flood

  datatype Button = LeftButton | MiddleButton | RightButton

  datatype ButtonState = Down | Up

  /**
   * What `openCell(x, y)` does to a state (cells b0, `death` d0, `num_opened` k0), giving
   * (b1, d1, k1). Only `open` bits change, and only from closed to open, and an in-bounds
   * target ends open. Off the board or on an open tile nothing changes. On a closed mine,
   * `death` becomes its index, every mine opens, nothing else changes and `num_opened` drops
   * by one. Otherwise `death` is kept, the cells opened are the least expanding set around the
   * target (see `FloodFrom`) and `num_opened` drops once per newly opened cell.
   */
  ghost predicate OpenCellEffect(n: int, x: int, y: int, b0: seq<Cell>, d0: int, k0: int,
                                 b1: seq<Cell>, d1: int, k1: int)
    requires Shaped(b0, n) && Shaped(b1, n)
  {
    var detonates := InBounds(n, x, y) && !b0[Index(n, x, y)].open && b0[Index(n, x, y)].kind == MINE;
    OnlyOpened(b0, b1)
    && (InBounds(n, x, y) ==> b1[Index(n, x, y)].open)
    && (!InBounds(n, x, y) || b0[Index(n, x, y)].open ==> b1 == b0 && d1 == d0 && k1 == k0)
    && (detonates ==> d1 == Index(n, x, y) && b1 == MinesSetOpen(b0, true) && k1 == k0 - 1)
    && (!detonates ==>
          d1 == d0 && FloodFrom(b0, b1, n, x, y) && k1 == k0 - (Count(b0, Closed) - Count(b1, Closed)))
  }

  /** When the target is not a closed mine, the effect of `openCell` is a flood. */
  lemma SafeOpenFloods(n: int, x: int, y: int, b0: seq<Cell>, d0: int, k0: int,
                       b1: seq<Cell>, d1: int, k1: int)
    requires Shaped(b0, n) && Shaped(b1, n) && OpenCellEffect(n, x, y, b0, d0, k0, b1, d1, k1)
    requires InBounds(n, x, y) ==> b0[Index(n, x, y)].kind != MINE
    ensures d1 == d0 && FloodFrom(b0, b1, n, x, y) && k1 == k0 - (Count(b0, Closed) - Count(b1, Closed))
  {
  }

  /** `OpenCellEffect` determines the new state: cells, `death` and `num_opened`. */
  lemma EffectUnique(n: int, x: int, y: int, b0: seq<Cell>, d0: int, k0: int,
                     b1: seq<Cell>, d1: int, k1: int, b2: seq<Cell>, d2: int, k2: int)
    requires Shaped(b0, n) && Shaped(b1, n) && Shaped(b2, n)
    requires OpenCellEffect(n, x, y, b0, d0, k0, b1, d1, k1)
    requires OpenCellEffect(n, x, y, b0, d0, k0, b2, d2, k2)
    ensures b1 == b2 && d1 == d2 && k1 == k2
  {
    if !(InBounds(n, x, y) && !b0[Index(n, x, y)].open && b0[Index(n, x, y)].kind == MINE) {
      FloodFromUnique(b0, b1, b2, n, x, y);
    }
  }

  /** The effect of the recursive call on neighbour number k extends the partial flood by one. */
  lemma NeighbourOpened(n: int, x: int, y: int, k: int, u: int, v: int, b0: seq<Cell>, bk: seq<Cell>,
                        d0: int, k0: int, b1: seq<Cell>, d1: int, k1: int)
    requires Shaped(b0, n) && Shaped(bk, n) && Shaped(b1, n) && CountsCorrect(b0, n)
    requires InBounds(n, x, y) && 0 <= k < 8 && u == x + Offset(k).0 && v == y + Offset(k).1
    requires !IsOpen(b0, n, x, y) && GetType(b0, n, x, y) == 0 && FloodSoFar(b0, bk, n, x, y, k)
    requires OpenCellEffect(n, u, v, bk, d0, k0, b1, d1, k1)
    ensures FloodSoFar(b0, b1, n, x, y, k + 1) && d1 == d0
    ensures k1 == k0 - (Count(bk, Closed) - Count(b1, Closed)) && Count(b1, Closed) <= Count(bk, Closed)
  {
    OffsetIsNeighbour(k);
    NeighbourSafe(b0, bk, n, x, y, u, v);
    SafeOpenFloods(n, u, v, bk, d0, k0, b1, d1, k1);
    FloodStep(b0, bk, b1, n, x, y, k);
  }

  /**
   * The three clicks of the win-after-loss finding, on the 2 x 2 board with its one mine at
   * (0, 0): open (1, 0), then (0, 1), then the mine. Each step is whatever `openCell` leaves
   * (`OpenCellEffect`); the game is then lost (death == 0) while numOpened == 1 == MINE_COUNT.
   */
  lemma ThreeClickLoss(b0: seq<Cell>, b1: seq<Cell>, d1: int, k1: int, b2: seq<Cell>, d2: int, k2: int,
                       b3: seq<Cell>, d3: int, k3: int)
    requires b0 == [Cell(MINE, false, false), Cell(1, false, false), Cell(1, false, false), Cell(1, false, false)]
    requires Shaped(b1, 2) && Shaped(b2, 2) && Shaped(b3, 2)
    requires OpenCellEffect(2, 1, 0, b0, -1, 4, b1, d1, k1)
    requires OpenCellEffect(2, 0, 1, b1, d1, k1, b2, d2, k2)
    requires OpenCellEffect(2, 0, 0, b2, d2, k2, b3, d3, k3)
    ensures FreshLayout(b0, 2, 1)
    ensures d3 == 0 && k3 == 1 && Consistent(b3, 2, 1, d3, k3)
  {
    TwoByTwoFresh(b0);
    FreshLayoutConsistent(b0, 2, 1);
    SafeClick(b0, -1, 4, 1, 0, b1, d1, k1);
    SafeClick(b1, d1, k1, 0, 1, b2, d2, k2);
    DetonateKeepsConsistent(b2, 2, 1, d2, k2, 0);
  }

  /** The start board of `ThreeClickLoss` is a generated board with one mine. */
  lemma TwoByTwoFresh(b: seq<Cell>)
    requires b == [Cell(MINE, false, false), Cell(1, false, false), Cell(1, false, false), Cell(1, false, false)]
    ensures FreshLayout(b, 2, 1)
  {
    assert b[1..] == [b[1], b[2], b[3]];
    assert b[1..][1..] == [b[2], b[3]];
    assert b[1..][1..][1..] == [b[3]];
    assert b[1..][1..][1..][1..] == [];
    assert Count([b[3]], Mine) == 0 && Count([b[2], b[3]], Mine) == 0 && Count([b[1], b[2], b[3]], Mine) == 0;
    assert Count(b, Mine) == 1;
    forall x, y | InBounds(2, x, y)
      ensures GetType(b, 2, x, y) == MINE || GetType(b, 2, x, y) == CalcMine(b, 2, x, y)
    {
    }
  }

  /**
   * If (x, y) is a closed tile with a non-zero count on a consistent 2 x 2 board, `openCell`
   * opens that one cell and lowers numOpened by one.
   */
  lemma SafeClick(b0: seq<Cell>, d0: int, k0: int, x: int, y: int, b1: seq<Cell>, d1: int, k1: int)
    requires Consistent(b0, 2, 1, d0, k0) && InBounds(2, x, y) && Shaped(b1, 2)
    requires !IsOpen(b0, 2, x, y) && GetType(b0, 2, x, y) != MINE && GetType(b0, 2, x, y) != 0
    requires OpenCellEffect(2, x, y, b0, d0, k0, b1, d1, k1)
    ensures var s := Index(2, x, y); b1 == b0[s := b0[s].(open := true)]
    ensures Consistent(b1, 2, 1, d1, k1) && d1 == d0 && k1 == k0 - 1
  {
    var s := Index(2, x, y);
    var c := b0[s := b0[s].(open := true)];
    FloodStart(b0, 2, x, y);
    FloodFinish(b0, c, 2, x, y, 0);
    SafeOpenFloods(2, x, y, b0, d0, k0, b1, d1, k1);
    FloodFromUnique(b0, b1, c, 2, x, y);
    OpenSafeKeepsConsistent(b0, 2, 1, d0, k0, s);
  }

  class Board {
    /** BOARD_SIZE and MINE_COUNT, as parameters. */
    const n: int
    const mineCount: int
    /** The N*N cells in row-major order. */
    const board: array<Cell>
    /** -1 while no mine has gone off, else the index of the detonated mine. */
    var death: int
    /** Counts down from N*N as `openCell` opens cells. */
    var numOpened: int

    ghost predicate Valid()
      reads this, board
    {
      board.Length == n * n && Consistent(board[..], n, mineCount, death, numOpened)
    }

    predicate Configured()
      reads this
    {
      0 < n && 0 <= mineCount < n * n && board.Length == n * n
    }

    /** Allocates the board and runs the board part of `init`, as the game's start-up does. */
    constructor (size: int, mines: int)
      requires 0 < size && 0 <= mines < size * size
      ensures n == size && mineCount == mines && fresh(board)
      ensures Valid() && FreshLayout(board[..], n, mineCount)
      ensures death == -1 && numOpened == n * n
    {
      n, mineCount := size, mines;
      board := new Cell[size * size](_ => BLANK);
      death, numOpened := -1, size * size;
      new;
      Init();
    }

    // -------------------------------------------------------------------------------------
    // Game status

    /** `gameOver`: a mine has gone off; then it is an open mine and every mine is revealed. */
    function GameOver(): (r: bool)
      reads this, board
      ensures Valid() && r ==>
                0 <= death < board.Length && board[death].kind == MINE && board[death].open
                && AllMinesOpen(board[..])
    {
      death != -1
    }

    /** `isDead(x, y)`: (x, y) is the tile whose mine went off. */
    function IsDead(x: int, y: int): (r: bool)
      reads this, board
      ensures Valid() && r && InBounds(n, x, y) ==>
                GetType(board[..], n, x, y) == MINE && IsOpen(board[..], n, x, y)
    {
      death == Index(n, x, y)
    }

    /** At most one tile of the board is the detonated one. */
    lemma DeadTileUnique(x: int, y: int, u: int, v: int)
      requires InBounds(n, x, y) && InBounds(n, u, v) && IsDead(x, y) && IsDead(u, v)
      ensures x == u && y == v
    {
      IndexInjective(n, x, y, u, v);
    }

    /** `hasWon` as the game has it: `num_opened == MINE_COUNT`. */
    function HasWonAsWritten(): (r: bool)
      reads this
      ensures death == -1 ==> (r <==> HasWon())
    {
      numOpened == mineCount
    }

    /** `hasWon` corrected: the count test, and no mine has gone off. */
    function HasWon(): (r: bool)
      reads this
      ensures r ==> !GameOver()
    {
      numOpened == mineCount && death == -1
    }

    /** A game is won exactly when no mine has gone off and every safe cell is open. */
    lemma WonIffCleared()
      requires Valid()
      ensures HasWon() <==> death == -1 && AllSafeOpen(board[..])
    {
      if death == -1 {
        WonIffAllSafeOpen(board[..], n, mineCount, numOpened);
      }
    }

    /** The game's dispatch gate is the same with either win test. */
    lemma FinishedGateUnchanged()
      ensures (GameOver() || HasWon()) == (GameOver() || HasWonAsWritten())
    {
    }

    // -------------------------------------------------------------------------------------
    // Updates

    /** `setType`. */
    method SetType(x: int, y: int, value: int)
      requires board.Length == n * n && InBounds(n, x, y)
      modifies board
      ensures board[..] == old(board[..])[Index(n, x, y) := old(board[Index(n, x, y)]).(kind := value)]
    {
      var i := Index(n, x, y);
      board[i] := board[i].(kind := value);
    }

    /** `openMines(open)`: sets `open` on every mine cell, row by row. */
    method OpenMines(open: bool)
      requires 0 < n && board.Length == n * n
      modifies board
      ensures board[..] == MinesSetOpen(old(board[..]), open)
    {
      ghost var b0 := board[..];
      for y := 0 to n
        invariant forall i :: 0 <= i < board.Length ==>
                    board[i] == if i < y * n && b0[i].kind == MINE then b0[i].(open := open) else b0[i]
      {
        for x := 0 to n
          invariant forall i :: 0 <= i < board.Length ==>
                      board[i] == if i < x + y * n && b0[i].kind == MINE then b0[i].(open := open) else b0[i]
        {
          if IsMine(board[..], n, x, y) {
            var i := Index(n, x, y);
            board[i] := board[i].(open := open);
          }
        }
        assert n + y * n == (y + 1) * n;
      }
    }

    /**
     * `openCell(x, y)`: off the board or on an open tile nothing happens. Otherwise the tile
     * opens and `numOpened` drops by one; a mine records `death` and reveals every mine; a
     * 0-count tile recurses on its eight neighbours. The recursion ends because every call
     * that does anything opens a closed cell.
     */
    method OpenCell(x: int, y: int)
      requires Valid()
      modifies board, this`death, this`numOpened
      decreases Count(board[..], Closed), 1
      ensures Valid()
      ensures OpenCellEffect(n, x, y, old(board[..]), old(death), old(numOpened), board[..], death, numOpened)
    {
      if !InBounds(n, x, y) {
        FloodNoop(board[..], n, x, y);
        return;
      }
      if IsOpen(board[..], n, x, y) {
        FloodNoop(board[..], n, x, y);
        return;
      }
      var s := Index(n, x, y);
      ghost var b0 := board[..];
      numOpened := numOpened - 1;
      board[s] := board[s].(open := true);

      if IsMine(board[..], n, x, y) {
        DetonateKeepsConsistent(b0, n, mineCount, death, numOpened + 1, s);
        death := s;
        OpenMines(true);
        return;
      }

      OpenSafeKeepsConsistent(b0, n, mineCount, death, numOpened + 1, s);
      FloodStart(b0, n, x, y);
      if GetType(board[..], n, x, y) == 0 {
        OpenNeighbour(x, y, 0, b0);
        OpenNeighbour(x, y, 1, b0);
        OpenNeighbour(x, y, 2, b0);
        OpenNeighbour(x, y, 3, b0);
        OpenNeighbour(x, y, 4, b0);
        OpenNeighbour(x, y, 5, b0);
        OpenNeighbour(x, y, 6, b0);
        OpenNeighbour(x, y, 7, b0);
        FloodFinish(b0, board[..], n, x, y, 8);
      } else {
        FloodFinish(b0, board[..], n, x, y, 0);
      }
    }

    /**
     * One of the eight recursive calls `openCell` makes on a 0-count tile (x, y): the call on
     * neighbour number k, in source order. b0 is the board before (x, y) was opened.
     */
    method OpenNeighbour(x: int, y: int, k: int, ghost b0: seq<Cell>)
      requires Valid() && Shaped(b0, n) && CountsCorrect(b0, n) && InBounds(n, x, y) && 0 <= k < 8
      requires !IsOpen(b0, n, x, y) && GetType(b0, n, x, y) == 0
      requires FloodSoFar(b0, board[..], n, x, y, k)
      requires Count(board[..], Closed) < Count(b0, Closed)
      modifies board, this`death, this`numOpened
      decreases Count(b0, Closed), 0
      ensures Valid() && FloodSoFar(b0, board[..], n, x, y, k + 1)
      ensures death == old(death)
      ensures numOpened == old(numOpened) - (Count(old(board[..]), Closed) - Count(board[..], Closed))
      ensures Count(board[..], Closed) <= Count(old(board[..]), Closed)
    {
      ghost var bk := board[..];
      var u, v := x + Offset(k).0, y + Offset(k).1;
      OpenCell(u, v);
      NeighbourOpened(n, x, y, k, u, v, b0, bk, old(death), old(numOpened), board[..], death, numOpened);
    }

    /**
     * `openCell` is idempotent: a second call on the same tile changes nothing, so two calls
     * have exactly the effect of one.
     */
    method OpenCellTwice(x: int, y: int)
      requires Valid()
      modifies board, this`death, this`numOpened
      ensures Valid()
      ensures OpenCellEffect(n, x, y, old(board[..]), old(death), old(numOpened), board[..], death, numOpened)
    {
      OpenCell(x, y);
      ghost var once, deathOnce, openedOnce := board[..], death, numOpened;
      OpenCell(x, y);
      assert board[..] == once && death == deathOnce && numOpened == openedOnce;
    }

    /** `toggleFlag`, bounds-checked: flips the flag of one tile and nothing else. */
    method ToggleFlag(x: int, y: int)
      requires Valid()
      modifies board
      ensures Valid() && board[..] == ToggleAt(old(board[..]), n, x, y)
    {
      if InBounds(n, x, y) {
        ToggleKeepsConsistent(board[..], n, mineCount, death, numOpened, x, y);
        var i := Index(n, x, y);
        board[i] := board[i].(flag := !board[i].flag);
      }
    }

    /** `toggleFlag` as the game has it: no bounds check, so the raw index must land in the array. */
    method ToggleFlagAsWritten(x: int, y: int)
      requires board.Length == n * n && 0 <= Index(n, x, y) < board.Length
      modifies board
      ensures board[..] == old(board[..])[Index(n, x, y) := old(board[Index(n, x, y)]).(flag := !old(board[Index(n, x, y)].flag))]
    {
      var i := Index(n, x, y);
      board[i] := board[i].(flag := !board[i].flag);
    }

    /**
     * The board part of `init`: clear every cell, place MINE_COUNT mines by rejection
     * sampling, write the neighbour count into every other cell, reset the counters.
     */
    method Init()
      requires Configured()
      modifies board, this`death, this`numOpened
      ensures Valid() && FreshLayout(board[..], n, mineCount)
      ensures death == -1 && numOpened == n * n
    {
      for i := 0 to n * n
        invariant forall j :: 0 <= j < i ==> board[j] == BLANK
      {
        board[i] := BLANK;
      }
      CountNone(board[..], Mine);
      PlaceMines();
      FillCounts();
      death := -1;
      numOpened := n * n;
      FreshLayoutConsistent(board[..], n, mineCount);
    }

    /** The mine loop of `init`: MINE_COUNT times, draw tiles until one is not a mine and make it one. */
    method PlaceMines()
      requires Configured() && AllClosedUnflagged(board[..]) && Count(board[..], Mine) == 0
      modifies board
      ensures AllClosedUnflagged(board[..]) && Count(board[..], Mine) == mineCount
    {
      for i := 0 to mineCount
        invariant AllClosedUnflagged(board[..])
        invariant Count(board[..], Mine) == i
      {
        // The retry loop stops on a tile that is not yet a mine; such a tile exists.
        FreeTileExists(board[..], n);
        var x, y :| InBounds(n, x, y) && !IsMine(board[..], n, x, y);
        ghost var before := board[..];
        SetType(x, y, MINE);
        CountUpdate(before, Index(n, x, y), board[Index(n, x, y)], Mine);
      }
    }

    /** The count loop of `init`: every tile that is not a mine gets its neighbour count. */
    method FillCounts()
      requires Configured() && AllClosedUnflagged(board[..])
      modifies board
      ensures AllClosedUnflagged(board[..]) && SameMines(old(board[..]), board[..])
      ensures CountsCorrect(board[..], n) && Count(board[..], Mine) == Count(old(board[..]), Mine)
    {
      ghost var placed := board[..];
      for y := 0 to n
        invariant SameMines(placed, board[..]) && AllClosedUnflagged(board[..])
        invariant forall u, v :: InBounds(n, u, v) && v < y ==>
                    GetType(board[..], n, u, v) == MINE || GetType(board[..], n, u, v) == CalcMine(placed, n, u, v)
      {
        for x := 0 to n
          invariant SameMines(placed, board[..]) && AllClosedUnflagged(board[..])
          invariant forall u, v :: InBounds(n, u, v) && (v < y || (v == y && u < x)) ==>
                      GetType(board[..], n, u, v) == MINE || GetType(board[..], n, u, v) == CalcMine(placed, n, u, v)
        {
          if !IsMine(board[..], n, x, y) {
            ghost var before := board[..];
            CalcMineSameMines(placed, before, n, x, y);
            CalcMineCountsNeighbours(before, n, x, y);
            SetType(x, y, CalcMine(board[..], n, x, y));
            forall u, v | InBounds(n, u, v) && (u != x || v != y)
              ensures GetType(board[..], n, u, v) == GetType(before, n, u, v)
            {
              if Index(n, u, v) == Index(n, x, y) {
                IndexInjective(n, u, v, x, y);
              }
            }
          }
        }
      }
      forall u, v | InBounds(n, u, v)
        ensures GetType(board[..], n, u, v) == MINE || GetType(board[..], n, u, v) == CalcMine(board[..], n, u, v)
      {
        CalcMineSameMines(placed, board[..], n, u, v);
      }
      CountSame(placed, Mine, board[..], Mine);
    }

    /** The state part of `draw`: a finished game (lost, or won by the game's own test) reveals every mine. */
    method RevealIfFinished()
      requires Valid()
      modifies board
      ensures Valid()
      ensures board[..] == if old(GameOver() || HasWonAsWritten()) then MinesSetOpen(old(board[..]), true)
                           else old(board[..])
    {
      if GameOver() || HasWonAsWritten() {
        RevealKeepsConsistent(board[..], n, mineCount, death, numOpened);
        OpenMines(true);
      }
    }

    /**
     * `mouse`, from tile coordinates on: a left press in the restart region restarts; any
     * other left press opens a tile and a right press toggles a flag, both only while the game
     * is neither lost nor won.
     */
    method Mouse(button: Button, state: ButtonState, x: int, y: int)
      requires Valid()
      modifies board, this`death, this`numOpened
      ensures Valid()
      ensures state == Up || button == MiddleButton ==>
                board[..] == old(board[..]) && death == old(death) && numOpened == old(numOpened)
      ensures button == LeftButton && state == Down && RequestRestart(n, x, y) ==>
                FreshLayout(board[..], n, mineCount) && death == -1 && numOpened == n * n
      ensures old(GameOver() || HasWon()) && !(button == LeftButton && state == Down && RequestRestart(n, x, y)) ==>
                board[..] == old(board[..]) && death == old(death) && numOpened == old(numOpened)
      ensures button == RightButton && state == Down && !old(GameOver() || HasWon()) ==>
                board[..] == ToggleAt(old(board[..]), n, x, y) && death == old(death) && numOpened == old(numOpened)
      ensures button == LeftButton && state == Down && !RequestRestart(n, x, y) && !old(GameOver() || HasWon()) ==>
                OpenCellEffect(n, x, y, old(board[..]), old(death), old(numOpened), board[..], death, numOpened)
    {
      match button
      case LeftButton =>
        if state == Down {
          if RequestRestart(n, x, y) {
            Init();
          } else if !GameOver() && !HasWon() {
            OpenCell(x, y);
          }
        }
      case RightButton =>
        if state == Down {
          if !(GameOver() || HasWon()) {
            ToggleFlag(x, y);
          }
        }
      case MiddleButton =>
    }
  }
}
