/**
 * The board as a value: one `Cell` per tile in row-major order, the game's query helpers,
 * the neighbour count, cell counting and the consistency invariant of a running game.
 */
module Cells {
  import opened Grid

  /** The `type` value that marks a mine; other cells hold their neighbour count 0..8. */
  const MINE: int := 9

  datatype Cell = Cell(kind: int, flag: bool, open: bool)

  /** The state every cell is reset to before mines are placed. */
  const BLANK: Cell := Cell(0, false, false)

  predicate Shaped(b: seq<Cell>, n: int) {
    0 < n && |b| == n * n
  }

  function GetType(b: seq<Cell>, n: int, x: int, y: int): int
    requires Shaped(b, n) && InBounds(n, x, y)
  {
    b[Index(n, x, y)].kind
  }

  function IsOpen(b: seq<Cell>, n: int, x: int, y: int): bool
    requires Shaped(b, n) && InBounds(n, x, y)
  {
    b[Index(n, x, y)].open
  }

  function IsFlag(b: seq<Cell>, n: int, x: int, y: int): bool
    requires Shaped(b, n) && InBounds(n, x, y)
  {
    b[Index(n, x, y)].flag
  }

  /** `isMine`: bounds-checked, so a tile off the board is never a mine. */
  function IsMine(b: seq<Cell>, n: int, x: int, y: int): (r: bool)
    requires Shaped(b, n)
    ensures r ==> InBounds(n, x, y)
  {
    if !InBounds(n, x, y) then false else GetType(b, n, x, y) == MINE
  }

  function Bit(c: bool): int {
    if c then 1 else 0
  }

  /** `calcMine`: the eight neighbour tests added up in the order the game adds them. */
  function CalcMine(b: seq<Cell>, n: int, x: int, y: int): int
    requires Shaped(b, n)
  {
    Bit(IsMine(b, n, x - 1, y - 1))
    + Bit(IsMine(b, n, x + 1, y - 1))
    + Bit(IsMine(b, n, x - 1, y))
    + Bit(IsMine(b, n, x + 1, y))
    + Bit(IsMine(b, n, x, y - 1))
    + Bit(IsMine(b, n, x, y + 1))
    + Bit(IsMine(b, n, x - 1, y + 1))
    + Bit(IsMine(b, n, x + 1, y + 1))
  }

  /** Reference definition: the in-bounds Moore neighbours of (x, y) that hold a mine. */
  ghost function MineNeighbours(b: seq<Cell>, n: int, x: int, y: int): set<(int, int)>
    requires Shaped(b, n)
  {
    set u, v | x - 1 <= u <= x + 1 && y - 1 <= v <= y + 1 && (u != x || v != y)
                 && InBounds(n, u, v) && GetType(b, n, u, v) == MINE :: (u, v)
  }

  function MaybeTile(c: bool, u: int, v: int): set<(int, int)> {
    if c then {(u, v)} else {}
  }

  /** The mine neighbours assembled in the order `calcMine` visits them. */
  function MineTiles(b: seq<Cell>, n: int, x: int, y: int): set<(int, int)>
    requires Shaped(b, n)
  {
    MaybeTile(IsMine(b, n, x - 1, y - 1), x - 1, y - 1)
    + MaybeTile(IsMine(b, n, x + 1, y - 1), x + 1, y - 1)
    + MaybeTile(IsMine(b, n, x - 1, y), x - 1, y)
    + MaybeTile(IsMine(b, n, x + 1, y), x + 1, y)
    + MaybeTile(IsMine(b, n, x, y - 1), x, y - 1)
    + MaybeTile(IsMine(b, n, x, y + 1), x, y + 1)
    + MaybeTile(IsMine(b, n, x - 1, y + 1), x - 1, y + 1)
    + MaybeTile(IsMine(b, n, x + 1, y + 1), x + 1, y + 1)
  }

  lemma AddTile(a: set<(int, int)>, t: set<(int, int)>, c: bool, u: int, v: int)
    requires a <= t && (u, v) !in t
    ensures |a + MaybeTile(c, u, v)| == |a| + Bit(c)
    ensures a + MaybeTile(c, u, v) <= t + {(u, v)}
  {
  }

  /** The four tiles above and beside (x, y), in the order `calcMine` tests them. */
  lemma UpperTilesSize(c1: bool, c2: bool, c3: bool, c4: bool, x: int, y: int)
    ensures |MaybeTile(c1, x - 1, y - 1) + MaybeTile(c2, x + 1, y - 1) + MaybeTile(c3, x - 1, y)
             + MaybeTile(c4, x + 1, y)| == Bit(c1) + Bit(c2) + Bit(c3) + Bit(c4)
    ensures MaybeTile(c1, x - 1, y - 1) + MaybeTile(c2, x + 1, y - 1) + MaybeTile(c3, x - 1, y)
             + MaybeTile(c4, x + 1, y) <= {(x - 1, y - 1), (x + 1, y - 1), (x - 1, y), (x + 1, y)}
  {
    var s1 := MaybeTile(c1, x - 1, y - 1);
    var t1 := {(x - 1, y - 1)};
    AddTile(s1, t1, c2, x + 1, y - 1);
    var s2 := s1 + MaybeTile(c2, x + 1, y - 1);
    var t2 := t1 + {(x + 1, y - 1)};
    AddTile(s2, t2, c3, x - 1, y);
    var s3 := s2 + MaybeTile(c3, x - 1, y);
    var t3 := t2 + {(x - 1, y)};
    AddTile(s3, t3, c4, x + 1, y);
  }

  /** The four remaining tiles, added to a set of the first four. */
  lemma LowerTilesSize(a: set<(int, int)>, c5: bool, c6: bool, c7: bool, c8: bool, x: int, y: int)
    requires a <= {(x - 1, y - 1), (x + 1, y - 1), (x - 1, y), (x + 1, y)}
    ensures |a + MaybeTile(c5, x, y - 1) + MaybeTile(c6, x, y + 1) + MaybeTile(c7, x - 1, y + 1)
             + MaybeTile(c8, x + 1, y + 1)| == |a| + Bit(c5) + Bit(c6) + Bit(c7) + Bit(c8)
  {
    ColumnTilesSize(a, c5, c6, x, y);
    CornerTilesSize(a + MaybeTile(c5, x, y - 1) + MaybeTile(c6, x, y + 1), c7, c8, x, y);
  }

  /** The tiles straight below and above (x, y). */
  lemma ColumnTilesSize(a: set<(int, int)>, c5: bool, c6: bool, x: int, y: int)
    requires a <= {(x - 1, y - 1), (x + 1, y - 1), (x - 1, y), (x + 1, y)}
    ensures |a + MaybeTile(c5, x, y - 1) + MaybeTile(c6, x, y + 1)| == |a| + Bit(c5) + Bit(c6)
    ensures a + MaybeTile(c5, x, y - 1) + MaybeTile(c6, x, y + 1)
            <= {(x - 1, y - 1), (x + 1, y - 1), (x - 1, y), (x + 1, y), (x, y - 1), (x, y + 1)}
  {
    var t4 := {(x - 1, y - 1), (x + 1, y - 1), (x - 1, y), (x + 1, y)};
    AddTile(a, t4, c5, x, y - 1);
    AddTile(a + MaybeTile(c5, x, y - 1), t4 + {(x, y - 1)}, c6, x, y + 1);
  }

  /** The two upper corner tiles, added to a set of the other six. */
  lemma CornerTilesSize(a: set<(int, int)>, c7: bool, c8: bool, x: int, y: int)
    requires a <= {(x - 1, y - 1), (x + 1, y - 1), (x - 1, y), (x + 1, y), (x, y - 1), (x, y + 1)}
    ensures |a + MaybeTile(c7, x - 1, y + 1) + MaybeTile(c8, x + 1, y + 1)| == |a| + Bit(c7) + Bit(c8)
  {
    var t6 := {(x - 1, y - 1), (x + 1, y - 1), (x - 1, y), (x + 1, y), (x, y - 1), (x, y + 1)};
    AddTile(a, t6, c7, x - 1, y + 1);
    AddTile(a + MaybeTile(c7, x - 1, y + 1), t6 + {(x - 1, y + 1)}, c8, x + 1, y + 1);
  }

  lemma MineTilesSize(b: seq<Cell>, n: int, x: int, y: int)
    requires Shaped(b, n)
    ensures |MineTiles(b, n, x, y)| == CalcMine(b, n, x, y)
  {
    var c1, c2, c3, c4 := IsMine(b, n, x - 1, y - 1), IsMine(b, n, x + 1, y - 1), IsMine(b, n, x - 1, y), IsMine(b, n, x + 1, y);
    var c5, c6, c7, c8 := IsMine(b, n, x, y - 1), IsMine(b, n, x, y + 1), IsMine(b, n, x - 1, y + 1), IsMine(b, n, x + 1, y + 1);
    var upper := MaybeTile(c1, x - 1, y - 1) + MaybeTile(c2, x + 1, y - 1) + MaybeTile(c3, x - 1, y) + MaybeTile(c4, x + 1, y);
    UpperTilesSize(c1, c2, c3, c4, x, y);
    LowerTilesSize(upper, c5, c6, c7, c8, x, y);
  }

  lemma MineTilesAreNeighbours(b: seq<Cell>, n: int, x: int, y: int)
    requires Shaped(b, n)
    ensures MineTiles(b, n, x, y) == MineNeighbours(b, n, x, y)
  {
    var m := MineNeighbours(b, n, x, y);
    var t := MineTiles(b, n, x, y);
    forall p | p in m ensures p in t {
      assert IsMine(b, n, p.0, p.1);
    }
    forall p | p in t ensures p in m {
      assert IsMine(b, n, p.0, p.1);
    }
  }

  /** `calcMine(x, y)` is the number of mine-holding in-bounds neighbours, hence within 0..8. */
  lemma CalcMineCountsNeighbours(b: seq<Cell>, n: int, x: int, y: int)
    requires Shaped(b, n)
    ensures CalcMine(b, n, x, y) == |MineNeighbours(b, n, x, y)|
    ensures 0 <= CalcMine(b, n, x, y) <= 8
  {
    MineTilesSize(b, n, x, y);
    MineTilesAreNeighbours(b, n, x, y);
  }

  /** A zero count means no neighbour of (x, y) is a mine. */
  lemma CalcMineZero(b: seq<Cell>, n: int, x: int, y: int, u: int, v: int)
    requires Shaped(b, n) && CalcMine(b, n, x, y) == 0
    requires x - 1 <= u <= x + 1 && y - 1 <= v <= y + 1 && (u != x || v != y)
    ensures !IsMine(b, n, u, v)
  {
  }

  predicate SameMines(b1: seq<Cell>, b2: seq<Cell>) {
    |b1| == |b2| && forall i :: 0 <= i < |b1| ==> (b1[i].kind == MINE <==> b2[i].kind == MINE)
  }

  /** The neighbour count only depends on where the mines are. */
  lemma CalcMineSameMines(b1: seq<Cell>, b2: seq<Cell>, n: int, x: int, y: int)
    requires Shaped(b1, n) && SameMines(b1, b2)
    ensures Shaped(b2, n) && CalcMine(b1, n, x, y) == CalcMine(b2, n, x, y)
  {
  }

  /** Every non-mine cell holds its true neighbour count (the count invariant). */
  ghost predicate CountsCorrect(b: seq<Cell>, n: int)
    requires Shaped(b, n)
  {
    forall x, y :: InBounds(n, x, y) ==>
      GetType(b, n, x, y) == MINE || GetType(b, n, x, y) == CalcMine(b, n, x, y)
  }

  predicate SameKinds(b1: seq<Cell>, b2: seq<Cell>) {
    |b1| == |b2| && forall i :: 0 <= i < |b1| ==> b1[i].kind == b2[i].kind
  }

  lemma CountsCorrectSameKinds(b1: seq<Cell>, b2: seq<Cell>, n: int)
    requires Shaped(b1, n) && SameKinds(b1, b2) && CountsCorrect(b1, n)
    ensures Shaped(b2, n) && CountsCorrect(b2, n)
  {
    forall x, y | InBounds(n, x, y)
      ensures GetType(b2, n, x, y) == MINE || GetType(b2, n, x, y) == CalcMine(b2, n, x, y)
    {
      CalcMineSameMines(b1, b2, n, x, y);
    }
  }

  /** Under the count invariant every cell type is 0..8 or MINE. */
  lemma KindsInRange(b: seq<Cell>, n: int, x: int, y: int)
    requires Shaped(b, n) && CountsCorrect(b, n) && InBounds(n, x, y)
    ensures 0 <= GetType(b, n, x, y) <= MINE
  {
    CalcMineCountsNeighbours(b, n, x, y);
  }

  // ---------------------------------------------------------------------------------------
  // Counting cells

  datatype CellClass = Closed | OpenSafe | OpenMine | Mine | Safe

  predicate Holds(w: CellClass, c: Cell) {
    match w
    case Closed => !c.open
    case OpenSafe => c.open && c.kind != MINE
    case OpenMine => c.open && c.kind == MINE
    case Mine => c.kind == MINE
    case Safe => c.kind != MINE
  }

  /** The number of cells of class `w`. */
  function Count(b: seq<Cell>, w: CellClass): (r: nat)
    ensures r <= |b|
  {
    if b == [] then 0 else Bit(Holds(w, b[0])) + Count(b[1..], w)
  }

  /** Replacing one cell changes a count by that cell's contribution only. */
  lemma {:induction false} CountUpdate(b: seq<Cell>, i: int, c: Cell, w: CellClass)
    requires 0 <= i < |b|
    ensures Count(b[i := c], w) == Count(b, w) - Bit(Holds(w, b[i])) + Bit(Holds(w, c))
  {
    if i > 0 {
      assert b[i := c][1..] == b[1..][i - 1 := c];
      CountUpdate(b[1..], i - 1, c, w);
    } else {
      assert b[i := c][1..] == b[1..];
    }
  }

  /** Counting is monotone under a cell-by-cell implication. */
  lemma {:induction false} CountMono(b1: seq<Cell>, w1: CellClass, b2: seq<Cell>, w2: CellClass)
    requires |b1| == |b2|
    requires forall i :: 0 <= i < |b1| && Holds(w1, b1[i]) ==> Holds(w2, b2[i])
    ensures Count(b1, w1) <= Count(b2, w2)
  {
    if b1 != [] {
      CountMono(b1[1..], w1, b2[1..], w2);
    }
  }

  /** When the two classes agree cell by cell the counts are equal. */
  lemma CountSame(b1: seq<Cell>, w1: CellClass, b2: seq<Cell>, w2: CellClass)
    requires |b1| == |b2|
    requires forall i :: 0 <= i < |b1| ==> (Holds(w1, b1[i]) <==> Holds(w2, b2[i]))
    ensures Count(b1, w1) == Count(b2, w2)
  {
    CountMono(b1, w1, b2, w2);
    CountMono(b2, w2, b1, w1);
  }

  /** Under the implication, one cell where only the second class holds makes the count strictly larger. */
  lemma {:induction false} CountStrict(b1: seq<Cell>, w1: CellClass, b2: seq<Cell>, w2: CellClass, j: int)
    requires |b1| == |b2| && 0 <= j < |b1|
    requires forall i :: 0 <= i < |b1| && Holds(w1, b1[i]) ==> Holds(w2, b2[i])
    requires !Holds(w1, b1[j]) && Holds(w2, b2[j])
    ensures Count(b1, w1) < Count(b2, w2)
  {
    if j == 0 {
      CountMono(b1[1..], w1, b2[1..], w2);
    } else {
      CountStrict(b1[1..], w1, b2[1..], w2, j - 1);
    }
  }

  /** Closed, open-safe and open-mine cells partition the board, and so do mines and safe cells. */
  lemma {:induction false} CountPartition(b: seq<Cell>)
    ensures Count(b, Closed) + Count(b, OpenSafe) + Count(b, OpenMine) == |b|
    ensures Count(b, Mine) + Count(b, Safe) == |b|
  {
    if b != [] {
      CountPartition(b[1..]);
    }
  }

  /** A class that holds of no cell counts zero. */
  lemma {:induction false} CountNone(b: seq<Cell>, w: CellClass)
    requires forall i :: 0 <= i < |b| ==> !Holds(w, b[i])
    ensures Count(b, w) == 0
  {
    if b != [] {
      CountNone(b[1..], w);
    }
  }

  /** A class that counts zero holds of no cell. */
  lemma {:induction false} CountZero(b: seq<Cell>, w: CellClass)
    requires Count(b, w) == 0
    ensures forall i :: 0 <= i < |b| ==> !Holds(w, b[i])
  {
    if b != [] {
      CountZero(b[1..], w);
      forall i | 1 <= i < |b|
        ensures !Holds(w, b[i])
      {
        assert b[i] == b[1..][i - 1];
      }
    }
  }

  /** A class that does not cover the whole board misses some cell. */
  lemma {:induction false} CountMisses(b: seq<Cell>, w: CellClass) returns (j: int)
    requires Count(b, w) < |b|
    ensures 0 <= j < |b| && !Holds(w, b[j])
  {
    if Holds(w, b[0]) {
      j := CountMisses(b[1..], w);
      j := j + 1;
    } else {
      j := 0;
    }
  }

  /** While fewer than N*N cells are mines, some tile is still free for the next mine. */
  lemma FreeTileExists(b: seq<Cell>, n: int)
    requires Shaped(b, n) && Count(b, Mine) < |b|
    ensures exists x, y :: InBounds(n, x, y) && !IsMine(b, n, x, y)
  {
    var j := CountMisses(b, Mine);
    IndexOnto(n, j);
    assert InBounds(n, j % n, j / n) && !IsMine(b, n, j % n, j / n);
  }

  // ---------------------------------------------------------------------------------------
  // Whole-board predicates and the invariant of a running game

  predicate AllMinesOpen(b: seq<Cell>) {
    forall i :: 0 <= i < |b| && b[i].kind == MINE ==> b[i].open
  }

  predicate AllSafeOpen(b: seq<Cell>) {
    forall i :: 0 <= i < |b| && b[i].kind != MINE ==> b[i].open
  }

  predicate AllClosedUnflagged(b: seq<Cell>) {
    forall i :: 0 <= i < |b| ==> !b[i].open && !b[i].flag
  }

  /** What the board generation leaves: counts correct, the mine total, every cell closed and unflagged. */
  ghost predicate FreshLayout(b: seq<Cell>, n: int, mines: int)
  {
    Shaped(b, n) && CountsCorrect(b, n) && Count(b, Mine) == mines && AllClosedUnflagged(b)
  }

  /**
   * The invariant of a game between two player actions. `death` is -1 or the index of the
   * detonated mine; `numOpened` starts at N*N and drops once per cell `openCell` opens, i.e.
   * once per open safe cell and once more for the detonated mine.
   */
  ghost predicate Consistent(b: seq<Cell>, n: int, mines: int, death: int, numOpened: int)
  {
    Shaped(b, n) && 0 <= mines < n * n
    && CountsCorrect(b, n)
    && Count(b, Mine) == mines
    && (death == -1 || (0 <= death < |b| && b[death].kind == MINE && b[death].open && AllMinesOpen(b)))
    && numOpened == n * n - Count(b, OpenSafe) - (if death == -1 then 0 else 1)
  }

  /** A freshly generated board with death == -1 and numOpened == N*N is a consistent game. */
  lemma FreshLayoutConsistent(b: seq<Cell>, n: int, mines: int)
    requires FreshLayout(b, n, mines) && mines < n * n
    ensures Consistent(b, n, mines, -1, n * n)
  {
    CountNone(b, OpenSafe);
  }

  // ---------------------------------------------------------------------------------------
  // Whole-board updates

  /** `openMines(open)`: every mine cell gets `open`, every other cell stays as it is. */
  function MinesSetOpen(b: seq<Cell>, open: bool): (r: seq<Cell>)
    ensures |r| == |b|
    ensures forall i :: 0 <= i < |b| ==> r[i] == if b[i].kind == MINE then b[i].(open := open) else b[i]
  {
    seq(|b|, i requires 0 <= i < |b| => if b[i].kind == MINE then b[i].(open := open) else b[i])
  }

  /** `toggleFlag`, with the bounds check the game leaves to its callers: off the board nothing changes. */
  function ToggleAt(b: seq<Cell>, n: int, x: int, y: int): (r: seq<Cell>)
    requires Shaped(b, n)
    ensures |r| == |b|
    ensures forall i :: 0 <= i < |b| ==>
              r[i].kind == b[i].kind && r[i].open == b[i].open
              && (r[i].flag != b[i].flag <==> InBounds(n, x, y) && i == Index(n, x, y))
  {
    if InBounds(n, x, y) then
      var i := Index(n, x, y);
      b[i := b[i].(flag := !b[i].flag)]
    else b
  }

  /** Toggling the same tile twice restores the board. */
  lemma ToggleInvolution(b: seq<Cell>, n: int, x: int, y: int)
    requires Shaped(b, n)
    ensures ToggleAt(ToggleAt(b, n, x, y), n, x, y) == b
  {
  }

  /** A flag never affects the game invariant. */
  lemma ToggleKeepsConsistent(b: seq<Cell>, n: int, mines: int, death: int, numOpened: int, x: int, y: int)
    requires Consistent(b, n, mines, death, numOpened)
    ensures Consistent(ToggleAt(b, n, x, y), n, mines, death, numOpened)
  {
    var r := ToggleAt(b, n, x, y);
    CountsCorrectSameKinds(b, r, n);
    CountSame(b, Mine, r, Mine);
    CountSame(b, OpenSafe, r, OpenSafe);
  }

  /** Opening one closed safe cell and dropping `numOpened` by one keeps the invariant. */
  lemma OpenSafeKeepsConsistent(b: seq<Cell>, n: int, mines: int, death: int, numOpened: int, s: int)
    requires Consistent(b, n, mines, death, numOpened)
    requires 0 <= s < |b| && !b[s].open && b[s].kind != MINE
    ensures Consistent(b[s := b[s].(open := true)], n, mines, death, numOpened - 1)
    ensures Count(b[s := b[s].(open := true)], Closed) == Count(b, Closed) - 1
  {
    var r := b[s := b[s].(open := true)];
    CountsCorrectSameKinds(b, r, n);
    CountUpdate(b, s, r[s], Mine);
    CountUpdate(b, s, r[s], OpenSafe);
    CountUpdate(b, s, r[s], Closed);
  }

  /**
   * Opening a closed mine: `death` was -1, and after recording the detonated index and
   * revealing every mine the invariant holds with `numOpened` one lower.
   */
  lemma DetonateKeepsConsistent(b: seq<Cell>, n: int, mines: int, death: int, numOpened: int, s: int)
    requires Consistent(b, n, mines, death, numOpened)
    requires 0 <= s < |b| && !b[s].open && b[s].kind == MINE
    ensures death == -1
    ensures MinesSetOpen(b[s := b[s].(open := true)], true) == MinesSetOpen(b, true)
    ensures Consistent(MinesSetOpen(b, true), n, mines, s, numOpened - 1)
  {
    var r := MinesSetOpen(b, true);
    CountsCorrectSameKinds(b, r, n);
    CountSame(b, Mine, r, Mine);
    CountSame(b, OpenSafe, r, OpenSafe);
  }

  /** Revealing all mines keeps the invariant (the state effect of drawing a finished game). */
  lemma RevealKeepsConsistent(b: seq<Cell>, n: int, mines: int, death: int, numOpened: int)
    requires Consistent(b, n, mines, death, numOpened)
    ensures Consistent(MinesSetOpen(b, true), n, mines, death, numOpened)
  {
    var r := MinesSetOpen(b, true);
    CountsCorrectSameKinds(b, r, n);
    CountSame(b, Mine, r, Mine);
    CountSame(b, OpenSafe, r, OpenSafe);
  }

  // ---------------------------------------------------------------------------------------
  // Winning

  /** While no mine has gone off, `numOpened == MINE_COUNT` holds exactly when every safe cell is open. */
  lemma WonIffAllSafeOpen(b: seq<Cell>, n: int, mines: int, numOpened: int)
    requires Consistent(b, n, mines, -1, numOpened)
    ensures numOpened == mines <==> AllSafeOpen(b)
  {
    CountPartition(b);
    CountMono(b, OpenSafe, b, Safe);
    if !AllSafeOpen(b) {
      var j :| 0 <= j < |b| && b[j].kind != MINE && !b[j].open;
      CountStrict(b, OpenSafe, b, Safe, j);
    } else {
      CountMono(b, Safe, b, OpenSafe);
    }
  }

  /**
   * The game's own win test, `numOpened == MINE_COUNT`, also holds in a lost game: on a 2 x 2
   * board with one mine at (0, 0), open (1, 0) and (0, 1), then the mine. The state is
   * consistent, a mine has gone off (death == 0), and numOpened == 1 == MINE_COUNT.
   */
  lemma WinTestHoldsAfterLoss()
    ensures Consistent([Cell(MINE, false, true), Cell(1, false, true), Cell(1, false, true), Cell(1, false, false)],
                       2, 1, 0, 1)
  {
    var b := [Cell(MINE, false, true), Cell(1, false, true), Cell(1, false, true), Cell(1, false, false)];
    assert b[1..] == [b[1], b[2], b[3]];
    assert b[1..][1..] == [b[2], b[3]];
    assert b[1..][1..][1..] == [b[3]];
    assert b[1..][1..][1..][1..] == [];
    assert Count([b[3]], Mine) == 0 && Count([b[3]], OpenSafe) == 0;
    assert Count([b[2], b[3]], Mine) == 0 && Count([b[2], b[3]], OpenSafe) == 1;
    assert Count([b[1], b[2], b[3]], Mine) == 0 && Count([b[1], b[2], b[3]], OpenSafe) == 2;
    assert Count(b, Mine) == 1 && Count(b, OpenSafe) == 2;
    forall x, y | InBounds(2, x, y)
      ensures GetType(b, 2, x, y) == MINE || GetType(b, 2, x, y) == CalcMine(b, 2, x, y)
    {
    }
  }
}
