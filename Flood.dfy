/**
 * What `openCell` reveals on a safe tile: the least set of tiles that contains the start and,
 * with every closed 0-count tile it contains, all of that tile's in-bounds neighbours.
 */
module Flood {
  import opened Grid
  import opened Cells

  /** The neighbour offsets in the order `openCell` recurses on them. */
  function Offset(k: int): (int, int)
    requires 0 <= k < 8
  {
    [(-1, 1), (0, 1), (1, 1), (-1, 0), (1, 0), (-1, -1), (0, -1), (1, -1)][k]
  }

  /** Each offset leads to one of the eight tiles around, never to the tile itself. */
  lemma OffsetIsNeighbour(k: int)
    requires 0 <= k < 8
    ensures -1 <= Offset(k).0 <= 1 && -1 <= Offset(k).1 <= 1 && Offset(k) != (0, 0)
  {
  }

  /** b1 differs from b0 only by cells that became open. */
  ghost predicate OnlyOpened(b0: seq<Cell>, b1: seq<Cell>) {
    |b0| == |b1|
    && forall i :: 0 <= i < |b0| ==>
         b1[i].kind == b0[i].kind && b1[i].flag == b0[i].flag && (b0[i].open ==> b1[i].open)
  }

  ghost predicate MinesUntouched(b0: seq<Cell>, b1: seq<Cell>) {
    |b0| == |b1| && forall i :: 0 <= i < |b0| && b0[i].kind == MINE ==> b1[i] == b0[i]
  }

  ghost function OpenSet(b: seq<Cell>): set<int> {
    set i | 0 <= i < |b| && b[i].open
  }

  ghost function NewlyOpened(b0: seq<Cell>, b1: seq<Cell>): set<int> {
    set i | 0 <= i < |b0| && i < |b1| && !b0[i].open && b1[i].open
  }

  /** Every in-bounds tile of the 3 x 3 square around (x, y) has its index in s. */
  ghost predicate AroundIn(n: int, x: int, y: int, s: set<int>) {
    forall u, v :: x - 1 <= u <= x + 1 && y - 1 <= v <= y + 1 && InBounds(n, u, v) ==> Index(n, u, v) in s
  }

  /** Each closed 0-count tile of s (other than the one at index e) has all its neighbours in s. */
  ghost predicate ExpandsExcept(b: seq<Cell>, n: int, s: set<int>, e: int)
    requires Shaped(b, n)
  {
    forall x, y ::
      (InBounds(n, x, y) && Index(n, x, y) in s && Index(n, x, y) != e
       && !IsOpen(b, n, x, y) && GetType(b, n, x, y) == 0) ==> AroundIn(n, x, y, s)
  }

  ghost predicate Expands(b: seq<Cell>, n: int, s: set<int>)
    requires Shaped(b, n)
  {
    ExpandsExcept(b, n, s, -1)
  }

  /** Every cell opened from b0 to b1 lies in every expanding set that contains the start index. */
  ghost predicate LeastFrom(b0: seq<Cell>, b1: seq<Cell>, n: int, start: int)
    requires Shaped(b0, n)
  {
    forall s :: start in s && Expands(b0, n, s) ==> NewlyOpened(b0, b1) <= s
  }

  /**
   * The effect of opening (x, y) when no mine goes off: only cells open, mines stay as they
   * are, the open cells form an expanding set (closure), the start is open and every newly
   * opened cell is in the least expanding set around the start (minimality). Off the board
   * nothing changes.
   */
  ghost predicate FloodFrom(b0: seq<Cell>, b1: seq<Cell>, n: int, x: int, y: int)
    requires Shaped(b0, n) && Shaped(b1, n)
  {
    OnlyOpened(b0, b1) && MinesUntouched(b0, b1) && Expands(b0, n, OpenSet(b1))
    && (InBounds(n, x, y) ==> Index(n, x, y) in OpenSet(b1) && LeastFrom(b0, b1, n, Index(n, x, y)))
    && (!InBounds(n, x, y) ==> b1 == b0)
  }

  /** The state part-way through the eight recursive calls of `openCell` on a 0-count tile. */
  ghost predicate FloodSoFar(b0: seq<Cell>, bk: seq<Cell>, n: int, x: int, y: int, k: int)
    requires Shaped(b0, n) && Shaped(bk, n) && InBounds(n, x, y) && 0 <= k <= 8
  {
    var s := Index(n, x, y);
    OnlyOpened(b0, bk) && MinesUntouched(b0, bk) && s in OpenSet(bk)
    && ExpandsExcept(b0, n, OpenSet(bk), s) && LeastFrom(b0, bk, n, s)
    && forall j :: 0 <= j < k && InBounds(n, x + Offset(j).0, y + Offset(j).1) ==>
         Index(n, x + Offset(j).0, y + Offset(j).1) in OpenSet(bk)
  }

  lemma AroundInMono(n: int, x: int, y: int, s: set<int>, t: set<int>)
    requires AroundIn(n, x, y, s) && s <= t
    ensures AroundIn(n, x, y, t)
  {
  }

  /** An expanding set stays expanding when more cells are open, since open cells never expand. */
  lemma ExpandsAntitone(b0: seq<Cell>, b1: seq<Cell>, n: int, s: set<int>)
    requires Shaped(b0, n) && Shaped(b1, n) && OnlyOpened(b0, b1) && Expands(b0, n, s)
    ensures Expands(b1, n, s)
  {
  }

  /** Opening nothing: `openCell` off the board or on an open tile. */
  lemma FloodNoop(b: seq<Cell>, n: int, x: int, y: int)
    requires Shaped(b, n)
    requires !InBounds(n, x, y) || IsOpen(b, n, x, y)
    ensures FloodFrom(b, b, n, x, y)
  {
    assert NewlyOpened(b, b) == {};
  }

  /** Opening the start tile alone. */
  lemma FloodStart(b0: seq<Cell>, n: int, x: int, y: int)
    requires Shaped(b0, n) && InBounds(n, x, y)
    requires !IsOpen(b0, n, x, y) && GetType(b0, n, x, y) != MINE
    ensures var s := Index(n, x, y);
            FloodSoFar(b0, b0[s := b0[s].(open := true)], n, x, y, 0)
  {
    var s := Index(n, x, y);
    var b1 := b0[s := b0[s].(open := true)];
    assert NewlyOpened(b0, b1) == {s};
    assert OpenSet(b1) == OpenSet(b0) + {s};
  }

  /** A neighbour of a 0-count tile is never a mine, under the count invariant. */
  lemma NeighbourSafe(b0: seq<Cell>, bk: seq<Cell>, n: int, x: int, y: int, u: int, v: int)
    requires Shaped(b0, n) && CountsCorrect(b0, n) && InBounds(n, x, y) && GetType(b0, n, x, y) == 0
    requires OnlyOpened(b0, bk)
    requires x - 1 <= u <= x + 1 && y - 1 <= v <= y + 1 && (u != x || v != y)
    ensures InBounds(n, u, v) ==> Shaped(bk, n) && bk[Index(n, u, v)].kind != MINE
  {
    CalcMineZero(b0, n, x, y, u, v);
  }

  /** The flood specification pins the result down: two boards meeting it from b0 are equal. */
  lemma FloodFromUnique(b0: seq<Cell>, b1: seq<Cell>, b2: seq<Cell>, n: int, x: int, y: int)
    requires Shaped(b0, n) && Shaped(b1, n) && Shaped(b2, n)
    requires FloodFrom(b0, b1, n, x, y) && FloodFrom(b0, b2, n, x, y)
    ensures b1 == b2
  {
    if InBounds(n, x, y) {
      var s := Index(n, x, y);
      assert NewlyOpened(b0, b1) <= OpenSet(b2);
      assert NewlyOpened(b0, b2) <= OpenSet(b1);
      forall i | 0 <= i < |b1|
        ensures b1[i] == b2[i]
      {
        assert b1[i].open == b2[i].open by {
          if b1[i].open && !b0[i].open { assert i in NewlyOpened(b0, b1); }
          if b2[i].open && !b0[i].open { assert i in NewlyOpened(b0, b2); }
        }
      }
    }
  }

  /** One more recursive call of a 0-count tile's `openCell`, on neighbour number k. */
  lemma FloodStep(b0: seq<Cell>, bk: seq<Cell>, bk1: seq<Cell>, n: int, x: int, y: int, k: int)
    requires Shaped(b0, n) && Shaped(bk, n) && Shaped(bk1, n) && InBounds(n, x, y) && 0 <= k < 8
    requires !IsOpen(b0, n, x, y) && GetType(b0, n, x, y) == 0
    requires FloodSoFar(b0, bk, n, x, y, k)
    requires FloodFrom(bk, bk1, n, x + Offset(k).0, y + Offset(k).1)
    ensures FloodSoFar(b0, bk1, n, x, y, k + 1)
    ensures Count(bk1, Closed) <= Count(bk, Closed)
  {
    var s := Index(n, x, y);
    var u, v := x + Offset(k).0, y + Offset(k).1;
    assert OpenSet(bk) <= OpenSet(bk1);
    forall p, q | InBounds(n, p, q) && Index(n, p, q) in OpenSet(bk1) && Index(n, p, q) != s
                  && !IsOpen(b0, n, p, q) && GetType(b0, n, p, q) == 0
      ensures AroundIn(n, p, q, OpenSet(bk1))
    {
      if Index(n, p, q) in OpenSet(bk) {
        AroundInMono(n, p, q, OpenSet(bk), OpenSet(bk1));
      } else {
        assert !IsOpen(bk, n, p, q) && GetType(bk, n, p, q) == 0;
      }
    }
    forall t | s in t && Expands(b0, n, t)
      ensures NewlyOpened(b0, bk1) <= t
    {
      assert NewlyOpened(b0, bk) <= t;
      assert NewlyOpened(b0, bk1) <= NewlyOpened(b0, bk) + NewlyOpened(bk, bk1);
      if InBounds(n, u, v) {
        assert AroundIn(n, x, y, t);
        ExpandsAntitone(b0, bk, n, t);
        assert NewlyOpened(bk, bk1) <= t;
      }
    }
    CountMono(bk1, Closed, bk, Closed);
  }

  /**
   * After the last recursive call (or straight away when the start's count is not 0) the
   * open cells form an expanding set, which completes the flood.
   */
  lemma FloodFinish(b0: seq<Cell>, b1: seq<Cell>, n: int, x: int, y: int, k: int)
    requires Shaped(b0, n) && Shaped(b1, n) && InBounds(n, x, y) && 0 <= k <= 8
    requires !IsOpen(b0, n, x, y)
    requires FloodSoFar(b0, b1, n, x, y, k)
    requires k == 8 || GetType(b0, n, x, y) != 0
    ensures FloodFrom(b0, b1, n, x, y)
  {
    if GetType(b0, n, x, y) == 0 {
      AllNeighboursIn(n, x, y, OpenSet(b1));
    }
    forall p, q | InBounds(n, p, q) && Index(n, p, q) in OpenSet(b1)
                  && !IsOpen(b0, n, p, q) && GetType(b0, n, p, q) == 0
      ensures AroundIn(n, p, q, OpenSet(b1))
    {
      if Index(n, p, q) == Index(n, x, y) {
        IndexInjective(n, p, q, x, y);
      }
    }
  }

  /** The start and its eight neighbours, as visited by `openCell`, cover the 3 x 3 square. */
  lemma AllNeighboursIn(n: int, x: int, y: int, s: set<int>)
    requires InBounds(n, x, y) && Index(n, x, y) in s
    requires forall j :: 0 <= j < 8 && InBounds(n, x + Offset(j).0, y + Offset(j).1) ==>
               Index(n, x + Offset(j).0, y + Offset(j).1) in s
    ensures AroundIn(n, x, y, s)
  {
    forall u, v | x - 1 <= u <= x + 1 && y - 1 <= v <= y + 1 && InBounds(n, u, v)
      ensures Index(n, u, v) in s
    {
      var du, dv := u - x, v - y;
      var j := if du == -1 && dv == 1 then 0 else if du == 0 && dv == 1 then 1
               else if du == 1 && dv == 1 then 2 else if du == -1 && dv == 0 then 3
               else if du == 1 && dv == 0 then 4 else if du == -1 && dv == -1 then 5
               else if du == 0 && dv == -1 then 6 else 7;
      if du != 0 || dv != 0 {
        assert Offset(j) == (du, dv);
      }
    }
  }

  // ---------------------------------------------------------------------------------------
  // A board without mines: one click opens every cell

  /** On a board of closed 0-count cells, an expanding set holding (x, y) holds all of row y. */
  lemma {:induction false} SpreadRow(b: seq<Cell>, n: int, s: set<int>, x: int, y: int, u: int)
    requires Shaped(b, n) && Expands(b, n, s) && InBounds(n, x, y) && InBounds(n, u, y)
    requires forall i :: 0 <= i < |b| ==> !b[i].open && b[i].kind == 0
    requires Index(n, x, y) in s
    ensures Index(n, u, y) in s
    decreases if u < x then x - u else u - x
  {
    if u < x {
      SpreadRow(b, n, s, x, y, u + 1);
      assert AroundIn(n, u + 1, y, s);
    } else if x < u {
      SpreadRow(b, n, s, x, y, u - 1);
      assert AroundIn(n, u - 1, y, s);
    }
  }

  /** The same along column x. */
  lemma {:induction false} SpreadColumn(b: seq<Cell>, n: int, s: set<int>, x: int, y: int, v: int)
    requires Shaped(b, n) && Expands(b, n, s) && InBounds(n, x, y) && InBounds(n, x, v)
    requires forall i :: 0 <= i < |b| ==> !b[i].open && b[i].kind == 0
    requires Index(n, x, y) in s
    ensures Index(n, x, v) in s
    decreases if v < y then y - v else v - y
  {
    if v < y {
      SpreadColumn(b, n, s, x, y, v + 1);
      assert AroundIn(n, x, v + 1, s);
    } else if y < v {
      SpreadColumn(b, n, s, x, y, v - 1);
      assert AroundIn(n, x, v - 1, s);
    }
  }

  /** A freshly generated board without mines holds only closed cells of count 0. */
  lemma NoMinesAllZero(b0: seq<Cell>, n: int)
    requires FreshLayout(b0, n, 0)
    ensures forall i :: 0 <= i < |b0| ==> !b0[i].open && b0[i].kind == 0
  {
    CountZero(b0, Mine);
    forall i | 0 <= i < |b0|
      ensures !b0[i].open && b0[i].kind == 0
    {
      IndexOnto(n, i);
      var u, v := i % n, i / n;
      assert GetType(b0, n, u, v) == MINE || GetType(b0, n, u, v) == CalcMine(b0, n, u, v);
    }
  }

  /**
   * On a freshly generated board without mines every count is 0, so opening any tile floods
   * the whole board: afterwards every cell is open.
   */
  lemma EmptyBoardFloods(b0: seq<Cell>, b1: seq<Cell>, n: int, x: int, y: int)
    requires FreshLayout(b0, n, 0) && Shaped(b1, n) && InBounds(n, x, y)
    requires FloodFrom(b0, b1, n, x, y)
    ensures forall i :: 0 <= i < |b1| ==> b1[i].open
  {
    NoMinesAllZero(b0, n);
    forall i | 0 <= i < |b1|
      ensures b1[i].open
    {
      IndexOnto(n, i);
      SpreadColumn(b0, n, OpenSet(b1), x, y, i / n);
      SpreadRow(b0, n, OpenSet(b1), x, i / n, i % n);
    }
  }
}
