/**
 * Classic patterns on a 5 x 5 board: the blinker, a period-2 oscillator
 * that turns from a horizontal into a vertical line of three cells and
 * back, and the block, a 2 x 2 still life.
 */
module Patterns {
  import opened Life
  import Engine

  /** `n` generations from `b`. */
  function Generations(b: Board, n: nat): (r: Board)
    requires b.Valid()
    ensures r.Valid() && r.rows == b.rows && r.cols == b.cols
    decreases n
  {
    if n == 0 then b else Generations(Step(b), n - 1)
  }

  /** A board that one generation leaves as it is stays so for ever. */
  lemma {:induction false} StillLifeForever(b: Board, n: nat)
    requires b.Valid() && Step(b) == b
    ensures Generations(b, n) == b
    decreases n
  {
    if n > 0 {
      StillLifeForever(b, n - 1);
    }
  }

  /** `b` is a valid board whose alive cells are exactly the positions `alive` holds of. */
  ghost predicate Shows(b: Board, alive: Pos -> bool) {
    b.Valid() && forall p :: b.AliveAt(p) == alive(p)
  }

  /** The board of the given size whose alive cells are the positions on it that `alive` holds of. */
  function FromPredicate(rows: nat, cols: nat, alive: Pos -> bool): (b: Board)
    ensures b.Valid() && b.rows == rows && b.cols == cols
    ensures forall p :: b.AliveAt(p) == (b.InBounds(p.0, p.1) && alive(p))
  {
    Board(rows, cols, seq(rows, i => seq(cols, j => alive((i, j)))))
  }

  /** The number of the eight positions around `(i, j)` that `alive` holds of. */
  function Count8Where(alive: Pos -> bool, i: int, j: int): nat {
    Bit(alive((i - 1, j - 1))) + Bit(alive((i - 1, j))) + Bit(alive((i - 1, j + 1)))
    + Bit(alive((i, j - 1))) + Bit(alive((i, j + 1)))
    + Bit(alive((i + 1, j - 1))) + Bit(alive((i + 1, j))) + Bit(alive((i + 1, j + 1)))
  }

  /** In rows `lo` to `hi - 1` of `cols` columns, `next` is the B3/S23 successor of `alive`. */
  ghost predicate SuccessorRows(alive: Pos -> bool, next: Pos -> bool, lo: int, hi: int, cols: int) {
    forall i, j :: lo <= i < hi && 0 <= j < cols ==>
      next((i, j)) == B3S23(alive((i, j)), Count8Where(alive, i, j))
  }

  /** On a board showing `alive`, the eight-term count reads the same from the board. */
  lemma Count8Shows(b: Board, alive: Pos -> bool, i: int, j: int)
    requires Shows(b, alive)
    ensures Count8Where(alive, i, j) == Count8(b, i, j)
  {
    assert b.AliveAt((i - 1, j - 1)) == alive((i - 1, j - 1));
    assert b.AliveAt((i - 1, j)) == alive((i - 1, j));
    assert b.AliveAt((i - 1, j + 1)) == alive((i - 1, j + 1));
    assert b.AliveAt((i, j - 1)) == alive((i, j - 1));
    assert b.AliveAt((i, j + 1)) == alive((i, j + 1));
    assert b.AliveAt((i + 1, j - 1)) == alive((i + 1, j - 1));
    assert b.AliveAt((i + 1, j)) == alive((i + 1, j));
    assert b.AliveAt((i + 1, j + 1)) == alive((i + 1, j + 1));
  }

  /** One cell of the next generation of a board showing `alive`, by the eight-term count. */
  lemma StepCell(b: Board, alive: Pos -> bool, i: int, j: int)
    requires Shows(b, alive) && b.InBounds(i, j)
    ensures Step(b).AliveAt((i, j)) == B3S23(alive((i, j)), Count8Where(alive, i, j))
  {
    StepAt(b, i, j);
    Count8Shows(b, alive, i, j);
    assert b.AliveAt((i, j)) == alive((i, j));
  }

  /** Checking every cell of the board against the eight-term count establishes `Step(b) == c`. */
  lemma SuccessorIsStep(b: Board, c: Board, alive: Pos -> bool, next: Pos -> bool)
    requires Shows(b, alive) && Shows(c, next) && b.rows == c.rows && b.cols == c.cols
    requires SuccessorRows(alive, next, 0, b.rows, b.cols)
    ensures Step(b) == c
  {
    forall i, j | b.InBounds(i, j) ensures Step(b).AliveAt((i, j)) == c.AliveAt((i, j)) {
      StepCell(b, alive, i, j);
      assert c.AliveAt((i, j)) == next((i, j));
    }
    BoardsEqual(Step(b), c);
  }

  /** The horizontal blinker on a 5 x 5 board: cells (2, 1), (2, 2) and (2, 3). */
  function Horizontal(p: Pos): bool { p.0 == 2 && 1 <= p.1 <= 3 }

  /** The vertical blinker on a 5 x 5 board: cells (1, 2), (2, 2) and (3, 2). */
  function Vertical(p: Pos): bool { p.1 == 2 && 1 <= p.0 <= 3 }

  /** The block on a 5 x 5 board: cells (1, 1), (1, 2), (2, 1) and (2, 2). */
  function Block(p: Pos): bool { 1 <= p.0 <= 2 && 1 <= p.1 <= 2 }

  // The cell-by-cell checks of each transition, one row at a time so that
  // each proof stays small.

  lemma HorizontalRow0()
    ensures SuccessorRows(Horizontal, Vertical, 0, 1, 5)
  {
  }

  lemma HorizontalRow1()
    ensures SuccessorRows(Horizontal, Vertical, 1, 2, 5)
  {
  }

  lemma HorizontalRow2()
    ensures SuccessorRows(Horizontal, Vertical, 2, 3, 5)
  {
  }

  lemma HorizontalRow3()
    ensures SuccessorRows(Horizontal, Vertical, 3, 4, 5)
  {
  }

  lemma HorizontalRow4()
    ensures SuccessorRows(Horizontal, Vertical, 4, 5, 5)
  {
  }

  lemma VerticalRow0()
    ensures SuccessorRows(Vertical, Horizontal, 0, 1, 5)
  {
  }

  lemma VerticalRow1()
    ensures SuccessorRows(Vertical, Horizontal, 1, 2, 5)
  {
  }

  lemma VerticalRow2()
    ensures SuccessorRows(Vertical, Horizontal, 2, 3, 5)
  {
  }

  lemma VerticalRow3()
    ensures SuccessorRows(Vertical, Horizontal, 3, 4, 5)
  {
  }

  lemma VerticalRow4()
    ensures SuccessorRows(Vertical, Horizontal, 4, 5, 5)
  {
  }

  lemma BlockRow0()
    ensures SuccessorRows(Block, Block, 0, 1, 5)
  {
  }

  lemma BlockRow1()
    ensures SuccessorRows(Block, Block, 1, 2, 5)
  {
  }

  lemma BlockRow2()
    ensures SuccessorRows(Block, Block, 2, 3, 5)
  {
  }

  lemma BlockRow3()
    ensures SuccessorRows(Block, Block, 3, 4, 5)
  {
  }

  lemma BlockRow4()
    ensures SuccessorRows(Block, Block, 4, 5, 5)
  {
  }

  /** A 5 x 5 board showing the horizontal blinker becomes the vertical one. */
  lemma HorizontalToVertical(b: Board, c: Board)
    requires b.rows == c.rows == 5 && b.cols == c.cols == 5
    requires Shows(b, Horizontal) && Shows(c, Vertical)
    ensures Step(b) == c
  {
    HorizontalRow0();
    HorizontalRow1();
    HorizontalRow2();
    HorizontalRow3();
    HorizontalRow4();
    SuccessorIsStep(b, c, Horizontal, Vertical);
  }

  /** A 5 x 5 board showing the vertical blinker becomes the horizontal one. */
  lemma VerticalToHorizontal(b: Board, c: Board)
    requires b.rows == c.rows == 5 && b.cols == c.cols == 5
    requires Shows(b, Vertical) && Shows(c, Horizontal)
    ensures Step(b) == c
  {
    VerticalRow0();
    VerticalRow1();
    VerticalRow2();
    VerticalRow3();
    VerticalRow4();
    SuccessorIsStep(b, c, Vertical, Horizontal);
  }

  /**
   * The blinker has period 2: one generation turns it vertical, and after
   * any even number of generations it is back where it started.
   */
  lemma {:induction false} BlinkerPeriodTwo(b: Board, n: nat)
    requires b.rows == 5 && b.cols == 5 && Shows(b, Horizontal)
    ensures Shows(Step(b), Vertical)
    ensures Generations(b, 2 * n) == b
    decreases n
  {
    var v := FromPredicate(5, 5, Vertical);
    HorizontalToVertical(b, v);
    VerticalToHorizontal(v, b);
    if n > 0 {
      BlinkerPeriodTwo(b, n - 1);
      assert Generations(b, 2 * n) == Generations(Step(Step(b)), 2 * (n - 1));
    }
  }

  /** The block is a still life: unchanged after any number of generations. */
  lemma BlockIsStill(b: Board, n: nat)
    requires b.rows == 5 && b.cols == 5 && Shows(b, Block)
    ensures Generations(b, n) == b
  {
    BlockRow0();
    BlockRow1();
    BlockRow2();
    BlockRow3();
    BlockRow4();
    SuccessorIsStep(b, b, Block, Block);
    StillLifeForever(b, n);
  }

  /** Toggling the three cells of the horizontal line on a dead 5 x 5 board draws the blinker. */
  lemma {:induction false} DrawHorizontal()
    ensures ToggleAt(ToggleAt(ToggleAt(Dead(5, 5), 2, 1), 2, 2), 2, 3) == FromPredicate(5, 5, Horizontal)
  {
    var t := ToggleAt(ToggleAt(ToggleAt(Dead(5, 5), 2, 1), 2, 2), 2, 3);
    var h := FromPredicate(5, 5, Horizontal);
    forall p ensures t.AliveAt(p) == h.AliveAt(p) {
      assert t.AliveAt(p) == (p == (2, 1) || p == (2, 2) || p == (2, 3));
    }
    BoardsEqual(t, h);
  }

  /**
   * The blinker run on a grid: a new 5 x 5 grid, the three cells of the
   * horizontal line toggled on, then two updates. The first update leaves
   * the vertical line and the second the horizontal one again.
   */
  method BlinkerOnGrid() returns (g: Engine.Grid, afterOne: Board)
    ensures g.Valid() && g.nRows == 5 && g.nCols == 5
    ensures afterOne == FromPredicate(5, 5, Vertical)
    ensures g.Board() == FromPredicate(5, 5, Horizontal)
  {
    g := new Engine.Grid(5, 5);
    g.Toggle(2, 1);
    g.Toggle(2, 2);
    g.Toggle(2, 3);
    DrawHorizontal();
    var h := FromPredicate(5, 5, Horizontal);
    var v := FromPredicate(5, 5, Vertical);
    HorizontalToVertical(h, v);
    VerticalToHorizontal(v, h);
    g.Update();
    afterOne := g.Board();
    g.Update();
  }
}
