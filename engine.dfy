/**
 * The stateful part of the Game of Life engine: a cell whose alive flag is
 * toggled in place, and the grid, a fixed `nRows x nCols` array of alive
 * flags that one generation, or a user's toggle, updates in place.
 */
module Engine {
  import opened Life

  /** One cell of the grid: a fixed position and a mutable alive flag. */
  class Cell {
    const i: int
    const j: int
    var alive: bool

    constructor (i: int, j: int, alive: bool := false)
      ensures this.i == i && this.j == j && this.alive == alive
    {
      this.i := i;
      this.j := j;
      this.alive := alive;
    }

    /** Negates the alive flag; the position never changes. */
    method Toggle()
      modifies this
      ensures alive == !old(alive)
    {
      alive := !alive;
    }
  }

  /** `p` comes before `q` when the grid is read row by row. */
  predicate Before(p: Pos, q: Pos) {
    p.0 < q.0 || (p.0 == q.0 && p.1 < q.1)
  }

  /** The positions are listed in strictly increasing row-major order. */
  predicate RowMajor(ps: seq<Pos>) {
    forall a, b :: 0 <= a < b < |ps| ==> Before(ps[a], ps[b])
  }

  lemma RowMajorDistinct(ps: seq<Pos>)
    requires RowMajor(ps)
    ensures Distinct(ps)
  {
  }

  /**
   * The positions of a `rows x cols` grid that `keep` holds of, in
   * row-major order: `filter(keep, cells.flatten())`.
   */
  method Filter(rows: nat, cols: nat, keep: Pos -> bool) returns (kept: seq<Pos>)
    ensures forall p :: p in kept <==> 0 <= p.0 < rows && 0 <= p.1 < cols && keep(p)
    ensures RowMajor(kept)
  {
    kept := [];
    var i := 0;
    while i < rows
      invariant 0 <= i <= rows
      invariant RowMajor(kept)
      invariant forall p :: p in kept <==> 0 <= p.0 < i && 0 <= p.1 < cols && keep(p)
    {
      var j := 0;
      while j < cols
        invariant 0 <= j <= cols
        invariant RowMajor(kept)
        invariant forall p :: p in kept <==>
          ((0 <= p.0 < i && 0 <= p.1 < cols) || (p.0 == i && 0 <= p.1 < j)) && keep(p)
      {
        if keep((i, j)) {
          assert kept != [] ==> kept[|kept| - 1] in kept;
          kept := kept + [(i, j)];
        }
        j := j + 1;
      }
      i := i + 1;
    }
  }

  /** The grid of cells, stored as one alive flag per position. */
  class Grid {
    const nRows: nat
    const nCols: nat
    const cells: array2<bool>

    /** The storage has exactly the grid's dimensions. */
    ghost predicate Valid()
      reads this
    {
      cells.Length0 == nRows && cells.Length1 == nCols
    }

    /** The current generation as a board. */
    function Board(): (b: Life.Board)
      requires Valid()
      reads this, cells
      ensures b.Valid() && b.rows == nRows && b.cols == nCols
      ensures forall i, j :: b.InBounds(i, j) ==> b.cells[i][j] == cells[i, j]
    {
      Life.Board(nRows, nCols,
        seq(nRows, i requires 0 <= i < nRows reads cells =>
          seq(nCols, j requires 0 <= j < nCols reads cells => cells[i, j])))
    }

    /** A new grid of the given size with every cell dead. */
    constructor (nRows: nat, nCols: nat)
      ensures Valid() && this.nRows == nRows && this.nCols == nCols
      ensures fresh(cells)
      ensures Board() == Dead(nRows, nCols)
    {
      this.nRows := nRows;
      this.nCols := nCols;
      cells := new bool[nRows, nCols]((i, j) => false);
      new;
      BoardsEqual(Board(), Dead(nRows, nCols));
    }

    /** Flips every cell listed in `flips`, which lists no cell twice. */
    method ToggleAll(flips: seq<Pos>)
      requires Valid() && Distinct(flips)
      requires forall p :: p in flips ==> 0 <= p.0 < nRows && 0 <= p.1 < nCols
      modifies cells
      ensures forall r, c :: 0 <= r < nRows && 0 <= c < nCols ==>
        cells[r, c] == (old(cells[r, c]) != ((r, c) in flips))
    {
      var k := 0;
      while k < |flips|
        invariant 0 <= k <= |flips|
        invariant forall r, c :: 0 <= r < nRows && 0 <= c < nCols ==>
          cells[r, c] == (old(cells[r, c]) != ((r, c) in flips[..k]))
      {
        var (r, c) := flips[k];
        assert flips[..k + 1] == flips[..k] + [flips[k]];
        assert (r, c) !in flips[..k];
        cells[r, c] := !cells[r, c];
        k := k + 1;
      }
      assert flips[..k] == flips;
    }

    /**
     * Advances the grid by one generation. All the cells to flip are
     * collected from the current generation first; only then are they
     * flipped, so every decision reads the state before the update.
     */
    method Update()
      requires Valid()
      modifies cells
      ensures Board() == Step(old(Board()))
      ensures forall i, j :: 0 <= i < nRows && 0 <= j < nCols ==>
        cells[i, j] == (old(cells[i, j]) != Rule(old(Board()), i, j))
    {
      // `rule` is evaluated on the snapshot `before` of the current
      // generation; filtering writes nothing, so the snapshot still equals
      // the grid when the flips are applied.
      var before := Board();
      var flips := Filter(nRows, nCols, (p: Pos) => before.InBounds(p.0, p.1) && Rule(before, p.0, p.1));
      assert Board() == before;
      RowMajorDistinct(flips);
      ToggleAll(flips);
      BoardsEqual(Board(), Step(before));
    }

    /** Flips exactly the cell in row `i` and column `j`. */
    method Toggle(i: int, j: int)
      requires Valid() && 0 <= i < nRows && 0 <= j < nCols
      modifies cells
      ensures Board() == ToggleAt(old(Board()), i, j)
      ensures cells[i, j] == !old(cells[i, j])
      ensures forall r, c :: 0 <= r < nRows && 0 <= c < nCols && (r, c) != (i, j) ==>
        cells[r, c] == old(cells[r, c])
    {
      ghost var before := Board();
      cells[i, j] := !cells[i, j];
      BoardsEqual(Board(), ToggleAt(before, i, j));
    }
  }
}
