/**
 * The pure part of the Game of Life engine: a board of alive flags, the
 * clipped neighbourhood of a cell, the live-neighbour count, the flip rule
 * and one whole generation.
 */
module Life {

  /** A (row, column) position on the board. */
  type Pos = (int, int)

  /**
   * A fixed `rows x cols` board of alive flags; `cells[i][j]` is the flag of
   * the cell in row `i` and column `j`.
   */
  datatype Board = Board(rows: nat, cols: nat, cells: seq<seq<bool>>) {

    /** The collection has exactly `rows x cols` entries. */
    predicate Valid() {
      |cells| == rows && forall r :: 0 <= r < rows ==> |cells[r]| == cols
    }

    predicate InBounds(i: int, j: int) {
      0 <= i < rows && 0 <= j < cols
    }

    /** The alive flag at `p`; a position off the board is never alive. */
    function AliveAt(p: Pos): bool
      requires Valid()
    {
      InBounds(p.0, p.1) && cells[p.0][p.1]
    }
  }

  /** The board a new grid starts with: every cell dead. */
  function Dead(rows: nat, cols: nat): (b: Board)
    ensures b.Valid() && b.rows == rows && b.cols == cols
    ensures forall p :: !b.AliveAt(p)
  {
    Board(rows, cols, seq(rows, _ => seq(cols, _ => false)))
  }

  function Max(a: int, b: int): int { if a < b then b else a }

  function Min(a: int, b: int): int { if a < b then a else b }

  predicate Distinct<T(==)>(s: seq<T>) {
    forall a, b :: 0 <= a < b < |s| ==> s[a] != s[b]
  }

  /** The integers `lo, lo + 1, ..., hi - 1`, as Python's `range(lo, hi)`. */
  function Range(lo: int, hi: int): (s: seq<int>)
    ensures |s| == if lo < hi then hi - lo else 0
    ensures forall k :: 0 <= k < |s| ==> s[k] == lo + k
    decreases hi - lo
  {
    if lo < hi then [lo] + Range(lo + 1, hi) else []
  }

  lemma RangeMembers(lo: int, hi: int)
    ensures Distinct(Range(lo, hi))
    ensures forall x :: x in Range(lo, hi) <==> lo <= x < hi
  {
    var s := Range(lo, hi);
    forall x | lo <= x < hi ensures x in s {
      assert s[x - lo] == x;
    }
  }

  /** The positions `(r, c)` for `c` in `cols`, in order, except `center`. */
  function RowCandidates(r: int, cols: seq<int>, center: Pos): (ps: seq<Pos>)
    ensures forall p :: p in ps <==> p.0 == r && p.1 in cols && p != center
  {
    if cols == [] then []
    else (if (r, cols[0]) == center then [] else [(r, cols[0])])
         + RowCandidates(r, cols[1..], center)
  }

  /**
   * The positions `(r, c)` for `r` in `rows` and `c` in `cols`, row by row,
   * except `center`: the nested comprehension of `Grid.neighbors`.
   */
  function Candidates(rows: seq<int>, cols: seq<int>, center: Pos): (ps: seq<Pos>)
    ensures forall p :: p in ps <==> p.0 in rows && p.1 in cols && p != center
  {
    if rows == [] then []
    else RowCandidates(rows[0], cols, center) + Candidates(rows[1..], cols, center)
  }

  /**
   * The neighbours of `(i, j)`: the cells at most one row and one column
   * away, clipped at the borders of the board (no wrap-around).
   */
  function Neighbors(b: Board, i: int, j: int): (ns: seq<Pos>)
    ensures forall p :: p in ns <==>
      b.InBounds(p.0, p.1) && p != (i, j) && -1 <= p.0 - i <= 1 && -1 <= p.1 - j <= 1
  {
    RangeMembers(Max(i - 1, 0), Min(i + 2, b.rows));
    RangeMembers(Max(j - 1, 0), Min(j + 2, b.cols));
    Candidates(Range(Max(i - 1, 0), Min(i + 2, b.rows)),
               Range(Max(j - 1, 0), Min(j + 2, b.cols)), (i, j))
  }

  lemma {:induction false} DistinctConcat<T>(s: seq<T>, t: seq<T>)
    requires Distinct(s) && Distinct(t)
    requires forall x :: x in s ==> x !in t
    ensures Distinct(s + t)
  {
    forall a, b | 0 <= a < b < |s + t| ensures (s + t)[a] != (s + t)[b] {
      if b < |s| {
      } else if a >= |s| {
        assert (s + t)[a] == t[a - |s|] && (s + t)[b] == t[b - |s|];
      } else {
        assert (s + t)[a] == s[a] && (s + t)[b] == t[b - |s|];
        assert (s + t)[b] in t;
      }
    }
  }

  lemma {:induction false} RowCandidatesShape(r: int, cols: seq<int>, center: Pos)
    requires Distinct(cols)
    ensures Distinct(RowCandidates(r, cols, center))
    ensures |RowCandidates(r, cols, center)|
            == |cols| - (if r == center.0 && center.1 in cols then 1 else 0)
  {
    if cols != [] {
      assert Distinct(cols[1..]);
      RowCandidatesShape(r, cols[1..], center);
      assert cols[0] !in cols[1..];
      assert cols == [cols[0]] + cols[1..];
      var head := if (r, cols[0]) == center then [] else [(r, cols[0])];
      DistinctConcat(head, RowCandidates(r, cols[1..], center));
    }
  }

  lemma {:induction false} CandidatesShape(rows: seq<int>, cols: seq<int>, center: Pos)
    requires Distinct(rows) && Distinct(cols)
    ensures Distinct(Candidates(rows, cols, center))
    ensures |Candidates(rows, cols, center)|
            == |rows| * |cols| - (if center.0 in rows && center.1 in cols then 1 else 0)
  {
    if rows != [] {
      var tail := rows[1..];
      assert Distinct(tail);
      assert rows[0] !in tail;
      assert rows == [rows[0]] + tail;
      CandidatesShape(tail, cols, center);
      RowCandidatesShape(rows[0], cols, center);
      DistinctConcat(RowCandidates(rows[0], cols, center), Candidates(tail, cols, center));
      MulSucc(|tail|, |cols|);
    }
  }

  lemma MulSucc(m: int, k: int)
    ensures (m + 1) * k == m * k + k
  {
  }

  /** `Neighbors` lists no position twice, so it stands for a set. */
  lemma NeighborsDistinct(b: Board, i: int, j: int)
    ensures Distinct(Neighbors(b, i, j))
  {
    RangeMembers(Max(i - 1, 0), Min(i + 2, b.rows));
    RangeMembers(Max(j - 1, 0), Min(j + 2, b.cols));
    CandidatesShape(Range(Max(i - 1, 0), Min(i + 2, b.rows)),
                    Range(Max(j - 1, 0), Min(j + 2, b.cols)), (i, j));
  }

  /** The cell `(i, j)` lies in the first or last row or column. */
  predicate OnEdge(b: Board, i: int, j: int) {
    i == 0 || i == b.rows - 1 || j == 0 || j == b.cols - 1
  }

  /** The cell `(i, j)` lies in the first or last row and the first or last column. */
  predicate OnCorner(b: Board, i: int, j: int) {
    (i == 0 || i == b.rows - 1) && (j == 0 || j == b.cols - 1)
  }

  /**
   * How many neighbours a cell has: at most 8; exactly 8 away from the
   * borders, 5 on an edge but not in a corner and 3 in a corner (on a board
   * with at least two rows and two columns).
   */
  lemma NeighborsCount(b: Board, i: int, j: int)
    requires b.InBounds(i, j)
    ensures |Neighbors(b, i, j)| <= 8
    ensures 0 < i < b.rows - 1 && 0 < j < b.cols - 1 ==> |Neighbors(b, i, j)| == 8
    ensures 2 <= b.rows && 2 <= b.cols && OnEdge(b, i, j) && !OnCorner(b, i, j)
      ==> |Neighbors(b, i, j)| == 5
    ensures 2 <= b.rows && 2 <= b.cols && OnCorner(b, i, j) ==> |Neighbors(b, i, j)| == 3
  {
    var rs := Range(Max(i - 1, 0), Min(i + 2, b.rows));
    var cs := Range(Max(j - 1, 0), Min(j + 2, b.cols));
    RangeMembers(Max(i - 1, 0), Min(i + 2, b.rows));
    RangeMembers(Max(j - 1, 0), Min(j + 2, b.cols));
    CandidatesShape(rs, cs, (i, j));
    assert i in rs && j in cs;
    assert |Neighbors(b, i, j)| == |rs| * |cs| - 1;
    assert 1 <= |rs| <= 3 && 1 <= |cs| <= 3;
    assert 0 < i < b.rows - 1 ==> |rs| == 3;
    assert 2 <= b.rows && (i == 0 || i == b.rows - 1) ==> |rs| == 2;
    assert 0 < j < b.cols - 1 ==> |cs| == 3;
    assert 2 <= b.cols && (j == 0 || j == b.cols - 1) ==> |cs| == 2;
    SmallProducts(|rs|, |cs|);
  }

  lemma SmallProducts(r: int, c: int)
    requires 1 <= r <= 3 && 1 <= c <= 3
    ensures r * c <= 9
    ensures r == 3 && c == 3 ==> r * c == 9
    ensures (r == 2 && c == 3) || (r == 3 && c == 2) ==> r * c == 6
    ensures r == 2 && c == 2 ==> r * c == 4
  {
  }

  /** The number of alive cells among `ps`. */
  function CountAlive(b: Board, ps: seq<Pos>): (n: nat)
    requires b.Valid()
    ensures n <= |ps|
  {
    if ps == [] then 0
    else Bit(b.AliveAt(ps[0])) + CountAlive(b, ps[1..])
  }

  /** The number of alive neighbours of the cell `(i, j)`. */
  function CountAliveNeighbors(b: Board, i: int, j: int): (n: nat)
    requires b.Valid() && b.InBounds(i, j)
    ensures n <= 8
  {
    NeighborsCount(b, i, j);
    CountAlive(b, Neighbors(b, i, j))
  }

  /**
   * The alive cells around `(i, j)`, defined without `Neighbors`: every
   * alive position at most one step away in each direction, except `(i, j)`.
   */
  ghost function AliveAround(b: Board, i: int, j: int): set<Pos>
    requires b.Valid()
  {
    set r, c | i - 1 <= r <= i + 1 && j - 1 <= c <= j + 1
               && (r, c) != (i, j) && b.AliveAt((r, c)) :: (r, c)
  }

  lemma {:induction false} CountAliveIsCard(b: Board, ps: seq<Pos>)
    requires b.Valid() && Distinct(ps)
    ensures CountAlive(b, ps) == |set p | p in ps && b.AliveAt(p)|
  {
    if ps != [] {
      assert Distinct(ps[1..]);
      CountAliveIsCard(b, ps[1..]);
      var rest := set p | p in ps[1..] && b.AliveAt(p);
      var all := set p | p in ps && b.AliveAt(p);
      assert ps[0] !in ps[1..];
      if b.AliveAt(ps[0]) {
        assert all == {ps[0]} + rest;
      } else {
        assert all == rest;
      }
    }
  }

  /** The live-neighbour count is the number of alive cells around `(i, j)`. */
  lemma CountAliveNeighborsIsAliveAround(b: Board, i: int, j: int)
    requires b.Valid() && b.InBounds(i, j)
    ensures CountAliveNeighbors(b, i, j) == |AliveAround(b, i, j)|
  {
    var ns := Neighbors(b, i, j);
    NeighborsDistinct(b, i, j);
    CountAliveIsCard(b, ns);
    assert (set p | p in ns && b.AliveAt(p)) == AliveAround(b, i, j);
  }

  /** The eight positions around `(i, j)`, with no clipping at the borders. */
  function Around(i: int, j: int): seq<Pos> {
    [(i - 1, j - 1), (i - 1, j), (i - 1, j + 1),
     (i, j - 1), (i, j + 1),
     (i + 1, j - 1), (i + 1, j), (i + 1, j + 1)]
  }

  /**
   * Clipping the neighbourhood at the borders counts the same as treating
   * every position off the board as dead.
   */
  lemma CountAliveNeighborsAround(b: Board, i: int, j: int)
    requires b.Valid() && b.InBounds(i, j)
    ensures CountAliveNeighbors(b, i, j) == CountAlive(b, Around(i, j))
  {
    var ns := Neighbors(b, i, j);
    var around := Around(i, j);
    NeighborsDistinct(b, i, j);
    AroundDistinct(i, j);
    AroundMembers(i, j);
    forall p | b.AliveAt(p) ensures p in ns <==> p in around {
      assert b.InBounds(p.0, p.1);
    }
    CountAliveSameAlive(b, ns, around);
  }

  /** Two lists without repetitions that hold the same alive cells count the same. */
  lemma CountAliveSameAlive(b: Board, ps: seq<Pos>, qs: seq<Pos>)
    requires b.Valid() && Distinct(ps) && Distinct(qs)
    requires forall p :: b.AliveAt(p) ==> (p in ps <==> p in qs)
    ensures CountAlive(b, ps) == CountAlive(b, qs)
  {
    CountAliveIsCard(b, ps);
    CountAliveIsCard(b, qs);
    assert (set p | p in ps && b.AliveAt(p)) == (set p | p in qs && b.AliveAt(p));
  }

  /**
   * The alive flags of the eight positions around `(i, j)` summed term by
   * term, every position off the board counting as dead.
   */
  function Count8(b: Board, i: int, j: int): nat
    requires b.Valid()
  {
    Bit(b.AliveAt((i - 1, j - 1))) + Bit(b.AliveAt((i - 1, j))) + Bit(b.AliveAt((i - 1, j + 1)))
    + Bit(b.AliveAt((i, j - 1))) + Bit(b.AliveAt((i, j + 1)))
    + Bit(b.AliveAt((i + 1, j - 1))) + Bit(b.AliveAt((i + 1, j))) + Bit(b.AliveAt((i + 1, j + 1)))
  }

  /** The unclipped count spelled out as a sum of eight terms. */
  lemma CountAliveAroundTerms(b: Board, i: int, j: int)
    requires b.Valid()
    ensures CountAlive(b, Around(i, j)) == Count8(b, i, j)
  {
    var a := Around(i, j);
    assert CountAlive(b, a[8..]) == 0;
    assert a[7..][1..] == a[8..];
    assert CountAlive(b, a[7..]) == Bit(b.AliveAt(a[7])) + CountAlive(b, a[8..]);
    assert a[6..][1..] == a[7..];
    assert CountAlive(b, a[6..]) == Bit(b.AliveAt(a[6])) + CountAlive(b, a[7..]);
    assert a[5..][1..] == a[6..];
    assert CountAlive(b, a[5..]) == Bit(b.AliveAt(a[5])) + CountAlive(b, a[6..]);
    assert a[4..][1..] == a[5..];
    assert CountAlive(b, a[4..]) == Bit(b.AliveAt(a[4])) + CountAlive(b, a[5..]);
    assert a[3..][1..] == a[4..];
    assert CountAlive(b, a[3..]) == Bit(b.AliveAt(a[3])) + CountAlive(b, a[4..]);
    assert a[2..][1..] == a[3..];
    assert CountAlive(b, a[2..]) == Bit(b.AliveAt(a[2])) + CountAlive(b, a[3..]);
    assert a[1..][1..] == a[2..];
    assert CountAlive(b, a[1..]) == Bit(b.AliveAt(a[1])) + CountAlive(b, a[2..]);
    assert a[0..][1..] == a[1..];
    assert CountAlive(b, a[0..]) == Bit(b.AliveAt(a[0])) + CountAlive(b, a[1..]);
    assert a[0..] == a;
  }

  function Bit(x: bool): nat { if x then 1 else 0 }

  lemma AroundDistinct(i: int, j: int)
    ensures Distinct(Around(i, j))
  {
  }

  lemma AroundMembers(i: int, j: int)
    ensures forall p :: p in Around(i, j) <==>
      p != (i, j) && -1 <= p.0 - i <= 1 && -1 <= p.1 - j <= 1
  {
    var a := Around(i, j);
    forall p | p != (i, j) && -1 <= p.0 - i <= 1 && -1 <= p.1 - j <= 1
      ensures p in a
    {
      if p.0 == i - 1 {
        assert p == a[0] || p == a[1] || p == a[2];
      } else if p.0 == i {
        assert p == a[3] || p == a[4];
      } else {
        assert p == a[5] || p == a[6] || p == a[7];
      }
    }
  }

  /**
   * The B3/S23 rule as a next state: a dead cell with exactly three alive
   * neighbours is born, an alive cell with two or three survives, every
   * other cell is dead in the next generation.
   */
  function B3S23(alive: bool, n: nat): bool {
    if alive then n == 2 || n == 3 else n == 3
  }

  /** Whether the cell `(i, j)` changes state in the next generation. */
  function Rule(b: Board, i: int, j: int): (flip: bool)
    requires b.Valid() && b.InBounds(i, j)
    ensures flip <==> b.cells[i][j] != B3S23(b.cells[i][j], CountAliveNeighbors(b, i, j))
  {
    var alive := b.cells[i][j];
    (alive && !(2 <= CountAliveNeighbors(b, i, j) <= 3))
    || (!alive && CountAliveNeighbors(b, i, j) == 3)
  }

  /**
   * One generation: every cell is flipped exactly when `Rule` says so on the
   * board before the step, so the result is the B3/S23 successor of `b`.
   */
  function Step(b: Board): (next: Board)
    requires b.Valid()
    ensures next.Valid() && next.rows == b.rows && next.cols == b.cols
    ensures forall i, j :: b.InBounds(i, j) ==>
      next.AliveAt((i, j)) == B3S23(b.AliveAt((i, j)), CountAliveNeighbors(b, i, j))
  {
    Board(b.rows, b.cols,
      seq(b.rows, i requires 0 <= i < b.rows =>
        seq(b.cols, j requires 0 <= j < b.cols => b.cells[i][j] != Rule(b, i, j))))
  }

  /** Two valid boards of the same size with the same alive cells are equal. */
  lemma BoardsEqual(b: Board, c: Board)
    requires b.Valid() && c.Valid() && b.rows == c.rows && b.cols == c.cols
    requires forall i, j :: b.InBounds(i, j) ==> b.AliveAt((i, j)) == c.AliveAt((i, j))
    ensures b == c
  {
    forall i | 0 <= i < b.rows ensures b.cells[i] == c.cells[i] {
      forall j | 0 <= j < b.cols ensures b.cells[i][j] == c.cells[i][j] {
        assert b.AliveAt((i, j)) == c.AliveAt((i, j));
      }
    }
  }

  /** One cell of the next generation, from the flags of the eight positions around it. */
  lemma StepAt(b: Board, i: int, j: int)
    requires b.Valid() && b.InBounds(i, j)
    ensures Step(b).AliveAt((i, j)) == B3S23(b.AliveAt((i, j)), Count8(b, i, j))
  {
    var n := CountAliveNeighbors(b, i, j);
    assert Step(b).AliveAt((i, j)) == B3S23(b.AliveAt((i, j)), n);
    CountAliveNeighborsAround(b, i, j);
    CountAliveAroundTerms(b, i, j);
  }

  /** The board with the flag of cell `(i, j)` negated. */
  function ToggleAt(b: Board, i: int, j: int): (t: Board)
    requires b.Valid() && b.InBounds(i, j)
    ensures t.Valid() && t.rows == b.rows && t.cols == b.cols
    ensures forall p :: t.AliveAt(p) == (b.AliveAt(p) != (p == (i, j)))
  {
    Board(b.rows, b.cols, b.cells[i := b.cells[i][j := !b.cells[i][j]]])
  }

  /** Toggling the same cell twice restores the board. */
  lemma ToggleAtTwice(b: Board, i: int, j: int)
    requires b.Valid() && b.InBounds(i, j)
    ensures ToggleAt(ToggleAt(b, i, j), i, j) == b
  {
    var t := ToggleAt(ToggleAt(b, i, j), i, j);
    assert t.cells[i] == b.cells[i];
  }

  lemma {:induction false} CountAliveNone(b: Board, ps: seq<Pos>)
    requires b.Valid() && forall p :: !b.AliveAt(p)
    ensures CountAlive(b, ps) == 0
  {
    if ps != [] {
      CountAliveNone(b, ps[1..]);
    }
  }

  /** A board with no alive cell stays as it is: nothing is born from nothing. */
  lemma NoLifeStaysDead(b: Board)
    requires b.Valid() && forall p :: !b.AliveAt(p)
    ensures Step(b) == b
  {
    var next := Step(b);
    forall i | 0 <= i < b.rows ensures next.cells[i] == b.cells[i] {
      forall j | 0 <= j < b.cols ensures next.cells[i][j] == b.cells[i][j] {
        assert !b.AliveAt((i, j));
        CountAliveNone(b, Neighbors(b, i, j));
      }
    }
  }

  lemma DeadStaysDead(rows: nat, cols: nat)
    ensures Step(Dead(rows, cols)) == Dead(rows, cols)
  {
    NoLifeStaysDead(Dead(rows, cols));
  }
}
