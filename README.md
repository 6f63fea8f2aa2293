# Game of Life engine, in Dafny

This project models the simulation core of a small Conway's Game of Life program (`main.py`).
It covers the `Cell` with its alive flag and the `Grid`: a fixed `n_rows x n_cols` array of cells.
The grid computes each cell's clipped neighbourhood, counts the live neighbours and applies the
B3/S23 rule ("should this cell flip?"). It advances by one generation in place, and lets the user
toggle one cell.

The files:

- `life.dfy`, module `Life`. This is the pure part, built on values. `Board` holds the alive flags as
  a `seq<seq<bool>>` of fixed size. It has `Neighbors` (the nested list comprehension of
  `Grid.neighbors`, in the same row-major order, clipped at the borders), `CountAlive` /
  `CountAliveNeighbors` (the `sum`), `Rule` (the flip test) and `Step` (one whole generation: every
  cell XOR its `Rule` on the old board). It also has the lemmas that relate these functions to
  definitions written independently of them: the eight positions around a cell, the set of alive
  cells around it, and the B3/S23 next-state rule `B3S23`.
- `engine.dfy`, module `Engine`. This is the state that changes in place. `Cell` is a class with a
  mutable `alive` field and `Toggle`. `Grid` is a class whose storage is a `const array2<bool>`; the
  function `Board()` gives the current generation as a `Life.Board`. `Update` works like the source
  in two phases. First `Filter` builds the list of cells to flip by reading the grid, in row-major
  order, with `Rule` evaluated on the generation before the update. Then `ToggleAll` flips each listed
  cell. The method is proved to leave `Board() == Step(old(Board()))`. During the first phase the
  model takes a snapshot of the board and evaluates `Rule` on that snapshot. Filtering writes
  nothing, and the model proves that the snapshot still equals the grid when the flips are applied.
- `patterns.dfy`, module `Patterns`. These are the classic behaviours of the rule, proved on 5 x 5
  boards. The blinker `(2,1),(2,2),(2,3)` becomes `(1,2),(2,2),(3,2)` and comes back after a second
  generation, so it returns after every even number of generations. The 2 x 2 block is unchanged
  after any number of generations. `BlinkerOnGrid` runs the blinker on a `Grid` object through
  its constructor, `Toggle` and `Update`.

There are no I/O, clocks or randomness in the core. One generation is a function of the previous
one, so running `Update` twice from the same state gives the same result.

## Model

| member | source | states |
|---|---|---|
| `Life.Neighbors` | main.py:57-71 | a position is listed exactly when it lies on the board, differs from `(i, j)` and is at most one row and one column away (clipped, no wrap-around) |
| `Life.NeighborsDistinct` | main.py:66-71 | the neighbour list never repeats a position, so it stands for a set |
| `Life.NeighborsCount` | main.py:68-69 | a cell on the board has at most 8 neighbours: exactly 8 away from the borders, 5 on an edge but not in a corner, 3 in a corner (boards of at least 2 x 2) |
| `Life.Range` | main.py:68-69 | Python's `range(lo, hi)`: its length is `max(hi - lo, 0)` and its k-th element is `lo + k` |
| `Life.RowCandidates` | main.py:69-70 | the positions of one row of the comprehension are those of that row, in the column list, other than the centre |
| `Life.Candidates` | main.py:66-71 | the nested comprehension yields exactly the row/column pairs other than the centre |
| `Life.CandidatesShape` | main.py:66-71 | the comprehension over repetition-free ranges repeats nothing and has `rows*cols` entries, minus one when the centre is among them |
| `Life.CountAlive` | main.py:82 | the number of alive cells in a list is at most the list's length |
| `Life.CountAliveNeighbors` | main.py:73-82 | the live-neighbour count of a cell lies in [0, 8] |
| `Life.CountAliveIsCard` | main.py:82 | on a repetition-free list, the sum of alive flags equals the number of distinct alive cells in it |
| `Life.CountAliveNeighborsIsAliveAround` | main.py:66-82 | the live-neighbour count equals the size of the set of alive cells at most one step away from `(i, j)`, other than `(i, j)` |
| `Life.CountAliveNeighborsAround` | main.py:68-69 | clipping at the borders counts the same as counting all eight surrounding positions with off-board ones dead |
| `Life.Rule` | main.py:84-101 | `rule` says "flip" exactly when the cell's flag differs from its B3/S23 next state (born with 3, survives with 2 or 3) |
| `Life.Step` | main.py:103-107 | one generation keeps the dimensions, and every cell's new flag is the B3/S23 next state computed from the old board |
| `Life.StepAt` | main.py:99-107 | a cell's state after one generation, written out from the eight flags around it on the old board |
| `Life.Dead` | main.py:50-55 | the board a new grid starts with has the requested size and no alive cell |
| `Life.NoLifeStaysDead` | main.py:99-107 | a board without alive cells is left unchanged by a generation |
| `Life.DeadStaysDead` | main.py:103-107 | an all-dead grid stays all dead after `update` |
| `Life.ToggleAt` | main.py:137-145 | toggling `(i, j)` negates the flag of that cell and changes no other cell or dimension |
| `Life.ToggleAtTwice` | main.py:144-145 | toggling the same cell twice restores the board |
| `Engine.Cell.constructor` | main.py:10-22 | a cell is created with its position and its initial alive flag, dead unless given |
| `Engine.Cell.Toggle` | main.py:24-26 | `toggle` negates `alive` (so two toggles restore it) and keeps the position |
| `Engine.Filter` | main.py:105 | the filtered list holds exactly the grid positions the predicate accepts, in strictly increasing row-major order |
| `Engine.Grid.constructor` | main.py:39-55 | a new grid has freshly allocated storage of the requested dimensions and every cell dead |
| `Engine.Grid.Board` | main.py:50-55 | the board view has the grid's dimensions and reads each cell's flag from the storage |
| `Engine.Grid.ToggleAll` | main.py:106-107 | toggling a repetition-free list of cells flips exactly the listed cells |
| `Engine.Grid.Update` | main.py:103-107 | after `update` each cell's flag is its old flag XOR `rule` on the old grid, which equals `Step` of the old board: all decisions are taken on the generation before the update |
| `Engine.Grid.Toggle` | main.py:137-145 | `toggle(i, j)` flips exactly cell `(i, j)` and leaves every other cell unchanged |
| `Patterns.Generations` | main.py:103-107 | repeating `update` n times keeps the board's dimensions |
| `Patterns.StillLifeForever` | main.py:103-107 | a board that one generation leaves unchanged stays unchanged for any number of generations |
| `Patterns.SuccessorIsStep` | main.py:99-107 | if every cell matches the B3/S23 next state by the eight-term count, the board is the next generation |
| `Patterns.HorizontalToVertical` | main.py:99-107 | the horizontal blinker on a 5 x 5 board becomes the vertical one |
| `Patterns.VerticalToHorizontal` | main.py:99-107 | the vertical blinker on a 5 x 5 board becomes the horizontal one |
| `Patterns.BlinkerPeriodTwo` | main.py:103-107 | the blinker turns vertical after one generation and is back after every even number of generations |
| `Patterns.BlockIsStill` | main.py:103-107 | the 2 x 2 block is unchanged after any number of generations |
| `Patterns.DrawHorizontal` | main.py:137-145 | toggling cells (2, 1), (2, 2) and (2, 3) of a new all-dead 5 x 5 grid draws exactly the horizontal blinker |
| `Patterns.BlinkerOnGrid` | main.py:103-107 | on a grid object built with `Grid(5, 5)` and three `toggle` calls, one `update` leaves the vertical blinker and a second the horizontal one again |

## Left out

- Rendering is left out because it is all foreign drawing calls over float pixel geometry. This
  covers `Cell.draw`, `Grid.draw`, the `pygame.Rect` built in the `Cell` constructor and the
  `cell_size` that only they use. The `Cell` constructor and the `Grid` constructor of the model
  therefore take no size.
- The `Game` class is left out as driver glue: window, font and clock setup, the event loop, the
  pause flag, the legend text, and the mapping of the mouse position to indices. That mapping passes
  the x coordinate as the row index and checks no bounds.
- The numpy object array of `Cell` objects is stored as one `array2<bool>` of alive flags. The
  per-cell `i`/`j` fields only mirror the array position. `Engine.Cell` therefore stands on its own,
  and `Engine.Grid.Toggle` does to a stored flag what `Cell.toggle` does to `alive`. Aliasing
  between cell objects is not modelled; in the source every cell is a distinct object.
- Engine.Grid.Toggle: requires `0 <= i < n_rows` and `0 <= j < n_cols`. The source checks nothing:
  numpy wraps a negative index around and raises an error on a too-large one. The model makes
  in-range indices the caller's obligation, so neither the wrap-around nor a bounds-checked
  rejection is modelled.
- Grid dimensions are `nat`. A negative size in Python gives an empty grid; the model has no such
  value.
