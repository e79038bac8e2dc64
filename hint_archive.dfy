/** archive/main.py: the console game. `run_game` solves a board once with
    `solve_minimal` and resets the module-level set `revealed_hints`; `show_hint`
    then reveals the marked cells of the solution one at a time, in row-major
    order. */
module ArchiveGame {
  import opened Puzzle
  import opened CoreLogic
  import opened SearchTheory

  /** A cell `(i, j)`: row `i`, column `j`. */
  type Cell = (int, int)

  /** `a` comes before `b` in row-major order. */
  predicate Before(a: Cell, b: Cell)
  {
    a.0 < b.0 || (a.0 == b.0 && a.1 < b.1)
  }

  /** `len(solution_grid[0])`, the width both loops of `show_hint` use. */
  function HintWidth(grid: Grid): nat
  {
    if |grid| == 0 then 0 else |grid[0]|
  }

  /** No row is shorter than row 0, so `solution_grid[i][j]` exists for every
      position `show_hint` visits. */
  predicate HintGrid(grid: Grid)
  {
    forall r :: 0 <= r < |grid| ==> HintWidth(grid) <= |grid[r]|
  }

  /** The marked cells among the first `j` columns of row `i`, left to right. */
  function RowMarks(grid: Grid, i: nat, j: nat): seq<Cell>
    requires i < |grid| && j <= |grid[i]|
    decreases j
  {
    if j == 0 then []
    else RowMarks(grid, i, j - 1) + (if grid[i][j - 1] == 1 then [(i, j - 1)] else [])
  }

  /** The marked cells of the first `i` rows, `w` columns wide, in row-major order. */
  function MarksUpTo(grid: Grid, w: nat, i: nat): seq<Cell>
    requires i <= |grid| && forall r :: 0 <= r < i ==> w <= |grid[r]|
    decreases i
  {
    if i == 0 then [] else MarksUpTo(grid, w, i - 1) + RowMarks(grid, i - 1, w)
  }

  /** Every cell `show_hint` can reveal, in the order its loops reach them. */
  function MarkedCells(grid: Grid): seq<Cell>
    requires HintGrid(grid)
  {
    MarksUpTo(grid, HintWidth(grid), |grid|)
  }

  /** The first cell of `cells` that is not in `revealed`. */
  function FirstNotIn(cells: seq<Cell>, revealed: set<Cell>): (r: Option<Cell>)
    ensures r.Some? ==> r.value in cells && r.value !in revealed
    ensures r.None? ==> forall k :: 0 <= k < |cells| ==> cells[k] in revealed
    decreases |cells|
  {
    if |cells| == 0 then None
    else if cells[0] !in revealed then Some(cells[0])
    else FirstNotIn(cells[1..], revealed)
  }

  /** The cell `show_hint(solution_grid)` returns when `revealed` holds the cells
      revealed so far. */
  function NextHint(grid: Grid, revealed: set<Cell>): Option<Cell>
    requires HintGrid(grid)
  {
    FirstNotIn(MarkedCells(grid), revealed)
  }

  /** `revealed_hints` after a call that returned `hint`. */
  function Reveal(revealed: set<Cell>, hint: Option<Cell>): set<Cell>
  {
    if hint.Some? then revealed + {hint.value} else revealed
  }

  /** The hints that `n` successive calls of `show_hint` return, starting from
      `revealed`. */
  function Hints(grid: Grid, revealed: set<Cell>, n: nat): seq<Option<Cell>>
    requires HintGrid(grid)
    decreases n
  {
    if n == 0 then []
    else
      var hint := NextHint(grid, revealed);
      [hint] + Hints(grid, Reveal(revealed, hint), n - 1)
  }

  /** The cells of a list, as a set. */
  function AsSet(cells: seq<Cell>): set<Cell>
  {
    set c | c in cells
  }

  /** The outcome of `run_game` before its menu loop. */
  datatype GameOutcome =
    | NoRowSubset
    | NoSolution
    | Found(marked: int, solution: Grid)

  /** `sys.maxsize` on a 64-bit interpreter: the initial `best_solution[0]` of
      `run_game`. */
  const MaxSize := 0x7FFF_FFFF_FFFF_FFFF

  /** The module-level `revealed_hints` and the two functions that use it. */
  class HintSession {
    var revealedHints: set<Cell>

    /** `revealed_hints = set()` at import time. */
    constructor ()
      ensures revealedHints == {}
    {
      revealedHints := {};
    }

    /** `show_hint(solution_grid)`: the first marked cell in row-major order that
        has not been revealed, now recorded as revealed; `None`, with nothing
        recorded, when every marked cell has been revealed. */
    method ShowHint(solutionGrid: Grid) returns (hint: Option<Cell>)
      requires HintGrid(solutionGrid)
      modifies this
      ensures hint == NextHint(solutionGrid, old(revealedHints))
      ensures revealedHints == Reveal(old(revealedHints), hint)
    {
      var w := HintWidth(solutionGrid);
      var i := 0;
      while i < |solutionGrid|
        invariant 0 <= i <= |solutionGrid| && revealedHints == old(revealedHints)
        invariant forall a, b :: 0 <= a < i && 0 <= b < w && solutionGrid[a][b] == 1 ==> (a, b) in revealedHints
      {
        var j := 0;
        while j < w
          invariant 0 <= j <= w && revealedHints == old(revealedHints)
          invariant forall b :: 0 <= b < j && solutionGrid[i][b] == 1 ==> (i, b) in revealedHints
        {
          if solutionGrid[i][j] == 1 && (i, j) !in revealedHints {
            HintAt(solutionGrid, revealedHints, i, j);
            revealedHints := revealedHints + {(i, j)};
            return Some((i, j));
          }
          j := j + 1;
        }
        i := i + 1;
      }
      NoHintLeft(solutionGrid, revealedHints);
      return None;
    }

    /** `run_game(board, target_rows, target_cols, op)` up to its menu loop: it
        resets `revealed_hints`, gives up when some row has no matching subset, and
        otherwise runs `solve_minimal` from the empty grid with `best_solution`
        starting at `[sys.maxsize, None]`. */
    method RunGame(board: Grid, targetRows: seq<int>, targetCols: seq<int>, op: Op) returns (outcome: GameOutcome)
      requires WellFormed(Instance(board, targetRows, targetCols, op))
      modifies this
      ensures revealedHints == {}
      ensures outcome.NoRowSubset? <==>
                exists r :: 0 <= r < |board| && |RowPossibilities(Instance(board, targetRows, targetCols, op))[r]| == 0
      ensures !outcome.NoRowSubset? ==>
                var all := Accepted(Instance(board, targetRows, targetCols, op));
                (outcome.NoSolution? <==> forall i :: 0 <= i < |all| ==> CountMarked(all[i]) >= MaxSize) &&
                (outcome.Found? ==>
                   exists k :: FirstMinimal(all, k) && CountMarked(all[k]) < MaxSize &&
                               outcome == Found(CountMarked(all[k]), all[k]))
    {
      revealedHints := {};
      var p := Instance(board, targetRows, targetCols, op);
      var rowPossibilities := BuildRowPossibilities(p);
      var empty := HasEmptyRow(rowPossibilities);
      if empty {
        return NoRowSubset;
      }
      var grid := new seq<int>[|board|](_ => Zeros(|board[0]|));
      assert grid[..] == EmptyGrid(|p.board|, Width(p));
      var best := new BestSolution(Finite(MaxSize));
      SolveMinimal(grid, 0, p, rowPossibilities, best);
      var k := MinPickFirstMinimal(Best(Finite(MaxSize), None), Accepted(p));
      if best.solution.None? {
        return NoSolution;
      }
      outcome := Found(best.marked.n, best.solution.value);
    }
  }

  // ---------------------------------------------------------------------------
  // The order of the marked cells
  // ---------------------------------------------------------------------------

  /** Row `i`'s marks are exactly its cells holding 1, left to right. */
  lemma {:induction false} RowMarksExact(grid: Grid, i: nat, j: nat)
    requires i < |grid| && j <= |grid[i]|
    ensures forall c :: c in RowMarks(grid, i, j) <==> c.0 == i && 0 <= c.1 < j && grid[i][c.1] == 1
    ensures forall k, l :: 0 <= k < l < |RowMarks(grid, i, j)| ==> RowMarks(grid, i, j)[k].1 < RowMarks(grid, i, j)[l].1
    decreases j
  {
    if j > 0 {
      RowMarksExact(grid, i, j - 1);
      var front := RowMarks(grid, i, j - 1);
      var marks := RowMarks(grid, i, j);
      forall k, l | 0 <= k < l < |marks|
        ensures marks[k].1 < marks[l].1
      {
        if l >= |front| {
          assert marks[l] == (i, j - 1);
          assert marks[k] == front[k] && front[k] in front;
        } else {
          assert marks[k] == front[k] && marks[l] == front[l];
        }
      }
    }
  }

  /** The marks of the first `i` rows are exactly their cells holding 1, in
      row-major order. */
  lemma {:induction false} MarksUpToExact(grid: Grid, w: nat, i: nat)
    requires i <= |grid| && forall r :: 0 <= r < i ==> w <= |grid[r]|
    ensures forall c :: c in MarksUpTo(grid, w, i) <==>
              0 <= c.0 < i && 0 <= c.1 < w && grid[c.0][c.1] == 1
    ensures forall k, l :: 0 <= k < l < |MarksUpTo(grid, w, i)| ==>
              Before(MarksUpTo(grid, w, i)[k], MarksUpTo(grid, w, i)[l])
    decreases i
  {
    if i > 0 {
      MarksUpToExact(grid, w, i - 1);
      RowMarksExact(grid, i - 1, w);
      var front := MarksUpTo(grid, w, i - 1);
      var row := RowMarks(grid, i - 1, w);
      var marks := front + row;
      forall k, l | 0 <= k < l < |marks|
        ensures Before(marks[k], marks[l])
      {
        if l < |front| {
          assert marks[k] == front[k] && marks[l] == front[l];
        } else if k >= |front| {
          assert marks[k] == row[k - |front|] && marks[l] == row[l - |front|];
        } else {
          assert marks[k] == front[k] && front[k] in front;
          assert marks[l] == row[l - |front|] && row[l - |front|] in row;
        }
      }
    }
  }

  /** A cell is marked on a well-shaped grid exactly when it holds 1. */
  lemma MarkedCellsExact(grid: Grid)
    requires HintGrid(grid)
    ensures forall c :: c in MarkedCells(grid) <==>
              0 <= c.0 < |grid| && 0 <= c.1 < HintWidth(grid) && grid[c.0][c.1] == 1
    ensures forall k, l :: 0 <= k < l < |MarkedCells(grid)| ==> Before(MarkedCells(grid)[k], MarkedCells(grid)[l])
  {
    MarksUpToExact(grid, HintWidth(grid), |grid|);
  }

  /** The marked cells come without repeats. */
  lemma MarkedCellsDistinct(grid: Grid)
    requires HintGrid(grid)
    ensures Distinct(MarkedCells(grid))
  {
    MarkedCellsExact(grid);
  }

  /** The first unrevealed cell is the one after a run of revealed ones. */
  lemma {:induction false} FirstNotInAt(cells: seq<Cell>, revealed: set<Cell>, k: nat)
    requires k < |cells| && cells[k] !in revealed
    requires forall m :: 0 <= m < k ==> cells[m] in revealed
    ensures FirstNotIn(cells, revealed) == Some(cells[k])
    decreases k
  {
    if k > 0 {
      FirstNotInAt(cells[1..], revealed, k - 1);
    }
  }

  /** The cell where the loops of `show_hint` stop is `NextHint`. */
  lemma HintAt(grid: Grid, revealed: set<Cell>, i: nat, j: nat)
    requires HintGrid(grid) && i < |grid| && j < HintWidth(grid)
    requires grid[i][j] == 1 && (i, j) !in revealed
    requires forall a, b :: 0 <= a < i && 0 <= b < HintWidth(grid) && grid[a][b] == 1 ==> (a, b) in revealed
    requires forall b :: 0 <= b < j && grid[i][b] == 1 ==> (i, b) in revealed
    ensures NextHint(grid, revealed) == Some((i, j))
  {
    var cells := MarkedCells(grid);
    MarkedCellsExact(grid);
    assert (i, j) in cells;
    var k :| 0 <= k < |cells| && cells[k] == (i, j);
    forall m | 0 <= m < k
      ensures cells[m] in revealed
    {
      assert Before(cells[m], cells[k]);
      assert cells[m] in cells;
    }
    FirstNotInAt(cells, revealed, k);
  }

  /** When every marked cell has been revealed there is no hint left. */
  lemma NoHintLeft(grid: Grid, revealed: set<Cell>)
    requires HintGrid(grid)
    requires forall a, b :: 0 <= a < |grid| && 0 <= b < HintWidth(grid) && grid[a][b] == 1 ==> (a, b) in revealed
    ensures NextHint(grid, revealed) == None
  {
    MarkedCellsExact(grid);
  }

  // ---------------------------------------------------------------------------
  // What the hints reveal
  // ---------------------------------------------------------------------------

  /** A hint is a marked cell that had not been revealed. */
  lemma HintIsMarked(grid: Grid, revealed: set<Cell>)
    requires HintGrid(grid)
    ensures NextHint(grid, revealed).Some? ==>
              var c := NextHint(grid, revealed).value;
              c !in revealed && 0 <= c.0 < |grid| && 0 <= c.1 < HintWidth(grid) && grid[c.0][c.1] == 1
  {
    MarkedCellsExact(grid);
  }

  /** Starting from the empty set that `run_game` installs, the revealed cells are
      always marked cells of the solution. */
  lemma RevealedStayMarked(grid: Grid, revealed: set<Cell>)
    requires HintGrid(grid)
    requires forall c :: c in revealed ==> c in MarkedCells(grid)
    ensures forall c :: c in Reveal(revealed, NextHint(grid, revealed)) ==> c in MarkedCells(grid)
  {
  }

  /** With the first `k` marked cells revealed, the next hint is cell `k`, or
      `None` once all are revealed. */
  lemma HintAfterPrefix(grid: Grid, k: nat)
    requires HintGrid(grid) && k <= |MarkedCells(grid)|
    ensures k < |MarkedCells(grid)| ==>
              NextHint(grid, AsSet(MarkedCells(grid)[..k])) == Some(MarkedCells(grid)[k])
    ensures k == |MarkedCells(grid)| ==> NextHint(grid, AsSet(MarkedCells(grid)[..k])) == None
  {
    var cells := MarkedCells(grid);
    var revealed := AsSet(cells[..k]);
    if k < |cells| {
      MarkedCellsDistinct(grid);
      forall m | 0 <= m < k
        ensures cells[m] in revealed
      {
        assert cells[m] == cells[..k][m];
      }
      FirstNotInAt(cells, revealed, k);
    } else {
      forall m | 0 <= m < |cells|
        ensures cells[m] in revealed
      {
        assert cells[m] == cells[..k][m];
      }
    }
  }

  /** `n` calls of `show_hint` with the first `k` marked cells revealed return the
      following marked cells in order, and `None` once they run out. */
  lemma {:induction false} HintsFromPrefix(grid: Grid, k: nat, n: nat)
    requires HintGrid(grid) && k <= |MarkedCells(grid)|
    ensures |Hints(grid, AsSet(MarkedCells(grid)[..k]), n)| == n
    ensures forall m :: 0 <= m < n ==>
              Hints(grid, AsSet(MarkedCells(grid)[..k]), n)[m] ==
                (if k + m < |MarkedCells(grid)| then Some(MarkedCells(grid)[k + m]) else None)
    decreases n
  {
    if n > 0 {
      var cells := MarkedCells(grid);
      var revealed := AsSet(cells[..k]);
      HintAfterPrefix(grid, k);
      if k < |cells| {
        assert Reveal(revealed, NextHint(grid, revealed)) == AsSet(cells[..k + 1]) by {
          assert cells[..k + 1] == cells[..k] + [cells[k]];
        }
        HintsFromPrefix(grid, k + 1, n - 1);
      } else {
        assert cells[..k] == cells;
        HintsFromEnd(grid, n - 1);
      }
    }
  }

  /** Once every marked cell is revealed, every further call returns `None`. */
  lemma {:induction false} HintsFromEnd(grid: Grid, n: nat)
    requires HintGrid(grid)
    ensures forall m :: 0 <= m < |Hints(grid, AsSet(MarkedCells(grid)), n)| ==>
              Hints(grid, AsSet(MarkedCells(grid)), n)[m] == None
    ensures |Hints(grid, AsSet(MarkedCells(grid)), n)| == n
    decreases n
  {
    if n > 0 {
      var cells := MarkedCells(grid);
      assert cells[..|cells|] == cells;
      HintAfterPrefix(grid, |cells|);
      HintsFromEnd(grid, n - 1);
    }
  }

  /** From the empty set, `show_hint` reveals the marked cells of a 0/1 solution in
      row-major order: exactly `count_marked(solution)` calls return a cell, and
      every later call returns `None`. */
  lemma HintsFromEmpty(grid: Grid, n: nat)
    requires HintGrid(grid) && forall r :: 0 <= r < |grid| ==> |grid[r]| == HintWidth(grid) && IsMask(grid[r])
    ensures |MarkedCells(grid)| == CountMarked(grid)
    ensures |Hints(grid, {}, n)| == n
    ensures forall m :: 0 <= m < n ==>
              (m < CountMarked(grid) ==> Hints(grid, {}, n)[m] == Some(MarkedCells(grid)[m])) &&
              (m >= CountMarked(grid) ==> Hints(grid, {}, n)[m] == None)
  {
    MarkedCellsCount(grid);
    assert AsSet(MarkedCells(grid)[..0]) == {};
    HintsFromPrefix(grid, 0, n);
  }

  /** A 0/1 solution has `count_marked` marked cells. */
  lemma MarkedCellsCount(grid: Grid)
    requires HintGrid(grid) && forall r :: 0 <= r < |grid| ==> |grid[r]| == HintWidth(grid) && IsMask(grid[r])
    ensures |MarkedCells(grid)| == CountMarked(grid)
  {
    MarksUpToCount(grid, HintWidth(grid), |grid|);
    assert grid[..|grid|] == grid;
  }

  /** On 0/1 rows of the same width the marked cells number `count_marked`. */
  lemma {:induction false} MarksUpToCount(grid: Grid, w: nat, i: nat)
    requires i <= |grid| && forall r :: 0 <= r < |grid| ==> |grid[r]| == w && IsMask(grid[r])
    ensures |MarksUpTo(grid, w, i)| == CountMarked(grid[..i])
    decreases i
  {
    if i > 0 {
      MarksUpToCount(grid, w, i - 1);
      assert grid[..i][..i - 1] == grid[..i - 1];
      RowMarksCount(grid, i - 1, w);
      assert grid[i - 1][..w] == grid[i - 1];
    }
  }

  /** Row `i` has as many marks among its first `j` columns as they sum to. */
  lemma {:induction false} RowMarksCount(grid: Grid, i: nat, j: nat)
    requires i < |grid| && j <= |grid[i]| && IsMask(grid[i])
    ensures |RowMarks(grid, i, j)| == RowSum(grid[i][..j])
    decreases j
  {
    if j > 0 {
      RowMarksCount(grid, i, j - 1);
      assert grid[i][..j][..j - 1] == grid[i][..j - 1];
    }
  }
}
