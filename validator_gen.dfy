/**
 * The generator half of the validator script: a backtracking fill of a
 * blank grid, the placement check it uses, and the naive puzzle maker that
 * blanks cells while the partial check still passes.
 *
 * Math.random is not modelled: each shuffle is an arbitrary permutation,
 * chosen nondeterministically, so every property below holds whatever the
 * random draws are.
 */
module ValidatorGen {
  import opened Wrappers
  import opened Grid
  import opened Codec
  import opened SolvedGrid
  import opened Validator

  /** The cell of the 3x3 box of pos at box row dr and box column dc, as the source computes it. */
  lemma BoxCell(pos: nat, dr: nat, dc: nat)
    requires pos < 81 && dr < 3 && dc < 3
    ensures ((pos / 9) / 3) * 3 + dr < 9 && ((pos % 9) / 3) * 3 + dc < 9
    ensures Cell(BoxUnit(pos), dr * 3 + dc) == (((pos / 9) / 3) * 3 + dr) * 9 + ((pos % 9) / 3) * 3 + dc
  {
    var b := (pos / 27) * 3 + (pos % 9) / 3;
    assert pos / 27 == (pos / 9) / 3;
    DivMod(pos / 27, (pos % 9) / 3, 3);
    DivMod(dr, dc, 3);
    assert BoxUnit(pos) - 18 == b;
  }

  /** The row loop of isValidPlacement. */
  method RowFree(grid: array<int>, pos: nat, num: int) returns (free: bool)
    requires grid.Length == 81 && pos < 81
    ensures free <==> forall k :: 0 <= k < 9 ==> grid[Cell(RowUnit(pos), k)] != num
  {
    var row := pos / 9;
    for c := 0 to 9
      invariant forall k :: 0 <= k < c ==> grid[Cell(RowUnit(pos), k)] != num
    {
      assert row * 9 + c == Cell(RowUnit(pos), c);
      if grid[row * 9 + c] == num {
        return false;
      }
    }
    return true;
  }

  /** The column loop of isValidPlacement. */
  method ColumnFree(grid: array<int>, pos: nat, num: int) returns (free: bool)
    requires grid.Length == 81 && pos < 81
    ensures free <==> forall k :: 0 <= k < 9 ==> grid[Cell(ColUnit(pos), k)] != num
  {
    var col := pos % 9;
    for r := 0 to 9
      invariant forall k :: 0 <= k < r ==> grid[Cell(ColUnit(pos), k)] != num
    {
      assert r * 9 + col == Cell(ColUnit(pos), r);
      if grid[r * 9 + col] == num {
        return false;
      }
    }
    return true;
  }

  /** The box loops of isValidPlacement, from the top-left cell (boxRow, boxCol) of the box of pos. */
  method BoxFree(grid: array<int>, pos: nat, num: int) returns (free: bool)
    requires grid.Length == 81 && pos < 81
    ensures free <==> forall k :: 0 <= k < 9 ==> grid[Cell(BoxUnit(pos), k)] != num
  {
    var boxRow, boxCol := ((pos / 9) / 3) * 3, ((pos % 9) / 3) * 3;
    for r := boxRow to boxRow + 3
      invariant forall k :: 0 <= k < (r - boxRow) * 3 ==> grid[Cell(BoxUnit(pos), k)] != num
    {
      for c := boxCol to boxCol + 3
        invariant forall k :: 0 <= k < (r - boxRow) * 3 + (c - boxCol) ==> grid[Cell(BoxUnit(pos), k)] != num
      {
        BoxCell(pos, r - boxRow, c - boxCol);
        if grid[r * 9 + c] == num {
          return false;
        }
      }
    }
    return true;
  }

  /** isValidPlacement: num occurs nowhere in the row, the column or the box of pos. */
  method IsValidPlacement(grid: array<int>, pos: nat, num: int) returns (ok: bool)
    requires grid.Length == 81 && pos < 81
    ensures ok <==> NoClash(grid[..], pos, num)
  {
    ok := RowFree(grid, pos, num);
    if !ok {
      return;
    }
    ok := ColumnFree(grid, pos, num);
    if !ok {
      return;
    }
    ok := BoxFree(grid, pos, num);
  }

  /**
   * fillGrid: complete the first blank cell, in row-major order, by trying
   * a shuffle of 1-9 against isValidPlacement and recursing; undo and report
   * failure when no digit leads to a full grid.  On success the grid is a
   * solution of what it was; on failure it is unchanged and has no solution.
   */
  method FillGrid(grid: array<int>) returns (ok: bool)
    requires grid.Length == 81 && IsGrid(grid[..]) && ValidGrid(grid[..])
    modifies grid
    decreases Blanks(grid[..]), 1
    ensures IsGrid(grid[..]) && ValidGrid(grid[..])
    ensures ok ==> IsSolutionOf(grid[..], old(grid[..]))
    ensures !ok ==> grid[..] == old(grid[..]) && forall s :: !IsSolutionOf(s, old(grid[..]))
  {
    for i := 0 to 81
      invariant forall k :: 0 <= k < i ==> grid[k] != 0
    {
      if grid[i] == 0 {
        ok := FillCell(grid, i);
        return;
      }
    }
    return true;
  }

  /** The blank-cell branch of fillGrid: the loop over a shuffle of 1-9. */
  method FillCell(grid: array<int>, i: nat) returns (ok: bool)
    requires grid.Length == 81 && IsGrid(grid[..]) && ValidGrid(grid[..])
    requires i < 81 && grid[i] == 0
    modifies grid
    decreases Blanks(grid[..]), 0
    ensures IsGrid(grid[..]) && ValidGrid(grid[..])
    ensures ok ==> IsSolutionOf(grid[..], old(grid[..]))
    ensures !ok ==> grid[..] == old(grid[..]) && forall s :: !IsSolutionOf(s, old(grid[..]))
  {
    ghost var g0 := grid[..];
    DigitListIsPermutation();
    var numbers: seq<int> :| IsDigitPermutation(numbers);
    assert IsDigitPermutation(numbers);
    PermutationFacts(numbers);
    for k := 0 to 9
      invariant grid[..] == g0
      invariant forall s :: IsSolutionOf(s, g0) ==> s[i] !in numbers[..k]
    {
      var num := numbers[k];
      assert numbers[..k + 1] == numbers[..k] + [num];
      var valid := IsValidPlacement(grid, i, num);
      if valid {
        PlaceKeepsValid(g0, i, num);
        BlanksUpdate(g0, i, num);
        grid[i] := num;
        assert grid[..] == g0[i := num];
        ok := FillGrid(grid);
        if ok {
          return;
        }
        grid[i] := 0;
        assert grid[..] == g0;
        forall s | IsSolutionOf(s, g0)
          ensures s[i] != num
        {
          if s[i] == num {
            assert IsSolutionOf(s, g0[i := num]);
          }
        }
      } else {
        forall s | IsSolutionOf(s, g0)
          ensures s[i] != num
        {
          SolutionNoClash(s, g0, i);
        }
      }
    }
    assert numbers[..9] == numbers;
    return false;
  }

  // ---------------------------------------------------------------- a blank grid is solvable

  /** The blank grid generateCompletedGrid starts from. */
  const BlankGrid: seq<int> := seq(81, _ => 0)

  /** A fixed solved grid: row r is the digits shifted by 3r + r / 3. */
  function PatternValue(i: nat): int
  {
    ((i / 9) * 3 + (i / 9) / 3 + i % 9) % 9 + 1
  }

  function PatternGrid(): (g: seq<int>)
    ensures |g| == 81 && forall i :: 0 <= i < 81 ==> g[i] == PatternValue(i)
  {
    seq(81, i requires 0 <= i < 81 => PatternValue(i))
  }

  /** The shift of unit u and the slot of its k-th cell in the pattern. */
  function Offset(u: nat): nat
  {
    if u < 9 then u * 3 + u / 3
    else if u < 18 then u - 9
    else (u - 18) / 3 + ((u - 18) % 3) * 3
  }

  function Slot(u: nat, k: nat): nat
  {
    if 9 <= u < 18 then (k % 3) * 3 + k / 3 else k
  }

  lemma ModAdd9(q: nat, x: nat)
    ensures (q * 9 + x) % 9 == x % 9
  {
    DivMod(q + x / 9, x % 9, 9);
    assert q * 9 + x == (q + x / 9) * 9 + x % 9;
  }

  lemma ModShift(a: nat, x: nat, y: nat)
    requires x < 9 && y < 9 && (a + x) % 9 == (a + y) % 9
    ensures x == y
  {
    var m := (a + x) % 9;
    assert a + x == ((a + x) / 9) * 9 + m;
    assert a + y == ((a + y) / 9) * 9 + m;
  }

  /** The pattern value at row r, column c. */
  lemma PatternAt(r: nat, c: nat)
    requires c < 9
    ensures PatternValue(r * 9 + c) == (r * 3 + r / 3 + c) % 9 + 1
  {
    DivMod(r, c, 9);
  }

  lemma PatternCell(u: nat, k: nat)
    requires u < 27 && k < 9
    ensures Slot(u, k) < 9
    ensures PatternValue(Cell(u, k)) == (Offset(u) + Slot(u, k)) % 9 + 1
  {
    if u < 9 {
      PatternAt(u, k);
    } else if u < 18 {
      PatternColumn(u, k);
    } else {
      PatternBox(u, k);
    }
  }

  lemma PatternColumn(u: nat, k: nat)
    requires 9 <= u < 18 && k < 9
    ensures PatternValue(Cell(u, k)) == (Offset(u) + Slot(u, k)) % 9 + 1
  {
    PatternAt(k, u - 9);
    ColumnShift(k, u - 9);
  }

  lemma PatternBox(u: nat, k: nat)
    requires 18 <= u < 27 && k < 9
    ensures PatternValue(Cell(u, k)) == (Offset(u) + Slot(u, k)) % 9 + 1
  {
    var b := u - 18;
    var r, c := (b / 3) * 3 + k / 3, (b % 3) * 3 + k % 3;
    assert Cell(u, k) == r * 9 + c;
    PatternAt(r, c);
    BoxShift(b, k);
  }

  lemma ColumnShift(k: nat, c: nat)
    requires k < 9
    ensures (k * 3 + k / 3 + c) % 9 == (c + (k % 3) * 3 + k / 3) % 9
  {
    assert k * 3 + k / 3 + c == (k / 3) * 9 + ((k % 3) * 3 + k / 3 + c);
    ModAdd9(k / 3, (k % 3) * 3 + k / 3 + c);
  }

  lemma BoxShift(b: nat, k: nat)
    requires b < 9 && k < 9
    ensures var r, c := (b / 3) * 3 + k / 3, (b % 3) * 3 + k % 3;
      (r * 3 + r / 3 + c) % 9 == (b / 3 + (b % 3) * 3 + k) % 9
  {
    var r, c := (b / 3) * 3 + k / 3, (b % 3) * 3 + k % 3;
    DivMod(b / 3, k / 3, 3);
    assert r / 3 == b / 3;
    assert r * 3 + r / 3 + c == (b / 3) * 9 + (b / 3 + (b % 3) * 3 + k);
    ModAdd9(b / 3, b / 3 + (b % 3) * 3 + k);
  }

  lemma SlotInjective(u: nat, k1: nat, k2: nat)
    requires u < 27 && k1 < 9 && k2 < 9 && Slot(u, k1) == Slot(u, k2)
    ensures k1 == k2
  {
    if 9 <= u < 18 {
      SplitBox(k1 % 3, k1 / 3, k2 % 3, k2 / 3);
    }
  }

  /** The pattern grid is a solved grid. */
  lemma PatternSolved()
    ensures Solved(PatternGrid())
  {
    var g := PatternGrid();
    forall u, k1, k2 | 0 <= u < 27 && 0 <= k1 < 9 && 0 <= k2 < 9 && k1 != k2 && g[Cell(u, k1)] != 0
      ensures g[Cell(u, k1)] != g[Cell(u, k2)]
    {
      PatternCell(u, k1);
      PatternCell(u, k2);
      if g[Cell(u, k1)] == g[Cell(u, k2)] {
        ModShift(Offset(u), Slot(u, k1), Slot(u, k2));
        SlotInjective(u, k1, k2);
      }
    }
  }

  /** The solutions of the blank grid are exactly the solved grids, and there is one. */
  lemma BlankGridSolutions()
    ensures IsGrid(BlankGrid) && ValidGrid(BlankGrid)
    ensures forall s :: IsSolutionOf(s, BlankGrid) <==> Solved(s)
    ensures IsSolutionOf(PatternGrid(), BlankGrid)
  {
    PatternSolved();
  }

  /** generateCompletedGrid: a solved grid, or None only if no solved grid exists (BlankGridSolutions shows one does). */
  method GenerateCompletedGrid() returns (r: Option<seq<int>>)
    ensures r.Some? ==> Solved(r.value)
    ensures r.None? ==> forall s :: !Solved(s)
  {
    var grid := new int[81](_ => 0);
    assert grid[..] == BlankGrid;
    BlankGridSolutions();
    var ok := FillGrid(grid);
    if ok {
      return Some(grid[..]);
    }
    return None;
  }

  // ---------------------------------------------------------------- the naive generator

  /** hasUniqueSolution of the script: only the partial check of the givens; the expected solution is unused. */
  method HasUniqueSolution(givens: seq<int>, expectedSolution: seq<int>) returns (b: bool)
    requires |givens| == 81
    ensures b <==> ValidGrid(givens)
  {
    var validation := ValidatePartialSudoku(givens);
    b := validation.isValid;
  }

  /** The swap of digits 1 and 2, a relabelling. */
  const SwapOneTwo: seq<int> := [2, 1, 3, 4, 5, 6, 7, 8, 9]

  /**
   * That check is weaker than uniqueness: the blank grid passes it, yet it
   * has two different solutions.
   */
  lemma CheckAdmitsAmbiguous()
    ensures ValidGrid(BlankGrid)
    ensures exists s, t :: IsSolutionOf(s, BlankGrid) && IsSolutionOf(t, BlankGrid) && s != t
  {
    BlankGridSolutions();
    var s := PatternGrid();
    assert IsDigitPermutation(SwapOneTwo);
    RelabelKeepsValid(s, SwapOneTwo);
    var t := Relabel(s, SwapOneTwo);
    assert s[0] == 1 && t[0] == 2;
  }

  /** A shuffle of the 81 cell indices. */
  predicate IsIndexPermutation(p: seq<int>)
  {
    && |p| == 81
    && (forall k :: 0 <= k < 81 ==> 0 <= p[k] < 81)
    && (forall k1, k2 :: 0 <= k1 < k2 < 81 ==> p[k1] != p[k2])
  }

  /** The number of cells generatePuzzle blanks for a difficulty: the difficulty clamped to 0-81. */
  function RemovalCount(difficulty: int): (n: nat)
    ensures n <= 81
  {
    if difficulty <= 0 then 0 else if difficulty >= 81 then 81 else difficulty
  }

  datatype Puzzle = Puzzle(givens: string, solution: string)

  /**
   * The removal loop of generatePuzzle: walk the shuffled positions, blank
   * each one while fewer than difficulty cells are blank and the check
   * passes.  The givens stay a subset of the solution, so the check never
   * fails and the restoring branch of the source is never taken.
   */
  method RemoveCells(givens: array<int>, solution: seq<int>, positions: seq<int>, difficulty: int) returns (removed: nat)
    requires givens.Length == 81 && givens[..] == solution && Solved(solution)
    requires IsIndexPermutation(positions)
    modifies givens
    ensures SubGrid(givens[..], solution)
    ensures removed == RemovalCount(difficulty) && Blanks(givens[..]) == removed
    ensures forall j :: 0 <= j < 81 ==> (givens[j] == 0 <==> j in positions[..removed])
  {
    removed := 0;
    BlanksZeroIffComplete(solution);
    for k := 0 to 81
      invariant removed == k && (k == 0 || k <= difficulty)
      invariant SubGrid(givens[..], solution)
      invariant forall j :: 0 <= j < 81 ==> (givens[j] == 0 <==> j in positions[..k])
      invariant Blanks(givens[..]) == removed
    {
      if removed >= difficulty {
        break;
      }
      var pos := positions[k];
      assert pos !in positions[..k];
      assert givens[pos] == solution[pos] != 0;
      BlanksUpdate(givens[..], pos, 0);
      givens[pos] := 0;
      assert positions[..k + 1] == positions[..k] + [pos];
      SubGridValid(givens[..], solution);
      var unique := HasUniqueSolution(givens[..], solution);
      if unique {
        removed := removed + 1;
      } else {
        assert false;
      }
    }
  }

  /**
   * generatePuzzle(difficulty = 40): a completed grid, then the removal
   * loop over a shuffle of the positions.  The pair it returns passes
   * validatePuzzle, and exactly the clamped difficulty of cells is blank.
   * None models the throw when no completed grid is found, which cannot
   * happen (BlankGridSolutions).
   */
  method GeneratePuzzle(difficulty: Option<int>) returns (r: Option<Puzzle>)
    ensures r.None? ==> forall s :: !Solved(s)
    ensures r.Some? ==> Sound(r.value.givens, r.value.solution)
    ensures r.Some? ==> var d := if difficulty.Some? then difficulty.value else 40;
      Blanks(From81(r.value.givens)) == RemovalCount(d)
  {
    var d := if difficulty.Some? then difficulty.value else 40;
    var completed := GenerateCompletedGrid();
    if completed.None? {
      return None;
    }
    var solution := completed.value;
    var givens := new int[81](i requires 0 <= i < 81 => solution[i]);
    assert givens[..] == solution;
    assert IsIndexPermutation(seq(81, i => i));
    var positions: seq<int> :| IsIndexPermutation(positions);
    assert IsIndexPermutation(positions);
    var removed := RemoveCells(givens, solution, positions, d);
    var g := givens[..];
    assert IsGrid(g);
    var pair := Puzzle(To81(g), To81(solution));
    From81To81(g);
    From81To81(solution);
    forall i | 0 <= i < 81
      ensures pair.givens[i] == '0' || pair.givens[i] == pair.solution[i]
    {
      assert pair.givens[i] == DigitChar(g[i]) && pair.solution[i] == DigitChar(solution[i]);
    }
    GeneratedIsSound(pair.givens, pair.solution);
    r := Some(pair);
  }
}
