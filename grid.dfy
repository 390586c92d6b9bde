/**
 * The 9x9 Sudoku grid shared by the generator and the validator.
 *
 * A grid is a row-major sequence of 81 integers, cell (r, c) at index
 * r * 9 + c; 0 means blank.  The 27 units are numbered as the source scans
 * them: rows 0-8, columns 9-17 and boxes 18-26 (box b covers rows
 * 3 * (b / 3) .. and columns 3 * (b % 3) ..).  Cell(u, k) is the k-th cell
 * of unit u in the source's scan order (row-major inside a box).
 */
module Grid {

  const Digits: set<int> := {1, 2, 3, 4, 5, 6, 7, 8, 9}

  function Cell(u: nat, k: nat): (i: nat)
    requires u < 27 && k < 9
    ensures i < 81
  {
    if u < 9 then u * 9 + k
    else if u < 18 then k * 9 + (u - 9)
    else (((u - 18) / 3) * 3 + k / 3) * 9 + ((u - 18) % 3) * 3 + k % 3
  }

  /** The row, column and box unit of a cell, and its position inside each. */
  function RowUnit(i: nat): nat requires i < 81 { i / 9 }
  function ColUnit(i: nat): nat requires i < 81 { 9 + i % 9 }
  function BoxUnit(i: nat): nat requires i < 81 { 18 + (i / 27) * 3 + (i % 9) / 3 }
  function RowPos(i: nat): nat requires i < 81 { i % 9 }
  function ColPos(i: nat): nat requires i < 81 { i / 9 }
  function BoxPos(i: nat): nat requires i < 81 { ((i / 9) % 3) * 3 + i % 3 }

  /** Two cells share a row, a column or a box, stated by coordinates. */
  predicate SameHouse(i: nat, j: nat)
  {
    i / 9 == j / 9 || i % 9 == j % 9 || (i / 27 == j / 27 && (i % 9) / 3 == (j % 9) / 3)
  }

  predicate IsGrid(g: seq<int>)
  {
    |g| == 81 && forall i :: 0 <= i < 81 ==> 0 <= g[i] <= 9
  }

  /** No unit holds the same non-zero value twice (the source's isValidGrid). */
  predicate ValidGrid(g: seq<int>)
    requires |g| == 81
  {
    forall u, k1, k2 :: 0 <= u < 27 && 0 <= k1 < 9 && 0 <= k2 < 9 && k1 != k2 && g[Cell(u, k1)] != 0 ==>
      g[Cell(u, k1)] != g[Cell(u, k2)]
  }

  /** No blank cell left (the source's isComplete). */
  predicate Complete(g: seq<int>)
    requires |g| == 81
  {
    forall i :: 0 <= i < 81 ==> g[i] != 0
  }

  /** s agrees with every non-zero cell of g. */
  predicate Extends(s: seq<int>, g: seq<int>)
  {
    |s| == |g| && forall i :: 0 <= i < |g| && g[i] != 0 ==> s[i] == g[i]
  }

  /** Every non-zero cell of p holds the value solution has there. */
  predicate SubGrid(p: seq<int>, solution: seq<int>)
  {
    |p| == |solution| && forall i :: 0 <= i < |p| ==> p[i] == 0 || p[i] == solution[i]
  }

  /** A completed grid of digits 1-9 with no unit conflict. */
  predicate Solved(s: seq<int>)
  {
    |s| == 81 && (forall i :: 0 <= i < 81 ==> 1 <= s[i] <= 9) && ValidGrid(s)
  }

  predicate IsSolutionOf(s: seq<int>, g: seq<int>)
  {
    Solved(s) && Extends(s, g)
  }

  /** s is the one and only solution of g. */
  ghost predicate UniquelySolvedBy(g: seq<int>, s: seq<int>)
  {
    IsSolutionOf(s, g) && forall t :: IsSolutionOf(t, g) ==> t == s
  }

  /** Placing v at cell i meets no v in the cell's row, column or box. */
  predicate NoClash(g: seq<int>, i: nat, v: int)
    requires |g| == 81 && i < 81
  {
    forall k :: 0 <= k < 9 ==>
      g[Cell(RowUnit(i), k)] != v && g[Cell(ColUnit(i), k)] != v && g[Cell(BoxUnit(i), k)] != v
  }

  /** The non-zero values present in unit u. */
  function UnitValues(g: seq<int>, u: nat): set<int>
    requires |g| == 81 && u < 27
  {
    set k | 0 <= k < 9 && g[Cell(u, k)] != 0 :: g[Cell(u, k)]
  }

  /** Candidate digits of one cell, computed as candidatesFor does: all digits minus row, column and box values. */
  function Candidates(g: seq<int>, i: nat): set<int>
    requires |g| == 81 && i < 81
  {
    if g[i] != 0 then {}
    else Digits - UnitValues(g, RowUnit(i)) - UnitValues(g, ColUnit(i)) - UnitValues(g, BoxUnit(i))
  }

  /** Number of blank cells. */
  function Blanks(g: seq<int>): (n: nat)
    ensures n <= |g|
  {
    if |g| == 0 then 0 else Blanks(g[..|g| - 1]) + (if g[|g| - 1] == 0 then 1 else 0)
  }

  /** Number of clues (non-zero cells), as clueCount computes it. */
  function Clues(g: seq<int>): nat
  {
    |g| - Blanks(g)
  }

  // ---------------------------------------------------------------- unit geometry

  lemma DivMod(q: nat, m: nat, n: nat)
    requires n == 3 || n == 9 || n == 27
    requires m < n
    ensures (q * n + m) / n == q && (q * n + m) % n == m
  {
    if n == 3 {
      assert q * n + m == q * 3 + m;
    } else if n == 9 {
      assert q * n + m == q * 9 + m;
    } else {
      assert q * n + m == q * 27 + m;
    }
  }

  /** Row and column of the k-th cell of each unit. */
  lemma CellCoords(u: nat, k: nat)
    requires u < 27 && k < 9
    ensures u < 9 ==> Cell(u, k) / 9 == u && Cell(u, k) % 9 == k
    ensures 9 <= u < 18 ==> Cell(u, k) / 9 == k && Cell(u, k) % 9 == u - 9
    ensures 18 <= u ==> Cell(u, k) / 9 == ((u - 18) / 3) * 3 + k / 3 && Cell(u, k) % 9 == ((u - 18) % 3) * 3 + k % 3
  {
    if u < 9 {
      DivMod(u, k, 9);
    } else if u < 18 {
      DivMod(k, u - 9, 9);
    } else {
      var b := u - 18;
      var r, c := (b / 3) * 3 + k / 3, (b % 3) * 3 + k % 3;
      assert c < 9;
      assert Cell(u, k) == r * 9 + c;
      DivMod(r, c, 9);
    }
  }

  lemma CellsOfCell(i: nat)
    requires i < 81
    ensures RowUnit(i) < 27 && ColUnit(i) < 27 && BoxUnit(i) < 27
    ensures RowPos(i) < 9 && ColPos(i) < 9 && BoxPos(i) < 9
    ensures Cell(RowUnit(i), RowPos(i)) == i
    ensures Cell(ColUnit(i), ColPos(i)) == i
    ensures Cell(BoxUnit(i), BoxPos(i)) == i
  {
    var r, c := i / 9, i % 9;
    assert i == r * 9 + c;
    BoxOfCell(i);
  }

  lemma BoxOfCell(i: nat)
    requires i < 81
    ensures BoxUnit(i) < 27 && BoxPos(i) < 9
    ensures Cell(BoxUnit(i), BoxPos(i)) == i
  {
    var r, c := i / 9, i % 9;
    var br, bc, kr, kc := r / 3, c / 3, r % 3, c % 3;
    assert i == (br * 3 + kr) * 9 + bc * 3 + kc;
    BoxCoords(br, bc, kr, kc);
    assert BoxUnit(i) == 18 + br * 3 + bc;
    assert BoxPos(i) == kr * 3 + kc;
    DivMod(br, bc, 3);
    DivMod(kr, kc, 3);
  }

  lemma UnitsOfCell(u: nat, k: nat)
    requires u < 27 && k < 9
    ensures var i := Cell(u, k);
      (u < 9 ==> u == RowUnit(i) && k == RowPos(i)) &&
      (9 <= u < 18 ==> u == ColUnit(i) && k == ColPos(i)) &&
      (18 <= u ==> u == BoxUnit(i) && k == BoxPos(i))
  {
    CellCoords(u, k);
    if 18 <= u {
      UnitsOfBoxCell(u, k);
    }
  }

  lemma UnitsOfBoxCell(u: nat, k: nat)
    requires 18 <= u < 27 && k < 9
    ensures u == BoxUnit(Cell(u, k)) && k == BoxPos(Cell(u, k))
  {
    var b := u - 18;
    DivMod(b / 3, b % 3, 3);
    DivMod(k / 3, k % 3, 3);
    BoxCoords(b / 3, b % 3, k / 3, k % 3);
  }

  /** The cell at row 3 * br + kr and column 3 * bc + kc, split back into box and in-box coordinates. */
  lemma BoxCoords(br: nat, bc: nat, kr: nat, kc: nat)
    requires br < 3 && bc < 3 && kr < 3 && kc < 3
    ensures var i := (br * 3 + kr) * 9 + bc * 3 + kc;
      i / 27 == br && (i % 9) / 3 == bc && (i / 9) % 3 == kr && i % 3 == kc
  {
    var r, c := br * 3 + kr, bc * 3 + kc;
    var i := r * 9 + c;
    DivMod(r, c, 9);
    DivMod(br, kr, 3);
    DivMod(bc, kc, 3);
    assert i / 27 == br by {
      assert i == br * 27 + (kr * 9 + c);
      DivMod(br, kr * 9 + c, 27);
    }
    assert i % 3 == kc by {
      assert i == (r * 3 + bc) * 3 + kc;
      DivMod(r * 3 + bc, kc, 3);
    }
  }

  lemma CellInjective(u: nat, k1: nat, k2: nat)
    requires u < 27 && k1 < 9 && k2 < 9 && k1 != k2
    ensures Cell(u, k1) != Cell(u, k2)
  {
    UnitsOfCell(u, k1);
    UnitsOfCell(u, k2);
  }

  /** A cell lies in unit u only when u is its row, column or box unit. */
  lemma UnitOfMember(u: nat, k: nat, i: nat)
    requires u < 27 && k < 9 && i < 81 && Cell(u, k) == i
    ensures u == RowUnit(i) || u == ColUnit(i) || u == BoxUnit(i)
  {
    UnitsOfCell(u, k);
  }

  /** Every cell of a cell's row, column and box unit is in the same house. */
  lemma UnitCellInHouse(i: nat, k: nat)
    requires i < 81 && k < 9
    ensures SameHouse(i, Cell(RowUnit(i), k))
    ensures SameHouse(i, Cell(ColUnit(i), k))
    ensures SameHouse(i, Cell(BoxUnit(i), k))
  {
    CellsOfCell(i);
    CellCoords(RowUnit(i), k);
    CellCoords(ColUnit(i), k);
    var j := Cell(BoxUnit(i), k);
    BoxUnitSame(i, j, k);
  }

  lemma BoxUnitSame(i: nat, j: nat, k: nat)
    requires i < 81 && k < 9 && j == Cell(BoxUnit(i), k)
    ensures i / 27 == j / 27 && (i % 9) / 3 == (j % 9) / 3
  {
    UnitsOfCell(BoxUnit(i), k);
    assert BoxUnit(j) == BoxUnit(i);
    SplitBox(i / 27, (i % 9) / 3, j / 27, (j % 9) / 3);
  }

  lemma SplitBox(x: int, y: int, x': int, y': int)
    requires 0 <= y < 3 && 0 <= y' < 3 && x * 3 + y == x' * 3 + y'
    ensures x == x' && y == y'
  {
  }

  /** Conversely, a cell in the same house lies in one of those three units. */
  lemma HouseCellInUnit(i: nat, j: nat)
    requires i < 81 && j < 81 && SameHouse(i, j)
    ensures j == Cell(RowUnit(i), RowPos(j)) || j == Cell(ColUnit(i), ColPos(j)) || j == Cell(BoxUnit(i), BoxPos(j))
  {
    CellsOfCell(j);
    CellsOfCell(i);
    if i / 9 != j / 9 && i % 9 != j % 9 {
      assert BoxUnit(i) == BoxUnit(j);
    }
  }

  // ---------------------------------------------------------------- candidates and placements

  /** candidatesFor: the candidate set of every cell. */
  function CandidatesFor(g: seq<int>): (cand: seq<set<int>>)
    requires |g| == 81
    ensures |cand| == 81
    ensures forall i, d :: 0 <= i < 81 ==>
      (d in cand[i] <==> g[i] == 0 && 1 <= d <= 9 && forall j :: 0 <= j < 81 && SameHouse(i, j) ==> g[j] != d)
  {
    var cand := seq(81, i requires 0 <= i < 81 => Candidates(g, i));
    forall i, d | 0 <= i < 81
      ensures d in cand[i] <==> g[i] == 0 && 1 <= d <= 9 && forall j :: 0 <= j < 81 && SameHouse(i, j) ==> g[j] != d
    {
      CandidateIff(g, i, d);
      NoClashIffHouse(g, i, d);
    }
    cand
  }

  /** A digit is a candidate of a blank cell exactly when none of the cell's units holds it. */
  lemma CandidateIff(g: seq<int>, i: nat, d: int)
    requires |g| == 81 && i < 81
    ensures d in Candidates(g, i) <==> g[i] == 0 && d in Digits && NoClash(g, i, d)
  {
    CellsOfCell(i);
    if g[i] == 0 && d in Digits && !NoClash(g, i, d) {
      var k :| 0 <= k < 9 && (g[Cell(RowUnit(i), k)] == d || g[Cell(ColUnit(i), k)] == d || g[Cell(BoxUnit(i), k)] == d);
      if g[Cell(RowUnit(i), k)] == d {
        assert d in UnitValues(g, RowUnit(i));
      } else if g[Cell(ColUnit(i), k)] == d {
        assert d in UnitValues(g, ColUnit(i));
      } else {
        assert d in UnitValues(g, BoxUnit(i));
      }
    }
  }

  /** NoClash, stated by units, agrees with the coordinate statement over the cell's house. */
  lemma NoClashIffHouse(g: seq<int>, i: nat, d: int)
    requires |g| == 81 && i < 81
    ensures NoClash(g, i, d) <==> forall j :: 0 <= j < 81 && SameHouse(i, j) ==> g[j] != d
  {
    if NoClash(g, i, d) {
      NoClashHouse(g, i, d);
    }
    if forall j :: 0 <= j < 81 && SameHouse(i, j) ==> g[j] != d {
      HouseNoClash(g, i, d);
    }
  }

  lemma NoClashHouse(g: seq<int>, i: nat, d: int)
    requires |g| == 81 && i < 81 && NoClash(g, i, d)
    ensures forall j :: 0 <= j < 81 && SameHouse(i, j) ==> g[j] != d
  {
    forall j | 0 <= j < 81 && SameHouse(i, j)
      ensures g[j] != d
    {
      HouseCellInUnit(i, j);
      CellsOfCell(j);
    }
  }

  lemma HouseNoClash(g: seq<int>, i: nat, d: int)
    requires |g| == 81 && i < 81
    requires forall j :: 0 <= j < 81 && SameHouse(i, j) ==> g[j] != d
    ensures NoClash(g, i, d)
  {
    forall k | 0 <= k < 9
      ensures g[Cell(RowUnit(i), k)] != d && g[Cell(ColUnit(i), k)] != d && g[Cell(BoxUnit(i), k)] != d
    {
      CellsOfCell(i);
      UnitCellInHouse(i, k);
    }
  }

  /** Writing a value that clashes with nothing keeps the grid valid. */
  lemma PlaceKeepsValid(g: seq<int>, i: nat, v: int)
    requires |g| == 81 && i < 81 && ValidGrid(g) && NoClash(g, i, v)
    ensures ValidGrid(g[i := v])
  {
    var h := g[i := v];
    forall u, k1, k2 | 0 <= u < 27 && 0 <= k1 < 9 && 0 <= k2 < 9 && k1 != k2 && h[Cell(u, k1)] != 0
      ensures h[Cell(u, k1)] != h[Cell(u, k2)]
    {
      CellInjective(u, k1, k2);
      if Cell(u, k1) == i {
        UnitOfMember(u, k1, i);
      } else if Cell(u, k2) == i {
        UnitOfMember(u, k2, i);
      }
    }
  }

  /** Any solution of g holds, at a blank cell of g, one of that cell's candidates. */
  lemma SolutionValueIsCandidate(s: seq<int>, g: seq<int>, i: nat)
    requires |g| == 81 && i < 81 && IsSolutionOf(s, g) && g[i] == 0
    ensures s[i] in Candidates(g, i)
  {
    SolutionNoClash(s, g, i);
    CandidateIff(g, i, s[i]);
  }

  /** A cell's value in a solution passes the placement check of its blank cell. */
  lemma SolutionNoClash(s: seq<int>, g: seq<int>, i: nat)
    requires |g| == 81 && i < 81 && IsSolutionOf(s, g) && g[i] == 0
    ensures NoClash(g, i, s[i])
  {
    CellsOfCell(i);
    forall k | 0 <= k < 9
      ensures g[Cell(RowUnit(i), k)] != s[i] && g[Cell(ColUnit(i), k)] != s[i] && g[Cell(BoxUnit(i), k)] != s[i]
    {
      NotInUnit(s, g, i, RowUnit(i), RowPos(i), k);
      NotInUnit(s, g, i, ColUnit(i), ColPos(i), k);
      NotInUnit(s, g, i, BoxUnit(i), BoxPos(i), k);
    }
  }

  lemma NotInUnit(s: seq<int>, g: seq<int>, i: nat, u: nat, p: nat, k: nat)
    requires |g| == 81 && i < 81 && IsSolutionOf(s, g) && g[i] == 0
    requires u < 27 && p < 9 && k < 9 && Cell(u, p) == i
    ensures g[Cell(u, k)] != s[i]
  {
    if k != p {
      assert s[Cell(u, p)] != s[Cell(u, k)];
    }
  }

  /** A complete grid is extended only by itself. */
  lemma CompleteHasOnlyItself(g: seq<int>, s: seq<int>)
    requires |g| == 81 && Complete(g) && Extends(s, g)
    ensures s == g
  {
  }

  /** Blanking cells of a valid grid keeps it valid; so a sub-grid of a valid grid is valid. */
  lemma SubGridValid(p: seq<int>, s: seq<int>)
    requires |s| == 81 && SubGrid(p, s) && ValidGrid(s)
    ensures ValidGrid(p)
  {
  }

  lemma BlanksUpdate(g: seq<int>, i: nat, v: int)
    requires i < |g|
    ensures Blanks(g[i := v]) == Blanks(g) - (if g[i] == 0 then 1 else 0) + (if v == 0 then 1 else 0)
    decreases |g|
  {
    var h := g[i := v];
    if i < |g| - 1 {
      assert h[..|h| - 1] == g[..|g| - 1][i := v];
      BlanksUpdate(g[..|g| - 1], i, v);
    } else {
      assert h[..|h| - 1] == g[..|g| - 1];
    }
  }

  lemma BlanksZeroIffComplete(g: seq<int>)
    ensures Blanks(g) == 0 <==> forall i :: 0 <= i < |g| ==> g[i] != 0
  {
    if |g| > 0 {
      BlanksZeroIffComplete(g[..|g| - 1]);
      assert forall i :: 0 <= i < |g| - 1 ==> g[..|g| - 1][i] == g[i];
    }
  }

  /** Pigeonhole: distinct values drawn from a set of the same size cover it. */
  lemma DistinctCovers(xs: seq<int>, S: set<int>)
    requires |xs| == |S|
    requires forall i :: 0 <= i < |xs| ==> xs[i] in S
    requires forall i, j :: 0 <= i < j < |xs| ==> xs[i] != xs[j]
    ensures forall x :: x in S ==> x in xs
  {
    if |xs| > 0 {
      var rest := xs[1..];
      forall i | 0 <= i < |rest| ensures rest[i] in S - {xs[0]} {
        assert rest[i] == xs[i + 1];
      }
      assert |S - {xs[0]}| == |S| - 1;
      DistinctCovers(rest, S - {xs[0]});
      forall x | x in S ensures x in xs {
        if x != xs[0] {
          assert x in rest;
          var j :| 0 <= j < |rest| && rest[j] == x;
          assert xs[j + 1] == x;
        }
      }
    }
  }

  lemma SubsetCard(a: set<int>, b: set<int>)
    requires a <= b
    ensures |a| <= |b|
  {
    assert b == a + (b - a);
  }

  lemma DigitsCard()
    ensures |Digits| == 9
  {
  }

  /** The entries of unit u (values, or candidate sets), in scan order. */
  function UnitNums<T>(g: seq<T>, u: nat): (nums: seq<T>)
    requires |g| == 81 && u < 27
    ensures |nums| == 9 && forall k :: 0 <= k < 9 ==> nums[k] == g[Cell(u, k)]
  {
    seq(9, k requires 0 <= k < 9 => g[Cell(u, k)])
  }

  /** Every unit of a solved grid holds every digit. */
  lemma SolvedUnitHasDigit(s: seq<int>, u: nat, d: int)
    requires Solved(s) && u < 27 && 1 <= d <= 9
    ensures exists k :: 0 <= k < 9 && s[Cell(u, k)] == d
  {
    var nums := UnitNums(s, u);
    DigitsCard();
    DistinctCovers(nums, Digits);
    assert d in nums;
  }
}
