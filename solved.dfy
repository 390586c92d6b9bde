/**
 * generateSolved: a full grid built by writing a shuffled 1-9 into each of
 * the three diagonal boxes and then completing the rest by backtracking in
 * row-major order; and the digit relabelling applied to it afterwards.
 */
module SolvedGrid {
  import opened Grid
  import opened Random

  /** The digit list 1-9 that every shuffle starts from. */
  const DigitList: seq<int> := [1, 2, 3, 4, 5, 6, 7, 8, 9]

  /** Box units 18, 22 and 26: the boxes on the main diagonal. */
  predicate InDiagonal(i: nat)
    requires i < 81
  {
    BoxUnit(i) == 18 || BoxUnit(i) == 22 || BoxUnit(i) == 26
  }

  /** Nine distinct digits 1-9: a permutation of the digit list. */
  predicate IsDigitPermutation(d: seq<int>)
  {
    && |d| == 9
    && (forall k :: 0 <= k < 9 ==> 1 <= d[k] <= 9)
    && (forall k1, k2 :: 0 <= k1 < k2 < 9 ==> d[k1] != d[k2])
  }

  /** DIGS.slice(): a fresh array holding 1-9. */
  method NewDigits() returns (a: array<int>)
    ensures fresh(a) && a[..] == DigitList
  {
    a := new int[9];
    var k := 0;
    while k < 9
      invariant 0 <= k <= 9
      invariant forall j :: 0 <= j < k ==> a[j] == j + 1
    {
      a[k] := k + 1;
      k := k + 1;
    }
  }

  /** shuffle(DIGS.slice(), rnd). */
  method ShuffleDigitList(rnd: Rng) returns (digits: array<int>)
    modifies rnd
    ensures fresh(digits) && digits.Length == 9
    ensures ShuffleOf(digits[..], DigitList, old(rnd.state))
    ensures rnd.state == Advance(old(rnd.state), ShuffleDraws(|DigitList|))
    ensures IsDigitPermutation(digits[..])
  {
    digits := NewDigits();
    Shuffle(digits, rnd);
    DigitListIsPermutation();
    ShuffleKeepsPermutation(DigitList, Draws(old(rnd.state), 8), 8);
  }

  lemma DigitListIsPermutation()
    ensures IsDigitPermutation(DigitList)
  {
    assert forall k :: 0 <= k < 9 ==> DigitList[k] == k + 1;
  }

  /** The Fisher-Yates pass only swaps, so it keeps nine distinct digits distinct. */
  lemma {:induction false} ShuffleKeepsPermutation(s: seq<int>, js: seq<nat>, i: int)
    requires i < |s| && |js| == (if i <= 0 then 0 else i)
    requires forall k :: 0 <= k < |js| ==> js[k] <= i - k
    requires IsDigitPermutation(s)
    ensures IsDigitPermutation(ShuffleBy(s, js, i))
    decreases i
  {
    if i > 0 {
      var j := js[0];
      var t := s[i := s[j]][j := s[i]];
      assert IsDigitPermutation(t) by {
        forall k1, k2 | 0 <= k1 < k2 < 9 ensures t[k1] != t[k2] {
          var a := if k1 == i then j else if k1 == j then i else k1;
          var b := if k2 == i then j else if k2 == j then i else k2;
          assert t[k1] == s[a] && t[k2] == s[b];
        }
      }
      ShuffleKeepsPermutation(t, js[1..], i - 1);
    }
  }

  /** Every digit occurs in a permutation of the digit list, and no symbol repeats. */
  lemma PermutationFacts(d: seq<int>)
    requires IsDigitPermutation(d)
    ensures forall x :: 1 <= x <= 9 ==> x in d
    ensures forall k1, k2 :: 0 <= k1 < 9 && 0 <= k2 < 9 && d[k1] == d[k2] ==> k1 == k2
  {
    DigitsCard();
    DistinctCovers(d, Digits);
  }

  /** Cell (3b + dr, 3b + dc) is the (3dr + dc)-th cell of diagonal box b. */
  lemma DiagonalBoxCell(b: nat, dr: nat, dc: nat)
    requires b < 3 && dr < 3 && dc < 3
    ensures var i := (3 * b + dr) * 9 + 3 * b + dc;
      i < 81 && i == Cell(18 + 4 * b, dr * 3 + dc) && BoxUnit(i) == 18 + 4 * b && BoxPos(i) == dr * 3 + dc
  {
    var k := dr * 3 + dc;
    DivMod(dr, dc, 3);
    assert (4 * b) / 3 == b && (4 * b) % 3 == b;
    UnitsOfCell(18 + 4 * b, k);
  }

  /**
   * Cells of box u at positions below n hold d at their position; every
   * other cell holds what it held in g0.
   */
  predicate BoxWritten(g: seq<int>, g0: seq<int>, u: nat, d: seq<int>, n: nat)
    requires |g| == 81 && |g0| == 81 && 18 <= u < 27 && |d| == 9 && n <= 9
  {
    forall i :: 0 <= i < 81 ==> g[i] == if BoxUnit(i) == u && BoxPos(i) < n then d[BoxPos(i)] else g0[i]
  }

  /** Writing d[n] into the n-th cell of box u extends the written part by one cell. */
  lemma BoxWriteStep(g: seq<int>, g0: seq<int>, u: nat, d: seq<int>, n: nat)
    requires |g| == 81 && |g0| == 81 && 18 <= u < 27 && |d| == 9 && n < 9
    requires BoxWritten(g, g0, u, d, n)
    ensures BoxWritten(g[Cell(u, n) := d[n]], g0, u, d, n + 1)
  {
    UnitsOfCell(u, n);
    forall i | 0 <= i < 81 {
      CellsOfCell(i);
    }
  }

  /**
   * fillBox: the shuffled digits, in order, into the cells of diagonal box b
   * read row by row; no other cell changes.
   */
  method FillBox(g: array<int>, b: nat, rnd: Rng) returns (ghost d: seq<int>)
    requires g.Length == 81 && b < 3
    modifies g, rnd
    ensures IsDigitPermutation(d) && |d| == 9
    ensures BoxWritten(g[..], old(g[..]), 18 + 4 * b, d, 9)
  {
    ghost var g0 := g[..];
    var digits := ShuffleDigitList(rnd);
    d := digits[..];
    assert g[..] == g0;
    WriteBox(g, b, digits);
    assert digits[..] == d;
  }

  /** The loops of fillBox: the digits, in order, into the cells of diagonal box b row by row. */
  method WriteBox(g: array<int>, b: nat, digits: array<int>)
    requires g.Length == 81 && b < 3 && digits.Length == 9 && g != digits
    modifies g
    ensures BoxWritten(g[..], old(g[..]), 18 + 4 * b, digits[..], 9)
  {
    ghost var u := 18 + 4 * b;
    ghost var d := digits[..];
    var idx := 0;
    var r := b * 3;
    while r < b * 3 + 3
      invariant b * 3 <= r <= b * 3 + 3 && idx == (r - b * 3) * 3
      invariant digits[..] == d
      invariant BoxWritten(g[..], old(g[..]), u, d, idx)
    {
      var c := b * 3;
      while c < b * 3 + 3
        invariant b * 3 <= c <= b * 3 + 3 && idx == (r - b * 3) * 3 + (c - b * 3)
        invariant digits[..] == d
        invariant BoxWritten(g[..], old(g[..]), u, d, idx)
      {
        DiagonalBoxCell(b, r - b * 3, c - b * 3);
        assert r * 9 + c == Cell(u, idx);
        BoxWriteStep(g[..], old(g[..]), u, d, idx);
        ghost var before := g[..];
        g[r * 9 + c] := digits[idx];
        assert g[..] == before[Cell(u, idx) := d[idx]];
        idx := idx + 1;
        c := c + 1;
      }
      r := r + 1;
    }
  }

  /** Cells outside the diagonal boxes blank, and no repeat inside a diagonal box: a valid grid. */
  lemma DiagonalValid(g: seq<int>)
    requires |g| == 81
    requires forall i :: 0 <= i < 81 && !InDiagonal(i) ==> g[i] == 0
    requires forall i, j :: 0 <= i < 81 && 0 <= j < 81 && InDiagonal(i) && BoxUnit(i) == BoxUnit(j) && i != j ==> g[i] != g[j]
    ensures ValidGrid(g)
  {
    forall u, k1, k2 | 0 <= u < 27 && 0 <= k1 < 9 && 0 <= k2 < 9 && k1 != k2 && g[Cell(u, k1)] != 0
      ensures g[Cell(u, k1)] != g[Cell(u, k2)]
    {
      var i, j := Cell(u, k1), Cell(u, k2);
      CellInjective(u, k1, k2);
      if g[j] != 0 {
        SameDiagonalBox(u, k1, k2);
      }
    }
  }

  /** Two diagonal-box cells of one unit lie in the same box. */
  lemma SameDiagonalBox(u: nat, k1: nat, k2: nat)
    requires u < 27 && k1 < 9 && k2 < 9
    requires InDiagonal(Cell(u, k1)) && InDiagonal(Cell(u, k2))
    ensures BoxUnit(Cell(u, k1)) == BoxUnit(Cell(u, k2))
  {
    var i, j := Cell(u, k1), Cell(u, k2);
    CellCoords(u, k1);
    CellCoords(u, k2);
    DiagonalCoords(i);
    DiagonalCoords(j);
    if u >= 18 {
      UnitsOfCell(u, k1);
      UnitsOfCell(u, k2);
    }
  }

  /** In a diagonal box the box row and the box column agree. */
  lemma DiagonalCoords(i: nat)
    requires i < 81 && InDiagonal(i)
    ensures i / 27 == (i / 9) / 3 == (i % 9) / 3
    ensures BoxUnit(i) == 18 + 4 * ((i / 9) / 3)
  {
    var r, c := i / 9, i % 9;
    assert i == r * 9 + c;
    assert i / 27 == r / 3 by {
      assert i == (r / 3) * 27 + ((r % 3) * 9 + c);
      DivMod(r / 3, (r % 3) * 9 + c, 27);
    }
    SplitBox(i / 27, (i % 9) / 3, (BoxUnit(i) - 18) / 4, (BoxUnit(i) - 18) / 4);
  }

  /** A box written from nine distinct digits repeats none and reads back as those digits. */
  lemma BoxFromDigits(g: seq<int>, u: nat, d: seq<int>)
    requires |g| == 81 && 18 <= u < 27 && IsDigitPermutation(d)
    requires forall i :: 0 <= i < 81 && BoxUnit(i) == u ==> g[i] == d[BoxPos(i)]
    ensures forall i, j :: 0 <= i < 81 && 0 <= j < 81 && BoxUnit(i) == u && BoxUnit(j) == u && i != j ==> g[i] != g[j]
    ensures UnitNums(g, u) == d
  {
    PermutationFacts(d);
    forall i, j | 0 <= i < 81 && 0 <= j < 81 && BoxUnit(i) == u && BoxUnit(j) == u && i != j
      ensures g[i] != g[j]
    {
      CellsOfCell(i);
      CellsOfCell(j);
    }
    forall k | 0 <= k < 9 ensures UnitNums(g, u)[k] == d[k] {
      UnitsOfCell(u, k);
    }
  }

  /**
   * fillRemaining(r, c): every cell before (r, c) is filled; fill the rest
   * by backtracking, trying the digits of a fresh shuffle in order.  On
   * success the grid is a solution of what it was; on failure it is
   * restored, and then no solution exists.
   */
  method FillRemaining(g: array<int>, r: nat, c: nat, rnd: Rng) returns (ok: bool)
    requires g.Length == 81 && IsGrid(g[..]) && ValidGrid(g[..])
    requires r <= 9 && c <= 9 && r * 9 + c <= 81
    requires forall k :: 0 <= k < r * 9 + c ==> g[k] != 0
    modifies g, rnd
    decreases 90 - 10 * r - c, 2
    ensures IsGrid(g[..]) && ValidGrid(g[..])
    ensures ok ==> Complete(g[..]) && IsSolutionOf(g[..], old(g[..]))
    ensures !ok ==> g[..] == old(g[..]) && forall s :: !IsSolutionOf(s, old(g[..]))
  {
    if r == 9 {
      return true;
    }
    if c == 9 {
      ok := FillRemaining(g, r + 1, 0, rnd);
      return;
    }
    if g[r * 9 + c] != 0 {
      ok := FillRemaining(g, r, c + 1, rnd);
      return;
    }
    ok := FillCell(g, r, c, rnd);
  }

  /** The blank-cell branch of fillRemaining: a fresh shuffle of 1-9, tried in order. */
  method FillCell(g: array<int>, r: nat, c: nat, rnd: Rng) returns (ok: bool)
    requires g.Length == 81 && IsGrid(g[..]) && ValidGrid(g[..])
    requires r < 9 && c < 9 && g[r * 9 + c] == 0
    requires forall k :: 0 <= k < r * 9 + c ==> g[k] != 0
    modifies g, rnd
    decreases 90 - 10 * r - c, 1
    ensures IsGrid(g[..]) && ValidGrid(g[..])
    ensures ok ==> Complete(g[..]) && IsSolutionOf(g[..], old(g[..]))
    ensures !ok ==> g[..] == old(g[..]) && forall s :: !IsSolutionOf(s, old(g[..]))
  {
    var digits := ShuffleDigitList(rnd);
    ok := TryDigits(g, r, c, digits, rnd);
  }

  /** The loop of that branch: try each digit that does not clash, stop at the first success. */
  method TryDigits(g: array<int>, r: nat, c: nat, digits: array<int>, rnd: Rng) returns (ok: bool)
    requires g.Length == 81 && IsGrid(g[..]) && ValidGrid(g[..])
    requires r < 9 && c < 9 && g[r * 9 + c] == 0
    requires forall k :: 0 <= k < r * 9 + c ==> g[k] != 0
    requires digits != g && digits.Length == 9 && IsDigitPermutation(digits[..])
    modifies g, rnd
    decreases 90 - 10 * r - c, 0
    ensures IsGrid(g[..]) && ValidGrid(g[..])
    ensures ok ==> Complete(g[..]) && IsSolutionOf(g[..], old(g[..]))
    ensures !ok ==> g[..] == old(g[..]) && forall s :: !IsSolutionOf(s, old(g[..]))
  {
    var p := r * 9 + c;
    ghost var d := digits[..];
    PermutationFacts(d);
    ghost var g0 := g[..];
    var k := 0;
    while k < 9
      invariant 0 <= k <= 9
      invariant g[..] == g0 && digits[..] == d
      invariant forall s :: IsSolutionOf(s, g0) ==> s[p] !in d[..k]
    {
      var v := digits[k];
      assert d[..k + 1] == d[..k] + [v];
      if NoClash(g[..], p, v) {
        ok := TryDigit(g, r, c, v, rnd);
        if ok {
          return;
        }
      } else {
        forall s | IsSolutionOf(s, g0) ensures s[p] != v {
          SolutionNoClash(s, g0, p);
        }
      }
      k := k + 1;
    }
    assert d[..9] == d;
    return false;
  }

  /** One turn of that loop: place v, recurse on the next cell, undo on failure. */
  method TryDigit(g: array<int>, r: nat, c: nat, v: int, rnd: Rng) returns (ok: bool)
    requires g.Length == 81 && IsGrid(g[..]) && ValidGrid(g[..])
    requires r < 9 && c < 9 && g[r * 9 + c] == 0 && 1 <= v <= 9 && NoClash(g[..], r * 9 + c, v)
    requires forall k :: 0 <= k < r * 9 + c ==> g[k] != 0
    modifies g, rnd
    decreases 90 - 10 * r - c - 1, 3
    ensures IsGrid(g[..]) && ValidGrid(g[..])
    ensures ok ==> Complete(g[..]) && IsSolutionOf(g[..], old(g[..]))
    ensures !ok ==> g[..] == old(g[..]) && forall s :: IsSolutionOf(s, old(g[..])) ==> s[r * 9 + c] != v
  {
    var p := r * 9 + c;
    ghost var g0 := g[..];
    PlaceKeepsValid(g0, p, v);
    g[p] := v;
    assert g[..] == g0[p := v];
    ok := FillRemaining(g, r, c + 1, rnd);
    if !ok {
      g[p] := 0;
      assert g[..] == g0;
      forall s | IsSolutionOf(s, g0) ensures s[p] != v {
        if s[p] == v {
          assert IsSolutionOf(s, g0[p := v]);
        }
      }
    }
  }

  predicate DiagonalUnit(u: nat)
  {
    u == 18 || u == 22 || u == 26
  }

  /**
   * generateSolved: a valid grid whose diagonal boxes each hold 1-9; it is
   * solved unless the backtracking of the remaining cells fails, and then
   * the diagonal boxes admit no completion.
   */
  method GenerateSolved(rnd: Rng) returns (g: array<int>)
    modifies rnd
    ensures fresh(g) && g.Length == 81
    ensures IsGrid(g[..]) && ValidGrid(g[..])
    ensures forall u :: DiagonalUnit(u) ==> IsDigitPermutation(UnitNums(g[..], u))
    ensures Solved(g[..]) || forall s :: !IsSolutionOf(s, g[..])
  {
    g := new int[81](_ => 0);
    ghost var g0 := g[..];
    ghost var d0 := FillBox(g, 0, rnd);
    ghost var g1 := g[..];
    ghost var d1 := FillBox(g, 1, rnd);
    ghost var g2 := g[..];
    ghost var d2 := FillBox(g, 2, rnd);
    ghost var diag := g[..];
    DiagonalFacts(g0, g1, g2, diag, d0, d1, d2);
    var ok := FillRemaining(g, 0, 0, rnd);
    if ok {
      forall u | DiagonalUnit(u) ensures UnitNums(g[..], u) == UnitNums(diag, u) {
        KeptUnit(diag, g[..], u);
      }
    }
  }

  /** The grid after the three fillBox calls on a blank grid: valid, and each diagonal box a filled permutation. */
  lemma DiagonalFacts(g0: seq<int>, g1: seq<int>, g2: seq<int>, g3: seq<int>, d0: seq<int>, d1: seq<int>, d2: seq<int>)
    requires |g0| == |g1| == |g2| == |g3| == 81
    requires IsDigitPermutation(d0) && IsDigitPermutation(d1) && IsDigitPermutation(d2)
    requires forall i :: 0 <= i < 81 ==> g0[i] == 0
    requires |d0| == |d1| == |d2| == 9
    requires BoxWritten(g1, g0, 18, d0, 9) && BoxWritten(g2, g1, 22, d1, 9) && BoxWritten(g3, g2, 26, d2, 9)
    ensures IsGrid(g3) && ValidGrid(g3)
    ensures forall u :: DiagonalUnit(u) ==> IsDigitPermutation(UnitNums(g3, u))
    ensures forall u, k :: DiagonalUnit(u) && 0 <= k < 9 ==> g3[Cell(u, k)] != 0
  {
    DiagonalCells(g0, g1, g2, g3, d0, d1, d2);
    PermutationFacts(d0);
    PermutationFacts(d1);
    PermutationFacts(d2);
    BoxFromDigits(g3, 18, d0);
    BoxFromDigits(g3, 22, d1);
    BoxFromDigits(g3, 26, d2);
    DiagonalDigits(g3, d0, d1, d2);
    DiagonalValid(g3);
    forall u, k | DiagonalUnit(u) && 0 <= k < 9 ensures g3[Cell(u, k)] != 0 {
      UnitsOfCell(u, k);
    }
  }

  /** Cell by cell: which digit list each diagonal-box cell came from, and blank elsewhere. */
  lemma DiagonalCells(g0: seq<int>, g1: seq<int>, g2: seq<int>, g3: seq<int>, d0: seq<int>, d1: seq<int>, d2: seq<int>)
    requires |g0| == |g1| == |g2| == |g3| == 81 && |d0| == |d1| == |d2| == 9
    requires forall i :: 0 <= i < 81 ==> g0[i] == 0
    requires BoxWritten(g1, g0, 18, d0, 9) && BoxWritten(g2, g1, 22, d1, 9) && BoxWritten(g3, g2, 26, d2, 9)
    ensures forall i :: 0 <= i < 81 && BoxUnit(i) == 18 ==> g3[i] == d0[BoxPos(i)]
    ensures forall i :: 0 <= i < 81 && BoxUnit(i) == 22 ==> g3[i] == d1[BoxPos(i)]
    ensures forall i :: 0 <= i < 81 && BoxUnit(i) == 26 ==> g3[i] == d2[BoxPos(i)]
    ensures forall i :: 0 <= i < 81 && !InDiagonal(i) ==> g3[i] == 0
  {
    forall i | 0 <= i < 81 ensures BoxPos(i) < 9 {
      CellsOfCell(i);
    }
  }

  /** Every cell of the diagonal grid holds 0 or a digit. */
  lemma DiagonalDigits(g: seq<int>, d0: seq<int>, d1: seq<int>, d2: seq<int>)
    requires |g| == 81 && |d0| == |d1| == |d2| == 9
    requires forall k :: 0 <= k < 9 ==> 1 <= d0[k] <= 9 && 1 <= d1[k] <= 9 && 1 <= d2[k] <= 9
    requires forall i :: 0 <= i < 81 && BoxUnit(i) == 18 ==> g[i] == d0[BoxPos(i)]
    requires forall i :: 0 <= i < 81 && BoxUnit(i) == 22 ==> g[i] == d1[BoxPos(i)]
    requires forall i :: 0 <= i < 81 && BoxUnit(i) == 26 ==> g[i] == d2[BoxPos(i)]
    requires forall i :: 0 <= i < 81 && !InDiagonal(i) ==> g[i] == 0
    ensures IsGrid(g)
  {
    forall i | 0 <= i < 81 ensures 0 <= g[i] <= 9 {
      CellsOfCell(i);
    }
  }

  /** A unit whose cells are all filled reads the same in any extension. */
  lemma KeptUnit(g: seq<int>, s: seq<int>, u: nat)
    requires |g| == 81 && u < 27 && Extends(s, g)
    requires forall k :: 0 <= k < 9 ==> g[Cell(u, k)] != 0
    ensures UnitNums(s, u) == UnitNums(g, u)
  {
  }

  // ---------------------------------------------------------------- relabelling

  /** solved.map(v => relabel[v - 1]); a blank maps to blank. */
  function Relabel(g: seq<int>, relabel: seq<int>): (h: seq<int>)
    requires |relabel| == 9
    ensures |h| == |g|
  {
    seq(|g|, i requires 0 <= i < |g| => if 1 <= g[i] <= 9 then relabel[g[i] - 1] else 0)
  }

  /** The position of x in d, plus one: the inverse relabelling. */
  function InverseRelabel(d: seq<int>): (q: seq<int>)
    requires IsDigitPermutation(d)
    ensures |q| == 9
    ensures forall k :: 0 <= k < 9 ==> 1 <= q[k] <= 9 && d[q[k] - 1] == k + 1
  {
    PermutationFacts(d);
    seq(9, x requires 0 <= x < 9 => IndexOf(d, x + 1) + 1)
  }

  function IndexOf(d: seq<int>, x: int): (k: nat)
    requires x in d
    ensures k < |d| && d[k] == x
  {
    if d[0] == x then 0 else 1 + IndexOf(d[1..], x)
  }

  /** Relabelling by a permutation and then by its inverse gives the grid back. */
  lemma RelabelRoundTrip(g: seq<int>, d: seq<int>)
    requires IsGrid(g) && IsDigitPermutation(d)
    ensures Relabel(Relabel(g, d), InverseRelabel(d)) == g
  {
    PermutationFacts(d);
    var q := InverseRelabel(d);
    var h := Relabel(g, d);
    forall i | 0 <= i < 81 ensures Relabel(h, q)[i] == g[i] {
      if 1 <= g[i] <= 9 {
        var v := d[g[i] - 1];
        var k := q[v - 1];
        assert d[k - 1] == v;
        PermInjective(d, k - 1, g[i] - 1);
      }
    }
  }

  lemma PermInjective(d: seq<int>, a: nat, b: nat)
    requires IsDigitPermutation(d) && a < 9 && b < 9
    ensures d[a] == d[b] ==> a == b
  {
    PermutationFacts(d);
  }

  /** Relabelling by a permutation keeps a grid valid and a solution solved. */
  lemma RelabelKeepsValid(g: seq<int>, d: seq<int>)
    requires IsGrid(g) && IsDigitPermutation(d)
    ensures IsGrid(Relabel(g, d))
    ensures ValidGrid(g) ==> ValidGrid(Relabel(g, d))
    ensures Solved(g) ==> Solved(Relabel(g, d))
    ensures forall i :: 0 <= i < 81 ==> (Relabel(g, d)[i] == 0 <==> g[i] == 0)
  {
    PermutationFacts(d);
    var h := Relabel(g, d);
    if ValidGrid(g) {
      forall u, k1, k2 | 0 <= u < 27 && 0 <= k1 < 9 && 0 <= k2 < 9 && k1 != k2 && h[Cell(u, k1)] != 0
        ensures h[Cell(u, k1)] != h[Cell(u, k2)]
      {
        var i, j := Cell(u, k1), Cell(u, k2);
        if h[j] != 0 {
          PermInjective(d, g[i] - 1, g[j] - 1);
        }
      }
    }
  }
}
