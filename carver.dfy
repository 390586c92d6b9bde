/**
 * carveUniqueHuman and generatePuzzle: remove clues from a solved grid in
 * a seeded random order, keeping a removal only while the puzzle stays
 * uniquely solvable and solvable by the target's techniques, then repair
 * the result if it fails that gate.
 */
module Carver {
  import opened Wrappers
  import opened Grid
  import opened Random
  import opened Uniqueness
  import opened Human
  import opened Tiers
  import opened SolvedGrid
  import opened Codec

  /** The grid has exactly one solution. */
  ghost predicate HasUniqueSolution(p: seq<int>)
  {
    exists s :: UniquelySolvedBy(p, s)
  }

  /** The human solver, with the given techniques, finishes the grid. */
  predicate HumanSolved(p: seq<int>, tech: Techniques)
    requires |p| == 81
  {
    Deduce(p, tech).Some? && Deduce(p, tech).value.solved
  }

  lemma AmbiguousNotUnique(p: seq<int>)
    requires Ambiguous(p)
    ensures !HasUniqueSolution(p)
  {
    var s, t :| IsSolutionOf(s, p) && IsSolutionOf(t, p) && s != t;
    forall x | IsSolutionOf(x, p)
      ensures exists y :: IsSolutionOf(y, p) && y != x
    {
      if s != x {
        assert IsSolutionOf(s, p);
      } else {
        assert IsSolutionOf(t, p) && t != x;
      }
    }
  }

  /** A solution of a uniquely solvable grid is its only one. */
  lemma UniqueIsThatSolution(p: seq<int>, s: seq<int>)
    requires HasUniqueSolution(p) && IsSolutionOf(s, p)
    ensures UniquelySolvedBy(p, s)
  {
    var x :| UniquelySolvedBy(p, x);
    assert s == x;
  }

  /** A carved grid is extended by the solved grid it came from. */
  lemma SubGridSolution(p: seq<int>, s: seq<int>)
    requires SubGrid(p, s) && Solved(s)
    ensures IsSolutionOf(s, p)
  {
  }

  /** With every cell restored, the carved grid is the solved grid, and it passes the gate. */
  lemma FullPuzzlePasses(p: seq<int>, s: seq<int>, tech: Techniques)
    requires SubGrid(p, s) && Solved(s)
    requires forall x :: 0 <= x < 81 ==> p[x] != 0
    ensures p == s
    ensures HasUniqueSolution(p) && HumanSolved(p, tech)
  {
    assert forall x :: 0 <= x < 81 ==> p[x] == s[x];
    assert p == s;
    forall t | IsSolutionOf(t, p)
      ensures t == p
    {
      CompleteHasOnlyItself(p, t);
    }
    assert UniquelySolvedBy(p, s);
    CompleteGridSolves(p, tech);
  }

  /** Filling blanks never lowers the clue count. */
  lemma {:induction false} ExtendsClues(p: seq<int>, q: seq<int>)
    requires Extends(p, q)
    ensures Blanks(p) <= Blanks(q)
    decreases |q|
  {
    if |q| > 0 {
      ExtendsClues(p[..|p| - 1], q[..|q| - 1]);
    }
  }

  lemma FullClues(s: seq<int>)
    requires Solved(s)
    ensures Clues(s) == 81
  {
    BlanksZeroIffComplete(s);
  }

  /** clueCount: the number of filled cells. */
  method ClueCount(puzzle: array<int>) returns (n: nat)
    requires puzzle.Length == 81
    ensures n == Clues(puzzle[..])
  {
    n := 0;
    var i := 0;
    while i < 81
      invariant 0 <= i <= 81
      invariant n + Blanks(puzzle[..i]) == i
    {
      assert puzzle[..i + 1][..i] == puzzle[..i];
      if puzzle[i] != 0 {
        n := n + 1;
      }
      i := i + 1;
    }
    assert puzzle[..81] == puzzle[..];
  }

  /**
   * countSolutions(puzzle, 2).count === 1 && humanSolve(puzzle, tech).solved,
   * evaluated left to right.  halts is false when the human solver does
   * not terminate.
   */
  method Gate(puzzle: array<int>, tech: Techniques) returns (pass: bool, halts: bool)
    requires puzzle.Length == 81 && IsGrid(puzzle[..])
    ensures !halts ==> Deduce(puzzle[..], tech).None?
    ensures halts ==> (pass <==> HasUniqueSolution(puzzle[..]) && HumanSolved(puzzle[..], tech))
  {
    var count, one := CountSolutions(puzzle, 2);
    if count != 1 {
      if count >= 2 {
        AmbiguousNotUnique(puzzle[..]);
      }
      return false, true;
    }
    var h := HumanSolve(puzzle, tech);
    if h.None? {
      return false, false;
    }
    return h.value.solved, true;
  }

  /** Blank cell i and, when it is another cell, its mate j. */
  method ClearPair(puzzle: array<int>, i: nat, j: nat)
    requires i < puzzle.Length && j < puzzle.Length
    modifies puzzle
    ensures puzzle[..] == old(puzzle[..])[i := 0][j := 0]
  {
    puzzle[i] := 0;
    if j != i {
      puzzle[j] := 0;
    }
  }

  /** Put back the digits saved from cells i and j before they were cleared. */
  method RestorePair(puzzle: array<int>, i: nat, j: nat, keep1: int, keep2: int)
    requires i < puzzle.Length && j < puzzle.Length
    requires j == i ==> keep2 == keep1
    modifies puzzle
    ensures puzzle[..] == old(puzzle[..])[i := keep1][j := keep2]
  {
    puzzle[i] := keep1;
    if j != i {
      puzzle[j] := keep2;
    }
  }

  lemma ClearKeepsSubGrid(p: seq<int>, s: seq<int>, i: nat, j: nat)
    requires SubGrid(p, s) && i < |p| && j < |p|
    ensures SubGrid(p[i := 0][j := 0], s)
    ensures p[i := 0][j := 0][i := p[i]][j := p[j]] == p
  {
  }

  /** Cell x is blank exactly when its mate under sym is blank. */
  predicate SymmetricBlanks(p: seq<int>, sym: string)
    requires |p| == 81
  {
    forall x :: 0 <= x < 81 ==> (p[x] == 0 <==> p[Mate(sym, x)] == 0)
  }

  /** Blanking a cell together with its mate keeps the blanks symmetric. */
  lemma ClearMatesKeepsSymmetry(p: seq<int>, sym: string, i: nat)
    requires |p| == 81 && i < 81 && SymmetricBlanks(p, sym)
    ensures SymmetricBlanks(p[i := 0][Mate(sym, i) := 0], sym)
  {
    var q := p[i := 0][Mate(sym, i) := 0];
    MateInvolution(sym, i);
    forall x | 0 <= x < 81 ensures q[x] == 0 <==> q[Mate(sym, x)] == 0 {
      MateInvolution(sym, x);
    }
  }

  /** The main loop of carveUniqueHuman over the shuffled cell order. */
  method RemovalPass(puzzle: array<int>, solved: array<int>, order: array<int>, t: Target, sym: string)
    returns (halts: bool)
    requires puzzle.Length == 81 && solved.Length == 81 && order.Length == 81
    requires puzzle != solved && puzzle != order
    requires IsGrid(solved[..]) && puzzle[..] == solved[..]
    requires forall k :: 0 <= k < 81 ==> 0 <= order[k] < 81
    modifies puzzle
    ensures SubGrid(puzzle[..], solved[..])
    ensures Clues(puzzle[..]) >= ClueBand(t).0 || puzzle[..] == solved[..]
    ensures Complete(solved[..]) ==> SymmetricBlanks(puzzle[..], sym)
  {
    var tech := TechniquesForTarget(t);
    var (minClues, maxClues) := ClueBand(t);
    var removalsWithoutCheck := 0;
    var k := 0;
    while k < 81
      invariant 0 <= k <= 81
      invariant SubGrid(puzzle[..], solved[..])
      invariant Clues(puzzle[..]) >= minClues || puzzle[..] == solved[..]
      invariant Complete(solved[..]) ==> SymmetricBlanks(puzzle[..], sym)
    {
      var i := order[k];
      var j := Mate(sym, i);
      if puzzle[i] != 0 {
        var keep1, keep2 := puzzle[i], puzzle[j];
        ghost var before := puzzle[..];
        ClearKeepsSubGrid(before, solved[..], i, j);
        ClearPair(puzzle, i, j);
        if Complete(solved[..]) {
          ClearMatesKeepsSymmetry(before, sym, i);
        }
        var currentClues := ClueCount(puzzle);
        if currentClues < minClues {
          RestorePair(puzzle, i, j, keep1, keep2);
        } else {
          var needsFullCheck := true;
          if (t == Named("easy") || t == Named("medium")) && currentClues > minClues + 10 {
            needsFullCheck := false;
            removalsWithoutCheck := removalsWithoutCheck + 1;
            if removalsWithoutCheck >= 5 {
              needsFullCheck := true;
              removalsWithoutCheck := 0;
            }
          }
          var accepted := true;
          if needsFullCheck {
            var pass, ok := Gate(puzzle, tech);
            if !ok {
              return false;
            }
            if !pass {
              RestorePair(puzzle, i, j, keep1, keep2);
              accepted := false;
            }
          }
          if accepted && currentClues <= maxClues {
            break;
          }
        }
      }
      k := k + 1;
    }
    return true;
  }

  /** The indices of the blank cells of p, in increasing order. */
  function BlankCells(p: seq<int>): seq<int>
  {
    if |p| == 0 then [] else BlankCells(p[..|p| - 1]) + (if p[|p| - 1] == 0 then [|p| - 1] else [])
  }

  /** The empty cells of the puzzle, in increasing index order. */
  method EmptyCells(puzzle: array<int>) returns (empties: array<int>)
    requires puzzle.Length == 81
    ensures fresh(empties)
    ensures empties[..] == BlankCells(puzzle[..])
    ensures forall m :: 0 <= m < empties.Length ==> 0 <= empties[m] < 81 && puzzle[empties[m]] == 0
    ensures forall x :: 0 <= x < 81 && puzzle[x] == 0 ==> x in empties[..]
    ensures forall m1, m2 :: 0 <= m1 < m2 < empties.Length ==> empties[m1] < empties[m2]
  {
    var es: seq<int> := [];
    var i := 0;
    while i < 81
      invariant 0 <= i <= 81
      invariant forall m :: 0 <= m < |es| ==> 0 <= es[m] < i && puzzle[es[m]] == 0
      invariant forall x :: 0 <= x < i && puzzle[x] == 0 ==> x in es
      invariant forall m1, m2 :: 0 <= m1 < m2 < |es| ==> es[m1] < es[m2]
      invariant es == BlankCells(puzzle[..i])
    {
      assert puzzle[..i + 1][..i] == puzzle[..i];
      if puzzle[i] == 0 {
        es := es + [i];
      }
      i := i + 1;
    }
    assert puzzle[..i] == puzzle[..];
    empties := new int[|es|](m requires 0 <= m < |es| => es[m]);
    assert empties[..] == es;
  }

  /** Every element of a rearrangement is an element of the original. */
  lemma MembersOfPermutation(a: seq<int>, b: seq<int>)
    requires multiset(a) == multiset(b)
    ensures forall x :: x in a <==> x in b
  {
    forall x
      ensures x in a <==> x in b
    {
      assert x in a <==> x in multiset(a);
      assert x in b <==> x in multiset(b);
    }
  }

  lemma SliceMember(e: seq<int>, k: nat, x: int)
    requires k < |e| && x in e[k..] && x != e[k]
    ensures x in e[k + 1..]
  {
    assert e[k..] == [e[k]] + e[k + 1..];
  }

  /** One turn of the repair loop: copy the solution's value into cell idx and run the gate. */
  method Refill(puzzle: array<int>, solved: array<int>, idx: int, tech: Techniques) returns (pass: bool, halts: bool)
    requires puzzle.Length == 81 && solved.Length == 81 && puzzle != solved && 0 <= idx < 81
    requires IsGrid(solved[..]) && SubGrid(puzzle[..], solved[..])
    modifies puzzle
    ensures puzzle[..] == old(puzzle[..])[idx := solved[idx]]
    ensures SubGrid(puzzle[..], solved[..]) && Extends(puzzle[..], old(puzzle[..]))
    ensures halts ==> (pass <==> HasUniqueSolution(puzzle[..]) && HumanSolved(puzzle[..], tech))
  {
    puzzle[idx] := solved[idx];
    pass, halts := Gate(puzzle, tech);
  }

  /** Refilling cell e[k] from the solution leaves every remaining blank among e[k + 1..]. */
  lemma RefillCover(pre: seq<int>, post: seq<int>, s: seq<int>, e: seq<int>, k: nat)
    requires |pre| == 81 && Solved(s) && k < |e| && 0 <= e[k] < 81 && post == pre[e[k] := s[e[k]]]
    requires forall x :: 0 <= x < 81 && pre[x] == 0 ==> x in e[k..]
    ensures forall x :: 0 <= x < 81 && post[x] == 0 ==> x in e[k + 1..]
  {
    forall x | 0 <= x < 81 && post[x] == 0
      ensures x in e[k + 1..]
    {
      assert pre[x] == 0 && x != e[k];
      SliceMember(e, k, x);
    }
  }

  /** A puzzle drawn from a solution that still fails the gate has a blank cell. */
  lemma SomeBlankLeft(p: seq<int>, s: seq<int>, tech: Techniques)
    requires SubGrid(p, s) && Solved(s)
    requires !(HasUniqueSolution(p) && HumanSolved(p, tech))
    ensures exists x :: 0 <= x < 81 && p[x] == 0
  {
    if forall x :: 0 <= x < 81 ==> p[x] != 0 {
      FullPuzzlePasses(p, s, tech);
    }
  }

  /** The empty cells, shuffled. */
  method ShuffledEmpties(puzzle: array<int>, rnd: Rng) returns (empties: array<int>)
    requires puzzle.Length == 81
    modifies rnd
    ensures fresh(empties)
    ensures ShuffleOf(empties[..], BlankCells(puzzle[..]), old(rnd.state))
    ensures multiset(empties[..]) == multiset(BlankCells(puzzle[..]))
    ensures rnd.state == Advance(old(rnd.state), ShuffleDraws(|BlankCells(puzzle[..])|))
    ensures forall m :: 0 <= m < empties.Length ==> 0 <= empties[m] < 81 && puzzle[empties[m]] == 0
    ensures forall x :: 0 <= x < 81 && puzzle[x] == 0 ==> x in empties[..]
  {
    empties := EmptyCells(puzzle);
    ghost var listed := empties[..];
    Shuffle(empties, rnd);
    MembersOfPermutation(empties[..], listed);
    forall m | 0 <= m < empties.Length
      ensures 0 <= empties[m] < 81 && puzzle[empties[m]] == 0
    {
      assert empties[m] in listed;
    }
  }

  /**
   * The safety pass: refill random blanks with the solution's digit, one at
   * a time, until the gate passes.
   */
  method Repair(puzzle: array<int>, solved: array<int>, rnd: Rng, tech: Techniques) returns (halts: bool)
    requires puzzle.Length == 81 && solved.Length == 81 && puzzle != solved
    requires IsGrid(solved[..]) && SubGrid(puzzle[..], solved[..])
    requires !(HasUniqueSolution(puzzle[..]) && HumanSolved(puzzle[..], tech))
    modifies puzzle, rnd
    ensures SubGrid(puzzle[..], solved[..]) && Extends(puzzle[..], old(puzzle[..]))
    ensures halts && Solved(solved[..]) ==> HasUniqueSolution(puzzle[..]) && HumanSolved(puzzle[..], tech)
  {
    var empties := ShuffledEmpties(puzzle, rnd);
    halts := RefillLoop(puzzle, solved, empties, tech);
  }

  /** The loop of the safety pass over the shuffled blanks. */
  method RefillLoop(puzzle: array<int>, solved: array<int>, empties: array<int>, tech: Techniques) returns (halts: bool)
    requires puzzle.Length == 81 && solved.Length == 81 && puzzle != solved
    requires empties != puzzle && empties != solved
    requires IsGrid(solved[..]) && SubGrid(puzzle[..], solved[..])
    requires !(HasUniqueSolution(puzzle[..]) && HumanSolved(puzzle[..], tech))
    requires forall m :: 0 <= m < empties.Length ==> 0 <= empties[m] < 81 && puzzle[empties[m]] == 0
    requires forall x :: 0 <= x < 81 && puzzle[x] == 0 ==> x in empties[..]
    modifies puzzle
    ensures SubGrid(puzzle[..], solved[..]) && Extends(puzzle[..], old(puzzle[..]))
    ensures halts && Solved(solved[..]) ==> HasUniqueSolution(puzzle[..]) && HumanSolved(puzzle[..], tech)
  {
    ghost var start := puzzle[..];
    if Solved(solved[..]) {
      SomeBlankLeft(puzzle[..], solved[..], tech);
    }
    var k := 0;
    var done := false;
    while k < empties.Length && !done
      invariant 0 <= k <= empties.Length
      invariant forall m :: 0 <= m < empties.Length ==> 0 <= empties[m] < 81 && start[empties[m]] == 0
      invariant SubGrid(puzzle[..], solved[..]) && Extends(puzzle[..], old(puzzle[..]))
      invariant Solved(solved[..]) ==> forall x :: 0 <= x < 81 && puzzle[x] == 0 ==> x in empties[k..]
      invariant done ==> HasUniqueSolution(puzzle[..]) && HumanSolved(puzzle[..], tech)
      invariant Solved(solved[..]) && !done ==> exists x :: 0 <= x < 81 && puzzle[x] == 0
    {
      var idx := empties[k];
      ghost var pre := puzzle[..];
      var pass, ok := Refill(puzzle, solved, idx, tech);
      if Solved(solved[..]) {
        RefillCover(pre, puzzle[..], solved[..], empties[..], k);
      }
      if !ok {
        return false;
      }
      done := pass;
      k := k + 1;
      if Solved(solved[..]) && !done {
        SomeBlankLeft(puzzle[..], solved[..], tech);
      }
    }
    return true;
  }

  /** shuffle([...Array(n).keys()], rnd): every index below n, once, in a random order. */
  method ShuffledIndices(n: nat, rnd: Rng) returns (order: array<int>)
    modifies rnd
    ensures fresh(order) && order.Length == n
    ensures ShuffleOf(order[..], seq(n, k => k), old(rnd.state))
    ensures multiset(order[..]) == multiset(seq(n, k => k))
    ensures rnd.state == Advance(old(rnd.state), ShuffleDraws(n))
    ensures forall k :: 0 <= k < n ==> 0 <= order[k] < n
    ensures forall x :: 0 <= x < n ==> x in order[..]
  {
    order := new int[n](k => k);
    ghost var indices := order[..];
    assert indices == seq(n, k => k);
    assert forall x :: 0 <= x < n ==> indices[x] == x;
    Shuffle(order, rnd);
    MembersOfPermutation(order[..], indices);
    forall k | 0 <= k < n
      ensures 0 <= order[k] < n
    {
      assert order[k] in order[..];
      var m :| 0 <= m < n && indices[m] == order[k];
    }
    forall x | 0 <= x < n
      ensures x in order[..]
    {
      assert indices[x] in indices;
    }
  }

  /** carveUniqueHuman: the puzzle carved from solved for target t with symmetry sym. */
  method CarveUniqueHuman(solved: array<int>, rnd: Rng, t: Target, sym: string)
    returns (puzzle: array<int>, halts: bool)
    requires solved.Length == 81 && IsGrid(solved[..])
    modifies rnd
    ensures fresh(puzzle) && puzzle.Length == 81
    ensures SubGrid(puzzle[..], solved[..])
    ensures halts && Solved(solved[..]) ==> UniquelySolvedBy(puzzle[..], solved[..])
    ensures halts && Solved(solved[..]) ==> HumanSolved(puzzle[..], TechniquesForTarget(t))
    ensures halts && Solved(solved[..]) ==> Clues(puzzle[..]) >= Min(ClueBand(t).0, 81)
  {
    var tech := TechniquesForTarget(t);
    puzzle := new int[81];
    forall k | 0 <= k < 81 {
      puzzle[k] := solved[k];
    }
    var order := ShuffledIndices(81, rnd);
    halts := RemovalPass(puzzle, solved, order, t, sym);
    if !halts {
      return;
    }
    if Solved(solved[..]) && puzzle[..] == solved[..] {
      FullClues(solved[..]);
    }
    ghost var carved := puzzle[..];
    var pass, ok := Gate(puzzle, tech);
    if !ok {
      return puzzle, false;
    }
    if !pass {
      halts := Repair(puzzle, solved, rnd, tech);
    }
    if halts && Solved(solved[..]) {
      ExtendsClues(puzzle[..], carved);
      SubGridSolution(puzzle[..], solved[..]);
      UniqueIsThatSolution(puzzle[..], solved[..]);
    }
  }

  /** The two 81-character strings generatePuzzle returns. */
  datatype Generated = Generated(givens: string, solution: string)

  /** Step 1 of generatePuzzle: the solved grid, with its digits relabelled by a shuffled 1-9. */
  method RelabelledSolution(rnd: Rng) returns (solved: array<int>)
    modifies rnd
    ensures fresh(solved) && solved.Length == 81
    ensures IsGrid(solved[..]) && ValidGrid(solved[..])
  {
    var g := GenerateSolved(rnd);
    var relabel := ShuffleDigitList(rnd);
    solved := RelabelGrid(g, relabel);
  }

  /** solved.map(v => relabel[v - 1]) on a valid grid: a fresh valid grid. */
  method RelabelGrid(g: array<int>, relabel: array<int>) returns (solved: array<int>)
    requires g.Length == 81 && IsGrid(g[..]) && ValidGrid(g[..])
    requires relabel.Length == 9 && IsDigitPermutation(relabel[..])
    ensures fresh(solved) && solved[..] == Relabel(g[..], relabel[..])
    ensures IsGrid(solved[..]) && ValidGrid(solved[..])
  {
    var solvedGrid := Relabel(g[..], relabel[..]);
    RelabelKeepsValid(g[..], relabel[..]);
    solved := new int[81](k requires 0 <= k < 81 => solvedGrid[k]);
    assert solved[..] == solvedGrid;
  }

  /**
   * generatePuzzle.  fallbackSeed stands for Math.floor(Math.random() * 2**31),
   * used when no seed is given; None is the result when the human solver
   * does not terminate on some intermediate grid.
   */
  method GeneratePuzzle(seed: Option<int>, fallbackSeed: int, target: Option<Target>, symmetry: string)
    returns (result: Option<Generated>)
    requires 0 <= fallbackSeed < 0x8000_0000
    ensures result.Some? ==> IsDigitString(result.value.givens, '0') && IsDigitString(result.value.solution, '0')
    ensures result.Some? ==> forall i :: 0 <= i < 81 ==>
      result.value.givens[i] == '0' || result.value.givens[i] == result.value.solution[i]
    ensures result.Some? ==> ValidGrid(From81(result.value.solution))
    ensures result.Some? && Solved(From81(result.value.solution)) ==>
      var givens, tier := From81(result.value.givens), TargetOrMedium(target);
      && UniquelySolvedBy(givens, From81(result.value.solution))
      && HumanSolved(givens, TechniquesForTarget(tier))
      && Clues(givens) >= Min(ClueBand(tier).0, 81)
  {
    var s := if seed.None? then fallbackSeed else ToInt32(seed.value);
    var rnd := new Rng(s);
    var solved := RelabelledSolution(rnd);
    var solvedGrid := solved[..];
    var givensGrid, halts := CarveUniqueHuman(solved, rnd, TargetOrMedium(target), if symmetry == "" then "none" else symmetry);
    if !halts {
      return None;
    }
    var givens, solution := To81(givensGrid[..]), To81(solvedGrid);
    From81To81(givensGrid[..]);
    From81To81(solvedGrid);
    result := Some(Generated(givens, solution));
  }
}
