/**
 * The independent puzzle checker: validatePuzzle and its helpers build an
 * itemised report of errors and warnings.  Messages are modelled by the
 * structured facts they report; their wording is not modelled.
 */
module Validator {
  import opened Grid
  import opened Codec

  /** A row, column or box, numbered from 0 (messages print them from 1). */
  datatype House = Row(row: nat) | Column(col: nat) | Box(boxRow: nat, boxCol: nat)

  /** The house checked as unit u: rows, then columns, then boxes in reading order. */
  function HouseOf(u: nat): (h: House)
    requires u < 27
    ensures h.Row? ==> h.row == u
    ensures h.Column? ==> h.col == u - 9
    ensures h.Box? ==> h.boxRow < 3 && h.boxCol < 3 && u == 18 + h.boxRow * 3 + h.boxCol
  {
    if u < 9 then Row(u) else if u < 18 then Column(u - 9) else Box((u - 18) / 3, (u - 18) % 3)
  }

  lemma HouseOfInjective(u: nat, v: nat)
    requires u < 27 && v < 27 && HouseOf(u) == HouseOf(v)
    ensures u == v
  {
  }

  datatype Issue =
    | GivensLength(length: nat)
    | SolutionLength(length: nat)
    | GivensCharacters
    | SolutionCharacters
    | Mismatch(position: nat, given: int, expected: int)
    | InvalidNumber(value: int, position: nat)
    | MissingDigits(house: House, values: seq<int>)
    | DuplicateGivens(house: House)

  datatype Warning = FewGivens(count: nat) | ManyGivens(count: nat)

  /** The record of validateSudokuSolution and validatePartialSudoku. */
  datatype Check = Check(isValid: bool, errors: seq<Issue>)

  /** The record of validatePuzzle. */
  datatype Report = Report(isValid: bool, errors: seq<Issue>, warnings: seq<Warning>)

  predicate Distinct(s: seq<int>)
  {
    forall i, j :: 0 <= i < j < |s| ==> s[i] != s[j]
  }

  function Elements(s: seq<int>): set<int>
  {
    set x | x in s
  }

  /** A sequence has as many distinct elements as entries exactly when none repeats. */
  lemma {:induction false} ElementsCard(s: seq<int>)
    ensures |Elements(s)| <= |s|
    ensures |Elements(s)| == |s| <==> Distinct(s)
    decreases |s|
  {
    if |s| > 0 {
      var p, x := s[..|s| - 1], s[|s| - 1];
      ElementsCard(p);
      assert s == p + [x];
      assert Elements(s) == Elements(p) + {x};
      if x in p {
        var j :| 0 <= j < |p| && p[j] == x;
        assert s[j] == s[|s| - 1];
        assert Elements(s) == Elements(p);
      } else {
        assert x !in Elements(p);
        assert |Elements(s)| == |Elements(p)| + 1;
        if Distinct(p) {
          forall i, j | 0 <= i < j < |s|
            ensures s[i] != s[j]
          {
            if j < |p| {
              assert s[i] == p[i] && s[j] == p[j];
            } else {
              assert s[i] == p[i];
            }
          }
        }
        if Distinct(s) {
          forall i, j | 0 <= i < j < |p|
            ensures p[i] != p[j]
          {
            assert s[i] == p[i] && s[j] == p[j];
          }
        }
      }
    }
  }

  /** Each element of a sequence without repeats occurs once. */
  lemma {:induction false} DistinctMultiplicity(s: seq<int>, x: int)
    requires Distinct(s)
    ensures multiset(s)[x] == if x in s then 1 else 0
    decreases |s|
  {
    if |s| > 0 {
      var p := s[..|s| - 1];
      assert s == p + [s[|s| - 1]];
      assert Distinct(p) by {
        forall i, j | 0 <= i < j < |p|
          ensures p[i] != p[j]
        {
          assert s[i] == p[i] && s[j] == p[j];
        }
      }
      DistinctMultiplicity(p, x);
      if s[|s| - 1] == x {
        assert x !in p;
      }
    }
  }

  const SortedDigits: seq<int> := [1, 2, 3, 4, 5, 6, 7, 8, 9]

  /**
   * hasAllNumbers: nine values among which every digit 1-9 occurs.  The
   * source sorts a copy and compares it with 1..9; AllNumbersSorted shows
   * the two readings agree.
   */
  predicate HasAllNumbers(arr: seq<int>)
  {
    |arr| == 9 && forall d :: 1 <= d <= 9 ==> d in arr
  }

  lemma SortedDigitsFacts()
    ensures |SortedDigits| == 9 && Distinct(SortedDigits) && Elements(SortedDigits) == Digits
  {
  }

  /** Two lists without repeats over the same elements are rearrangements of each other. */
  lemma SameElementsSameMultiset(a: seq<int>, b: seq<int>)
    requires Distinct(a) && Distinct(b) && Elements(a) == Elements(b)
    ensures multiset(a) == multiset(b)
  {
    forall x
      ensures multiset(a)[x] == multiset(b)[x]
    {
      DistinctMultiplicity(a, x);
      DistinctMultiplicity(b, x);
      assert x in a <==> x in Elements(a);
      assert x in b <==> x in Elements(b);
    }
  }

  lemma SameMultisetSameElements(a: seq<int>, b: seq<int>)
    requires multiset(a) == multiset(b)
    ensures |a| == |b| && Elements(a) == Elements(b)
  {
    assert |a| == |multiset(a)| && |b| == |multiset(b)|;
    forall x
      ensures x in Elements(a) <==> x in Elements(b)
    {
      assert x in a <==> x in multiset(a);
      assert x in b <==> x in multiset(b);
    }
  }

  /** hasAllNumbers holds exactly for nine entries whose values are the digits 1-9. */
  lemma AllNumbersElements(arr: seq<int>)
    ensures HasAllNumbers(arr) <==> |arr| == 9 && Elements(arr) == Digits
  {
    DigitsCard();
    ElementsCard(arr);
    if HasAllNumbers(arr) {
      assert Digits <= Elements(arr) by {
        forall d | d in Digits
          ensures d in Elements(arr)
        {
          DigitBounds(d);
        }
      }
      SubsetSameCard(Digits, Elements(arr));
    }
    if |arr| == 9 && Elements(arr) == Digits {
      forall d | 1 <= d <= 9
        ensures d in arr
      {
        DigitRange(d);
        assert d in Elements(arr);
      }
    }
  }

  /** The source's reading: sorting the values yields 1, 2, ..., 9. */
  lemma AllNumbersSorted(arr: seq<int>)
    ensures HasAllNumbers(arr) <==> multiset(arr) == multiset(SortedDigits)
  {
    AllNumbersElements(arr);
    SortedDigitsFacts();
    if multiset(arr) == multiset(SortedDigits) {
      SameMultisetSameElements(arr, SortedDigits);
    }
    if |arr| == 9 && Elements(arr) == Digits {
      DigitsCard();
      ElementsCard(arr);
      SameElementsSameMultiset(arr, SortedDigits);
    }
  }

  /** hasDuplicates: the set of values is smaller than the list. */
  function HasDuplicates(arr: seq<int>): (b: bool)
    ensures b <==> !Distinct(arr)
  {
    ElementsCard(arr);
    |(set x | x in arr)| != |arr|
  }

  /** Nine digits from 1-9 contain every digit exactly when none repeats. */
  lemma AllNumbersIffDistinct(arr: seq<int>)
    requires |arr| == 9 && forall k :: 0 <= k < 9 ==> 1 <= arr[k] <= 9
    ensures HasAllNumbers(arr) <==> Distinct(arr)
  {
    AllNumbersElements(arr);
    ElementsCard(arr);
    DigitsCard();
    assert Elements(arr) <= Digits by {
      forall x | x in Elements(arr)
        ensures x in Digits
      {
        var k :| 0 <= k < 9 && arr[k] == x;
        DigitRange(x);
      }
    }
    if Distinct(arr) {
      SubsetSameCard(Elements(arr), Digits);
    }
  }

  lemma DigitRange(x: int)
    requires 1 <= x <= 9
    ensures x in Digits
  {
  }

  lemma DigitBounds(x: int)
    requires x in Digits
    ensures 1 <= x <= 9
  {
  }

  lemma SubsetSameCard(a: set<int>, b: set<int>)
    requires a <= b && |b| <= |a|
    ensures a == b
  {
    assert b == a + (b - a);
    assert |b| == |a| + |b - a|;
  }

  /** The non-zero values of a list, in order. */
  function NonZero(s: seq<int>): (nz: seq<int>)
    ensures forall x :: x in nz <==> x in s && x != 0
  {
    if |s| == 0 then []
    else
      assert s == s[..|s| - 1] + [s[|s| - 1]];
      NonZero(s[..|s| - 1]) + (if s[|s| - 1] != 0 then [s[|s| - 1]] else [])
  }

  /** No two different positions hold the same non-zero value. */
  predicate NoRepeatedClue(s: seq<int>)
  {
    forall k1, k2 :: 0 <= k1 < |s| && 0 <= k2 < |s| && k1 != k2 && s[k1] != 0 ==> s[k1] != s[k2]
  }

  /** Filtering out the zeros leaves a list without repeats exactly when no clue repeats. */
  lemma {:induction false} NonZeroDistinct(s: seq<int>)
    ensures Distinct(NonZero(s)) <==> NoRepeatedClue(s)
    decreases |s|
  {
    if |s| > 0 {
      var p, x := s[..|s| - 1], s[|s| - 1];
      NonZeroDistinct(p);
      assert s == p + [x];
      var tail := if x != 0 then [x] else [];
      assert NonZero(s) == NonZero(p) + tail;
      assert NoRepeatedClue(s) <==> NoRepeatedClue(p) && (x != 0 ==> x !in p) by {
        if NoRepeatedClue(s) {
          forall k1, k2 | 0 <= k1 < |p| && 0 <= k2 < |p| && k1 != k2 && p[k1] != 0
            ensures p[k1] != p[k2]
          {
            assert s[k1] == p[k1] && s[k2] == p[k2];
          }
        }
        if NoRepeatedClue(p) && (x != 0 ==> x !in p) {
          forall k1, k2 | 0 <= k1 < |s| && 0 <= k2 < |s| && k1 != k2 && s[k1] != 0
            ensures s[k1] != s[k2]
          {
            if k1 < |p| && k2 < |p| {
              assert s[k1] == p[k1] && s[k2] == p[k2];
            } else if k1 < |p| {
              assert s[k1] == p[k1] && s[k1] in p;
            } else {
              assert s[k2] == p[k2] && s[k2] in p;
            }
          }
        }
      }
      DistinctAppend(NonZero(p), tail);
    }
  }

  lemma DistinctAppend(a: seq<int>, t: seq<int>)
    requires |t| <= 1
    ensures Distinct(a + t) <==> Distinct(a) && (|t| == 1 ==> t[0] !in a)
  {
    var c := a + t;
    if Distinct(c) {
      forall i, j | 0 <= i < j < |a|
        ensures a[i] != a[j]
      {
        assert c[i] == a[i] && c[j] == a[j];
      }
      if |t| == 1 {
        forall j | 0 <= j < |a|
          ensures a[j] != t[0]
        {
          assert c[j] == a[j] && c[|a|] == t[0];
        }
      }
    }
    if Distinct(a) && (|t| == 1 ==> t[0] !in a) {
      forall i, j | 0 <= i < j < |c|
        ensures c[i] != c[j]
      {
        if j < |a| {
          assert c[i] == a[i] && c[j] == a[j];
        } else {
          assert c[i] == a[i] && c[i] in a;
        }
      }
    }
  }

  /** A grid is consistent exactly when no unit repeats a clue. */
  lemma ValidGridIffUnits(g: seq<int>)
    requires |g| == 81
    ensures ValidGrid(g) <==> forall u :: 0 <= u < 27 ==> NoRepeatedClue(UnitNums(g, u))
  {
    if ValidGrid(g) {
      forall u | 0 <= u < 27
        ensures NoRepeatedClue(UnitNums(g, u))
      {
        var nums := UnitNums(g, u);
        forall k1, k2 | 0 <= k1 < 9 && 0 <= k2 < 9 && k1 != k2 && nums[k1] != 0
          ensures nums[k1] != nums[k2]
        {
          assert g[Cell(u, k1)] != g[Cell(u, k2)];
        }
      }
    }
    if forall u :: 0 <= u < 27 ==> NoRepeatedClue(UnitNums(g, u)) {
      forall u, k1, k2 | 0 <= u < 27 && 0 <= k1 < 9 && 0 <= k2 < 9 && k1 != k2 && g[Cell(u, k1)] != 0
        ensures g[Cell(u, k1)] != g[Cell(u, k2)]
      {
        var nums := UnitNums(g, u);
        assert NoRepeatedClue(nums);
        assert nums[k1] != nums[k2];
      }
    }
  }

  predicate AllDigits(g: seq<int>)
  {
    forall i :: 0 <= i < |g| ==> 1 <= g[i] <= 9
  }

  /** A grid of digits 1-9 is solved exactly when every unit holds all nine digits. */
  lemma SolvedIffUnitsComplete(g: seq<int>)
    requires |g| == 81 && AllDigits(g)
    ensures Solved(g) <==> forall u :: 0 <= u < 27 ==> HasAllNumbers(UnitNums(g, u))
  {
    ValidGridIffUnits(g);
    forall u | 0 <= u < 27
      ensures HasAllNumbers(UnitNums(g, u)) <==> NoRepeatedClue(UnitNums(g, u))
    {
      UnitAllNumbers(UnitNums(g, u));
    }
  }

  /** For a unit of digits 1-9, holding them all is the same as repeating none. */
  lemma UnitAllNumbers(nums: seq<int>)
    requires |nums| == 9 && forall k :: 0 <= k < 9 ==> 1 <= nums[k] <= 9
    ensures HasAllNumbers(nums) <==> NoRepeatedClue(nums)
  {
    AllNumbersIffDistinct(nums);
    if Distinct(nums) {
      forall k1, k2 | 0 <= k1 < 9 && 0 <= k2 < 9 && k1 != k2
        ensures nums[k1] != nums[k2]
      {
        if k1 > k2 {
          assert nums[k2] != nums[k1];
        }
      }
    }
  }

  /** The values of unit u collected in the validator's scan order. */
  method Gather(grid: seq<int>, u: nat, skipZeros: bool) returns (nums: seq<int>)
    requires |grid| == 81 && u < 27
    ensures nums == if skipZeros then NonZero(UnitNums(grid, u)) else UnitNums(grid, u)
  {
    ghost var all := UnitNums(grid, u);
    nums := [];
    var k := 0;
    while k < 9
      invariant 0 <= k <= 9
      invariant nums == if skipZeros then NonZero(all[..k]) else all[..k]
    {
      assert all[..k + 1][..k] == all[..k];
      var num := grid[Cell(u, k)];
      if !skipZeros || num != 0 {
        nums := nums + [num];
      }
      k := k + 1;
    }
    assert all[..9] == all;
  }

  /** The MissingDigits errors the unit passes of validateSudokuSolution report for units 0 to n-1. */
  function UnitErrors(grid: seq<int>, n: nat): seq<Issue>
    requires |grid| == 81 && n <= 27
  {
    if n == 0 then []
    else
      var nums := UnitNums(grid, n - 1);
      UnitErrors(grid, n - 1) + if HasAllNumbers(nums) then [] else [MissingDigits(HouseOf(n - 1), nums)]
  }

  /** Which units UnitErrors reports: exactly those among the first n that miss a digit. */
  lemma {:induction false} UnitErrorsMembers(grid: seq<int>, n: nat)
    requires |grid| == 81 && n <= 27
    ensures forall e :: e in UnitErrors(grid, n) ==> e.MissingDigits?
    ensures forall u :: 0 <= u < 27 ==>
      (MissingDigits(HouseOf(u), UnitNums(grid, u)) in UnitErrors(grid, n) <==> u < n && !HasAllNumbers(UnitNums(grid, u)))
    ensures UnitErrors(grid, n) == [] <==> forall u :: 0 <= u < n ==> HasAllNumbers(UnitNums(grid, u))
  {
    if n > 0 {
      UnitErrorsMembers(grid, n - 1);
      forall u | 0 <= u < 27
        ensures MissingDigits(HouseOf(u), UnitNums(grid, u)) in UnitErrors(grid, n) <==> u < n && !HasAllNumbers(UnitNums(grid, u))
      {
        if HouseOf(u) == HouseOf(n - 1) {
          HouseOfInjective(u, n - 1);
        }
      }
    }
  }

  /** The row, column and box passes of validateSudokuSolution, reached once every value is a digit. */
  method UnitsComplete(grid: seq<int>) returns (r: Check)
    requires |grid| == 81 && AllDigits(grid)
    ensures r.errors == UnitErrors(grid, 27)
    ensures r.isValid <==> r.errors == []
    ensures r.isValid <==> Solved(grid)
    ensures forall e :: e in r.errors ==> e.MissingDigits?
    ensures forall u :: 0 <= u < 27 ==>
      (MissingDigits(HouseOf(u), UnitNums(grid, u)) in r.errors <==> !HasAllNumbers(UnitNums(grid, u)))
  {
    var isValid := true;
    var errors: seq<Issue> := [];
    for u := 0 to 27
      invariant errors == UnitErrors(grid, u)
      invariant isValid <==> errors == []
    {
      var nums := Gather(grid, u, false);
      if !HasAllNumbers(nums) {
        isValid := false;
        errors := errors + [MissingDigits(HouseOf(u), nums)];
      } else {
        assert errors + [] == errors;
      }
    }
    UnitErrorsMembers(grid, 27);
    SolvedIffUnitsComplete(grid);
    r := Check(isValid, errors);
  }

  /** validateSudokuSolution: a complete grid of digits whose every unit holds 1-9. */
  method ValidateSudokuSolution(grid: seq<int>) returns (r: Check)
    requires |grid| == 81
    ensures r.isValid <==> r.errors == []
    ensures r.isValid <==> Solved(grid)
    ensures forall e :: e in r.errors ==> e.InvalidNumber? || e.MissingDigits?
    ensures forall i :: 0 <= i < 81 ==> (InvalidNumber(grid[i], i) in r.errors <==> !(1 <= grid[i] <= 9))
    ensures !AllDigits(grid) ==> forall e :: e in r.errors ==> e.InvalidNumber?
    ensures AllDigits(grid) ==> r.errors == UnitErrors(grid, 27)
    ensures AllDigits(grid) ==> forall u :: 0 <= u < 27 ==>
      (MissingDigits(HouseOf(u), UnitNums(grid, u)) in r.errors <==> !HasAllNumbers(UnitNums(grid, u)))
  {
    var isValid := true;
    var errors: seq<Issue> := [];
    for i := 0 to 81
      invariant isValid <==> errors == []
      invariant isValid <==> forall k :: 0 <= k < i ==> 1 <= grid[k] <= 9
      invariant forall e :: e in errors ==>
        e.InvalidNumber? && e.position < i && e.value == grid[e.position] && !(1 <= grid[e.position] <= 9)
      invariant forall k :: 0 <= k < i && !(1 <= grid[k] <= 9) ==> InvalidNumber(grid[k], k) in errors
    {
      if grid[i] < 1 || grid[i] > 9 {
        isValid := false;
        errors := errors + [InvalidNumber(grid[i], i)];
      }
    }
    if !isValid {
      return Check(false, errors);
    }
    r := UnitsComplete(grid);
  }

  /** validatePartialSudoku: no unit repeats a non-zero value. */
  method ValidatePartialSudoku(grid: seq<int>) returns (r: Check)
    requires |grid| == 81
    ensures r.isValid <==> r.errors == []
    ensures r.isValid <==> ValidGrid(grid)
    ensures forall e :: e in r.errors ==> e.DuplicateGivens?
    ensures forall u :: 0 <= u < 27 ==>
      (DuplicateGivens(HouseOf(u)) in r.errors <==> HasDuplicates(NonZero(UnitNums(grid, u))))
  {
    var isValid := true;
    var errors: seq<Issue> := [];
    for u := 0 to 27
      invariant isValid <==> errors == []
      invariant isValid <==> forall v :: 0 <= v < u ==> NoRepeatedClue(UnitNums(grid, v))
      invariant forall e :: e in errors ==>
        exists v :: 0 <= v < u && e == DuplicateGivens(HouseOf(v)) && !NoRepeatedClue(UnitNums(grid, v))
      invariant forall v :: 0 <= v < u && !NoRepeatedClue(UnitNums(grid, v)) ==> DuplicateGivens(HouseOf(v)) in errors
    {
      ghost var prev := errors;
      var nums := Gather(grid, u, true);
      NonZeroDistinct(UnitNums(grid, u));
      if HasDuplicates(nums) {
        isValid := false;
        errors := errors + [DuplicateGivens(HouseOf(u))];
      }
      assert forall e :: e in prev ==> e in errors;
      forall v | 0 <= v <= u && !NoRepeatedClue(UnitNums(grid, v))
        ensures DuplicateGivens(HouseOf(v)) in errors
      {
        if v < u {
          assert DuplicateGivens(HouseOf(v)) in prev;
        } else {
          assert HasDuplicates(nums);
        }
      }
    }
    ValidGridIffUnits(grid);
    forall u | 0 <= u < 27
      ensures DuplicateGivens(HouseOf(u)) in errors <==> HasDuplicates(NonZero(UnitNums(grid, u)))
    {
      NonZeroDistinct(UnitNums(grid, u));
      if DuplicateGivens(HouseOf(u)) in errors {
        var v :| 0 <= v < 27 && DuplicateGivens(HouseOf(u)) == DuplicateGivens(HouseOf(v))
          && !NoRepeatedClue(UnitNums(grid, v));
        HouseOfInjective(u, v);
      }
    }
    r := Check(isValid, errors);
  }

  /** Both strings match /^[0-9]{81}$/ and /^[1-9]{81}$/ respectively. */
  predicate WellFormed(givens: string, solution: string)
  {
    IsDigitString(givens, '0') && IsDigitString(solution, '1')
  }

  /** What validatePuzzle accepts: well-formed strings naming a solved grid and givens it extends. */
  predicate Sound(givens: string, solution: string)
  {
    && WellFormed(givens, solution)
    && SubGrid(From81(givens), From81(solution))
    && Solved(From81(solution))
    && ValidGrid(From81(givens))
  }

  /** The length and character checks that open validatePuzzle. */
  method FormatErrors(givens: string, solution: string) returns (errors: seq<Issue>)
    ensures errors == [] <==> WellFormed(givens, solution)
    ensures GivensLength(|givens|) in errors <==> |givens| != 81
    ensures SolutionLength(|solution|) in errors <==> |solution| != 81
    ensures GivensCharacters in errors <==> !IsDigitString(givens, '0')
    ensures SolutionCharacters in errors <==> !IsDigitString(solution, '1')
    ensures forall e :: e in errors ==> e.GivensLength? || e.SolutionLength? || e.GivensCharacters? || e.SolutionCharacters?
  {
    errors := [];
    if |givens| != 81 {
      errors := errors + [GivensLength(|givens|)];
    }
    if |solution| != 81 {
      errors := errors + [SolutionLength(|solution|)];
    }
    if !IsDigitString(givens, '0') {
      errors := errors + [GivensCharacters];
    }
    if !IsDigitString(solution, '1') {
      errors := errors + [SolutionCharacters];
    }
  }

  /** The subset pass of validatePuzzle: one Mismatch per clue that differs from the solution. */
  method MismatchErrors(g: seq<int>, s: seq<int>) returns (errors: seq<Issue>)
    requires |g| == 81 && |s| == 81
    ensures errors == [] <==> SubGrid(g, s)
    ensures forall e :: e in errors ==> e.Mismatch?
    ensures forall i :: 0 <= i < 81 ==> (Mismatch(i, g[i], s[i]) in errors <==> g[i] != 0 && g[i] != s[i])
  {
    errors := [];
    for i := 0 to 81
      invariant errors == [] <==> forall k :: 0 <= k < i ==> g[k] == 0 || g[k] == s[k]
      invariant forall e :: e in errors ==>
        e.Mismatch? && e.position < i && e.given == g[e.position] && e.expected == s[e.position] && e.given != 0 && e.given != e.expected
      invariant forall k :: 0 <= k < i && g[k] != 0 && g[k] != s[k] ==> Mismatch(k, g[k], s[k]) in errors
    {
      if g[i] != 0 && g[i] != s[i] {
        errors := errors + [Mismatch(i, g[i], s[i])];
      }
    }
  }

  /** The subset, solution and givens passes of validatePuzzle, on the parsed grids. */
  method ContentErrors(g: seq<int>, s: seq<int>) returns (isValid: bool, errors: seq<Issue>)
    requires |g| == 81 && |s| == 81
    ensures isValid <==> errors == []
    ensures isValid <==> SubGrid(g, s) && Solved(s) && ValidGrid(g)
    ensures forall i :: 0 <= i < 81 ==> (Mismatch(i, g[i], s[i]) in errors <==> g[i] != 0 && g[i] != s[i])
    ensures forall e :: e in errors ==> e.Mismatch? || e.InvalidNumber? || e.MissingDigits? || e.DuplicateGivens?
  {
    isValid := true;
    errors := MismatchErrors(g, s);
    if errors != [] {
      isValid := false;
    }
    var solutionValidation := ValidateSudokuSolution(s);
    if !solutionValidation.isValid {
      isValid := false;
      errors := errors + solutionValidation.errors;
    }
    var givensValidation := ValidatePartialSudoku(g);
    if !givensValidation.isValid {
      isValid := false;
      errors := errors + givensValidation.errors;
    }
  }

  /** The warnings of validatePuzzle, on the count of non-zero givens. */
  method GivenWarnings(g: seq<int>) returns (warnings: seq<Warning>)
    ensures forall w :: w in warnings ==> w.count == Clues(g)
    ensures FewGivens(Clues(g)) in warnings <==> Clues(g) < 17
    ensures ManyGivens(Clues(g)) in warnings <==> Clues(g) > 60
  {
    var givenCount := Clues(g);
    warnings := [];
    if givenCount < 17 {
      warnings := warnings + [FewGivens(givenCount)];
    }
    if givenCount > 60 {
      warnings := warnings + [ManyGivens(givenCount)];
    }
  }

  /** validatePuzzle. parseInt of a digit character is its CharValue. */
  method ValidatePuzzle(givens: string, solution: string) returns (r: Report)
    ensures r.isValid <==> r.errors == []
    ensures r.isValid <==> Sound(givens, solution)
    ensures GivensLength(|givens|) in r.errors <==> |givens| != 81
    ensures SolutionLength(|solution|) in r.errors <==> |solution| != 81
    ensures GivensCharacters in r.errors <==> !IsDigitString(givens, '0')
    ensures SolutionCharacters in r.errors <==> !IsDigitString(solution, '1')
    ensures !WellFormed(givens, solution) ==> r.warnings == []
    ensures !WellFormed(givens, solution) ==>
      forall e :: e in r.errors ==> e.GivensLength? || e.SolutionLength? || e.GivensCharacters? || e.SolutionCharacters?
    ensures WellFormed(givens, solution) ==>
      var g, s := From81(givens), From81(solution);
      forall i :: 0 <= i < 81 ==> (Mismatch(i, g[i], s[i]) in r.errors <==> g[i] != 0 && g[i] != s[i])
    ensures WellFormed(givens, solution) ==>
      var n := Clues(From81(givens));
      && (forall w :: w in r.warnings ==> w.count == n)
      && (FewGivens(n) in r.warnings <==> n < 17)
      && (ManyGivens(n) in r.warnings <==> n > 60)
  {
    var errors := FormatErrors(givens, solution);
    if errors != [] {
      return Report(false, errors, []);
    }
    var g, s := From81(givens), From81(solution);
    var isValid;
    isValid, errors := ContentErrors(g, s);
    var warnings := GivenWarnings(g);
    r := Report(isValid, errors, warnings);
  }

  /** The givens check adds nothing once the solution is valid and the givens are a subset of it. */
  lemma GivensCheckRedundant(givens: string, solution: string)
    requires WellFormed(givens, solution)
    requires SubGrid(From81(givens), From81(solution)) && Solved(From81(solution))
    ensures Sound(givens, solution)
  {
    SubGridValid(From81(givens), From81(solution));
  }

  /**
   * Strings as the generator returns them are accepted: digit strings whose
   * solution is a solved grid and whose non-'0' givens agree with it.
   */
  lemma GeneratedIsSound(givens: string, solution: string)
    requires IsDigitString(givens, '0') && IsDigitString(solution, '0')
    requires forall i :: 0 <= i < 81 ==> givens[i] == '0' || givens[i] == solution[i]
    requires Solved(From81(solution))
    ensures Sound(givens, solution)
  {
    var g, s := From81(givens), From81(solution);
    forall i | 0 <= i < 81
      ensures '1' <= solution[i] <= '9'
    {
      assert s[i] != 0;
    }
    forall i | 0 <= i < 81
      ensures g[i] == 0 || g[i] == s[i]
    {
      if givens[i] != '0' {
        assert givens[i] == solution[i];
      }
    }
    GivensCheckRedundant(givens, solution);
  }
}
