/**
 * humanSolve: the deduction loop that decides whether a puzzle yields to
 * the techniques of a tier.
 *
 * Every pass recomputes the candidates from the grid, places the first
 * naked single (if NS is allowed), else the first hidden single (if HS is
 * allowed), and otherwise runs the allowed eliminations on that pass's
 * candidates.  Because the candidates are recomputed at the top of the next
 * pass, an elimination never reaches a later pass: a pass that places
 * nothing but eliminates something is followed by an identical pass, and
 * the source loops for ever.  The model reports that outcome as Diverges
 * (and HumanSolve as None) instead of looping.
 */
module Human {
  import opened Wrappers
  import opened Grid
  import opened Eliminations

  /** The allowed techniques of a tier. */
  datatype Techniques = Techniques(NS: bool, HS: bool, NP: bool, HP: bool, PC: bool)

  /** Writing digit at cell. */
  datatype Placement = Placement(cell: nat, digit: int)

  /** What one pass does: place a single, repeat for ever, or stop. */
  datatype Step = Place(p: Placement) | Repeat | Stuck

  /** The result of the loop from some grid: its final grid and anyProgress, or no result at all. */
  datatype Outcome = Returns(final: seq<int>, progress: bool) | Diverges

  /** The object humanSolve returns. */
  datatype HumanResult = HumanResult(solved: bool, progress: bool)

  // ---------------------------------------------------------------- naked singles

  predicate NakedAt(g: seq<int>, C: seq<set<int>>, i: nat)
    requires |g| == 81 && |C| == 81 && i < 81
  {
    g[i] == 0 && |C[i]| == 1
  }

  /** i is the first naked single in row-major order. */
  predicate FirstNaked(g: seq<int>, C: seq<set<int>>, i: nat)
    requires |g| == 81 && |C| == 81
  {
    i < 81 && NakedAt(g, C, i) && forall j :: 0 <= j < i ==> !NakedAt(g, C, j)
  }

  lemma FirstNakedUnique(g: seq<int>, C: seq<set<int>>)
    requires |g| == 81 && |C| == 81
    ensures forall i, j :: FirstNaked(g, C, i) && FirstNaked(g, C, j) ==> i == j
  {
  }

  /** If some cell below n is a naked single, there is a first one. */
  lemma {:induction false} FirstNakedBelow(g: seq<int>, C: seq<set<int>>, n: nat)
    requires |g| == 81 && |C| == 81 && n <= 81
    requires exists i :: 0 <= i < n && NakedAt(g, C, i)
    ensures exists i :: FirstNaked(g, C, i)
  {
    if exists i :: 0 <= i < n - 1 && NakedAt(g, C, i) {
      FirstNakedBelow(g, C, n - 1);
    } else {
      assert FirstNaked(g, C, n - 1);
    }
  }

  /** The one member of a one-element set. */
  function TheElement(S: set<int>): (x: int)
    requires |S| == 1
    ensures S == {x}
  {
    SingletonShape(S);
    HasMember(S);
    var x :| x in S;
    x
  }

  lemma HasMember(S: set<int>)
    requires |S| > 0
    ensures exists x :: x in S
  {
    if forall x :: x !in S {
      assert false;
    }
  }

  lemma SingletonShape(S: set<int>)
    requires |S| == 1
    ensures forall x :: x in S ==> S == {x}
  {
    forall x | x in S
      ensures S == {x}
    {
      assert |S - {x}| == 0;
      assert S - {x} == {};
    }
  }

  /**
   * findNakedSingle: the first blank cell, in row-major order, with exactly
   * one candidate, and that candidate.
   */
  function NakedSingle(g: seq<int>, C: seq<set<int>>): (r: Option<Placement>)
    requires |g| == 81 && |C| == 81
    ensures r.Some? ==> r.value.cell < 81 && g[r.value.cell] == 0 && C[r.value.cell] == {r.value.digit}
    ensures r.Some? ==> forall j :: 0 <= j < r.value.cell ==> !NakedAt(g, C, j)
    ensures r.None? <==> forall j :: 0 <= j < 81 ==> !NakedAt(g, C, j)
  {
    if exists i :: 0 <= i < 81 && NakedAt(g, C, i) then
      FirstNakedBelow(g, C, 81);
      FirstNakedUnique(g, C);
      var i: nat :| FirstNaked(g, C, i);
      Some(Placement(i, TheElement(C[i])))
    else None
  }

  method FindNakedSingle(g: seq<int>, C: seq<set<int>>) returns (r: Option<Placement>)
    requires |g| == 81 && |C| == 81
    ensures r == NakedSingle(g, C)
  {
    var i := 0;
    while i < 81
      invariant i <= 81
      invariant forall j :: 0 <= j < i ==> !NakedAt(g, C, j)
    {
      if g[i] == 0 && |C[i]| == 1 {
        assert FirstNaked(g, C, i);
        return Some(Placement(i, TheElement(C[i])));
      }
      i := i + 1;
    }
    return None;
  }

  // ---------------------------------------------------------------- hidden singles

  /**
   * The searches of findHiddenSingle are numbered m = u * 9 + (v - 1): unit
   * u (rows, then columns, then boxes) and digit v.  Search m succeeds when v
   * has exactly one position in its unit.
   */
  predicate HiddenAt(g: seq<int>, C: seq<set<int>>, m: nat)
    requires |g| == 81 && |C| == 81 && m < 243
  {
    |Positions(g, C, m / 9, m % 9 + 1)| == 1
  }

  /** m is the first successful search. */
  predicate FirstHidden(g: seq<int>, C: seq<set<int>>, m: nat)
    requires |g| == 81 && |C| == 81
  {
    m < 243 && HiddenAt(g, C, m) && forall m' :: 0 <= m' < m ==> !HiddenAt(g, C, m')
  }

  /** If some search below n succeeds, there is a first one. */
  lemma {:induction false} FirstHiddenBelow(g: seq<int>, C: seq<set<int>>, n: nat)
    requires |g| == 81 && |C| == 81 && n <= 243
    requires exists m :: 0 <= m < n && HiddenAt(g, C, m)
    ensures exists m :: FirstHidden(g, C, m)
  {
    if exists m :: 0 <= m < n - 1 && HiddenAt(g, C, m) {
      FirstHiddenBelow(g, C, n - 1);
    } else {
      assert FirstHidden(g, C, n - 1);
    }
  }

  /** Digit v appears in the candidates of one blank cell of unit u, and that cell is i. */
  predicate OnlyPlaceIn(g: seq<int>, C: seq<set<int>>, u: nat, v: int, i: nat)
    requires |g| == 81 && |C| == 81 && u < 27
  {
    (exists k :: 0 <= k < 9 && Cell(u, k) == i && g[i] == 0 && v in C[i]) &&
    forall k :: 0 <= k < 9 && g[Cell(u, k)] == 0 && v in C[Cell(u, k)] ==> Cell(u, k) == i
  }

  /** findHiddenSingle: the first unit and digit, in search order, with exactly one place. */
  function HiddenSingle(g: seq<int>, C: seq<set<int>>): (r: Option<Placement>)
    requires |g| == 81 && |C| == 81
    ensures r.Some? ==> 1 <= r.value.digit <= 9 && exists u :: 0 <= u < 27 && OnlyPlaceIn(g, C, u, r.value.digit, r.value.cell)
    ensures r.None? <==> forall m :: 0 <= m < 243 ==> !HiddenAt(g, C, m)
  {
    if exists m :: 0 <= m < 243 && HiddenAt(g, C, m) then
      var m := FirstHiddenSearch(g, C);
      HiddenPick(g, C, m);
      var u, v := m / 9, m % 9 + 1;
      Some(Placement(Cell(u, Positions(g, C, u, v)[0]), v))
    else None
  }

  /** The number of the first successful search. */
  function FirstHiddenSearch(g: seq<int>, C: seq<set<int>>): (m: nat)
    requires |g| == 81 && |C| == 81
    requires exists m :: 0 <= m < 243 && HiddenAt(g, C, m)
    ensures FirstHidden(g, C, m)
  {
    FirstHiddenBelow(g, C, 243);
    var m :| FirstHidden(g, C, m);
    m
  }

  /** A successful search m names the only place of its digit in its unit. */
  lemma HiddenPick(g: seq<int>, C: seq<set<int>>, m: nat)
    requires |g| == 81 && |C| == 81 && m < 243 && HiddenAt(g, C, m)
    ensures var u, v := m / 9, m % 9 + 1;
      u < 27 && 1 <= v <= 9 && |Positions(g, C, u, v)| == 1 &&
      OnlyPlaceIn(g, C, u, v, Cell(u, Positions(g, C, u, v)[0]))
  {
    var u, v := m / 9, m % 9 + 1;
    var ps := Positions(g, C, u, v);
    PositionsSpec(g, C, u, v);
    assert OnlyPlaceIn(g, C, u, v, Cell(u, ps[0]));
  }

  /** The cells list of one search of findHiddenSingle, built by scanning the unit. */
  method UnitHolders(g: seq<int>, C: seq<set<int>>, u: nat, v: int) returns (ps: seq<nat>)
    requires |g| == 81 && |C| == 81 && u < 27
    ensures ps == Positions(g, C, u, v)
  {
    ghost var vals, cs := UnitNums(g, u), UnitNums(C, u);
    ps := [];
    var k := 0;
    while k < 9
      invariant k <= 9
      invariant ps == Holders(vals, cs, v, k)
    {
      var i := Cell(u, k);
      if g[i] == 0 && v in C[i] {
        ps := ps + [k];
      }
      k := k + 1;
    }
  }

  method FindHiddenSingle(g: seq<int>, C: seq<set<int>>) returns (r: Option<Placement>)
    requires |g| == 81 && |C| == 81
    ensures r == HiddenSingle(g, C)
  {
    var u := 0;
    while u < 27
      invariant u <= 27
      invariant forall m :: 0 <= m < u * 9 ==> !HiddenAt(g, C, m)
    {
      var v := 1;
      while v <= 9
        invariant 1 <= v <= 10
        invariant forall m :: 0 <= m < u * 9 + v - 1 ==> !HiddenAt(g, C, m)
      {
        var ps := UnitHolders(g, C, u, v);
        assert (u * 9 + v - 1) / 9 == u && (u * 9 + v - 1) % 9 + 1 == v;
        if |ps| == 1 {
          assert FirstHidden(g, C, u * 9 + v - 1);
          return Some(Placement(Cell(u, ps[0]), v));
        }
        v := v + 1;
      }
      u := u + 1;
    }
    return None;
  }

  // ---------------------------------------------------------------- one pass

  /** The eliminations of one pass delete something (see the routines in Eliminations). */
  predicate ElimFires(g: seq<int>, C: seq<set<int>>, t: Techniques)
    requires |g| == 81 && |C| == 81
  {
    (t.NP && NakedPairsFire(g, C)) || (t.HP && HiddenPairsFire(g, C)) || (t.PC && PointingClaimingFire(g, C))
  }

  /** One pass of the while (changed) loop on grid g. */
  function Pass(g: seq<int>, t: Techniques): (r: Step)
    requires |g| == 81
    ensures r.Place? ==> r.p.cell < 81 && g[r.p.cell] == 0 && r.p.digit in Candidates(g, r.p.cell)
  {
    var C := CandidatesFor(g);
    var ns := if t.NS then NakedSingle(g, C) else None;
    if ns.Some? then Place(ns.value)
    else
      var hs := if t.HS then HiddenSingle(g, C) else None;
      if hs.Some? then Place(hs.value)
      else if ElimFires(g, C, t) then Repeat
      else Stuck
  }

  /** The loop from grid g with anyProgress already equal to progress. */
  function RunFrom(g: seq<int>, progress: bool, t: Techniques): (r: Outcome)
    requires |g| == 81
    ensures r.Returns? ==> |r.final| == 81
    decreases Blanks(g)
  {
    match Pass(g, t)
    case Place(p) =>
      BlanksUpdate(g, p.cell, p.digit);
      CandidateIff(g, p.cell, p.digit);
      RunFrom(g[p.cell := p.digit], true, t)
    case Repeat => Diverges
    case Stuck => Returns(g, progress)
  }

  /** When the loop returns, it stopped on a pass that found nothing to do. */
  lemma {:induction false} RunFromStops(g: seq<int>, progress: bool, t: Techniques)
    requires |g| == 81
    ensures RunFrom(g, progress, t).Returns? ==> Pass(RunFrom(g, progress, t).final, t).Stuck?
    decreases Blanks(g)
  {
    var s := Pass(g, t);
    if s.Place? {
      var h := g[s.p.cell := s.p.digit];
      BlanksUpdate(g, s.p.cell, s.p.digit);
      CandidateIff(g, s.p.cell, s.p.digit);
      assert RunFrom(g, progress, t) == RunFrom(h, true, t);
      RunFromStops(h, true, t);
    }
  }

  /** The loop only fills blank cells: every non-zero cell keeps its value. */
  lemma {:induction false} RunFromExtends(g: seq<int>, progress: bool, t: Techniques)
    requires |g| == 81
    ensures var r := RunFrom(g, progress, t);
      r.Returns? ==> Extends(r.final, g)
    decreases Blanks(g)
  {
    var s := Pass(g, t);
    if s.Place? {
      var i, v := s.p.cell, s.p.digit;
      var h := g[i := v];
      BlanksUpdate(g, i, v);
      CandidateIff(g, i, v);
      assert RunFrom(g, progress, t) == RunFrom(h, true, t);
      RunFromExtends(h, true, t);
      ExtendsUpdate(RunFrom(h, true, t), g, i, v);
    }
  }

  lemma ExtendsUpdate(r: Outcome, g: seq<int>, i: nat, v: int)
    requires |g| == 81 && i < 81 && g[i] == 0
    requires r.Returns? ==> Extends(r.final, g[i := v])
    ensures r.Returns? ==> Extends(r.final, g)
  {
  }

  /** anyProgress is true exactly when the loop filled a cell. */
  lemma {:induction false} RunFromProgress(g: seq<int>, progress: bool, t: Techniques)
    requires |g| == 81
    ensures var r := RunFrom(g, progress, t);
      r.Returns? ==> (r.progress <==> progress || r.final != g)
    decreases Blanks(g)
  {
    var s := Pass(g, t);
    if s.Place? {
      var i, v := s.p.cell, s.p.digit;
      var h := g[i := v];
      BlanksUpdate(g, i, v);
      CandidateIff(g, i, v);
      assert RunFrom(g, progress, t) == RunFrom(h, true, t);
      RunFromProgress(h, true, t);
      RunFromExtends(h, true, t);
      assert v in Digits;
      FilledDiffers(RunFrom(h, true, t), g, i, v);
    }
  }

  lemma FilledDiffers(r: Outcome, g: seq<int>, i: nat, v: int)
    requires |g| == 81 && i < 81 && g[i] == 0 && v != 0
    requires r.Returns? ==> Extends(r.final, g[i := v])
    ensures r.Returns? ==> r.final != g
  {
    if r.Returns? {
      assert r.final[i] != g[i];
    }
  }

  /** The loop keeps the grid valid and its values digits. */
  lemma {:induction false} RunFromKeepsValid(g: seq<int>, progress: bool, t: Techniques)
    requires |g| == 81
    ensures var r := RunFrom(g, progress, t);
      r.Returns? ==> (ValidGrid(g) ==> ValidGrid(r.final)) && (IsGrid(g) ==> IsGrid(r.final))
    decreases Blanks(g)
  {
    var s := Pass(g, t);
    if s.Place? {
      var i, v := s.p.cell, s.p.digit;
      var h := g[i := v];
      BlanksUpdate(g, i, v);
      assert RunFrom(g, progress, t) == RunFrom(h, true, t);
      RunFromKeepsValid(h, true, t);
      PlaceCandidateKeeps(g, i, v);
    }
  }

  /** Writing a candidate keeps a valid grid valid and the values digits. */
  lemma PlaceCandidateKeeps(g: seq<int>, i: nat, v: int)
    requires |g| == 81 && i < 81 && v in Candidates(g, i)
    ensures ValidGrid(g) ==> ValidGrid(g[i := v])
    ensures IsGrid(g) ==> IsGrid(g[i := v])
  {
    CandidateIff(g, i, v);
    if ValidGrid(g) {
      PlaceKeepsValid(g, i, v);
    }
    assert v in Digits;
  }

  /** humanSolve(givens, allowed); None when the source never returns. */
  function Deduce(g: seq<int>, t: Techniques): (r: Option<HumanResult>)
    requires |g| == 81
    ensures !ValidGrid(g) ==> r == Some(HumanResult(false, false))
    ensures r.Some? && r.value.solved ==> ValidGrid(g)
  {
    if !ValidGrid(g) then Some(HumanResult(false, false))
    else
      match RunFrom(g, false, t)
      case Diverges => None
      case Returns(f, p) => Some(HumanResult(Complete(f) && ValidGrid(f), p))
  }

  // ---------------------------------------------------------------- what the loop guarantees

  /** A naked single is forced: every solution holds the single candidate there. */
  lemma NakedForced(g: seq<int>, s: seq<int>, i: nat, v: int)
    requires |g| == 81 && i < 81 && IsSolutionOf(s, g) && g[i] == 0 && Candidates(g, i) == {v}
    ensures s[i] == v
  {
    SolutionValueIsCandidate(s, g, i);
  }

  /** A hidden single is forced: every solution puts v in the only cell of the unit that can hold it. */
  lemma HiddenForced(g: seq<int>, s: seq<int>, u: nat, v: int, i: nat)
    requires |g| == 81 && IsSolutionOf(s, g) && u < 27 && 1 <= v <= 9
    requires OnlyPlaceIn(g, CandidatesFor(g), u, v, i)
    ensures s[i] == v
  {
    var C := CandidatesFor(g);
    var k0 :| 0 <= k0 < 9 && Cell(u, k0) == i && g[i] == 0 && v in C[i];
    CandidateIff(g, i, v);
    UnitOfMember(u, k0, i);
    assert forall k :: 0 <= k < 9 ==> g[Cell(u, k)] != v;
    SolvedUnitHasDigit(s, u, v);
    var k :| 0 <= k < 9 && s[Cell(u, k)] == v;
    var j := Cell(u, k);
    assert g[j] == 0;
    SolutionValueIsCandidate(s, g, j);
    assert v in C[j];
  }

  /** Every placement of a pass is forced. */
  lemma PassForced(g: seq<int>, t: Techniques, s: seq<int>)
    requires |g| == 81 && IsSolutionOf(s, g) && Pass(g, t).Place?
    ensures s[Pass(g, t).p.cell] == Pass(g, t).p.digit
  {
    var C := CandidatesFor(g);
    var p := Pass(g, t).p;
    var ns := if t.NS then NakedSingle(g, C) else None;
    if ns.Some? {
      assert p == ns.value;
      assert C[p.cell] == Candidates(g, p.cell);
      NakedForced(g, s, p.cell, p.digit);
    } else {
      assert t.HS && p == HiddenSingle(g, C).value;
      var u :| 0 <= u < 27 && OnlyPlaceIn(g, C, u, p.digit, p.cell);
      HiddenForced(g, s, u, p.digit, p.cell);
    }
  }

  lemma SolutionOfUpdate(s: seq<int>, g: seq<int>, i: nat, v: int)
    requires |g| == 81 && i < 81 && IsSolutionOf(s, g) && s[i] == v
    ensures IsSolutionOf(s, g[i := v])
  {
  }

  /** Every solution of the grid the loop starts from is a solution of the grid it returns. */
  lemma {:induction false} RunFromKeepsSolutions(g: seq<int>, progress: bool, t: Techniques, s: seq<int>)
    requires |g| == 81 && IsSolutionOf(s, g)
    ensures RunFrom(g, progress, t).Returns? ==> IsSolutionOf(s, RunFrom(g, progress, t).final)
    decreases Blanks(g)
  {
    var st := Pass(g, t);
    if st.Place? {
      var i, v := st.p.cell, st.p.digit;
      var h := g[i := v];
      BlanksUpdate(g, i, v);
      CandidateIff(g, i, v);
      assert RunFrom(g, progress, t) == RunFrom(h, true, t);
      PassForced(g, t, s);
      SolutionOfUpdate(s, g, i, v);
      RunFromKeepsSolutions(h, true, t, s);
    }
  }

  /**
   * solved is true only when the givens have exactly one solution, the
   * grid the loop returns.
   */
  lemma SolvedIsUnique(g: seq<int>, t: Techniques)
    requires IsGrid(g) && Deduce(g, t).Some? && Deduce(g, t).value.solved
    ensures RunFrom(g, false, t).Returns? && UniquelySolvedBy(g, RunFrom(g, false, t).final)
  {
    var f := RunFrom(g, false, t).final;
    RunFromExtends(g, false, t);
    RunFromKeepsValid(g, false, t);
    forall s | IsSolutionOf(s, g)
      ensures IsSolutionOf(s, f)
    {
      RunFromKeepsSolutions(g, false, t, s);
    }
    OnlySolution(g, f);
  }

  lemma OnlySolution(g: seq<int>, f: seq<int>)
    requires IsGrid(f) && Complete(f) && ValidGrid(f) && Extends(f, g)
    requires forall s :: IsSolutionOf(s, g) ==> IsSolutionOf(s, f)
    ensures UniquelySolvedBy(g, f)
  {
    assert Solved(f);
    forall s | IsSolutionOf(s, g)
      ensures s == f
    {
      CompleteHasOnlyItself(f, s);
    }
  }

  /** A unit of a complete grid has no blank cell, so no digit has a position in it. */
  lemma NoPositionsWhenFull(g: seq<int>, C: seq<set<int>>, u: nat, v: int)
    requires |g| == 81 && |C| == 81 && u < 27 && Complete(g)
    ensures Positions(g, C, u, v) == []
  {
    var vals := UnitNums(g, u);
    NoHoldersWhenFull(vals, UnitNums(C, u), v, |vals|);
  }

  lemma {:induction false} NoHoldersWhenFull(vals: seq<int>, cs: seq<set<int>>, v: int, n: nat)
    requires |vals| == 9 && |cs| == 9 && n <= 9
    requires forall k :: 0 <= k < 9 ==> vals[k] != 0
    ensures Holders(vals, cs, v, n) == []
  {
    if n > 0 {
      NoHoldersWhenFull(vals, cs, v, n - 1);
    }
  }

  /** On a complete grid the first pass finds nothing to do. */
  lemma FullGridStuck(g: seq<int>, t: Techniques)
    requires |g| == 81 && Complete(g)
    ensures Pass(g, t) == Stuck
  {
    var C := CandidatesFor(g);
    forall u: nat, v: int | u < 27
      ensures Positions(g, C, u, v) == []
    {
      NoPositionsWhenFull(g, C, u, v);
    }
    assert !NakedPairsFire(g, C);
    assert !HiddenPairsFire(g, C);
    assert !PointingClaimingFire(g, C);
  }

  /** A complete valid grid is solved without any placement. */
  lemma CompleteGridSolves(g: seq<int>, t: Techniques)
    requires |g| == 81 && Complete(g) && ValidGrid(g)
    ensures Deduce(g, t) == Some(HumanResult(true, false))
  {
    FullGridStuck(g, t);
  }

  /**
   * One pass of the loop body: recompute the candidates, look for a naked
   * single, then a hidden single, then run the eliminations on an array copy
   * of the candidates.  The grid is only read.
   */
  method RunPass(g: seq<int>, t: Techniques) returns (s: Step)
    requires |g| == 81
    ensures s == Pass(g, t)
  {
    var C := CandidatesFor(g);
    var m := None;
    if t.NS {
      m := FindNakedSingle(g, C);
    }
    if m.None? && t.HS {
      m := FindHiddenSingle(g, C);
    }
    if m.Some? {
      return Place(m.value);
    }
    var cand := new set<int>[81](i requires 0 <= i < 81 => C[i]);
    assert cand[..] == C;
    var didElim := false;
    if t.NP {
      var d := NakedPairs(g, cand);
      didElim := d || didElim;
    }
    if t.HP {
      var d := HiddenPairs(g, cand);
      didElim := d || didElim;
    }
    if t.PC {
      var d := PointingClaiming(g, cand);
      didElim := d || didElim;
    }
    assert didElim <==> ElimFires(g, C, t);
    // a pass that only eliminates is followed by the same pass, for ever
    s := if didElim then Repeat else Stuck;
  }

  /** humanSolve on a copy of the givens; the caller's grid is only read. */
  method HumanSolve(givens: array<int>, t: Techniques) returns (r: Option<HumanResult>)
    requires givens.Length == 81
    ensures r == Deduce(givens[..], t)
  {
    var g := new int[81];
    forall k | 0 <= k < 81 {
      g[k] := givens[k];
    }
    assert g[..] == givens[..];
    ghost var g0 := g[..];
    if !ValidGrid(g[..]) {
      return Some(HumanResult(false, false));
    }
    var changed := true;
    var progress := false;
    while changed
      invariant changed ==> RunFrom(g[..], progress, t) == RunFrom(g0, false, t)
      invariant !changed ==> RunFrom(g0, false, t) == Returns(g[..], progress)
      decreases Blanks(g[..]) + (if changed then 1 else 0)
    {
      changed := false;
      var s := RunPass(g[..], t);
      match s
      case Place(p) =>
        ghost var before := g[..];
        BlanksUpdate(before, p.cell, p.digit);
        CandidateIff(before, p.cell, p.digit);
        g[p.cell] := p.digit;
        assert g[..] == before[p.cell := p.digit];
        progress := true;
        changed := true;
      case Repeat =>
        return None;
      case Stuck =>
    }
    r := Some(HumanResult(Complete(g[..]) && ValidGrid(g[..]), progress));
  }
}
