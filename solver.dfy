/**
 * countSolutions: the bounded backtracking counter used as the uniqueness
 * oracle.  The search object holds the closure variables of the source
 * (count, first); a ghost list records every solution the search has
 * reached, in order.  The candidate cache of the source is rebuilt after
 * every change of the grid, so it always equals the candidates of the
 * current grid and is not kept separately here.
 */
module Uniqueness {
  import opened Wrappers
  import opened Grid

  /** isValidPlacement of the counter: no other cell of the row, column or box holds v. */
  predicate PlacementOk(g: seq<int>, i: nat, v: int)
    requires |g| == 81 && i < 81
  {
    forall k :: 0 <= k < 9 ==>
      (Cell(RowUnit(i), k) == i || g[Cell(RowUnit(i), k)] != v) &&
      (Cell(ColUnit(i), k) == i || g[Cell(ColUnit(i), k)] != v) &&
      (Cell(BoxUnit(i), k) == i || g[Cell(BoxUnit(i), k)] != v)
  }

  /** A candidate always passes the placement check. */
  lemma CandidatePlacementOk(g: seq<int>, i: nat, v: int)
    requires |g| == 81 && i < 81 && v in Candidates(g, i)
    ensures PlacementOk(g, i, v)
  {
    CandidateIff(g, i, v);
  }

  lemma CandidatesAtMostNine(g: seq<int>, i: nat)
    requires |g| == 81 && i < 81
    ensures |Candidates(g, i)| <= 9
  {
    assert Candidates(g, i) <= Digits;
    SubsetCard(Candidates(g, i), Digits);
  }

  /** A value that is not a candidate of a blank cell appears there in no solution. */
  lemma NoSolutionWith(g: seq<int>, i: nat, v: int)
    requires |g| == 81 && i < 81 && g[i] == 0 && v !in Candidates(g, i)
    ensures forall s :: IsSolutionOf(s, g) ==> s[i] != v
  {
    forall s | IsSolutionOf(s, g) ensures s[i] != v {
      SolutionValueIsCandidate(s, g, i);
    }
  }

  /** A blank cell without candidates admits no solution. */
  lemma DeadEnd(g: seq<int>, i: nat)
    requires |g| == 81 && i < 81 && g[i] == 0 && Candidates(g, i) == {}
    ensures forall s :: !IsSolutionOf(s, g)
  {
    forall s ensures !IsSolutionOf(s, g) {
      if IsSolutionOf(s, g) {
        SolutionValueIsCandidate(s, g, i);
      }
    }
  }

  /**
   * pickCell: the first blank cell, in row-major order, with the fewest
   * candidates; the scan stops at once on a cell with zero or one candidate.
   */
  method PickCell(g: seq<int>) returns (found: bool, i: nat, cand: set<int>)
    requires |g| == 81
    ensures found <==> !Complete(g)
    ensures found ==> i < 81 && g[i] == 0 && cand == Candidates(g, i)
    ensures found ==> forall j :: 0 <= j < i && g[j] == 0 ==> |Candidates(g, j)| > |cand|
    ensures found && |cand| >= 2 ==> forall j :: 0 <= j < 81 && g[j] == 0 ==> |Candidates(g, j)| >= |cand|
  {
    var cands := CandidatesFor(g);
    forall t | 0 <= t < 81 ensures |cands[t]| <= 9 {
      CandidatesAtMostNine(g, t);
    }
    found, i, cand := PickFrom(g, cands);
  }

  /** The scan of pickCell over a precomputed candidate grid. */
  method PickFrom(g: seq<int>, cands: seq<set<int>>) returns (found: bool, i: nat, cand: set<int>)
    requires |g| == 81 && |cands| == 81
    requires forall t :: 0 <= t < 81 ==> |cands[t]| <= 9
    ensures found <==> exists t :: 0 <= t < 81 && g[t] == 0
    ensures found ==> i < 81 && g[i] == 0 && cand == cands[i]
    ensures found ==> forall j :: 0 <= j < i && g[j] == 0 ==> |cands[j]| > |cand|
    ensures found && |cand| >= 2 ==> forall j :: 0 <= j < 81 && g[j] == 0 ==> |cands[j]| >= |cand|
  {
    var best := -1;
    var bestSize := 10;
    var j := 0;
    while j < 81
      invariant 0 <= j <= 81
      invariant best == -1 <==> forall t :: 0 <= t < j ==> g[t] != 0
      invariant best == -1 ==> bestSize == 10
      invariant best != -1 ==> 0 <= best < j && g[best] == 0 && bestSize == |cands[best]| && bestSize >= 2
      invariant best != -1 ==> forall t :: 0 <= t < best && g[t] == 0 ==> |cands[t]| > bestSize
      invariant best != -1 ==> forall t :: best <= t < j && g[t] == 0 ==> |cands[t]| >= bestSize
      invariant forall t :: 0 <= t < j && g[t] == 0 ==> |cands[t]| >= 2
    {
      if g[j] == 0 {
        var sz := |cands[j]|;
        if sz == 0 {
          return true, j, {};
        }
        if sz < bestSize {
          best, bestSize := j, sz;
          if sz == 1 {
            return true, j, cands[j];
          }
        }
      }
      j := j + 1;
    }
    if best == -1 {
      return false, 0, {};
    }
    return true, best, cands[best];
  }

  /** The state of one countSolutions call. */
  class Search {
    const limit: nat
    ghost const root: seq<int>
    var count: nat
    var first: Option<seq<int>>
    ghost var found: seq<seq<int>>

    ghost predicate Valid()
      reads this
    {
      && |root| == 81
      && count == |found| && count <= limit
      && (count == 0 <==> first == None)
      && (count > 0 ==> first == Some(found[0]))
      && (forall s :: s in found ==> IsSolutionOf(s, root))
      && (forall a, b :: 0 <= a < b < |found| ==> found[a] != found[b])
    }

    constructor (limit: nat, root: seq<int>)
      requires |root| == 81
      ensures Valid() && this.limit == limit && this.root == root
      ensures found == [] && first == None
    {
      this.limit := limit;
      this.root := root;
      count := 0;
      first := None;
      found := [];
    }

    /**
     * dfs: counts the completions of g until the count reaches the limit,
     * and leaves g as it found it.  Solutions found earlier never extend g,
     * so the ones found here are new.
     */
    method Dfs(g: array<int>)
      requires Valid() && g.Length == 81 && IsGrid(g[..]) && ValidGrid(g[..]) && Extends(g[..], root)
      requires forall s :: s in found ==> !Extends(s, g[..])
      modifies this, g
      decreases Blanks(g[..]), 2
      ensures Valid() && g[..] == old(g[..]) && old(found) <= found
      ensures forall t :: |old(found)| <= t < |found| ==> Extends(found[t], g[..])
      ensures count < limit ==> forall s :: IsSolutionOf(s, g[..]) ==> s in found
    {
      if count >= limit {
        return;
      }
      if Complete(g[..]) {
        Record(g[..]);
        return;
      }
      var ok, i, cand := PickCell(g[..]);
      if !ok || |cand| == 0 {
        DeadEnd(g[..], i);
        return;
      }
      TryCandidates(g, i, cand);
    }

    /** A full grid reached by the search: count it, and keep the first. */
    method Record(g: seq<int>)
      requires Valid() && IsGrid(g) && ValidGrid(g) && Complete(g) && Extends(g, root) && count < limit
      requires forall s :: s in found ==> !Extends(s, g)
      modifies this
      ensures Valid() && found == old(found) + [g]
      ensures forall s :: IsSolutionOf(s, g) ==> s in found
    {
      CompleteIsItsSolution(g, root);
      FreshSolution(found, g);
      count := count + 1;
      if first == None {
        first := Some(g);
      }
      found := found + [g];
    }

    /** The loop of dfs over the candidates of the picked cell, in ascending order. */
    method TryCandidates(g: array<int>, i: nat, cand: set<int>)
      requires Valid() && g.Length == 81 && IsGrid(g[..]) && ValidGrid(g[..]) && Extends(g[..], root)
      requires forall s :: s in found ==> !Extends(s, g[..])
      requires i < 81 && g[i] == 0 && cand == Candidates(g[..], i) && count < limit
      modifies this, g
      decreases Blanks(g[..]), 1
      ensures Valid() && g[..] == old(g[..]) && old(found) <= found
      ensures forall t :: |old(found)| <= t < |found| ==> Extends(found[t], g[..])
      ensures count < limit ==> forall s :: IsSolutionOf(s, g[..]) ==> s in found
    {
      ghost var g0 := g[..];
      ghost var n0 := |found|;
      var v := 1;
      while v <= 9
        invariant 1 <= v <= 10
        invariant g[..] == g0 && Valid() && count < limit && old(found) <= found
        invariant forall t :: n0 <= t < |found| ==> Extends(found[t], g0) && found[t][i] < v
        invariant forall s :: IsSolutionOf(s, g0) && s[i] < v ==> s in found
      {
        CandidateFacts(g0, i, v, cand);
        if v in cand && PlacementOk(g[..], i, v) {
          TryValue(g, i, v);
          if count >= limit {
            return;
          }
        } else {
          NoSolutionWith(g0, i, v);
        }
        v := v + 1;
      }
      forall s | IsSolutionOf(s, g0) ensures s in found {
        assert 1 <= s[i] <= 9;
      }
    }

    /** One turn of the loop over the candidates of the picked cell: place v, search, undo. */
    method TryValue(g: array<int>, i: nat, v: int)
      requires Valid() && g.Length == 81 && IsGrid(g[..]) && ValidGrid(g[..]) && Extends(g[..], root)
      requires i < 81 && g[i] == 0 && 1 <= v <= 9 && NoClash(g[..], i, v) && count < limit
      requires forall t :: 0 <= t < |found| ==> !Extends(found[t], g[..]) || found[t][i] < v
      modifies this, g
      decreases Blanks(g[..]), 0
      ensures Valid() && g[..] == old(g[..]) && old(found) <= found
      ensures forall t :: |old(found)| <= t < |found| ==> Extends(found[t], g[..]) && found[t][i] == v
      ensures count < limit ==> forall s :: IsSolutionOf(s, g[..]) && s[i] == v ==> s in found
    {
      ghost var g0 := g[..];
      Extension(g0, i, v, root, found);
      BlanksUpdate(g0, i, v);
      g[i] := v;
      assert g[..] == g0[i := v];
      Dfs(g);
      g[i] := 0;
      assert g[..] == g0;
    }
  }

  /** A grid that no recorded solution extends is not among them. */
  lemma FreshSolution(found: seq<seq<int>>, x: seq<int>)
    requires forall a, b :: 0 <= a < b < |found| ==> found[a] != found[b]
    requires forall s :: s in found ==> !Extends(s, x)
    ensures forall a, b :: 0 <= a < b < |found + [x]| ==> (found + [x])[a] != (found + [x])[b]
  {
    assert Extends(x, x);
  }

  lemma CompleteIsItsSolution(g: seq<int>, root: seq<int>)
    requires IsGrid(g) && ValidGrid(g) && Complete(g) && Extends(g, root)
    ensures IsSolutionOf(g, root)
    ensures forall s :: IsSolutionOf(s, g) ==> s == g
  {
  }

  lemma CandidateFacts(g: seq<int>, i: nat, v: int, cand: set<int>)
    requires |g| == 81 && i < 81 && cand == Candidates(g, i)
    ensures v in cand ==> PlacementOk(g, i, v) && 1 <= v <= 9 && NoClash(g, i, v)
  {
    if v in cand {
      CandidatePlacementOk(g, i, v);
      CandidateIff(g, i, v);
    }
  }

  /** Filling blank cell i of g with a clash-free digit gives a smaller search problem. */
  lemma Extension(g: seq<int>, i: nat, v: int, root: seq<int>, found: seq<seq<int>>)
    requires IsGrid(g) && ValidGrid(g) && Extends(g, root) && i < 81 && g[i] == 0
    requires 1 <= v <= 9 && NoClash(g, i, v)
    requires forall s :: s in found ==> |s| == 81
    requires forall t :: 0 <= t < |found| ==> !Extends(found[t], g) || found[t][i] < v
    ensures IsGrid(g[i := v]) && ValidGrid(g[i := v]) && Extends(g[i := v], root)
    ensures forall s :: s in found ==> !Extends(s, g[i := v])
    ensures forall s :: IsSolutionOf(s, g) && s[i] == v ==> IsSolutionOf(s, g[i := v])
    ensures forall s :: Extends(s, g[i := v]) ==> Extends(s, g) && s[i] == v
  {
    PlaceKeepsValid(g, i, v);
  }

  /** Two different solutions. */
  ghost predicate Ambiguous(g: seq<int>)
  {
    exists s, t :: IsSolutionOf(s, g) && IsSolutionOf(t, g) && s != t
  }

  /**
   * countSolutions(grid, limit).  The caller's grid is only read: the search
   * runs on a copy.
   */
  method CountSolutions(grid: array<int>, limit: nat) returns (count: nat, one: Option<seq<int>>)
    requires grid.Length == 81 && IsGrid(grid[..])
    ensures !ValidGrid(grid[..]) ==> count == 0 && one == None
    ensures count <= limit
    ensures one.Some? <==> count >= 1
    ensures one.Some? ==> IsSolutionOf(one.value, grid[..])
    ensures count == 0 && limit >= 1 ==> forall s :: !IsSolutionOf(s, grid[..])
    ensures count == 1 && limit >= 2 ==> UniquelySolvedBy(grid[..], one.value)
    ensures count >= 2 ==> Ambiguous(grid[..])
  {
    if !ValidGrid(grid[..]) {
      return 0, None;
    }
    var work := new int[81];
    forall k | 0 <= k < 81 {
      work[k] := grid[k];
    }
    assert work[..] == grid[..];
    var search := new Search(limit, grid[..]);
    search.Dfs(work);
    count, one := search.count, search.first;
    if count >= 2 {
      assert search.found[0] != search.found[1];
      assert IsSolutionOf(search.found[0], grid[..]) && IsSolutionOf(search.found[1], grid[..]);
    }
  }
}
