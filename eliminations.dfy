/**
 * The elimination routines of humanSolve: naked pairs, the source's
 * hidden-pair lock, and pointing/claiming.  Each deletes digits from the
 * candidate sets of one pass in place and reports whether it deleted
 * anything.
 *
 * The candidate grid is an array of 81 sets indexed like the grid.  The
 * grid g itself is read-only here.  What humanSolve uses is the report:
 * each routine is proved to report `true` exactly when some step of it,
 * evaluated on the candidate sets it was given, would delete a digit.  The
 * first deletion is always made on unmodified sets, so the report does not
 * depend on the order in which the steps run.
 */
module Eliminations {
  import opened Grid

  /** Every candidate set of C' is a subset of the same cell's set in C. */
  predicate Shrinks(C': seq<set<int>>, C: seq<set<int>>)
  {
    |C'| == |C| && forall i :: 0 <= i < |C| ==> C'[i] <= C[i]
  }

  /** The positions k, in increasing order, of the blank cells of unit u whose candidates hold v (see PositionsSpec). */
  function Positions(g: seq<int>, C: seq<set<int>>, u: nat, v: int): (ps: seq<nat>)
    requires |g| == 81 && |C| == 81 && u < 27
    ensures forall a :: 0 <= a < |ps| ==> ps[a] < 9
  {
    var vals := UnitNums(g, u);
    Holders(vals, UnitNums(C, u), v, |vals|)
  }

  /** The positions below n whose value is 0 and whose set holds v. */
  function Holders(vals: seq<int>, cs: seq<set<int>>, v: int, n: nat): (ps: seq<nat>)
    requires |vals| == 9 && |cs| == 9 && n <= 9
    ensures forall a :: 0 <= a < |ps| ==> ps[a] < n
  {
    if n == 0 then []
    else Holders(vals, cs, v, n - 1) + (if vals[n - 1] == 0 && v in cs[n - 1] then [n - 1] else [])
  }

  /** ps lists, in increasing order, the positions below n whose value is 0 and whose set holds v. */
  predicate ListsHolders(vals: seq<int>, cs: seq<set<int>>, v: int, n: nat, ps: seq<nat>)
    requires |vals| == 9 && |cs| == 9 && n <= 9
  {
    (forall a :: 0 <= a < |ps| ==> ps[a] < n && vals[ps[a]] == 0 && v in cs[ps[a]]) &&
    (forall j :: 0 <= j < n && vals[j] == 0 && v in cs[j] ==> j in ps) &&
    (forall a, b :: 0 <= a < b < |ps| ==> ps[a] < ps[b])
  }

  lemma {:induction false} HoldersSpec(vals: seq<int>, cs: seq<set<int>>, v: int, n: nat)
    requires |vals| == 9 && |cs| == 9 && n <= 9
    ensures ListsHolders(vals, cs, v, n, Holders(vals, cs, v, n))
  {
    if n > 0 {
      HoldersSpec(vals, cs, v, n - 1);
    }
  }

  /** Positions lists exactly the blank cells of the unit holding v, each once, in scan order. */
  lemma PositionsSpec(g: seq<int>, C: seq<set<int>>, u: nat, v: int)
    requires |g| == 81 && |C| == 81 && u < 27
    ensures var ps := Positions(g, C, u, v);
      (forall a :: 0 <= a < |ps| ==> g[Cell(u, ps[a])] == 0 && v in C[Cell(u, ps[a])]) &&
      (forall k :: 0 <= k < 9 && g[Cell(u, k)] == 0 && v in C[Cell(u, k)] ==> k in ps) &&
      (forall a, b :: 0 <= a < b < |ps| ==> ps[a] < ps[b])
  {
    var vals := UnitNums(g, u);
    HoldersSpec(vals, UnitNums(C, u), v, |vals|);
  }

  // ---------------------------------------------------------------- deleting from one unit

  /** Deleting D from position k of unit u removes something: k is not skipped, its cell is blank and meets D. */
  predicate Hits(g: seq<int>, C: seq<set<int>>, u: nat, D: set<int>, skip: set<nat>, k: nat)
    requires |g| == 81 && |C| == 81 && u < 27
  {
    k < 9 && k !in skip && g[Cell(u, k)] == 0 && !(C[Cell(u, k)] !! D)
  }

  predicate HitsAny(g: seq<int>, C: seq<set<int>>, u: nat, D: set<int>, skip: set<nat>)
    requires |g| == 81 && |C| == 81 && u < 27
  {
    exists k: nat :: k < 9 && Hits(g, C, u, D, skip, k)
  }

  /** Deletes the digits D from every blank cell of unit u outside the positions skip. */
  method RemoveFromUnit(g: seq<int>, cand: array<set<int>>, u: nat, D: set<int>, skip: set<nat>) returns (did: bool)
    requires |g| == 81 && cand.Length == 81 && u < 27
    modifies cand
    ensures Shrinks(cand[..], old(cand[..]))
    ensures did <==> HitsAny(g, old(cand[..]), u, D, skip)
    ensures !did ==> cand[..] == old(cand[..])
  {
    ghost var C0 := cand[..];
    did := false;
    var k := 0;
    while k < 9
      invariant k <= 9
      invariant Shrinks(cand[..], C0)
      invariant did <==> exists k': nat :: k' < k && Hits(g, C0, u, D, skip, k')
      invariant !did ==> cand[..] == C0
    {
      var i := Cell(u, k);
      if k !in skip && g[i] == 0 && !(cand[i] !! D) {
        assert !did ==> Hits(g, C0, u, D, skip, k);
        cand[i] := cand[i] - D;
        did := true;
      } else {
        assert !did ==> !Hits(g, C0, u, D, skip, k);
      }
      k := k + 1;
    }
  }

  // ---------------------------------------------------------------- naked pairs

  /**
   * Positions k1 < k2 of unit u hold a naked pair: two blank cells with the
   * same two candidates.  The source compares the two sets listed in
   * insertion order, which for candidate sets is increasing order, so the
   * comparison is set equality.
   */
  predicate NakedPairAt(g: seq<int>, C: seq<set<int>>, u: nat, k1: nat, k2: nat)
    requires |g| == 81 && |C| == 81 && u < 27
  {
    k1 < k2 < 9 && g[Cell(u, k1)] == 0 && g[Cell(u, k2)] == 0 &&
    |C[Cell(u, k1)]| == 2 && C[Cell(u, k1)] == C[Cell(u, k2)]
  }

  /** The naked pair at k1, k2 deletes something from another blank cell of the unit. */
  predicate NakedPairStrikes(g: seq<int>, C: seq<set<int>>, u: nat, k1: nat, k2: nat)
    requires |g| == 81 && |C| == 81 && u < 27
  {
    NakedPairAt(g, C, u, k1, k2) && HitsAny(g, C, u, C[Cell(u, k1)], {k1, k2})
  }

  predicate NakedPairsFire(g: seq<int>, C: seq<set<int>>)
    requires |g| == 81 && |C| == 81
  {
    exists u: nat, k1: nat, k2: nat :: u < 27 && k1 < 9 && k2 < 9 && NakedPairStrikes(g, C, u, k1, k2)
  }

  /** elimNakedPairs: rows, then columns, then boxes. */
  method NakedPairs(g: seq<int>, cand: array<set<int>>) returns (did: bool)
    requires |g| == 81 && cand.Length == 81
    modifies cand
    ensures Shrinks(cand[..], old(cand[..]))
    ensures did <==> NakedPairsFire(g, old(cand[..]))
    ensures !did ==> cand[..] == old(cand[..])
  {
    ghost var C0 := cand[..];
    did := false;
    var u := 0;
    while u < 27
      invariant u <= 27
      invariant Shrinks(cand[..], C0)
      invariant did <==> exists u': nat, k1: nat, k2: nat :: u' < u && NakedPairStrikes(g, C0, u', k1, k2)
      invariant !did ==> cand[..] == C0
    {
      ghost var before := cand[..];
      var d := NakedPairsInUnit(g, cand, u);
      if !did { assert before == C0; }
      did := d || did;
      u := u + 1;
    }
  }

  method NakedPairsInUnit(g: seq<int>, cand: array<set<int>>, u: nat) returns (did: bool)
    requires |g| == 81 && cand.Length == 81 && u < 27
    modifies cand
    ensures Shrinks(cand[..], old(cand[..]))
    ensures did <==> exists k1: nat, k2: nat :: NakedPairStrikes(g, old(cand[..]), u, k1, k2)
    ensures !did ==> cand[..] == old(cand[..])
  {
    ghost var C0 := cand[..];
    did := false;
    var k1 := 0;
    while k1 < 9
      invariant k1 <= 9
      invariant Shrinks(cand[..], C0)
      invariant did <==> exists k: nat, k2: nat :: k < k1 && NakedPairStrikes(g, C0, u, k, k2)
      invariant !did ==> cand[..] == C0
    {
      ghost var before := cand[..];
      var d := PairsWith(g, cand, u, k1);
      if !did { assert before == C0; }
      did := d || did;
      k1 := k1 + 1;
    }
  }

  /** The pairs (k1, k2) for every later position k2. */
  method PairsWith(g: seq<int>, cand: array<set<int>>, u: nat, k1: nat) returns (did: bool)
    requires |g| == 81 && cand.Length == 81 && u < 27 && k1 < 9
    modifies cand
    ensures Shrinks(cand[..], old(cand[..]))
    ensures did <==> exists k2: nat :: NakedPairStrikes(g, old(cand[..]), u, k1, k2)
    ensures !did ==> cand[..] == old(cand[..])
  {
    ghost var C0 := cand[..];
    did := false;
    var k2 := k1 + 1;
    while k2 < 9
      invariant k1 < k2 <= 9
      invariant Shrinks(cand[..], C0)
      invariant did <==> exists k: nat :: k < k2 && NakedPairStrikes(g, C0, u, k1, k)
      invariant !did ==> cand[..] == C0
    {
      var a, b := Cell(u, k1), Cell(u, k2);
      if g[a] == 0 && g[b] == 0 && |cand[a]| == 2 && cand[a] == cand[b] {
        ghost var before := cand[..];
        var d := RemoveFromUnit(g, cand, u, cand[a], {k1, k2});
        assert d <==> NakedPairStrikes(g, before, u, k1, k2);
        did := d || did;
      }
      k2 := k2 + 1;
    }
  }

  // ---------------------------------------------------------------- the hidden-pair lock

  /**
   * Locking the cells a, b to {v, w} changes them: w is another digit both
   * cells hold, and one of them holds a third digit.
   */
  predicate LockChanges(C: seq<set<int>>, v: int, w: int, a: nat, b: nat)
    requires |C| == 81 && a < 81 && b < 81
  {
    1 <= w <= 9 && w != v && w in C[a] && w in C[b] && !(C[a] <= {v, w} && C[b] <= {v, w})
  }

  /**
   * The source's hidden-pair rule: v has exactly two positions in unit u,
   * and every other digit w that both those cells hold locks them to
   * {v, w}.  Nothing requires w to have only those two positions.
   */
  predicate HiddenPairStrikes(g: seq<int>, C: seq<set<int>>, u: nat, v: int, w: int)
    requires |g| == 81 && |C| == 81 && u < 27
  {
    1 <= v <= 9 &&
    var ps := Positions(g, C, u, v);
    |ps| == 2 && LockChanges(C, v, w, Cell(u, ps[0]), Cell(u, ps[1]))
  }

  /** The digit v of unit u locks its two cells with some w, changing them. */
  predicate HiddenPairFor(g: seq<int>, C: seq<set<int>>, u: nat, v: int)
    requires |g| == 81 && |C| == 81 && u < 27
  {
    exists w: int :: 1 <= w <= 9 && HiddenPairStrikes(g, C, u, v, w)
  }

  predicate HiddenPairIn(g: seq<int>, C: seq<set<int>>, u: nat)
    requires |g| == 81 && |C| == 81 && u < 27
  {
    exists v: int :: 1 <= v <= 9 && HiddenPairFor(g, C, u, v)
  }

  predicate HiddenPairsFire(g: seq<int>, C: seq<set<int>>)
    requires |g| == 81 && |C| == 81
  {
    exists u: nat :: u < 27 && HiddenPairIn(g, C, u)
  }

  /** placeHiddenPairs: rows, then columns, then boxes. */
  method HiddenPairs(g: seq<int>, cand: array<set<int>>) returns (did: bool)
    requires |g| == 81 && cand.Length == 81
    modifies cand
    ensures Shrinks(cand[..], old(cand[..]))
    ensures did <==> HiddenPairsFire(g, old(cand[..]))
    ensures !did ==> cand[..] == old(cand[..])
  {
    ghost var C0 := cand[..];
    did := false;
    var u := 0;
    while u < 27
      invariant u <= 27
      invariant Shrinks(cand[..], C0)
      invariant did <==> exists u': nat :: u' < u && HiddenPairIn(g, C0, u')
      invariant !did ==> cand[..] == C0
    {
      ghost var before := cand[..];
      var d := HiddenPairsInUnit(g, cand, u);
      if !did { assert before == C0; }
      did := d || did;
      u := u + 1;
    }
  }

  /** unitHiddenPairs: the table of positions is built once, before any lock in the unit. */
  method HiddenPairsInUnit(g: seq<int>, cand: array<set<int>>, u: nat) returns (did: bool)
    requires |g| == 81 && cand.Length == 81 && u < 27
    modifies cand
    ensures Shrinks(cand[..], old(cand[..]))
    ensures did <==> HiddenPairIn(g, old(cand[..]), u)
    ensures !did ==> cand[..] == old(cand[..])
  {
    ghost var C0 := cand[..];
    var table := cand[..];
    did := false;
    var v := 1;
    while v <= 9
      invariant 1 <= v <= 10
      invariant Shrinks(cand[..], C0)
      invariant did <==> exists v': int :: 1 <= v' < v && HiddenPairFor(g, C0, u, v')
      invariant !did ==> cand[..] == C0
    {
      var ps := Positions(g, table, u, v);
      if |ps| == 2 {
        PositionsSpec(g, table, u, v);
        CellInjective(u, ps[0], ps[1]);
        ghost var before := cand[..];
        var d := LockPair(cand, v, Cell(u, ps[0]), Cell(u, ps[1]));
        if !did {
          assert before == C0;
          HiddenPairForTwo(g, C0, u, v, ps);
        }
        did := d || did;
      }
      v := v + 1;
    }
  }

  /** When v has two positions in the unit, the rule fires for v exactly when locking those two cells changes them. */
  lemma HiddenPairForTwo(g: seq<int>, C: seq<set<int>>, u: nat, v: int, ps: seq<nat>)
    requires |g| == 81 && |C| == 81 && u < 27 && 1 <= v <= 9
    requires ps == Positions(g, C, u, v) && |ps| == 2
    ensures HiddenPairFor(g, C, u, v) <==> exists w: int :: LockChanges(C, v, w, Cell(u, ps[0]), Cell(u, ps[1]))
  {
    var a, b := Cell(u, ps[0]), Cell(u, ps[1]);
    if HiddenPairFor(g, C, u, v) {
      var w :| 1 <= w <= 9 && HiddenPairStrikes(g, C, u, v, w);
      assert LockChanges(C, v, w, a, b);
    }
    if exists w: int :: LockChanges(C, v, w, a, b) {
      var w :| LockChanges(C, v, w, a, b);
      assert HiddenPairStrikes(g, C, u, v, w);
    }
  }

  /** For each digit w != v held by both cells, removes from both every digit other than v and w. */
  method LockPair(cand: array<set<int>>, v: int, a: nat, b: nat) returns (did: bool)
    requires cand.Length == 81 && a < 81 && b < 81 && a != b
    modifies cand
    ensures Shrinks(cand[..], old(cand[..]))
    ensures did <==> exists w: int :: LockChanges(old(cand[..]), v, w, a, b)
    ensures !did ==> cand[..] == old(cand[..])
  {
    ghost var C0 := cand[..];
    did := false;
    var w := 1;
    while w <= 9
      invariant 1 <= w <= 10
      invariant Shrinks(cand[..], C0)
      invariant did <==> exists w': int :: w' < w && LockChanges(C0, v, w', a, b)
      invariant !did ==> cand[..] == C0
    {
      if w != v && w in cand[a] && w in cand[b] {
        ghost var before := cand[..];
        var setA, setB := cand[a], cand[b];
        LockSize(setA, {v, w});
        LockSize(setB, {v, w});
        cand[a] := setA * {v, w};
        cand[b] := setB * {v, w};
        if |cand[a]| != |setA| || |cand[b]| != |setB| {
          assert !did ==> LockChanges(C0, v, w, a, b);
          did := true;
        } else {
          assert cand[..] == before;
          assert !did ==> !LockChanges(C0, v, w, a, b);
        }
      } else {
        assert !did ==> !LockChanges(C0, v, w, a, b);
      }
      w := w + 1;
    }
  }

  /** Intersecting with L keeps the size of X exactly when X lies inside L. */
  lemma LockSize(X: set<int>, L: set<int>)
    ensures |X * L| == |X| <==> X <= L
    ensures X <= L ==> X * L == X
  {
    if X <= L {
      assert X * L == X;
    }
    assert X == (X * L) + (X - L);
    assert |X| == |X * L| + |X - L|;
    if |X * L| == |X| {
      assert X - L == {};
      forall x | x in X
        ensures x in L
      {
        assert x !in X - L;
      }
    }
  }

  // ---------------------------------------------------------------- pointing and claiming

  /** The three positions 3x, 3x + 1, 3x + 2, and the three positions x, x + 3, x + 6. */
  function Band(x: nat): set<nat> { {3 * x, 3 * x + 1, 3 * x + 2} }
  function Stripe(x: nat): set<nat> { {x, x + 3, x + 6} }

  /** All positions share one third of the unit (one row of a box, or one box of a line). */
  predicate SameThird(ps: seq<nat>)
    requires |ps| > 0
  {
    forall x :: x in ps ==> x / 3 == ps[0] / 3
  }

  /** All box positions share one column of the box. */
  predicate SameColumn(ps: seq<nat>)
    requires |ps| > 0
  {
    forall x :: x in ps ==> x % 3 == ps[0] % 3
  }

  /**
   * Pointing from box b: at least two cells of the box hold v and they all
   * lie in one row (or one column); v is then deleted from that line
   * outside the box.
   */
  predicate PointingFires(g: seq<int>, C: seq<set<int>>, b: nat, v: int)
    requires |g| == 81 && |C| == 81 && b < 9
  {
    var ps := Positions(g, C, 18 + b, v);
    |ps| >= 2 &&
    ((SameThird(ps) && HitsAny(g, C, (b / 3) * 3 + ps[0] / 3, {v}, Band(b % 3))) ||
     (SameColumn(ps) && HitsAny(g, C, 9 + (b % 3) * 3 + ps[0] % 3, {v}, Band(b / 3))))
  }

  /** Claiming from row r: its cells holding v all lie in one box; v is deleted from that box's other rows. */
  predicate ClaimRowFires(g: seq<int>, C: seq<set<int>>, r: nat, v: int)
    requires |g| == 81 && |C| == 81 && r < 9
  {
    var ps := Positions(g, C, r, v);
    |ps| >= 2 && SameThird(ps) && HitsAny(g, C, 18 + (r / 3) * 3 + ps[0] / 3, {v}, Band(r % 3))
  }

  /** Claiming from column c: as for rows, deleting from the box's other columns. */
  predicate ClaimColFires(g: seq<int>, C: seq<set<int>>, c: nat, v: int)
    requires |g| == 81 && |C| == 81 && c < 9
  {
    var ps := Positions(g, C, 9 + c, v);
    |ps| >= 2 && SameThird(ps) && HitsAny(g, C, 18 + (ps[0] / 3) * 3 + c / 3, {v}, Stripe(c % 3))
  }

  predicate PointingClaimingFire(g: seq<int>, C: seq<set<int>>)
    requires |g| == 81 && |C| == 81
  {
    (exists b: nat, v: int :: b < 9 && 1 <= v <= 9 && PointingFires(g, C, b, v)) ||
    (exists r: nat, v: int :: r < 9 && 1 <= v <= 9 && ClaimRowFires(g, C, r, v)) ||
    (exists c: nat, v: int :: c < 9 && 1 <= v <= 9 && ClaimColFires(g, C, c, v))
  }

  /** pointingClaiming: pointing from every box, then claiming from rows, then from columns. */
  method PointingClaiming(g: seq<int>, cand: array<set<int>>) returns (did: bool)
    requires |g| == 81 && cand.Length == 81
    modifies cand
    ensures Shrinks(cand[..], old(cand[..]))
    ensures did <==> PointingClaimingFire(g, old(cand[..]))
    ensures !did ==> cand[..] == old(cand[..])
  {
    ghost var C0 := cand[..];
    var d1 := Pointing(g, cand);
    ghost var C1 := cand[..];
    var d2 := ClaimRows(g, cand);
    ghost var C2 := cand[..];
    var d3 := ClaimCols(g, cand);
    did := d1 || d2 || d3;
    if !d1 {
      assert C1 == C0;
      if !d2 {
        assert C2 == C0;
      }
    }
  }

  method Pointing(g: seq<int>, cand: array<set<int>>) returns (did: bool)
    requires |g| == 81 && cand.Length == 81
    modifies cand
    ensures Shrinks(cand[..], old(cand[..]))
    ensures did <==> exists b: nat, v: int :: b < 9 && 1 <= v <= 9 && PointingFires(g, old(cand[..]), b, v)
    ensures !did ==> cand[..] == old(cand[..])
  {
    ghost var C0 := cand[..];
    did := false;
    var b := 0;
    while b < 9
      invariant b <= 9
      invariant Shrinks(cand[..], C0)
      invariant did <==> exists b': nat, v: int :: b' < b && 1 <= v <= 9 && PointingFires(g, C0, b', v)
      invariant !did ==> cand[..] == C0
    {
      var d := PointingInBox(g, cand, b);
      did := d || did;
      b := b + 1;
    }
  }

  method PointingInBox(g: seq<int>, cand: array<set<int>>, b: nat) returns (did: bool)
    requires |g| == 81 && cand.Length == 81 && b < 9
    modifies cand
    ensures Shrinks(cand[..], old(cand[..]))
    ensures did <==> exists v: int :: 1 <= v <= 9 && PointingFires(g, old(cand[..]), b, v)
    ensures !did ==> cand[..] == old(cand[..])
  {
    ghost var C0 := cand[..];
    did := false;
    var v := 1;
    while v <= 9
      invariant 1 <= v <= 10
      invariant Shrinks(cand[..], C0)
      invariant did <==> exists v': int :: 1 <= v' < v && PointingFires(g, C0, b, v')
      invariant !did ==> cand[..] == C0
    {
      var d := PointingStep(g, cand, b, v);
      did := d || did;
      v := v + 1;
    }
  }

  /** One box and digit: the row and column tests both use the positions found before any deletion. */
  method PointingStep(g: seq<int>, cand: array<set<int>>, b: nat, v: int) returns (did: bool)
    requires |g| == 81 && cand.Length == 81 && b < 9
    modifies cand
    ensures Shrinks(cand[..], old(cand[..]))
    ensures did <==> PointingFires(g, old(cand[..]), b, v)
    ensures !did ==> cand[..] == old(cand[..])
  {
    var ps := Positions(g, cand[..], 18 + b, v);
    did := false;
    if |ps| >= 2 {
      if SameThird(ps) {
        did := RemoveFromUnit(g, cand, (b / 3) * 3 + ps[0] / 3, {v}, Band(b % 3));
      }
      if SameColumn(ps) {
        var d := RemoveFromUnit(g, cand, 9 + (b % 3) * 3 + ps[0] % 3, {v}, Band(b / 3));
        did := d || did;
      }
    }
  }

  method ClaimRows(g: seq<int>, cand: array<set<int>>) returns (did: bool)
    requires |g| == 81 && cand.Length == 81
    modifies cand
    ensures Shrinks(cand[..], old(cand[..]))
    ensures did <==> exists r: nat, v: int :: r < 9 && 1 <= v <= 9 && ClaimRowFires(g, old(cand[..]), r, v)
    ensures !did ==> cand[..] == old(cand[..])
  {
    ghost var C0 := cand[..];
    did := false;
    var r := 0;
    while r < 9
      invariant r <= 9
      invariant Shrinks(cand[..], C0)
      invariant did <==> exists r': nat, v: int :: r' < r && 1 <= v <= 9 && ClaimRowFires(g, C0, r', v)
      invariant !did ==> cand[..] == C0
    {
      var d := ClaimRow(g, cand, r);
      did := d || did;
      r := r + 1;
    }
  }

  method ClaimRow(g: seq<int>, cand: array<set<int>>, r: nat) returns (did: bool)
    requires |g| == 81 && cand.Length == 81 && r < 9
    modifies cand
    ensures Shrinks(cand[..], old(cand[..]))
    ensures did <==> exists v: int :: 1 <= v <= 9 && ClaimRowFires(g, old(cand[..]), r, v)
    ensures !did ==> cand[..] == old(cand[..])
  {
    ghost var C0 := cand[..];
    did := false;
    var v := 1;
    while v <= 9
      invariant 1 <= v <= 10
      invariant Shrinks(cand[..], C0)
      invariant did <==> exists v': int :: 1 <= v' < v && ClaimRowFires(g, C0, r, v')
      invariant !did ==> cand[..] == C0
    {
      var ps := Positions(g, cand[..], r, v);
      if |ps| >= 2 && SameThird(ps) {
        ghost var before := cand[..];
        var d := RemoveFromUnit(g, cand, 18 + (r / 3) * 3 + ps[0] / 3, {v}, Band(r % 3));
        assert d <==> ClaimRowFires(g, before, r, v);
        if !did { assert before == C0; }
        did := d || did;
      } else {
        assert !ClaimRowFires(g, cand[..], r, v);
      }
      v := v + 1;
    }
  }

  method ClaimCols(g: seq<int>, cand: array<set<int>>) returns (did: bool)
    requires |g| == 81 && cand.Length == 81
    modifies cand
    ensures Shrinks(cand[..], old(cand[..]))
    ensures did <==> exists c: nat, v: int :: c < 9 && 1 <= v <= 9 && ClaimColFires(g, old(cand[..]), c, v)
    ensures !did ==> cand[..] == old(cand[..])
  {
    ghost var C0 := cand[..];
    did := false;
    var c := 0;
    while c < 9
      invariant c <= 9
      invariant Shrinks(cand[..], C0)
      invariant did <==> exists c': nat, v: int :: c' < c && 1 <= v <= 9 && ClaimColFires(g, C0, c', v)
      invariant !did ==> cand[..] == C0
    {
      var d := ClaimCol(g, cand, c);
      did := d || did;
      c := c + 1;
    }
  }

  method ClaimCol(g: seq<int>, cand: array<set<int>>, c: nat) returns (did: bool)
    requires |g| == 81 && cand.Length == 81 && c < 9
    modifies cand
    ensures Shrinks(cand[..], old(cand[..]))
    ensures did <==> exists v: int :: 1 <= v <= 9 && ClaimColFires(g, old(cand[..]), c, v)
    ensures !did ==> cand[..] == old(cand[..])
  {
    ghost var C0 := cand[..];
    did := false;
    var v := 1;
    while v <= 9
      invariant 1 <= v <= 10
      invariant Shrinks(cand[..], C0)
      invariant did <==> exists v': int :: 1 <= v' < v && ClaimColFires(g, C0, c, v')
      invariant !did ==> cand[..] == C0
    {
      var ps := Positions(g, cand[..], 9 + c, v);
      if |ps| >= 2 && SameThird(ps) {
        ghost var before := cand[..];
        var d := RemoveFromUnit(g, cand, 18 + (ps[0] / 3) * 3 + c / 3, {v}, Stripe(c % 3));
        assert d <==> ClaimColFires(g, before, c, v);
        if !did { assert before == C0; }
        did := d || did;
      } else {
        assert !ClaimColFires(g, cand[..], c, v);
      }
      v := v + 1;
    }
  }
}
