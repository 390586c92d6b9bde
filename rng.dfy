/**
 * mulberry32, the seeded 32-bit generator, and the Fisher-Yates shuffle
 * that consumes it.
 *
 * Every draw of the source is k / 2^32 for a 32-bit k, and every use is
 * floor(draw * n) for n <= 81, which is exact in double precision; the model
 * keeps k and computes that index on integers.
 */
module Random {

  const Increment: int := 0x6D2B79F5
  const TwoTo32: int := 0x1_0000_0000

  /** A 32-bit unsigned value, the form of the state and of every draw numerator. */
  type U32 = x: int | 0 <= x < 0x1_0000_0000

  /** The starting state: the seed as an unsigned 32-bit value, 0 replaced by 1. */
  function SeedState(seed: int): (t: U32)
    ensures t != 0
    ensures t == (if seed % TwoTo32 == 0 then 1 else seed % TwoTo32)
  {
    var u := seed % TwoTo32;
    if u == 0 then 1 else u
  }

  /** The state after one draw: t + 0x6D2B79F5 modulo 2^32. */
  function Step(t: U32): U32
  {
    (t + Increment) % TwoTo32
  }

  /** 2^n. */
  function Pow2(n: nat): (p: nat)
    ensures p >= 1
  {
    if n == 0 then 1 else 2 * Pow2(n - 1)
  }

  lemma Pow2Of32()
    ensures Pow2(32) == TwoTo32
  {
    assert Pow2(4) == 16;
    assert Pow2(8) == 256 by {
      assert Pow2(5) == 32; assert Pow2(6) == 64; assert Pow2(7) == 128;
    }
    assert Pow2(16) == 65536 by {
      assert Pow2(9) == 512; assert Pow2(10) == 1024; assert Pow2(11) == 2048; assert Pow2(12) == 4096;
      assert Pow2(13) == 8192; assert Pow2(14) == 16384; assert Pow2(15) == 32768;
    }
    assert Pow2(24) == 16777216 by {
      assert Pow2(17) == 131072; assert Pow2(18) == 262144; assert Pow2(19) == 524288; assert Pow2(20) == 1048576;
      assert Pow2(21) == 2097152; assert Pow2(22) == 4194304; assert Pow2(23) == 8388608;
    }
    assert Pow2(25) == 33554432; assert Pow2(26) == 67108864; assert Pow2(27) == 134217728; assert Pow2(28) == 268435456;
    assert Pow2(29) == 536870912; assert Pow2(30) == 1073741824; assert Pow2(31) == 2147483648;
  }

  /** Bitwise exclusive or, and inclusive or, of the low n bits. */
  function BitXor(a: nat, b: nat, n: nat): (r: nat)
    ensures r < Pow2(n)
  {
    if n == 0 then 0 else (a % 2 + b % 2) % 2 + 2 * BitXor(a / 2, b / 2, n - 1)
  }

  function BitOr(a: nat, b: nat, n: nat): (r: nat)
    ensures r < Pow2(n)
  {
    if n == 0 then 0 else (if a % 2 == 1 || b % 2 == 1 then 1 else 0) + 2 * BitOr(a / 2, b / 2, n - 1)
  }

  function Xor(a: U32, b: U32): U32
  {
    Pow2Of32();
    BitXor(a, b, 32)
  }

  function Or(a: U32, b: U32): U32
  {
    Pow2Of32();
    BitOr(a, b, 32)
  }

  /** Math.imul: the low 32 bits of the product. */
  function Imul(a: U32, b: U32): U32
  {
    Product(a, b) % TwoTo32
  }

  /**
   * a * b as b-fold addition: Product below proves it equal to the product,
   * and the recursion keeps the product of two unknowns out of every proof
   * that only passes draws along.
   */
  function Product(a: int, b: nat): int
    decreases b
  {
    if b == 0 then 0 else a + Product(a, b - 1)
  }

  lemma {:induction false} ProductIsMul(a: int, b: nat)
    ensures Product(a, b) == a * b
    decreases b
  {
    if b > 0 {
      ProductIsMul(a, b - 1);
    }
  }

  /** Imul is the product modulo 2^32. */
  lemma ImulIsProduct(a: U32, b: U32)
    ensures Imul(a, b) == (a * b) % TwoTo32
  {
    ProductIsMul(a, b);
  }

  /**
   * The numerator k of the draw made once the state has become t.  The
   * int32/uint32 conversions of the source reinterpret the same 32 bits, so
   * every value is kept as its unsigned reading; >>> n is division by 2^n and
   * the addition wraps modulo 2^32.
   */
  function Mix(t: U32): U32
  {
    var r := Imul(Xor(t, t / 0x8000), Or(1, t));
    var r' := Xor(r, (r + Imul(Xor(r, r / 0x80), Or(61, r))) % TwoTo32);
    Xor(r', r' / 0x4000)
  }

  /** The state after m draws from t. */
  function Advance(t: U32, m: nat): U32
  {
    if m == 0 then t else Step(Advance(t, m - 1))
  }

  /** floor((k / 2^32) * n): an index in [0, n). */
  function ScaleIndex(k: U32, n: nat): (j: nat)
    requires n >= 1
    ensures j < n
  {
    var kn := k * n;
    assert kn < TwoTo32 * n by {
      MulStrict(k, TwoTo32, n);
    }
    DivBelow(kn, TwoTo32, n);
    kn / TwoTo32
  }

  lemma MulStrict(a: int, b: int, n: int)
    requires 0 <= a < b && n >= 1
    ensures a * n < b * n
  {
  }

  lemma DivBelow(x: int, d: int, n: int)
    requires 0 <= x < d * n && d >= 1
    ensures x / d < n
  {
  }

  /** A seed whose unsigned value is 0 starts where seed 1 starts. */
  lemma {:induction false} ZeroSeedIsOne(seed: int)
    requires seed % TwoTo32 == 0
    ensures SeedState(seed) == SeedState(1)
  {
  }

  /** The generator state of one mulberry32 closure. */
  class Rng {
    var state: U32

    constructor (seed: int)
      ensures state == SeedState(seed)
    {
      state := SeedState(seed);
    }

    /** One call of the closure, returning the numerator k of k / 2^32. */
    method Next() returns (k: U32)
      modifies this
      ensures state == Step(old(state))
      ensures k == Mix(state)
    {
      state := Step(state);
      k := Mix(state);
    }

    /** Math.floor(rnd() * n). */
    method Below(n: nat) returns (j: nat)
      requires n >= 1
      modifies this
      ensures state == Step(old(state))
      ensures j < n && j == ScaleIndex(Mix(state), n)
    {
      var k := Next();
      j := ScaleIndex(k, n);
    }
  }

  /**
   * The indices shuffle draws from state t for positions i, i-1, ..., 1:
   * the k-th draw is at most i - k.
   */
  function Draws(t: U32, i: int): (js: seq<nat>)
    ensures |js| == if i <= 0 then 0 else i
    ensures forall k :: 0 <= k < |js| ==> js[k] <= i - k
    decreases i
  {
    if i <= 0 then [] else [ScaleIndex(Mix(Step(t)), i + 1)] + Draws(Step(t), i - 1)
  }

  /** The Fisher-Yates pass on a value: position i swaps with js[0], then i - 1 with js[1], and so on. */
  function ShuffleBy(s: seq<int>, js: seq<nat>, i: int): (r: seq<int>)
    requires i < |s| && |js| == (if i <= 0 then 0 else i)
    requires forall k :: 0 <= k < |js| ==> js[k] <= i - k
    ensures |r| == |s|
    decreases i
  {
    if i <= 0 then s
    else
      var j := js[0];
      ShuffleBy(s[i := s[j]][j := s[i]], js[1..], i - 1)
  }

  /** The pass only swaps, so it rearranges its input. */
  lemma {:induction false} ShuffleByPermutes(s: seq<int>, js: seq<nat>, i: int)
    requires i < |s| && |js| == (if i <= 0 then 0 else i)
    requires forall k :: 0 <= k < |js| ==> js[k] <= i - k
    ensures multiset(ShuffleBy(s, js, i)) == multiset(s)
    decreases i
  {
    if i > 0 {
      var j := js[0];
      var t := s[i := s[j]][j := s[i]];
      assert multiset(t) == multiset(s) by {
        SwapPermutes(s, i, j);
      }
      ShuffleByPermutes(t, js[1..], i - 1);
    }
  }

  lemma SwapPermutes(s: seq<int>, i: nat, j: nat)
    requires i < |s| && j < |s|
    ensures multiset(s[i := s[j]][j := s[i]]) == multiset(s)
  {
  }

  /** a is what shuffle makes of s when the generator starts in state t. */
  predicate ShuffleOf(a: seq<int>, s: seq<int>, t: U32)
  {
    a == ShuffleBy(s, Draws(t, |s| - 1), |s| - 1)
  }

  /** The number of draws shuffle takes on n elements. */
  function ShuffleDraws(n: int): nat
  {
    if n > 1 then n - 1 else 0
  }

  /** One more draw advances the state by one step. */
  lemma AdvanceNext(t0: U32, m: nat, t: U32, t': U32)
    requires t == Advance(t0, m) && t' == Step(t)
    ensures t' == Advance(t0, m + 1)
  {
  }

  /** shuffle: Fisher-Yates from the last position down, one draw per position above 0. */
  method Shuffle(a: array<int>, rnd: Rng)
    modifies a, rnd
    ensures ShuffleOf(a[..], old(a[..]), old(rnd.state))
    ensures multiset(a[..]) == old(multiset(a[..]))
    ensures rnd.state == Advance(old(rnd.state), ShuffleDraws(a.Length))
  {
    var i := a.Length - 1;
    ghost var n := 0;
    while i > 0
      invariant -1 <= i < a.Length && (a.Length > 0 ==> i >= 0)
      invariant ShuffleBy(a[..], Draws(rnd.state, i), i) == ShuffleBy(old(a[..]), Draws(old(rnd.state), a.Length - 1), a.Length - 1)
      invariant n == a.Length - 1 - i && rnd.state == Advance(old(rnd.state), n)
      invariant multiset(a[..]) == old(multiset(a[..]))
    {
      ghost var t1 := rnd.state;
      SwapWithDraw(a, rnd, i);
      AdvanceNext(old(rnd.state), n, t1, rnd.state);
      n, i := n + 1, i - 1;
    }
    assert n == ShuffleDraws(a.Length);
  }

  /** One turn of the shuffle loop: swap position i with a drawn index at most i. */
  method SwapWithDraw(a: array<int>, rnd: Rng, i: int)
    requires 0 < i < a.Length
    modifies a, rnd
    ensures rnd.state == Step(old(rnd.state))
    ensures ShuffleBy(a[..], Draws(rnd.state, i - 1), i - 1) == ShuffleBy(old(a[..]), Draws(old(rnd.state), i), i)
    ensures multiset(a[..]) == old(multiset(a[..]))
  {
    ghost var t := rnd.state;
    var j := rnd.Below(i + 1);
    Swap(a, i, j);
    assert Draws(t, i)[1..] == Draws(rnd.state, i - 1);
  }

  method Swap(a: array<int>, i: nat, j: nat)
    requires i < a.Length && j < a.Length
    modifies a
    ensures a[..] == old(a[..])[i := old(a[j])][j := old(a[i])]
    ensures multiset(a[..]) == old(multiset(a[..]))
  {
    a[i], a[j] := a[j], a[i];
  }
}
