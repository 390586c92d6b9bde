/** The 81-character string form of a grid (to81 / from81). */
module Codec {
  import opened Grid

  function DigitChar(v: int): char
    requires 0 <= v <= 9
  {
    ('0' as int + v) as char
  }

  /**
   * The value from81 stores for one character.  '1'-'9' become their digit;
   * '0', '.' and every other character become a blank: JavaScript's `+ch`
   * gives 0 or NaN for them, and every consumer treats 0 and NaN alike.
   */
  function CharValue(ch: char): int
  {
    if '1' <= ch <= '9' then ch as int - '0' as int else 0
  }

  predicate IsDigitString(s: string, lo: char)
  {
    |s| == 81 && forall i :: 0 <= i < 81 ==> lo <= s[i] <= '9'
  }

  /** to81: the digits of the grid in row-major order. */
  function To81(g: seq<int>): (s: string)
    requires IsGrid(g)
    ensures IsDigitString(s, '0')
    ensures forall i :: 0 <= i < 81 ==> (s[i] == '0' <==> g[i] == 0)
  {
    seq(81, i requires 0 <= i < 81 => DigitChar(g[i]))
  }

  /** from81: a grid read from a string; positions past its end are blank. */
  function From81(s: string): (g: seq<int>)
    ensures IsGrid(g)
    ensures forall i :: 0 <= i < 81 ==> (g[i] == 0 <==> i >= |s| || !('1' <= s[i] <= '9'))
  {
    seq(81, i requires 0 <= i < 81 => if i < |s| then CharValue(s[i]) else 0)
  }

  lemma {:induction false} From81To81(g: seq<int>)
    requires IsGrid(g)
    ensures From81(To81(g)) == g
  {
    var h := From81(To81(g));
    forall i | 0 <= i < 81 ensures h[i] == g[i] {
      assert To81(g)[i] == DigitChar(g[i]);
    }
  }

  lemma {:induction false} To81From81(s: string)
    requires IsDigitString(s, '0')
    ensures To81(From81(s)) == s
  {
    var t := To81(From81(s));
    forall i | 0 <= i < 81 ensures t[i] == s[i] {
      assert From81(s)[i] == CharValue(s[i]);
    }
  }
}
