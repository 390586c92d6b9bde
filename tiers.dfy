/**
 * The tier policy of the generator: which techniques a target allows, the
 * band of clue counts it aims for, and the symmetry that pairs removed
 * cells.
 */
module Tiers {
  import opened Wrappers
  import opened Human

  /**
   * The target option: a tier name, or an object with optional minClues,
   * maxClues and techniques fields.  A numeric field is modelled by its
   * integer value; None stands for a missing or non-numeric field.
   */
  datatype Target =
    | Named(name: string)
    | Custom(minClues: Option<int>, maxClues: Option<int>, techniques: Option<Techniques>)

  /** opts.target || 'medium': a missing or empty target is 'medium'. */
  function TargetOrMedium(target: Option<Target>): (t: Target)
    ensures t != Named("")
    ensures target.Some? && target.value != Named("") ==> t == target.value
  {
    if target.None? || target.value == Named("") then Named("medium") else target.value
  }

  const Easy := Techniques(true, true, false, false, false)
  const AllTechniques := Techniques(true, true, true, true, true)

  /** techniquesForTarget. */
  function TechniquesForTarget(target: Target): (tech: Techniques)
    ensures (tech.NS && tech.HS) || target.Custom?
    ensures !target.Custom? ==> (tech == Easy <==> target.name == "easy")
    ensures target.Named? && target.name != "easy" ==> tech == AllTechniques
    ensures target.Custom? && target.techniques.Some? ==> tech == target.techniques.value
    ensures target.Custom? && target.techniques.None? ==> tech == AllTechniques
  {
    match target
    case Custom(_, _, techniques) => if techniques.Some? then techniques.value else AllTechniques
    case Named(name) => if name == "easy" then Easy else AllTechniques
  }

  /** x | 0: the integer as a signed 32-bit value. */
  function ToInt32(x: int): (r: int)
    ensures -0x8000_0000 <= r < 0x8000_0000
    ensures (x - r) % 0x1_0000_0000 == 0
  {
    var m := x % 0x1_0000_0000;
    if m >= 0x8000_0000 then m - 0x1_0000_0000 else m
  }

  /** field | 0 || fallback: a missing field, or one that converts to 0, takes the fallback. */
  function FieldOr(field: Option<int>, fallback: int): (r: int)
    ensures r == fallback || (field.Some? && r == ToInt32(field.value) && r != 0)
  {
    var n := if field.Some? then ToInt32(field.value) else 0;
    if n == 0 then fallback else n
  }

  function Max(a: int, b: int): int { if a >= b then a else b }
  function Min(a: int, b: int): int { if a <= b then a else b }

  /** The (minClues, maxClues) band of a target. */
  function ClueBand(target: Target): (band: (int, int))
    ensures band.0 >= 17 && band.1 <= 81
    ensures target.Named? ==> band.0 < band.1
    ensures target == Named("easy") ==> band == (36, 46)
    ensures target == Named("hard") ==> band == (24, 32)
    ensures target.Named? && target.name != "easy" && target.name != "hard" ==> band == (30, 38)
    ensures target.Custom? ==> band.0 == Max(17, FieldOr(target.minClues, 28))
    ensures target.Custom? ==> band.1 == Min(81, FieldOr(target.maxClues, 40))
  {
    match target
    case Custom(lo, hi, _) => (Max(17, FieldOr(lo, 28)), Min(81, FieldOr(hi, 40)))
    case Named(name) =>
      if name == "easy" then (36, 46)
      else if name == "hard" then (24, 32)
      else (30, 38)
  }

  /** An object target without clue fields gets the band 28-40. */
  lemma CustomDefaultBand(tech: Option<Techniques>)
    ensures ClueBand(Custom(None, None, tech)) == (28, 40)
  {
  }

  /** symmetryMate(sym)(i), for a cell index i in 0-80. */
  function Mate(sym: string, i: nat): (j: nat)
    requires i < 81
    ensures j < 81
  {
    var r, c := i / 9, i % 9;
    if sym == "rotate" then (8 - r) * 9 + (8 - c)
    else if sym == "mirror" then r * 9 + (8 - c)
    else i
  }

  /** 'rotate' is the half turn i to 80 - i; 'mirror' keeps the row and reflects the column. */
  lemma MateShapes(sym: string, i: nat)
    requires i < 81
    ensures sym == "rotate" ==> Mate(sym, i) == 80 - i
    ensures sym == "mirror" ==> Mate(sym, i) / 9 == i / 9 && Mate(sym, i) % 9 == 8 - i % 9
    ensures sym != "rotate" && sym != "mirror" ==> Mate(sym, i) == i
  {
    var r, c := i / 9, i % 9;
    assert i == r * 9 + c;
    if sym == "mirror" {
      DivMod9(r, 8 - c);
    }
  }

  lemma DivMod9(r: int, c: int)
    requires 0 <= c < 9
    ensures (r * 9 + c) / 9 == r && (r * 9 + c) % 9 == c
  {
  }

  /** Every symmetry pairs cells: the mate of the mate is the cell itself. */
  lemma MateInvolution(sym: string, i: nat)
    requires i < 81
    ensures Mate(sym, Mate(sym, i)) == i
  {
    MateShapes(sym, i);
    var j := Mate(sym, i);
    MateShapes(sym, j);
    if sym == "mirror" {
      assert i == (i / 9) * 9 + i % 9;
      assert j == (j / 9) * 9 + j % 9;
    }
  }
}
