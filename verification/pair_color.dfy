/** The colour a pair of vertices is drawn in: a 32-bit string hash of the
    pair's canonical key picks the hue, the saturation and the lightness. */
module PairColor {
  import opened Strings

  const Two32: int := 0x1_0000_0000

  /** `ToInt32`: the value congruent to `x` modulo 2^32 in [-2^31, 2^31). */
  function ToInt32(x: int): (r: int)
    ensures -0x8000_0000 <= r < 0x8000_0000
    ensures (x - r) % Two32 == 0
  {
    var m := x % Two32;
    if m >= 0x8000_0000 then m - Two32 else m
  }

  /** Numbers congruent modulo 2^32 have the same 32-bit value. */
  lemma ToInt32Congruent(x: int, y: int)
    requires (x - y) % Two32 == 0
    ensures ToInt32(x) == ToInt32(y)
  {
    var k := (x - y) / Two32;
    assert x == y + k * Two32;
    assert x % Two32 == y % Two32;
  }

  /** `charCodeAt`: a character's code. */
  function Code(c: char): nat {
    c as nat
  }

  /** The value of `hash` after the loop has read all of `s`: each character
      folds in as `hash = (hash << 5) - hash + code`, truncated to 32 bits. */
  function Fold(s: string): (h: int)
    ensures -0x8000_0000 <= h < 0x8000_0000
  {
    if s == [] then 0 else ToInt32(31 * Fold(s[..|s| - 1]) + Code(s[|s| - 1]))
  }

  /** The polynomial the hash reduces: the sum of code(s[i]) * 31^(n-1-i). */
  function Poly(s: string): int {
    if s == [] then 0 else 31 * Poly(s[..|s| - 1]) + Code(s[|s| - 1])
  }

  /** The hash is the polynomial reduced to a signed 32-bit number. */
  lemma {:induction false} FoldPoly(s: string)
    ensures Fold(s) == ToInt32(Poly(s))
  {
    if s != [] {
      var p, c := s[..|s| - 1], Code(s[|s| - 1]);
      FoldPoly(p);
      var k := (Poly(p) - Fold(p)) / Two32;
      assert Poly(p) - Fold(p) == k * Two32;
      assert (31 * Poly(p) + c) - (31 * Fold(p) + c) == (31 * k) * Two32;
      ToInt32Congruent(31 * Poly(p) + c, 31 * Fold(p) + c);
    }
  }

  /** `Math.abs` of the folded hash. */
  function Hash(s: string): (h: nat)
    ensures h <= 0x8000_0000
    ensures s == [] ==> h == 0
  {
    var f := Fold(s);
    if f < 0 then -f else f
  }

  /** One step of the loop: `(hash << 5) - hash + code`, then `hash & hash`. */
  lemma StepFolds(hash: int, c: nat)
    ensures ToInt32(ToInt32(hash * 32) - hash + c) == ToInt32(31 * hash + c)
  {
    var k := (hash * 32 - ToInt32(hash * 32)) / Two32;
    assert hash * 32 - ToInt32(hash * 32) == k * Two32;
    assert (ToInt32(hash * 32) - hash + c) - (31 * hash + c) == (-k) * Two32;
    ToInt32Congruent(ToInt32(hash * 32) - hash + c, 31 * hash + c);
  }

  /** `hashString`. */
  method HashString(s: string) returns (h: nat)
    ensures h == Hash(s)
  {
    var hash := 0;
    for i := 0 to |s|
      invariant hash == Fold(s[..i])
    {
      StepFolds(hash, Code(s[i]));
      hash := ToInt32(ToInt32(hash * 32) - hash + Code(s[i]));
      assert s[..i + 1][..i] == s[..i];
    }
    assert s[..|s|] == s;
    h := if hash < 0 then -hash else hash;
  }

  /** The golden-ratio conjugate the hue is spread by. */
  const GoldenRatioConjugate: real := 0.618033988749895

  /** `Math.round(((hash * φ) % 1) * 360)`, in exact arithmetic. */
  function Hue(hash: nat): (hue: nat)
    ensures hue <= 360
  {
    var x := hash as real * GoldenRatioConjugate;
    var frac := x - x.Floor as real;
    var y := frac * 360.0;
    assert 0.0 <= y < 360.0;
    (y + 0.5).Floor
  }

  /** `{ h, s, l }`. */
  datatype Hsl = Hsl(h: nat, s: nat, l: nat)

  /** The CSS text `hsl(h, s%, l%)`. */
  function Css(c: Hsl): string {
    "hsl(" + NatToString(c.h) + ", " + NatToString(c.s) + "%, " + NatToString(c.l) + "%)"
  }

  /** The components `getPairColorHSL` computes from the pair's key. */
  function PairColorHsl(from: string, to: string): (c: Hsl)
    ensures 70 <= c.s < 90 && 50 <= c.l < 65
    ensures c.h <= 360
  {
    var hash := Hash(PairKey(from, to));
    Hsl(Hue(hash), 70 + hash % 20, 50 + hash % 15)
  }

  /** `getPairColor`. */
  function GetPairColor(from: string, to: string): (css: string)
    ensures css == Css(PairColorHsl(from, to))
  {
    var hash := Hash(PairKey(from, to));
    Css(Hsl(Hue(hash), 70 + hash % 20, 50 + hash % 15))
  }

  /** `getDimmedPairColor`: the pair's hue at 40% saturation and 35% lightness. */
  function GetDimmedPairColor(from: string, to: string): (css: string)
    ensures css == Css(Hsl(PairColorHsl(from, to).h, 40, 35))
  {
    var hash := Hash(PairKey(from, to));
    Css(Hsl(Hue(hash), 40, 35))
  }

  /** The colour of a pair does not depend on its orientation. */
  lemma PairColorSymmetric(a: string, b: string)
    ensures PairColorHsl(a, b) == PairColorHsl(b, a)
    ensures GetPairColor(a, b) == GetPairColor(b, a)
    ensures GetDimmedPairColor(a, b) == GetDimmedPairColor(b, a)
  {
    PairKeySymmetric(a, b);
  }
}
