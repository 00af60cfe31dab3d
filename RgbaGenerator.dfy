/** `get_rgba_gen` and `get_nth_rgba_vec` of
    project/generators/rgba_generator.py: the vectors (r, g, b, 2a) for
    r, g, b in 0..255 and a in 0..49, red varying slowest and alpha
    fastest, and the lookup of the n-th one by walking the enumeration. */
module RgbaGenerator {
  import opened Wrappers

  datatype Rgba = Rgba(r: int, g: int, b: int, a: int)

  const Levels := 256
  const Alphas := 50
  /** The number of vectors the generator yields: 256 * 256 * 256 * 50. */
  const Total := Levels * Levels * Levels * Alphas

  /** The position in the enumeration of the vector with colour levels
      (r, g, b) and alpha index `a`. */
  function Index(r: int, g: int, b: int, a: int): int
  {
    ((r * Levels + g) * Levels + b) * Alphas + a
  }

  /** Levels and alpha index that the enumeration reaches. */
  predicate InRange(r: int, g: int, b: int, a: int)
  {
    0 <= r < Levels && 0 <= g < Levels && 0 <= b < Levels && 0 <= a < Alphas
  }

  /** Element `i` of `get_rgba_gen()`, read off the mixed-radix digits of
      `i`. */
  function Element(i: nat): (v: Rgba)
    requires i < Total
    ensures InRange(v.r, v.g, v.b, v.a / 2) && v.a % 2 == 0
    ensures Index(v.r, v.g, v.b, v.a / 2) == i
  {
    var a := i % Alphas;
    var b := (i / Alphas) % Levels;
    var g := (i / Alphas / Levels) % Levels;
    var r := i / Alphas / Levels / Levels;
    DigitsRecompose(i);
    Rgba(r, g, b, 2 * a)
  }

  /** Splitting a position into its digits and recomposing them gives it
      back. */
  lemma DigitsRecompose(i: nat)
    requires i < Total
    ensures var a := i % Alphas;
      var b := (i / Alphas) % Levels;
      var g := (i / Alphas / Levels) % Levels;
      var r := i / Alphas / Levels / Levels;
      InRange(r, g, b, a) && Index(r, g, b, a) == i
  {
    var q1 := i / Alphas;
    var q2 := q1 / Levels;
    var r := q2 / Levels;
    assert i == q1 * Alphas + i % Alphas;
    assert q1 == q2 * Levels + q1 % Levels;
    assert q2 == r * Levels + q2 % Levels;
    assert q1 < Levels * Levels * Levels;
    assert q2 < Levels * Levels;
  }

  /** Division by a positive divisor is unique: `q * d + rem` with
      `0 <= rem < d` has quotient `q` and remainder `rem`. */
  lemma DivModOf(q: int, d: int, rem: int)
    requires d > 0 && 0 <= rem < d
    ensures (q * d + rem) / d == q && (q * d + rem) % d == rem
  {
    var x := q * d + rem;
    var k := x / d - q;
    assert k * d == rem - x % d by {
      assert x == (x / d) * d + x % d;
      assert (x / d) * d == (q + k) * d == q * d + k * d;
    }
  }

  /** Reading the digits of the position of an in-range vector gives that
      vector back: positions and vectors correspond one to one. */
  lemma ElementOfIndex(r: int, g: int, b: int, a: int)
    requires InRange(r, g, b, a)
    ensures 0 <= Index(r, g, b, a) < Total
    ensures Element(Index(r, g, b, a)) == Rgba(r, g, b, 2 * a)
  {
    var i := Index(r, g, b, a);
    var q1 := (r * Levels + g) * Levels + b;
    var q2 := r * Levels + g;
    DivModOf(q1, Alphas, a);
    DivModOf(q2, Levels, b);
    DivModOf(r, Levels, g);
    assert i / Alphas == q1;
    assert i / Alphas / Levels == q2;
    assert i / Alphas / Levels / Levels == r;
    assert q1 <= (r * Levels + g) * Levels + (Levels - 1);
  }

  /** The enumeration is in lexicographic order of (r, g, b, alpha). */
  lemma ElementsAscend(i: nat, j: nat)
    requires i < j < Total
    ensures var u, v := Element(i), Element(j);
      u.r < v.r || (u.r == v.r && (u.g < v.g || (u.g == v.g && (u.b < v.b || (u.b == v.b && u.a < v.a)))))
  {
    var u, v := Element(i), Element(j);
    assert Index(u.r, u.g, u.b, u.a / 2) < Index(v.r, v.g, v.b, v.a / 2);
  }

  /** The positions the generator's own examples look up. */
  lemma SampledElements()
    ensures Element(0) == Rgba(0, 0, 0, 0)
    ensures Element(1) == Rgba(0, 0, 0, 2)
    ensures Element(50) == Rgba(0, 0, 1, 0)
    ensures Element(256 * 50) == Rgba(0, 1, 0, 0)
    ensures Element(256 * 256 * 50) == Rgba(1, 0, 0, 0)
  {
    ElementOfIndex(0, 0, 0, 0);
    ElementOfIndex(0, 0, 0, 1);
    ElementOfIndex(0, 0, 1, 0);
    ElementOfIndex(0, 1, 0, 0);
    ElementOfIndex(1, 0, 0, 0);
  }

  /** `get_nth_rgba_vec`: IndexError for a negative `n`; otherwise walk the
      enumeration, advancing alpha first and carrying into blue, green and
      red, and return element `n`, or raise IndexError once the
      enumeration is exhausted. */
  method GetNthRgba(n: int) returns (res: Result<Rgba>)
    ensures res.Ok? <==> 0 <= n < Total
    ensures res.Err? ==> res.error == IndexError
    ensures res.Ok? ==> res.value == Element(n)
  {
    if n < 0 {
      return Err(IndexError);
    }
    var r, g, b, a := 0, 0, 0, 0;
    var i := 0;
    while i < Total
      invariant 0 <= i <= n && i <= Total
      invariant 0 <= r && 0 <= g < Levels && 0 <= b < Levels && 0 <= a < Alphas
      invariant Index(r, g, b, a) == i
    {
      if i == n {
        assert r < Levels;
        ElementOfIndex(r, g, b, a);
        return Ok(Rgba(r, g, b, a * 2));
      }
      if a < Alphas - 1 {
        a := a + 1;
      } else {
        a := 0;
        if b < Levels - 1 {
          b := b + 1;
        } else {
          b := 0;
          if g < Levels - 1 {
            g := g + 1;
          } else {
            g := 0;
            r := r + 1;
          }
        }
      }
      i := i + 1;
    }
    return Err(IndexError);
  }
}
