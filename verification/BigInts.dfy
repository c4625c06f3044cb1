/**
 JavaScript `bigint` arithmetic, and the rounding directions the repository builds on it.

 `bigint` division truncates toward zero, while Dafny's `/` is Euclidean, so the two source
 operators are modelled here as `Quot` and `Rem`. Every file of the repository carries its own
 copy of a few helpers on top of them; each helper appears here once, in the source's form,
 beside the lemma that identifies it with one of two mathematical roundings, `Floor` and `Ceil`.
 Proofs elsewhere use only the two Galois lemmas of those roundings.
 */
module BigInts {

  /** The source's `n / d`: truncated toward zero. */
  function Quot(n: int, d: int): int
    requires d != 0
  {
    if n >= 0 then n / d else -((-n) / d)
  }

  /** The source's `n % d`: it takes the sign of the dividend. */
  function Rem(n: int, d: int): int
    requires d != 0
  {
    if n >= 0 then n % d else -((-n) % d)
  }

  /** `n / d` rounded toward minus infinity. */
  function Floor(n: int, d: int): int
    requires d > 0
  {
    n / d
  }

  /** `n / d` rounded toward plus infinity. */
  function Ceil(n: int, d: int): int
    requires d > 0
  {
    -((-n) / d)
  }

  function Abs(n: int): nat {
    if n < 0 then -n else n
  }

  // --- the helpers, as the source writes them -------------------------------------------------

  /** `a * b / d`, truncated. */
  function MulDivFloor(a: int, b: int, d: int): int
    requires d != 0
  {
    Quot(a * b, d)
  }

  /** `a * b / d`, plus one when the remainder is not zero. */
  function MulDivCeil(a: int, b: int, d: int): int
    requires d != 0
  {
    var n := a * b;
    Quot(n, d) + (if Rem(n, d) == 0 then 0 else 1)
  }

  /** `a * b / d`, less one when the remainder is negative. */
  function MulDivFloorSigned(a: int, b: int, d: int): int
    requires d != 0
  {
    var n := a * b;
    var q := Quot(n, d);
    if Rem(n, d) < 0 then q - 1 else q
  }

  /** `(n + d - 1) / d`, and zero for a zero divisor. */
  function CeilDiv(n: int, d: int): int {
    if d == 0 then 0 else Quot(n + d - 1, d)
  }

  /** Truncation corrected downwards when the signs differ and the division is inexact. */
  function FloorDiv(n: int, d: int): int
    requires d != 0
  {
    var q := Quot(n, d);
    if Rem(n, d) != 0 && (n < 0) != (d < 0) then q - 1 else q
  }

  // --- what they are ----------------------------------------------------------------------------

  /** The identity that fixes `Quot` and `Rem`, for either sign of either operand. */
  lemma TruncatedDivision(n: int, d: int)
    requires d != 0
    ensures n == d * Quot(n, d) + Rem(n, d)
    ensures Abs(Rem(n, d)) < Abs(d)
    ensures Rem(n, d) != 0 ==> (Rem(n, d) < 0 <==> n < 0)
  {
    if n < 0 {
      var m := -n;
      assert m == d * (m / d) + m % d;
      assert d * -(m / d) == -(d * (m / d));
    }
  }

  lemma MulMono(a: int, b: int, c: int)
    requires a <= b && 0 <= c
    ensures a * c <= b * c
  {
    assert (b - a) * c >= 0;
  }

  lemma MulAssociates(a: int, b: int, c: int)
    ensures a * (b * c) == (a * b) * c
  {
  }

  /** A cancelled factor. */
  lemma MulCancel(a: int, b: int, c: int)
    requires c > 0 && a * c <= b * c
    ensures a <= b
  {
    if a > b {
      MulMono(b + 1, a, c);
    }
  }

  /** Flooring is right adjoint to multiplying by the divisor. */
  lemma FloorGalois(n: int, d: int, k: int)
    requires d > 0
    ensures k <= Floor(n, d) <==> k * d <= n
  {
    var q := Floor(n, d);
    assert n == q * d + n % d;
    if k <= q {
      MulMono(k, q, d);
    } else {
      MulMono(q + 1, k, d);
      assert (q + 1) * d == q * d + d;
    }
  }

  /** Ceiling is left adjoint to multiplying by the divisor. */
  lemma CeilGalois(n: int, d: int, k: int)
    requires d > 0
    ensures Ceil(n, d) <= k <==> n <= k * d
  {
    FloorGalois(-n, d, -k);
    assert -k * d == -(k * d);
  }

  lemma FloorIs(n: int, d: int, r: int)
    requires d > 0 && r * d <= n < r * d + d
    ensures Floor(n, d) == r
  {
    FloorGalois(n, d, r);
    FloorGalois(n, d, r + 1);
    assert (r + 1) * d == r * d + d;
  }

  lemma CeilIs(n: int, d: int, r: int)
    requires d > 0 && r * d - d < n <= r * d
    ensures Ceil(n, d) == r
  {
    CeilGalois(n, d, r);
    CeilGalois(n, d, r - 1);
    assert (r - 1) * d == r * d - d;
  }

  lemma FloorBounds(n: int, d: int)
    requires d > 0
    ensures Floor(n, d) * d <= n < Floor(n, d) * d + d
  {
    assert n == Floor(n, d) * d + n % d;
  }

  lemma CeilBounds(n: int, d: int)
    requires d > 0
    ensures Ceil(n, d) * d - d < n <= Ceil(n, d) * d
  {
    FloorBounds(-n, d);
    assert Floor(-n, d) * d == -(Ceil(n, d) * d);
  }

  /** A floored loss is a ceiled cost. */
  lemma FloorOfNegation(n: int, d: int)
    requires d > 0
    ensures Floor(-n, d) == -Ceil(n, d)
  {
  }

  lemma FloorMono(m: int, n: int, d: int)
    requires d > 0 && m <= n
    ensures Floor(m, d) <= Floor(n, d)
  {
    FloorBounds(m, d);
    FloorGalois(n, d, Floor(m, d));
  }

  lemma CeilMono(m: int, n: int, d: int)
    requires d > 0 && m <= n
    ensures Ceil(m, d) <= Ceil(n, d)
  {
    FloorMono(-n, -m, d);
  }

  /** Scaling and flooring keeps the order of two ratios compared by cross-multiplication. */
  lemma FloorOfRatioMono(a: nat, b: nat, c: nat, d: nat, scale: nat)
    requires b > 0 && d > 0 && a * d <= c * b
    ensures Floor(a * scale, b) <= Floor(c * scale, d)
  {
    var q := Floor(a * scale, b);
    FloorBounds(a * scale, b);
    FloorOfRatioCore(a, b, c, d, scale, q);
    FloorGalois(c * scale, d, q);
  }

  lemma FloorOfRatioCore(a: nat, b: nat, c: nat, d: nat, scale: nat, q: int)
    requires b > 0 && a * d <= c * b && q * b <= a * scale
    ensures q * d <= c * scale
  {
    calc <= {
      (q * d) * b;
      (q * b) * d;
      { MulMono(q * b, a * scale, d); }
      (a * scale) * d;
      (a * d) * scale;
      { MulMono(a * d, c * b, scale); }
      (c * b) * scale;
      (c * scale) * b;
    }
    MulCancel(q * d, c * scale, b);
  }

  /** Cross-multiplied ratios `a/b <= c/d <= e/f` compose when the middle one has a size. */
  lemma RatioTransitive(a: nat, b: nat, c: nat, d: nat, e: nat, f: nat)
    requires d > 0 && a * d <= c * b && c * f <= e * d
    ensures a * f <= e * b
  {
    calc <= {
      (a * f) * d;
      (a * d) * f;
      { MulMono(a * d, c * b, f); }
      (c * b) * f;
      (c * f) * b;
      { MulMono(c * f, e * d, b); }
      (e * d) * b;
      (e * b) * d;
    }
    MulCancel(a * f, e * b, d);
  }

  // --- and that each helper is one of the two ----------------------------------------------------

  lemma QuotIsFloor(n: int, d: int)
    requires n >= 0 && d > 0
    ensures Quot(n, d) == Floor(n, d) >= 0
  {
    FloorGalois(n, d, 0);
  }

  lemma FloorDivIsFloor(n: int, d: int)
    requires d > 0
    ensures FloorDiv(n, d) == Floor(n, d)
  {
    TruncatedDivision(n, d);
    var q := Quot(n, d);
    assert d * q == q * d;
    if Rem(n, d) < 0 {
      assert (q - 1) * d == q * d - d;
      FloorIs(n, d, q - 1);
    } else {
      FloorIs(n, d, q);
    }
  }

  lemma MulDivFloorSignedIsFloor(a: int, b: int, d: int)
    requires d > 0
    ensures MulDivFloorSigned(a, b, d) == Floor(a * b, d)
  {
    TruncatedDivision(a * b, d);
    FloorDivIsFloor(a * b, d);
  }

  lemma CeilDivIsCeil(n: int, d: int)
    requires n >= 0 && d > 0
    ensures CeilDiv(n, d) == Ceil(n, d) >= 0
  {
    QuotIsFloor(n + d - 1, d);
    FloorBounds(n + d - 1, d);
    CeilIs(n, d, CeilDiv(n, d));
  }

  lemma MulDivCeilIsCeil(a: int, b: int, d: int)
    requires a * b >= 0 && d > 0
    ensures MulDivCeil(a, b, d) == Ceil(a * b, d) >= 0
  {
    var n := a * b;
    TruncatedDivision(n, d);
    QuotIsFloor(n, d);
    var q := Quot(n, d);
    assert d * q == q * d;
    assert (q + 1) * d == q * d + d;
    CeilIs(n, d, if Rem(n, d) == 0 then q else q + 1);
  }

  lemma MulDivCeilMono(a: nat, b: nat, x: nat, y: nat, d: int)
    requires d > 0 && a <= b && x <= y
    ensures 0 <= MulDivCeil(a, x, d) <= MulDivCeil(b, y, d)
  {
    MulMono(a, b, x);
    MulMono(x, y, b);
    MulDivCeilIsCeil(a, x, d);
    MulDivCeilIsCeil(b, y, d);
    CeilMono(a * x, b * y, d);
  }
}
