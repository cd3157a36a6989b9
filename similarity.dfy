/**
 * The guarded cosine similarity of `DocumentManager.cosine_similarity` (the same
 * body in both services). Exact reals have no square root, so the model computes
 * the signed square of the cosine,
 *
 *     Score(a, b) = dot * |dot| / (|a|^2 * |b|^2)  =  cos * |cos|,
 *
 * a strictly increasing image of the cosine: it orders documents exactly as the
 * cosine does, maps 0 to 0 and 1 to 1, and the relevance test `cos > 0.1` becomes
 * `Score > 0.01`. `CosineBridge` ties the two together for any given square roots.
 */
module Similarity {

  /** `sum(a * b for a, b in zip(v1, v2))` for vectors of equal length. */
  function Dot(a: seq<real>, b: seq<real>): real
    requires |a| == |b|
  {
    if a == [] then 0.0 else a[0] * b[0] + Dot(a[1..], b[1..])
  }

  /** The squared norm, `sum(a * a for a in v)`. */
  function NormSq(a: seq<real>): real {
    if a == [] then 0.0 else Sq(a[0]) + NormSq(a[1..])
  }

  /** The similarity is not computed: an empty vector, lengths that differ, or a
      vector of norm zero. Python then returns 0.0. */
  predicate Degenerate(a: seq<real>, b: seq<real>) {
    a == [] || b == [] || |a| != |b| || NormSq(a) == 0.0 || NormSq(b) == 0.0
  }

  /** The signed square of `cosine_similarity(a, b)`: 0.0 on the guarded cases,
      otherwise a value in [-1, 1] with the sign of the dot product. */
  function Score(a: seq<real>, b: seq<real>): (s: real)
    ensures Degenerate(a, b) ==> s == 0.0
    ensures -1.0 <= s <= 1.0
    ensures !Degenerate(a, b) ==> (s > 0.0 <==> Dot(a, b) > 0.0) && (s == 0.0 <==> Dot(a, b) == 0.0)
  {
    if Degenerate(a, b) then 0.0
    else
      NormSqNonNegative(a);
      NormSqNonNegative(b);
      CauchySchwarz(a, b);
      var d := Dot(a, b);
      var n := NormSq(a) * NormSq(b);
      SignedSquareBounds(d);
      DivideBounded(SignedSquare(d), n);
      DivideSign(SignedSquare(d), n);
      SignedSquareSign(d);
      SignedSquare(d) / n
  }

  /** The relevance test `cosine_similarity(a, b) > 0.1`, in squared form. */
  predicate Relevant(a: seq<real>, b: seq<real>) {
    Score(a, b) > 1.0 / 100.0
  }

  // ---------------------------------------------------------------------------
  // Algebra on reals

  function Id(x: real): real { x }

  /** `x * x`. The second factor is written `Id(x)` so that the solver treats the
      square as a product of two terms, a form it reasons about far better. */
  function Sq(x: real): real { x * Id(x) }

  function Abs(x: real): real { if x < 0.0 then -x else x }

  /** `x * |x|`: the square of `x` carrying the sign of `x`. */
  function SignedSquare(x: real): real { x * Abs(x) }

  lemma MultiplyStrict(x: real, y: real, n: real)
    requires x < y && n > 0.0
    ensures x * n < y * n
  {
  }

  lemma SquareNegate(x: real)
    ensures Sq(-x) == Sq(x)
  {
  }

  lemma SquarePositive(x: real)
    ensures Sq(x) >= 0.0
    ensures x != 0.0 ==> Sq(x) > 0.0
  {
    if x > 0.0 {
      MultiplyStrict(0.0, x, x);
    } else if x < 0.0 {
      MultiplyStrict(0.0, -x, -x);
      SquareNegate(x);
    }
  }

  lemma SquareMonotone(x: real, y: real)
    requires 0.0 <= x < y
    ensures Sq(x) < Sq(y)
  {
    MultiplyStrict(x, y, y);
    if x > 0.0 {
      MultiplyStrict(x, y, x);
    }
  }

  lemma SignedSquareIs(x: real)
    ensures x >= 0.0 ==> SignedSquare(x) == Sq(x)
    ensures x < 0.0 ==> SignedSquare(x) == -Sq(x)
  {
  }

  /** `x * |x|` has the sign of `x`. */
  lemma SignedSquareSign(x: real)
    ensures SignedSquare(x) > 0.0 <==> x > 0.0
    ensures SignedSquare(x) == 0.0 <==> x == 0.0
  {
    SignedSquareIs(x);
    SquarePositive(x);
  }

  lemma SignedSquareBounds(x: real)
    ensures -Sq(x) <= SignedSquare(x) <= Sq(x)
  {
    SignedSquareIs(x);
    SquarePositive(x);
  }

  /** `x * |x|` is strictly increasing, so ranking by `Score` ranks by cosine. */
  lemma SignedSquareMonotone(x: real, y: real)
    requires x < y
    ensures SignedSquare(x) < SignedSquare(y)
  {
    SignedSquareIs(x);
    SignedSquareIs(y);
    if 0.0 <= x {
      SquareMonotone(x, y);
    } else if y <= 0.0 {
      SquareNegate(x);
      SquareNegate(y);
      SquareMonotone(-y, -x);
    } else {
      SquarePositive(x);
      SquarePositive(y);
    }
  }

  /** Dividing by a positive number keeps the sign. */
  lemma DivideSign(x: real, n: real)
    requires n > 0.0
    ensures x / n > 0.0 <==> x > 0.0
    ensures x / n == 0.0 <==> x == 0.0
  {
    var q := x / n;
    assert q * n == x;
    if q > 0.0 {
      MultiplyStrict(0.0, q, n);
    }
    if q < 0.0 {
      MultiplyStrict(q, 0.0, n);
    }
  }

  lemma DivideBounded(x: real, n: real)
    requires n > 0.0 && -n <= x <= n
    ensures -1.0 <= x / n <= 1.0
  {
    var q := x / n;
    assert q * n == x;
    if q > 1.0 {
      MultiplyStrict(1.0, q, n);
    }
    if q < -1.0 {
      MultiplyStrict(q, -1.0, n);
    }
  }

  /** The threshold on reals: `d|d| / n > 1/100` exactly when `d > 0` and
      `100 d^2 > n`. */
  lemma ThresholdIff(d: real, n: real, q: real)
    requires n > 0.0 && q * n == SignedSquare(d)
    ensures q > 1.0 / 100.0 <==> d > 0.0 && 100.0 * Sq(d) > n
  {
    SignedSquareIs(d);
    SquarePositive(d);
    if q > 0.01 {
      MultiplyStrict(0.01, q, n);
      assert SignedSquare(d) > 0.01 * n;
    } else if q < 0.01 {
      MultiplyStrict(q, 0.01, n);
      assert SignedSquare(d) < 0.01 * n;
    } else {
      assert SignedSquare(d) == 0.01 * n;
    }
  }

  /** The inductive step of Cauchy-Schwarz: `2xyD <= x^2 B + y^2 A` whenever
      `D^2 <= A B` with `A, B >= 0`. */
  lemma CrossTerm(x: real, y: real, a: real, b: real, d: real)
    requires a >= 0.0 && b >= 0.0 && Sq(d) <= a * b
    ensures 2.0 * x * y * d <= Sq(x) * b + Sq(y) * a
  {
    SquarePositive(d);
    if a == 0.0 {
      assert d == 0.0;
    } else {
      var e := Sq(x) * b + Sq(y) * a - 2.0 * x * y * d;
      assert a * e >= 0.0 by {
        ScaledGap(x, y, a, b, d);
        SquarePositive(x);
        MultiplyMonotone(Sq(x), a * b, Sq(d));
        SquarePositive(x * d - y * a);
      }
      if e < 0.0 {
        MultiplyStrict(e, 0.0, a);
      }
    }
  }

  /** The ring identity behind `CrossTerm`: `a` times the gap differs from the
      square of `xd - ya` only by `x^2 (ab - d^2)`. */
  lemma ScaledGap(x: real, y: real, a: real, b: real, d: real)
    ensures a * (Sq(x) * b + Sq(y) * a - 2.0 * x * y * d)
      == Sq(x * d - y * a) + (Sq(x) * (a * b) - Sq(x) * Sq(d))
  {
    var p, q := x * d, y * a;
    assert Sq(p - q) == Sq(p) + Sq(q) - 2.0 * p * q;
    assert Sq(p) == Sq(x) * Sq(d);
  }

  lemma MultiplyMonotone(c: real, p: real, q: real)
    requires c >= 0.0 && p >= q
    ensures c * p >= c * q
  {
    if c > 0.0 && p > q {
      MultiplyStrict(q, p, c);
    }
  }

  // ---------------------------------------------------------------------------
  // Dot products and norms

  lemma {:induction false} NormSqNonNegative(a: seq<real>)
    ensures NormSq(a) >= 0.0
  {
    if a != [] {
      NormSqNonNegative(a[1..]);
      SquarePositive(a[0]);
    }
  }

  /** The squared norm is the dot product of a vector with itself. */
  lemma {:induction false} DotSelf(a: seq<real>)
    ensures Dot(a, a) == NormSq(a)
  {
    if a != [] {
      DotSelf(a[1..]);
    }
  }

  /** The squared norm is zero exactly for the all-zero vector. */
  lemma {:induction false} NormSqZeroIff(a: seq<real>)
    ensures NormSq(a) == 0.0 <==> forall i :: 0 <= i < |a| ==> a[i] == 0.0
  {
    if a != [] {
      NormSqZeroIff(a[1..]);
      NormSqNonNegative(a[1..]);
      SquarePositive(a[0]);
      assert forall i :: 1 <= i < |a| ==> a[i] == a[1..][i - 1];
      if forall i :: 0 <= i < |a| ==> a[i] == 0.0 {
        assert a[0] == 0.0;
      }
    }
  }

  /** The dot product is symmetric. */
  lemma {:induction false} DotSymmetric(a: seq<real>, b: seq<real>)
    requires |a| == |b|
    ensures Dot(a, b) == Dot(b, a)
  {
    if a != [] {
      DotSymmetric(a[1..], b[1..]);
    }
  }

  /** Cauchy-Schwarz: `dot(a, b)^2 <= |a|^2 |b|^2`. */
  lemma {:induction false} CauchySchwarz(a: seq<real>, b: seq<real>)
    requires |a| == |b|
    ensures Sq(Dot(a, b)) <= NormSq(a) * NormSq(b)
  {
    if a != [] {
      var x, y := a[0], b[0];
      var a', b' := a[1..], b[1..];
      CauchySchwarz(a', b');
      NormSqNonNegative(a');
      NormSqNonNegative(b');
      var d, na, nb := Dot(a', b'), NormSq(a'), NormSq(b');
      CauchyStep(x, y, d, na, nb, Dot(a, b), NormSq(a), NormSq(b));
    }
  }

  /** Adding one coordinate pair keeps `D^2 <= A B`. */
  lemma CauchyStep(x: real, y: real, d: real, na: real, nb: real, d': real, na': real, nb': real)
    requires na >= 0.0 && nb >= 0.0 && Sq(d) <= na * nb
    requires d' == x * y + d && na' == Sq(x) + na && nb' == Sq(y) + nb
    ensures Sq(d') <= na' * nb'
  {
    CrossTerm(x, y, na, nb, d);
    assert Sq(x * y + d) == Sq(x) * Sq(y) + 2.0 * x * y * d + Sq(d);
    assert (Sq(x) + na) * (Sq(y) + nb) == Sq(x) * Sq(y) + Sq(x) * nb + Sq(y) * na + na * nb;
  }

  /** Vectors with no negative entry have a non-negative dot product. */
  lemma {:induction false} DotNonNegative(a: seq<real>, b: seq<real>)
    requires |a| == |b|
    requires forall i :: 0 <= i < |a| ==> a[i] >= 0.0 && b[i] >= 0.0
    ensures Dot(a, b) >= 0.0
  {
    if a != [] {
      if a[0] > 0.0 && b[0] > 0.0 {
        MultiplyStrict(0.0, a[0], b[0]);
      }
      assert a[0] * b[0] >= 0.0;
      assert forall i :: 0 <= i < |a[1..]| ==> a[1..][i] == a[i + 1] && b[1..][i] == b[i + 1];
      DotNonNegative(a[1..], b[1..]);
    }
  }

  /** Vectors that are never both non-zero at the same index are orthogonal. */
  lemma {:induction false} DotDisjoint(a: seq<real>, b: seq<real>)
    requires |a| == |b|
    requires forall i :: 0 <= i < |a| ==> a[i] == 0.0 || b[i] == 0.0
    ensures Dot(a, b) == 0.0
  {
    if a != [] {
      assert forall i :: 0 <= i < |a[1..]| ==> a[1..][i] == a[i + 1] && b[1..][i] == b[i + 1];
      DotDisjoint(a[1..], b[1..]);
    }
  }

  // ---------------------------------------------------------------------------
  // Properties of the similarity

  /** The similarity does not depend on the order of its arguments. */
  lemma ScoreSymmetric(a: seq<real>, b: seq<real>)
    ensures Score(a, b) == Score(b, a)
  {
    if |a| == |b| {
      DotSymmetric(a, b);
      assert NormSq(a) * NormSq(b) == NormSq(b) * NormSq(a);
    }
  }

  /** A vector of non-zero norm is perfectly similar to itself. */
  lemma ScoreSelf(v: seq<real>)
    requires NormSq(v) != 0.0
    ensures Score(v, v) == 1.0
  {
    NormSqNonNegative(v);
    DotSelf(v);
    var n := NormSq(v);
    SignedSquareIs(n);
    assert SignedSquare(Dot(v, v)) == n * n;
  }

  /** For vectors without negative entries the similarity lies in [0, 1]. */
  lemma ScoreNonNegative(a: seq<real>, b: seq<real>)
    requires forall i :: 0 <= i < |a| ==> a[i] >= 0.0
    requires forall i :: 0 <= i < |b| ==> b[i] >= 0.0
    ensures 0.0 <= Score(a, b) <= 1.0
  {
    if |a| == |b| {
      DotNonNegative(a, b);
    }
  }

  /** Vectors with disjoint support (no position where both are non-zero) score 0,
      and so are never relevant. */
  lemma ScoreDisjoint(a: seq<real>, b: seq<real>)
    requires |a| == |b|
    requires forall i :: 0 <= i < |a| ==> a[i] == 0.0 || b[i] == 0.0
    ensures Score(a, b) == 0.0 && !Relevant(a, b)
  {
    DotDisjoint(a, b);
  }

  /** The relevance threshold without square roots, for a dot product `d` and
      squared norms `na`, `nb`: `d` is positive and its square exceeds a
      hundredth of `na * nb`. */
  predicate PassesSquared(d: real, na: real, nb: real) {
    d > 0.0 && 100.0 * Sq(d) > na * nb
  }

  /** A similarity above 0.1 means both vectors non-degenerate and the squared
      test passing on their dot product and squared norms. */
  lemma RelevantIff(a: seq<real>, b: seq<real>)
    ensures Relevant(a, b) <==>
      !Degenerate(a, b) && PassesSquared(Dot(a, b), NormSq(a), NormSq(b))
  {
    if !Degenerate(a, b) {
      RelevantThreshold(a, b, Dot(a, b), NormSq(a), NormSq(b));
    } else {
      assert Score(a, b) == 0.0;
    }
  }

  /** `RelevantIff` away from the guarded cases, with the dot product and the
      squared norms named `d`, `na` and `nb`. */
  lemma RelevantThreshold(a: seq<real>, b: seq<real>, d: real, na: real, nb: real)
    requires !Degenerate(a, b) && d == Dot(a, b) && na == NormSq(a) && nb == NormSq(b)
    ensures Relevant(a, b) <==> PassesSquared(d, na, nb)
  {
    ScoreValue(a, b);
    ThresholdIff(d, na * nb, Score(a, b));
  }

  /** Away from the guarded cases the score is the signed square of the dot
      product over the product of the squared norms, which is positive. */
  lemma ScoreValue(a: seq<real>, b: seq<real>)
    requires !Degenerate(a, b)
    ensures NormSq(a) * NormSq(b) > 0.0
    ensures Score(a, b) * (NormSq(a) * NormSq(b)) == SignedSquare(Dot(a, b))
  {
    NormSqNonNegative(a);
    NormSqNonNegative(b);
    MultiplyStrict(0.0, NormSq(a), NormSq(b));
  }

  /** Scaling by a positive factor scales the signed square by its square. */
  lemma SignedSquareScale(c: real, r: real)
    requires r > 0.0
    ensures SignedSquare(c * r) == SignedSquare(c) * Sq(r)
  {
    if c >= 0.0 {
      assert c * r >= 0.0;
    } else {
      MultiplyStrict(c, 0.0, r);
    }
    SignedSquareIs(c);
    SignedSquareIs(c * r);
    assert Sq(c * r) == Sq(c) * Sq(r);
  }

  /** The bridge to Python's formula: given the square roots `r1`, `r2` of the two
      squared norms, the cosine `c = dot / (r1 * r2)` lies in [-1, 1], `Score` is
      `c * |c|`, and the relevance test `c > 0.1` is `Relevant`. */
  lemma SignedSquareOver(x: real, r: real)
    requires r > 0.0
    ensures SignedSquare(x) == SignedSquare(x / r) * Sq(r)
  {
    var c := x / r;
    assert c * r == x;
    SignedSquareScale(c, r);
  }

  lemma CosineBridge(a: seq<real>, b: seq<real>, r1: real, r2: real)
    requires |a| == |b| && a != []
    requires r1 > 0.0 && r2 > 0.0 && Sq(r1) == NormSq(a) && Sq(r2) == NormSq(b)
    ensures var c := Dot(a, b) / (r1 * r2);
      && Score(a, b) == SignedSquare(c)
      && -1.0 <= c <= 1.0
      && (c > 1.0 / 10.0 <==> Relevant(a, b))
  {
    assert !Degenerate(a, b) by {
      SquarePositive(r1);
      SquarePositive(r2);
    }
    BridgeAt(a, b, Dot(a, b), NormSq(a), NormSq(b), r1, r2);
  }

  /** `CosineBridge` with the dot product and the squared norms named. */
  lemma BridgeAt(a: seq<real>, b: seq<real>, d: real, na: real, nb: real, r1: real, r2: real)
    requires !Degenerate(a, b) && d == Dot(a, b) && na == NormSq(a) && nb == NormSq(b)
    requires r1 > 0.0 && r2 > 0.0 && Sq(r1) == na && Sq(r2) == nb
    ensures var c := d / (r1 * r2);
      && Score(a, b) == SignedSquare(c)
      && -1.0 <= c <= 1.0
      && (c > 1.0 / 10.0 <==> Relevant(a, b))
  {
    ScoreValue(a, b);
    BridgeAlgebra(d, na, nb, r1, r2, Score(a, b));
    SignedSquareReading(d / (r1 * r2));
  }

  /** The algebra behind `CosineBridge`: if `q` times the product of two squares
      is the signed square of `d`, then `q` is the signed square of `d` over the
      product of their roots. */
  lemma BridgeAlgebra(d: real, na: real, nb: real, r1: real, r2: real, q: real)
    requires r1 > 0.0 && r2 > 0.0 && Sq(r1) == na && Sq(r2) == nb
    requires q * (na * nb) == SignedSquare(d)
    ensures q == SignedSquare(d / (r1 * r2))
  {
    var r := r1 * r2;
    MultiplyStrict(0.0, r1, r2);
    assert na * nb == Sq(r);
    SquarePositive(r);
    SignedSquareOver(d, r);
    CancelPositive(q, SignedSquare(d / r), Sq(r));
  }

  lemma CancelPositive(x: real, y: real, n: real)
    requires n > 0.0 && x * n == y * n
    ensures x == y
  {
    if x < y {
      MultiplyStrict(x, y, n);
    } else if y < x {
      MultiplyStrict(y, x, n);
    }
  }

  /** Reading a cosine back from its signed square: the square lies in [-1, 1]
      only when the cosine does, and it passes 0.01 exactly when the cosine passes
      0.1. */
  lemma SignedSquareReading(c: real)
    ensures -1.0 <= SignedSquare(c) <= 1.0 ==> -1.0 <= c <= 1.0
    ensures c > 1.0 / 10.0 <==> SignedSquare(c) > 1.0 / 100.0
  {
    if c > 1.0 {
      SignedSquareMonotone(1.0, c);
    }
    if c < -1.0 {
      SignedSquareMonotone(c, -1.0);
    }
    assert SignedSquare(1.0 / 10.0) == 1.0 / 100.0;
    if c > 1.0 / 10.0 {
      SignedSquareMonotone(1.0 / 10.0, c);
    }
    if c < 1.0 / 10.0 {
      SignedSquareMonotone(c, 1.0 / 10.0);
    }
  }

  /** `cosine_similarity([1, 2, 3], [4, 5, 6])`: the dot product is 32 and the
      squared norms 14 and 77, so the value lies in [0, 1] and is relevant. */
  lemma ExampleOneTwoThree()
    ensures Score([1.0, 2.0, 3.0], [4.0, 5.0, 6.0]) == 1024.0 / 1078.0
    ensures 0.0 <= Score([1.0, 2.0, 3.0], [4.0, 5.0, 6.0]) <= 1.0
    ensures Relevant([1.0, 2.0, 3.0], [4.0, 5.0, 6.0])
  {
    var a, b := [1.0, 2.0, 3.0], [4.0, 5.0, 6.0];
    assert Dot(a, b) == 32.0;
    assert NormSq(a) == 14.0;
    assert NormSq(b) == 77.0;
  }
}
