/**
 The least-squares line behind the price slope
 (internal/opportunities/price_history.go): four sums, and why their quotient is the best slope.
 */
module LeastSquares {
  import opened Arith
  import opened Options

  datatype Sample = Sample(x: real, y: real)

  /** A product, named so that proofs can treat it as one value. */
  function Mul(a: real, b: real): real {
    a * b
  }

  lemma MulSum(a: real, b: real, c: real)
    ensures Mul(a, b + c) == Mul(a, b) + Mul(a, c)
    ensures Mul(b + c, a) == Mul(b, a) + Mul(c, a)
  {
  }

  lemma Square(a: real)
    ensures Mul(a, a) >= 0.0
    ensures Mul(a, a) == 0.0 <==> a == 0.0
  {
    if a > 0.0 {
      PositiveProduct(a, a);
    } else if a < 0.0 {
      PositiveProduct(-a, -a);
      assert Mul(-a, -a) == Mul(a, a);
    }
  }

  lemma PositiveProduct(a: real, b: real)
    requires a > 0.0 && b > 0.0
    ensures Mul(a, b) > 0.0
  {
  }

  function SumX(s: seq<Sample>): real {
    if s == [] then 0.0 else s[0].x + SumX(s[1..])
  }

  function SumY(s: seq<Sample>): real {
    if s == [] then 0.0 else s[0].y + SumY(s[1..])
  }

  function SumXX(s: seq<Sample>): real {
    if s == [] then 0.0 else Mul(s[0].x, s[0].x) + SumXX(s[1..])
  }

  function SumXY(s: seq<Sample>): real {
    if s == [] then 0.0 else Mul(s[0].x, s[0].y) + SumXY(s[1..])
  }

  function Denominator(s: seq<Sample>): real {
    Mul(|s| as real, SumXX(s)) - Mul(SumX(s), SumX(s))
  }

  /** The slope, or none when there are fewer than two samples or they all share one `x`. */
  function Slope(s: seq<Sample>): Option<real> {
    if |s| < 2 || Denominator(s) == 0.0 then None
    else Some((Mul(|s| as real, SumXY(s)) - Mul(SumX(s), SumY(s))) / Denominator(s))
  }

  /** The intercept that goes with a slope: the line passes through the mean point. */
  function Intercept(s: seq<Sample>, slope: real): real
    requires s != []
  {
    (SumY(s) - Mul(slope, SumX(s))) / |s| as real
  }

  // ------------------------------------------------------------ the denominator

  ghost predicate OneX(s: seq<Sample>) {
    forall i, j :: 0 <= i < |s| && 0 <= j < |s| ==> s[i].x == s[j].x
  }

  /** The summed squared distances of the samples from `x`. */
  function Spread(s: seq<Sample>, x: real): real {
    if s == [] then 0.0 else Mul(x - s[0].x, x - s[0].x) + Spread(s[1..], x)
  }

  lemma SquareOfDifference(a: real, b: real)
    ensures Mul(a - b, a - b) == Mul(a, a) - 2.0 * Mul(a, b) + Mul(b, b)
  {
  }

  lemma {:induction false} SpreadSums(s: seq<Sample>, x: real)
    ensures Spread(s, x) == Mul(|s| as real, Mul(x, x)) - 2.0 * Mul(x, SumX(s)) + SumXX(s)
  {
    if s == [] {
    } else {
      hide Mul;
      SpreadSums(s[1..], x);
      SquareOfDifference(x, s[0].x);
      MulSum(x, s[0].x, SumX(s[1..]));
      MulSum(Mul(x, x), 1.0, |s[1..]| as real);
      MulOne(Mul(x, x));
    }
  }

  lemma MulOne(a: real)
    ensures Mul(1.0, a) == a
  {
  }

  lemma {:induction false} SpreadNonNegative(s: seq<Sample>, x: real)
    ensures Spread(s, x) >= 0.0
    ensures Spread(s, x) == 0.0 <==> forall i :: 0 <= i < |s| ==> s[i].x == x
  {
    if s != [] {
      hide Mul;
      SpreadNonNegative(s[1..], x);
      Square(x - s[0].x);
      assert forall i :: 1 <= i < |s| ==> s[i] == s[1..][i - 1];
    }
  }

  /** One more sample adds its spread from the others. */
  lemma DenominatorStep(s: seq<Sample>)
    requires s != []
    ensures Denominator(s) == Denominator(s[1..]) + Spread(s[1..], s[0].x)
  {
    var t, x := s[1..], s[0].x;
    SpreadSums(t, x);
    hide Mul, Spread;
    var n := |t| as real;
    var xx, sx, sxx := Mul(x, x), SumX(t), SumXX(t);
    assert |s| as real == n + 1.0;
    MulSum(xx + sxx, n, 1.0);
    MulSum(n, xx, sxx);
    MulOne(xx + sxx);
    MulSum(x + sx, x, sx);
    MulSum(x, x, sx);
    MulSum(sx, x, sx);
    MulCommutes(x, sx);
  }

  lemma MulCommutes(a: real, b: real)
    ensures Mul(a, b) == Mul(b, a)
  {
  }

  /** The denominator is never negative, and zero exactly when all samples share one `x`. */
  lemma {:induction false} DenominatorSign(s: seq<Sample>)
    ensures Denominator(s) >= 0.0
    ensures Denominator(s) == 0.0 <==> OneX(s)
  {
    if s == [] {
    } else {
      hide Mul, Denominator;
      DenominatorSign(s[1..]);
      DenominatorStep(s);
      SpreadNonNegative(s[1..], s[0].x);
      assert forall i :: 1 <= i < |s| ==> s[i] == s[1..][i - 1];
      if OneX(s) {
        assert forall i :: 0 <= i < |s[1..]| ==> s[1..][i] == s[i + 1];
      }
    }
  }

  // ------------------------------------------------------------ the residuals

  function Residual(p: Sample, a: real, b: real): real {
    p.y - a - Mul(b, p.x)
  }

  /** The sum of squared residuals of the line `a + b * x`. */
  function Residuals(s: seq<Sample>, a: real, b: real): real {
    if s == [] then 0.0 else Mul(Residual(s[0], a, b), Residual(s[0], a, b)) + Residuals(s[1..], a, b)
  }

  function ResidualSum(s: seq<Sample>, a: real, b: real): real {
    if s == [] then 0.0 else Residual(s[0], a, b) + ResidualSum(s[1..], a, b)
  }

  function ResidualX(s: seq<Sample>, a: real, b: real): real {
    if s == [] then 0.0 else Mul(Residual(s[0], a, b), s[0].x) + ResidualX(s[1..], a, b)
  }

  /** Moving the line by (da, db) costs at least what the two residual moments say. */
  lemma {:induction false} MovedLine(s: seq<Sample>, a: real, b: real, da: real, db: real)
    ensures Residuals(s, a + da, b + db) >=
      Residuals(s, a, b) - 2.0 * Mul(da, ResidualSum(s, a, b)) - 2.0 * Mul(db, ResidualX(s, a, b))
  {
    if s == [] {
    } else {
      hide Mul, Residual;
      MovedLine(s[1..], a, b, da, db);
      MulSum(da, Residual(s[0], a, b), ResidualSum(s[1..], a, b));
      MulSum(db, Mul(Residual(s[0], a, b), s[0].x), ResidualX(s[1..], a, b));
      MovedSample(s[0], a, b, da, db);
    }
  }

  lemma MovedSample(p: Sample, a: real, b: real, da: real, db: real)
    ensures var e := Residual(p, a, b);
      Mul(Residual(p, a + da, b + db), Residual(p, a + da, b + db)) >= Mul(e, e) - 2.0 * Mul(da, e) - 2.0 * Mul(db, Mul(e, p.x))
  {
    var e, d := Residual(p, a, b), da + Mul(db, p.x);
    ResidualMoves(p, a, b, da, db);
    hide Residual;
    SquareOfDifference(e, d);
    Square(d);
    MulSum(e, da, Mul(db, p.x));
    assert Mul(e, Mul(db, p.x)) == Mul(db, Mul(e, p.x));
    MulCommutes(e, da);
  }

  lemma ResidualMoves(p: Sample, a: real, b: real, da: real, db: real)
    ensures Residual(p, a + da, b + db) == Residual(p, a, b) - (da + Mul(db, p.x))
  {
    MulSum(p.x, b, db);
  }

  lemma {:induction false} MomentSums(s: seq<Sample>, a: real, b: real)
    ensures ResidualSum(s, a, b) == SumY(s) - Mul(|s| as real, a) - Mul(b, SumX(s))
    ensures ResidualX(s, a, b) == SumXY(s) - Mul(a, SumX(s)) - Mul(b, SumXX(s))
  {
    if s == [] {
    } else {
      var t, p := s[1..], s[0];
      MomentSums(t, a, b);
      MomentOf(p, a, b);
      hide Mul;
      MulSum(a, 1.0, |t| as real);
      MulOne(a);
      MulSum(b, p.x, SumX(t));
      MulSum(a, p.x, SumX(t));
      MulSum(b, Mul(p.x, p.x), SumXX(t));
    }
  }

  lemma MomentOf(p: Sample, a: real, b: real)
    ensures Mul(Residual(p, a, b), p.x) == Mul(p.x, p.y) - Mul(a, p.x) - Mul(b, Mul(p.x, p.x))
  {
  }

  /** The fitted line has no residual moment left. */
  lemma FittedMoments(s: seq<Sample>)
    requires Slope(s).Some?
    ensures var b := Slope(s).value;
      ResidualSum(s, Intercept(s, b), b) == 0.0 && ResidualX(s, Intercept(s, b), b) == 0.0
  {
    hide SumX, SumY, SumXX, SumXY, ResidualSum, ResidualX, Mul;
    var b := Slope(s).value;
    var a, n := Intercept(s, b), |s| as real;
    MomentSums(s, a, b);
    QuotientMul(SumY(s) - Mul(b, SumX(s)), n);
    QuotientMul(Mul(n, SumXY(s)) - Mul(SumX(s), SumY(s)), Denominator(s));
    NormalEquations(n, SumX(s), SumY(s), SumXX(s), SumXY(s), Denominator(s), a, b);
  }

  lemma QuotientMul(x: real, k: real)
    requires k != 0.0
    ensures Mul(x / k, k) == x
  {
    QuotientTimes(x, k);
  }

  lemma NormalEquations(n: real, sx: real, sy: real, sxx: real, sxy: real, d: real, a: real, b: real)
    requires n > 0.0
    requires Mul(a, n) == sy - Mul(b, sx)
    requires d == Mul(n, sxx) - Mul(sx, sx)
    requires Mul(b, d) == Mul(n, sxy) - Mul(sx, sy)
    ensures sy - Mul(n, a) - Mul(b, sx) == 0.0
    ensures sxy - Mul(a, sx) - Mul(b, sxx) == 0.0
  {
    var r := sxy - a * sx - b * sxx;
    assert n * r == n * sxy - (a * n) * sx - b * (n * sxx);
    assert (a * n) * sx == sy * sx - b * sx * sx;
    assert n * r == 0.0;
    if r > 0.0 {
      MulStrict(0.0, r, n);
    } else if r < 0.0 {
      MulStrict(r, 0.0, n);
    }
  }

  /** The slope with its intercept minimises the sum of squared residuals over all lines. */
  lemma SlopeIsLeastSquares(s: seq<Sample>, a: real, b: real)
    requires Slope(s).Some?
    ensures Residuals(s, Intercept(s, Slope(s).value), Slope(s).value) <= Residuals(s, a, b)
  {
    var b0 := Slope(s).value;
    var a0 := Intercept(s, b0);
    FittedMoments(s);
    hide Slope, Intercept, Residuals;
    MovedLine(s, a0, b0, a - a0, b - b0);
    assert a0 + (a - a0) == a && b0 + (b - b0) == b;
  }

  // ------------------------------------------------------------ samples on a line

  lemma {:induction false} SumsOnLine(s: seq<Sample>, c: real)
    requires forall p <- s :: p.y == Mul(c, p.x)
    ensures SumY(s) == Mul(c, SumX(s)) && SumXY(s) == Mul(c, SumXX(s))
  {
    if s != [] {
      var p := s[0];
      SumsOnLine(s[1..], c);
      assert Mul(p.x, Mul(c, p.x)) == Mul(c, Mul(p.x, p.x));
      hide Mul;
      MulSum(c, p.x, SumX(s[1..]));
      MulSum(c, Mul(p.x, p.x), SumXX(s[1..]));
    } else {
      assert Mul(c, 0.0) == 0.0;
    }
  }

  /** The slope of samples on a line through the origin is the line's. */
  lemma SlopeOfLine(s: seq<Sample>, c: real)
    requires Slope(s).Some? && forall p <- s :: p.y == Mul(c, p.x)
    ensures Slope(s) == Some(c)
  {
    SumsOnLine(s, c);
    hide Mul, SumX, SumY, SumXX, SumXY;
    LineMoments(|s| as real, SumX(s), SumXX(s), c);
    ProductOverFactor(c, Denominator(s));
  }

  lemma ProductOverFactor(c: real, d: real)
    requires d != 0.0
    ensures Mul(c, d) / d == c
  {
  }

  lemma LineMoments(n: real, sx: real, sxx: real, c: real)
    ensures Mul(n, Mul(c, sxx)) - Mul(sx, Mul(c, sx)) == Mul(c, Mul(n, sxx) - Mul(sx, sx))
  {
    assert n * (c * sxx) == c * (n * sxx) && sx * (c * sx) == c * (sx * sx);
  }
}
