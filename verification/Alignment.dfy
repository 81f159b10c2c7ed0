/** The reward-alignment report: means, variances, Pearson correlation and the alignment class, over exact reals. */
module Alignment {
  import opened Prelude

  function Times(x: real, y: real): real { x * y }

  function Sum(xs: seq<real>): real { if xs == [] then 0.0 else xs[0] + Sum(xs[1..]) }

  function Mean(xs: seq<real>): real { if xs == [] then 0.0 else Sum(xs) / (|xs| as real) }

  /** Every value minus `m`. */
  function Minus(xs: seq<real>, m: real): seq<real> { if xs == [] then [] else [xs[0] - m] + Minus(xs[1..], m) }

  function Deviations(xs: seq<real>): seq<real> { Minus(xs, Mean(xs)) }

  function Dot(xs: seq<real>, ys: seq<real>): real
    requires |xs| == |ys|
  {
    if xs == [] then 0.0 else Times(xs[0], ys[0]) + Dot(xs[1..], ys[1..])
  }

  function Variance(xs: seq<real>): real {
    if |xs| < 2 then 0.0 else Dot(Deviations(xs), Deviations(xs)) / (|xs| as real)
  }

  /** `n` is the exact square root that `math.sqrt` stands for. */
  predicate IsNorm(xs: seq<real>, n: real) { n >= 0.0 && Times(n, n) == Dot(Deviations(xs), Deviations(xs)) }

  lemma {:induction false} MinusKeepsLength(xs: seq<real>, m: real)
    ensures |Minus(xs, m)| == |xs|
  {
    if xs != [] { MinusKeepsLength(xs[1..], m); }
  }

  lemma TimesIsNonZero(x: real, y: real)
    requires x != 0.0 && y != 0.0
    ensures Times(x, y) != 0.0
  {
  }

  /** `_pearson`, given the two norms. */
  function Pearson(xs: seq<real>, ys: seq<real>, nx: real, ny: real): Option<real> {
    MinusKeepsLength(xs, Mean(xs));
    MinusKeepsLength(ys, Mean(ys));
    if |xs| != |ys| || |xs| < 2 then None
    else if nx == 0.0 || ny == 0.0 then None
    else
      TimesIsNonZero(nx, ny);
      Some(Dot(Deviations(xs), Deviations(ys)) / Times(nx, ny))
  }

  // ---- a correlation lies between -1 and 1 ---------------------------------------------------------------------------------

  lemma SquareIsNonNegative(x: real)
    ensures x * x >= 0.0
  {
  }

  lemma {:induction false} DotSquareIsNonNegative(xs: seq<real>)
    ensures Dot(xs, xs) >= 0.0
  {
    if xs != [] {
      SquareIsNonNegative(xs[0]);
      DotSquareIsNonNegative(xs[1..]);
    }
  }

  lemma ProductIsNonNegative(x: real, y: real)
    requires x >= 0.0 && y >= 0.0
    ensures x * y >= 0.0 && Times(x, y) >= 0.0
  {
  }

  lemma ProductIsPositive(x: real, y: real)
    requires x > 0.0 && y > 0.0
    ensures x * y > 0.0 && Times(x, y) > 0.0
  {
  }

  lemma SquareGrows(x: real, y: real)
    requires 0.0 <= y < x
    ensures y * y < x * x
  {
    assert x * x - y * y == (x - y) * (x + y);
    ProductIsPositive(x - y, x + y);
  }

  lemma RootIsMonotone(x: real, y: real)
    requires y >= 0.0 && Times(x, x) <= Times(y, y)
    ensures -y <= x <= y
  {
    if x > y {
      SquareGrows(x, y);
    } else if -x > y {
      SquareGrows(-x, y);
    }
  }

  /** The step of Cauchy-Schwarz: `|2 s a b| <= x b^2 + y a^2` when `s^2 <= x y`. */
  lemma CrossTerm(s: real, x: real, y: real, a: real, b: real)
    requires x >= 0.0 && y >= 0.0 && Times(s, s) <= Times(x, y)
    ensures -(x * (b * b) + y * (a * a)) <= 2.0 * (s * (a * b)) <= x * (b * b) + y * (a * a)
  {
    var p, q := x * (b * b), y * (a * a);
    SquareIsNonNegative(a);
    SquareIsNonNegative(b);
    ProductIsNonNegative(x, b * b);
    ProductIsNonNegative(y, a * a);
    FourProducts(s, x, y, a, b);
    SquareIsNonNegative(p - q);
    assert (p + q) * (p + q) == 4.0 * (p * q) + (p - q) * (p - q);
    RootIsMonotone(2.0 * (s * (a * b)), p + q);
  }

  lemma FourProducts(s: real, x: real, y: real, a: real, b: real)
    requires Times(s, s) <= Times(x, y)
    ensures (2.0 * (s * (a * b))) * (2.0 * (s * (a * b))) <= 4.0 * ((x * (b * b)) * (y * (a * a)))
  {
    var c := (a * b) * (a * b);
    SquareIsNonNegative(a * b);
    assert (2.0 * (s * (a * b))) * (2.0 * (s * (a * b))) == 4.0 * ((s * s) * c);
    assert (x * (b * b)) * (y * (a * a)) == (x * y) * c;
    ProductIsNonNegative(x * y - s * s, c);
    assert (x * y - s * s) * c == (x * y) * c - (s * s) * c;
  }

  /** `(ab + s)^2 <= (a^2 + x)(b^2 + y)`. */
  lemma AddTerm(s: real, x: real, y: real, a: real, b: real)
    requires x >= 0.0 && y >= 0.0 && Times(s, s) <= Times(x, y)
    ensures Times(Times(a, b) + s, Times(a, b) + s) <= Times(Times(a, a) + x, Times(b, b) + y)
  {
    CrossTerm(s, x, y, a, b);
    Expand(s, x, y, a, b);
  }

  lemma Expand(s: real, x: real, y: real, a: real, b: real)
    ensures Times(Times(a, b) + s, Times(a, b) + s) == (a * a) * (b * b) + 2.0 * (s * (a * b)) + Times(s, s)
    ensures Times(Times(a, a) + x, Times(b, b) + y) == (a * a) * (b * b) + (x * (b * b) + y * (a * a)) + Times(x, y)
  {
    assert (a * b + s) * (a * b + s) == (a * b) * (a * b) + 2.0 * (s * (a * b)) + s * s;
    assert (a * a + x) * (b * b + y) == (a * a) * (b * b) + y * (a * a) + x * (b * b) + x * y;
    assert (a * b) * (a * b) == (a * a) * (b * b);
  }

  lemma DotFirst(xs: seq<real>, ys: seq<real>)
    requires |xs| == |ys| && xs != []
    ensures Dot(xs, ys) == Times(xs[0], ys[0]) + Dot(xs[1..], ys[1..])
  {
  }

  lemma {:induction false} CauchySchwarz(xs: seq<real>, ys: seq<real>)
    requires |xs| == |ys|
    ensures Times(Dot(xs, ys), Dot(xs, ys)) <= Times(Dot(xs, xs), Dot(ys, ys))
  {
    if xs != [] {
      hide Times;
      CauchySchwarz(xs[1..], ys[1..]);
      DotSquareIsNonNegative(xs[1..]);
      DotSquareIsNonNegative(ys[1..]);
      AddTerm(Dot(xs[1..], ys[1..]), Dot(xs[1..], xs[1..]), Dot(ys[1..], ys[1..]), xs[0], ys[0]);
      DotFirst(xs, ys);
      DotFirst(xs, xs);
      DotFirst(ys, ys);
    }
  }

  lemma QuotientIsBounded(d: real, n: real)
    requires n > 0.0 && -n <= d <= n
    ensures -1.0 <= d / n <= 1.0
  {
  }

  lemma SquareOfProduct(x: real, y: real)
    ensures Times(Times(x, y), Times(x, y)) == Times(Times(x, x), Times(y, y))
  {
  }

  lemma DotIsBounded(xs: seq<real>, ys: seq<real>, nx: real, ny: real)
    requires |xs| == |ys| && nx > 0.0 && ny > 0.0 && Times(nx, nx) == Dot(xs, xs) && Times(ny, ny) == Dot(ys, ys)
    ensures Times(nx, ny) != 0.0 && -1.0 <= Dot(xs, ys) / Times(nx, ny) <= 1.0
  {
    CauchySchwarz(xs, ys);
    ProductIsPositive(nx, ny);
    var d, n := Dot(xs, ys), Times(nx, ny);
    SquareOfProduct(nx, ny);
    RootIsMonotone(d, n);
    QuotientIsBounded(d, n);
  }

  /** The correlation is undefined exactly for unequal or short sequences and constant ones; else it is within [-1, 1]. */
  lemma PearsonIsCorrelation(xs: seq<real>, ys: seq<real>, nx: real, ny: real)
    requires IsNorm(xs, nx) && IsNorm(ys, ny)
    ensures Pearson(xs, ys, nx, ny).None? <==> |xs| != |ys| || |xs| < 2 || Variance(xs) == 0.0 || Variance(ys) == 0.0
    ensures Pearson(xs, ys, nx, ny).Some? ==> -1.0 <= Pearson(xs, ys, nx, ny).value <= 1.0
  {
    if |xs| == |ys| && |xs| >= 2 {
      NormVanishes(xs, nx);
      NormVanishes(ys, ny);
      if nx != 0.0 && ny != 0.0 {
        MinusKeepsLength(xs, Mean(xs));
        MinusKeepsLength(ys, Mean(ys));
        DotIsBounded(Deviations(xs), Deviations(ys), nx, ny);
      }
    }
  }

  lemma QuotientVanishes(d: real, c: real)
    requires c != 0.0
    ensures d / c == 0.0 <==> d == 0.0
  {
    var q := d / c;
    assert d == q * c;
  }

  lemma NormVanishes(xs: seq<real>, n: real)
    requires IsNorm(xs, n) && |xs| >= 2
    ensures n == 0.0 <==> Variance(xs) == 0.0
  {
    var d := Dot(Deviations(xs), Deviations(xs));
    QuotientVanishes(d, |xs| as real);
    RootVanishes(n, d);
  }

  lemma RootVanishes(n: real, d: real)
    requires n >= 0.0 && Times(n, n) == d
    ensures n == 0.0 <==> d == 0.0
  {
    if n > 0.0 { ProductIsPositive(n, n); }
  }

  // ---- rescaling the rewards -------------------------------------------------------------------------------------------------

  function Affine(a: real, b: real, xs: seq<real>): seq<real> {
    if xs == [] then [] else [Times(a, xs[0]) + b] + Affine(a, b, xs[1..])
  }

  function Scale(a: real, xs: seq<real>): seq<real> { if xs == [] then [] else [Times(a, xs[0])] + Scale(a, xs[1..]) }

  lemma {:induction false} AffineSum(a: real, b: real, xs: seq<real>)
    ensures |Affine(a, b, xs)| == |xs| && Sum(Affine(a, b, xs)) == a * Sum(xs) + b * (|xs| as real)
  {
    if xs != [] {
      AffineSum(a, b, xs[1..]);
      var s, n := Sum(xs[1..]), |xs[1..]| as real;
      assert a * (xs[0] + s) == a * xs[0] + a * s;
      assert b * (n + 1.0) == b * n + b;
    }
  }

  lemma AffineMean(a: real, b: real, xs: seq<real>)
    requires xs != []
    ensures Affine(a, b, xs) != [] && Mean(Affine(a, b, xs)) == a * Mean(xs) + b
  {
    AffineSum(a, b, xs);
    var s, n := Sum(xs), |xs| as real;
    assert (a * s + b * n) / n == a * (s / n) + b by {
      assert s == (s / n) * n;
      assert a * ((s / n) * n) == (a * (s / n)) * n;
      QuotientOf(a * (s / n) + b, n);
    }
  }

  lemma QuotientOf(q: real, n: real)
    requires n != 0.0
    ensures (q * n) / n == q
  {
  }

  lemma ScaleCons(a: real, v: real, t: seq<real>)
    ensures Scale(a, [v] + t) == [Times(a, v)] + Scale(a, t)
  {
    assert ([v] + t)[1..] == t;
  }

  lemma MinusCons(v: real, t: seq<real>, m: real)
    ensures Minus([v] + t, m) == [v - m] + Minus(t, m)
  {
    assert ([v] + t)[1..] == t;
  }

  lemma {:induction false} AffineMinus(a: real, b: real, xs: seq<real>, m: real, k: real)
    requires k == a * m + b
    ensures Minus(Affine(a, b, xs), k) == Scale(a, Minus(xs, m))
  {
    if xs != [] {
      AffineMinus(a, b, xs[1..], m, k);
      MinusCons(Times(a, xs[0]) + b, Affine(a, b, xs[1..]), k);
      ScaleCons(a, xs[0] - m, Minus(xs[1..], m));
      assert Times(a, xs[0]) + b - k == Times(a, xs[0] - m);
    }
  }

  lemma {:induction false} DotIsSymmetric(xs: seq<real>, ys: seq<real>)
    requires |xs| == |ys|
    ensures Dot(xs, ys) == Dot(ys, xs)
  {
    if xs != [] { DotIsSymmetric(xs[1..], ys[1..]); }
  }

  lemma {:induction false} ScaleDot(a: real, xs: seq<real>, ys: seq<real>)
    requires |xs| == |ys|
    ensures |Scale(a, xs)| == |xs|
    ensures Dot(Scale(a, xs), ys) == Times(a, Dot(xs, ys)) && Dot(ys, Scale(a, xs)) == Times(a, Dot(ys, xs))
  {
    if xs != [] {
      ScaleDot(a, xs[1..], ys[1..]);
      assert Scale(a, xs)[1..] == Scale(a, xs[1..]);
      var d := Dot(xs[1..], ys[1..]);
      assert Times(a, Times(xs[0], ys[0]) + d) == Times(Times(a, xs[0]), ys[0]) + Times(a, d);
      assert Times(a, Times(ys[0], xs[0]) + d) == Times(ys[0], Times(a, xs[0])) + Times(a, d);
      DotIsSymmetric(xs[1..], ys[1..]);
    }
  }

  /** Deviations scale, so variances scale by the square and norms by the factor. */
  lemma AffineDeviations(a: real, b: real, xs: seq<real>)
    requires xs != []
    ensures Deviations(Affine(a, b, xs)) == Scale(a, Deviations(xs))
    ensures Dot(Deviations(Affine(a, b, xs)), Deviations(Affine(a, b, xs))) 
            == Times(Times(a, a), Dot(Deviations(xs), Deviations(xs)))
  {
    hide Times, Dot, Scale, Affine, Mean, Minus;
    AffineMean(a, b, xs);
    AffineMinus(a, b, xs, Mean(xs), Mean(Affine(a, b, xs)));
    var d := Deviations(xs);
    ScaleDot(a, d, d);
    ScaleDot(a, d, Scale(a, d));
    assert Dot(Scale(a, d), Scale(a, d)) == Times(a, Dot(d, Scale(a, d))) == Times(a, Times(a, Dot(d, d)));
    TimesAssociates(a, a, Dot(d, d));
  }

  lemma TimesAssociates(a: real, b: real, c: real)
    ensures Times(a, Times(b, c)) == Times(Times(a, b), c)
  {
  }

  lemma NormScales(a: real, b: real, xs: seq<real>, n: real, n': real)
    requires a > 0.0 && xs != [] && IsNorm(xs, n) && IsNorm(Affine(a, b, xs), n')
    ensures n' == Times(a, n)
  {
    AffineDeviations(a, b, xs);
    ProductIsNonNegative(a, n);
    SquareOfProduct(a, n);
    RootIsMonotone(n', Times(a, n));
    RootIsMonotone(Times(a, n), n');
  }

  lemma PearsonIs(xs: seq<real>, ys: seq<real>, nx: real, ny: real)
    requires |xs| == |ys| && |xs| >= 2
    ensures |Deviations(xs)| == |Deviations(ys)| == |xs|
    ensures nx == 0.0 || ny == 0.0 ==> Pearson(xs, ys, nx, ny) == None
    ensures nx != 0.0 && ny != 0.0 ==>
              Times(nx, ny) != 0.0 && Pearson(xs, ys, nx, ny) == Some(Dot(Deviations(xs), Deviations(ys)) / Times(nx, ny))
  {
    MinusKeepsLength(xs, Mean(xs));
    MinusKeepsLength(ys, Mean(ys));
  }

  /** A positive affine rescaling of one side changes no correlation. */
  lemma PearsonIsScaleFree(a: real, b: real, xs: seq<real>, ys: seq<real>, nx: real, nx': real, ny: real)
    requires a > 0.0 && IsNorm(xs, nx) && IsNorm(Affine(a, b, xs), nx') && IsNorm(ys, ny)
    ensures Pearson(Affine(a, b, xs), ys, nx', ny) == Pearson(xs, ys, nx, ny)
  {
    AffineSum(a, b, xs);
    if |xs| == |ys| && |xs| >= 2 {
      NormScales(a, b, xs, nx, nx');
      AffineDeviations(a, b, xs);
      PearsonIs(xs, ys, nx, ny);
      PearsonIs(Affine(a, b, xs), ys, nx', ny);
      ScaleDot(a, Deviations(xs), Deviations(ys));
      if nx > 0.0 { ProductIsPositive(a, nx); }
      if nx != 0.0 && ny != 0.0 { CancelFactor(a, Dot(Deviations(xs), Deviations(ys)), nx, ny); }
    }
  }

  lemma CancelFactor(a: real, d: real, nx: real, ny: real)
    requires a > 0.0 && Times(nx, ny) != 0.0 && Times(Times(a, nx), ny) != 0.0
    ensures Times(a, d) / Times(Times(a, nx), ny) == d / Times(nx, ny)
  {
    var n := Times(nx, ny);
    var q := d / n;
    assert Times(Times(a, nx), ny) == a * n;
    assert d == q * n;
    assert Times(a, d) == q * (a * n);
    QuotientOf(q, a * n);
  }

  // ---- what is computed, without deviations ----------------------------------------------------------------------------------

  lemma {:induction false} MinusSum(xs: seq<real>, m: real)
    ensures Sum(Minus(xs, m)) == Sum(xs) - m * |xs| as real
  {
    if xs != [] {
      MinusSum(xs[1..], m);
      assert Minus(xs, m)[1..] == Minus(xs[1..], m);
      assert m * |xs| as real == m * |xs[1..]| as real + m;
    }
  }

  lemma MeanTotals(xs: seq<real>)
    ensures Mean(xs) * |xs| as real == Sum(xs) && Mean([]) == 0.0
  {
    if xs != [] {
      var n := |xs| as real;
      assert (Sum(xs) / n) * n == Sum(xs);
    }
  }

  /** The mean is where the deviations balance. */
  lemma DeviationsBalance(xs: seq<real>)
    ensures Sum(Deviations(xs)) == 0.0
  {
    MinusSum(xs, Mean(xs));
    MeanTotals(xs);
  }

  lemma OneMinus(x: real, y: real, a: real, b: real)
    ensures Times(x - a, y - b) == Times(x, y) - Times(a, y) - Times(b, x) + Times(a, b)
  {
  }

  lemma TimesAdds(a: real, x: real, y: real)
    ensures Times(a, x + y) == Times(a, x) + Times(a, y)
  {
  }

  lemma MinusFirst(xs: seq<real>, m: real)
    requires xs != []
    ensures Minus(xs, m) == [xs[0] - m] + Minus(xs[1..], m) && Minus(xs, m)[1..] == Minus(xs[1..], m)
  {
  }

  lemma {:induction false} MinusDot(xs: seq<real>, ys: seq<real>, a: real, b: real)
    requires |xs| == |ys|
    ensures |Minus(xs, a)| == |Minus(ys, b)| == |xs|
    ensures Dot(Minus(xs, a), Minus(ys, b))
            == Dot(xs, ys) - Times(a, Sum(ys)) - Times(b, Sum(xs)) + Times(Times(a, b), |xs| as real)
  {
    MinusKeepsLength(xs, a);
    MinusKeepsLength(ys, b);
    if xs != [] {
      hide Times, Dot, Minus;
      MinusDot(xs[1..], ys[1..], a, b);
      MinusFirst(xs, a);
      MinusFirst(ys, b);
      DotFirst(xs, ys);
      DotFirst(Minus(xs, a), Minus(ys, b));
      OneMinus(xs[0], ys[0], a, b);
      TimesAdds(a, ys[0], Sum(ys[1..]));
      TimesAdds(b, xs[0], Sum(xs[1..]));
      TimesAdds(Times(a, b), |xs[1..]| as real, 1.0);
      TimesOne(Times(a, b));
      assert |xs| as real == |xs[1..]| as real + 1.0;
    }
  }

  lemma TimesOne(a: real)
    ensures Times(a, 1.0) == a
  {
  }

  /** `n` times the sum of the deviations' products is `n` times the sum of products less the product of the sums. */
  lemma DeviationProducts(xs: seq<real>, ys: seq<real>)
    requires |xs| == |ys|
    ensures |Deviations(xs)| == |Deviations(ys)|
    ensures Times(|xs| as real, Dot(Deviations(xs), Deviations(ys))) == Times(|xs| as real, Dot(xs, ys)) - Times(Sum(xs), Sum(ys))
  {
    hide Times, Dot, Minus, Sum, Mean;
    var n, mx, my := |xs| as real, Mean(xs), Mean(ys);
    MinusDot(xs, ys, mx, my);
    MeanIs(xs);
    MeanIs(ys);
    ScaleAll(Dot(xs, ys), mx, my, n, Sum(xs), Sum(ys));
  }

  lemma MeanIs(xs: seq<real>)
    ensures Times(|xs| as real, Mean(xs)) == Sum(xs)
  {
    MeanTotals(xs);
  }

  lemma ScaleAll(d: real, mx: real, my: real, n: real, sx: real, sy: real)
    requires Times(n, mx) == sx && Times(n, my) == sy
    ensures Times(n, d - Times(mx, sy) - Times(my, sx) + Times(Times(mx, my), n)) == Times(n, d) - Times(sx, sy)
  {
    assert n * (mx * sy) == (n * mx) * sy && n * (my * sx) == (n * my) * sx;
    assert n * ((mx * my) * n) == (n * mx) * (n * my);
    assert n * (d - mx * sy - my * sx + (mx * my) * n) == n * d - n * (mx * sy) - n * (my * sx) + n * ((mx * my) * n);
  }

  /** The correlation by the raw sums: `n` times the sum of products less the product of sums, over `n` times the norms. */
  lemma PearsonBySums(xs: seq<real>, ys: seq<real>, nx: real, ny: real)
    requires IsNorm(xs, nx) && IsNorm(ys, ny) && Pearson(xs, ys, nx, ny).Some?
    ensures |xs| == |ys|
    ensures Times(|xs| as real, Times(Pearson(xs, ys, nx, ny).value, Times(nx, ny)))
            == Times(|xs| as real, Dot(xs, ys)) - Times(Sum(xs), Sum(ys))
    ensures Times(|xs| as real, Times(nx, nx)) == Times(|xs| as real, Dot(xs, xs)) - Times(Sum(xs), Sum(xs))
  {
    PearsonSides(xs, ys, nx, ny);
    hide Times, Dot, Minus, Sum, Mean, Pearson;
    DeviationProducts(xs, ys);
    DeviationProducts(xs, xs);
    PearsonIs(xs, ys, nx, ny);
    QuotientTimes(Dot(Deviations(xs), Deviations(ys)), Times(nx, ny));
  }

  lemma PearsonSides(xs: seq<real>, ys: seq<real>, nx: real, ny: real)
    requires Pearson(xs, ys, nx, ny).Some?
    ensures |xs| == |ys| && |xs| >= 2 && nx != 0.0 && ny != 0.0
  {
  }

  lemma QuotientTimes(d: real, n: real)
    requires n != 0.0
    ensures Times(d / n, n) == d && Times(n, d / n) == d
  {
  }

  /** The variance is the mean of the squares less the square of the mean; one value or none has none. */
  lemma VarianceBySums(xs: seq<real>)
    ensures |xs| >= 2 ==>
              Times(|xs| as real, Times(|xs| as real, Variance(xs))) == Times(|xs| as real, Dot(xs, xs)) - Times(Sum(xs), Sum(xs))
    ensures |xs| < 2 ==> Variance(xs) == 0.0
  {
    if |xs| >= 2 {
      hide Times, Dot, Minus, Sum, Mean;
      DeviationProducts(xs, xs);
      QuotientTimes(Dot(Deviations(xs), Deviations(xs)), |xs| as real);
    }
  }

  lemma {:induction false} ConstantDeviations(x: real, xs: seq<real>)
    requires forall i | 0 <= i < |xs| :: xs[i] == x
    ensures |Minus(xs, x)| == |xs| && Dot(Minus(xs, x), Minus(xs, x)) == 0.0
  {
    if xs != [] { ConstantDeviations(x, xs[1..]); }
  }

  lemma {:induction false} ConstantSum(x: real, xs: seq<real>)
    requires forall i | 0 <= i < |xs| :: xs[i] == x
    ensures Sum(xs) == x * |xs| as real
  {
    if xs != [] {
      ConstantSum(x, xs[1..]);
      assert x * |xs| as real == x * |xs[1..]| as real + x;
    }
  }

  /** A sequence of one value over and over has the norm zero, and no correlation with any other. */
  lemma ConstantHasNoCorrelation(x: real, xs: seq<real>, ys: seq<real>, ny: real)
    requires forall i | 0 <= i < |xs| :: xs[i] == x
    ensures IsNorm(xs, 0.0) && Pearson(xs, ys, 0.0, ny) == None
  {
    if xs != [] {
      ConstantSum(x, xs);
      QuotientOf(x, |xs| as real);
      assert Mean(xs) == x;
      ConstantDeviations(x, xs);
      assert Dot(Deviations(xs), Deviations(xs)) == 0.0 == Times(0.0, 0.0);
    }
  }

  // ---- the class -----------------------------------------------------------------------------------------------------------------

  function AtLeast(r: Option<real>, bound: real): bool { r.Some? && r.value >= bound }

  function BelowOrNone(r: Option<real>, bound: real): bool { r.None? || r.value < bound }

  /** `_alignment_classification` */
  function Classify(variance: real, hit: Option<real>, active: Option<real>, target: Option<real>, dead: Option<real>): string {
    if variance == 0.0 then "constant_reward"
    else if hit.None? && active.None? && target.None? && dead.None? then "saturated_or_constant_dataset"
    else if AtLeast(hit, 0.70) && AtLeast(active, 0.70) && dead.Some? && dead.value <= -0.70 then "breadth_aligned"
    else if AtLeast(target, 0.70) && BelowOrNone(hit, 0.50) && BelowOrNone(active, 0.50) then "target_only_aligned"
    else "weak_or_mixed_alignment"
  }

  /** A dataset's columns, one entry a row, each with its norm. */
  datatype Column = Column(values: seq<real>, norm: real) {
    ghost predicate Valid(n: nat) { |values| == n && IsNorm(values, norm) }
  }

  function Correlation(rewards: Column, metric: Column): Option<real> {
    Pearson(rewards.values, metric.values, rewards.norm, metric.norm)
  }

  function ClassOf(rewards: Column, hit: Column, active: Column, target: Column, dead: Column): string {
    Classify(Variance(rewards.values), Correlation(rewards, hit), Correlation(rewards, active),
             Correlation(rewards, target), Correlation(rewards, dead))
  }

  ghost predicate ValidDataset(n: nat, rewards: Column, hit: Column, active: Column, target: Column, dead: Column) {
    rewards.Valid(n) && hit.Valid(n) && active.Valid(n) && target.Valid(n) && dead.Valid(n)
  }

  /** The class of a dataset does not depend on the unit or the origin of its rewards. */
  lemma ClassIsScaleFree(n: nat, a: real, b: real, rewards: Column, norm: real, hit: Column, active: Column, target: Column,
                         dead: Column)
    requires a > 0.0 && ValidDataset(n, rewards, hit, active, target, dead) && IsNorm(Affine(a, b, rewards.values), norm)
    ensures ClassOf(Column(Affine(a, b, rewards.values), norm), hit, active, target, dead)
            == ClassOf(rewards, hit, active, target, dead)
  {
    VarianceVanishesTogether(a, b, rewards.values, rewards.norm, norm);
    PearsonIsScaleFree(a, b, rewards.values, hit.values, rewards.norm, norm, hit.norm);
    PearsonIsScaleFree(a, b, rewards.values, active.values, rewards.norm, norm, active.norm);
    PearsonIsScaleFree(a, b, rewards.values, target.values, rewards.norm, norm, target.norm);
    PearsonIsScaleFree(a, b, rewards.values, dead.values, rewards.norm, norm, dead.norm);
  }

  lemma VarianceVanishesTogether(a: real, b: real, xs: seq<real>, n: real, n': real)
    requires a > 0.0 && IsNorm(xs, n) && IsNorm(Affine(a, b, xs), n')
    ensures Variance(xs) == 0.0 <==> Variance(Affine(a, b, xs)) == 0.0
  {
    AffineSum(a, b, xs);
    if |xs| >= 2 {
      NormScales(a, b, xs, n, n');
      NormVanishes(xs, n);
      NormVanishes(Affine(a, b, xs), n');
      if n > 0.0 { ProductIsPositive(a, n); }
    }
  }

  /** The first two classes say what they are named for: constant rewards, or varying rewards with constant metrics only. */
  lemma ConstantClassesMeanConstant(n: nat, rewards: Column, hit: Column, active: Column, target: Column, dead: Column)
    requires ValidDataset(n, rewards, hit, active, target, dead)
    ensures ClassOf(rewards, hit, active, target, dead) == "constant_reward" <==> Variance(rewards.values) == 0.0
    ensures ClassOf(rewards, hit, active, target, dead) == "saturated_or_constant_dataset" <==>
            Variance(rewards.values) != 0.0 && Variance(hit.values) == 0.0 && Variance(active.values) == 0.0
            && Variance(target.values) == 0.0 && Variance(dead.values) == 0.0
  {
    PearsonIsCorrelation(rewards.values, hit.values, rewards.norm, hit.norm);
    PearsonIsCorrelation(rewards.values, active.values, rewards.norm, active.norm);
    PearsonIsCorrelation(rewards.values, target.values, rewards.norm, target.norm);
    PearsonIsCorrelation(rewards.values, dead.values, rewards.norm, dead.norm);
  }

  /** Correlated to a degree of at least, or at most, a bound. */
  predicate Above(r: Option<real>, bound: real) { match r case None => false case Some(v) => v >= bound }

  predicate Below(r: Option<real>, bound: real) { match r case None => false case Some(v) => v <= bound }

  /**
   The classes by the correlations, whatever the dataset. Breadth: points hit and active regions rise with the reward by
   seven tenths, dead regions fall by as much. Target only: the target rises so, while neither breadth metric reaches a
   half. Weak: neither of these, with rewards that vary and some metric that does.
   */
  lemma ClassesByCorrelation(variance: real, hit: Option<real>, active: Option<real>, target: Option<real>, dead: Option<real>)
    ensures var c := Classify(variance, hit, active, target, dead);
            && (c == "constant_reward" <==> variance == 0.0)
            && (c == "saturated_or_constant_dataset" <==> variance != 0.0 && hit == active == target == dead == None)
            && (c == "breadth_aligned" <==> variance != 0.0 && Above(hit, 0.7) && Above(active, 0.7) && Below(dead, -0.7))
            && (c == "target_only_aligned" <==> variance != 0.0 && Above(target, 0.7) && !Above(hit, 0.5) && !Above(active, 0.5))
            && (c == "weak_or_mixed_alignment" <==>
                  && variance != 0.0 && !(hit == active == target == dead == None)
                  && !(Above(hit, 0.7) && Above(active, 0.7) && Below(dead, -0.7))
                  && !(Above(target, 0.7) && !Above(hit, 0.5) && !Above(active, 0.5)))
  {
    assert |"constant_reward"| == 15 && |"saturated_or_constant_dataset"| == 29 && |"breadth_aligned"| == 15
           && |"target_only_aligned"| == 19 && |"weak_or_mixed_alignment"| == 23;
    assert "constant_reward"[0] == 'c' && "breadth_aligned"[0] == 'b';
  }
}
