/** The Wilson score interval, over the reals. */
module Wilson {
  import opened Basics

  /** `x ** 0.5` on the nonnegative reals. */
  ghost predicate SquareRoot(sqrt: real -> real) {
    forall x :: x >= 0.0 ==> sqrt(x) >= 0.0 && sqrt(x) * sqrt(x) == x
  }

  datatype Interval = Interval(lower: real, upper: real)

  function Share(successes: int, total: int): real
    requires total > 0
  {
    successes as real / total as real
  }

  function Spread(p: real, n: real, z: real, sqrt: real -> real): real
    requires n > 0.0
  {
    z * sqrt((p * (1.0 - p) + z * z / (4.0 * n)) / n)
  }

  /** `wilson_score_interval`: no interval for a small sample, an error for impossible counts. */
  function ScoreInterval(successes: int, total: int, z: real, minTotal: int,
                         sqrt: real -> real): Result<Option<Interval>> {
    if total < minTotal then Ok(None)
    else if successes < 0 || total < 0 || successes > total then Err("invalid counts")
    else if total == 0 then Err("division by zero")
    else
      var n := total as real;
      var p := Share(successes, total);
      var denominator := 1.0 + z * z / n;
      var center := p + z * z / (2.0 * n);
      var spread := Spread(p, n, z, sqrt);
      Ok(Some(Interval((center - spread) / denominator, (center + spread) / denominator)))
  }

  // ----- Arithmetic -----

  lemma ProductSign(x: real, y: real)
    requires x >= 0.0 && y >= 0.0
    ensures x * y >= 0.0
  {
  }

  lemma ProductPositive(x: real, y: real)
    requires x > 0.0 && y > 0.0
    ensures x * y > 0.0
  {
    ProductSign(x, y);
    var r := 1.0 / y;
    assert r * y == 1.0;
    if x * y == 0.0 {
      Regroup(x, y, r);
      assert x * (y * r) == x;
    }
  }

  lemma Regroup(x: real, y: real, z: real)
    ensures x * y * z == x * (y * z)
  {
  }

  lemma SquareGap(x: real, y: real)
    ensures (x - y) * (x + y) == x * x - y * y
  {
  }

  lemma LargerSquare(x: real, y: real)
    requires 0.0 <= y < x
    ensures y * y < x * x
  {
    ProductPositive(x - y, x + y);
    SquareGap(x, y);
  }

  /** Squares order nonnegative reals. */
  lemma SquareOrder(x: real, y: real)
    requires y >= 0.0 && x * x <= y * y
    ensures x <= y
  {
    if x > y { LargerSquare(x, y); }
  }

  lemma Cancel(x: real, y: real, d: real)
    requires d > 0.0 && x * d == y * d
    ensures x == y
  {
    if x < y { StretchLess(x, y, d); }
    if y < x { StretchLess(y, x, d); }
  }

  lemma StretchLess(x: real, y: real, d: real)
    requires d > 0.0 && x < y
    ensures x * d < y * d
  {
    ProductPositive(y - x, d);
    assert (y - x) * d == y * d - x * d;
  }

  lemma Quotient(x: real, d: real, q: real)
    requires d > 0.0 && q * d == x
    ensures x / d == q
  {
    Cancel(x / d, q, d);
  }

  lemma SquareZero(x: real, y: real)
    requires x * x == y * y
    ensures x == y || x == -y
  {
    SquareGap(x, y);
    if x - y > 0.0 && x + y > 0.0 { ProductPositive(x - y, x + y); }
    if x - y > 0.0 && x + y < 0.0 { NegatedPositive(x - y, x + y); }
    if x - y < 0.0 && x + y > 0.0 { NegatedPositive(x + y, x - y); }
    if x - y < 0.0 && x + y < 0.0 { ProductPositive(y - x, -(x + y)); NegatedTwice(x - y, x + y); }
  }

  lemma NegatedPositive(x: real, y: real)
    requires x > 0.0 && y < 0.0
    ensures x * y < 0.0 && y * x < 0.0
  {
    ProductPositive(x, -y);
    assert x * -y == -(x * y);
  }

  lemma NegatedTwice(x: real, y: real)
    ensures (-x) * (-y) == x * y
  {
  }

  lemma Divide(x: real, y: real, d: real)
    requires d > 0.0
    ensures x / d * d == x
    ensures x <= y <==> x / d <= y / d
    ensures 0.0 <= x ==> 0.0 <= x / d
    ensures x <= d ==> x / d <= 1.0
  {
    var q, r := x / d, y / d;
    assert q * d == x && r * d == y;
    if q < r { StretchLess(q, r, d); }
    if q > r { StretchLess(r, q, d); }
    if q < 0.0 { StretchLess(q, 0.0, d); }
    if q > 1.0 { StretchLess(1.0, q, d); }
  }

  // ----- The quadratic -----

  /** The square of the spread, with `a = z * z / n`. */
  ghost predicate SpreadSquared(s: real, p: real, a: real) {
    s * s == a * (p * (1.0 - p)) + a * a / 4.0
  }

  lemma QuarterTerm(zz: real, n: real, a: real)
    requires n > 0.0 && a * n == zz
    ensures zz / (4.0 * n) == a / 4.0
  {
    assert a / 4.0 * (4.0 * n) == zz;
    Quotient(zz, 4.0 * n, a / 4.0);
  }

  lemma SquareOfProduct(z: real, root: real)
    ensures (z * root) * (z * root) == (z * z) * (root * root)
  {
    Regroup(z, root, z * root);
    assert root * (z * root) == z * (root * root);
    Regroup(z, z, root * root);
  }

  lemma SwapFactor(a: real, n: real, zz: real, r: real, b: real)
    requires a * n == zz && r * n == b
    ensures zz * r == a * b
  {
    Regroup(a, n, r);
    assert n * r == r * n;
  }

  lemma Radicand(q: real, a: real, n: real)
    requires q >= 0.0 && a >= 0.0 && n > 0.0
    ensures (q + a / 4.0) / n >= 0.0 && (q + a / 4.0) / n * n == q + a / 4.0
  {
    Divide(q + a / 4.0, 0.0, n);
  }

  lemma SpreadSum(q: real, a: real)
    ensures a * (q + a / 4.0) == a * q + a * a / 4.0
  {
  }

  lemma RootSquare(sqrt: real -> real, x: real)
    requires SquareRoot(sqrt) && x >= 0.0
    ensures sqrt(x) >= 0.0 && sqrt(x) * sqrt(x) == x
  {
  }

  lemma SpreadFrom(z: real, root: real, q: real, a: real, n: real, r: real)
    requires root * root == r && r * n == q + a / 4.0 && a * n == z * z
    ensures (z * root) * (z * root) == a * q + a * a / 4.0
  {
    SquareOfProduct(z, root);
    SwapFactor(a, n, z * z, r, q + a / 4.0);
    SpreadSum(q, a);
  }

  lemma SpreadSquare(p: real, n: real, z: real, a: real, sqrt: real -> real)
    requires SquareRoot(sqrt) && n > 0.0 && z >= 0.0 && 0.0 <= p <= 1.0 && a == z * z / n
    ensures Spread(p, n, z, sqrt) >= 0.0 && SpreadSquared(Spread(p, n, z, sqrt), p, a)
  {
    var q := p * (1.0 - p);
    ProductSign(p, 1.0 - p);
    ScaleTerm(z, n);
    QuarterTerm(z * z, n, a);
    Radicand(q, a, n);
    var r := (q + a / 4.0) / n;
    RootSquare(sqrt, r);
    ProductSign(z, sqrt(r));
    SpreadFrom(z, sqrt(r), q, a, n, r);
  }

  /** The center stands `p * p * (1 + a)` above the spread, in squares. */
  lemma CenterAbove(s: real, p: real, a: real)
    requires SpreadSquared(s, p, a)
    ensures (p + a / 2.0) * (p + a / 2.0) - s * s == p * p * (1.0 + a)
  {
    assert (p + a / 2.0) * (p + a / 2.0) == p * p + p * a + a * a / 4.0;
    assert a * (p * (1.0 - p)) == a * p - a * (p * p);
  }

  /** `0 <= lower <= p`, before dividing. */
  lemma LowerSide(s: real, p: real, a: real)
    requires s >= 0.0 && 0.0 <= p <= 1.0 && a >= 0.0 && SpreadSquared(s, p, a)
    ensures 0.0 <= p + a / 2.0 - s <= p * (1.0 + a)
  {
    CenterAbove(s, p, a);
    ProductSign(p, p);
    ProductSign(p * p, 1.0 + a);
    SquareOrder(s, p + a / 2.0);
    var b := a * (1.0 / 2.0 - p);
    assert b * b == a * a / 4.0 - a * (a * (p * (1.0 - p))) by {
      assert (1.0 / 2.0 - p) * (1.0 / 2.0 - p) == 1.0 / 4.0 - p * (1.0 - p);
      assert b * b == (a * a) * ((1.0 / 2.0 - p) * (1.0 / 2.0 - p));
    }
    ProductSign(p, 1.0 - p);
    ProductSign(a, p * (1.0 - p));
    ProductSign(a, a * (p * (1.0 - p)));
    SquareOrder(b, s);
    assert b == a / 2.0 - a * p;
  }

  /** Mirroring the share mirrors the square of the spread. */
  lemma MirrorSpread(s: real, p: real, a: real)
    requires SpreadSquared(s, p, a)
    ensures SpreadSquared(s, 1.0 - p, a)
  {
    assert (1.0 - p) * (1.0 - (1.0 - p)) == p * (1.0 - p);
  }

  /** Both ends satisfy the quadratic, and nothing else does. */
  lemma EndsSolve(s: real, p: real, a: real, x: real)
    requires a >= 0.0 && SpreadSquared(s, p, a)
    ensures (p - x) * (p - x) == a * (x * (1.0 - x)) <==>
            (x * (1.0 + a) == p + a / 2.0 - s || x * (1.0 + a) == p + a / 2.0 + s)
  {
    var d, c := 1.0 + a, p + a / 2.0;
    var y := x * d - c;
    CenterAbove(s, p, a);
    var f := (p - x) * (p - x) - a * (x * (1.0 - x));
    assert f == x * x * d - 2.0 * (x * c) + p * p by {
      assert (p - x) * (p - x) == p * p - 2.0 * (x * p) + x * x;
      assert a * (x * (1.0 - x)) == a * x - a * (x * x);
      assert x * x * d == x * x + a * (x * x);
      assert x * c == x * p + x * a / 2.0;
    }
    assert y * y - s * s == d * f by {
      assert y * y == (x * d) * (x * d) - 2.0 * ((x * d) * c) + c * c;
      assert (x * d) * (x * d) == d * (x * x * d);
      assert (x * d) * c == d * (x * c);
      assert c * c - s * s == p * p * d;
      assert p * p * d == d * (p * p);
      assert d * f == d * (x * x * d) - 2.0 * (d * (x * c)) + d * (p * p);
    }
    if f == 0.0 { SquareZero(y, s); }
    if y == s || y == -s {
      assert d * f == 0.0;
    }
  }

  // ----- The interval -----

  ghost predicate Solves(x: real, successes: int, total: int, z: real)
    requires total > 0
  {
    var n, p := total as real, Share(successes, total);
    n * ((p - x) * (p - x)) == z * z * (x * (1.0 - x))
  }

  lemma ShareBounds(successes: int, total: int)
    requires 0 <= successes <= total && total > 0
    ensures 0.0 <= Share(successes, total) <= 1.0
    ensures Share(total - successes, total) == 1.0 - Share(successes, total)
  {
    var n, k := total as real, successes as real;
    var q := k / n;
    Divide(k, 0.0, n);
    assert (1.0 - q) * n == n - k;
    Quotient(n - k, n, 1.0 - q);
  }

  /** The two ends, in terms of the share, of `a = z * z / n` and of the spread. */
  ghost predicate Ends(i: Interval, p: real, a: real, s: real) {
    i.lower * (1.0 + a) == p + a / 2.0 - s && i.upper * (1.0 + a) == p + a / 2.0 + s
  }

  ghost predicate Sizes(p: real, a: real, s: real) {
    a >= 0.0 && 0.0 <= p <= 1.0 && s >= 0.0 && SpreadSquared(s, p, a)
  }

  lemma HalfTerm(zz: real, n: real, a: real)
    requires n > 0.0 && a * n == zz
    ensures zz / (2.0 * n) == a / 2.0
  {
    assert a / 2.0 * (2.0 * n) == zz;
    Quotient(zz, 2.0 * n, a / 2.0);
  }

  lemma ScaledEnds(c: real, s: real, d: real)
    requires d > 0.0
    ensures (c - s) / d * d == c - s && (c + s) / d * d == c + s
  {
    Divide(c - s, 0.0, d);
    Divide(c + s, 0.0, d);
  }

  lemma ScaleTerm(z: real, n: real)
    requires n > 0.0
    ensures z * z / n >= 0.0 && z * z / n * n == z * z
  {
    if z >= 0.0 { ProductSign(z, z); } else { ProductSign(-z, -z); }
    Divide(z * z, 0.0, n);
  }

  /** The interval as it is computed. */
  lemma Computed(successes: int, total: int, z: real, minTotal: int, sqrt: real -> real, i: Interval)
    requires ScoreInterval(successes, total, z, minTotal, sqrt) == Ok(Some(i))
    ensures 0 <= successes <= total && total > 0
    ensures var n, p := total as real, Share(successes, total);
            var h, d, s := z * z / (2.0 * n), 1.0 + z * z / n, Spread(p, n, z, sqrt);
            i == Interval((p + h - s) / d, (p + h + s) / d)
  {
  }

  lemma EndsFrom(i: Interval, p: real, h: real, a: real, s: real)
    requires a >= 0.0 && h == a / 2.0 && i == Interval((p + h - s) / (1.0 + a), (p + h + s) / (1.0 + a))
    ensures Ends(i, p, a, s)
  {
    ScaledEnds(p + h, s, 1.0 + a);
  }

  lemma EndsOf(successes: int, total: int, z: real, minTotal: int, sqrt: real -> real, i: Interval, p: real, a: real,
               s: real)
    requires ScoreInterval(successes, total, z, minTotal, sqrt) == Ok(Some(i))
    requires p == Share(successes, total) && a == z * z / total as real && s == Spread(p, total as real, z, sqrt)
    ensures Ends(i, p, a, s)
  {
    Computed(successes, total, z, minTotal, sqrt, i);
    ScaleTerm(z, total as real);
    HalfTerm(z * z, total as real, a);
    EndsFrom(i, p, z * z / (2.0 * total as real), a, s);
  }

  lemma SizesOf(successes: int, total: int, z: real, sqrt: real -> real, p: real, a: real, s: real)
    requires SquareRoot(sqrt) && z >= 0.0 && 0 <= successes <= total && total > 0
    requires p == Share(successes, total) && a == z * z / total as real && s == Spread(p, total as real, z, sqrt)
    ensures Sizes(p, a, s)
  {
    ShareBounds(successes, total);
    ScaleTerm(z, total as real);
    SpreadSquare(p, total as real, z, a, sqrt);
  }

  /** An interval is returned exactly for large enough samples with possible counts, and none for small samples. */
  lemma IntervalReturned(successes: int, total: int, z: real, minTotal: int, sqrt: real -> real)
    ensures (exists i :: ScoreInterval(successes, total, z, minTotal, sqrt) == Ok(Some(i))) <==>
            minTotal <= total && 0 <= successes <= total && total > 0
    ensures ScoreInterval(successes, total, z, minTotal, sqrt) == Ok(None) <==> total < minTotal
  {
    if minTotal <= total && 0 <= successes <= total && total > 0 {
      assert ScoreInterval(successes, total, z, minTotal, sqrt) ==
             Ok(Some(ScoreInterval(successes, total, z, minTotal, sqrt).value.value));
    }
  }

  lemma Compare(x: real, y: real, d: real)
    requires d > 0.0
    ensures x <= y <==> x * d <= y * d
  {
    if x <= y { ProductSign(y - x, d); }
    if x > y { assert (x - y) * d > 0.0; }
  }

  lemma LowerBounds(p: real, a: real, s: real, lower: real)
    requires s >= 0.0 && 0.0 <= p <= 1.0 && a >= 0.0 && SpreadSquared(s, p, a)
    requires lower * (1.0 + a) == p + a / 2.0 - s
    ensures 0.0 <= lower <= p
  {
    LowerSide(s, p, a);
    Compare(0.0, lower, 1.0 + a);
    Compare(lower, p, 1.0 + a);
  }

  /** The upper end is the mirrored lower end. */
  lemma UpperBounds(p: real, a: real, s: real, upper: real)
    requires s >= 0.0 && 0.0 <= p <= 1.0 && a >= 0.0 && SpreadSquared(s, p, a)
    requires upper * (1.0 + a) == p + a / 2.0 + s
    ensures p <= upper <= 1.0
  {
    MirrorSpread(s, p, a);
    assert (1.0 - upper) * (1.0 + a) == 1.0 + a - upper * (1.0 + a);
    LowerBounds(1.0 - p, a, s, 1.0 - upper);
  }

  /** The interval holds the share of successes and stays between 0 and 1. */
  lemma IntervalBounds(successes: int, total: int, z: real, minTotal: int, sqrt: real -> real, i: Interval)
    requires SquareRoot(sqrt) && z >= 0.0 && ScoreInterval(successes, total, z, minTotal, sqrt) == Ok(Some(i))
    ensures total > 0 && 0.0 <= i.lower <= Share(successes, total) <= i.upper <= 1.0
  {
    var p, a := Share(successes, total), z * z / total as real;
    var s := Spread(p, total as real, z, sqrt);
    EndsOf(successes, total, z, minTotal, sqrt, i, p, a, s);
    SizesOf(successes, total, z, sqrt, p, a, s);
    LowerBounds(p, a, s, i.lower);
    UpperBounds(p, a, s, i.upper);
  }

  lemma EndsExact(p: real, a: real, s: real, lower: real, upper: real, x: real)
    requires a >= 0.0 && SpreadSquared(s, p, a)
    requires lower * (1.0 + a) == p + a / 2.0 - s && upper * (1.0 + a) == p + a / 2.0 + s
    ensures (p - x) * (p - x) == a * (x * (1.0 - x)) <==> x == lower || x == upper
  {
    var d := 1.0 + a;
    EndsSolve(s, p, a, x);
    Compare(x, lower, d);
    Compare(lower, x, d);
    Compare(x, upper, d);
    Compare(upper, x, d);
  }

  lemma SolvesScaled(n: real, u: real, zz: real, v: real, a: real)
    requires n > 0.0 && a * n == zz
    ensures n * u == zz * v <==> u == a * v
  {
    assert zz * v == n * (a * v);
    if n * u == n * (a * v) { assert n * (u - a * v) == 0.0; }
  }

  lemma SolvesInParts(x: real, successes: int, total: int, z: real, p: real, a: real)
    requires total > 0 && p == Share(successes, total) && a == z * z / total as real
    ensures Solves(x, successes, total, z) <==> (p - x) * (p - x) == a * (x * (1.0 - x))
  {
    var n := total as real;
    Divide(z * z, 0.0, n);
    SolvesScaled(n, (p - x) * (p - x), z * z, x * (1.0 - x), a);
  }

  /** Its two ends are exactly the solutions of the Wilson equation. */
  lemma IntervalSolves(successes: int, total: int, z: real, minTotal: int, sqrt: real -> real, i: Interval, x: real)
    requires SquareRoot(sqrt) && z >= 0.0 && ScoreInterval(successes, total, z, minTotal, sqrt) == Ok(Some(i))
    ensures total > 0 && (Solves(x, successes, total, z) <==> x == i.lower || x == i.upper)
  {
    var p, a := Share(successes, total), z * z / total as real;
    var s := Spread(p, total as real, z, sqrt);
    EndsOf(successes, total, z, minTotal, sqrt, i, p, a, s);
    SizesOf(successes, total, z, sqrt, p, a, s);
    EndsExact(p, a, s, i.lower, i.upper, x);
    SolvesInParts(x, successes, total, z, p, a);
  }

  lemma MirroredEnds(p: real, a: real, s: real, lower: real, upper: real, x: real, y: real)
    requires a >= 0.0 && lower * (1.0 + a) == p + a / 2.0 - s && upper * (1.0 + a) == p + a / 2.0 + s
    requires x * (1.0 + a) == 1.0 - p + a / 2.0 - s && y * (1.0 + a) == 1.0 - p + a / 2.0 + s
    ensures x == 1.0 - upper && y == 1.0 - lower
  {
    var d := 1.0 + a;
    assert (1.0 - upper) * d == d - upper * d && (1.0 - lower) * d == d - lower * d;
    Compare(x, 1.0 - upper, d);
    Compare(1.0 - upper, x, d);
    Compare(y, 1.0 - lower, d);
    Compare(1.0 - lower, y, d);
  }

  lemma SameSpread(p: real, n: real, z: real, sqrt: real -> real)
    requires n > 0.0
    ensures Spread(1.0 - p, n, z, sqrt) == Spread(p, n, z, sqrt)
  {
    assert (1.0 - p) * (1.0 - (1.0 - p)) == p * (1.0 - p);
  }

  /** Counting failures instead of successes mirrors the interval. */
  lemma IntervalMirrors(successes: int, total: int, z: real, minTotal: int, sqrt: real -> real, i: Interval)
    requires ScoreInterval(successes, total, z, minTotal, sqrt) == Ok(Some(i))
    ensures ScoreInterval(total - successes, total, z, minTotal, sqrt) ==
            Ok(Some(Interval(1.0 - i.upper, 1.0 - i.lower)))
  {
    IntervalReturned(total - successes, total, z, minTotal, sqrt);
    MirroredInterval(successes, total, z, minTotal, sqrt, i,
                     ScoreInterval(total - successes, total, z, minTotal, sqrt).value.value);
  }

  /** The mirrored counts have the mirrored share and the same spread. */
  lemma MirroredEndsOf(successes: int, total: int, z: real, minTotal: int, sqrt: real -> real, j: Interval, p: real,
                       a: real, s: real)
    requires ScoreInterval(total - successes, total, z, minTotal, sqrt) == Ok(Some(j))
    requires 0 <= successes <= total && total > 0
    requires p == Share(successes, total) && a == z * z / total as real && s == Spread(p, total as real, z, sqrt)
    ensures Ends(j, 1.0 - p, a, s)
  {
    ShareBounds(successes, total);
    SameSpread(p, total as real, z, sqrt);
    EndsOf(total - successes, total, z, minTotal, sqrt, j, 1.0 - p, a, s);
  }

  lemma MirroredFrom(i: Interval, j: Interval, p: real, a: real, s: real)
    requires a >= 0.0 && Ends(i, p, a, s) && Ends(j, 1.0 - p, a, s)
    ensures j == Interval(1.0 - i.upper, 1.0 - i.lower)
  {
    MirroredEnds(p, a, s, i.lower, i.upper, j.lower, j.upper);
  }

  lemma MirroredInterval(successes: int, total: int, z: real, minTotal: int, sqrt: real -> real, i: Interval,
                         j: Interval)
    requires ScoreInterval(successes, total, z, minTotal, sqrt) == Ok(Some(i))
    requires ScoreInterval(total - successes, total, z, minTotal, sqrt) == Ok(Some(j))
    ensures j == Interval(1.0 - i.upper, 1.0 - i.lower)
  {
    Computed(successes, total, z, minTotal, sqrt, i);
    var p, a := Share(successes, total), z * z / total as real;
    var s := Spread(p, total as real, z, sqrt);
    ScaleTerm(z, total as real);
    EndsOf(successes, total, z, minTotal, sqrt, i, p, a, s);
    MirroredEndsOf(successes, total, z, minTotal, sqrt, j, p, a, s);
    MirroredFrom(i, j, p, a, s);
  }
}
