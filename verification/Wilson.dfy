/**
 The Wilson score interval (metrics/stats.py) over exact reals. A square root is not a real-arithmetic operation, so
 the root is a parameter that squares to the radicand.
 */
module Wilson {

  import opened Results

  datatype Interval = Interval(low: real, high: real)

  datatype ValueError = TrialsNotPositive | SuccessesOutOfRange

  function Rate(successes: int, trials: int): real
    requires trials > 0
  {
    successes as real / trials as real
  }

  function Radicand(p: real, n: real, z: real): real
    requires n > 0.0
  {
    p * (1.0 - p) / n + z * z / (4.0 * n * n)
  }

  predicate IsRoot(root: real, x: real) {
    root >= 0.0 && root * root == x
  }

  /** The interval before clamping and snapping. */
  function Unclamped(p: real, n: real, z: real, root: real): Interval
    requires n > 0.0
  {
    Positive(z, n);
    var denominator := 1.0 + z * z / n;
    var centre := (p + z * z / (2.0 * n)) / denominator;
    var margin := z * root / denominator;
    Interval(centre - margin, centre + margin)
  }

  lemma Positive(z: real, n: real)
    requires n > 0.0
    ensures z * z / n >= 0.0
  {
  }

  const SNAP: real := 0.000000000001

  function Clamped(i: Interval): Interval {
    Interval(if i.low < 0.0 then 0.0 else i.low, if i.high > 1.0 then 1.0 else i.high)
  }

  function Snapped(i: Interval): Interval {
    Interval(if i.low < SNAP then 0.0 else i.low, if i.high > 1.0 - SNAP then 1.0 else i.high)
  }

  predicate Valid(successes: int, trials: int) {
    0 < trials && 0 <= successes <= trials
  }

  function WilsonInterval(successes: int, trials: int, z: real, root: real): Result<Interval, ValueError> {
    if trials <= 0 then Err(TrialsNotPositive)
    else if !(0 <= successes <= trials) then Err(SuccessesOutOfRange)
    else Ok(Snapped(Clamped(Unclamped(Rate(successes, trials), trials as real, z, root))))
  }

  // ---------------------------------------------------------------------------------------------------------
  // Inversion
  // ---------------------------------------------------------------------------------------------------------

  /** The squared distance between the rates, scaled by the number of trials. */
  function Distance(n: real, p: real, q: real): real {
    n * (p - q) * (p - q)
  }

  /** The variance of a trial at rate `q`, scaled by the squared quantile. */
  function Allowance(z: real, q: real): real {
    z * z * q * (1.0 - q)
  }

  /** The score test accepts rate `q` for an observed rate `p` of `n` trials. */
  predicate Accepts(p: real, n: real, z: real, q: real) {
    Distance(n, p, q) <= Allowance(z, q)
  }

  /** The score test accepts `q` with room to spare. */
  predicate AcceptsStrictly(p: real, n: real, z: real, q: real) {
    Distance(n, p, q) < Allowance(z, q)
  }

  lemma Identity(p: real, a: real, q: real)
    ensures ((1.0 + a) * q - (p + a / 2.0)) * ((1.0 + a) * q - (p + a / 2.0)) - a * (p * (1.0 - p)) - a * a / 4.0
         == (1.0 + a) * ((p - q) * (p - q) - a * (q * (1.0 - q)))
  {
  }

  lemma SquareOrder(u: real, v: real)
    requires v >= 0.0
    ensures -v <= u <= v <==> u * u <= v * v
    ensures -v < u < v <==> u * u < v * v
  {
    assert v * v - u * u == (v - u) * (v + u);
    if -v < u < v {
      Product2(v - u, v + u);
    } else if -v <= u <= v {
      assert v - u == 0.0 || v + u == 0.0;
    } else if u > v {
      Product2(u - v, v + u);
      assert (u - v) * (v + u) == -((v - u) * (v + u));
    } else {
      Product2(v - u, -(v + u));
      assert (v - u) * -(v + u) == -((v - u) * (v + u));
    }
  }

  lemma Product(x: real, y: real)
    requires x >= 0.0 && y >= 0.0
    ensures x * y >= 0.0
  {
  }

  lemma Product2(x: real, y: real)
    requires x > 0.0 && y > 0.0
    ensures x * y > 0.0
  {
  }

  lemma Scale(d: real, x: real, y: real)
    requires d > 0.0
    ensures x <= y <==> d * x <= d * y
    ensures x < y <==> d * x < d * y
  {
    assert d * (y - x) == d * y - d * x;
    if x < y {
      Product2(d, y - x);
    } else if x > y {
      Product2(d, x - y);
      assert d * (x - y) == d * x - d * y;
    }
  }

  lemma Quotient(x: real, d: real)
    requires d > 0.0
    ensures d * (x / d) == x
  {
  }

  /** An end of the interval, cleared of its denominator. */
  lemma EndIff(m: real, v: real, d: real, q: real)
    requires d > 0.0
    ensures m / d - v / d <= q <==> m - v <= d * q
    ensures m / d - v / d < q <==> m - v < d * q
    ensures q <= m / d + v / d <==> d * q <= m + v
    ensures q < m / d + v / d <==> d * q < m + v
  {
    Quotient(m, d);
    Quotient(v, d);
    Scale(d, m / d - v / d, q);
    Scale(d, q, m / d + v / d);
    assert d * (m / d - v / d) == d * (m / d) - d * (v / d);
    assert d * (m / d + v / d) == d * (m / d) + d * (v / d);
  }

  lemma HalfSquare(n: real, z: real)
    requires n > 0.0
    ensures z * z / (2.0 * n) == z * z / n / 2.0
  {
  }

  lemma QuarterSquare(n: real, z: real)
    requires n > 0.0
    ensures z * z * (z * z / (4.0 * n * n)) == (z * z / n) * (z * z / n) / 4.0
  {
    var w := z * z;
    var x := w / n;
    Quotient(w, n);
    assert w == n * x;
    assert (4.0 * n * n) * (x * x / 4.0) == w * w;
  }

  lemma SquaredMargin(p: real, n: real, z: real, root: real)
    requires n > 0.0 && IsRoot(root, Radicand(p, n, z))
    ensures (z * root) * (z * root) == (z * z / n) * (p * (1.0 - p)) + (z * z / n) * (z * z / n) / 4.0
  {
    QuarterSquare(n, z);
    var r := p * (1.0 - p);
    var w := z * z;
    assert (z * root) * (z * root) == w * (root * root);
    assert w * (root * root) == w * (r / n + w / (4.0 * n * n));
    assert w * (r / n + w / (4.0 * n * n)) == w * (r / n) + w * (w / (4.0 * n * n));
    MoveDivision(w, r, n);
  }

  lemma MoveDivision(w: real, r: real, n: real)
    requires n > 0.0
    ensures w * (r / n) == w / n * r
  {
    Quotient(r, n);
    Quotient(w, n);
  }

  lemma AcceptsScaled(p: real, n: real, z: real, q: real)
    requires n > 0.0
    ensures Accepts(p, n, z, q) <==> (p - q) * (p - q) <= z * z / n * (q * (1.0 - q))
    ensures AcceptsStrictly(p, n, z, q) <==> (p - q) * (p - q) < z * z / n * (q * (1.0 - q))
  {
    var a := z * z / n;
    Quotient(z * z, n);
    Scale(n, (p - q) * (p - q), a * (q * (1.0 - q)));
    assert n * (a * (q * (1.0 - q))) == n * a * (q * (1.0 - q));
    assert z * z * (q * (1.0 - q)) == z * z * q * (1.0 - q);
    assert n * ((p - q) * (p - q)) == n * (p - q) * (p - q);
  }

  // How far `q` is from the centre, against the margin, both cleared of the denominator.
  lemma GapIdentity(p: real, n: real, z: real, root: real, q: real)
    requires n > 0.0 && IsRoot(root, Radicand(p, n, z))
    ensures var a := z * z / n;
            var u := (1.0 + a) * q - (p + a / 2.0);
            u * u - (z * root) * (z * root) == (1.0 + a) * ((p - q) * (p - q) - a * (q * (1.0 - q)))
  {
    SquaredMargin(p, n, z, root);
    Identity(p, z * z / n, q);
  }

  lemma SignOfGap(u: real, v: real, d: real, gap: real)
    requires v >= 0.0 && d > 0.0 && u * u - v * v == d * gap
    ensures -v <= u <= v <==> gap <= 0.0
    ensures -v < u < v <==> gap < 0.0
  {
    SquareOrder(u, v);
    Scale(d, gap, 0.0);
  }

  lemma GapSign(p: real, n: real, z: real, root: real, q: real)
    requires n > 0.0 && z >= 0.0 && IsRoot(root, Radicand(p, n, z))
    ensures var a := z * z / n;
            var u := (1.0 + a) * q - (p + a / 2.0);
            && (-(z * root) <= u <= z * root <==> Accepts(p, n, z, q))
            && (-(z * root) < u < z * root <==> AcceptsStrictly(p, n, z, q))
  {
    hide Accepts, AcceptsStrictly, Radicand;
    var a := z * z / n;
    Positive(z, n);
    GapIdentity(p, n, z, root, q);
    AcceptsScaled(p, n, z, q);
    Product(z, root);
    SignOfGap((1.0 + a) * q - (p + a / 2.0), z * root, 1.0 + a, (p - q) * (p - q) - a * (q * (1.0 - q)));
  }

  lemma EndsCleared(p: real, n: real, z: real, root: real, q: real)
    requires n > 0.0
    ensures var i := Unclamped(p, n, z, root);
            var a := z * z / n;
            var u := (1.0 + a) * q - (p + a / 2.0);
            && (i.low <= q <= i.high <==> -(z * root) <= u <= z * root)
            && (i.low < q < i.high <==> -(z * root) < u < z * root)
  {
    Positive(z, n);
    HalfSquare(n, z);
    EndIff(p + z * z / n / 2.0, z * root, 1.0 + z * z / n, q);
  }

  /** The interval is exactly the set of rates that the score test accepts, and its ends are where it is even. */
  lemma Inversion(p: real, n: real, z: real, root: real, q: real)
    requires n > 0.0 && z >= 0.0 && IsRoot(root, Radicand(p, n, z))
    ensures var i := Unclamped(p, n, z, root);
            && (i.low <= q <= i.high <==> Accepts(p, n, z, q))
            && (i.low < q < i.high <==> AcceptsStrictly(p, n, z, q))
  {
    hide Accepts, AcceptsStrictly, IsRoot, Radicand, Unclamped;
    GapSign(p, n, z, root, q);
    EndsCleared(p, n, z, root, q);
  }

  // ---------------------------------------------------------------------------------------------------------
  // Where the interval lies
  // ---------------------------------------------------------------------------------------------------------

  lemma AcceptsOwnRate(p: real, n: real, z: real)
    requires 0.0 <= p <= 1.0
    ensures Accepts(p, n, z, p)
  {
    Product(p, 1.0 - p);
    Product(z * z, p * (1.0 - p));
    assert z * z * p * (1.0 - p) == z * z * (p * (1.0 - p));
  }

  lemma Square(z: real)
    ensures z * z >= 0.0
  {
  }

  lemma DistancePositive(n: real, p: real, q: real)
    requires n > 0.0 && p != q
    ensures Distance(n, p, q) > 0.0
  {
    var x := p - q;
    assert Distance(n, p, q) == n * x * x;
    if x > 0.0 {
      Product2(n, x);
      Product2(n * x, x);
    } else {
      Product2(n, -x);
      Product2(n * -x, -x);
      assert n * -x * -x == n * x * x;
    }
  }

  lemma NoVariance(z: real, q: real)
    requires q < 0.0 || q > 1.0
    ensures Allowance(z, q) <= 0.0
  {
    var w := z * z;
    Square(z);
    if q < 0.0 {
      Product(w, -q);
      Product(w * -q, 1.0 - q);
      assert w * -q * (1.0 - q) == -(w * q * (1.0 - q));
    } else {
      Product(w, q);
      Product(w * q, q - 1.0);
      assert w * q * (q - 1.0) == -(w * q * (1.0 - q));
    }
  }

  lemma RejectsImpossible(p: real, n: real, z: real, q: real)
    requires n > 0.0 && 0.0 <= p <= 1.0 && (q < 0.0 || q > 1.0)
    ensures !Accepts(p, n, z, q)
  {
    hide Distance, Allowance;
    DistancePositive(n, p, q);
    NoVariance(z, q);
  }

  /** The interval contains the observed rate and is made of rates, so clamping it to [0, 1] changes nothing. */
  lemma WithinUnit(p: real, n: real, z: real, root: real)
    requires n > 0.0 && z >= 0.0 && 0.0 <= p <= 1.0 && IsRoot(root, Radicand(p, n, z))
    ensures var i := Unclamped(p, n, z, root);
            0.0 <= i.low <= p <= i.high <= 1.0 && Clamped(i) == i
  {
    hide Unclamped, IsRoot, Radicand, Accepts;
    var i := Unclamped(p, n, z, root);
    AcceptsOwnRate(p, n, z);
    Inversion(p, n, z, root, p);
    Inversion(p, n, z, root, i.low);
    Inversion(p, n, z, root, i.high);
    if i.low < 0.0 {
      RejectsImpossible(p, n, z, i.low);
    }
    if i.high > 1.0 {
      RejectsImpossible(p, n, z, i.high);
    }
  }

  lemma RateRange(successes: int, trials: int)
    requires Valid(successes, trials)
    ensures 0.0 <= Rate(successes, trials) <= 1.0
  {
    var x, n := successes as real, trials as real;
    Quotient(x, n);
    Scale(n, 0.0, x / n);
    Scale(n, x / n, 1.0);
  }

  /** What the function returns: rates around the observed one, with the accepted ones among them. */
  lemma IntervalContains(successes: int, trials: int, z: real, root: real, q: real)
    requires Valid(successes, trials) && z >= 0.0
    requires IsRoot(root, Radicand(Rate(successes, trials), trials as real, z))
    ensures WilsonInterval(successes, trials, z, root).Ok?
    ensures var i := WilsonInterval(successes, trials, z, root).value;
            && 0.0 <= i.low <= Rate(successes, trials) <= i.high <= 1.0
            && (Accepts(Rate(successes, trials), trials as real, z, q) ==> i.low <= q <= i.high)
            && (i.low <= q <= i.high && SNAP <= q <= 1.0 - SNAP
                ==> Accepts(Rate(successes, trials), trials as real, z, q))
  {
    hide Unclamped, IsRoot, Radicand, Accepts;
    RateRange(successes, trials);
    WithinUnit(Rate(successes, trials), trials as real, z, root);
    Inversion(Rate(successes, trials), trials as real, z, root, q);
  }

  // ---------------------------------------------------------------------------------------------------------
  // Symmetry
  // ---------------------------------------------------------------------------------------------------------

  function Mirrored(i: Interval): Interval {
    Interval(1.0 - i.high, 1.0 - i.low)
  }

  lemma UnclampedMirrored(p: real, n: real, z: real, root: real)
    requires n > 0.0
    ensures Unclamped(1.0 - p, n, z, root) == Mirrored(Unclamped(p, n, z, root))
  {
    Positive(z, n);
    HalfSquare(n, z);
    var a := z * z / n;
    var d := 1.0 + a;
    Complementary(1.0 - p + a / 2.0, p + a / 2.0, d);
  }

  lemma Complementary(x: real, y: real, d: real)
    requires d > 0.0 && x + y == d
    ensures x / d == 1.0 - y / d
  {
    Quotient(x, d);
    Quotient(y, d);
    SumToOne(d, x, y, x / d, y / d);
  }

  lemma SumToOne(d: real, x: real, y: real, s: real, t: real)
    requires d > 0.0 && x + y == d && d * s == x && d * t == y
    ensures s == 1.0 - t
  {
    var w := s + t - 1.0;
    assert d * w == 0.0;
    Nonzero(d, w);
  }

  lemma Nonzero(d: real, w: real)
    requires d > 0.0
    ensures d * w == 0.0 ==> w == 0.0
  {
    if w > 0.0 {
      Product2(d, w);
    } else if w < 0.0 {
      Product2(d, -w);
      assert d * -w == -(d * w);
    }
  }

  /** Counting failures instead of successes mirrors the interval, with the clamps and both snaps. */
  lemma IntervalMirrored(successes: int, trials: int, z: real, root: real)
    requires Valid(successes, trials)
    ensures WilsonInterval(trials - successes, trials, z, root).Ok? && WilsonInterval(successes, trials, z, root).Ok?
    ensures WilsonInterval(trials - successes, trials, z, root).value
         == Mirrored(WilsonInterval(successes, trials, z, root).value)
    ensures Radicand(Rate(trials - successes, trials), trials as real, z)
         == Radicand(Rate(successes, trials), trials as real, z)
  {
    hide Unclamped;
    var x, n := successes as real, trials as real;
    Complementary((trials - successes) as real, x, n);
    assert Rate(trials - successes, trials) == 1.0 - Rate(successes, trials);
    UnclampedMirrored(Rate(successes, trials), n, z, root);
  }

  // ---------------------------------------------------------------------------------------------------------
  // Monotonicity
  // ---------------------------------------------------------------------------------------------------------

  lemma ScaledSquares(n: real, x: real, y: real)
    requires n > 0.0 && x < y <= 0.0
    ensures n * y * y < n * x * x
  {
    assert x * x - y * y == (y - x) * (-x - y);
    Product2(y - x, -x - y);
    Scale(n, y * y, x * x);
    assert n * y * y == n * (y * y) && n * x * x == n * (x * x);
  }

  // Moving the observed rate towards an accepted rate keeps it accepted.
  lemma CloserAccepts(p: real, p': real, n: real, z: real, q: real)
    requires n > 0.0 && p < p' <= q && Accepts(p, n, z, q)
    ensures AcceptsStrictly(p', n, z, q)
  {
    ScaledSquares(n, p - q, p' - q);
  }

  /** Both ends of the interval move up, strictly, with the observed rate. */
  lemma UnclampedIncreases(p: real, p': real, n: real, z: real, root: real, root': real)
    requires n > 0.0 && z >= 0.0 && 0.0 <= p < p' <= 1.0
    requires IsRoot(root, Radicand(p, n, z)) && IsRoot(root', Radicand(p', n, z))
    ensures var i, i' := Unclamped(p, n, z, root), Unclamped(p', n, z, root');
            i.low < i'.low && i.high < i'.high
  {
    HighIncreases(p, p', n, z, root, root');
    UnclampedMirrored(p, n, z, root);
    UnclampedMirrored(p', n, z, root');
    RadicandMirrored(p, n, z);
    RadicandMirrored(p', n, z);
    hide Unclamped, IsRoot, Radicand;
    HighIncreases(1.0 - p', 1.0 - p, n, z, root', root);
  }

  lemma RadicandMirrored(p: real, n: real, z: real)
    requires n > 0.0
    ensures Radicand(1.0 - p, n, z) == Radicand(p, n, z)
  {
  }

  lemma HighIncreases(p: real, p': real, n: real, z: real, root: real, root': real)
    requires n > 0.0 && z >= 0.0 && 0.0 <= p < p' <= 1.0
    requires IsRoot(root, Radicand(p, n, z)) && IsRoot(root', Radicand(p', n, z))
    ensures Unclamped(p, n, z, root).high < Unclamped(p', n, z, root').high
  {
    hide Unclamped, IsRoot, Radicand, Accepts, AcceptsStrictly;
    var h := Unclamped(p, n, z, root).high;
    WithinUnit(p, n, z, root);
    Inversion(p, n, z, root, h);
    WithinUnit(p', n, z, root');
    if h >= p' {
      CloserAccepts(p, p', n, z, h);
      Inversion(p', n, z, root', h);
    }
  }

  /** One more success never moves an end of the returned interval down. */
  lemma IntervalIncreases(successes: int, more: int, trials: int, z: real, root: real, root': real)
    requires 0 < trials && 0 <= successes <= more <= trials && z >= 0.0
    requires IsRoot(root, Radicand(Rate(successes, trials), trials as real, z))
    requires IsRoot(root', Radicand(Rate(more, trials), trials as real, z))
    ensures NoLower(WilsonInterval(successes, trials, z, root), WilsonInterval(more, trials, z, root'))
  {
    hide Unclamped, Radicand;
    if successes == more {
      SameRoot(root, root');
    } else {
      RateRange(successes, trials);
      RateRange(more, trials);
      RateIncreases(successes, more, trials);
      UnclampedIncreases(Rate(successes, trials), Rate(more, trials), trials as real, z, root, root');
    }
  }

  /** Two intervals, neither end of the second below that of the first. */
  predicate NoLower(r: Result<Interval, ValueError>, r': Result<Interval, ValueError>) {
    r.Ok? && r'.Ok? && r.value.low <= r'.value.low && r.value.high <= r'.value.high
  }

  lemma SameRoot(r: real, s: real)
    requires r >= 0.0 && s >= 0.0
    ensures r * r == s * s ==> r == s
  {
    SquareOrder(r, s);
    SquareOrder(s, r);
  }

  lemma RateIncreases(successes: int, more: int, trials: int)
    requires 0 < trials && successes < more
    ensures Rate(successes, trials) < Rate(more, trials)
  {
    var n := trials as real;
    Quotient(successes as real, n);
    Quotient(more as real, n);
    Scale(n, Rate(successes, trials), Rate(more, trials));
  }

  /** At the same observed rate, more trials or a smaller quantile give an interval inside the other. */
  lemma Tightens(p: real, n: real, n': real, z: real, z': real, root: real, root': real)
    requires 0.0 < n <= n' && 0.0 <= z' <= z && 0.0 <= p <= 1.0
    requires IsRoot(root, Radicand(p, n, z)) && IsRoot(root', Radicand(p, n', z'))
    ensures var i, i' := Unclamped(p, n, z, root), Unclamped(p, n', z', root');
            i.low <= i'.low <= i'.high <= i.high
  {
    hide Unclamped, IsRoot, Radicand, Accepts;
    var i' := Unclamped(p, n', z', root');
    WithinUnit(p, n', z', root');
    Inversion(p, n', z', root', i'.low);
    Inversion(p, n', z', root', i'.high);
    FewerTrialsAccept(p, n, n', z, z', i'.low);
    FewerTrialsAccept(p, n, n', z, z', i'.high);
    Inversion(p, n, z, root, i'.low);
    Inversion(p, n, z, root, i'.high);
  }

  lemma FewerTrialsAccept(p: real, n: real, n': real, z: real, z': real, q: real)
    requires 0.0 < n <= n' && 0.0 <= z' <= z && 0.0 <= q <= 1.0 && Accepts(p, n', z', q)
    ensures Accepts(p, n, z, q)
  {
    var s, t := (p - q) * (p - q), q * (1.0 - q);
    Product(q, 1.0 - q);
    Square(p - q);
    Product(n' - n, s);
    assert (n' - n) * s == n' * s - n * s;
    Product(z - z', z + z');
    assert (z - z') * (z + z') == z * z - z' * z';
    Product(z * z - z' * z', t);
    assert (z * z - z' * z') * t == z * z * t - z' * z' * t;
    assert n * (p - q) * (p - q) == n * s && n' * (p - q) * (p - q) == n' * s;
    assert z * z * q * (1.0 - q) == z * z * t && z' * z' * q * (1.0 - q) == z' * z' * t;
  }

  // ---------------------------------------------------------------------------------------------------------
  // The returned interval, by the counts
  // ---------------------------------------------------------------------------------------------------------

  /** The root under the margin, cleared of its denominators. */
  predicate IsCountRoot(x: real, n: real, z: real, root: real) {
    root >= 0.0 && n * n * n * root * root == x * (n - x) + z * z * n / 4.0
  }

  /** The score test on counts: the squared distance from the expected count, against the allowed variance. */
  predicate CountAccepts(x: real, n: real, z: real, q: real) {
    (x - n * q) * (x - n * q) <= z * z * n * q * (1.0 - q)
  }

  lemma SquarePositive(n: real, s: real)
    requires n > 0.0 && s == n * n
    ensures s > 0.0
  {
    Square(n);
    Nonzero(n, n);
  }

  lemma CountRadicand(x: real, p: real, n: real, z: real, s: real, d: real)
    requires n > 0.0 && n * p == x && s == n * n && d == 4.0 * n * n && d > 0.0
    ensures n * s * Radicand(p, n, z) == x * (n - x) + z * z * n / 4.0
  {
    var r, w := p * (1.0 - p), z * z;
    Quotient(r, n);
    Quotient(w, d);
    assert Radicand(p, n, z) == r / n + w / d;
    Distributed(n, s, r / n, w / d);
    assert n * s * (r / n) == s * (n * (r / n)) == s * r;
    assert s * r == (n * p) * (n - n * p);
    assert 4.0 * (n * s * (w / d)) == n * (d * (w / d)) == n * w;
  }

  lemma Distributed(n: real, s: real, a: real, b: real)
    ensures n * s * (a + b) == n * s * a + n * s * b
  {
  }

  lemma CountRoot(x: real, p: real, n: real, z: real, root: real)
    requires n > 0.0 && n * p == x && IsCountRoot(x, n, z, root)
    ensures IsRoot(root, Radicand(p, n, z))
  {
    hide Radicand;
    var s, d := n * n, 4.0 * n * n;
    SquarePositive(n, s);
    assert d == 4.0 * s;
    CountRadicand(x, p, n, z, s, d);
    var c := n * s;
    Product2(n, s);
    assert c * (root * root) == n * n * n * root * root;
    SameScaled(c, root * root, Radicand(p, n, z));
  }

  lemma SameScaled(c: real, a: real, b: real)
    requires c > 0.0 && c * a == c * b
    ensures a == b
  {
    Scale(c, a, b);
    Scale(c, b, a);
  }

  lemma CountAcceptsIff(x: real, p: real, n: real, z: real, q: real)
    requires n > 0.0 && n * p == x
    ensures CountAccepts(x, n, z, q) <==> Accepts(p, n, z, q)
  {
    Scale(n, Distance(n, p, q), Allowance(z, q));
    assert n * Distance(n, p, q) == (n * p - n * q) * (n * p - n * q);
    assert n * Allowance(z, q) == z * z * n * q * (1.0 - q);
  }

  lemma ScaledRate(successes: int, trials: int)
    requires trials > 0
    ensures trials as real * Rate(successes, trials) == successes as real
  {
    Quotient(successes as real, trials as real);
  }

  lemma SnappedEnds(successes: int, trials: int, z: real, root: real)
    requires 0 < trials && 0 <= successes <= trials
    ensures var i := WilsonInterval(successes, trials, z, root).value;
            (i.low == 0.0 || 0.000000000001 <= i.low) && (i.high == 1.0 || i.high <= 1.0 - 0.000000000001)
  {
    hide Unclamped, Rate;
  }

  lemma HoldsCount(x: real, p: real, n: real, i: Interval)
    requires n > 0.0 && n * p == x && i.low <= p <= i.high
    ensures n * i.low <= x <= n * i.high
  {
    Scale(n, i.low, p);
    Scale(n, p, i.high);
  }

  /**
   What is returned, by the counts alone: every rate that the score test accepts lies in the interval, and between the
   distances of 1e-12 from the two ends of [0, 1] no other rate does. The observed rate is in it, and an end closer than
   1e-12 to 0 or 1 is 0 or 1.
   */
  lemma ReturnedInterval(successes: int, trials: int, z: real, root: real, q: real)
    requires 0 < trials && 0 <= successes <= trials && z >= 0.0
    requires IsCountRoot(successes as real, trials as real, z, root)
    ensures WilsonInterval(successes, trials, z, root).Ok?
    ensures var x, n, i := successes as real, trials as real, WilsonInterval(successes, trials, z, root).value;
            && (CountAccepts(x, n, z, q) ==> i.low <= q <= i.high)
            && (i.low <= q <= i.high && 0.000000000001 <= q <= 1.0 - 0.000000000001 ==> CountAccepts(x, n, z, q))
            && n * i.low <= x <= n * i.high
            && (i.low == 0.0 || 0.000000000001 <= i.low) && (i.high == 1.0 || i.high <= 1.0 - 0.000000000001)
  {
    hide Accepts, CountAccepts, IsRoot, IsCountRoot, Radicand, Rate, WilsonInterval;
    var x, p, n := successes as real, Rate(successes, trials), trials as real;
    ScaledRate(successes, trials);
    CountRoot(x, p, n, z, root);
    CountAcceptsIff(x, p, n, z, q);
    IntervalContains(successes, trials, z, root, q);
    SnappedEnds(successes, trials, z, root);
    HoldsCount(x, p, n, WilsonInterval(successes, trials, z, root).value);
  }

  /** Counts that are no counts are refused, the number of trials first. */
  lemma RefusedIff(successes: int, trials: int, z: real, root: real)
    ensures WilsonInterval(successes, trials, z, root) == Err(TrialsNotPositive) <==> trials <= 0
    ensures WilsonInterval(successes, trials, z, root) == Err(SuccessesOutOfRange)
       <==> 0 < trials && (successes < 0 || trials < successes)
  {
  }
}
