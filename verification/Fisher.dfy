/** The one-sided Fisher exact test of the covenant sweep, over exact rationals.

    The script evaluates each hypergeometric term as the exponential of a sum of log-gammas; here a
    term is the ratio of factorials those log-gammas stand for, so that the laws of the tail can be
    stated without rounding. */
module Fisher {

  /** Hits and misses of the treatment (a, b) and of the baseline (c, d). */
  datatype Table = Table(a: nat, b: nat, c: nat, d: nat)

  function Factorial(n: nat): (r: nat)
    ensures r >= 1
  {
    if n == 0 then 1 else n * Factorial(n - 1)
  }

  function Max(x: int, y: int): int { if x < y then y else x }

  function Min(x: int, y: int): int { if x < y then x else y }

  /** The smallest and largest count the first cell can hold with these margins. */
  function Lo(t: Table): (r: nat) { Max(0, t.a - t.d) }

  function Hi(t: Table): (r: nat) { Min(t.a + t.b, t.a + t.c) }

  function Numerator(t: Table): int
  {
    Factorial(t.a + t.b) * Factorial(t.c + t.d) * Factorial(t.a + t.c) * Factorial(t.b + t.d)
  }

  function Denominator(t: Table, x: int): (r: nat)
    requires Lo(t) <= x <= Hi(t)
    ensures r > 0
  {
    MulPositive(Factorial(t.a + t.b + t.c + t.d), Factorial(x));
    MulPositive(Factorial(t.a + t.b + t.c + t.d) * Factorial(x), Factorial(t.a + t.b - x));
    MulPositive(Factorial(t.a + t.b + t.c + t.d) * Factorial(x) * Factorial(t.a + t.b - x), Factorial(t.a + t.c - x));
    MulPositive(Factorial(t.a + t.b + t.c + t.d) * Factorial(x) * Factorial(t.a + t.b - x) * Factorial(t.a + t.c - x),
                Factorial(t.d - t.a + x));
    Factorial(t.a + t.b + t.c + t.d) * Factorial(x) * Factorial(t.a + t.b - x)
      * Factorial(t.a + t.c - x) * Factorial(t.d - t.a + x)
  }

  /** The probability of `x` hits in the first cell, the margins being fixed. */
  function Hyp(t: Table, x: int): real
    requires Lo(t) <= x <= Hi(t)
  {
    Numerator(t) as real / Denominator(t, x) as real
  }

  /** The terms from `x` to the top of the support, added up. */
  function TailFrom(t: Table, x: int): real
    requires Lo(t) <= x
    decreases Hi(t) + 1 - x
  {
    if x > Hi(t) then 0.0 else Hyp(t, x) + TailFrom(t, x + 1)
  }

  /** The probability of this table or a more extreme one. */
  function OneSided(t: Table): real { TailFrom(t, t.a) }

  // ---------------------------------------------------------------------------------------------
  // Binomial coefficients: an independent reading of the terms.

  function Choose(n: nat, k: int): (r: nat)
  {
    if k < 0 || k > n then 0
    else if k == 0 || k == n then 1
    else Choose(n - 1, k - 1) + Choose(n - 1, k)
  }

  lemma {:induction false} ChoosePositive(n: nat, k: nat)
    requires k <= n
    ensures Choose(n, k) > 0
  {
    if 0 < k < n { ChoosePositive(n - 1, k); }
  }

  lemma MulPositive(x: int, y: int)
    requires x > 0 && y > 0
    ensures x * y > 0
  {}

  lemma {:induction false} ChooseFactorial(n: nat, k: nat)
    requires k <= n
    ensures Choose(n, k) * (Factorial(k) * Factorial(n - k)) == Factorial(n)
  {
    if k == 0 || k == n {
      assert Factorial(0) == 1;
    } else {
      ChooseFactorial(n - 1, k - 1);
      ChooseFactorial(n - 1, k);
      var p, q := Choose(n - 1, k - 1), Choose(n - 1, k);
      var f, g, h := Factorial(k - 1), Factorial(n - k - 1), Factorial(n - 1);
      assert Factorial(k) == k * f && Factorial(n - k) == (n - k) * g && Factorial(n) == n * h;
      assert p * (f * ((n - k) * g)) == h;
      assert q * ((k * f) * g) == h;
      PascalStep(p, q, f, g, h, k, n - k);
    }
  }

  lemma PascalStep(p: int, q: int, f: int, g: int, h: int, k: int, j: int)
    requires p * (f * (j * g)) == h && q * ((k * f) * g) == h
    ensures (p + q) * ((k * f) * (j * g)) == (k + j) * h
  {
    calc {
      (p + q) * ((k * f) * (j * g));
      p * ((k * f) * (j * g)) + q * ((k * f) * (j * g));
      { assert p * ((k * f) * (j * g)) == k * (p * (f * (j * g))); }
      k * h + q * ((k * f) * (j * g));
      { assert q * ((k * f) * (j * g)) == j * (q * ((k * f) * g)); }
      k * h + j * h;
    }
  }

  /** The terms of the Vandermonde convolution from `i` upwards. */
  function Convolution(m: nat, q: nat, k: int, i: int): (r: nat)
    decreases k + 1 - i
  {
    if i > k then 0 else Choose(m, i) * Choose(q, k - i) + Convolution(m, q, k, i + 1)
  }

  lemma {:induction false} ConvolutionPascal(m: nat, q: nat, k: int, i: int)
    ensures Convolution(m + 1, q, k, i) == Convolution(m, q, k, i) + Convolution(m, q, k - 1, i - 1)
    decreases k + 1 - i
  {
    if i <= k {
      ConvolutionPascal(m, q, k, i + 1);
      ChooseRow(m, i);
      Distribute(Choose(m, i), Choose(m, i - 1), Choose(q, k - i));
      ConvolutionHead(m + 1, q, k, i);
      ConvolutionHead(m, q, k, i);
      ConvolutionHead(m, q, k - 1, i - 1);
    }
  }

  lemma Distribute(x: int, y: int, z: int)
    ensures (x + y) * z == x * z + y * z
  {}

  lemma ConvolutionHead(m: nat, q: nat, k: int, i: int)
    requires i <= k
    ensures Convolution(m, q, k, i) == Choose(m, i) * Choose(q, k - i) + Convolution(m, q, k, i + 1)
  {}

  lemma ChooseRow(m: nat, i: int)
    ensures Choose(m + 1, i) == Choose(m, i) + Choose(m, i - 1)
  {}

  lemma {:induction false} ConvolutionOfEmptyRow(q: nat, k: int, i: int)
    requires i <= k + 1
    ensures Convolution(0, q, k, i) == if i <= 0 <= k then Choose(q, k) else 0
    decreases k + 1 - i
  {
    if i <= k { ConvolutionOfEmptyRow(q, k, i + 1); }
  }

  lemma {:induction false} ConvolutionBelowZero(m: nat, q: nat, k: int, i: int)
    requires i <= 0
    ensures Convolution(m, q, k, i) == Convolution(m, q, k, 0)
    decreases -i
  {
    if i < 0 { ConvolutionBelowZero(m, q, k, i + 1); }
  }

  lemma {:induction false} Vandermonde(m: nat, q: nat, k: int)
    ensures Convolution(m, q, k, 0) == Choose(m + q, k)
    decreases m
  {
    if m == 0 {
      if k >= 0 { ConvolutionOfEmptyRow(q, k, 0); }
    } else {
      ConvolutionPascal(m - 1, q, k, 0);
      ConvolutionBelowZero(m - 1, q, k - 1, -1);
      Vandermonde(m - 1, q, k);
      Vandermonde(m - 1, q, k - 1);
      ChooseRow(m - 1 + q, k);
    }
  }

  // ---------------------------------------------------------------------------------------------
  // From factorials to binomial coefficients.

  function Rows(t: Table): nat { Choose(t.a + t.b + t.c + t.d, t.a + t.c) }

  function Weight(t: Table, x: int): int { Choose(t.a + t.b, x) * Choose(t.c + t.d, t.a + t.c - x) }

  lemma RowsPositive(t: Table)
    ensures Rows(t) > 0
  {
    ChoosePositive(t.a + t.b + t.c + t.d, t.a + t.c);
  }

  lemma CrossMultiplied(t: Table, x: int)
    requires Lo(t) <= x <= Hi(t)
    ensures Numerator(t) * Rows(t) == Denominator(t, x) * Weight(t, x)
  {
    var m, q, k := t.a + t.b, t.c + t.d, t.a + t.c;
    ChooseFactorial(m, x);
    ChooseFactorial(q, k - x);
    ChooseFactorial(m + q, k);
    assert q - (k - x) == t.d - t.a + x && m + q - k == t.b + t.d && t.a + t.b + t.c + t.d == m + q;
    var f, g, h, w := Factorial(x), Factorial(m - x), Factorial(k - x), Factorial(t.d - t.a + x);
    var l, m', q', n := Factorial(t.b + t.d), Factorial(m), Factorial(q), Factorial(m + q);
    CrossMultiply(Choose(m, x), Choose(q, k - x), Rows(t), f, g, h, w, Factorial(k), l, m', q', n);
    assert Numerator(t) == m' * q' * Factorial(k) * l;
    assert Denominator(t, x) == n * f * g * h * w;
  }

  lemma WeightPositive(t: Table, x: int)
    requires Lo(t) <= x <= Hi(t)
    ensures Weight(t, x) > 0
  {
    ChoosePositive(t.a + t.b, x);
    ChoosePositive(t.c + t.d, t.a + t.c - x);
    MulPositive(Choose(t.a + t.b, x), Choose(t.c + t.d, t.a + t.c - x));
  }

  /** The factorial ratio is the number of ways to place `x` hits over the number of placements. */
  lemma HypIsProportion(t: Table, x: int)
    requires Lo(t) <= x <= Hi(t)
    ensures Hyp(t, x) * Rows(t) as real == Weight(t, x) as real
    ensures Hyp(t, x) > 0.0
  {
    hide Numerator, Denominator, Rows, Weight;
    RowsPositive(t);
    WeightPositive(t, x);
    CrossMultiplied(t, x);
    Divide(Numerator(t), Denominator(t, x), Rows(t), Weight(t, x));
  }

  lemma CrossMultiply(c1: int, c2: int, c3: int, x: int, y: int, z: int, w: int, k: int, l: int, m: int, q: int, n: int)
    requires c1 * (x * y) == m && c2 * (z * w) == q && c3 * (k * l) == n
    ensures m * q * k * l * c3 == n * x * y * z * w * (c1 * c2)
  {
    calc {
      m * q * k * l * c3;
      (m * q) * (c3 * (k * l));
      (m * q) * n;
      { assert m * q == (c1 * (x * y)) * (c2 * (z * w)); }
      ((c1 * (x * y)) * (c2 * (z * w))) * n;
      { assert (c1 * (x * y)) * (c2 * (z * w)) == (x * y * z * w) * (c1 * c2); }
      ((x * y * z * w) * (c1 * c2)) * n;
      (n * (x * y * z * w)) * (c1 * c2);
      { assert n * (x * y * z * w) == n * x * y * z * w; }
      n * x * y * z * w * (c1 * c2);
    }
  }

  lemma Divide(num: int, den: int, rows: int, weight: int)
    requires den > 0 && rows > 0 && weight > 0
    requires num * rows == den * weight
    ensures (num as real / den as real) * rows as real == weight as real
    ensures num as real / den as real > 0.0
  {
    var d, r, w := den as real, rows as real, weight as real;
    var h := num as real / d;
    assert h * d == num as real;
    assert (num * rows) as real == num as real * r;
    assert (den * weight) as real == d * w;
    assert h * r == w by {
      assert (h * r) * d == (h * d) * r == w * d;
      CancelReal(h * r, w, d);
    }
    PositiveFactor(h, r, w);
  }

  lemma PositiveFactor(x: real, y: real, z: real)
    requires y > 0.0 && z > 0.0 && x * y == z
    ensures x > 0.0
  {}

  lemma CancelReal(x: real, y: real, z: real)
    requires z > 0.0 && x * z == y * z
    ensures x == y
  {
    assert (x - y) * z == 0.0;
  }

  lemma {:induction false} TailIsConvolution(t: Table, x: int)
    requires Lo(t) <= x
    ensures TailFrom(t, x) * Rows(t) as real == Convolution(t.a + t.b, t.c + t.d, t.a + t.c, x) as real
    decreases t.a + t.c + 1 - x
  {
    hide Hyp, Choose, Factorial;
    var m, q, k := t.a + t.b, t.c + t.d, t.a + t.c;
    if x > k {
    } else if x > Hi(t) {
      TailIsConvolution(t, x + 1);
      ConvolutionHead(m, q, k, x);
      ChooseOutside(m, x);
    } else {
      TailIsConvolution(t, x + 1);
      HypIsProportion(t, x);
      DistributeReal(Hyp(t, x), TailFrom(t, x + 1), Rows(t) as real);
      ConvolutionHead(m, q, k, x);
      assert Weight(t, x) == Choose(m, x) * Choose(q, k - x);
    }
  }

  lemma DistributeReal(x: real, y: real, z: real)
    ensures (x + y) * z == x * z + y * z
  {}

  lemma ChooseOutside(n: nat, k: int)
    requires k < 0 || k > n
    ensures Choose(n, k) == 0
  {}

  lemma {:induction false} ConvolutionBelowSupport(t: Table, x: int)
    requires 0 <= x <= Lo(t)
    ensures Convolution(t.a + t.b, t.c + t.d, t.a + t.c, x) == Convolution(t.a + t.b, t.c + t.d, t.a + t.c, Lo(t))
    decreases Lo(t) - x
  {
    if x < Lo(t) {
      ConvolutionBelowSupport(t, x + 1);
      assert Choose(t.c + t.d, t.a + t.c - x) == 0;
    }
  }

  // ---------------------------------------------------------------------------------------------
  // The laws of the test.

  lemma UnitFromProduct(p: real, w: nat, r: nat)
    requires r > 0 && w == r && p * r as real == w as real
    ensures p == 1.0
  {
    CancelReal(p, 1.0, r as real);
  }

  /** The terms over the whole support are positive and add up to exactly one. */
  lemma SupportSumsToOne(t: Table)
    ensures forall x :: Lo(t) <= x <= Hi(t) ==> Hyp(t, x) > 0.0
    ensures TailFrom(t, Lo(t)) == 1.0
  {
    hide Hyp, TailFrom, Convolution, Choose;
    forall x | Lo(t) <= x <= Hi(t) ensures Hyp(t, x) > 0.0 { HypIsProportion(t, x); }
    var m, q, k := t.a + t.b, t.c + t.d, t.a + t.c;
    TailIsConvolution(t, Lo(t));
    ConvolutionBelowSupport(t, 0);
    Vandermonde(m, q, k);
    RowsPositive(t);
    assert m + q == t.a + t.b + t.c + t.d;
    UnitFromProduct(TailFrom(t, Lo(t)), Convolution(m, q, k, Lo(t)), Rows(t));
  }

  lemma {:induction false} TailStrictlyFalls(t: Table, x: int, y: int)
    requires Lo(t) <= x < y <= Hi(t) + 1
    ensures TailFrom(t, x) > TailFrom(t, y) >= 0.0
    decreases Hi(t) - x
  {
    HypIsProportion(t, x);
    if x + 1 < y {
      TailStrictlyFalls(t, x + 1, y);
    } else if y <= Hi(t) {
      TailStrictlyFalls(t, y, Hi(t) + 1);
    }
  }

  /** The reported value is a probability, and is one exactly at the bottom of the support. */
  lemma OneSidedIsProbability(t: Table)
    ensures 0.0 < OneSided(t) <= 1.0
    ensures OneSided(t) == 1.0 <==> t.a == Lo(t)
  {
    SupportSumsToOne(t);
    TailStrictlyFalls(t, t.a, Hi(t) + 1);
    if Lo(t) < t.a { TailStrictlyFalls(t, Lo(t), t.a); }
  }

  function Transpose(t: Table): Table { Table(t.a, t.c, t.b, t.d) }

  function Exchange(t: Table): Table { Table(t.d, t.c, t.b, t.a) }

  function SwapColumns(t: Table): Table { Table(t.b, t.a, t.d, t.c) }

  lemma HypTransposed(t: Table, x: int)
    requires Lo(t) <= x <= Hi(t)
    ensures Hyp(Transpose(t), x) == Hyp(t, x)
  {
    var u := Transpose(t);
    Permute4(Factorial(t.a + t.b), Factorial(t.c + t.d), Factorial(t.a + t.c), Factorial(t.b + t.d));
    assert Numerator(u) == Numerator(t);
    var n, f := Factorial(t.a + t.b + t.c + t.d), Factorial(x);
    var g, h, w := Factorial(t.a + t.b - x), Factorial(t.a + t.c - x), Factorial(t.d - t.a + x);
    assert u.a + u.b + u.c + u.d == t.a + t.b + t.c + t.d;
    Permute5(n, f, g, h, w);
    assert Denominator(u, x) == Denominator(t, x);
  }

  lemma Permute4(p: int, q: int, r: int, s: int)
    ensures p * q * r * s == r * s * p * q
    ensures p * q * r * s == q * p * s * r
    ensures p * q * r * s == p * q * s * r
  {
    var x, y := p * q, r * s;
    assert p * q * r * s == x * y && r * s * p * q == y * x && q * p * s * r == x * y;
  }

  lemma Permute5(n: int, f: int, g: int, h: int, w: int)
    ensures n * f * g * h * w == n * f * h * g * w
    ensures n * f * g * h * w == n * w * h * g * f
    ensures n * f * g * h * w == n * g * f * w * h
  {
    assert n * f * g * h * w == (n * f * w) * (g * h) == n * f * h * g * w;
    assert n * w * h * g * f == (n * f * w) * (g * h);
    assert n * g * f * w * h == (n * f * w) * (g * h);
  }

  lemma {:induction false} TailTransposed(t: Table, x: int)
    requires Lo(t) <= x
    ensures TailFrom(Transpose(t), x) == TailFrom(t, x)
    decreases Hi(t) + 1 - x
  {
    if x <= Hi(t) {
      HypTransposed(t, x);
      TailTransposed(t, x + 1);
    }
  }

  lemma HypExchanged(t: Table, x: int)
    requires Lo(t) <= x <= Hi(t)
    ensures Hyp(Exchange(t), x - t.a + t.d) == Hyp(t, x)
  {
    hide Factorial;
    var u, y := Exchange(t), x - t.a + t.d;
    Permute4(Factorial(t.a + t.b), Factorial(t.c + t.d), Factorial(t.a + t.c), Factorial(t.b + t.d));
    assert Numerator(u) == Numerator(t);
    var n, f := Factorial(t.a + t.b + t.c + t.d), Factorial(x);
    var g, h, w := Factorial(t.a + t.b - x), Factorial(t.a + t.c - x), Factorial(t.d - t.a + x);
    assert u.a + u.b + u.c + u.d == t.a + t.b + t.c + t.d;
    Permute5(n, f, g, h, w);
    assert u.a + u.b - y == t.a + t.c - x && u.a + u.c - y == t.a + t.b - x && u.d - u.a + y == x;
    assert Denominator(u, y) == n * w * h * g * f;
    assert Denominator(t, x) == n * f * g * h * w;
  }

  lemma {:induction false} TailExchanged(t: Table, x: int)
    requires Lo(t) <= x
    ensures TailFrom(Exchange(t), x - t.a + t.d) == TailFrom(t, x)
    decreases Hi(t) + 1 - x
  {
    if x <= Hi(t) {
      HypExchanged(t, x);
      TailExchanged(t, x + 1);
    }
  }

  /** Transposing the table, or exchanging both its rows and its columns, changes nothing. */
  lemma OneSidedIsSymmetric(t: Table)
    ensures OneSided(Transpose(t)) == OneSided(t)
    ensures OneSided(Exchange(t)) == OneSided(t)
  {
    TailTransposed(t, t.a);
    TailExchanged(t, t.a);
  }

  /** The same margins with one more hit in the first cell. */
  function Shift(t: Table): Table
    requires t.b > 0 && t.c > 0
  {
    Table(t.a + 1, t.b - 1, t.c - 1, t.d + 1)
  }

  lemma {:induction false} TailDependsOnMargins(t: Table, x: int)
    requires t.b > 0 && t.c > 0 && Lo(t) <= x
    ensures TailFrom(Shift(t), x) == TailFrom(t, x)
    decreases Hi(t) + 1 - x
  {
    if x <= Hi(t) {
      TailDependsOnMargins(t, x + 1);
      assert Shift(t).a + Shift(t).b + Shift(t).c + Shift(t).d == t.a + t.b + t.c + t.d;
    }
  }

  /** Moving one hit into the first cell lowers the value by exactly the term that left the tail. */
  lemma OneMoreHit(t: Table)
    requires t.b > 0 && t.c > 0
    ensures OneSided(t) - OneSided(Shift(t)) == Hyp(t, t.a) > 0.0
  {
    TailDependsOnMargins(t, t.a + 1);
    HypIsProportion(t, t.a);
  }

  lemma HypReflected(t: Table, x: int)
    requires Lo(t) <= x <= Hi(t)
    ensures Hyp(SwapColumns(t), t.a + t.b - x) == Hyp(t, x)
  {
    hide Factorial;
    var u, y := SwapColumns(t), t.a + t.b - x;
    Permute4(Factorial(t.a + t.b), Factorial(t.c + t.d), Factorial(t.a + t.c), Factorial(t.b + t.d));
    assert Numerator(u) == Numerator(t);
    var n, f := Factorial(t.a + t.b + t.c + t.d), Factorial(x);
    var g, h, w := Factorial(t.a + t.b - x), Factorial(t.a + t.c - x), Factorial(t.d - t.a + x);
    assert u.a + u.b + u.c + u.d == t.a + t.b + t.c + t.d;
    Permute5(n, f, g, h, w);
    assert u.a + u.b - y == x && u.a + u.c - y == t.d - t.a + x && u.d - u.a + y == t.a + t.c - x;
    assert Denominator(u, y) == n * g * f * w * h;
    assert Denominator(t, x) == n * f * g * h * w;
  }

  lemma {:induction false} ReflectedTail(t: Table, x: int)
    requires Lo(t) - 1 <= x <= Hi(t)
    ensures TailFrom(SwapColumns(t), t.a + t.b - x) + TailFrom(t, x + 1) == 1.0
    decreases x - Lo(t) + 1
  {
    var u := SwapColumns(t);
    assert Hi(u) == t.a + t.b - Lo(t);
    if x == Lo(t) - 1 {
      SupportSumsToOne(t);
    } else {
      ReflectedTail(t, x - 1);
      HypReflected(t, x);
    }
  }

  /** The two directions of the test overlap in the observed table only. */
  lemma OppositeTails(t: Table)
    ensures OneSided(t) + OneSided(SwapColumns(t)) == 1.0 + Hyp(t, t.a)
  {
    ReflectedTail(t, t.a);
  }
}
