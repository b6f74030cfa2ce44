/** Divisors, the Euclidean algorithm and Bezout's identity over the naturals. */
module NumberTheory {
  predicate Divides(d: nat, a: nat) {
    d > 0 && a % d == 0
  }

  ghost predicate IsGcd(g: nat, a: nat, b: nat) {
    Divides(g, a) && Divides(g, b) && forall d: nat :: Divides(d, a) && Divides(d, b) ==> d <= g
  }

  function Gcd(a: nat, b: nat): nat
    decreases b
  {
    if b == 0 then a else Gcd(b, a % b)
  }

  // Elementary facts about products, each small enough for the solver.

  lemma MulAtLeast(k: int, m: int)
    requires k >= 1 && m > 0
    ensures k * m >= m
  {
  }

  lemma MulSub(a: int, b: int, m: int)
    ensures (a - b) * m == a * m - b * m
  {
  }

  lemma MulAdd(a: int, b: int, m: int)
    ensures (a + b) * m == a * m + b * m
  {
  }

  lemma MulMonotone(a: int, b: int, m: int)
    requires a <= b && m >= 0
    ensures a * m <= b * m
  {
    MulSub(b, a, m);
  }

  lemma MulSwap(a: int, b: int, c: int)
    ensures a * b * c == a * c * b == a * (b * c)
  {
  }

  /** The remainder is the only value in range that differs from `a` by a multiple of `m`. */
  lemma ModUnique(a: int, m: int, q: int, r: int)
    requires m > 0 && 0 <= r < m && a == q * m + r
    ensures a % m == r && a / m == q
  {
    var q', r' := a / m, a % m;
    assert a == q' * m + r';
    MulSub(q', q, m);
    MulSub(q, q', m);
    if q' > q {
      MulAtLeast(q' - q, m);
    } else if q' < q {
      MulAtLeast(q - q', m);
    }
  }

  lemma ModShift(a: int, m: int, k: int)
    requires m > 0
    ensures (a + k * m) % m == a % m
    ensures (a + k * m) / m == a / m + k
  {
    MulAdd(a / m, k, m);
    ModUnique(a + k * m, m, a / m + k, a % m);
  }

  /** Reducing one summand does not change the remainder of a sum. */
  lemma AddMod(a: int, b: int, m: int)
    requires m > 0
    ensures (a % m + b) % m == (a + b) % m
  {
    ModShift(a % m + b, m, a / m);
  }

  lemma DividesLinear(d: nat, a: int, b: int, x: int, y: int)
    requires d > 0 && a % d == 0 && b % d == 0
    ensures (a * x + b * y) % d == 0
  {
    var p, q := a / d, b / d;
    assert a == p * d && b == q * d;
    MulSwap(p, d, x);
    MulSwap(q, d, y);
    MulAdd(p * x, q * y, d);
    ModUnique(a * x + b * y, d, p * x + q * y, 0);
  }

  /** A positive multiple of `d` is at least `d`. */
  lemma MultipleAtLeast(d: nat, m: nat)
    requires m > 0 && Divides(d, m)
    ensures d <= m
  {
    assert m == (m / d) * d;
    MulAtLeast(m / d, d);
  }

  /** Euclid's recursion has integer coefficients. */
  lemma {:induction false} Bezout(a: nat, b: nat) returns (x: int, y: int)
    ensures a * x + b * y == Gcd(a, b)
    decreases b
  {
    if b == 0 {
      x, y := 1, 0;
    } else {
      var x', y' := Bezout(b, a % b);
      x, y := y', x' - (a / b) * y';
      EuclidStep(a, b, x', y');
    }
  }

  lemma EuclidStep(a: nat, b: nat, x: int, y: int)
    requires b > 0
    ensures a * y + b * (x - (a / b) * y) == b * x + (a % b) * y
  {
    var q, r := a / b, a % b;
    assert a == q * b + r;
    MulAdd(q * b, r, y);
    MulSub(x, q * y, b);
    MulSwap(q, b, y);
  }

  lemma {:induction false} GcdDivides(a: nat, b: nat)
    requires a > 0 || b > 0
    ensures Divides(Gcd(a, b), a) && Divides(Gcd(a, b), b)
    decreases b
  {
    if b == 0 {
      ModUnique(0, a, 0, 0);
      ModUnique(a, a, 1, 0);
    } else {
      GcdDivides(b, a % b);
      DividesLinear(Gcd(a, b), b, a % b, a / b, 1);
      Euclid(a, b);
    }
  }

  lemma Euclid(a: nat, b: nat)
    requires b > 0
    ensures a == b * (a / b) + (a % b) * 1
  {
  }

  /** Euclid's recursion computes the greatest common divisor. */
  lemma GcdIsGreatest(a: nat, b: nat)
    requires a > 0 || b > 0
    ensures IsGcd(Gcd(a, b), a, b)
  {
    GcdDivides(a, b);
    var x, y := Bezout(a, b);
    forall d: nat | Divides(d, a) && Divides(d, b) ensures d <= Gcd(a, b) {
      DividesLinear(d, a, b, x, y);
      MultipleAtLeast(d, Gcd(a, b));
    }
  }

  /** A gcd with a positive right operand is positive and at most that operand. */
  lemma GcdRange(h: nat, d: nat)
    requires d > 0
    ensures 0 < Gcd(h, d) <= d
  {
    GcdDivides(h, d);
    MultipleAtLeast(Gcd(h, d), d);
  }

  /** The residues of the multiples of `h` modulo `d` are multiples of the gcd, so none exceeds `d - gcd`. */
  lemma MultipleResidue(h: nat, d: nat, r: nat)
    requires r < d && Gcd(h, d) > 0 && r % Gcd(h, d) == 0
    ensures r <= d - Gcd(h, d)
  {
    var g := Gcd(h, d);
    GcdDivides(h, d);
    DividesLinear(g, d, r, 1, -1);
    MultipleAtLeast(g, d - r);
  }

  /** Advancing a residue by `h` modulo `d` keeps it a multiple of the gcd. */
  lemma ResidueStep(h: nat, d: nat, r: nat)
    requires d > 0 && Gcd(h, d) > 0 && r % Gcd(h, d) == 0
    ensures (r + h) % d % Gcd(h, d) == 0
  {
    GcdDivides(h, d);
    DividesLinear(Gcd(h, d), r, h, 1, 1);
    RemainderDivides(Gcd(h, d), r + h, d);
  }

  lemma RemainderDivides(g: nat, a: nat, d: nat)
    requires d > 0 && Divides(g, a) && Divides(g, d)
    ensures Divides(g, a % d)
  {
    var q := a / d;
    DividesLinear(g, a, d, 1, -q);
    assert a % d == a * 1 + d * (-q) by {
      Euclid(a, d);
      MulNegate(d, q);
    }
  }

  lemma MulNegate(a: int, b: int)
    ensures a * (-b) == -(a * b)
  {
  }

  /** The residue `d - gcd` is reached by some number of steps of length `h`. */
  lemma LargestResidueReached(h: nat, d: nat) returns (k: nat)
    requires h > 0 && d > 0
    ensures (k * h) % d == d - Gcd(h, d)
  {
    var g := Gcd(h, d);
    GcdRange(h, d);
    GcdDivides(h, d);
    var x, y := Bezout(h, d);
    var c := d / g - 1;
    assert d == (c + 1) * g == c * g + g by { MulAdd(c, 1, g); }
    var m := if c * x >= 0 then 0 else -(c * x);
    assert c * x + m * d >= 0 by { if m > 0 { MulGrows(m, d); } }
    k := c * x + m * d;
    CongruentProduct(h, d, x, y, c, m, g);
    ModUnique(k * h, d, m * h - c * y, d - g);
  }

  lemma MulGrows(m: int, d: int)
    requires m >= 0 && d >= 1
    ensures m * d >= m
  {
  }

  lemma CongruentProduct(h: int, d: int, x: int, y: int, c: int, m: int, g: int)
    requires h * x + d * y == g
    ensures (c * x + m * d) * h == (m * h - c * y) * d + c * g
  {
    MulAdd(c * x, m * d, h);
    MulSub(m * h, c * y, d);
    MulSwap(c, x, h);
    MulSwap(m, d, h);
    MulSwap(c, y, d);
    assert c * g == c * (h * x) + c * (d * y);
    assert c * (x * h) == c * (h * x);
    assert c * (y * d) == c * (d * y);
  }

  /** Two numbers less than `n` apart have different remainders modulo `n`. */
  lemma ModApart(i: int, j: int, n: int)
    requires n > 0 && 0 < j - i < n
    ensures i % n != j % n
  {
    if i % n == j % n {
      MulSub(j / n, i / n, n);
      if j / n > i / n { MulAtLeast(j / n - i / n, n); } else { MulMonotone(j / n - i / n, 0, n); }
    }
  }

  /** Reducing first modulo a multiple of `n` does not change the remainder modulo `n`. */
  lemma ModMod(i: int, m: int, n: int)
    requires n > 0 && m > 0 && m % n == 0
    ensures i % m % n == i % n
  {
    DivMod(m, n);
    DivMod(i, m);
    ShiftByMultiples(i % m, i / m, m / n, n, m);
  }

  lemma DivMod(a: int, m: int)
    requires m > 0
    ensures a == a / m * m + a % m
  {
  }

  lemma ShiftByMultiples(r: int, q: int, p: int, n: int, m: int)
    requires n > 0 && m == p * n
    ensures r % n == (q * m + r) % n
  {
    MulSwap(q, p, n);
    ModShift(r, n, q * p);
  }
}
