/** Integers modulo a prime: inverses, and the cancellation the curve formulas rest on. */
module Modular {

  import opened Octets

  predicate Divides(m: nat, x: int)
    requires m > 0
  {
    x % m == 0
  }

  /** `p` has no divisor but one and itself. */
  ghost predicate Prime(p: nat) {
    p > 1 && forall d: nat :: 1 < d < p ==> !Divides(d, p)
  }

  lemma Multiple(m: nat, k: int)
    requires m > 0
    ensures Divides(m, m * k)
  {
    assert m * k == m * k + 0;
    QuotientIsUnique(m, m * k, k, 0);
  }

  /** The quotient and remainder are the only ones. */
  lemma QuotientIsUnique(m: nat, x: int, q: int, r: int)
    requires m > 0 && x == m * q + r && 0 <= r < m
    ensures x / m == q && x % m == r
  {
    var d := q - x / m;
    assert m * d == x % m - r;
    assert d >= 1 ==> m * d >= m;
    assert d <= -1 ==> m * d + m <= 0;
  }

  lemma DividesSum(m: nat, x: int, y: int)
    requires m > 0 && Divides(m, x) && Divides(m, y)
    ensures Divides(m, x + y) && Divides(m, x - y)
  {
    var i, j := x / m, y / m;
    assert x + y == m * (i + j);
    assert x - y == m * (i - j);
    Multiple(m, i + j);
    Multiple(m, i - j);
  }

  lemma DividesProduct(m: nat, x: int, k: int)
    requires m > 0 && Divides(m, x)
    ensures Divides(m, x * k)
  {
    var i := x / m;
    assert x * k == m * i * k == m * (i * k);
    Multiple(m, i * k);
  }

  /** Equal remainders, as divisibility of the difference. */
  lemma SameRemainder(m: nat, x: int, y: int)
    requires m > 0
    ensures x % m == y % m <==> Divides(m, x - y)
  {
    var i, j := x / m, y / m;
    if x % m == y % m {
      assert x - y == m * (i - j);
      Multiple(m, i - j);
    } else if Divides(m, x - y) {
      var k := (x - y) / m;
      assert x == m * (j + k) + y % m;
      QuotientIsUnique(m, x, j + k, y % m);
    }
  }

  lemma RemainderDiffers(m: nat, x: int)
    requires m > 0
    ensures Divides(m, x - x % m)
  {
    var q := x / m;
    assert x - x % m == m * q;
    Multiple(m, q);
  }

  /** Taking a remainder first does not change a product's remainder. */
  lemma ProductOfRemainders(m: nat, x: int, y: int)
    requires m > 0
    ensures (x % m * y) % m == (x * y) % m
    ensures (x % m * (y % m)) % m == (x * y) % m
  {
    ProductOfRemainder(m, x, y);
    ProductOfRemainder(m, y, x % m);
    assert y % m * (x % m) == x % m * (y % m);
    assert y * (x % m) == x % m * y;
  }

  lemma ProductOfRemainder(m: nat, x: int, y: int)
    requires m > 0
    ensures (x % m * y) % m == (x * y) % m
  {
    var r := x % m;
    RemainderDiffers(m, x);
    DividesProduct(m, x - r, y);
    Distribute(x, r, y);
    hide Divides;
    SameRemainder(m, x * y, r * y);
  }

  lemma Distribute(x: int, y: int, k: int)
    ensures (x - y) * k == x * k - y * k
  {
  }

  lemma SumOfRemainders(m: nat, x: int, y: int)
    requires m > 0
    ensures (x % m + y % m) % m == (x + y) % m
  {
    RemainderDiffers(m, x);
    RemainderDiffers(m, y);
    DividesSum(m, x - x % m, y - y % m);
    assert (x - x % m) + (y - y % m) == (x + y) - (x % m + y % m);
    SameRemainder(m, x + y, x % m + y % m);
  }

  // ----- Inverses -----

  /** The greatest common divisor and the coefficients that combine to it. */
  function Bezout(a: nat, b: nat): (r: (nat, int, int))
    ensures r.0 == a * r.1 + b * r.2
    ensures a + b > 0 ==> r.0 > 0 && Divides(r.0, a) && Divides(r.0, b)
    decreases b
  {
    if b == 0 then
      (a, 1, 0)
    else
      var (g, u, v) := Bezout(b, a % b);
      BezoutStep(a, b, g, u, v);
      (g, v, u - a / b * v)
  }

  lemma BezoutStep(a: nat, b: nat, g: nat, u: int, v: int)
    requires b > 0 && g > 0 && g == b * u + a % b * v
    requires Divides(g, b) && Divides(g, a % b)
    ensures g == a * v + b * (u - a / b * v)
    ensures Divides(g, a)
  {
    var q := a / b;
    assert a == b * q + a % b;
    assert a * v == b * q * v + a % b * v == b * (q * v) + a % b * v;
    assert b * (u - q * v) == b * u - b * (q * v);
    DividesProduct(g, b, q);
    DividesSum(g, b * q, a % b);
  }

  /** The modular inverse, when there is one. */
  function Inverse(x: int, m: nat): (r: Option<nat>)
    requires m > 1
    ensures r.Some? ==> r.value < m && (x * r.value) % m == 1
  {
    var (g, u, v) := Bezout(x % m, m);
    if g == 1 then
      InverseIsRight(x, m, u, v);
      Some(u % m)
    else None
  }

  lemma InverseIsRight(x: int, m: nat, u: int, v: int)
    requires m > 1 && 1 == x % m * u + m * v
    ensures (x * (u % m)) % m == 1
  {
    ProductOfRemainders(m, u, x);
    ProductOfRemainders(m, x, u);
    assert u % m * x == x * (u % m) && u * x == x * u;
    assert x % m * u == m * -v + 1;
    QuotientIsUnique(m, x % m * u, -v, 1);
  }

  /** A number has an inverse exactly when some number multiplies it to one. */
  lemma InverseIsComplete(x: int, m: nat)
    requires m > 1
    ensures Inverse(x, m).Some? <==> exists w: int :: (x * w) % m == 1
  {
    if w: int :| (x * w) % m == 1 {
      var (g, u, v) := Bezout(x % m, m);
      ProductOfRemainders(m, x, w);
      DividesProduct(g, x % m, w);
      var k := (x % m * w) / m;
      assert x % m * w == m * k + 1;
      DividesProduct(g, m, k);
      DividesSum(g, x % m * w, m * k);
      DividesOne(g);
    }
    if Inverse(x, m).Some? {
      var w: int := Inverse(x, m).value;
      assert (x * w) % m == 1;
    }
  }

  lemma DividesOne(g: nat)
    requires g > 0 && Divides(g, 1)
    ensures g == 1
  {
    if g > 1 {
      QuotientIsUnique(g, 1, 0, 1);
    }
  }

  /** Everything but the multiples of a prime is invertible. */
  lemma PrimeInverse(x: int, p: nat)
    requires Prime(p)
    ensures Inverse(x, p).Some? <==> !Divides(p, x)
  {
    var (g, u, v) := Bezout(x % p, p);
    if Divides(p, x) {
      if Inverse(x, p).Some? {
        DividesProduct(p, x, Inverse(x, p).value);
      }
    } else {
      DivisorIsAtMost(g, x % p);
      assert Divides(g, p);
    }
  }

  lemma DivisorIsAtMost(d: nat, x: nat)
    requires d > 0 && x > 0 && Divides(d, x)
    ensures d <= x
  {
    if d > x {
      QuotientIsUnique(d, x, 0, x);
    }
  }

  /** What is invertible can be cancelled. */
  lemma Cancel(m: nat, x: int, y: int)
    requires m > 1 && Inverse(x, m).Some? && Divides(m, x * y)
    ensures Divides(m, y)
  {
    var w: int := Inverse(x, m).value;
    DividesProduct(m, x * y, w);
    RemainderDiffers(m, x * w);
    DividesProduct(m, x * w - 1, y);
    assert (x * w - 1) * y == x * y * w - y;
    DividesSum(m, x * y * w, x * y * w - y);
  }

  /** A prime that divides a product divides a factor. */
  lemma EuclidsLemma(p: nat, x: int, y: int)
    requires Prime(p) && Divides(p, x * y)
    ensures Divides(p, x) || Divides(p, y)
  {
    if !Divides(p, x) {
      PrimeInverse(x, p);
      Cancel(p, x, y);
    }
  }
}
