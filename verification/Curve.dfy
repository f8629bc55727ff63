/** Affine points on `y^2 = x^3 + ax + b` over a prime field, and double-and-add. */
module Curve {

  import opened Octets
  import opened Modular

  /** Field prime, coefficients, order, base point, and the bits field elements and scalars are held in. */
  datatype CurveContext = CurveContext(p: nat, a: nat, b: nat, n: nat, g: Point, bitsP: nat, bitsN: nat)

  datatype Point = Infinity | Affine(x: nat, y: nat)

  ghost predicate ValidField(c: CurveContext) {
    Prime(c.p) && c.p % 2 == 1
  }

  /** Both coordinates already taken modulo `p`. */
  predicate Reduced(c: CurveContext, point: Point) {
    match point
    case Infinity => true
    case Affine(x, y) => x < c.p && y < c.p
  }

  function Cubic(a: int, b: int, x: int): int {
    x * x * x + a * x + b
  }

  function Square(y: int): int {
    y * y
  }

  /** A field element as the source retrieves it. */
  function Residue(x: int, p: nat): nat
    requires p > 0
  {
    x % p
  }

  predicate OnCurve(c: CurveContext, q: Point)
    requires c.p > 1
  {
    match q
    case Infinity => false
    case Affine(x, y) => Residue(Square(y), c.p) == Residue(Cubic(c.a, c.b, x), c.p)
  }

  /** A point of the group: on the curve, or infinity. */
  predicate InGroup(c: CurveContext, q: Point)
    requires c.p > 1
  {
    match q
    case Infinity => true
    case Affine(_, _) => OnCurve(c, q)
  }

  /** The third point on the line of slope `lambda` through `(x1, y1)` and `x2`, mirrored. */
  function ThirdPoint(c: CurveContext, x1: nat, y1: nat, x2: nat, lambda: nat): (r: Point)
    requires c.p > 1
    ensures Reduced(c, r)
  {
    var x := (lambda * lambda - x1 - x2) % c.p;
    Affine(x, (lambda * (x1 - x) - y1) % c.p)
  }

  function Double(c: CurveContext, point: Point): (r: Point)
    requires c.p > 1
    ensures Reduced(c, r)
  {
    match point
    case Infinity => Infinity
    case Affine(px, py) =>
      if py % c.p == 0 then Infinity
      else
        match Inverse(2 * py, c.p)
        case None => Infinity
        case Some(inverse) => ThirdPoint(c, px, py, px, (3 * (px * px) + c.a) * inverse % c.p)
  }

  function Add(c: CurveContext, point: Point, other: Point): (r: Point)
    requires c.p > 1
    ensures Reduced(c, point) && Reduced(c, other) ==> Reduced(c, r)
  {
    if point.Infinity? then other
    else if other.Infinity? then point
    else if point.x == other.x then
      if point.y == other.y then Double(c, point) else Infinity
    else
      match Inverse(other.x - point.x, c.p)
      case None => Infinity
      case Some(inverse) => ThirdPoint(c, point.x, point.y, other.x, Slope(c, point, other, inverse))
  }

  function Slope(c: CurveContext, point: Point, other: Point, inverse: nat): nat
    requires c.p > 1 && point.Affine? && other.Affine?
  {
    (other.y - point.y) * inverse % c.p
  }

  // ----- Closure -----

  /** What is left of `Cubic - line^2` once `x - x1` is divided out. */
  function Cofactor(a: int, x1: int, y1: int, l: int, x: int): int {
    x * x + x * x1 + x1 * x1 + a - l * (l * (x - x1) + 2 * y1)
  }

  lemma CubicMinusLine(a: int, b: int, x1: int, y1: int, l: int, x: int)
    ensures Cubic(a, b, x) - (l * (x1 - x) - y1) * (l * (x1 - x) - y1)
      == (x - x1) * Cofactor(a, x1, y1, l, x) + (Cubic(a, b, x1) - y1 * y1)
  {
    var d := x - x1;
    var ld := l * d;
    assert l * (x1 - x) - y1 == -(ld + y1);
    assert (-(ld + y1)) * (-(ld + y1)) == ld * ld + 2 * (ld * y1) + y1 * y1;
    CubeDifference(a, b, x1, x);
    assert d * (l * (ld + 2 * y1)) == ld * (ld + 2 * y1) == ld * ld + 2 * (ld * y1);
    Distribute(x * x + x * x1 + x1 * x1 + a, l * (ld + 2 * y1), d);
  }

  lemma CubeDifference(a: int, b: int, x1: int, x: int)
    ensures Cubic(a, b, x) - Cubic(a, b, x1) == (x - x1) * (x * x + x * x1 + x1 * x1 + a)
  {
    assert (x - x1) * (x * x) == x * x * x - x1 * (x * x);
    assert (x - x1) * (x * x1) == x * x * x1 - x1 * (x * x1);
    assert (x - x1) * (x1 * x1) == x * (x1 * x1) - x1 * x1 * x1;
    assert x1 * (x * x) == x * x * x1 && x1 * (x * x1) == x * (x1 * x1);
    assert (x - x1) * a == a * x - a * x1;
    var s, t, u := x * x, x * x1, x1 * x1;
    assert (x - x1) * (s + t + u + a) == (x - x1) * s + (x - x1) * t + (x - x1) * u + (x - x1) * a;
  }

  lemma CofactorDifference(a: int, x1: int, y1: int, l: int, x: int, z: int)
    ensures Cofactor(a, x1, y1, l, x) - Cofactor(a, x1, y1, l, z) == (x - z) * (x + z + x1 - l * l)
  {
    var d := x - z;
    assert x * x - z * z == d * (x + z);
    assert x * x1 - z * x1 == d * x1;
    SlopeDifference(x1, y1, l, x, z);
    assert d * (x + z + x1 - l * l) == d * (x + z) + d * x1 - d * (l * l);
  }

  lemma SlopeDifference(x1: int, y1: int, l: int, x: int, z: int)
    ensures l * (l * (x - x1) + 2 * y1) - l * (l * (z - x1) + 2 * y1) == (x - z) * (l * l)
  {
    var d := x - z;
    assert l * (x - x1) - l * (z - x1) == l * d;
    var s, t := l * (x - x1) + 2 * y1, l * (z - x1) + 2 * y1;
    assert l * s - l * t == l * (s - t) == l * (l * d) == d * (l * l);
  }

  lemma OnCurveDivides(c: CurveContext, x: nat, y: nat)
    requires c.p > 1
    ensures OnCurve(c, Affine(x, y)) <==> Divides(c.p, Cubic(c.a, c.b, x) - y * y)
  {
    SameRemainder(c.p, Cubic(c.a, c.b, x), y * y);
  }

  lemma SquareOfRemainder(m: nat, y: int)
    requires m > 0
    ensures Divides(m, y * y - y % m * (y % m))
  {
    ProductOfRemainders(m, y, y);
    SameRemainder(m, y * y, y % m * (y % m));
  }

  /** A line that meets the curve at `(x1, y1)` and `x2` meets it again where the formulas say. */
  lemma ThirdPointOnCurve(c: CurveContext, x1: nat, y1: nat, x2: nat, l: nat)
    requires c.p > 1 && OnCurve(c, Affine(x1, y1))
    requires Divides(c.p, Cofactor(c.a, x1, y1, l, x2))
    ensures OnCurve(c, ThirdPoint(c, x1, y1, x2, l))
  {
    var p := c.p;
    var X := l * l - x1 - x2;
    var x := X % p;
    var Y := l * (x1 - x) - y1;
    var y := Y % p;
    OnCurveDivides(c, x1, y1);
    OnCurveDivides(c, x, y);
    assert ThirdPoint(c, x1, y1, x2, l) == Affine(x, y);
    CofactorAtThird(c, x1, y1, x2, l);
    CubicMinusLine(c.a, c.b, x1, y1, l, x);
    var rest := Cofactor(c.a, x1, y1, l, x);
    var atFirst := Cubic(c.a, c.b, x1) - y1 * y1;
    var atThird := Cubic(c.a, c.b, x);
    hide *;
    assert rest * (x - x1) == (x - x1) * rest;
    DividesProduct(p, rest, x - x1);
    DividesSum(p, (x - x1) * rest, atFirst);
    SquareOfRemainder(p, Y);
    DividesSum(p, atThird - Y * Y, Y * Y - y * y);
  }

  lemma CofactorAtThird(c: CurveContext, x1: nat, y1: nat, x2: nat, l: nat)
    requires c.p > 1 && Divides(c.p, Cofactor(c.a, x1, y1, l, x2))
    ensures Divides(c.p, Cofactor(c.a, x1, y1, l, (l * l - x1 - x2) % c.p))
  {
    var p := c.p;
    var X := l * l - x1 - x2;
    var x := X % p;
    CofactorDifference(c.a, x1, y1, l, X, x2);
    CofactorDifference(c.a, x1, y1, l, X, x);
    var atX, atThird := Cofactor(c.a, x1, y1, l, X), Cofactor(c.a, x1, y1, l, x);
    assert (X - x2) * (X + x2 + x1 - l * l) == 0;
    hide *;
    RemainderDiffers(p, X);
    DividesProduct(p, X - x, X + x + x1 - l * l);
    DividesSum(p, atX, atX - atThird);
  }

  /** The slope of the tangent makes the first point a double root. */
  lemma TangentCofactor(c: CurveContext, x1: nat, y1: nat, inverse: nat)
    requires c.p > 1 && (2 * y1 * inverse) % c.p == 1
    ensures Divides(c.p, Cofactor(c.a, x1, y1, (3 * (x1 * x1) + c.a) * inverse % c.p, x1))
  {
    var p := c.p;
    var num := 3 * (x1 * x1) + c.a;
    var l := num * inverse % p;
    assert Cofactor(c.a, x1, y1, l, x1) == num - l * (2 * y1) by {
      assert x1 - x1 == 0 && l * 0 == 0;
    }
    QuotientTimesDivisor(p, num, 2 * y1, inverse);
  }

  /** Dividing and multiplying back. */
  lemma QuotientTimesDivisor(p: nat, num: int, den: int, inverse: nat)
    requires p > 1 && (den * inverse) % p == 1
    ensures Divides(p, num - num * inverse % p * den)
  {
    hide *;
    var l := num * inverse % p;
    assert den * inverse - 1 == den * inverse - (den * inverse) % p;
    RemainderDiffers(p, den * inverse);
    DividesProduct(p, den * inverse - 1, num);
    Distribute(den * inverse, 1, num);
    assert den * inverse * num == num * inverse * den;
    RemainderDiffers(p, num * inverse);
    DividesProduct(p, num * inverse - l, den);
    Distribute(num * inverse, l, den);
    DividesSum(p, num * inverse * den - l * den, num * inverse * den - num);
  }

  /** The slope of the chord makes the second point a root. */
  lemma ChordCofactor(c: CurveContext, x1: nat, y1: nat, x2: nat, y2: nat, inverse: nat)
    requires ValidField(c) && OnCurve(c, Affine(x1, y1)) && OnCurve(c, Affine(x2, y2))
    requires ((x2 - x1) * inverse) % c.p == 1
    ensures Divides(c.p, Cofactor(c.a, x1, y1, (y2 - y1) * inverse % c.p, x2))
  {
    var p := c.p;
    var l := (y2 - y1) * inverse % p;
    var d := x2 - x1;
    OnCurveDivides(c, x1, y1);
    OnCurveDivides(c, x2, y2);
    CubicMinusLine(c.a, c.b, x1, y1, l, x2);
    QuotientTimesDivisor(p, y2 - y1, d, inverse);
    InverseIsComplete(d, p);
    var rest := Cofactor(c.a, x1, y1, l, x2);
    var f1, f2 := Cubic(c.a, c.b, x1) - y1 * y1, Cubic(c.a, c.b, x2) - y2 * y2;
    var Y := l * (x1 - x2) - y1;
    assert Cubic(c.a, c.b, x2) - Y * Y == d * rest + f1;
    hide *;
    assert y2 - y1 - l * d == y2 + Y by { assert l * (x1 - x2) == -(l * d); }
    DividesProduct(p, y2 + Y, y2 - Y);
    assert (y2 + Y) * (y2 - Y) == y2 * y2 - Y * Y;
    DividesSum(p, f2, y2 * y2 - Y * Y);
    DividesSum(p, d * rest + f1, f1);
    Cancel(p, d, rest);
  }

  lemma DoubleInGroup(c: CurveContext, point: Point)
    requires ValidField(c) && InGroup(c, point)
    ensures InGroup(c, Double(c, point))
  {
    if point.Affine? && point.y % c.p != 0 && Inverse(2 * point.y, c.p).Some? {
      var inverse := Inverse(2 * point.y, c.p).value;
      var l := (3 * (point.x * point.x) + c.a) * inverse % c.p;
      assert Double(c, point) == ThirdPoint(c, point.x, point.y, point.x, l);
      TangentCofactor(c, point.x, point.y, inverse);
      ThirdPointOnCurve(c, point.x, point.y, point.x, l);
    }
  }

  /** The sum of two points of the curve, reduced or not, is on the curve or infinity. */
  lemma AddInGroup(c: CurveContext, point: Point, other: Point)
    requires ValidField(c) && InGroup(c, point) && InGroup(c, other)
    ensures InGroup(c, Add(c, point, other))
  {
    if point == other {
      DoubleInGroup(c, point);
    } else if point.Affine? && other.Affine? && point.x != other.x && Inverse(other.x - point.x, c.p).Some? {
      var inverse := Inverse(other.x - point.x, c.p).value;
      var l := Slope(c, point, other, inverse);
      ChordCofactor(c, point.x, point.y, other.x, other.y, inverse);
      ThirdPointOnCurve(c, point.x, point.y, other.x, l);
    }
  }

  // ----- When the formulas give infinity -----

  /** Twice a reduced point is infinity exactly when its `y` is zero: the inverse never fails. */
  lemma DoubleIsInfinity(c: CurveContext, point: Point)
    requires ValidField(c) && Reduced(c, point)
    ensures Double(c, point).Infinity? <==> point.Infinity? || point.y == 0
  {
    if point.Affine? {
      TwiceIsInvertible(c.p, point.y);
    }
  }

  lemma TwiceIsInvertible(p: nat, y: nat)
    requires Prime(p) && p % 2 == 1 && y < p
    ensures y % p == y
    ensures y != 0 ==> Inverse(2 * y, p).Some?
  {
    QuotientIsUnique(p, y, 0, y);
    QuotientIsUnique(p, 2, 0, 2);
    assert !Divides(p, 2) && (Divides(p, y) ==> y == 0);
    assert p > 1;
    hide *;
    if Divides(p, 2 * y) {
      EuclidsLemma(p, 2, y);
    }
    PrimeInverse(2 * y, p);
  }

  /** The difference of two distinct residues is invertible. */
  lemma ResiduesDiffer(p: nat, x: nat, y: nat)
    requires Prime(p) && x < p && y < p && x != y
    ensures Inverse(x - y, p).Some?
  {
    assert p > 1;
    hide *;
    QuotientIsUnique(p, x, 0, x);
    QuotientIsUnique(p, y, 0, y);
    SameRemainder(p, x, y);
    PrimeInverse(x - y, p);
  }

  /** The inverse of a point in the group. */
  function Mirrored(c: CurveContext, point: Point): (r: Point)
    requires c.p > 1 && Reduced(c, point)
    ensures Reduced(c, r)
  {
    match point
    case Infinity => Infinity
    case Affine(x, y) => Affine(x, if y == 0 then 0 else c.p - y)
  }

  /** The sum of two reduced points of the group is infinity exactly when one mirrors the other. */
  lemma AddIsInfinity(c: CurveContext, point: Point, other: Point)
    requires ValidField(c) && Reduced(c, point) && Reduced(c, other) && InGroup(c, point) && InGroup(c, other)
    ensures Add(c, point, other).Infinity? <==> other == Mirrored(c, point)
  {
    if point.Affine? && other.Affine? {
      if point.x != other.x {
        ResiduesDiffer(c.p, other.x, point.x);
      } else {
        RootsAreMirrored(c, point.x, point.y, other.y);
        DoubleIsInfinity(c, point);
      }
    }
  }

  lemma RootsAreMirrored(c: CurveContext, x: nat, y: nat, z: nat)
    requires ValidField(c) && y < c.p && z < c.p
    requires OnCurve(c, Affine(x, y)) && OnCurve(c, Affine(x, z))
    ensures z == y || z == c.p - y
  {
    var p := c.p;
    assert p > 1 && Prime(p);
    OnCurveDivides(c, x, y);
    OnCurveDivides(c, x, z);
    var f := Cubic(c.a, c.b, x);
    assert Divides(p, f - y * y) && Divides(p, f - z * z);
    hide *;
    DividesSum(p, f - z * z, f - y * y);
    assert (y - z) * (y + z) == y * y - z * z;
    EuclidsLemma(p, y - z, y + z);
    if Divides(p, y - z) {
      SmallMultiple(p, y - z);
    } else {
      SmallMultiple(p, y + z);
    }
  }

  /** The multiples of `p` between `-p` and `2p`. */
  lemma SmallMultiple(p: nat, d: int)
    requires p > 0 && 0 < d + p < 3 * p && Divides(p, d)
    ensures d == 0 || d == p
  {
    var q := d / p;
    assert d == p * q;
    assert q <= -1 ==> p * q + p <= 0;
    assert q >= 2 ==> p * q >= 2 * p;
  }

  // ----- Commutativity -----

  /** Opposite denominators have opposite inverses. */
  lemma OppositeInverse(p: nat, d: int, u: nat, v: nat)
    requires p > 1 && (d * u) % p == 1 && (-d * v) % p == 1
    ensures Divides(p, u + v)
  {
    InverseIsComplete(d, p);
    SameRemainder(p, d * u, -d * v);
    assert d * u - -d * v == d * (u + v);
    Cancel(p, d, u + v);
  }

  /** The chord has one slope, whichever end it is drawn from. */
  lemma SlopeIsSymmetric(c: CurveContext, point: Point, other: Point, u: nat, v: nat)
    requires c.p > 1 && point.Affine? && other.Affine?
    requires ((other.x - point.x) * u) % c.p == 1 && ((point.x - other.x) * v) % c.p == 1
    ensures Slope(c, point, other, u) == Slope(c, other, point, v)
  {
    var d, e := other.x - point.x, other.y - point.y;
    assert point.x - other.x == -d && point.y - other.y == -e;
    OppositeInverse(c.p, d, u, v);
    assert e * u - -e * v == (u + v) * e;
    DividesProduct(c.p, u + v, e);
    SameRemainder(c.p, e * u, -e * v);
  }

  /** The mirrored third point lies on the chord, whichever end it is measured from. */
  lemma ThirdPointIsSymmetric(c: CurveContext, x1: nat, y1: nat, x2: nat, y2: nat, l: nat)
    requires c.p > 1 && Divides(c.p, y2 - y1 - l * (x2 - x1))
    ensures ThirdPoint(c, x1, y1, x2, l) == ThirdPoint(c, x2, y2, x1, l)
  {
    assert l * l - x1 - x2 == l * l - x2 - x1;
    var x := (l * l - x1 - x2) % c.p;
    ChordDifference(l, x, x1, y1, x2, y2);
    SameRemainder(c.p, l * (x2 - x) - y2, l * (x1 - x) - y1);
    DividesProduct(c.p, y2 - y1 - l * (x2 - x1), -1);
  }

  lemma ChordDifference(l: int, x: int, x1: int, y1: int, x2: int, y2: int)
    ensures l * (x2 - x) - y2 - (l * (x1 - x) - y1) == (y2 - y1 - l * (x2 - x1)) * -1
  {
    assert l * (x2 - x) - l * (x1 - x) == l * (x2 - x1);
  }

  lemma AddCommutes(c: CurveContext, point: Point, other: Point)
    requires ValidField(c) && Reduced(c, point) && Reduced(c, other)
    ensures Add(c, point, other) == Add(c, other, point)
  {
    if point.Affine? && other.Affine? && point.x != other.x {
      ResiduesDiffer(c.p, other.x, point.x);
      ResiduesDiffer(c.p, point.x, other.x);
      var u := Inverse(other.x - point.x, c.p).value;
      var v := Inverse(point.x - other.x, c.p).value;
      SlopeIsSymmetric(c, point, other, u, v);
      QuotientTimesDivisor(c.p, other.y - point.y, other.x - point.x, u);
      ThirdPointIsSymmetric(c, point.x, point.y, other.x, other.y, Slope(c, point, other, u));
    }
  }
}
