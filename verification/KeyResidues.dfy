/**
 Points whose coordinates are not reduced modulo `p`. A public key's are taken as they come (`ecdsa.rs`):
 the formulas reduce what they compute, but compare coordinates as they are.
 */
module KeyResidues {

  import opened Octets
  import opened Modular
  import opened Curve
  import opened ScalarMul

  /** The same point with both coordinates modulo `p`. */
  function Residual(c: CurveContext, key: Point): (r: Point)
    requires c.p > 1
    ensures Reduced(c, r)
  {
    match key
    case Infinity => Infinity
    case Affine(x, y) => Affine(x % c.p, y % c.p)
  }

  lemma ReducedIsResidual(c: CurveContext, key: Point)
    requires c.p > 1
    ensures Reduced(c, key) <==> Residual(c, key) == key
  {
    if key.Affine? && Reduced(c, key) {
      QuotientIsUnique(c.p, key.x, 0, key.x);
      QuotientIsUnique(c.p, key.y, 0, key.y);
    }
  }

  // ----- Congruence -----

  /** Two numbers with one residue. */
  predicate Alike(p: nat, x: int, y: int)
    requires p > 0
  {
    x % p == y % p
  }

  lemma AlikeSum(p: nat, x: int, y: int, z: int, w: int)
    requires p > 0 && Alike(p, x, y) && Alike(p, z, w)
    ensures Alike(p, x + z, y + w) && Alike(p, x - z, y - w)
  {
    SameRemainder(p, x, y);
    SameRemainder(p, z, w);
    DividesSum(p, x - y, z - w);
    assert x - y + (z - w) == x + z - (y + w);
    assert x - y - (z - w) == x - z - (y - w);
    SameRemainder(p, x + z, y + w);
    SameRemainder(p, x - z, y - w);
  }

  lemma AlikeProduct(p: nat, x: int, y: int, z: int, w: int)
    requires p > 0 && Alike(p, x, y) && Alike(p, z, w)
    ensures Alike(p, x * z, y * w)
  {
    ProductOfRemainders(p, x, z);
    ProductOfRemainders(p, y, w);
  }

  lemma AlikeResidue(p: nat, x: int)
    requires p > 0
    ensures Alike(p, x, x % p) && Alike(p, x, x)
  {
  }

  lemma AlikeInverse(p: nat, x: int, y: int)
    requires p > 1 && Alike(p, x, y)
    ensures Inverse(x, p) == Inverse(y, p)
  {
  }

  // ----- The formulas on a residual -----

  lemma ResidualOnCurve(c: CurveContext, key: Point)
    requires c.p > 1 && OnCurve(c, key)
    ensures Element(c, Residual(c, key)) && Residual(c, key).Affine?
  {
    var p, x, y, u, v := c.p, key.x, key.y, key.x % c.p, key.y % c.p;
    AlikeResidue(p, x);
    AlikeResidue(p, y);
    AlikeResidue(p, c.a);
    AlikeResidue(p, c.b);
    assert Residual(c, key) == Affine(u, v);
    CurveSidesAlike(c, x, u, y, v);
  }

  lemma CurveSidesAlike(c: CurveContext, x: nat, u: nat, y: nat, v: nat)
    requires c.p > 1 && Alike(c.p, x, u) && Alike(c.p, y, v)
    ensures Residue(Square(y), c.p) == Residue(Square(v), c.p)
    ensures Residue(Cubic(c.a, c.b, x), c.p) == Residue(Cubic(c.a, c.b, u), c.p)
  {
    var p := c.p;
    AlikeProduct(p, y, v, y, v);
    AlikeProduct(p, x, u, x, u);
    AlikeProduct(p, x * x, u * u, x, u);
    AlikeResidue(p, c.a);
    AlikeResidue(p, c.b);
    AlikeProduct(p, c.a, c.a, x, u);
    AlikeSum(p, x * x * x, u * u * u, c.a * x, c.a * u);
    AlikeSum(p, x * x * x + c.a * x, u * u * u + c.a * u, c.b, c.b);
  }

  /** The third point depends on residues alone. */
  lemma ThirdPointAlike(c: CurveContext, x1: nat, y1: nat, x2: nat, u1: nat, v1: nat, u2: nat, l: nat)
    requires c.p > 1 && Alike(c.p, x1, u1) && Alike(c.p, y1, v1) && Alike(c.p, x2, u2)
    ensures ThirdPoint(c, x1, y1, x2, l) == ThirdPoint(c, u1, v1, u2, l)
  {
    var p := c.p;
    AlikeResidue(p, l * l);
    AlikeResidue(p, l);
    AlikeSum(p, l * l, l * l, x1, u1);
    AlikeSum(p, l * l - x1, l * l - u1, x2, u2);
    var x := (l * l - x1 - x2) % p;
    AlikeResidue(p, x);
    AlikeSum(p, x1, u1, x, x);
    AlikeProduct(p, l, l, x1 - x, u1 - x);
    AlikeSum(p, l * (x1 - x), l * (u1 - x), y1, v1);
  }

  lemma DoubleOfResidual(c: CurveContext, key: Point)
    requires c.p > 1
    ensures Double(c, key) == Double(c, Residual(c, key))
  {
    if key.Affine? {
      var p, x, y, u, v := c.p, key.x, key.y, key.x % c.p, key.y % c.p;
      AlikeResidue(p, x);
      AlikeResidue(p, y);
      AlikeResidue(p, 2);
      AlikeProduct(p, 2, 2, y, v);
      AlikeInverse(p, 2 * y, 2 * v);
      if y % p != 0 && Inverse(2 * y, p).Some? {
        var inverse := Inverse(2 * y, p).value;
        TangentAlike(c, x, u, inverse);
        ThirdPointAlike(c, x, y, x, u, v, u, (3 * (x * x) + c.a) * inverse % p);
      }
    }
  }

  lemma TangentAlike(c: CurveContext, x: nat, u: nat, inverse: nat)
    requires c.p > 1 && Alike(c.p, x, u)
    ensures (3 * (x * x) + c.a) * inverse % c.p == (3 * (u * u) + c.a) * inverse % c.p
  {
    var p := c.p;
    AlikeResidue(p, 3);
    AlikeResidue(p, c.a);
    AlikeResidue(p, inverse);
    AlikeProduct(p, x, u, x, u);
    AlikeProduct(p, 3, 3, x * x, u * u);
    AlikeSum(p, 3 * (x * x), 3 * (u * u), c.a, c.a);
    AlikeProduct(p, 3 * (x * x) + c.a, 3 * (u * u) + c.a, inverse, inverse);
  }

  /** A multiple of `p` has no inverse. */
  lemma MultipleHasNoInverse(p: nat, x: int)
    requires Prime(p) && Divides(p, x)
    ensures Inverse(x, p).None?
  {
    PrimeInverse(x, p);
  }

  lemma SlopeAlike(c: CurveContext, point: Point, other: Point, u: Point, v: Point, inverse: nat)
    requires c.p > 1 && point.Affine? && other.Affine? && u.Affine? && v.Affine?
    requires Alike(c.p, point.y, u.y) && Alike(c.p, other.y, v.y)
    ensures Slope(c, point, other, inverse) == Slope(c, u, v, inverse)
  {
    AlikeResidue(c.p, inverse);
    AlikeSum(c.p, other.y, v.y, point.y, u.y);
    AlikeProduct(c.p, other.y - point.y, v.y - u.y, inverse, inverse);
  }

  /** Points apart by their residues are added by them. */
  lemma ChordAlike(c: CurveContext, point: Point, other: Point, u: Point, v: Point)
    requires c.p > 1 && point.Affine? && other.Affine? && u.Affine? && v.Affine?
    requires Alike(c.p, point.x, u.x) && Alike(c.p, point.y, u.y)
    requires Alike(c.p, other.x, v.x) && Alike(c.p, other.y, v.y)
    requires point.x != other.x && u.x != v.x
    ensures Add(c, point, other) == Add(c, u, v)
  {
    AlikeSum(c.p, other.x, v.x, point.x, u.x);
    AlikeInverse(c.p, other.x - point.x, v.x - u.x);
    if Inverse(other.x - point.x, c.p).Some? {
      var inverse := Inverse(other.x - point.x, c.p).value;
      SlopeAlike(c, point, other, u, v, inverse);
      ThirdPointAlike(c, point.x, point.y, other.x, u.x, u.y, v.x, Slope(c, point, other, inverse));
    }
  }

  /**
   Adding a point that is not reduced to one that is: as its residual, but for the residual itself, where
   the doubling is missed.
   */
  lemma AddUnreduced(c: CurveContext, other: Point, key: Point)
    requires ValidField(c) && other.Affine? && Reduced(c, other) && key.Affine? && !Reduced(c, key)
    ensures var residual := Residual(c, key);
      && Add(c, other, key) == (if other == residual then Infinity else Add(c, other, residual))
      && Add(c, key, other) == (if other == residual then Infinity else Add(c, residual, other))
  {
    var p, residual := c.p, Residual(c, key);
    ReducedIsResidual(c, other);
    AlikeResidue(p, key.x);
    AlikeResidue(p, key.y);
    AlikeResidue(p, other.x);
    AlikeResidue(p, other.y);
    if other.x == residual.x {
      SameRemainder(p, key.x, other.x);
      SameRemainder(p, other.x, key.x);
      MultipleHasNoInverse(p, key.x - other.x);
      MultipleHasNoInverse(p, other.x - key.x);
      if key.x == other.x && key.y == other.y {
        assert false;
      }
    } else {
      ChordAlike(c, other, key, other, residual);
      ChordAlike(c, key, other, residual, other);
    }
  }

  // ----- Multiples of a point of prime order -----

  /** A point whose order is the prime `n`. */
  ghost predicate OfPrimeOrder(c: CurveContext, q: Point)
    requires c.p > 1
  {
    q.Affine? && Element(c, q) && Prime(c.n) && Times(c, c.n, q) == Infinity
  }

  /** No smaller multiple is infinity. */
  lemma MultipleIsAffine(c: CurveContext, m: nat, q: Point)
    requires Group(c) && OfPrimeOrder(c, q) && 0 < m < c.n
    ensures Times(c, m, q).Affine?
  {
    QuotientIsUnique(c.n, m, 0, m);
    PrimeInverse(m, c.n);
    var v := Inverse(m, c.n).value;
    TimesOfOne(c, q);
    hide *;
    GroupHasField(c);
    if Times(c, m, q) == Infinity {
      TimesInfinity(c, v);
      TimesProduct(c, v, m, q);
      ScaledIsProduct(v, m);
      TimesCycles(c, c.n, Scaled(0, v, m), q);
    }
  }

  lemma TimesOfOne(c: CurveContext, q: Point)
    requires c.p > 1
    ensures Times(c, 1, q) == q
  {
    assert Times(c, 0, q) == Infinity;
  }

  lemma ScaledIsProduct(v: nat, m: nat)
    ensures Scaled(0, v, m) == m * v
  {
  }

  /** A multiple is the point itself only for the scalar one. */
  lemma MultipleIsAnother(c: CurveContext, m: nat, q: Point)
    requires Group(c) && OfPrimeOrder(c, q) && 1 < m < c.n
    ensures Times(c, m, q) != q
  {
    hide *;
    GroupHasField(c);
    OrderMeans(c, q);
    if Times(c, m, q) == q {
      TimesSum(c, m, c.n - 1, q);
      TimesSum(c, 1, c.n - 1, q);
      TimesOfOne(c, q);
      TimesSum(c, m - 1, c.n, q);
      TimesStep(c, 0, Times(c, m - 1, q));
      MultipleIsAffine(c, m - 1, q);
    }
  }

  lemma OrderMeans(c: CurveContext, q: Point)
    requires c.p > 1 && OfPrimeOrder(c, q)
    ensures q.Affine? && Element(c, q) && c.n > 1 && Times(c, c.n, q) == Infinity
  {
  }

  // ----- Double-and-add on a point that is not reduced -----

  ghost predicate UnreducedKey(c: CurveContext, key: Point)
    requires c.p > 1
  {
    key.Affine? && !Reduced(c, key) && OfPrimeOrder(c, Residual(c, key))
  }

  lemma UnreducedKeyMeans(c: CurveContext, key: Point)
    requires c.p > 1 && UnreducedKey(c, key)
    ensures key.Affine? && !Reduced(c, key) && OfPrimeOrder(c, Residual(c, key))
  {
  }

  lemma MultipleIsReduced(c: CurveContext, m: nat, q: Point)
    requires Group(c) && OfPrimeOrder(c, q)
    ensures Element(c, Times(c, m, q)) && Reduced(c, Times(c, m, q))
  {
    TimesIsElement(c, m, q);
  }

  lemma FactorIsAtMost(k: nat, unit: nat)
    requires k > 0
    ensures unit <= Scaled(0, k, unit)
  {
    assert k * unit == (k - 1) * unit + unit;
  }

  /** Behind the lowest bit, what is added to the point is another multiple of it, so that nothing is missed. */
  lemma {:induction false} LadderFromKey(c: CurveContext, k: nat, unit: nat, key: Point)
    requires Group(c) && UnreducedKey(c, key) && k > 0 && unit > 1 && Scaled(0, k, unit) < c.n
    ensures var q := Residual(c, key);
      Ladder(c, k, key, Times(c, unit, q)) == Ladder(c, k, q, Times(c, unit, q))
    decreases k
  {
    hide *;
    GroupHasField(c);
    UnreducedKeyMeans(c, key);
    var q := Residual(c, key);
    OrderMeans(c, q);
    FactorIsAtMost(k, unit);
    ScaledStep(0, k, unit);
    LadderStep(c, k, key, Times(c, unit, q));
    LadderStep(c, k, q, Times(c, unit, q));
    if k % 2 == 0 {
      TimesSum(c, unit, unit, q);
      LadderFromKey(c, k / 2, unit + unit, key);
    } else {
      MultipleIsReduced(c, unit, q);
      MultipleIsAffine(c, unit, q);
      MultipleIsAnother(c, unit, q);
      AddUnreduced(c, Times(c, unit, q), key);
    }
  }

  /** The scalar one gives the point back as it came; every other scalar below the order reduces it. */
  lemma MultipleOfKey(c: CurveContext, k: nat, key: Point)
    requires Group(c) && UnreducedKey(c, key) && 0 < k < c.n
    ensures DoubleAndAdd(c, k, key) == if k == 1 then key else Times(c, k, Residual(c, key))
  {
    var q := Residual(c, key);
    LadderOfKey(c, k, key);
    hide *;
    GroupHasField(c);
    UnreducedKeyMeans(c, key);
    OrderMeans(c, q);
    DoubleAndAddIsTimes(c, k, q);
    DoubleAndAddMeans(c, k, key);
    DoubleAndAddMeans(c, k, q);
  }

  lemma DoubleAndAddMeans(c: CurveContext, k: nat, point: Point)
    requires c.p > 1 && point.Affine?
    ensures DoubleAndAdd(c, k, point) == Ladder(c, k, Infinity, point)
  {
  }

  lemma LadderOfKey(c: CurveContext, k: nat, key: Point)
    requires Group(c) && UnreducedKey(c, key) && 0 < k < c.n
    ensures Ladder(c, k, Infinity, key) == if k == 1 then key else Ladder(c, k, Infinity, Residual(c, key))
  {
    hide *;
    GroupHasField(c);
    UnreducedKeyMeans(c, key);
    var q := Residual(c, key);
    OrderMeans(c, q);
    LadderStep(c, k, Infinity, key);
    LadderStep(c, k, Infinity, q);
    TimesStep(c, 0, key);
    TimesStep(c, 0, q);
    AddIsDouble(c, key);
    AddIsDouble(c, q);
    DoubleOfResidual(c, key);
    if k == 1 {
      LadderStep(c, 0, key, Double(c, key));
    } else if k % 2 == 1 {
      TimesOfOne(c, q);
      TimesSum(c, 1, 1, q);
      HalvesFit(k);
      assert k / 2 > 0;
      LadderFromKey(c, k / 2, 2, key);
    }
  }

  lemma AddIsDouble(c: CurveContext, point: Point)
    requires c.p > 1
    ensures Add(c, point, point) == Double(c, point)
  {
  }

  lemma HalvesFit(k: nat)
    ensures Scaled(0, k / 2, 2) <= k
  {
  }
}
