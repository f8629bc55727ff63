/** Scalar multiplication by double-and-add, against repeated addition. */
module ScalarMul {

  import opened Octets
  import opened Modular
  import opened Curve

  // ----- Bits -----

  function Pow2(k: nat): (r: nat)
    ensures r > 0
  {
    if k == 0 then 1 else 2 * Pow2(k - 1)
  }

  lemma {:induction false} Pow2Sum(i: nat, j: nat)
    ensures Pow2(i + j) == Pow2(i) * Pow2(j)
  {
    if i > 0 {
      Pow2Sum(i - 1, j);
      assert i + j - 1 == i - 1 + j;
      assert 2 * (Pow2(i - 1) * Pow2(j)) == 2 * Pow2(i - 1) * Pow2(j);
    }
  }

  /** How many bits `k` takes. */
  function BitLength(k: nat): nat {
    if k == 0 then 0 else 1 + BitLength(k / 2)
  }

  lemma {:induction false} BitLengthBounds(k: nat)
    ensures k < Pow2(BitLength(k))
    ensures k > 0 ==> Pow2(BitLength(k) - 1) <= k
  {
    if k > 0 {
      BitLengthBounds(k / 2);
    }
  }

  function Bit(k: nat, i: nat): bool {
    k / Pow2(i) % 2 == 1
  }

  /** Dropping one more bit halves what is left. */
  lemma DropBit(k: nat, i: nat)
    ensures k / Pow2(i + 1) == k / Pow2(i) / 2
  {
    var m, q := Pow2(i), k / Pow2(i);
    assert k == m * q + k % m;
    assert q == 2 * (q / 2) + q % 2;
    assert m * q == 2 * m * (q / 2) + m * (q % 2);
    assert m * (q % 2) <= m;
    QuotientIsUnique(2 * m, k, q / 2, m * (q % 2) + k % m);
  }

  // ----- Double-and-add -----

  /** What double-and-add adds to `acc` for the bits of `k`, the lowest standing for `addend`. */
  function Ladder(c: CurveContext, k: nat, acc: Point, addend: Point): (r: Point)
    requires c.p > 1
    ensures Reduced(c, acc) && Reduced(c, addend) ==> Reduced(c, r)
    decreases k
  {
    if k == 0 then acc
    else Ladder(c, k / 2, if k % 2 == 1 then Add(c, acc, addend) else acc, Double(c, addend))
  }

  function DoubleAndAdd(c: CurveContext, k: nat, point: Point): (r: Point)
    requires c.p > 1
    ensures Reduced(c, point) ==> Reduced(c, r)
  {
    if point.Infinity? then Infinity else Ladder(c, k, Infinity, point)
  }

  /** The loop over the bits of the scalar, lowest first. */
  method ScalarMultiple(c: CurveContext, k: nat, point: Point) returns (r: Point)
    requires c.p > 1
    ensures r == DoubleAndAdd(c, k, point)
  {
    if point.Infinity? {
      return Infinity;
    }
    var acc := Infinity;
    var addend := point;
    var bits := BitLength(k);
    assert k / 1 == k;
    for i := 0 to bits
      invariant Ladder(c, k / Pow2(i), acc, addend) == Ladder(c, k, Infinity, point)
    {
      DropBit(k, i);
      BitsRemain(k, i);
      if Bit(k, i) {
        acc := Add(c, acc, addend);
      }
      addend := Double(c, addend);
    }
    BitLengthBounds(k);
    QuotientIsUnique(Pow2(bits), k, 0, k);
    return acc;
  }

  lemma BitsRemain(k: nat, i: nat)
    requires i < BitLength(k)
    ensures k / Pow2(i) > 0
  {
    BitLengthBounds(k);
    var rest := BitLength(k) - 1 - i;
    Pow2Sum(i, rest);
    ProductIsAtLeast(Pow2(i), Pow2(rest));
    assert i + rest == BitLength(k) - 1;
    QuotientIsPositive(k, Pow2(i));
  }

  lemma QuotientIsPositive(k: nat, m: nat)
    requires k >= m > 0
    ensures k / m > 0
  {
  }

  lemma ProductIsAtLeast(m: nat, k: nat)
    requires k > 0
    ensures m * k >= m
  {
    assert m * k == m * (k - 1) + m;
  }

  // ----- Closure, for every scalar -----

  lemma {:induction false} LadderInGroup(c: CurveContext, k: nat, acc: Point, addend: Point)
    requires ValidField(c) && InGroup(c, acc) && InGroup(c, addend)
    ensures InGroup(c, Ladder(c, k, acc, addend))
    decreases k
  {
    if k > 0 {
      AddInGroup(c, acc, addend);
      DoubleInGroup(c, addend);
      LadderInGroup(c, k / 2, if k % 2 == 1 then Add(c, acc, addend) else acc, Double(c, addend));
    }
  }

  /** Every multiple of a point of the curve is on the curve or infinity. */
  lemma MultipleInGroup(c: CurveContext, k: nat, point: Point)
    requires ValidField(c) && InGroup(c, point)
    ensures InGroup(c, DoubleAndAdd(c, k, point))
  {
    LadderInGroup(c, k, Infinity, point);
  }

  // ----- Repeated addition -----

  predicate Element(c: CurveContext, point: Point)
    requires c.p > 1
  {
    match point
    case Infinity => true
    case Affine(_, _) => Reduced(c, point) && OnCurve(c, point)
  }

  /** The one group law not proved here: which two of three points are added first does not matter. */
  ghost predicate Associative(c: CurveContext)
    requires c.p > 1
  {
    forall x: Point, y: Point, z: Point :: AssociativeAt(c, x, y, z)
  }

  predicate AssociativeAt(c: CurveContext, x: Point, y: Point, z: Point)
    requires c.p > 1
  {
    Element(c, x) && Element(c, y) && Element(c, z) ==> Add(c, Add(c, x, y), z) == Add(c, x, Add(c, y, z))
  }

  ghost predicate Group(c: CurveContext) {
    ValidField(c) && Associative(c)
  }

  lemma GroupHasField(c: CurveContext)
    requires Group(c)
    ensures c.p > 1 && ValidField(c)
  {
  }

  /** `point` added to itself `k` times. */
  function Times(c: CurveContext, k: nat, point: Point): (r: Point)
    requires c.p > 1
    ensures Reduced(c, point) ==> Reduced(c, r)
    decreases k
  {
    if k == 0 then Infinity else Add(c, Times(c, k - 1, point), point)
  }

  lemma {:induction false} TimesIsElement(c: CurveContext, k: nat, point: Point)
    requires ValidField(c) && Element(c, point)
    ensures Element(c, Times(c, k, point))
    decreases k
  {
    if k > 0 {
      TimesIsElement(c, k - 1, point);
      AddInGroup(c, Times(c, k - 1, point), point);
    }
  }

  lemma AddAssociates(c: CurveContext, x: Point, y: Point, z: Point)
    requires Group(c) && Element(c, x) && Element(c, y) && Element(c, z)
    ensures Add(c, Add(c, x, y), z) == Add(c, x, Add(c, y, z))
  {
    assert AssociativeAt(c, x, y, z);
  }

  lemma TimesStep(c: CurveContext, k: nat, point: Point)
    requires c.p > 1
    ensures Times(c, 0, point) == Infinity
    ensures Times(c, k + 1, point) == Add(c, Times(c, k, point), point)
    ensures Add(c, point, Infinity) == point == Add(c, Infinity, point)
  {
  }

  lemma {:induction false} TimesSum(c: CurveContext, i: nat, j: nat, point: Point)
    requires Group(c) && Element(c, point)
    ensures Times(c, i + j, point) == Add(c, Times(c, i, point), Times(c, j, point))
    decreases j
  {
    hide *;
    GroupHasField(c);
    TimesStep(c, 0, Times(c, i, point));
    TimesStep(c, 0, point);
    if j > 0 {
      TimesSum(c, i, j - 1, point);
      TimesIsElement(c, i, point);
      TimesIsElement(c, j - 1, point);
      AddAssociates(c, Times(c, i, point), Times(c, j - 1, point), point);
      TimesStep(c, j - 1, point);
      TimesStep(c, i + j - 1, point);
    }
  }

  /** `done` and `k` times `unit` more. */
  function Scaled(done: nat, k: nat, unit: nat): (r: nat)
  {
    assert k * unit >= 0;
    done + k * unit
  }

  lemma OneMore(k: nat, unit: nat)
    ensures Scaled(0, k + 1, unit) == Scaled(0, k, unit) + unit
    ensures Scaled(0, 0, unit) == 0
  {
  }

  lemma {:induction false} TimesProduct(c: CurveContext, i: nat, j: nat, point: Point)
    requires Group(c) && Element(c, point)
    ensures Times(c, i, Times(c, j, point)) == Times(c, Scaled(0, i, j), point)
    decreases i
  {
    hide *;
    GroupHasField(c);
    TimesStep(c, 0, point);
    TimesStep(c, 0, Times(c, j, point));
    OneMore(0, j);
    if i > 0 {
      var before := Scaled(0, i - 1, j);
      OneMore(i - 1, j);
      TimesProduct(c, i - 1, j, point);
      TimesSum(c, before, j, point);
      TimesStep(c, i - 1, Times(c, j, point));
    }
  }

  lemma {:induction false} TimesInfinity(c: CurveContext, k: nat)
    requires c.p > 1
    ensures Times(c, k, Infinity) == Infinity
    decreases k
  {
    if k > 0 {
      TimesInfinity(c, k - 1);
    }
  }

  /** Multiples of a point whose order divides `n` depend on the scalar modulo `n` alone. */
  lemma TimesCycles(c: CurveContext, n: nat, k: nat, point: Point)
    requires Group(c) && Element(c, point) && n > 0 && Times(c, n, point) == Infinity
    ensures Times(c, k, point) == Times(c, k % n, point)
  {
    hide *;
    GroupHasField(c);
    QuotientAndRest(k, n);
    WholeCyclesVanish(c, n, k / n, k % n, point);
  }

  lemma WholeCyclesVanish(c: CurveContext, n: nat, cycles: nat, rest: nat, point: Point)
    requires Group(c) && Element(c, point) && Times(c, n, point) == Infinity
    ensures Times(c, Scaled(0, cycles, n) + rest, point) == Times(c, rest, point)
  {
    hide *;
    GroupHasField(c);
    TimesProduct(c, cycles, n, point);
    TimesInfinity(c, cycles);
    TimesSum(c, Scaled(0, cycles, n), rest, point);
    TimesStep(c, 0, Times(c, rest, point));
  }

  lemma QuotientAndRest(k: nat, n: nat)
    requires n > 0
    ensures k == Scaled(0, k / n, n) + k % n
  {
  }

  lemma LadderStep(c: CurveContext, k: nat, acc: Point, addend: Point)
    requires c.p > 1
    ensures Ladder(c, 0, acc, addend) == acc
    ensures k > 0 && k % 2 == 1
      ==> Ladder(c, k, acc, addend) == Ladder(c, k / 2, Add(c, acc, addend), Add(c, addend, addend))
    ensures k > 0 && k % 2 == 0 ==> Ladder(c, k, acc, addend) == Ladder(c, k / 2, acc, Add(c, addend, addend))
  {
    assert Add(c, addend, addend) == Double(c, addend);
  }

  lemma ScaledStep(done: nat, k: nat, unit: nat)
    ensures Scaled(done, 0, unit) == done
    ensures Scaled(done, k, unit) == Scaled(if k % 2 == 1 then done + unit else done, k / 2, unit + unit)
  {
    var half := k / 2;
    assert k == 2 * half + k % 2;
    assert (2 * half + k % 2) * unit == 2 * half * unit + k % 2 * unit;
    assert 2 * half * unit == half * (unit + unit);
  }

  lemma {:induction false} LadderIsTimes(c: CurveContext, k: nat, done: nat, unit: nat, point: Point)
    requires Group(c) && Element(c, point)
    ensures Ladder(c, k, Times(c, done, point), Times(c, unit, point)) == Times(c, Scaled(done, k, unit), point)
    decreases k
  {
    hide *;
    GroupHasField(c);
    LadderStep(c, k, Times(c, done, point), Times(c, unit, point));
    ScaledStep(done, k, unit);
    if k > 0 {
      TimesSum(c, unit, unit, point);
      if k % 2 == 1 {
        TimesSum(c, done, unit, point);
        LadderIsTimes(c, k / 2, done + unit, unit + unit, point);
      } else {
        LadderIsTimes(c, k / 2, done, unit + unit, point);
      }
    }
  }

  /** Double-and-add computes the repeated sum, for every scalar. */
  lemma DoubleAndAddIsTimes(c: CurveContext, k: nat, point: Point)
    requires Group(c) && Element(c, point)
    ensures DoubleAndAdd(c, k, point) == Times(c, k, point)
  {
    TimesInfinity(c, k);
    TimesStep(c, 0, point);
    LadderIsTimes(c, k, 0, 1, point);
    assert Scaled(0, k, 1) == k;
  }
}
