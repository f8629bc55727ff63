/**
 A curve for which the hypotheses of the signature theorems hold: `y^2 = x^3 + 2x + 1` over the field of
 three elements has seven points, all multiples of one. It shows that the hypotheses can be met together.
 */
module SmallCurve {

  import opened Octets
  import opened Modular
  import opened Curve
  import opened ScalarMul
  import opened KeyResidues
  import opened EcdsaVerify
  import Ber
  import DigestScalar
  import EcdsaEncoding

  const SMALL: CurveContext := CurveContext(3, 2, 1, 7, Affine(0, 1), 64, 64)

  /** The base point's multiples. */
  function MultipleOf(k: nat): Point
    requires k < 7
  {
    match k
    case 0 => Infinity
    case 1 => Affine(0, 1)
    case 2 => Affine(1, 1)
    case 3 => Affine(2, 2)
    case 4 => Affine(2, 1)
    case 5 => Affine(1, 2)
    case 6 => Affine(0, 2)
  }

  function SumOf(i: nat, j: nat): (k: nat)
    ensures k < 7
  {
    (i + j) % 7
  }

  lemma SumsAssociate(i: nat, j: nat, k: nat)
    ensures SumOf(SumOf(i, j), k) == SumOf(i, SumOf(j, k))
  {
  }

  lemma ThreeAndSevenArePrime()
    ensures Prime(3) && Prime(7)
  {
    forall d: nat | 1 < d < 7 ensures !Divides(d, 7) && (d < 3 ==> !Divides(d, 3)) {
    }
  }

  /** Which number a point is a multiple by. */
  lemma EveryElementIsAMultiple(point: Point) returns (k: nat)
    requires Element(SMALL, point)
    ensures k < 7 && MultipleOf(k) == point
  {
    if point.Infinity? {
      return 0;
    }
    if point.x == 0 {
      k := if point.y == 1 then 1 else 6;
    } else if point.x == 1 {
      k := if point.y == 1 then 2 else 5;
    } else {
      k := if point.y == 1 then 4 else 3;
    }
  }

  lemma InverseModuloThree(x: int)
    requires x % 3 != 0
    ensures Inverse(x, 3) == Some(x % 3)
  {
    ThreeAndSevenArePrime();
    PrimeInverse(x, 3);
    var v := Inverse(x, 3).value;
    assert v == 1 || v == 2;
  }

  /** A chord of slope `l`: modulo three every inverse is the residue itself. */
  lemma Chord(x1: nat, y1: nat, x2: nat, y2: nat, l: nat, x: nat, y: nat)
    requires x1 != x2 && (x2 - x1) % 3 != 0
    requires l == (y2 - y1) * ((x2 - x1) % 3) % 3 && x == (l * l - x1 - x2) % 3 && y == (l * (x1 - x) - y1) % 3
    ensures Add(SMALL, Affine(x1, y1), Affine(x2, y2)) == Affine(x, y)
  {
    InverseModuloThree(x2 - x1);
    hide Inverse;
  }

  lemma Tangent(x1: nat, y1: nat, l: nat, x: nat, y: nat)
    requires y1 % 3 != 0 && 2 * y1 % 3 != 0
    requires l == (3 * (x1 * x1) + 2) * (2 * y1 % 3) % 3 && x == (l * l - x1 - x1) % 3 && y == (l * (x1 - x) - y1) % 3
    ensures Add(SMALL, Affine(x1, y1), Affine(x1, y1)) == Affine(x, y)
  {
    InverseModuloThree(2 * y1);
    hide Inverse;
  }

  lemma SumsOfOne()
    ensures Add(SMALL, Affine(0, 1), Affine(0, 1)) == Affine(1, 1)
    ensures Add(SMALL, Affine(0, 1), Affine(1, 1)) == Affine(2, 2)
    ensures Add(SMALL, Affine(0, 1), Affine(2, 2)) == Affine(2, 1)
    ensures Add(SMALL, Affine(0, 1), Affine(2, 1)) == Affine(1, 2)
    ensures Add(SMALL, Affine(0, 1), Affine(1, 2)) == Affine(0, 2)
  {
    hide *;
    Tangent(0, 1, 1, 1, 1);
    Chord(0, 1, 1, 1, 0, 2, 2);
    Chord(0, 1, 2, 2, 2, 2, 1);
    Chord(0, 1, 2, 1, 0, 1, 2);
    Chord(0, 1, 1, 2, 1, 0, 2);
  }

  lemma SumsOfTwo()
    ensures Add(SMALL, Affine(1, 1), Affine(1, 1)) == Affine(2, 1)
    ensures Add(SMALL, Affine(1, 1), Affine(2, 2)) == Affine(1, 2)
    ensures Add(SMALL, Affine(1, 1), Affine(2, 1)) == Affine(0, 2)
    ensures Add(SMALL, Affine(1, 1), Affine(0, 2)) == Affine(0, 1)
  {
    hide *;
    Tangent(1, 1, 1, 2, 1);
    Chord(1, 1, 2, 2, 1, 1, 2);
    Chord(1, 1, 2, 1, 0, 0, 2);
    Chord(1, 1, 0, 2, 2, 0, 1);
  }

  lemma SumsOfThree()
    ensures Add(SMALL, Affine(2, 2), Affine(2, 2)) == Affine(0, 2)
    ensures Add(SMALL, Affine(2, 2), Affine(1, 2)) == Affine(0, 1)
    ensures Add(SMALL, Affine(2, 2), Affine(0, 2)) == Affine(1, 1)
  {
    hide *;
    Tangent(2, 2, 2, 0, 2);
    Chord(2, 2, 1, 2, 0, 0, 1);
    Chord(2, 2, 0, 2, 0, 1, 1);
  }

  lemma SumsOfFour()
    ensures Add(SMALL, Affine(2, 1), Affine(2, 1)) == Affine(0, 1)
    ensures Add(SMALL, Affine(2, 1), Affine(1, 2)) == Affine(1, 1)
    ensures Add(SMALL, Affine(2, 1), Affine(0, 2)) == Affine(2, 2)
  {
    hide *;
    Tangent(2, 1, 1, 0, 1);
    Chord(2, 1, 1, 2, 2, 1, 1);
    Chord(2, 1, 0, 2, 1, 2, 2);
  }

  lemma SumsOfFive()
    ensures Add(SMALL, Affine(1, 2), Affine(1, 2)) == Affine(2, 2)
    ensures Add(SMALL, Affine(1, 2), Affine(0, 2)) == Affine(2, 1)
  {
    hide *;
    Tangent(1, 2, 2, 2, 2);
    Chord(1, 2, 0, 2, 0, 2, 1);
  }

  lemma SumsOfSix()
    ensures Add(SMALL, Affine(0, 2), Affine(0, 2)) == Affine(1, 2)
  {
    hide *;
    Tangent(0, 2, 2, 1, 2);
  }

  lemma OppositesVanish(x: nat, y: nat, z: nat)
    requires y != z
    ensures Add(SMALL, Affine(x, y), Affine(x, z)) == Infinity
  {
  }

  lemma InfinityIsNeutral(point: Point)
    ensures Add(SMALL, Infinity, point) == point
  {
  }

  lemma AddMultiples(i: nat, j: nat)
    requires i <= j < 7
    ensures Add(SMALL, MultipleOf(i), MultipleOf(j)) == MultipleOf(SumOf(i, j))
  {
    hide Add;
    InfinityIsNeutral(MultipleOf(j));
    OppositesVanish(0, 1, 2);
    OppositesVanish(1, 1, 2);
    OppositesVanish(2, 2, 1);
    match i {
      case 0 =>
      case 1 => SumsOfOne();
      case 2 => SumsOfTwo();
      case 3 => SumsOfThree();
      case 4 => SumsOfFour();
      case 5 => SumsOfFive();
      case 6 => SumsOfSix();
    }
  }

  /** Addition of elements is addition of their numbers modulo seven, in either order. */
  lemma AddElements(i: nat, j: nat)
    requires i < 7 && j < 7
    ensures Add(SMALL, MultipleOf(i), MultipleOf(j)) == MultipleOf(SumOf(i, j))
  {
    ThreeAndSevenArePrime();
    if i <= j {
      AddMultiples(i, j);
    } else {
      AddMultiples(j, i);
      AddCommutes(SMALL, MultipleOf(i), MultipleOf(j));
    }
  }

  lemma MultiplesAssociate(i: nat, j: nat, k: nat)
    requires i < 7 && j < 7 && k < 7
    ensures Add(SMALL, Add(SMALL, MultipleOf(i), MultipleOf(j)), MultipleOf(k))
      == Add(SMALL, MultipleOf(i), Add(SMALL, MultipleOf(j), MultipleOf(k)))
  {
    SumsAssociate(i, j, k);
    hide *;
    AddElements(i, j);
    AddElements(j, k);
    AddElements(SumOf(i, j), k);
    AddElements(i, SumOf(j, k));
  }

  lemma SmallIsAssociative(x: Point, y: Point, z: Point)
    ensures AssociativeAt(SMALL, x, y, z)
  {
    hide Add;
    if Element(SMALL, x) && Element(SMALL, y) && Element(SMALL, z) {
      var i := EveryElementIsAMultiple(x);
      var j := EveryElementIsAMultiple(y);
      var k := EveryElementIsAMultiple(z);
      MultiplesAssociate(i, j, k);
    }
  }

  lemma {:induction false} TimesBase(k: nat)
    requires k <= 7
    ensures Times(SMALL, k, SMALL.g) == MultipleOf(k % 7)
  {
    hide Add;
    if k > 0 {
      TimesBase(k - 1);
      AddElements(k - 1, 1);
    }
  }

  /** What the signature theorems assume of a curve can be had: here is one. */
  lemma HypothesesAreMet()
    ensures Group(SMALL) && Prime(SMALL.n)
    ensures SMALL.g.Affine? && Element(SMALL, SMALL.g) && Times(SMALL, SMALL.n, SMALL.g) == Infinity
  {
    hide Add, Times, AssociativeAt;
    ThreeAndSevenArePrime();
    TimesBase(7);
    forall x: Point, y: Point, z: Point ensures AssociativeAt(SMALL, x, y, z) {
      SmallIsAssociative(x, y, z);
    }
  }

  // ----- A key that is not reduced -----

  const SMALL_OCTETS: CurveOctets := CurveOctets([3], [2], [1], [0], [1], [7])

  /** The base point as a key, and the same point with three added to its `x`. */
  const BASE_KEY: octets := [SEC1_UNCOMPRESSED_TAG, 0, 1]
  const UNREDUCED_KEY: octets := [SEC1_UNCOMPRESSED_TAG, 3, 1]

  lemma ContextIsSmall()
    ensures NewContext(SMALL_OCTETS) == Some(SMALL)
  {
    assert BigEndian([]) == 0;
    SingleOctet(0);
    SingleOctet(1);
    SingleOctet(2);
    SingleOctet(3);
    SingleOctet(7);
  }

  lemma SingleOctet(b: byte)
    ensures BigEndian([b]) == b
  {
    assert BigEndian([]) == 0;
  }

  lemma KeysParse(x: byte)
    ensures ParseAffine([SEC1_UNCOMPRESSED_TAG, x, 1], 64) == Ok(Affine(x, 1))
  {
    assert [SEC1_UNCOMPRESSED_TAG] + [x] + [1] == [SEC1_UNCOMPRESSED_TAG, x, 1];
    SingleOctet(x);
    SingleOctet(1);
    PublicKeyReads([x], [1], 64);
  }

  lemma SignatureParses(v: byte)
    requires 0 < v < 0x80
    ensures EcdsaEncoding.ParseEcdsaSignature([0x30, 6, 2, 1, v, 2, 1, v]) == Some(([v], [v]))
  {
    var number: octets := [2, 1, v];
    ShortTlv(0x30, number + number, []);
    ShortTlv(2, [v], number);
    ShortTlv(2, [v], []);
    assert [0x30, 6] + (number + number) + [] == [0x30, 6, 2, 1, v, 2, 1, v];
    assert [2, 1] + [v] + number == number + number && [2, 1] + [v] + [] == number;
    assert (number + number)[3..] == number;
    assert EcdsaEncoding.Unpadded([v]) == [v];
    hide Ber.ParseTlv, Ber.TlvOctets, EcdsaEncoding.Unpadded;
  }

  lemma ShortTlv(tag: byte, value: octets, rest: octets)
    requires tag % 0x20 != 0x1F && |value| < 0x80
    ensures Ber.ParseTlv([tag, |value|] + value + rest) == Ok(Ber.Tlv(tag, value, 2 + |value|))
  {
    Ber.ParseOfWritten(tag, value, rest);
    assert [tag] + [|value|] + value == [tag, |value|] + value;
    hide Ber.ParseTlv;
  }

  lemma DigestsParse()
    ensures DigestScalar.Scalar([0], BitLength(7)) == 0 && DigestScalar.Scalar([0x20], BitLength(7)) == 1
  {
    SingleOctet(0);
    SingleOctet(0x20);
    assert BitLength(1) == 1 && BitLength(3) == 2 && BitLength(7) == 3;
    assert Pow2(3) == 8 && Pow2(5) == 32;
  }

  lemma SmallNumbersFit(x: nat)
    requires x < 7
    ensures IntoN(x, 7, 64) == x
  {
    Pow2Sum(61, 3);
    assert Pow2(3) == 8 && Pow2(61) >= 1;
    QuotientIsUnique(Pow2(64), x, 0, x);
  }

  lemma ScalarOne(point: Point)
    ensures DoubleAndAdd(SMALL, 1, point) == point && DoubleAndAdd(SMALL, 0, point) == Infinity
  {
    if point.Affine? {
      assert Add(SMALL, Infinity, point) == point;
      LadderStep(SMALL, 1, Infinity, point);
      LadderStep(SMALL, 0, point, Double(SMALL, point));
      assert Add(SMALL, point, point) == Double(SMALL, point);
    }
  }

  /** The two equations: of `r = s = 3` for the digest 0, and of `r = s = 1` for the digest 1. */
  lemma SmallEquations(x: nat)
    requires x in {0, 3}
    ensures EquationHolds(SMALL, Affine(x, 1), 3, 3, 0) == if x == 3 then Ok(()) else Err(VerifyFailed)
    ensures EquationHolds(SMALL, Affine(x, 1), 1, 1, 1) == if x == 0 then Ok(()) else Err(VerifyFailed)
  {
    InverseModuloSeven();
    SmallNumbersFit(x);
    SmallNumbersFit(1);
    ScalarOne(SMALL.g);
    ScalarOne(Affine(x, 1));
    SumsOfOne();
    InverseModuloThree(1);
    OppositesAndMultiples();
    assert Scalars(3, 0, 5, 7) == (0, 1) && Scalars(1, 1, 1, 7) == (1, 1);
    hide Inverse, DoubleAndAdd, Add, IntoN, Scalars;
  }

  lemma InverseModuloSeven()
    ensures Inverse(3, 7) == Some(5) && Inverse(1, 7) == Some(1)
  {
    ThreeAndSevenArePrime();
    PrimeInverse(3, 7);
    PrimeInverse(1, 7);
    var v := Inverse(3, 7).value;
    assert v in {0, 1, 2, 3, 4, 5, 6};
  }

  /** Infinity is neutral, and a point three beyond another in `x` seems to stand opposite it. */
  lemma OppositesAndMultiples()
    ensures Add(SMALL, Infinity, Affine(0, 1)) == Affine(0, 1)
    ensures Add(SMALL, Infinity, Affine(3, 1)) == Affine(3, 1)
    ensures Add(SMALL, Affine(0, 1), Affine(3, 1)) == Infinity
  {
    ThreeAndSevenArePrime();
    MultipleHasNoInverse(3, 3);
  }

  /** Accepted under a key that is not reduced, although the standard refuses the point it stands for. */
  lemma UnreducedKeyIsAccepted()
    ensures VerifyPrehashed(SMALL_OCTETS, UNREDUCED_KEY, [0x30, 6, 2, 1, 3, 2, 1, 3], [0]) == Ok(())
    ensures ParseAffine(UNREDUCED_KEY, 64) == Ok(Affine(3, 1)) && Residual(SMALL, Affine(3, 1)) == SMALL.g
    ensures !StandardAccepts(SMALL, SMALL.g, 3, 3, 0)
  {
    InverseModuloSeven();
    ScalarOne(SMALL.g);
    TimesOfOne(SMALL, SMALL.g);
    assert VerificationPoint(SMALL, SMALL.g, 3, 0, 5) == SMALL.g;
    VerifiesSmall(3, 3, [0], 0);
    hide EquationHolds, VerifyPrehashed, ParseAffine, DoubleAndAdd, Inverse, Times, VerificationPoint;
    SmallEquations(3);
    KeysParse(3);
  }

  /** Refused under a key that is not reduced, although it is accepted under the same point reduced. */
  lemma UnreducedKeyIsRefused()
    ensures VerifyPrehashed(SMALL_OCTETS, UNREDUCED_KEY, [0x30, 6, 2, 1, 1, 2, 1, 1], [0x20]) == Err(VerifyFailed)
    ensures VerifyPrehashed(SMALL_OCTETS, BASE_KEY, [0x30, 6, 2, 1, 1, 2, 1, 1], [0x20]) == Ok(())
  {
    hide EquationHolds, VerifyPrehashed, ParseAffine, DoubleAndAdd, Inverse, Times;
    VerifiesSmall(3, 1, [0x20], 1);
    VerifiesSmall(0, 1, [0x20], 1);
    SmallEquations(3);
    SmallEquations(0);
  }

  /** On this curve the octets come down to the equation. */
  lemma VerifiesSmall(x: byte, v: byte, digest: octets, e: nat)
    requires x in {0, 3} && v in {1, 3} && ((digest == [0] && e == 0) || (digest == [0x20] && e == 1))
    ensures VerifyPrehashed(SMALL_OCTETS, [SEC1_UNCOMPRESSED_TAG, x, 1], [0x30, 6, 2, 1, v, 2, 1, v], digest)
      == EquationHolds(SMALL, Affine(x, 1), v, v, e)
  {
    hide *;
    SmallValues();
    ContextIsSmall();
    KeysParse(x);
    SignatureParses(v);
    DigestsParse();
    SingleOctet(3);
    KeyIsOnCurve(x);
    BoxedOctet(v);
    Unfolded(SMALL_OCTETS, SMALL, [SEC1_UNCOMPRESSED_TAG, x, 1], [0x30, 6, 2, 1, v, 2, 1, v], digest, Affine(x, 1), [v],
             v);
  }

  lemma SmallValues()
    ensures SMALL_OCTETS.p == [3] && SMALL.p == 3 && SMALL.n == 7 && SMALL.bitsP == 64 == SMALL.bitsN
  {
  }

  lemma KeyIsOnCurve(x: nat)
    requires x in {0, 3}
    ensures SMALL.p > 1 && OnCurve(SMALL, Affine(x, 1))
  {
  }

  lemma BoxedOctet(v: byte)
    ensures Boxed([v], 64) == Some(v)
  {
    SingleOctet(v);
  }

  lemma Unfolded(curve: CurveOctets, c: CurveContext, pubkey: octets, signature: octets, digest: octets, key: Point,
                 number: octets, v: nat)
    requires NewContext(curve) == Some(c) && c.p > 1 && BigEndian(curve.p) != 1
    requires ParseAffine(pubkey, c.bitsP) == Ok(key) && OnCurve(c, key)
    requires EcdsaEncoding.ParseEcdsaSignature(signature) == Some((number, number)) && Boxed(number, c.bitsN) == Some(v)
    ensures VerifyPrehashed(curve, pubkey, signature, digest)
      == EquationHolds(c, key, v, v, DigestScalar.Scalar(digest, BitLength(c.n)))
  {
    hide NewContext, ParseAffine, EcdsaEncoding.ParseEcdsaSignature, Boxed, OnCurve, EquationHolds, DigestScalar.Scalar;
  }
}
