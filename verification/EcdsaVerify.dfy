/** ECDSA verification (`ecdsa.rs`) against section 6.4 of FIPS 186-4. */
module EcdsaVerify {

  import opened Octets
  import opened Modular
  import opened Curve
  import opened ScalarMul
  import opened KeyResidues
  import DigestScalar
  import EcdsaEncoding

  const SEC1_UNCOMPRESSED_TAG: byte := 0x04

  datatype EcdsaError = BadModulus | BadPublicKey | BadSignature | SigOutOfRange | NotInvertible | VerifyFailed

  /** Curve constants as a certificate or a named curve gives them, in big-endian octets. */
  datatype CurveOctets = CurveOctets(p: octets, a: octets, b: octets, gx: octets, gy: octets, n: octets)

  // ----- Setting up -----

  /** Bits of the 64-bit words that hold `len` octets, one word at least. */
  function BitsForLen(len: nat): (bits: nat)
    ensures bits >= 8 * len && bits % 64 == 0
  {
    if len == 0 then 64 else (8 * len + 63) / 64 * 64
  }

  function Boxed(bytes: octets, bits: nat): Option<nat> {
    if 8 * |bytes| <= bits then Some(BigEndian(bytes)) else None
  }

  /** The context, unless a modulus is even or a constant too wide. */
  function NewContext(curve: CurveOctets): (r: Option<CurveContext>)
    ensures r.Some? ==> r.value.p == BigEndian(curve.p) && r.value.n == BigEndian(curve.n)
  {
    var bitsP, bitsN := BitsForLen(|curve.p|), BitsForLen(|curve.n|);
    var p :- Boxed(curve.p, bitsP);
    var n :- Boxed(curve.n, bitsN);
    var a :- Boxed(curve.a, bitsP);
    var b :- Boxed(curve.b, bitsP);
    var gx :- Boxed(curve.gx, bitsP);
    var gy :- Boxed(curve.gy, bitsP);
    if p % 2 == 0 || n % 2 == 0 then None
    else Some(CurveContext(p, a, b, n, Affine(gx, gy), bitsP, bitsN))
  }

  /** `04 || X || Y`, two coordinates of equal width. */
  function ParseAffine(bytes: octets, bitsP: nat): Result<Point, EcdsaError> {
    if bytes == [] || bytes[0] != SEC1_UNCOMPRESSED_TAG then Err(BadPublicKey)
    else
      var body := bytes[1..];
      if |body| % 2 != 0 || body == [] then Err(BadPublicKey)
      else
        var x, y := Boxed(body[..|body| / 2], bitsP), Boxed(body[|body| / 2..], bitsP);
        if x.None? || y.None? then Err(BadModulus) else Ok(Affine(x.value, y.value))
  }

  // ----- Verifying -----

  /** Cut to the scalar width, then reduced by one subtraction at most. */
  function IntoN(x: nat, n: nat, bitsN: nat): nat {
    var cut := x % Pow2(bitsN);
    if cut >= n then cut - n else cut
  }

  /** The scalars of the verification equation. */
  function Scalars(r: nat, e: nat, w: nat, n: nat): (nat, nat)
    requires n > 0
  {
    ((e % n * w) % n, (r * w) % n)
  }

  function EquationHolds(c: CurveContext, q: Point, r: nat, s: nat, e: nat): Result<(), EcdsaError>
    requires c.p > 1
  {
    if r < 1 || r >= c.n || s < 1 || s >= c.n then Err(SigOutOfRange)
    else
      match Inverse(s, c.n)
      case None => Err(NotInvertible)
      case Some(w) =>
        var u := Scalars(r, e, w, c.n);
        match Add(c, DoubleAndAdd(c, u.0, c.g), DoubleAndAdd(c, u.1, q))
        case Infinity => Err(VerifyFailed)
        case Affine(x, _) => if IntoN(x, c.n, c.bitsN) == r then Ok(()) else Err(VerifyFailed)
  }

  function VerifyInContext(c: CurveContext, pubkey: octets, signature: octets, digest: octets): Result<(), EcdsaError>
    requires c.p > 1
  {
    var q :- ParseAffine(pubkey, c.bitsP);
    if !OnCurve(c, q) then Err(BadPublicKey)
    else
      match EcdsaEncoding.ParseEcdsaSignature(signature)
      case None => Err(BadSignature)
      case Some((rBytes, sBytes)) =>
        var r, s := Boxed(rBytes, c.bitsN), Boxed(sBytes, c.bitsN);
        if r.None? || s.None? then Err(BadModulus)
        else EquationHolds(c, q, r.value, s.value, DigestScalar.Scalar(digest, BitLength(c.n)))
  }

  function VerifyPrehashed(curve: CurveOctets, pubkey: octets, signature: octets, digest: octets)
    : Result<(), EcdsaError>
    requires BigEndian(curve.p) != 1
  {
    match NewContext(curve)
    case None => Err(BadModulus)
    case Some(c) => VerifyInContext(c, pubkey, signature, digest)
  }

  // ----- The reduction of x -----

  /** One subtraction reduces exactly the values below `2n`, when what the cut drops is a multiple of `n`. */
  lemma IntoNReducesExactly(x: nat, n: nat, bitsN: nat)
    requires n > 0
    ensures IntoN(x, n, bitsN) == x % n
      <==> x % Pow2(bitsN) < 2 * n && Divides(n, x - x % Pow2(bitsN))
  {
    var cut := x % Pow2(bitsN);
    SameRemainder(n, x, cut);
    if cut < n {
      QuotientIsUnique(n, cut, 0, cut);
    } else if cut < 2 * n {
      QuotientIsUnique(n, cut, 1, cut - n);
    }
  }

  /** For an `x` that fits the scalar width, exactly the values below `2n`. */
  lemma IntoNReducesNarrow(x: nat, n: nat, bitsN: nat)
    requires n > 0 && x < Pow2(bitsN)
    ensures IntoN(x, n, bitsN) == x % n <==> x < 2 * n
  {
    QuotientIsUnique(Pow2(bitsN), x, 0, x);
    IntoNReducesExactly(x, n, bitsN);
    assert Divides(n, 0);
  }

  // ----- Against the standard -----

  /** `u1 G + u2 Q`, as repeated addition. */
  function VerificationPoint(c: CurveContext, q: Point, r: nat, e: nat, w: nat): Point
    requires c.p > 1 && c.n > 0
  {
    var u := Scalars(r, e, w, c.n);
    Add(c, Times(c, u.0, c.g), Times(c, u.1, q))
  }

  /** Section 6.4.2 of FIPS 186-4 on the parsed numbers. */
  predicate StandardAccepts(c: CurveContext, q: Point, r: nat, s: nat, e: nat)
    requires c.p > 1
  {
    && 1 <= r < c.n
    && 1 <= s < c.n
    && Inverse(s, c.n).Some?
    && var point := VerificationPoint(c, q, r, e, Inverse(s, c.n).value);
       point.Affine? && point.x % c.n == r
  }

  // ----- The public key as it comes -----

  /** A key on the curve, and in the group of prime order unless its coordinates are reduced. */
  ghost predicate KeyInGroup(c: CurveContext, key: Point)
    requires c.p > 1
  {
    && InGroup(c, key)
    && (Reduced(c, key) || (Prime(c.n) && Times(c, c.n, Residual(c, key)) == Infinity))
  }

  /**
   The point the source computes. A key whose coordinates are not reduced counts as its residual, but for
   the second scalar one, which is that of `r == s`: the key is then added as it came.
   */
  function ComputedPoint(c: CurveContext, key: Point, r: nat, s: nat, e: nat, w: nat): Point
    requires c.p > 1 && c.n > 0
  {
    var q, first := Residual(c, key), Times(c, Scalars(r, e, w, c.n).0, c.g);
    if Reduced(c, key) || r != s then VerificationPoint(c, q, r, e, w)
    else if first == Infinity then key
    else if first == q then Infinity
    else VerificationPoint(c, q, r, e, w)
  }

  /** The second scalar is never zero, and one exactly for `r == s`. */
  lemma SecondScalar(n: nat, r: nat, s: nat, e: nat, w: nat)
    requires n > 1 && 1 <= r < n && 1 <= s < n && (s * w) % n == 1
    ensures var u := Scalars(r, e, w, n); 0 < u.1 < n && (u.1 == 1 <==> r == s)
  {
    SecondScalarRecovers(n, r, s, w);
    assert Scalars(r, e, w, n).1 == (r * w) % n;
    hide *;
    SmallFactor(n, (r * w) % n, s);
  }

  lemma SmallFactor(n: nat, u: nat, s: nat)
    requires 1 <= s < n
    ensures u == 0 ==> (u * s) % n == 0
    ensures u == 1 ==> (u * s) % n == s
  {
    QuotientIsUnique(n, s, 0, s);
    assert u == 0 ==> u * s == 0;
    assert u == 1 ==> u * s == s;
  }

  lemma SecondScalarRecovers(n: nat, r: nat, s: nat, w: nat)
    requires n > 1 && r < n && (s * w) % n == 1
    ensures ((r * w) % n * s) % n == r
  {
    ProductOfRemainder(n, r * w, s);
    ProductOfRemainder(n, s * w, r);
    QuotientIsUnique(n, r, 0, r);
    Reorder(s, r, w);
    Reorder(r, s, w);
    assert s * (r * w) == r * w * s && r * (s * w) == s * w * r && r * (s * w) == s * (r * w);
  }

  lemma KeyResidualIsElement(c: CurveContext, key: Point)
    requires ValidField(c) && KeyInGroup(c, key)
    ensures Element(c, Residual(c, key))
    ensures Reduced(c, key) ==> Residual(c, key) == key
    ensures !Reduced(c, key) ==> UnreducedKey(c, key)
  {
    ReducedIsResidual(c, key);
    if key.Affine? {
      ResidualOnCurve(c, key);
    }
  }

  lemma ElementIsKey(c: CurveContext, q: Point)
    requires c.p > 1 && Element(c, q)
    ensures KeyInGroup(c, q) && Reduced(c, q) && Residual(c, q) == q
  {
    ReducedIsResidual(c, q);
  }

  /** The sum the source forms is the computed point. */
  lemma SumIsComputedPoint(c: CurveContext, key: Point, r: nat, s: nat, e: nat, w: nat)
    requires Group(c) && Element(c, c.g) && KeyInGroup(c, key) && c.n > 1
    requires 1 <= r < c.n && 1 <= s < c.n && (s * w) % c.n == 1
    ensures var u := Scalars(r, e, w, c.n);
      Add(c, DoubleAndAdd(c, u.0, c.g), DoubleAndAdd(c, u.1, key)) == ComputedPoint(c, key, r, s, e, w)
  {
    var u, q := Scalars(r, e, w, c.n), Residual(c, key);
    var first := Times(c, u.0, c.g);
    assert VerificationPoint(c, q, r, e, w) == Add(c, first, Times(c, u.1, q));
    hide Add, Times, DoubleAndAdd, Element, Group, OnCurve, Scalars, VerificationPoint, Residual, KeyInGroup, Reduced,
      UnreducedKey, ValidField;
    GroupHasField(c);
    SecondScalar(c.n, r, s, e, w);
    KeyResidualIsElement(c, key);
    DoubleAndAddIsTimes(c, u.0, c.g);
    if Reduced(c, key) {
      DoubleAndAddIsTimes(c, u.1, q);
    } else {
      MultipleOfKey(c, u.1, key);
      if r == s {
        TimesOfOne(c, q);
        AddKeyItself(c, first, key);
        TimesIsElement(c, u.0, c.g);
        ElementIsReduced(c, first);
      }
    }
  }

  lemma ElementIsReduced(c: CurveContext, q: Point)
    requires c.p > 1 && Element(c, q)
    ensures Reduced(c, q) && (q.Affine? ==> OnCurve(c, q))
  {
  }

  lemma AddKeyItself(c: CurveContext, first: Point, key: Point)
    requires ValidField(c) && UnreducedKey(c, key)
    ensures first == Infinity ==> Add(c, first, key) == key
    ensures first.Affine? && Reduced(c, first)
      ==> Add(c, first, key) == if first == Residual(c, key) then Infinity else Add(c, first, Residual(c, key))
  {
    if first.Affine? && Reduced(c, first) {
      AddUnreduced(c, first, key);
    }
  }

  /** The source accepts exactly when its computed point, with its own reduction of `x`, gives `r`. */
  lemma EquationHoldsExactly(c: CurveContext, key: Point, r: nat, s: nat, e: nat)
    requires Group(c) && Element(c, c.g) && KeyInGroup(c, key)
    ensures EquationHolds(c, key, r, s, e).Ok?
      <==> && 1 <= r < c.n
           && 1 <= s < c.n
           && Inverse(s, c.n).Some?
           && var point := ComputedPoint(c, key, r, s, e, Inverse(s, c.n).value);
              point.Affine? && IntoN(point.x, c.n, c.bitsN) == r
  {
    hide Add, Times, DoubleAndAdd, IntoN, Element, Group, OnCurve, ComputedPoint, KeyInGroup;
    GroupHasField(c);
    if 1 <= r < c.n && 1 <= s < c.n && Inverse(s, c.n).Some? {
      SumIsComputedPoint(c, key, r, s, e, Inverse(s, c.n).value);
    }
  }

  /**
   A key that is not reduced is verified with as its residual, except for `r == s`. There the first part
   decides: infinity leaves the key's own `x`, not reduced; the residual's own point is refused.
   */
  lemma UnreducedKeyExactly(c: CurveContext, key: Point, r: nat, s: nat, e: nat)
    requires Group(c) && Element(c, c.g) && KeyInGroup(c, key) && !Reduced(c, key)
    ensures r != s ==> EquationHolds(c, key, r, s, e) == EquationHolds(c, Residual(c, key), r, s, e)
    ensures r == s && 1 <= s < c.n && Inverse(s, c.n).Some?
      ==> var first := Times(c, Scalars(r, e, Inverse(s, c.n).value, c.n).0, c.g);
          && (first == Infinity
              ==> && (EquationHolds(c, key, r, s, e).Ok? <==> IntoN(key.x, c.n, c.bitsN) == r)
                  && (EquationHolds(c, Residual(c, key), r, s, e).Ok? <==> IntoN(key.x % c.p, c.n, c.bitsN) == r))
          && (first == Residual(c, key) ==> EquationHolds(c, key, r, s, e) == Err(VerifyFailed))
          && (first != Infinity && first != Residual(c, key)
              ==> EquationHolds(c, key, r, s, e) == EquationHolds(c, Residual(c, key), r, s, e))
  {
    var q := Residual(c, key);
    ResidualInGroup(c, key);
    if 1 <= r < c.n && 1 <= s < c.n && Inverse(s, c.n).Some? {
      var w := Inverse(s, c.n).value;
      var u := Scalars(r, e, w, c.n);
      assert VerificationPoint(c, q, r, e, w) == Add(c, Times(c, u.0, c.g), Times(c, u.1, q));
      assert Add(c, Infinity, q) == q;
      hide Add, Times, DoubleAndAdd, IntoN, Element, Group, OnCurve, KeyInGroup, Scalars, VerificationPoint, Reduced;
      SecondScalar(c.n, r, s, e, w);
      SumIsComputedPoint(c, key, r, s, e, w);
      SumIsComputedPoint(c, q, r, s, e, w);
      TimesOfOne(c, q);
    }
  }

  lemma ResidualInGroup(c: CurveContext, key: Point)
    requires Group(c) && KeyInGroup(c, key)
    ensures KeyInGroup(c, Residual(c, key)) && Reduced(c, Residual(c, key))
    ensures Residual(c, Residual(c, key)) == Residual(c, key)
    ensures key.Affine? ==> Residual(c, key) == Affine(key.x % c.p, key.y % c.p)
  {
    KeyResidualIsElement(c, key);
    ElementIsKey(c, Residual(c, key));
  }

  /** The key is reduced, or `r` and `s` differ: then it counts as its residual. */
  predicate CountsReduced(c: CurveContext, key: Point, r: nat, s: nat) {
    Reduced(c, key) || r != s
  }

  lemma ComputedPointMeans(c: CurveContext, key: Point, r: nat, s: nat, e: nat, w: nat)
    requires c.p > 1 && c.n > 0 && CountsReduced(c, key, r, s)
    ensures ComputedPoint(c, key, r, s, e, w) == VerificationPoint(c, Residual(c, key), r, e, w)
  {
  }

  /** Accepted as the standard asks, whenever the point's `x` is one that the source reduces right. */
  lemma AcceptsAsTheStandard(c: CurveContext, key: Point, r: nat, s: nat, e: nat)
    requires Group(c) && Element(c, c.g) && KeyInGroup(c, key) && CountsReduced(c, key, r, s)
    requires 1 <= s < c.n && Inverse(s, c.n).Some?
    requires var point := VerificationPoint(c, Residual(c, key), r, e, Inverse(s, c.n).value);
      point.Affine? ==> point.x < Pow2(c.bitsN) && point.x < 2 * c.n
    ensures EquationHolds(c, key, r, s, e).Ok? <==> StandardAccepts(c, Residual(c, key), r, s, e)
  {
    EquationHoldsExactly(c, key, r, s, e);
    var q := Residual(c, key);
    var point := VerificationPoint(c, q, r, e, Inverse(s, c.n).value);
    hide *;
    ComputedPointMeans(c, key, r, s, e, Inverse(s, c.n).value);
    if point.Affine? {
      IntoNReducesNarrow(point.x, c.n, c.bitsN);
    }
    StandardAcceptsMeans(c, q, r, s, e, point);
  }

  lemma StandardAcceptsMeans(c: CurveContext, q: Point, r: nat, s: nat, e: nat, point: Point)
    requires c.p > 1 && 1 <= s < c.n && Inverse(s, c.n).Some?
    requires point == VerificationPoint(c, q, r, e, Inverse(s, c.n).value)
    ensures StandardAccepts(c, q, r, s, e) <==> 1 <= r < c.n && point.Affine? && point.x % c.n == r
  {
  }

  /** What the standard accepts is refused exactly when the source does not reduce the point's `x`. */
  lemma RefusesValidExactly(c: CurveContext, key: Point, r: nat, s: nat, e: nat)
    requires Group(c) && Element(c, c.g) && KeyInGroup(c, key) && CountsReduced(c, key, r, s)
    requires StandardAccepts(c, Residual(c, key), r, s, e)
    ensures var x := VerificationPoint(c, Residual(c, key), r, e, Inverse(s, c.n).value).x;
      EquationHolds(c, key, r, s, e).Ok?
      <==> x % Pow2(c.bitsN) < 2 * c.n && Divides(c.n, x - x % Pow2(c.bitsN))
  {
    EquationHoldsExactly(c, key, r, s, e);
    var q := Residual(c, key);
    var point := VerificationPoint(c, q, r, e, Inverse(s, c.n).value);
    StandardAcceptsMeans(c, q, r, s, e, point);
    hide *;
    ComputedPointMeans(c, key, r, s, e, Inverse(s, c.n).value);
    IntoNReducesExactly(point.x, c.n, c.bitsN);
  }

  // ----- Every signature made by the signing equation -----

  /** The signing equation, for a key `d`, a nonce `k` and a digest scalar `e`. */
  ghost predicate SignedWith(c: CurveContext, d: nat, k: nat, e: nat, r: nat, s: nat)
    requires c.p > 1
  {
    && c.n > 1
    && 1 <= k < c.n
    && Inverse(k, c.n).Some?
    && Times(c, k, c.g).Affine?
    && r == Times(c, k, c.g).x % c.n
    && s == (Inverse(k, c.n).value * (e + r * d)) % c.n
    && r != 0
    && s != 0
  }

  lemma ScaleCongruence(n: nat, x: int, y: int, k: int)
    requires n > 0 && x % n == y % n
    ensures (x * k) % n == (y * k) % n
  {
    ProductOfRemainder(n, x, k);
    ProductOfRemainder(n, y, k);
  }

  /** `w (e + r d)` is `k` when `s` is `k^-1 (e + r d)` and `w` its inverse. */
  lemma NonceRecovered(n: nat, k: nat, kInverse: nat, m: nat, s: nat, w: nat)
    requires n > 1 && k < n
    requires (k * kInverse) % n == 1 && s == (kInverse * m) % n && (s * w) % n == 1
    ensures (m * w) % n == k
  {
    ProductOfRemainder(n, kInverse * m, k * w);
    Reorder(s, k, w);
    Reorder4(kInverse, m, k, w);
    QuotientIsUnique(n, 1, 0, 1);
    ScaleCongruence(n, k * kInverse, 1, m * w);
    ScaleCongruence(n, s * w, 1, k);
    QuotientIsUnique(n, k, 0, k);
    assert s * (k * w) == s * w * k;
  }

  lemma Reorder(s: int, k: int, w: int)
    ensures s * (k * w) == s * w * k
  {
  }

  lemma Reorder4(i: int, m: int, k: int, w: int)
    ensures i * m * (k * w) == k * i * (m * w)
  {
    assert i * m * (k * w) == i * (m * (k * w)) == i * (k * (m * w));
  }

  /** The two scalars, weighted with the key, sum to the nonce. */
  lemma ScalarsSum(n: nat, r: nat, e: nat, w: nat, d: nat)
    requires n > 0
    ensures var u := Scalars(r, e, w, n); 0 <= u.1 * d && (u.0 + u.1 * d) % n == ((e + r * d) * w) % n
  {
    var u := Scalars(r, e, w, n);
    ProductOfRemainder(n, e, w);
    ProductOfRemainder(n, r * w, d);
    RemainderTwice(n, e * w);
    assert (e + r * d) * w == e * w + r * w * d;
    SumOfRemainders(n, u.0, u.1 * d);
    SumOfRemainders(n, e * w, r * w * d);
  }

  lemma RemainderTwice(n: nat, x: int)
    requires n > 0
    ensures x % n % n == x % n
  {
  }

  /** The verification point of such a signature is the nonce's own point. */
  lemma VerificationPointIsNonce(c: CurveContext, d: nat, k: nat, e: nat, r: nat, s: nat)
    requires Group(c) && Element(c, c.g) && c.n > 0 && Times(c, c.n, c.g) == Infinity
    requires SignedWith(c, d, k, e, r, s) && Inverse(s, c.n).Some?
    ensures VerificationPoint(c, Times(c, d, c.g), r, e, Inverse(s, c.n).value) == Times(c, k, c.g)
  {
    var w := Inverse(s, c.n).value;
    var u := Scalars(r, e, w, c.n);
    var q := Times(c, d, c.g);
    assert VerificationPoint(c, q, r, e, w) == Add(c, Times(c, u.0, c.g), Times(c, u.1, q));
    ScalarsSum(c.n, r, e, w, d);
    NonceRecovered(c.n, k, Inverse(k, c.n).value, e + r * d, s, w);
    assert Scaled(0, u.1, d) == u.1 * d;
    hide *;
    TimesProduct(c, u.1, d, c.g);
    TimesSum(c, u.0, Scaled(0, u.1, d), c.g);
    TimesCycles(c, c.n, u.0 + Scaled(0, u.1, d), c.g);
  }

  /**
   Completeness: with a prime order, every signature made by the signing equation is one the standard
   accepts, and the source accepts it when the nonce point's `x` is below `2n` and fits the order's width.
   */
  lemma SignedIsAccepted(c: CurveContext, d: nat, k: nat, e: nat, r: nat, s: nat)
    requires Group(c) && Element(c, c.g) && Prime(c.n) && Times(c, c.n, c.g) == Infinity
    requires SignedWith(c, d, k, e, r, s)
    ensures StandardAccepts(c, Times(c, d, c.g), r, s, e)
    ensures Times(c, k, c.g).x < Pow2(c.bitsN) && Times(c, k, c.g).x < 2 * c.n
      ==> EquationHolds(c, Times(c, d, c.g), r, s, e) == Ok(())
  {
    var q := Times(c, d, c.g);
    assert 1 <= r < c.n && 1 <= s < c.n;
    ResidueIsInvertible(c.n, s);
    VerificationPointIsNonce(c, d, k, e, r, s);
    TimesIsElement(c, d, c.g);
    StandardAcceptsMeans(c, q, r, s, e, Times(c, k, c.g));
    var point := Times(c, k, c.g);
    assert point.Affine? && r == point.x % c.n;
    ElementIsKey(c, q);
    hide *;
    if point.x < Pow2(c.bitsN) && point.x < 2 * c.n {
      AcceptsAsTheStandard(c, q, r, s, e);
    }
  }

  lemma ResidueIsInvertible(n: nat, s: nat)
    requires Prime(n) && 1 <= s < n
    ensures Inverse(s, n).Some?
  {
    QuotientIsUnique(n, s, 0, s);
    PrimeInverse(s, n);
  }

  // ----- From octets to octets -----

  /** A magnitude without a leading zero is no longer than any octets of a number at least as large. */
  lemma {:induction false} MinimalIsShort(a: octets, b: octets)
    requires (a != [] ==> a[0] != 0) && BigEndian(a) <= BigEndian(b)
    ensures |a| <= |b|
  {
    if a != [] {
      EcdsaEncoding.NonzeroLead(a);
      var i, j := a[..|a| - 1], b[..|b| - 1];
      MinimalIsShort(i, j);
    }
  }

  /** The magnitudes the parser returns fit the scalar width. */
  lemma MagnitudesFit(curve: CurveOctets, magnitude: octets)
    requires NewContext(curve).Some?
    requires (magnitude != [] ==> magnitude[0] != 0) && BigEndian(magnitude) < BigEndian(curve.n)
    ensures Boxed(magnitude, NewContext(curve).value.bitsN) == Some(BigEndian(magnitude))
  {
    MinimalIsShort(magnitude, curve.n);
  }

  lemma PublicKeyReads(x: octets, y: octets, bitsP: nat)
    requires |x| == |y| > 0 && 8 * |x| <= bitsP
    ensures ParseAffine([SEC1_UNCOMPRESSED_TAG] + x + y, bitsP) == Ok(Affine(BigEndian(x), BigEndian(y)))
  {
    var body := ([SEC1_UNCOMPRESSED_TAG] + x + y)[1..];
    assert body == x + y;
    assert body[..|body| / 2] == x && body[|body| / 2..] == y;
  }

  /** The key and signature of a signing run, as the verifier's own converters write them. */
  ghost predicate WrittenFor(c: CurveContext, q: Point, r: nat, s: nat, x: octets, y: octets, raw: octets) {
    && |x| == |y| > 0
    && 8 * |x| <= c.bitsP
    && q == Affine(BigEndian(x), BigEndian(y))
    && raw != []
    && |raw| % 2 == 0
    && BigEndian(raw[..|raw| / 2]) == r
    && BigEndian(raw[|raw| / 2..]) == s
    && |EcdsaEncoding.ClampedBody(raw)| <= EcdsaEncoding.U16_MAX
  }

  /** Signing, converting `r || s` to DER, parsing and verifying: accepted. */
  lemma SignedOctetsAreAccepted(curve: CurveOctets, c: CurveContext, d: nat, k: nat, r: nat, s: nat,
                                x: octets, y: octets, raw: octets, digest: octets)
    requires NewContext(curve) == Some(c)
    requires Group(c) && Element(c, c.g) && Prime(c.n) && Times(c, c.n, c.g) == Infinity
    requires SignedWith(c, d, k, DigestScalar.Scalar(digest, BitLength(c.n)), r, s)
    requires Times(c, k, c.g).x < Pow2(c.bitsN) && Times(c, k, c.g).x < 2 * c.n
    requires WrittenFor(c, Times(c, d, c.g), r, s, x, y, raw)
    ensures BigEndian(curve.p) > 1
    ensures VerifyPrehashed(curve, [SEC1_UNCOMPRESSED_TAG] + x + y,
                            EcdsaEncoding.ClampedTlv(0x30, EcdsaEncoding.ClampedBody(raw)), digest) == Ok(())
  {
    var q := Times(c, d, c.g);
    var pubkey := [SEC1_UNCOMPRESSED_TAG] + x + y;
    var signature := EcdsaEncoding.ClampedTlv(0x30, EcdsaEncoding.ClampedBody(raw));
    var e := DigestScalar.Scalar(digest, BitLength(c.n));
    assert 1 <= r < c.n && 1 <= s < c.n;
    assert c.p == BigEndian(curve.p);
    hide Group, Element, Times, StandardAccepts, EquationHolds, EcdsaEncoding.ParseEcdsaSignature,
      EcdsaEncoding.ClampedTlv, EcdsaEncoding.ClampedBody, DigestScalar.Scalar, SignedWith, Boxed, NewContext,
      ParseAffine, BigEndian, Prime, OnCurve;
    GroupHasField(c);
    PublicKeyReads(x, y, c.bitsP);
    TimesIsElement(c, d, c.g);
    ElementIsOnCurve(c, q);
    EcdsaEncoding.RawRoundTrip(raw);
    var parsed := EcdsaEncoding.ParseEcdsaSignature(signature).value;
    MagnitudesFit(curve, parsed.0);
    MagnitudesFit(curve, parsed.1);
    SignedIsAccepted(c, d, k, e, r, s);
  }

  lemma ElementIsOnCurve(c: CurveContext, q: Point)
    requires c.p > 1 && Element(c, q) && q.Affine?
    ensures OnCurve(c, q) && Reduced(c, q)
  {
  }

  /**
   Soundness: what is accepted has both numbers in range, and the computed point's `x` gives `r`; the
   standard accepts it too, but for a key that is not reduced with `r == s`.
   */
  lemma AcceptedSatisfiesEquation(c: CurveContext, pubkey: octets, signature: octets, digest: octets)
    returns (key: Point, r: nat, s: nat)
    requires Group(c) && Element(c, c.g)
    requires VerifyInContext(c, pubkey, signature, digest).Ok?
    requires ParseAffine(pubkey, c.bitsP).Ok?
      && var k := ParseAffine(pubkey, c.bitsP).value;
         Reduced(c, k) || (Prime(c.n) && Times(c, c.n, Residual(c, k)) == Infinity)
    ensures ParseAffine(pubkey, c.bitsP) == Ok(key) && OnCurve(c, key)
    ensures EcdsaEncoding.ParseEcdsaSignature(signature).Some?
    ensures r == BigEndian(EcdsaEncoding.ParseEcdsaSignature(signature).value.0)
    ensures s == BigEndian(EcdsaEncoding.ParseEcdsaSignature(signature).value.1)
    ensures 1 <= r < c.n && 1 <= s < c.n && Inverse(s, c.n).Some?
    ensures var e := DigestScalar.Scalar(digest, BitLength(c.n));
      var w := Inverse(s, c.n).value;
      var point := ComputedPoint(c, key, r, s, e, w);
      && point.Affine?
      && IntoN(point.x, c.n, c.bitsN) == r
      && (CountsReduced(c, key, r, s) ==> point == VerificationPoint(c, Residual(c, key), r, e, w))
      && (CountsReduced(c, key, r, s) && point.x < Pow2(c.bitsN) && point.x < 2 * c.n
          ==> StandardAccepts(c, Residual(c, key), r, s, e))
  {
    key := ParseAffine(pubkey, c.bitsP).value;
    var parsed := EcdsaEncoding.ParseEcdsaSignature(signature).value;
    r, s := BigEndian(parsed.0), BigEndian(parsed.1);
    var e := DigestScalar.Scalar(digest, BitLength(c.n));
    assert EquationHolds(c, key, r, s, e).Ok?;
    assert KeyInGroup(c, key);
    hide *;
    EquationHoldsExactly(c, key, r, s, e);
    var w := Inverse(s, c.n).value;
    var point := ComputedPoint(c, key, r, s, e, w);
    if CountsReduced(c, key, r, s) {
      ComputedPointMeans(c, key, r, s, e, w);
      if point.x < Pow2(c.bitsN) && point.x < 2 * c.n {
        AcceptsAsTheStandard(c, key, r, s, e);
      }
    }
  }
}
