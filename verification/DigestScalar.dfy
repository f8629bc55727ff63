/** From a message digest to the scalar `e`: section 2.3.2 of RFC 6979 (`ecdsa.rs`). */
module DigestScalar {

  import opened Octets
  import opened Modular
  import opened ScalarMul

  function BytesFor(nBits: nat): nat {
    (nBits + 7) / 8
  }

  /** `x` without its `k` lowest bits. */
  function DropBits(x: nat, k: nat): (r: nat) {
    QuotientIsNatural(x, Pow2(k));
    x / Pow2(k)
  }

  lemma QuotientIsNatural(x: nat, m: nat)
    requires m > 0
    ensures x / m >= 0
  {
  }

  lemma DropBitsIsUnique(x: nat, k: nat, q: nat, r: nat)
    requires x == q * Pow2(k) + r && r < Pow2(k)
    ensures DropBits(x, k) == q
  {
    QuotientIsUnique(Pow2(k), x, q, r);
  }

  /** The integer of the leftmost `min(nBits, bits(digest))` bits of the digest. */
  function LeftmostBits(digest: octets, nBits: nat): nat {
    if 8 * |digest| > nBits then DropBits(BigEndian(digest), 8 * |digest| - nBits) else BigEndian(digest)
  }

  /** One octet shifted right, the bits that fell out of the one before it on top. */
  function ShiftedOctet(b: byte, carry: nat, extraBits: nat): (r: byte)
    requires 1 <= extraBits <= 7 && carry < Pow2(extraBits)
    ensures r * Pow2(extraBits) + b % Pow2(extraBits) == carry * 256 + b
  {
    Pow2Sum(extraBits, 8 - extraBits);
    PowersUpTo8();
    BitsDoNotOverlap(b, carry, Pow2(extraBits), Pow2(8 - extraBits));
    b / Pow2(extraBits) + carry * Pow2(8 - extraBits)
  }

  lemma BitsDoNotOverlap(b: byte, carry: nat, unit: nat, rest: nat)
    requires unit > 0 && unit * rest == 256 && carry < unit
    ensures 0 <= b / unit + carry * rest < 256
    ensures (b / unit + carry * rest) * unit + b % unit == carry * 256 + b
  {
    var q := b / unit;
    assert b == unit * q + b % unit;
    assert q >= rest ==> unit * q >= unit * rest;
    assert (carry + 1) * rest == carry * rest + rest;
    assert (unit - carry - 1) * rest >= 0;
    assert (unit - carry - 1) * rest == unit * rest - (carry + 1) * rest;
    assert (q + carry * rest) * unit == q * unit + carry * (unit * rest);
  }

  /** One more octet shifted keeps what the shifted octets and the carry stand for. */
  lemma ShiftStep(written: octets, before: octets, carry: nat, b: byte, extraBits: nat)
    requires 1 <= extraBits <= 7 && carry < Pow2(extraBits)
    requires BigEndian(written) * Pow2(extraBits) + carry == BigEndian(before)
    ensures BigEndian(written + [ShiftedOctet(b, carry, extraBits)]) * Pow2(extraBits) + b % Pow2(extraBits)
      == BigEndian(before + [b])
  {
    var shifted := ShiftedOctet(b, carry, extraBits);
    BigEndianAppend(written, shifted);
    BigEndianAppend(before, b);
    hide *;
    Carry(BigEndian(written), shifted, Pow2(extraBits));
  }

  lemma Carry(w: nat, shifted: nat, unit: nat)
    ensures (w * 256 + shifted) * unit == w * unit * 256 + shifted * unit
  {
  }

  /** Shifts the whole buffer right in place, each octet's low bits carried into the next. */
  method ShiftRight(buf: array<byte>, extraBits: nat)
    requires 1 <= extraBits <= 7
    modifies buf
    ensures BigEndian(buf[..]) == DropBits(old(BigEndian(buf[..])), extraBits)
  {
    ghost var was := buf[..];
    var unit := Pow2(extraBits);
    var carry: nat := 0;
    assert BigEndian([]) == 0;
    hide BigEndian, Pow2;
    assert buf[..0] == [] == was[..0];
    for i := 0 to buf.Length
      invariant carry < unit
      invariant buf[i..] == was[i..]
      invariant BigEndian(buf[..i]) * unit + carry == BigEndian(was[..i])
    {
      var b := buf[i];
      ghost var written := buf[..i];
      assert b == buf[i..][0] == was[i..][0] == was[i];
      ShiftStep(written, was[..i], carry, b, extraBits);
      buf[i] := ShiftedOctet(b, carry, extraBits);
      carry := b % unit;
      assert buf[..i + 1] == written + [buf[i]];
      assert was[..i + 1] == was[..i] + [b];
      assert buf[i + 1..] == was[i..][1..];
    }
    assert buf[..] == buf[..buf.Length] && was == was[..buf.Length];
    DropBitsIsUnique(BigEndian(was), extraBits, BigEndian(buf[..]), carry);
  }

  lemma PowersUpTo8()
    ensures Pow2(8) == 256
  {
    assert Pow2(4) == 16;
  }

  lemma {:induction false} BigEndianOfPrefix(b: octets, k: nat)
    requires k <= |b|
    ensures BigEndian(b[..k]) == DropBits(BigEndian(b), 8 * (|b| - k))
    decreases |b| - k
  {
    var dropped := |b| - k;
    if dropped == 0 {
      assert b[..k] == b;
    } else {
      BigEndianOfPrefix(b, k + 1);
      var longer := b[..k + 1];
      assert longer[..k] == b[..k] && longer[k] == b[k];
      PowersUpTo8();
      DropTwice(BigEndian(b), 8 * (dropped - 1), 8);
      DropBitsIsUnique(BigEndian(longer), 8, BigEndian(b[..k]), b[k]);
    }
  }

  lemma DropTwice(x: nat, i: nat, j: nat)
    ensures DropBits(x, i + j) == DropBits(DropBits(x, i), j)
  {
    Pow2Sum(i, j);
    var m, k := Pow2(i), Pow2(j);
    hide Pow2;
    var q := DropBits(x, i);
    var s := DropBits(q, j);
    assert x == m * q + x % m && q == k * s + q % k;
    assert m * q == s * (m * k) + m * (q % k);
    MultiplyBound(m, q % k, k, x % m);
    DropBitsIsUnique(x, i + j, s, m * (q % k) + x % m);
  }

  lemma MultiplyBound(m: nat, i: nat, k: nat, r: nat)
    requires i < k && r < m
    ensures 0 <= m * i + r < m * k
  {
    assert m * (k - 1 - i) >= 0;
    assert m * k == m * i + m * (k - 1 - i) + m;
  }

  /** What the source computes. */
  function Scalar(digest: octets, nBits: nat): nat {
    if |digest| >= BytesFor(nBits) || nBits % 8 == 0 then LeftmostBits(digest, nBits)
    else DropBits(BigEndian(digest), 8 - nBits % 8)
  }

  function Taken(digest: octets, nBits: nat): octets {
    if |digest| < BytesFor(nBits) then digest else digest[..BytesFor(nBits)]
  }

  /** The taken octets, shifted when the order ends inside an octet, are the scalar. */
  lemma ScalarOfTaken(digest: octets, nBits: nat)
    ensures nBits % 8 == 0 ==> Scalar(digest, nBits) == BigEndian(Taken(digest, nBits))
    ensures nBits % 8 != 0 ==> Scalar(digest, nBits) == DropBits(BigEndian(Taken(digest, nBits)), 8 - nBits % 8)
  {
    var nBytes, extra := BytesFor(nBits), (8 - nBits % 8) % 8;
    assert 8 * nBytes == nBits + extra;
    hide BigEndian, DropBits;
    if |digest| >= nBytes {
      var rest := 8 * (|digest| - nBytes);
      BigEndianOfPrefix(digest, nBytes);
      DropTwice(BigEndian(digest), rest, extra);
      assert rest + extra == 8 * |digest| - nBits;
      DropNothing(BigEndian(digest));
    }
  }

  lemma DropNothing(x: nat)
    ensures DropBits(x, 0) == x
  {
  }

  /** The scalar of a digest: the leftmost bits, except that a short digest is shifted all the same. */
  method DigestToScalar(digest: octets, nBits: nat) returns (e: nat)
    ensures e == Scalar(digest, nBits)
  {
    ScalarOfTaken(digest, nBits);
    var nBytes := (nBits + 7) / 8;
    var take := if |digest| < nBytes then |digest| else nBytes;
    var buf := new byte[take](i requires 0 <= i < take => digest[i]);
    assert buf[..] == Taken(digest, nBits);
    var extraBits := (8 - nBits % 8) % 8;
    if extraBits != 0 && buf.Length > 0 {
      ShiftRight(buf, extraBits);
    }
    if buf.Length == 0 {
      assert buf[..] == [];
      DropBitsIsUnique(0, extraBits, 0, 0);
    }
    hide Scalar, Taken, DropBits;
    e := FromBigEndian(buf);
  }

  method FromBigEndian(buf: array<byte>) returns (value: nat)
    ensures value == BigEndian(buf[..])
  {
    value := 0;
    for i := 0 to buf.Length
      invariant value == BigEndian(buf[..i])
    {
      assert buf[..i + 1] == buf[..i] + [buf[i]];
      BigEndianAppend(buf[..i], buf[i]);
      value := value * 256 + buf[i];
    }
    assert buf[..buf.Length] == buf[..];
  }

  /**
   The scalar is the integer of the leftmost bits exactly when the digest is as long as the order, the
   order's length is a whole number of octets, or every octet of the digest is zero.
   */
  lemma ScalarIsLeftmostBitsExactly(digest: octets, nBits: nat)
    ensures Scalar(digest, nBits) == LeftmostBits(digest, nBits)
      <==> |digest| >= BytesFor(nBits) || nBits % 8 == 0 || forall b :: b in digest ==> b == 0
  {
    if |digest| < BytesFor(nBits) && nBits % 8 != 0 {
      assert 8 * |digest| <= nBits;
      ZeroExactly(digest);
      assert Pow2(8 - nBits % 8) >= 2;
      QuotientShrinks(BigEndian(digest), Pow2(8 - nBits % 8));
    }
  }

  lemma QuotientShrinks(x: nat, unit: nat)
    requires unit >= 2
    ensures x / unit == x <==> x == 0
  {
    var q := x / unit;
    assert x == unit * q + x % unit;
    assert unit * q >= 2 * q;
  }

  lemma {:induction false} ZeroExactly(b: octets)
    ensures BigEndian(b) == 0 <==> forall x :: x in b ==> x == 0
  {
    if b != [] {
      var init, last := b[..|b| - 1], b[|b| - 1];
      ZeroExactly(init);
      assert b == init + [last];
      assert last in b;
      assert forall x :: x in init ==> x in b;
    }
  }

  /** A digest shorter than the order comes out halved, or worse. */
  lemma ShortDigestIsShifted()
    ensures Scalar([0x80], 15) == 0x40
    ensures LeftmostBits([0x80], 15) == 0x80
  {
    BigEndianOfShort([0x80]);
    assert Pow2(1) == 2;
  }
}
