/**
 ECDSA signatures between the card's fixed-width `r || s` and DER (`ecdsa.rs`, `cades.rs`).

 The same conversion exists twice: `from_raw_concatenation` for the verifier and
 `ecdsa_signature_to_cms` for the structures. Both are modelled, with the parser that reads them back.
 */
module EcdsaEncoding {

  import opened Octets
  import opened Ber

  const SIGN_PAD: byte := 0
  const HIGH_BIT_SET: byte := 0x80
  const U16_MAX: nat := 0xFFFF

  // ----- Magnitudes -----

  /** The magnitude without redundant leading zeros; one octet always stays. */
  function Stripped(b: octets): (r: octets)
    ensures b != [] ==> r != []
    ensures |r| <= |b|
  {
    if |b| > 1 && b[0] == 0 then Stripped(b[1..]) else b
  }

  /** What the two's-complement reading needs: a zero before a set high bit. */
  function IntegerContents(b: octets): (r: octets) {
    var magnitude := Stripped(b);
    if magnitude != [] && magnitude[0] >= HIGH_BIT_SET then [SIGN_PAD] + magnitude else magnitude
  }

  /** The magnitude the structure writer looks for: from the first octet that is not zero. */
  function FromFirstNonzero(b: octets): octets {
    if b == [] then [0] else if b[0] != 0 then b else FromFirstNonzero(b[1..])
  }

  /** The parser drops one sign octet. */
  function Unpadded(b: octets): octets {
    if b != [] && b[0] == SIGN_PAD then b[1..] else b
  }

  lemma {:induction false} LeadingZero(b: octets)
    ensures BigEndian([0] + b) == BigEndian(b)
  {
    var longer := [0] + b;
    if b == [] {
      assert BigEndian(longer[..0]) == 0;
    } else {
      assert longer[..|b|] == [0] + b[..|b| - 1];
      LeadingZero(b[..|b| - 1]);
    }
  }

  lemma {:induction false} StrippedKeepsValue(b: octets)
    ensures BigEndian(Stripped(b)) == BigEndian(b)
    ensures |Stripped(b)| > 1 ==> Stripped(b)[0] != 0
  {
    if |b| > 1 && b[0] == 0 {
      assert b == [0] + b[1..];
      LeadingZero(b[1..]);
      StrippedKeepsValue(b[1..]);
    }
  }

  lemma {:induction false} SameMagnitude(b: octets)
    requires b != []
    ensures FromFirstNonzero(b) == Stripped(b)
  {
    if b[0] == 0 {
      if |b| > 1 {
        SameMagnitude(b[1..]);
      } else {
        assert b == [0];
        assert FromFirstNonzero(b[1..]) == [0];
      }
    }
  }

  /** DER contents: not negative, minimal, and the number that was written. */
  lemma IntegerContentsMean(b: octets)
    requires b != []
    ensures var c := IntegerContents(b);
      && c != []
      && c[0] < HIGH_BIT_SET
      && (|c| > 1 && c[0] == 0 ==> c[1] >= HIGH_BIT_SET)
      && BigEndian(c) == BigEndian(b)
  {
    StrippedKeepsValue(b);
    LeadingZero(Stripped(b));
  }

  /** What the parser gives back: the same number, without a leading zero. */
  lemma ReadMagnitude(b: octets)
    requires b != []
    ensures var number := Unpadded(IntegerContents(b));
      && BigEndian(number) == BigEndian(b)
      && (number != [] ==> number[0] != 0)
  {
    StrippedKeepsValue(b);
    var magnitude := Stripped(b);
    if magnitude[0] == 0 {
      assert magnitude == [0] + [];
      LeadingZero([]);
    }
  }

  lemma {:induction false} NonzeroLead(b: octets)
    requires b != [] && b[0] != 0
    ensures BigEndian(b) > 0
  {
    if |b| == 1 {
      assert BigEndian(b[..0]) == 0;
    } else {
      NonzeroLead(b[..|b| - 1]);
    }
  }

  /** A number has one magnitude without a leading zero. */
  lemma {:induction false} MagnitudeIsUnique(a: octets, b: octets)
    requires a != [] ==> a[0] != 0
    requires b != [] ==> b[0] != 0
    requires BigEndian(a) == BigEndian(b)
    ensures a == b
  {
    if a == [] && b != [] {
      NonzeroLead(b);
    } else if a != [] && b == [] {
      NonzeroLead(a);
    } else if a != [] {
      var i, j := a[..|a| - 1], b[..|b| - 1];
      LastDigit(BigEndian(i), a[|a| - 1], BigEndian(j), b[|b| - 1]);
      MagnitudeIsUnique(i, j);
      assert a == i + [a[|a| - 1]] && b == j + [b[|b| - 1]];
    }
  }

  lemma LastDigit(x: nat, d: byte, y: nat, e: byte)
    requires x * 256 + d == y * 256 + e
    ensures x == y && d == e
  {
  }

  /** Coordinates of one value have one DER form, however they were padded. */
  lemma SameNumberSameInteger(a: octets, b: octets)
    requires a != [] && b != [] && BigEndian(a) == BigEndian(b)
    ensures IntegerContents(a) == IntegerContents(b)
  {
    StrippedKeepsValue(a);
    StrippedKeepsValue(b);
    var x, y := Stripped(a), Stripped(b);
    if x[0] == 0 || y[0] == 0 {
      ZeroMagnitude(x, y);
    } else {
      MagnitudeIsUnique(x, y);
    }
  }

  lemma ZeroMagnitude(x: octets, y: octets)
    requires x != [] && y != [] && (|x| > 1 ==> x[0] != 0) && (|y| > 1 ==> y[0] != 0)
    requires x[0] == 0 || y[0] == 0
    requires BigEndian(x) == BigEndian(y)
    ensures x == y == [0]
  {
    LeadingZero([]);
    assert x[0] == 0 ==> x == [0] + [];
    assert y[0] == 0 ==> y == [0] + [];
    if x[0] != 0 {
      NonzeroLead(x);
    } else if y[0] != 0 {
      NonzeroLead(y);
    }
  }

  // ----- The verifier's encoder -----

  /** Length octets clamped at two: longer values claim 65535. */
  function ClampedLength(n: nat): octets {
    if n < 0x80 then [n]
    else if n < 0x100 then [LONG_FORM_1B, n]
    else if n <= U16_MAX then [LONG_FORM_2B, n / 0x100, n % 0x100]
    else [LONG_FORM_2B, 0xFF, 0xFF]
  }

  function ClampedTlv(tag: byte, value: octets): octets {
    [tag] + ClampedLength(|value|) + value
  }

  lemma ClampedWithinRange(tag: byte, value: octets)
    requires |value| <= U16_MAX
    ensures ClampedTlv(tag, value) == TlvOctets(tag, value)
  {
  }

  method EncodeDerLength(out: octets, len: nat) returns (longer: octets)
    ensures longer == out + ClampedLength(len)
  {
    longer := out;
    if len < 0x80 {
      longer := longer + [len];
    } else if len < 0x100 {
      longer := longer + [LONG_FORM_1B];
      longer := longer + [len];
    } else {
      longer := longer + [LONG_FORM_2B];
      var clamped := if len <= U16_MAX then len else U16_MAX;
      longer := longer + [clamped / 0x100];
      longer := longer + [clamped % 0x100];
    }
  }

  /** Skips redundant zeros. */
  method Trim(value: octets) returns (trimmed: octets)
    ensures trimmed == Stripped(value)
  {
    var start := 0;
    while start + 1 < |value| && value[start] == 0
      invariant start <= |value|
      invariant Stripped(value[start..]) == Stripped(value)
    {
      assert value[start..][1..] == value[start + 1..];
      start := start + 1;
    }
    trimmed := value[start..];
  }

  /** Tag, length, an optional sign octet and the magnitude. */
  method EncodeDerInteger(out: octets, value: octets) returns (longer: octets)
    ensures longer == out + ClampedTlv(TAG_INTEGER, IntegerContents(value))
  {
    hide Stripped, ClampedLength;
    var trimmed := Trim(value);
    var needsPad := trimmed != [] && trimmed[0] >= HIGH_BIT_SET;
    var intLen := |trimmed| + if needsPad then 1 else 0;
    longer := out + [TAG_INTEGER];
    longer := EncodeDerLength(longer, intLen);
    if needsPad {
      longer := longer + [SIGN_PAD];
    }
    longer := longer + trimmed;
  }

  function ClampedBody(raw: octets): octets {
    ClampedTlv(TAG_INTEGER, IntegerContents(raw[..|raw| / 2]))
    + ClampedTlv(TAG_INTEGER, IntegerContents(raw[|raw| / 2..]))
  }

  method FromRawConcatenation(raw: octets) returns (der: Option<octets>)
    ensures der == if raw == [] || |raw| % 2 != 0 then None
                   else Some(ClampedTlv(TAG_SEQUENCE, ClampedBody(raw)))
  {
    if raw == [] || |raw| % 2 != 0 {
      return None;
    }
    var half := |raw| / 2;
    var body := EncodeDerInteger([], raw[..half]);
    body := EncodeDerInteger(body, raw[half..]);
    assert body == ClampedBody(raw);
    var out := [TAG_SEQUENCE];
    out := EncodeDerLength(out, |body|);
    der := Some(out + body);
  }

  // ----- The parser -----

  function TaggedTlv(bytes: octets, tag: byte): Option<Tlv> {
    var t := ParseTlv(bytes);
    if t.Ok? && t.value.tag == tag then Some(t.value) else None
  }

  /** The magnitudes of `r` and `s`; what follows either is not looked at. */
  function ParseEcdsaSignature(der: octets): Option<(octets, octets)> {
    var outer :- TaggedTlv(der, TAG_SEQUENCE);
    var r :- TaggedTlv(outer.value, TAG_INTEGER);
    var s :- TaggedTlv(outer.value[r.size..], TAG_INTEGER);
    Some((Unpadded(r.value), Unpadded(s.value)))
  }

  /** Cut short, a clamped TLV of at most 65535 octets does not read. */
  lemma CutShortFails(tag: byte, value: octets, k: nat)
    requires tag % 0x20 != 0x1F
    requires k < |ClampedTlv(tag, value)| && k <= U16_MAX
    ensures ParseTlv(ClampedTlv(tag, value)[..k]).Err?
  {
    var n := |value|;
    var lens := ClampedLength(n);
    var bytes := ClampedTlv(tag, value)[..k];
    if k > 1 {
      assert bytes[0] == tag && bytes[1] == lens[0];
      if n >= 0x80 && k >= 1 + |lens| {
        assert bytes[2..1 + |lens|] == lens[1..];
        BigEndianOfShort(lens[1..]);
      }
    }
  }

  /** A clamped TLV that is too long claims 65535 octets. */
  lemma ReadsClamped(tag: byte, value: octets)
    requires tag % 0x20 != 0x1F && |value| > U16_MAX
    ensures ParseTlv(ClampedTlv(tag, value)) == Ok(Tlv(tag, value[..U16_MAX], 4 + U16_MAX))
  {
    var bytes := ClampedTlv(tag, value);
    assert bytes[0] == tag && bytes[1] == LONG_FORM_2B;
    assert bytes[2..4] == [0xFF, 0xFF];
    BigEndianOfShort(bytes[2..4]);
    assert bytes[4..4 + U16_MAX] == value[..U16_MAX];
  }

  lemma ConvertedParses(raw: octets)
    requires |ClampedBody(raw)| <= U16_MAX
    ensures ParseEcdsaSignature(ClampedTlv(TAG_SEQUENCE, ClampedBody(raw)))
      == Some((Unpadded(IntegerContents(raw[..|raw| / 2])), Unpadded(IntegerContents(raw[|raw| / 2..]))))
  {
    var body := ClampedBody(raw);
    var cr, cs := IntegerContents(raw[..|raw| / 2]), IntegerContents(raw[|raw| / 2..]);
    var second := TlvOctets(TAG_INTEGER, cs);
    TlvIsLonger(TAG_INTEGER, cr);
    ClampedWithinRange(TAG_INTEGER, cr);
    ClampedWithinRange(TAG_INTEGER, cs);
    ClampedWithinRange(TAG_SEQUENCE, body);
    assert body == TlvOctets(TAG_INTEGER, cr) + second;
    hide TlvOctets, IntegerContents, ParseTlv, ClampedTlv, ClampedBody;
    ParseOfWritten(TAG_SEQUENCE, body, []);
    assert TlvOctets(TAG_SEQUENCE, body) + [] == TlvOctets(TAG_SEQUENCE, body);
    ParseOfWritten(TAG_INTEGER, cr, second);
    assert body[|TlvOctets(TAG_INTEGER, cr)|..] == second;
    ParseOfWritten(TAG_INTEGER, cs, []);
    assert second + [] == second;
  }

  /** The second integer cut short, behind a complete first one. */
  lemma SecondCutShort(cr: octets, cs: octets, left: nat)
    requires |cr| <= U16_MAX && left < |ClampedTlv(TAG_INTEGER, cs)| && left <= U16_MAX
    ensures var first := TlvOctets(TAG_INTEGER, cr);
      var read := first + ClampedTlv(TAG_INTEGER, cs)[..left];
      TaggedTlv(read, TAG_INTEGER) == Some(Tlv(TAG_INTEGER, cr, |first|))
      && TaggedTlv(read[|first|..], TAG_INTEGER) == None
  {
    var first, rest := TlvOctets(TAG_INTEGER, cr), ClampedTlv(TAG_INTEGER, cs)[..left];
    hide TlvOctets, ClampedTlv, ParseTlv;
    ParseOfWritten(TAG_INTEGER, cr, rest);
    assert (first + rest)[|first|..] == rest;
    CutShortFails(TAG_INTEGER, cs, left);
  }

  lemma ClampedParts(raw: octets)
    ensures var cr, cs := IntegerContents(raw[..|raw| / 2]), IntegerContents(raw[|raw| / 2..]);
      && ClampedBody(raw) == ClampedTlv(TAG_INTEGER, cr) + ClampedTlv(TAG_INTEGER, cs)
      && (|cr| <= U16_MAX ==> ClampedTlv(TAG_INTEGER, cr) == TlvOctets(TAG_INTEGER, cr))
      && (|ClampedTlv(TAG_INTEGER, cr)| <= U16_MAX ==> |cr| <= U16_MAX)
  {
    hide IntegerContents;
  }

  lemma OverlongFails(raw: octets)
    requires |ClampedBody(raw)| > U16_MAX
    ensures ParseEcdsaSignature(ClampedTlv(TAG_SEQUENCE, ClampedBody(raw))) == None
  {
    hide ClampedTlv, ClampedBody, IntegerContents, ParseTlv, TlvOctets, Unpadded, BigEndian;
    ClampedParts(raw);
    var body := ClampedBody(raw);
    var cr, cs := IntegerContents(raw[..|raw| / 2]), IntegerContents(raw[|raw| / 2..]);
    var first, second := ClampedTlv(TAG_INTEGER, cr), ClampedTlv(TAG_INTEGER, cs);
    ReadsClamped(TAG_SEQUENCE, body);
    if |first| > U16_MAX {
      assert body[..U16_MAX] == first[..U16_MAX];
      CutShortFails(TAG_INTEGER, cr, U16_MAX);
    } else {
      var left := U16_MAX - |first|;
      assert body[..U16_MAX] == first + second[..left];
      SecondCutShort(cr, cs, left);
    }
  }

  /**
   Converting and parsing: the two numbers come back, minimal, exactly when the DER body fits two
   length octets; otherwise the clamped length makes the structure unreadable.
   */
  lemma RawRoundTrip(raw: octets)
    requires raw != [] && |raw| % 2 == 0
    ensures var parsed := ParseEcdsaSignature(ClampedTlv(TAG_SEQUENCE, ClampedBody(raw)));
      && (parsed.Some? <==> |ClampedBody(raw)| <= U16_MAX)
      && (parsed.Some? ==>
            && BigEndian(parsed.value.0) == BigEndian(raw[..|raw| / 2])
            && BigEndian(parsed.value.1) == BigEndian(raw[|raw| / 2..])
            && (parsed.value.0 != [] ==> parsed.value.0[0] != 0)
            && (parsed.value.1 != [] ==> parsed.value.1[0] != 0))
  {
    if |ClampedBody(raw)| <= U16_MAX {
      ConvertedParses(raw);
      ReadMagnitude(raw[..|raw| / 2]);
      ReadMagnitude(raw[|raw| / 2..]);
    } else {
      OverlongFails(raw);
    }
  }

  // ----- The structure writer's converter -----

  function DerInteger(coordinate: octets): octets {
    var magnitude := FromFirstNonzero(coordinate);
    TlvOctets(TAG_INTEGER, if magnitude != [] && magnitude[0] >= HIGH_BIT_SET then [SIGN_PAD] + magnitude else magnitude)
  }

  function SignatureBody(raw: octets): octets {
    DerInteger(raw[..|raw| / 2]) + DerInteger(raw[|raw| / 2..])
  }

  /** How many octets a DER-looking input claims, header included; `None` for other length forms. */
  function ClaimedSize(raw: octets): Option<nat>
    requires |raw| >= 6
  {
    if raw[1] < 0x80 then Some(2 + (raw[1] as int))
    else if raw[1] == LONG_FORM_1B then Some(3 + (raw[2] as int))
    else if raw[1] == LONG_FORM_2B then Some(4 + (raw[2] as int * 0x100 + raw[3]))
    else None
  }

  function SignatureToCms(raw: octets): Option<octets> {
    if |raw| >= 6 && raw[0] == TAG_SEQUENCE && ClaimedSize(raw) == None then None
    else if |raw| >= 6 && raw[0] == TAG_SEQUENCE && ClaimedSize(raw) == Some(|raw|) then Some(raw)
    else if raw == [] || |raw| % 2 != 0 then None
    else Some(TlvOctets(TAG_SEQUENCE, SignatureBody(raw)))
  }

  /** The two converters write the same integers. */
  lemma SameIntegers(b: octets)
    requires b != []
    ensures DerInteger(b) == TlvOctets(TAG_INTEGER, IntegerContents(b))
  {
    SameMagnitude(b);
  }

  lemma SameBody(raw: octets)
    requires raw != [] && |raw| % 2 == 0
    ensures |SignatureBody(raw)| <= U16_MAX <==> |ClampedBody(raw)| <= U16_MAX
    ensures |SignatureBody(raw)| <= U16_MAX ==> SignatureBody(raw) == ClampedBody(raw)
  {
    var cr, cs := IntegerContents(raw[..|raw| / 2]), IntegerContents(raw[|raw| / 2..]);
    SameIntegers(raw[..|raw| / 2]);
    SameIntegers(raw[|raw| / 2..]);
    TlvIsLonger(TAG_INTEGER, cr);
    TlvIsLonger(TAG_INTEGER, cs);
    assert |cr| <= U16_MAX ==> ClampedTlv(TAG_INTEGER, cr) == TlvOctets(TAG_INTEGER, cr);
    assert |cs| <= U16_MAX ==> ClampedTlv(TAG_INTEGER, cs) == TlvOctets(TAG_INTEGER, cs);
    assert |ClampedTlv(TAG_INTEGER, cr)| > |cr| && |ClampedTlv(TAG_INTEGER, cs)| > |cs|;
    hide TlvOctets, ClampedTlv, DerInteger, IntegerContents;
  }

  /** A pair that does not start like a SEQUENCE gets the octets the verifier's own converter writes. */
  lemma SameAsVerifier(raw: octets)
    requires raw != [] && |raw| % 2 == 0 && raw[0] != TAG_SEQUENCE
    ensures SignatureToCms(raw) == Some(TlvOctets(TAG_SEQUENCE, SignatureBody(raw)))
    ensures |SignatureBody(raw)| <= U16_MAX
      ==> SignatureToCms(raw) == Some(ClampedTlv(TAG_SEQUENCE, ClampedBody(raw)))
  {
    SameBody(raw);
    if |SignatureBody(raw)| <= U16_MAX {
      ClampedWithinRange(TAG_SEQUENCE, SignatureBody(raw));
    }
  }

  /** With at most two length octets and no indefinite form, the claim is what the reader measures. */
  lemma ClaimIsTlvSize(raw: octets)
    requires |raw| >= 6 && raw[0] == TAG_SEQUENCE
    ensures raw[1] == 0x80 || raw[1] > LONG_FORM_2B <==> ClaimedSize(raw) == None
    ensures ClaimedSize(raw).Some? ==> (ClaimedSize(raw).value == |raw| <==> IsOneTlv(raw))
  {
    BigEndianOfShort(raw[2..3]);
    BigEndianOfShort(raw[2..4]);
  }

  /**
   What the converter does with input that starts like a SEQUENCE: a complete SEQUENCE passes
   unchanged, another pair is converted, and an unsupported length form is refused, even length or not.
   */
  lemma SequenceInput(raw: octets)
    requires |raw| >= 6 && raw[0] == TAG_SEQUENCE
    ensures raw[1] == 0x80 || raw[1] > LONG_FORM_2B ==> SignatureToCms(raw) == None
    ensures raw[1] != 0x80 && raw[1] <= LONG_FORM_2B && IsOneTlv(raw) ==> SignatureToCms(raw) == Some(raw)
    ensures raw[1] != 0x80 && raw[1] <= LONG_FORM_2B && !IsOneTlv(raw)
      ==> SignatureToCms(raw) == if |raw| % 2 == 0 then Some(TlvOctets(TAG_SEQUENCE, SignatureBody(raw))) else None
  {
    ClaimIsTlvSize(raw);
  }

  /** Six octets, an even and nonempty pair: the documentation promises a conversion, the code refuses. */
  lemma RefusedPair()
    ensures SignatureToCms([0x30, 0x84, 0, 0, 0, 1]) == None
  {
  }

  /** Six octets that are a pair of coordinates, handed back as if they were a signature. */
  lemma UnconvertedPair()
    ensures SignatureToCms([0x30, 4, 1, 2, 3, 4]) == Some([0x30, 4, 1, 2, 3, 4])
    ensures ParseEcdsaSignature([0x30, 4, 1, 2, 3, 4]) == None
  {
    var raw: octets := [0x30, 4, 1, 2, 3, 4];
    assert raw[2..6] == [1, 2, 3, 4];
  }

  /** When an even, nonempty pair is refused. */
  lemma RefusesPairExactly(raw: octets)
    requires raw != [] && |raw| % 2 == 0
    ensures SignatureToCms(raw) == None
      <==> |raw| >= 6 && raw[0] == TAG_SEQUENCE && (raw[1] == 0x80 || raw[1] > LONG_FORM_2B)
  {
    if |raw| >= 6 && raw[0] == TAG_SEQUENCE {
      ClaimIsTlvSize(raw);
    }
  }

  // ----- What passes unchanged is not its own conversion -----

  lemma {:induction false} NonzeroStays(b: octets, j: nat)
    requires j < |b| && b[j] != 0
    ensures |FromFirstNonzero(b)| >= |b| - j
  {
    if j > 0 && b[0] == 0 {
      NonzeroStays(b[1..], j - 1);
    }
  }

  /** A piece that repeats what stands before it, `period` octets further on. */
  predicate Repeats(raw: octets, period: nat, n: nat) {
    forall i :: 0 <= i < n && period + i < |raw| ==> raw[period + i] == raw[i]
  }

  lemma {:induction false} FirstComesBack(raw: octets, period: nat, n: nat, k: nat)
    requires period > 0 && Repeats(raw, period, n) && period + n <= |raw|
    requires k * period < period + n
    ensures k * period < |raw| && raw[k * period] == raw[0]
  {
    if k > 0 {
      assert k * period == period + (k - 1) * period;
      FirstComesBack(raw, period, n, k - 1);
    }
  }

  /** Some multiple of the period lies among the `period` places from `h` on. */
  lemma MultipleWithin(h: nat, period: nat) returns (k: nat)
    requires period > 0
    ensures h <= k * period < h + period
  {
    k := (h + period - 1) / period;
    assert h + period - 1 == period * k + (h + period - 1) % period;
  }

  /**
   A pair that starts with 0x30 has its first half unstripped in its conversion. Were the pair its own
   conversion, that half would stand behind itself, and the second half could not have as many leading
   zeros as the room that is left demands.
   */
  lemma NotItsOwnConversion(raw: octets)
    requires |raw| % 2 == 0 && raw != [] && raw[0] == TAG_SEQUENCE && |raw| < U32_LIMIT
    ensures raw != TlvOctets(TAG_SEQUENCE, SignatureBody(raw))
  {
    var h := |raw| / 2;
    var r, s := raw[..h], raw[h..];
    var body := SignatureBody(raw);
    if raw == TlvOctets(TAG_SEQUENCE, body) {
      TlvIsLonger(TAG_SEQUENCE, body);
      assert FromFirstNonzero(r) == r && DerInteger(r) == TlvOctets(TAG_INTEGER, r);
      var lead := [TAG_SEQUENCE] + LengthOctets(|body|) + ([TAG_INTEGER] + LengthOctets(h));
      var tail := DerInteger(s);
      Regroup([TAG_SEQUENCE] + LengthOctets(|body|), [TAG_INTEGER] + LengthOctets(h), r, tail);
      ComesBehindItself(raw, lead, tail);
      SecondHalfIsLong(raw, |lead|);
    }
  }

  lemma Regroup(a: octets, b: octets, c: octets, d: octets)
    ensures a + (b + c + d) == a + b + c + d
  {
  }

  lemma ComesBehindItself(raw: octets, lead: octets, tail: octets)
    requires var h := |raw| / 2; raw == lead + raw[..h] + tail
    ensures Repeats(raw, |lead|, |raw| / 2)
  {
    var h := |raw| / 2;
    forall i | 0 <= i < h && |lead| + i < |raw| ensures raw[|lead| + i] == raw[i] {
      assert (lead + raw[..h] + tail)[|lead| + i] == raw[..h][i];
    }
  }

  /** Where the first half repeats, the second holds its first octet early on, and that is not zero. */
  lemma SecondHalfIsLong(raw: octets, period: nat)
    requires |raw| % 2 == 0 && raw != [] && raw[0] != 0 && period > 0
    requires var h := |raw| / 2; Repeats(raw, period, h) && period + h <= |raw|
    ensures |DerInteger(raw[|raw| / 2..])| > |raw| / 2 - period
  {
    var h := |raw| / 2;
    var k := MultipleWithin(h, period);
    FirstComesBack(raw, period, h, k);
    NonzeroStays(raw[h..], k * period - h);
    ContentsFit(raw[h..]);
  }

  lemma ContentsFit(s: octets)
    ensures |DerInteger(s)| > |FromFirstNonzero(s)|
  {
    var magnitude := FromFirstNonzero(s);
    TlvIsLonger(TAG_INTEGER, magnitude);
    TlvIsLonger(TAG_INTEGER, [SIGN_PAD] + magnitude);
  }

  /**
   An even, nonempty pair is converted exactly when it is not refused and not taken for a signature: that
   is, unless it has six octets or more, starts with 0x30, and goes on with a length form that is not
   supported or is a complete SEQUENCE as it stands.
   */
  lemma ConvertsPairExactly(raw: octets)
    requires raw != [] && |raw| % 2 == 0
    ensures SignatureToCms(raw) == Some(TlvOctets(TAG_SEQUENCE, SignatureBody(raw)))
      <==> !(|raw| >= 6 && raw[0] == TAG_SEQUENCE && (raw[1] == 0x80 || raw[1] > LONG_FORM_2B || IsOneTlv(raw)))
  {
    if |raw| >= 6 && raw[0] == TAG_SEQUENCE {
      ClaimIsTlvSize(raw);
      if ClaimedSize(raw) == Some(|raw|) {
        NotItsOwnConversion(raw);
      }
    }
  }

  /** The output is always one complete SEQUENCE, as the reader sees it. */
  lemma OutputIsOneSequence(raw: octets)
    requires SignatureToCms(raw).Some? && |SignatureToCms(raw).value| < U32_LIMIT
    ensures IsOneTlv(SignatureToCms(raw).value) && OnlyTlv(SignatureToCms(raw).value).tag == TAG_SEQUENCE
  {
    if |raw| >= 6 && raw[0] == TAG_SEQUENCE && ClaimedSize(raw) == Some(|raw|) {
      ClaimIsTlvSize(raw);
    } else {
      var der := TlvOctets(TAG_SEQUENCE, SignatureBody(raw));
      assert der + [] == der;
      TlvIsLonger(TAG_SEQUENCE, SignatureBody(raw));
      ParseOfWritten(TAG_SEQUENCE, SignatureBody(raw), []);
    }
  }

  lemma BodyHasSixOctets(raw: octets)
    requires raw != [] && |raw| % 2 == 0
    ensures |SignatureBody(raw)| >= 6
  {
    SameIntegers(raw[..|raw| / 2]);
    SameIntegers(raw[|raw| / 2..]);
  }

  /** Applying the converter to its own output changes nothing, exactly while two length octets suffice. */
  lemma ConvertingAgain(raw: octets)
    requires SignatureToCms(raw).Some? && |SignatureToCms(raw).value| < U32_LIMIT
    ensures var out := SignatureToCms(raw).value;
      SignatureToCms(out) == Some(out) <==> |out| <= 4 + U16_MAX
  {
    var out := SignatureToCms(raw).value;
    if !(|raw| >= 6 && raw[0] == TAG_SEQUENCE && ClaimedSize(raw) == Some(|raw|)) {
      var body := SignatureBody(raw);
      BodyHasSixOctets(raw);
      assert out == TlvOctets(TAG_SEQUENCE, body);
      assert out[1] == LengthOctets(|body|)[0];
      OutputIsOneSequence(raw);
      ClaimIsTlvSize(out);
    }
  }
}
