/**
 What the `CAdES` writer produces, the CMS reader takes apart again: the round trip over every
 certificate, material, timestamp list and signature, the section 5.4 re-tagging, and what `verify`
 then decides.
 */
module CmsRoundTrip {
  import opened Octets
  import opened Ber
  import opened DerSet
  import opened Cades
  import opened Cms
  import Oids

  // ----- Reading single written values -----

  /** A written value is one TLV, and reads as its tag and contents. */
  lemma Written(tag: byte, value: octets)
    requires tag % 0x20 != 0x1F
    requires |value| < U32_LIMIT
    ensures IsOneTlv(TlvOctets(tag, value))
    ensures OnlyTlv(TlvOctets(tag, value)).tag == tag
    ensures OnlyTlv(TlvOctets(tag, value)).value == value
    ensures ExactValue(TlvOctets(tag, value), tag) == Some(value)
  {
    WrittenIsOneTlv(tag, value);
  }

  /** A single TLV has itself as its only child. */
  lemma OneChild(part: octets)
    requires IsOneTlv(part)
    ensures Children(part) == Some([OnlyTlv(part)])
  {
    ChildrenOfConcatenation([part]);
    assert Flatten([part]) == part;
    assert OnlyTlvs([part]) == [OnlyTlv(part)];
  }

  lemma TwoChildren(first: octets, second: octets)
    requires IsOneTlv(first) && IsOneTlv(second)
    ensures Children(first + second) == Some([OnlyTlv(first), OnlyTlv(second)])
  {
    ChildrenOfConcatenation([first, second]);
    assert [first, second][1..] == [second];
    assert Flatten([second]) == second;
    assert Flatten([first, second]) == first + second;
    assert OnlyTlvs([first, second]) == [OnlyTlv(first), OnlyTlv(second)];
  }

  lemma {:induction false} EncodingsOfConcatenation(parts: seq<octets>, tag: byte)
    requires forall part :: part in parts ==> IsOneTlv(part) && OnlyTlv(part).tag == tag
    ensures EncodingsOf(Flatten(parts), tag) == Some(parts)
  {
    if parts != [] {
      var rest := Flatten(parts[1..]);
      EncodingsOfConcatenation(parts[1..], tag);
      assert parts[0] in parts;
      ParseExtends(parts[0], rest);
      assert (parts[0] + rest)[|parts[0]|..] == rest;
      assert (parts[0] + rest)[..|parts[0]|] == parts[0];
      assert parts == [parts[0]] + parts[1..];
    }
  }

  /** What `item` makes of each part. */
  function Made<T>(item: Tlv -> Option<T>, parts: seq<octets>): (r: seq<T>)
    requires forall part :: part in parts ==> IsOneTlv(part) && item(OnlyTlv(part)).Some?
    ensures |r| == |parts|
    ensures forall k :: 0 <= k < |r| ==> item(OnlyTlv(parts[k])) == Some(r[k])
  {
    if parts == [] then [] else [item(OnlyTlv(parts[0])).value] + Made(item, parts[1..])
  }

  lemma {:induction false} EachChildOfConcatenation<T>(item: Tlv -> Option<T>, parts: seq<octets>)
    requires forall part :: part in parts ==> IsOneTlv(part) && item(OnlyTlv(part)).Some?
    ensures EachChild(item, Flatten(parts)) == Some(Made(item, parts))
  {
    if parts != [] {
      var rest := Flatten(parts[1..]);
      EachChildOfConcatenation(item, parts[1..]);
      assert parts[0] in parts;
      ParseExtends(parts[0], rest);
      assert (parts[0] + rest)[|parts[0]|..] == rest;
    }
  }

  // ----- Algorithm identifiers and attributes -----

  lemma DigestOidIsShort(a: DigestAlgorithm)
    ensures Oids.IsOid(DigestOid(a)) && |DigestOid(a)| < 0x40
    ensures |TlvOctets(TAG_OID, DigestOid(a))| < 0x80
  {
  }

  lemma DigestIdentifierReads(a: DigestAlgorithm)
    ensures IsOneTlv(DigestIdentifier(a))
    ensures AlgorithmEntry(OnlyTlv(DigestIdentifier(a))) == Some(DigestOid(a))
    ensures OnlyTlv(DigestIdentifier(a)).tag == TAG_SEQUENCE
    ensures |DigestIdentifier(a)| < 0x100
  {
    DigestOidIsShort(a);
    var oid := TlvOctets(TAG_OID, DigestOid(a));
    Written(TAG_OID, DigestOid(a));
    OneChild(oid);
    Written(TAG_SEQUENCE, oid);
  }

  lemma SignatureIdentifierReads(a: SignatureAlgorithm)
    ensures IsOneTlv(SignatureIdentifier(a))
    ensures AlgorithmEntry(OnlyTlv(SignatureIdentifier(a))) == Some(SignatureOid(a))
    ensures OnlyTlv(SignatureIdentifier(a)).tag == TAG_SEQUENCE
  {
    var oid := TlvOctets(TAG_OID, SignatureOid(a));
    Written(TAG_OID, SignatureOid(a));
    OneChild(oid);
    var absent: octets := [0x05, 0x00];
    assert TlvOctets(0x05, []) == absent;
    Written(0x05, []);
    TwoChildren(oid, absent);
    Written(TAG_SEQUENCE, if a.RsaPkcs1Sha256? || a.RsaPkcs1Sha384? then oid + absent else oid);
  }

  lemma AttributeReads(oid: octets, valueDer: octets)
    requires Oids.IsOid(oid) && IsNonemptyStream(valueDer)
    requires |Attribute(oid, valueDer)| < U32_LIMIT
    ensures IsOneTlv(Attribute(oid, valueDer))
    ensures AttributeOf(OnlyTlv(Attribute(oid, valueDer))) == Some(SignedAttribute(oid, valueDer))
  {
    var oidDer, setDer := TlvOctets(TAG_OID, oid), TlvOctets(TAG_SET, valueDer);
    TlvIsLonger(TAG_SEQUENCE, oidDer + setDer);
    TlvIsLonger(TAG_OID, oid);
    TlvIsLonger(TAG_SET, valueDer);
    Written(TAG_OID, oid);
    Written(TAG_SET, valueDer);
    TwoChildren(oidDer, setDer);
    Written(TAG_SEQUENCE, oidDer + setDer);
  }

  lemma WrittenIsNonemptyStream(tag: byte, value: octets)
    requires tag % 0x20 != 0x1F && |value| < U32_LIMIT
    ensures IsNonemptyStream(TlvOctets(tag, value))
  {
    Written(tag, value);
    OneChild(TlvOctets(tag, value));
  }

  // ----- Section 5.4 of RFC 5652: wherever sorting puts the attributes, they are found -----

  predicate Distinct<T(==)>(xs: seq<T>) {
    forall i, j :: 0 <= i < j < |xs| ==> xs[i] != xs[j]
  }

  lemma {:induction false} CountIsOne<T>(xs: seq<T>, k: nat)
    requires Distinct(xs) && k < |xs|
    ensures multiset(xs)[xs[k]] == 1
  {
    assert xs == xs[..k] + [xs[k]] + xs[k + 1..];
    assert xs[k] !in xs[..k] && xs[k] !in xs[k + 1..];
  }

  lemma PermutationIsDistinct<T>(xs: seq<T>, ys: seq<T>)
    requires Distinct(xs) && multiset(xs) == multiset(ys)
    ensures Distinct(ys)
  {
    forall i, j | 0 <= i < j < |ys|
      ensures ys[i] != ys[j]
    {
      if ys[i] == ys[j] {
        assert ys == ys[..i] + [ys[i]] + ys[i + 1..j] + [ys[j]] + ys[j + 1..];
        assert multiset(ys)[ys[i]] >= 2;
        assert ys[i] in multiset(xs);
        var k :| 0 <= k < |xs| && xs[k] == ys[i];
        CountIsOne(xs, k);
        assert false;
      }
    }
  }

  lemma {:induction false} OfTypeSingle(attributes: seq<SignedAttribute>, m: nat)
    requires m < |attributes|
    requires forall k :: 0 <= k < |attributes| && k != m ==> attributes[k].oid != attributes[m].oid
    ensures OfType(attributes, attributes[m].oid) == [attributes[m]]
  {
    if m > 0 {
      OfTypeSingle(attributes[1..], m - 1);
    } else {
      OfTypeNone(attributes[1..], attributes[0].oid);
    }
  }

  lemma {:induction false} OfTypeNone(attributes: seq<SignedAttribute>, oid: octets)
    requires forall k :: 0 <= k < |attributes| ==> attributes[k].oid != oid
    ensures OfType(attributes, oid) == []
  {
    if attributes != [] {
      OfTypeNone(attributes[1..], oid);
    }
  }

  /** The attribute list holds OIDs with values, no type twice. */
  ghost predicate IsAttributeList(list: seq<(octets, octets)>) {
    && (forall a :: a in list ==> Oids.IsOid(a.0) && IsNonemptyStream(a.1) && |Attribute(a.0, a.1)| < U32_LIMIT)
    && (forall i, j :: 0 <= i < j < |list| ==> list[i].0 != list[j].0)
  }

  lemma EncodedReads(list: seq<(octets, octets)>, k: nat)
    requires IsAttributeList(list) && k < |list|
    ensures IsOneTlv(Encoded(list)[k])
    ensures AttributeOf(OnlyTlv(Encoded(list)[k])) == Some(SignedAttribute(list[k].0, list[k].1))
  {
    assert list[k] in list;
    AttributeReads(list[k].0, list[k].1);
  }

  lemma EncodedIsDistinct(list: seq<(octets, octets)>)
    requires IsAttributeList(list)
    ensures Distinct(Encoded(list))
  {
    forall i, j | 0 <= i < j < |list|
      ensures Encoded(list)[i] != Encoded(list)[j]
    {
      EncodedReads(list, i);
      EncodedReads(list, j);
    }
  }

  /** Each element of the sorted encodings is one of the listed attributes. */
  lemma SortedElement(list: seq<(octets, octets)>, part: octets) returns (k: nat)
    requires IsAttributeList(list) && part in Sorted(Encoded(list))
    ensures k < |list| && part == Encoded(list)[k]
    ensures IsOneTlv(part)
    ensures AttributeOf(OnlyTlv(part)) == Some(SignedAttribute(list[k].0, list[k].1))
  {
    SortedIsOrderedPermutation(Encoded(list));
    assert part in multiset(Sorted(Encoded(list)));
    assert part in multiset(Encoded(list));
    k :| 0 <= k < |list| && Encoded(list)[k] == part;
    EncodedReads(list, k);
  }

  lemma SortedAllRead(list: seq<(octets, octets)>)
    requires IsAttributeList(list)
    ensures forall part :: part in Sorted(Encoded(list))
              ==> IsOneTlv(part) && AttributeOf(OnlyTlv(part)).Some?
  {
    forall part | part in Sorted(Encoded(list))
      ensures IsOneTlv(part) && AttributeOf(OnlyTlv(part)).Some?
    {
      var k := SortedElement(list, part);
    }
  }

  /** Sorted, the attribute of each listed type is still there, and still the only one of its type. */
  lemma SortedAttributesKeepTypes(list: seq<(octets, octets)>, j: nat)
    requires IsAttributeList(list) && j < |list|
    requires forall part :: part in Sorted(Encoded(list)) ==> IsOneTlv(part) && AttributeOf(OnlyTlv(part)).Some?
    ensures OfType(Made(AttributeOf, Sorted(Encoded(list))), list[j].0)
            == [SignedAttribute(list[j].0, list[j].1)]
  {
    var sorted := Sorted(Encoded(list));
    var read := Made(AttributeOf, sorted);
    SortedIsOrderedPermutation(Encoded(list));
    EncodedIsDistinct(list);
    PermutationIsDistinct(Encoded(list), sorted);
    assert Encoded(list)[j] in multiset(sorted);
    var m :| 0 <= m < |sorted| && sorted[m] == Encoded(list)[j];
    EncodedReads(list, j);
    forall k | 0 <= k < |read| && k != m
      ensures read[k].oid != read[m].oid
    {
      var i := SortedElement(list, sorted[k]);
      if i == j {
        assert false;
      }
    }
    OfTypeSingle(read, m);
  }

  /** A listed value is one written TLV. */
  lemma ListedValueReads(digest: DigestFunction, p: SignerParameters, contentDigest: octets, k: nat)
    requires |SignedAttributesBody(digest, p, contentDigest)| < U32_LIMIT
    requires k < |AttributeList(digest, p, contentDigest)|
    ensures var a := AttributeList(digest, p, contentDigest)[k];
      Oids.IsOid(a.0) && IsNonemptyStream(a.1) && |Attribute(a.0, a.1)| < U32_LIMIT
  {
    var list := AttributeList(digest, p, contentDigest);
    AttributeFits(digest, p, contentDigest, k);
    AttributeIsLonger(list[k].0, list[k].1);
    KnownTypesDiffer();
    hide LengthOctets, CertIdBody, Oids.IsOid, Attribute;
    if k == 0 {
      WrittenIsNonemptyStream(TAG_OID, Oids.DATA);
    } else if k == 1 {
      TlvIsLonger(TAG_OCTET_STRING, contentDigest);
      WrittenIsNonemptyStream(TAG_OCTET_STRING, contentDigest);
    } else if k < |list| - 1 {
      TlvIsLonger(TAG_UTC_TIME, UtcTimeOf(p).value);
      WrittenIsNonemptyStream(TAG_UTC_TIME, UtcTimeOf(p).value);
    } else {
      var certs := TlvOctets(TAG_SEQUENCE, TlvOctets(TAG_SEQUENCE, CertIdBody(digest, p)));
      TlvIsLonger(TAG_SEQUENCE, certs);
      WrittenIsNonemptyStream(TAG_SEQUENCE, certs);
    }
  }

  lemma AttributeListIsWellFormed(digest: DigestFunction, p: SignerParameters, contentDigest: octets)
    requires |SignedAttributesBody(digest, p, contentDigest)| < U32_LIMIT
    ensures IsAttributeList(AttributeList(digest, p, contentDigest))
  {
    var list := AttributeList(digest, p, contentDigest);
    forall a | a in list
      ensures Oids.IsOid(a.0) && IsNonemptyStream(a.1) && |Attribute(a.0, a.1)| < U32_LIMIT
    {
      var k :| 0 <= k < |list| && list[k] == a;
      ListedValueReads(digest, p, contentDigest, k);
    }
    TypesOfList(digest, p, contentDigest);
  }

  lemma TypesOfList(digest: DigestFunction, p: SignerParameters, contentDigest: octets)
    ensures var list := AttributeList(digest, p, contentDigest);
      forall i, j :: 0 <= i < j < |list| ==> list[i].0 != list[j].0
  {
    hide TlvOctets, SigningCertificateV2;
    var list := AttributeList(digest, p, contentDigest);
    assert list[0].0 == Oids.CONTENT_TYPE && list[1].0 == Oids.MESSAGE_DIGEST;
    assert |list| == 4 ==> list[2].0 == Oids.SIGNING_TIME;
    assert list[|list| - 1].0 == Oids.SIGNING_CERTIFICATE_V2;
    assert |list| in {3, 4};
    KnownTypesDiffer();
    hide AttributeList;
  }

  lemma KnownTypesDiffer()
    ensures Oids.CONTENT_TYPE != Oids.MESSAGE_DIGEST && Oids.CONTENT_TYPE != Oids.SIGNING_TIME
    ensures Oids.MESSAGE_DIGEST != Oids.SIGNING_TIME
    ensures Oids.SIGNING_CERTIFICATE_V2 !in {Oids.CONTENT_TYPE, Oids.MESSAGE_DIGEST, Oids.SIGNING_TIME}
    ensures Oids.IsOid(Oids.CONTENT_TYPE) && Oids.IsOid(Oids.MESSAGE_DIGEST) && Oids.IsOid(Oids.SIGNING_TIME)
    ensures Oids.IsOid(Oids.SIGNING_CERTIFICATE_V2) && Oids.IsOid(Oids.DATA)
  {
    assert Oids.CONTENT_TYPE[8] != Oids.MESSAGE_DIGEST[8];
    assert Oids.CONTENT_TYPE[8] != Oids.SIGNING_TIME[8];
    assert Oids.MESSAGE_DIGEST[8] != Oids.SIGNING_TIME[8];
    assert |Oids.SIGNING_CERTIFICATE_V2| != |Oids.CONTENT_TYPE|;
  }

  /** The attributes as the reader keeps them: the listed ones, in DER order. */
  function ReadAttributes(digest: DigestFunction, p: SignerParameters, contentDigest: octets): seq<SignedAttribute>
    requires |SignedAttributesBody(digest, p, contentDigest)| < U32_LIMIT
  {
    AttributeListIsWellFormed(digest, p, contentDigest);
    SortedAllRead(AttributeList(digest, p, contentDigest));
    Made(AttributeOf, Sorted(Encoded(AttributeList(digest, p, contentDigest))))
  }

  /**
   The signed attributes read back: whatever order sorting chose, the content type and the content's
   digest are found, each exactly once.
   */
  lemma SignedAttributesRead(digest: DigestFunction, p: SignerParameters, contentDigest: octets)
    requires |SignedAttributesBody(digest, p, contentDigest)| < U32_LIMIT
    ensures Cms.SignedAttributes(SignedAttributesBody(digest, p, contentDigest))
      == Some(ParsedSignedAttributes(ReadAttributes(digest, p, contentDigest), Some(Oids.DATA), Some(contentDigest)))
  {
    var list := AttributeList(digest, p, contentDigest);
    AttributeListIsWellFormed(digest, p, contentDigest);
    SortedAllRead(list);
    EachChildOfConcatenation(AttributeOf, Sorted(Encoded(list)));
    SortedAttributesKeepTypes(list, 0);
    SortedAttributesKeepTypes(list, 1);
    assert list[0] == (Oids.CONTENT_TYPE, TlvOctets(TAG_OID, Oids.DATA));
    assert list[1] == (Oids.MESSAGE_DIGEST, TlvOctets(TAG_OCTET_STRING, contentDigest));
    AttributeFits(digest, p, contentDigest, 1);
    AttributeIsLonger(list[1].0, list[1].1);
    TlvIsLonger(TAG_OCTET_STRING, contentDigest);
    KnownTypesDiffer();
    Written(TAG_OID, Oids.DATA);
    Written(TAG_OCTET_STRING, contentDigest);
  }

  // ----- The whole structure -----

  predicate IsSequenceTlv(der: octets) {
    IsOneTlv(der) && OnlyTlv(der).tag == TAG_SEQUENCE
  }

  /** What the writer is handed: encodings that came out of parsers, tokens that are TLVs. */
  ghost predicate WellFormed(p: SignerParameters, material: ValidationMaterial, timestamps: seq<octets>) {
    && IsSequenceTlv(p.certificate.rawDer)
    && IsSequenceTlv(p.certificate.issuerDer)
    && p.certificate.serialDer != []
    && (forall c :: c in material.certificates ==> IsSequenceTlv(c))
    && (forall c :: c in material.crls ==> IsOneTlv(c))
    && (forall t :: t in timestamps ==> IsNonemptyStream(t))
  }

  lemma IssuerAndSerialReads(c: Certificate)
    requires IsSequenceTlv(c.issuerDer) && c.serialDer != []
    requires |IssuerAndSerial(c)| < U32_LIMIT
    ensures IsOneTlv(IssuerAndSerial(c))
    ensures SignerIdentifierOf(OnlyTlv(IssuerAndSerial(c)), [1])
      == Some(IssuerAndSerialNumber(c.issuerDer, c.serialDer))
  {
    var serial := TlvOctets(TAG_INTEGER, c.serialDer);
    var body := c.issuerDer + serial;
    TlvIsLonger(TAG_SEQUENCE, body);
    TlvIsLonger(TAG_INTEGER, c.serialDer);
    Written(TAG_INTEGER, c.serialDer);
    TwoChildren(c.issuerDer, serial);
    Written(TAG_SEQUENCE, body);
    assert body[..|c.issuerDer|] == c.issuerDer;
  }

  /** The `0xA0` form has the same contents as the SET that was signed, octet for octet. */
  lemma RetaggedReads(body: octets)
    requires |body| < U32_LIMIT
    ensures Retagged(TlvOctets(TAG_SET, body)) == TlvOctets(TAG_CONTEXT_0, body)
    ensures IsOneTlv(Retagged(TlvOctets(TAG_SET, body)))
    ensures ValueOf(OnlyTlv(Retagged(TlvOctets(TAG_SET, body))), TAG_CONTEXT_0) == Some(body)
  {
    hide LengthOctets;
    var lens := LengthOctets(|body|);
    assert ([TAG_SET] + lens + body)[1..] == lens + body;
    assert [TAG_CONTEXT_0] + (lens + body) == [TAG_CONTEXT_0] + lens + body;
    Written(TAG_CONTEXT_0, body);
  }

  lemma TimestampsRead(timestamps: seq<octets>)
    requires timestamps != [] && forall t :: t in timestamps ==> IsNonemptyStream(t)
    requires |Flatten(Deduped(Sorted(TimestampAttributes(timestamps))))| < U32_LIMIT
    ensures UnsignedAttributes(Flatten(Deduped(Sorted(TimestampAttributes(timestamps))))).Some?
  {
    var instances := TimestampAttributes(timestamps);
    var parts := Deduped(Sorted(instances));
    SetOfElements(instances);
    forall part | part in parts
      ensures IsOneTlv(part) && AttributeOf(OnlyTlv(part)).Some?
    {
      assert part in instances;
      var k :| 0 <= k < |instances| && instances[k] == part;
      assert timestamps[k] in timestamps;
      assert instances[k] in instances;
      SortedPartFits(instances, part);
      AttributeReads(Oids.SIGNATURE_TIME_STAMP_TOKEN, timestamps[k]);
    }
    EachChildOfConcatenation(AttributeOf, parts);
  }

  /** What the reader must get from field number `k` of a signer. */
  ghost predicate SignerPartMeans(part: octets, k: nat, p: SignerParameters, body: octets, signature: octets) {
    && IsOneTlv(part)
    && var t := OnlyTlv(part);
      match k
      case 0 => ValueOf(t, TAG_INTEGER) == Some([1])
      case 1 => SignerIdentifierOf(t, [1])
                == Some(IssuerAndSerialNumber(p.certificate.issuerDer, p.certificate.serialDer))
      case 2 => AlgorithmEntry(t) == Some(DigestOid(p.digestAlgorithm))
      case 3 => ValueOf(t, TAG_CONTEXT_0) == Some(body)
      case 4 => AlgorithmEntry(t) == Some(SignatureOid(p.signatureAlgorithm)) && t.tag == TAG_SEQUENCE
      case 5 => ValueOf(t, TAG_OCTET_STRING) == Some(signature)
      case _ => t.tag == TAG_CONTEXT_1 && UnsignedAttributes(t.value).Some?
  }

  lemma SignerPartReads(p: SignerParameters, body: octets, signature: octets, timestamps: seq<octets>, k: nat)
    requires IsSequenceTlv(p.certificate.issuerDer) && p.certificate.serialDer != []
    requires forall t :: t in timestamps ==> IsNonemptyStream(t)
    requires |body| < U32_LIMIT
    requires |Flatten(SignerInfoParts(p, TlvOctets(TAG_SET, body), signature, timestamps))| < U32_LIMIT
    requires k < |SignerInfoParts(p, TlvOctets(TAG_SET, body), signature, timestamps)|
    ensures SignerPartMeans(SignerInfoParts(p, TlvOctets(TAG_SET, body), signature, timestamps)[k], k, p, body,
                            signature)
  {
    var parts := SignerInfoParts(p, TlvOctets(TAG_SET, body), signature, timestamps);
    FlattenPartBound(parts, k);
    hide LengthOctets, TlvOctets, Sorted, Deduped, Flatten, AlgorithmEntry, SignerIdentifierOf, UnsignedAttributes;
    if k == 0 {
      Written(TAG_INTEGER, [1]);
    } else if k == 1 {
      IssuerAndSerialReads(p.certificate);
    } else if k == 2 {
      DigestIdentifierReads(p.digestAlgorithm);
    } else if k == 3 {
      RetaggedReads(body);
    } else if k == 4 {
      SignatureIdentifierReads(p.signatureAlgorithm);
    } else if k == 5 {
      TlvIsLonger(TAG_OCTET_STRING, signature);
      Written(TAG_OCTET_STRING, signature);
    } else {
      var unsigned := Flatten(Deduped(Sorted(TimestampAttributes(timestamps))));
      TlvIsLonger(TAG_CONTEXT_1, unsigned);
      Written(TAG_CONTEXT_1, unsigned);
      TimestampsRead(timestamps);
    }
  }

  lemma SignerFieldsRead(p: SignerParameters, body: octets, signature: octets, timestamps: seq<octets>)
    requires IsSequenceTlv(p.certificate.issuerDer) && p.certificate.serialDer != []
    requires forall t :: t in timestamps ==> IsNonemptyStream(t)
    requires |body| < U32_LIMIT
    requires |Flatten(SignerInfoParts(p, TlvOctets(TAG_SET, body), signature, timestamps))| < U32_LIMIT
    ensures var children := Children(Flatten(SignerInfoParts(p, TlvOctets(TAG_SET, body), signature, timestamps)));
      && children.Some?
      && SignerFieldsOf(children.value)
         == Some(SignerFields(IssuerAndSerialNumber(p.certificate.issuerDer, p.certificate.serialDer),
                              DigestOid(p.digestAlgorithm), Some(body), SignatureOid(p.signatureAlgorithm), signature))
  {
    var parts := SignerInfoParts(p, TlvOctets(TAG_SET, body), signature, timestamps);
    assert |parts| in {6, 7};
    var fields := SignerChildren(p, body, signature, timestamps);
    hide SignerInfoParts, Flatten, AlgorithmEntry, SignerIdentifierOf, UnsignedAttributes, IsOneTlv, ParseTlv, Children;
    SignatureFieldsRead(fields, body, SignatureOid(p.signatureAlgorithm), signature);
  }

  /** Signed attributes, signature algorithm, signature, and perhaps unsigned attributes. */
  lemma SignatureFieldsRead(fields: seq<Tlv>, body: octets, algorithm: octets, signature: octets)
    requires |fields| in {6, 7}
    requires ValueOf(fields[3], TAG_CONTEXT_0) == Some(body)
    requires fields[4].tag == TAG_SEQUENCE && AlgorithmEntry(fields[4]) == Some(algorithm)
    requires ValueOf(fields[5], TAG_OCTET_STRING) == Some(signature)
    requires |fields| == 7 ==> fields[6].tag == TAG_CONTEXT_1 && UnsignedAttributes(fields[6].value).Some?
    ensures SignatureFields(fields, 3) == Some((Some(body), algorithm, signature))
  {
    hide AlgorithmEntry, UnsignedAttributes;
    assert fields[6..] == if |fields| == 7 then [fields[6]] else [];
  }

  /** The children of a written signer, field by field. */
  lemma SignerChildren(p: SignerParameters, body: octets, signature: octets, timestamps: seq<octets>)
    returns (fields: seq<Tlv>)
    requires IsSequenceTlv(p.certificate.issuerDer) && p.certificate.serialDer != []
    requires forall t :: t in timestamps ==> IsNonemptyStream(t)
    requires |body| < U32_LIMIT
    requires |Flatten(SignerInfoParts(p, TlvOctets(TAG_SET, body), signature, timestamps))| < U32_LIMIT
    ensures var parts := SignerInfoParts(p, TlvOctets(TAG_SET, body), signature, timestamps);
      && Children(Flatten(parts)) == Some(fields)
      && |fields| == |parts| >= 6
      && ValueOf(fields[0], TAG_INTEGER) == Some([1])
      && SignerIdentifierOf(fields[1], [1])
         == Some(IssuerAndSerialNumber(p.certificate.issuerDer, p.certificate.serialDer))
      && AlgorithmEntry(fields[2]) == Some(DigestOid(p.digestAlgorithm))
      && ValueOf(fields[3], TAG_CONTEXT_0) == Some(body)
      && AlgorithmEntry(fields[4]) == Some(SignatureOid(p.signatureAlgorithm)) && fields[4].tag == TAG_SEQUENCE
      && ValueOf(fields[5], TAG_OCTET_STRING) == Some(signature)
      && (|fields| > 6 ==> fields[6].tag == TAG_CONTEXT_1 && UnsignedAttributes(fields[6].value).Some?)
  {
    var parts := SignerInfoParts(p, TlvOctets(TAG_SET, body), signature, timestamps);
    assert |parts| in {6, 7};
    hide SignerInfoParts, Flatten, AlgorithmEntry, SignerIdentifierOf, UnsignedAttributes, ParseTlv, TlvOctets, Children,
      OnlyTlv;
    forall k | 0 <= k < |parts|
      ensures SignerPartMeans(parts[k], k, p, body, signature)
    {
      SignerPartReads(p, body, signature, timestamps, k);
    }
    ChildrenOfConcatenation(parts);
    fields := OnlyTlvs(parts);
    assert SignerPartMeans(parts[0], 0, p, body, signature);
    assert SignerPartMeans(parts[1], 1, p, body, signature);
    assert SignerPartMeans(parts[2], 2, p, body, signature);
    assert SignerPartMeans(parts[3], 3, p, body, signature);
    assert SignerPartMeans(parts[4], 4, p, body, signature);
    assert SignerPartMeans(parts[5], 5, p, body, signature);
  }

  /** The signer, as the reader gives it back. */
  function ReadSigner(digest: DigestFunction, p: SignerParameters, contentDigest: octets, signature: octets)
    : Cms.SignerInfo
    requires |SignedAttributesBody(digest, p, contentDigest)| < U32_LIMIT
  {
    Cms.SignerInfo(
      IssuerAndSerialNumber(p.certificate.issuerDer, p.certificate.serialDer),
      DigestOid(p.digestAlgorithm),
      SignatureOid(p.signatureAlgorithm),
      signature,
      Some(ToBeSigned(digest, p, contentDigest)),
      ReadAttributes(digest, p, contentDigest),
      Some(contentDigest))
  }

  lemma SignerInfoReads(digest: DigestFunction, p: SignerParameters, contentDigest: octets, signature: octets,
                        timestamps: seq<octets>)
    requires IsSequenceTlv(p.certificate.issuerDer) && p.certificate.serialDer != []
    requires forall t :: t in timestamps ==> IsNonemptyStream(t)
    requires |SignedAttributesBody(digest, p, contentDigest)| < U32_LIMIT
    requires |Flatten(SignerInfoParts(p, ToBeSigned(digest, p, contentDigest), signature, timestamps))| < U32_LIMIT
    ensures SignerInfoOf(Flatten(SignerInfoParts(p, ToBeSigned(digest, p, contentDigest), signature, timestamps)),
                         Oids.DATA)
      == Some(ReadSigner(digest, p, contentDigest, signature))
  {
    SignerFieldsRead(p, SignedAttributesBody(digest, p, contentDigest), signature, timestamps);
    SignedAttributesRead(digest, p, contentDigest);
    hide SignerFieldsOf, Children, SignedAttributesBody, SignerInfoParts, Flatten;
  }

  lemma CertificatesRead(p: SignerParameters, material: ValidationMaterial)
    requires IsSequenceTlv(p.certificate.rawDer)
    requires forall c :: c in material.certificates ==> IsSequenceTlv(c)
    ensures Certificates(Flatten(CertificateSet(p, material))) == Some(CertificateSet(p, material))
  {
    var all := [p.certificate.rawDer] + material.certificates;
    var parts := CertificateSet(p, material);
    SetOfElements(all);
    forall part | part in parts
      ensures IsSequenceTlv(part)
    {
      assert part in all;
    }
    EncodingsOfConcatenation(parts, TAG_SEQUENCE);
    assert parts[0] in parts;
    FlattenPartBound(parts, 0);
  }

  lemma OcspChoiceReads(responses: seq<octets>, part: octets)
    requires part in OcspChoices(responses) && |part| < U32_LIMIT
    ensures IsOneTlv(part)
  {
    var m :| 0 <= m < |responses| && OcspChoices(responses)[m] == part;
    var body := TlvOctets(TAG_OID, Oids.OCSP_RESPONSE_REVOCATION_INFO) + responses[m];
    TlvIsLonger(TAG_CONTEXT_1, body);
    Written(TAG_CONTEXT_1, body);
  }

  lemma RevocationReads(material: ValidationMaterial)
    requires forall c :: c in material.crls ==> IsOneTlv(c)
    requires |material.crls| + |material.ocspResponses| > 0
    requires |Flatten(RevocationSet(material))| < U32_LIMIT
    ensures IsNonemptyStream(Flatten(RevocationSet(material)))
  {
    var parts := RevocationSet(material);
    SetOfElements(material.crls + OcspChoices(material.ocspResponses));
    hide Sorted, Deduped, OcspChoices;
    forall k | 0 <= k < |parts|
      ensures IsOneTlv(parts[k])
    {
      var part := parts[k];
      assert part in parts;
      FlattenPartBound(parts, k);
      if part !in material.crls {
        OcspChoiceReads(material.ocspResponses, part);
      }
    }
    ChildrenOfConcatenation(parts);
    FlattenPartBound(parts, 0);
  }

  lemma EncapsulatedContentReads(encapsulation: Encapsulation, content: octets)
    requires |EncapsulatedContentDer(encapsulation, content)| < U32_LIMIT
    ensures IsOneTlv(EncapsulatedContentDer(encapsulation, content))
    ensures EncapsulatedContent(OnlyTlv(EncapsulatedContentDer(encapsulation, content)))
      == Some((Oids.DATA, if encapsulation.Attached? then content else []))
  {
    var contentType := TlvOctets(TAG_OID, Oids.DATA);
    KnownTypesDiffer();
    Written(TAG_OID, Oids.DATA);
    if encapsulation.Detached? {
      OneChild(contentType);
      Written(TAG_SEQUENCE, contentType);
    } else {
      var octetString := TlvOctets(TAG_OCTET_STRING, content);
      var explicit := TlvOctets(TAG_CONTEXT_0, octetString);
      TlvIsLonger(TAG_SEQUENCE, contentType + explicit);
      TlvIsLonger(TAG_CONTEXT_0, octetString);
      TlvIsLonger(TAG_OCTET_STRING, content);
      Written(TAG_OCTET_STRING, content);
      Written(TAG_CONTEXT_0, octetString);
      TwoChildren(contentType, explicit);
      Written(TAG_SEQUENCE, contentType + explicit);
    }
  }

  /** The body the reader must take apart, everything the writer was given, and the bound it needs. */
  ghost predicate Writable(digest: DigestFunction, p: SignerParameters, contentDigest: octets, signature: octets,
                           encapsulation: Encapsulation, content: octets, material: ValidationMaterial,
                           timestamps: seq<octets>)
  {
    && WellFormed(p, material, timestamps)
    && |SignedAttributesBody(digest, p, contentDigest)| < U32_LIMIT
    && |Flatten(ContentInfoParts(p, ToBeSigned(digest, p, contentDigest), signature, encapsulation, content,
                                 material, timestamps))| < U32_LIMIT
  }

  lemma SignedDataHeadReads(p: SignerParameters, encapsulation: Encapsulation, content: octets,
                            material: ValidationMaterial, head: seq<octets>, k: nat)
    requires IsSequenceTlv(p.certificate.rawDer)
    requires forall c :: c in material.certificates ==> IsSequenceTlv(c)
    requires head == Cades.SignedDataHead(p, encapsulation, content, material) && k < 4 && |head[k]| < U32_LIMIT
    ensures IsOneTlv(head[k])
    ensures var t := OnlyTlv(head[k]);
      match k
      case 0 => Version(t).Some?
      case 1 => DigestAlgorithms(t) == Some([DigestOid(p.digestAlgorithm)])
      case 2 => EncapsulatedContent(t) == Some((Oids.DATA, if encapsulation.Attached? then content else []))
      case _ => t.tag == TAG_CONTEXT_0 && Certificates(t.value) == Some(CertificateSet(p, material))
  {
    hide LengthOctets, TlvOctets, Flatten, DigestIdentifier, CertificateSet, EncapsulatedContentDer, Certificates,
      EncapsulatedContent, DigestAlgorithms;
    if k == 0 {
      Written(TAG_INTEGER, [CmsVersion(material)]);
    } else if k == 1 {
      DigestSetReads(p.digestAlgorithm);
    } else if k == 2 {
      EncapsulatedContentReads(encapsulation, content);
    } else {
      TlvIsLonger(TAG_CONTEXT_0, Flatten(CertificateSet(p, material)));
      Written(TAG_CONTEXT_0, Flatten(CertificateSet(p, material)));
      CertificatesRead(p, material);
    }
  }

  /** The revocation field reads as a nonempty stream, the signer set as the signer. */
  lemma SignedDataTailReads(material: ValidationMaterial, signer: octets)
    requires forall c :: c in material.crls ==> IsOneTlv(c)
    ensures |material.crls| + |material.ocspResponses| > 0
            && |TlvOctets(TAG_CONTEXT_1, Flatten(RevocationSet(material)))| < U32_LIMIT
      ==> var part := TlvOctets(TAG_CONTEXT_1, Flatten(RevocationSet(material)));
          IsOneTlv(part) && OnlyTlv(part).tag == TAG_CONTEXT_1 && IsNonemptyStream(OnlyTlv(part).value)
    ensures |TlvOctets(TAG_SET, signer)| < U32_LIMIT
      ==> var part := TlvOctets(TAG_SET, signer);
          IsOneTlv(part) && OnlyTlv(part).tag == TAG_SET && OnlyTlv(part).value == signer
  {
    var revocation := Flatten(RevocationSet(material));
    TlvIsLonger(TAG_CONTEXT_1, revocation);
    TlvIsLonger(TAG_SET, signer);
    hide LengthOctets, TlvOctets, RevocationSet, Flatten;
    if |TlvOctets(TAG_SET, signer)| < U32_LIMIT {
      Written(TAG_SET, signer);
    }
    if |material.crls| + |material.ocspResponses| > 0 && |TlvOctets(TAG_CONTEXT_1, revocation)| < U32_LIMIT {
      Written(TAG_CONTEXT_1, revocation);
      RevocationReads(material);
    }
  }

  /** The first four parts of a written `SignedData` body, each read on its own. */
  lemma HeadPartsRead(p: SignerParameters, encapsulation: Encapsulation, content: octets,
                      material: ValidationMaterial, parts: seq<octets>)
    requires IsSequenceTlv(p.certificate.rawDer)
    requires forall c :: c in material.certificates ==> IsSequenceTlv(c)
    requires |parts| >= 4 && parts[..4] == Cades.SignedDataHead(p, encapsulation, content, material)
    requires |Flatten(parts)| < U32_LIMIT
    ensures IsOneTlv(parts[0]) && Version(OnlyTlv(parts[0])).Some?
    ensures IsOneTlv(parts[1]) && DigestAlgorithms(OnlyTlv(parts[1])) == Some([DigestOid(p.digestAlgorithm)])
    ensures IsOneTlv(parts[2]) && EncapsulatedContent(OnlyTlv(parts[2]))
                                  == Some((Oids.DATA, if encapsulation.Attached? then content else []))
    ensures IsOneTlv(parts[3]) && OnlyTlv(parts[3]).tag == TAG_CONTEXT_0
    ensures Certificates(OnlyTlv(parts[3]).value) == Some(CertificateSet(p, material))
  {
    hide *;
    var head := parts[..4];
    FlattenPartBound(parts, 0);
    FlattenPartBound(parts, 1);
    FlattenPartBound(parts, 2);
    FlattenPartBound(parts, 3);
    SignedDataHeadReads(p, encapsulation, content, material, head, 0);
    SignedDataHeadReads(p, encapsulation, content, material, head, 1);
    SignedDataHeadReads(p, encapsulation, content, material, head, 2);
    SignedDataHeadReads(p, encapsulation, content, material, head, 3);
  }

  /** The children of a written `SignedData` body, field by field. */
  lemma SignedDataChildren(p: SignerParameters, tbs: octets, signature: octets, encapsulation: Encapsulation,
                           content: octets, material: ValidationMaterial, timestamps: seq<octets>)
    returns (fields: seq<Tlv>)
    requires WellFormed(p, material, timestamps)
    requires |Flatten(SignedDataParts(p, tbs, signature, encapsulation, content, material, timestamps))| < U32_LIMIT
    ensures Children(Flatten(SignedDataParts(p, tbs, signature, encapsulation, content, material, timestamps)))
      == Some(fields)
    ensures |fields| == if |material.crls| + |material.ocspResponses| > 0 then 6 else 5
    ensures Cms.SignedDataHead(fields)
      == Some(([DigestOid(p.digestAlgorithm)], Oids.DATA, if encapsulation.Attached? then content else []))
    ensures fields[3].tag == TAG_CONTEXT_0 && Certificates(fields[3].value) == Some(CertificateSet(p, material))
    ensures |fields| == 6 ==> fields[4].tag == TAG_CONTEXT_1 && IsNonemptyStream(fields[4].value)
    ensures fields[|fields| - 1].tag == TAG_SET
    ensures fields[|fields| - 1].value == SignerInfoDer(p, tbs, signature, timestamps)
  {
    var parts := SignedDataParts(p, tbs, signature, encapsulation, content, material, timestamps);
    var signer := SignerInfoDer(p, tbs, signature, timestamps);
    assert |parts| == if |material.crls| + |material.ocspResponses| > 0 then 6 else 5;
    assert |parts| == 6 ==> parts[4] == TlvOctets(TAG_CONTEXT_1, Flatten(RevocationSet(material)));
    assert parts[|parts| - 1] == TlvOctets(TAG_SET, signer);
    assert parts[..4] == Cades.SignedDataHead(p, encapsulation, content, material);
    fields := OnlyTlvsOfParts(p, encapsulation, content, material, parts, signer);
    hide *;
    ChildrenOfConcatenation(parts);
    HeadFieldsRead(fields, DigestOid(p.digestAlgorithm), if encapsulation.Attached? then content else []);
  }

  /** The five or six parts, each read on its own. */
  lemma OnlyTlvsOfParts(p: SignerParameters, encapsulation: Encapsulation, content: octets,
                        material: ValidationMaterial, parts: seq<octets>, signer: octets)
    returns (fields: seq<Tlv>)
    requires IsSequenceTlv(p.certificate.rawDer)
    requires forall c :: c in material.certificates ==> IsSequenceTlv(c)
    requires forall c :: c in material.crls ==> IsOneTlv(c)
    requires |parts| == if |material.crls| + |material.ocspResponses| > 0 then 6 else 5
    requires parts[..4] == Cades.SignedDataHead(p, encapsulation, content, material)
    requires |parts| == 6 ==> parts[4] == TlvOctets(TAG_CONTEXT_1, Flatten(RevocationSet(material)))
    requires parts[|parts| - 1] == TlvOctets(TAG_SET, signer)
    requires |Flatten(parts)| < U32_LIMIT
    ensures forall k :: 0 <= k < |parts| ==> IsOneTlv(parts[k])
    ensures fields == OnlyTlvs(parts)
    ensures Version(fields[0]).Some? && DigestAlgorithms(fields[1]) == Some([DigestOid(p.digestAlgorithm)])
    ensures EncapsulatedContent(fields[2]) == Some((Oids.DATA, if encapsulation.Attached? then content else []))
    ensures fields[3].tag == TAG_CONTEXT_0 && Certificates(fields[3].value) == Some(CertificateSet(p, material))
    ensures |fields| == 6 ==> fields[4].tag == TAG_CONTEXT_1 && IsNonemptyStream(fields[4].value)
    ensures fields[|fields| - 1].tag == TAG_SET && fields[|fields| - 1].value == signer
  {
    hide *;
    SignedDataTailReads(material, signer);
    HeadPartsRead(p, encapsulation, content, material, parts);
    FlattenPartBound(parts, 4);
    FlattenPartBound(parts, |parts| - 1);
    fields := OnlyTlvs(parts);
  }

  lemma HeadFieldsRead(fields: seq<Tlv>, digestOid: octets, content: octets)
    requires |fields| >= 3 && Version(fields[0]).Some? && DigestAlgorithms(fields[1]) == Some([digestOid])
    requires EncapsulatedContent(fields[2]) == Some((Oids.DATA, content))
    ensures Cms.SignedDataHead(fields) == Some(([digestOid], Oids.DATA, content))
  {
    hide Version, DigestAlgorithms, EncapsulatedContent;
  }

  lemma DigestSetReads(a: DigestAlgorithm)
    ensures IsOneTlv(TlvOctets(TAG_SET, DigestIdentifier(a)))
    ensures DigestAlgorithms(OnlyTlv(TlvOctets(TAG_SET, DigestIdentifier(a)))) == Some([DigestOid(a)])
  {
    var entry := DigestIdentifier(a);
    DigestIdentifierReads(a);
    Written(TAG_SET, entry);
    assert Flatten([entry]) == entry;
    EachChildOfConcatenation(AlgorithmEntry, [entry]);
    assert Made(AlgorithmEntry, [entry]) == [DigestOid(a)];
  }

  lemma SignedDataBodyReads(digest: DigestFunction, p: SignerParameters, contentDigest: octets, signature: octets,
                            encapsulation: Encapsulation, content: octets, material: ValidationMaterial,
                            timestamps: seq<octets>)
    requires WellFormed(p, material, timestamps)
    requires |SignedAttributesBody(digest, p, contentDigest)| < U32_LIMIT
    requires |Flatten(SignedDataParts(p, ToBeSigned(digest, p, contentDigest), signature, encapsulation, content,
                                      material, timestamps))| < U32_LIMIT
    ensures SignedDataOf(Flatten(SignedDataParts(p, ToBeSigned(digest, p, contentDigest), signature, encapsulation,
                                                 content, material, timestamps)))
      == Some(SignedData(Oids.DATA, if encapsulation.Attached? then content else [], CertificateSet(p, material),
                         ReadSigner(digest, p, contentDigest, signature)))
  {
    var tbs := ToBeSigned(digest, p, contentDigest);
    var parts := SignedDataParts(p, tbs, signature, encapsulation, content, material, timestamps);
    var signerParts := SignerInfoParts(p, tbs, signature, timestamps);
    FlattenPartBound(parts, |parts| - 1);
    TlvIsLonger(TAG_SET, SignerInfoDer(p, tbs, signature, timestamps));
    TlvIsLonger(TAG_SEQUENCE, Flatten(signerParts));
    Written(TAG_SEQUENCE, Flatten(signerParts));
    hide SignedDataParts, TlvOctets, Flatten, Children, CertificateSet, SignerInfoParts, Certificates, ParseTlv,
      ToBeSigned, ReadAttributes, SignedAttributesBody, Cms.SignedDataHead, SignerInfoOf, IsOneTlv;
    SignerInfoReads(digest, p, contentDigest, signature, timestamps);
    var fields := SignedDataChildren(p, tbs, signature, encapsulation, content, material, timestamps);
    CertificatesThenSigners(fields, CertificateSet(p, material));
  }

  /** Five or six fields: certificates, perhaps revocation answers, and the signers. */
  lemma CertificatesThenSigners(fields: seq<Tlv>, certificates: seq<octets>)
    requires |fields| in {5, 6}
    requires fields[3].tag == TAG_CONTEXT_0 && Certificates(fields[3].value) == Some(certificates)
    requires |fields| == 6 ==> fields[4].tag == TAG_CONTEXT_1 && IsNonemptyStream(fields[4].value)
    requires fields[|fields| - 1].tag == TAG_SET
    ensures CertificatesAndSigners(fields[3..]) == Some((certificates, fields[|fields| - 1].value))
  {
    var rest := fields[3..];
    assert rest[1..] == fields[4..];
    assert |fields| == 6 ==> fields[4..][1..] == fields[5..] == [fields[5]];
    assert |fields| == 5 ==> fields[4..] == [fields[4]];
  }

  /** The `ContentInfo` around a body gives the body back. */
  lemma ContentInfoUnwraps(body: octets)
    requires |TlvOctets(TAG_OID, Oids.SIGNED_DATA) + TlvOctets(TAG_CONTEXT_0, TlvOctets(TAG_SEQUENCE, body))|
      < U32_LIMIT
    ensures Cms.Unwrapped(TlvOctets(TAG_SEQUENCE, TlvOctets(TAG_OID, Oids.SIGNED_DATA)
                                                  + TlvOctets(TAG_CONTEXT_0, TlvOctets(TAG_SEQUENCE, body))))
      == Some(body)
  {
    var inner := TlvOctets(TAG_SEQUENCE, body);
    var contentType := TlvOctets(TAG_OID, Oids.SIGNED_DATA);
    var explicit := TlvOctets(TAG_CONTEXT_0, inner);
    TlvIsLonger(TAG_CONTEXT_0, inner);
    TlvIsLonger(TAG_SEQUENCE, body);
    assert TlvOctets(TAG_SEQUENCE, contentType + explicit)[0] == TAG_SEQUENCE;
    assert Oids.IsOid(Oids.SIGNED_DATA);
    hide TlvOctets, Children, ParseTlv, Oids.IsOid, IsOneTlv, OnlyTlv;
    Written(TAG_OID, Oids.SIGNED_DATA);
    Written(TAG_SEQUENCE, body);
    Written(TAG_CONTEXT_0, inner);
    Written(TAG_SEQUENCE, contentType + explicit);
    TwoChildren(contentType, explicit);
  }

  /**
   The round trip: parsing what was written gives the content, the ordered duplicate-free
   certificates, and the signer, signature and attributes included.
   */
  lemma SignedDataRoundTrip(digest: DigestFunction, p: SignerParameters, contentDigest: octets, signature: octets,
                            encapsulation: Encapsulation, content: octets, material: ValidationMaterial,
                            timestamps: seq<octets>)
    requires Writable(digest, p, contentDigest, signature, encapsulation, content, material, timestamps)
    ensures ParsedSignedData(SignedDataDer(p, ToBeSigned(digest, p, contentDigest), signature, encapsulation, content,
                                           material, timestamps))
      == Some(SignedData(Oids.DATA, if encapsulation.Attached? then content else [], CertificateSet(p, material),
                         ReadSigner(digest, p, contentDigest, signature)))
  {
    var tbs := ToBeSigned(digest, p, contentDigest);
    var body := Flatten(SignedDataParts(p, tbs, signature, encapsulation, content, material, timestamps));
    var contentType := TlvOctets(TAG_OID, Oids.SIGNED_DATA);
    var explicit := TlvOctets(TAG_CONTEXT_0, TlvOctets(TAG_SEQUENCE, body));
    var parts := ContentInfoParts(p, tbs, signature, encapsulation, content, material, timestamps);
    assert parts == [contentType, explicit];
    assert parts[1..] == [explicit];
    assert Flatten([explicit]) == explicit;
    assert Flatten(parts) == contentType + explicit;
    ContentInfoUnwraps(body);
    TlvIsLonger(TAG_CONTEXT_0, TlvOctets(TAG_SEQUENCE, body));
    TlvIsLonger(TAG_SEQUENCE, body);
    hide SignedDataParts, TlvOctets, Flatten, CertificateSet, ToBeSigned, ReadSigner, SignedAttributesBody,
      SignedDataOf, ContentInfoParts, Cms.Unwrapped;
    SignedDataBodyReads(digest, p, contentDigest, signature, encapsulation, content, material, timestamps);
  }

  /**
   Section 5.4 of RFC 5652: the structure carries the attributes under `[0]`, not as they were signed; the
   SET the reader rebuilds from them is what the card signed, octet for octet.
   */
  lemma RebuiltIsSigned(digest: DigestFunction, p: SignerParameters, contentDigest: octets, signature: octets,
                        encapsulation: Encapsulation, content: octets, material: ValidationMaterial,
                        timestamps: seq<octets>)
    requires Writable(digest, p, contentDigest, signature, encapsulation, content, material, timestamps)
    ensures var signed := ToBeSigned(digest, p, contentDigest);
      var carried := SignerInfoParts(p, signed, signature, timestamps)[3];
      && carried != signed
      && IsOneTlv(carried)
      && OnlyTlv(carried).tag == TAG_CONTEXT_0
      && TlvOctets(TAG_SET, OnlyTlv(carried).value) == signed
      && var parsed := ParsedSignedData(SignedDataDer(p, signed, signature, encapsulation, content, material,
                                                      timestamps));
         parsed.Some? && parsed.value.signer.signedDataToVerify == Some(signed)
  {
    hide *;
    WritableMeans(digest, p, contentDigest, signature, encapsulation, content, material, timestamps);
    SignedDataRoundTrip(digest, p, contentDigest, signature, encapsulation, content, material, timestamps);
    ReadSignerRebuilds(digest, p, contentDigest, signature);
    TagAtFront(digest, p, contentDigest);
    CarriedPart(p, ToBeSigned(digest, p, contentDigest), signature, timestamps);
    CarriedRebuilds(SignedAttributesBody(digest, p, contentDigest));
  }

  lemma WritableMeans(digest: DigestFunction, p: SignerParameters, contentDigest: octets, signature: octets,
                      encapsulation: Encapsulation, content: octets, material: ValidationMaterial,
                      timestamps: seq<octets>)
    requires Writable(digest, p, contentDigest, signature, encapsulation, content, material, timestamps)
    ensures |SignedAttributesBody(digest, p, contentDigest)| < U32_LIMIT
  {
  }

  lemma ReadSignerRebuilds(digest: DigestFunction, p: SignerParameters, contentDigest: octets, signature: octets)
    requires |SignedAttributesBody(digest, p, contentDigest)| < U32_LIMIT
    ensures ReadSigner(digest, p, contentDigest, signature).signedDataToVerify
      == Some(ToBeSigned(digest, p, contentDigest))
    ensures ReadSigner(digest, p, contentDigest, signature).signerIdentifier
      == IssuerAndSerialNumber(p.certificate.issuerDer, p.certificate.serialDer)
  {
    hide SignedAttributesBody, ToBeSigned, ReadAttributes;
  }

  lemma CarriedPart(p: SignerParameters, signed: octets, signature: octets, timestamps: seq<octets>)
    requires signed != []
    ensures |SignerInfoParts(p, signed, signature, timestamps)| > 3
    ensures SignerInfoParts(p, signed, signature, timestamps)[3] == Retagged(signed)
  {
    hide Retagged, TlvOctets;
  }

  lemma TagAtFront(digest: DigestFunction, p: SignerParameters, contentDigest: octets)
    ensures ToBeSigned(digest, p, contentDigest) == TlvOctets(TAG_SET, SignedAttributesBody(digest, p, contentDigest))
    ensures ToBeSigned(digest, p, contentDigest) != []
  {
    hide SignedAttributesBody;
  }

  /** Retagged, a SET is another TLV; its value under the SET tag is the SET again. */
  lemma CarriedRebuilds(body: octets)
    requires |body| < U32_LIMIT
    ensures var signed := TlvOctets(TAG_SET, body);
      && signed != []
      && var carried := Retagged(signed);
         && carried != signed
         && IsOneTlv(carried)
         && OnlyTlv(carried).tag == TAG_CONTEXT_0
         && TlvOctets(TAG_SET, OnlyTlv(carried).value) == signed
  {
    RetaggedReads(body);
    assert TlvOctets(TAG_SET, body)[0] == TAG_SET;
    assert TlvOctets(TAG_CONTEXT_0, body)[0] == TAG_CONTEXT_0;
    hide TlvOctets, ParseTlv, Retagged, IsOneTlv, OnlyTlv;
  }

  /** The type and value of each attribute that was read. */
  function Pairs(attributes: seq<SignedAttribute>): (r: seq<(octets, octets)>)
    ensures |r| == |attributes|
    ensures forall k :: 0 <= k < |r| ==> r[k] == (attributes[k].oid, attributes[k].valuesDer)
  {
    if attributes == [] then [] else [(attributes[0].oid, attributes[0].valuesDer)] + Pairs(attributes[1..])
  }

  /**
   The attributes a verifier reads, encoded again one by one in the order they came, are in DER order
   and make up the SET the card signed.
   */
  lemma ReadAttributesReencode(digest: DigestFunction, p: SignerParameters, contentDigest: octets)
    requires |SignedAttributesBody(digest, p, contentDigest)| < U32_LIMIT
    ensures var reencoded := Encoded(Pairs(ReadAttributes(digest, p, contentDigest)));
      Ordered(reencoded) && ToBeSigned(digest, p, contentDigest) == TlvOctets(TAG_SET, Flatten(reencoded))
  {
    var list := AttributeList(digest, p, contentDigest);
    var sorted := Sorted(Encoded(list));
    AttributeListIsWellFormed(digest, p, contentDigest);
    SortedAllRead(list);
    SortedIsOrderedPermutation(Encoded(list));
    var read := ReadAttributes(digest, p, contentDigest);
    hide AttributeList, IsAttributeList, AttributeOf, Sorted, TlvOctets, Attribute, Flatten, ParseTlv;
    forall k | 0 <= k < |sorted|
      ensures Encoded(Pairs(read))[k] == sorted[k]
    {
      var i := SortedElement(list, sorted[k]);
    }
    assert Encoded(Pairs(read)) == sorted;
  }

  function HashOf(a: DigestAlgorithm): HashAlgorithm {
    match a
    case Sha256 => HashAlgorithm.Sha256
    case Sha384 => HashAlgorithm.Sha384
  }

  function PrimitiveFor(a: SignatureAlgorithm): Primitive {
    match a
    case RsaPkcs1Sha256 => RsaPkcs1(HashAlgorithm.Sha256)
    case RsaPkcs1Sha384 => RsaPkcs1(HashAlgorithm.Sha384)
    case EcdsaSha256 => Ecdsa(HashAlgorithm.Sha256)
    case EcdsaSha384 => Ecdsa(HashAlgorithm.Sha384)
  }

  lemma AlgorithmTablesAgree(d: DigestAlgorithm, s: SignatureAlgorithm, fallback: HashAlgorithm)
    ensures HashFromOid(DigestOid(d)) == Some(HashOf(d))
    ensures PrimitiveOf(SignatureOid(s), fallback) == Some(PrimitiveFor(s))
  {
    assert Oids.SHA384[8] != Oids.SHA256[8];
    assert Oids.SHA384_WITH_RSA[8] != Oids.SHA256_WITH_RSA[8];
    assert |Oids.ECDSA_WITH_SHA256| != |Oids.SHA256_WITH_RSA| == |Oids.SHA384_WITH_RSA|;
    assert |Oids.SHA512_WITH_RSA| == |Oids.RSA_ENCRYPTION| == |Oids.SHA256_WITH_RSA|;
    assert Oids.ECDSA_WITH_SHA384[7] != Oids.ECDSA_WITH_SHA256[7];
  }

  /**
   What `verify` decides about a written structure, the detached content handed to it afterwards: a
   hash mismatch exactly when that content's digest is not the one signed, and otherwise the verdict
   of the signature primitive over exactly the octets the card signed.
   */
  lemma VerifyDecides(crypto: Crypto, digest: DigestFunction, p: SignerParameters, contentDigest: octets,
                      signature: octets, encapsulation: Encapsulation, content: octets, material: ValidationMaterial,
                      timestamps: seq<octets>, supplied: octets, spki: octets)
    requires Writable(digest, p, contentDigest, signature, encapsulation, content, material, timestamps)
    ensures var parsed := ParsedSignedData(SignedDataDer(p, ToBeSigned(digest, p, contentDigest), signature,
                                                         encapsulation, content, material, timestamps));
      && parsed.Some?
      && var verdict := Verify(crypto, parsed.value.(econtentDer := supplied), spki);
         && (verdict == Err(SignerHashMismatch)
             <==> crypto.digest(HashOf(p.digestAlgorithm), supplied) != contentDigest)
         && (verdict == Ok(())
             <==> crypto.digest(HashOf(p.digestAlgorithm), supplied) == contentDigest
                  && crypto.checks(PrimitiveFor(p.signatureAlgorithm), spki, ToBeSigned(digest, p, contentDigest),
                                   signature))
  {
    SignedDataRoundTrip(digest, p, contentDigest, signature, encapsulation, content, material, timestamps);
    AlgorithmTablesAgree(p.digestAlgorithm, p.signatureAlgorithm, HashOf(p.digestAlgorithm));
  }
}
