/**
 The `CAdES` writer (`cades.rs`): the attributes a card signs, and the `SignedData` around its
 signature. Digests are a parameter; the signature is whatever the card returned.

 The functions give each structure as the concatenation of its parts. The methods build the same
 octets the way the source does, appending to growing buffers.
 */
module Cades {
  import opened Octets
  import opened Ber
  import opened DerSet
  import Calendar
  import Oids

  datatype DigestAlgorithm = Sha256 | Sha384

  datatype SignatureAlgorithm = RsaPkcs1Sha256 | RsaPkcs1Sha384 | EcdsaSha256 | EcdsaSha384

  datatype Encapsulation = Detached | Attached

  type DigestFunction = (DigestAlgorithm, octets) -> octets

  /** What the writer takes from a parsed certificate. */
  datatype Certificate = Certificate(rawDer: octets, issuerDer: octets, serialDer: octets)

  datatype SignerParameters = SignerParameters(
    certificate: Certificate,
    digestAlgorithm: DigestAlgorithm,
    signatureAlgorithm: SignatureAlgorithm,
    signingTime: Option<Calendar.SigningTime>)

  datatype ValidationMaterial = ValidationMaterial(
    certificates: seq<octets>,
    ocspResponses: seq<octets>,
    crls: seq<octets>)

  function DigestOid(a: DigestAlgorithm): octets {
    match a
    case Sha256 => Oids.SHA256
    case Sha384 => Oids.SHA384
  }

  function SignatureOid(a: SignatureAlgorithm): octets {
    match a
    case RsaPkcs1Sha256 => Oids.SHA256_WITH_RSA
    case RsaPkcs1Sha384 => Oids.SHA384_WITH_RSA
    case EcdsaSha256 => Oids.ECDSA_WITH_SHA256
    case EcdsaSha384 => Oids.ECDSA_WITH_SHA384
  }

  function DigestIdentifier(a: DigestAlgorithm): octets {
    TlvOctets(TAG_SEQUENCE, TlvOctets(TAG_OID, DigestOid(a)))
  }

  /** RSA carries an explicit NULL parameter, ECDSA none. */
  function SignatureIdentifier(a: SignatureAlgorithm): octets {
    var oid := TlvOctets(TAG_OID, SignatureOid(a));
    TlvOctets(TAG_SEQUENCE, if a.RsaPkcs1Sha256? || a.RsaPkcs1Sha384? then oid + [0x05, 0x00] else oid)
  }

  function Attribute(oid: octets, valueDer: octets): octets {
    TlvOctets(TAG_SEQUENCE, TlvOctets(TAG_OID, oid) + TlvOctets(TAG_SET, valueDer))
  }

  /** `SigningCertificateV2`: the certificate's digest, its algorithm named unless it is SHA-256. */
  function SigningCertificateV2(digest: DigestFunction, p: SignerParameters): octets {
    TlvOctets(TAG_SEQUENCE, TlvOctets(TAG_SEQUENCE, TlvOctets(TAG_SEQUENCE, CertIdBody(digest, p))))
  }

  function CertIdBody(digest: DigestFunction, p: SignerParameters): octets {
    var certHash := TlvOctets(TAG_OCTET_STRING, digest(p.digestAlgorithm, p.certificate.rawDer));
    if p.digestAlgorithm.Sha256? then certHash else DigestIdentifier(p.digestAlgorithm) + certHash
  }

  // ----- Signed attributes -----

  /** The signing time, when one is asserted and `UTCTime` can write it. */
  function UtcTimeOf(p: SignerParameters): Option<octets> {
    if p.signingTime.Some? then Calendar.ToUtcTime(p.signingTime.value) else None
  }

  /** Attribute types and values, in the order they are pushed. */
  function AttributeList(digest: DigestFunction, p: SignerParameters, contentDigest: octets)
    : seq<(octets, octets)>
  {
    [(Oids.CONTENT_TYPE, TlvOctets(TAG_OID, Oids.DATA)),
     (Oids.MESSAGE_DIGEST, TlvOctets(TAG_OCTET_STRING, contentDigest))]
    + (if UtcTimeOf(p).Some? then [(Oids.SIGNING_TIME, TlvOctets(TAG_UTC_TIME, UtcTimeOf(p).value))] else [])
    + [(Oids.SIGNING_CERTIFICATE_V2, SigningCertificateV2(digest, p))]
  }

  function Encoded(attributes: seq<(octets, octets)>): (r: seq<octets>)
    ensures |r| == |attributes|
    ensures forall k :: 0 <= k < |r| ==> r[k] == Attribute(attributes[k].0, attributes[k].1)
  {
    if attributes == [] then []
    else [Attribute(attributes[0].0, attributes[0].1)] + Encoded(attributes[1..])
  }

  /** The contents of the SET: the attributes in DER order. */
  function SignedAttributesBody(digest: DigestFunction, p: SignerParameters, contentDigest: octets): octets {
    Flatten(Sorted(Encoded(AttributeList(digest, p, contentDigest))))
  }

  /** The exact octets the card signs: the attributes as a universal SET. */
  function ToBeSigned(digest: DigestFunction, p: SignerParameters, contentDigest: octets): octets {
    TlvOctets(TAG_SET, SignedAttributesBody(digest, p, contentDigest))
  }

  // ----- SignedData -----

  /** The first octet becomes the implicit `[0]`; nothing else changes. */
  function Retagged(attributes: octets): octets {
    if attributes == [] then [] else [TAG_CONTEXT_0] + attributes[1..]
  }

  function IssuerAndSerial(c: Certificate): octets {
    TlvOctets(TAG_SEQUENCE, c.issuerDer + TlvOctets(TAG_INTEGER, c.serialDer))
  }

  function TimestampAttributes(timestamps: seq<octets>): (r: seq<octets>)
    ensures |r| == |timestamps|
    ensures forall k :: 0 <= k < |r| ==> r[k] == Attribute(Oids.SIGNATURE_TIME_STAMP_TOKEN, timestamps[k])
  {
    if timestamps == [] then []
    else [Attribute(Oids.SIGNATURE_TIME_STAMP_TOKEN, timestamps[0])] + TimestampAttributes(timestamps[1..])
  }

  function SignerInfoParts(p: SignerParameters, attributes: octets, signature: octets, timestamps: seq<octets>)
    : seq<octets>
  {
    [TlvOctets(TAG_INTEGER, [1]),
     IssuerAndSerial(p.certificate),
     DigestIdentifier(p.digestAlgorithm),
     Retagged(attributes),
     SignatureIdentifier(p.signatureAlgorithm),
     TlvOctets(TAG_OCTET_STRING, signature)]
    + (if timestamps == [] then []
       else [TlvOctets(TAG_CONTEXT_1, Flatten(Deduped(Sorted(TimestampAttributes(timestamps)))))])
  }

  function SignerInfoDer(p: SignerParameters, attributes: octets, signature: octets, timestamps: seq<octets>): octets {
    TlvOctets(TAG_SEQUENCE, Flatten(SignerInfoParts(p, attributes, signature, timestamps)))
  }

  function EncapsulatedContentDer(encapsulation: Encapsulation, content: octets): octets {
    var contentType := TlvOctets(TAG_OID, Oids.DATA);
    TlvOctets(TAG_SEQUENCE,
              if encapsulation.Detached? then contentType
              else contentType + TlvOctets(TAG_CONTEXT_0, TlvOctets(TAG_OCTET_STRING, content)))
  }

  /** An OCSP response travels as `other [1]`, its SEQUENCE tag replaced by the `[1]`. */
  function OcspChoice(response: octets): octets {
    TlvOctets(TAG_CONTEXT_1, TlvOctets(TAG_OID, Oids.OCSP_RESPONSE_REVOCATION_INFO) + response)
  }

  function OcspChoices(responses: seq<octets>): (r: seq<octets>)
    ensures |r| == |responses|
    ensures forall k :: 0 <= k < |r| ==> r[k] == OcspChoice(responses[k])
  {
    if responses == [] then [] else [OcspChoice(responses[0])] + OcspChoices(responses[1..])
  }

  /** The signer's certificate and the chain, ordered by encoding, each once. */
  function CertificateSet(p: SignerParameters, material: ValidationMaterial): seq<octets> {
    Deduped(Sorted([p.certificate.rawDer] + material.certificates))
  }

  function RevocationSet(material: ValidationMaterial): seq<octets> {
    Deduped(Sorted(material.crls + OcspChoices(material.ocspResponses)))
  }

  function CmsVersion(material: ValidationMaterial): byte {
    if material.ocspResponses == [] then 1 else 5
  }

  function SignedDataHead(p: SignerParameters, encapsulation: Encapsulation, content: octets,
                          material: ValidationMaterial): seq<octets>
  {
    [TlvOctets(TAG_INTEGER, [CmsVersion(material)]),
     TlvOctets(TAG_SET, DigestIdentifier(p.digestAlgorithm)),
     EncapsulatedContentDer(encapsulation, content),
     TlvOctets(TAG_CONTEXT_0, Flatten(CertificateSet(p, material)))]
  }

  function SignedDataParts(p: SignerParameters, attributes: octets, signature: octets, encapsulation: Encapsulation,
                           content: octets, material: ValidationMaterial, timestamps: seq<octets>): seq<octets>
  {
    SignedDataHead(p, encapsulation, content, material)
    + (if |material.ocspResponses| + |material.crls| > 0
       then [TlvOctets(TAG_CONTEXT_1, Flatten(RevocationSet(material)))] else [])
    + [TlvOctets(TAG_SET, SignerInfoDer(p, attributes, signature, timestamps))]
  }

  function ContentInfoParts(p: SignerParameters, attributes: octets, signature: octets, encapsulation: Encapsulation,
                            content: octets, material: ValidationMaterial, timestamps: seq<octets>): seq<octets>
  {
    var body := Flatten(SignedDataParts(p, attributes, signature, encapsulation, content, material, timestamps));
    [TlvOctets(TAG_OID, Oids.SIGNED_DATA), TlvOctets(TAG_CONTEXT_0, TlvOctets(TAG_SEQUENCE, body))]
  }

  function SignedDataDer(p: SignerParameters, attributes: octets, signature: octets, encapsulation: Encapsulation,
                         content: octets, material: ValidationMaterial, timestamps: seq<octets>): octets
  {
    TlvOctets(TAG_SEQUENCE,
              Flatten(ContentInfoParts(p, attributes, signature, encapsulation, content, material, timestamps)))
  }

  // ----- The writer as written -----

  lemma FlattenMemberBound(parts: seq<octets>, part: octets)
    requires part in parts
    ensures |part| <= |Flatten(parts)|
  {
    var k :| 0 <= k < |parts| && parts[k] == part;
    FlattenPartBound(parts, k);
  }

  /** Appending part number `k` to a buffer that holds the parts before it. */
  method Extend(body: octets, part: octets, ghost parts: seq<octets>, ghost k: nat) returns (longer: octets)
    requires k < |parts| && part == parts[k]
    requires body == Flatten(parts[..k])
    ensures longer == Flatten(parts[..k + 1])
    ensures k + 1 == |parts| ==> longer == Flatten(parts)
  {
    FlattenAppend(parts[..k], part);
    assert parts[..k] + [part] == parts[..k + 1];
    assert parts[..|parts|] == parts;
    longer := body + part;
  }

  /** Octets of a list of parts, appended in turn. */
  method Concatenated(list: seq<octets>) returns (body: octets)
    ensures body == Flatten(list)
  {
    body := [];
    for k := 0 to |list|
      invariant body == Flatten(list[..k])
    {
      body := Extend(body, list[k], list, k);
    }
    assert list[..|list|] == list;
  }

  method WriteAttribute(oid: octets, valueDer: octets) returns (der: octets)
    requires |TlvOctets(TAG_OID, oid) + TlvOctets(TAG_SET, valueDer)| < U32_LIMIT
    ensures der == Attribute(oid, valueDer)
  {
    var body := WriteTlv(TAG_OID, oid);
    var values := WriteTlv(TAG_SET, valueDer);
    body := body + values;
    der := WriteTlv(TAG_SEQUENCE, body);
  }

  /** Sorted parts fit when their concatenation does. */
  lemma SortedPartFits(xs: seq<octets>, part: octets)
    requires part in xs
    ensures |part| <= |Flatten(Sorted(xs))|
    ensures |part| <= |Flatten(Deduped(Sorted(xs)))|
  {
    SortedIsOrderedPermutation(xs);
    assert part in multiset(xs);
    assert part in multiset(Sorted(xs));
    DedupedIsStrict(Sorted(xs));
    FlattenMemberBound(Sorted(xs), part);
    FlattenMemberBound(Deduped(Sorted(xs)), part);
  }

  lemma AttributeFits(digest: DigestFunction, p: SignerParameters, contentDigest: octets, k: nat)
    requires k < |AttributeList(digest, p, contentDigest)|
    ensures var a := AttributeList(digest, p, contentDigest)[k];
      |Attribute(a.0, a.1)| <= |SignedAttributesBody(digest, p, contentDigest)|
  {
    var encoded := Encoded(AttributeList(digest, p, contentDigest));
    assert encoded[k] in encoded;
    SortedPartFits(encoded, encoded[k]);
  }

  method SignedAttributes(digest: DigestFunction, p: SignerParameters, contentDigest: octets) returns (der: octets)
    requires |SignedAttributesBody(digest, p, contentDigest)| < U32_LIMIT
    ensures der == ToBeSigned(digest, p, contentDigest)
  {
    ghost var list := AttributeList(digest, p, contentDigest);
    forall k | 0 <= k < |list|
      ensures |Attribute(list[k].0, list[k].1)| < U32_LIMIT
    {
      AttributeFits(digest, p, contentDigest, k);
    }
    var attributes := PushAttributes(digest, p, contentDigest);
    attributes := Sorted(attributes);
    var body := Concatenated(attributes);
    der := WriteTlv(TAG_SET, body);
  }

  /** An attribute is longer than everything inside it. */
  lemma AttributeIsLonger(oid: octets, valueDer: octets)
    ensures |TlvOctets(TAG_OID, oid) + TlvOctets(TAG_SET, valueDer)| < |Attribute(oid, valueDer)|
    ensures |valueDer| < |Attribute(oid, valueDer)|
  {
    TlvIsLonger(TAG_SEQUENCE, TlvOctets(TAG_OID, oid) + TlvOctets(TAG_SET, valueDer));
    TlvIsLonger(TAG_SET, valueDer);
  }

  lemma {:induction false} EncodedAppend(list: seq<(octets, octets)>, last: (octets, octets))
    ensures Encoded(list + [last]) == Encoded(list) + [Attribute(last.0, last.1)]
  {
  }

  /** Attribute number `|attributes|` of `list`, behind those already pushed. */
  method PushAttribute(attributes: seq<octets>, oid: octets, valueDer: octets, ghost list: seq<(octets, octets)>)
    returns (longer: seq<octets>)
    requires |attributes| < |list| && attributes == Encoded(list[..|attributes|])
    requires list[|attributes|] == (oid, valueDer) && |Attribute(oid, valueDer)| < U32_LIMIT
    ensures |longer| == |attributes| + 1 && longer == Encoded(list[..|longer|])
  {
    AttributeIsLonger(oid, valueDer);
    hide *;
    var attribute := WriteAttribute(oid, valueDer);
    EncodedAppend(list[..|attributes|], (oid, valueDer));
    assert list[..|attributes| + 1] == list[..|attributes|] + [(oid, valueDer)];
    longer := attributes + [attribute];
  }

  /** What each position of the list holds, and that its value fits when its attribute does. */
  lemma AttributesInTurn(digest: DigestFunction, p: SignerParameters, contentDigest: octets,
                         list: seq<(octets, octets)>)
    requires list == AttributeList(digest, p, contentDigest)
    requires forall a :: a in list ==> |Attribute(a.0, a.1)| < U32_LIMIT
    ensures |list| == if UtcTimeOf(p).Some? then 4 else 3
    ensures list[0] == (Oids.CONTENT_TYPE, TlvOctets(TAG_OID, Oids.DATA))
    ensures list[1] == (Oids.MESSAGE_DIGEST, TlvOctets(TAG_OCTET_STRING, contentDigest))
    ensures UtcTimeOf(p).Some? ==> list[2] == (Oids.SIGNING_TIME, TlvOctets(TAG_UTC_TIME, UtcTimeOf(p).value))
    ensures list[|list| - 1] == (Oids.SIGNING_CERTIFICATE_V2, SigningCertificateV2(digest, p))
    ensures forall k :: 0 <= k < |list| ==> |Attribute(list[k].0, list[k].1)| < U32_LIMIT
    ensures forall k :: 0 <= k < |list| ==> |list[k].1| < U32_LIMIT
  {
    hide TlvOctets, SigningCertificateV2, UtcTimeOf, Attribute;
    forall k | 0 <= k < |list|
      ensures |list[k].1| < U32_LIMIT
    {
      assert list[k] in list;
      AttributeIsLonger(list[k].0, list[k].1);
    }
  }

  method PushAttributes(digest: DigestFunction, p: SignerParameters, contentDigest: octets)
    returns (attributes: seq<octets>)
    requires forall a :: a in AttributeList(digest, p, contentDigest) ==> |Attribute(a.0, a.1)| < U32_LIMIT
    ensures attributes == Encoded(AttributeList(digest, p, contentDigest))
  {
    ghost var list := AttributeList(digest, p, contentDigest);
    AttributesInTurn(digest, p, contentDigest, list);
    assert Encoded(list[..0]) == [];
    TlvIsLonger(TAG_OCTET_STRING, contentDigest);
    hide *;
    var contentType := WriteTlv(TAG_OID, Oids.DATA);
    attributes := PushAttribute([], Oids.CONTENT_TYPE, contentType, list);
    var messageDigest := WriteTlv(TAG_OCTET_STRING, contentDigest);
    attributes := PushAttribute(attributes, Oids.MESSAGE_DIGEST, messageDigest, list);
    var time := UtcTimeOf(p);
    if time.Some? {
      TlvIsLonger(TAG_UTC_TIME, time.value);
      var utcTime := WriteTlv(TAG_UTC_TIME, time.value);
      attributes := PushAttribute(attributes, Oids.SIGNING_TIME, utcTime, list);
    }
    attributes := PushAttribute(attributes, Oids.SIGNING_CERTIFICATE_V2, SigningCertificateV2(digest, p), list);
    assert list[..|list|] == list;
  }

  method Retag(attributes: octets) returns (tagged: octets)
    ensures tagged == Retagged(attributes)
  {
    tagged := attributes;
    if tagged != [] {
      tagged := tagged[0 := TAG_CONTEXT_0];
    }
  }

  method SignerInfo(p: SignerParameters, attributes: octets, signature: octets, timestamps: seq<octets>)
    returns (der: octets)
    requires |Flatten(SignerInfoParts(p, attributes, signature, timestamps))| < U32_LIMIT
    ensures der == SignerInfoDer(p, attributes, signature, timestamps)
  {
    ghost var parts := SignerInfoParts(p, attributes, signature, timestamps);
    var body: octets := [];
    assert body == Flatten(parts[..0]);
    hide LengthOctets, Sorted, Deduped, Flatten;
    FlattenPartBound(parts, 5);
    var version := WriteTlv(TAG_INTEGER, [1]);
    body := Extend(body, version, parts, 0);
    body := Extend(body, IssuerAndSerial(p.certificate), parts, 1);
    body := Extend(body, DigestIdentifier(p.digestAlgorithm), parts, 2);
    var tagged := Retag(attributes);
    body := Extend(body, tagged, parts, 3);
    body := Extend(body, SignatureIdentifier(p.signatureAlgorithm), parts, 4);
    var signatureDer := WriteTlv(TAG_OCTET_STRING, signature);
    body := Extend(body, signatureDer, parts, 5);
    if timestamps != [] {
      FlattenPartBound(parts, 6);
      var unsignedDer := WriteSetOf(TAG_CONTEXT_1, TimestampAttributes(timestamps));
      body := Extend(body, unsignedDer, parts, 6);
    }
    der := WriteTlv(TAG_SEQUENCE, body);
  }

  /** An implicitly tagged SET OF: ordered by encoding, each element once. */
  method WriteSetOf(tag: byte, elements: seq<octets>) returns (der: octets)
    requires |Flatten(Deduped(Sorted(elements)))| < U32_LIMIT
    ensures der == TlvOctets(tag, Flatten(Deduped(Sorted(elements))))
  {
    var ordered := Sorted(elements);
    ordered := Deduped(ordered);
    var body := Concatenated(ordered);
    der := WriteTlv(tag, body);
  }

  /** Version, digest algorithm, content and certificates: the fields that are always there. */
  method WriteSignedDataHead(p: SignerParameters, encapsulation: Encapsulation, content: octets,
                             material: ValidationMaterial, ghost parts: seq<octets>) returns (body: octets)
    requires |parts| >= 4 && |Flatten(parts)| < U32_LIMIT
    requires parts[..4] == SignedDataHead(p, encapsulation, content, material)
    ensures body == Flatten(parts[..4])
  {
    ghost var head := SignedDataHead(p, encapsulation, content, material);
    assert forall k :: 0 <= k < 4 ==> head[k] == parts[k];
    FlattenPartBound(parts, 1);
    FlattenPartBound(parts, 3);
    TlvIsLonger(TAG_SET, DigestIdentifier(p.digestAlgorithm));
    TlvIsLonger(TAG_CONTEXT_0, Flatten(CertificateSet(p, material)));
    body := [];
    assert body == Flatten(parts[..0]);
    hide TlvOctets, LengthOctets, Sorted, Deduped, Flatten, DigestIdentifier;
    var versionDer := WriteTlv(TAG_INTEGER, [if material.ocspResponses == [] then 1 else 5]);
    body := Extend(body, versionDer, parts, 0);
    var digestSet := WriteTlv(TAG_SET, DigestIdentifier(p.digestAlgorithm));
    body := Extend(body, digestSet, parts, 1);
    body := Extend(body, EncapsulatedContentDer(encapsulation, content), parts, 2);
    var certificates := WriteSetOf(TAG_CONTEXT_0, [p.certificate.rawDer] + material.certificates);
    body := Extend(body, certificates, parts, 3);
  }

  method WriteSignedDataBody(p: SignerParameters, attributes: octets, signature: octets, encapsulation: Encapsulation,
                             content: octets, material: ValidationMaterial, timestamps: seq<octets>)
    returns (body: octets)
    requires |Flatten(SignedDataParts(p, attributes, signature, encapsulation, content, material, timestamps))|
      < U32_LIMIT
    ensures body == Flatten(SignedDataParts(p, attributes, signature, encapsulation, content, material, timestamps))
  {
    ghost var parts := SignedDataParts(p, attributes, signature, encapsulation, content, material, timestamps);
    ghost var last := |parts| - 1;
    FlattenPartBound(parts, 4);
    FlattenPartBound(parts, last);
    TlvIsLonger(TAG_CONTEXT_1, Flatten(RevocationSet(material)));
    TlvIsLonger(TAG_SET, SignerInfoDer(p, attributes, signature, timestamps));
    TlvIsLonger(TAG_SEQUENCE, Flatten(SignerInfoParts(p, attributes, signature, timestamps)));
    hide TlvOctets, LengthOctets, Sorted, Deduped, Flatten, OcspChoices, DigestIdentifier;
    body := WriteSignedDataHead(p, encapsulation, content, material, parts);
    if |material.ocspResponses| + |material.crls| > 0 {
      var choices := WriteSetOf(TAG_CONTEXT_1, material.crls + OcspChoices(material.ocspResponses));
      body := Extend(body, choices, parts, 4);
    }
    var signer := SignerInfo(p, attributes, signature, timestamps);
    var signerSet := WriteTlv(TAG_SET, signer);
    body := Extend(body, signerSet, parts, last);
  }

  method WriteSignedData(p: SignerParameters, attributes: octets, signature: octets, encapsulation: Encapsulation,
                         content: octets, material: ValidationMaterial, timestamps: seq<octets>) returns (der: octets)
    requires |Flatten(ContentInfoParts(p, attributes, signature, encapsulation, content, material, timestamps))|
      < U32_LIMIT
    ensures der == SignedDataDer(p, attributes, signature, encapsulation, content, material, timestamps)
  {
    ghost var outer := ContentInfoParts(p, attributes, signature, encapsulation, content, material, timestamps);
    FlattenPartBound(outer, 1);
    var body := WriteSignedDataBody(p, attributes, signature, encapsulation, content, material, timestamps);
    var signedDataDer := WriteTlv(TAG_SEQUENCE, body);
    var contentType := WriteTlv(TAG_OID, Oids.SIGNED_DATA);
    var explicit := WriteTlv(TAG_CONTEXT_0, signedDataDer);
    assert outer == [contentType, explicit];
    var contentInfo := Concatenated([contentType, explicit]);
    der := WriteTlv(TAG_SEQUENCE, contentInfo);
  }
}
