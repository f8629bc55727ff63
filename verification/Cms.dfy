/**
 The CMS `SignedData` reader (`cms.rs`).

 Each part of the grammar is described once, over the complete list of a value's children, as a
 function that gives the part or `None`. The reader itself never builds that list: it pulls children
 one at a time, keeps a cursor or a field index, pushes what it finds, and stops at the first thing
 it does not like. Every reader method is proved to accept exactly what the description accepts, and
 to return the same value.
 */
module Cms {
  import opened Octets
  import opened Ber
  import Oids

  datatype CmsError =
    | BerFailure(cause: BerError)
    | UnexpectedStructure(what: string)
    | UnsupportedDigestAlgorithm
    | UnsupportedSignatureAlgorithm
    | SignerHashMismatch
    | SignatureRejected

  datatype SignerIdentifier =
    | IssuerAndSerialNumber(issuerDer: octets, serialNumber: octets)
    | SubjectKeyIdentifier(keyIdentifier: octets)

  datatype SignedAttribute = SignedAttribute(oid: octets, valuesDer: octets)

  datatype SignerInfo = SignerInfo(
    signerIdentifier: SignerIdentifier,
    digestAlgorithmOid: octets,
    signatureAlgorithmOid: octets,
    signature: octets,
    signedDataToVerify: Option<octets>,
    signedAttributes: seq<SignedAttribute>,
    messageDigest: Option<octets>)

  datatype SignedData = SignedData(
    econtentTypeOid: octets,
    econtentDer: octets,
    certificatesDer: seq<octets>,
    signer: SignerInfo)

  datatype ParsedSignedAttributes = ParsedSignedAttributes(
    attributes: seq<SignedAttribute>,
    contentType: Option<octets>,
    messageDigest: Option<octets>)

  const TAG_EF_SOD: byte := 0x77
  const TAG_SUBJECT_KEY_IDENTIFIER: byte := 0x80

  // ----- What is accepted -----

  /** The value of `t` when its tag is `tag`. */
  function ValueOf(t: Tlv, tag: byte): Option<octets> {
    if t.tag == tag then Some(t.value) else None
  }

  /** The value of the one TLV of tag `tag` that `bytes` is. */
  function ExactValue(bytes: octets, tag: byte): Option<octets> {
    if IsOneTlv(bytes) then ValueOf(OnlyTlv(bytes), tag) else None
  }

  function OidValue(t: Tlv): Option<octets> {
    if t.tag == TAG_OID && Oids.IsOid(t.value) then Some(t.value) else None
  }

  /** `AlgorithmIdentifier`: an OID, and at most one more field. */
  function AlgorithmOid(value: octets): Option<octets> {
    var fields :- Children(value);
    if 1 <= |fields| <= 2 then OidValue(fields[0]) else None
  }

  /** What `item` makes of each child, or `None` when a child does not parse or `item` refuses it. */
  function EachChild<T>(item: Tlv -> Option<T>, value: octets): Option<seq<T>> {
    if value == [] then Some([])
    else
      var t := ParseTlv(value);
      if t.Err? then None
      else
        var first :- item(t.value);
        Joined([first], EachChild(item, value[t.value.size..]))
  }

  function Joined<T>(done: seq<T>, rest: Option<seq<T>>): Option<seq<T>> {
    if rest.None? then None else Some(done + rest.value)
  }

  function AlgorithmEntry(t: Tlv): Option<octets> {
    var value :- ValueOf(t, TAG_SEQUENCE);
    AlgorithmOid(value)
  }

  function DigestAlgorithms(t: Tlv): Option<seq<octets>> {
    var value :- ValueOf(t, TAG_SET);
    var oids :- EachChild(AlgorithmEntry, value);
    if oids == [] then None else Some(oids)
  }

  /** The encodings of a value's children, when each has tag `tag`. */
  function EncodingsOf(value: octets, tag: byte): Option<seq<octets>> {
    if value == [] then Some([])
    else
      var t := ParseTlv(value);
      if t.Err? || t.value.tag != tag then None
      else
        Joined([value[..t.value.size]], EncodingsOf(value[t.value.size..], tag))
  }

  /** The certificates field: X.509 certificates only, and at least one. */
  function Certificates(value: octets): Option<seq<octets>> {
    if value == [] then None else EncodingsOf(value, TAG_SEQUENCE)
  }

  predicate IsNonemptyStream(value: octets) {
    value != [] && Children(value).Some?
  }

  /** `EncapsulatedContentInfo`: the type, and the content, which is empty when detached. */
  function EncapsulatedContent(t: Tlv): Option<(octets, octets)> {
    var value :- ValueOf(t, TAG_SEQUENCE);
    var fields :- Children(value);
    if !(1 <= |fields| <= 2) then None
    else
      var contentType :- OidValue(fields[0]);
      if |fields| == 1 then Some((contentType, []))
      else
        var explicit :- ValueOf(fields[1], TAG_CONTEXT_0);
        var content :- ExactValue(explicit, TAG_OCTET_STRING);
        Some((contentType, content))
  }

  /** `Attribute`: an OID and a set of at least one value, nothing else. */
  function AttributeOf(t: Tlv): Option<SignedAttribute> {
    var value :- ValueOf(t, TAG_SEQUENCE);
    var fields :- Children(value);
    if |fields| != 2 then None
    else
      var oid :- OidValue(fields[0]);
      var values :- ValueOf(fields[1], TAG_SET);
      if IsNonemptyStream(values) then Some(SignedAttribute(oid, values)) else None
  }

  /** The attributes of type `oid`, in order. */
  function OfType(attributes: seq<SignedAttribute>, oid: octets): seq<SignedAttribute> {
    if attributes == [] then []
    else (if attributes[0].oid == oid then [attributes[0]] else []) + OfType(attributes[1..], oid)
  }

  /** The single value of the single attribute of type `oid`, of tag `tag`. */
  function UniqueValue(attributes: seq<SignedAttribute>, oid: octets, tag: byte): Option<octets> {
    var matching := OfType(attributes, oid);
    if |matching| == 1 then ExactValue(matching[0].valuesDer, tag) else None
  }

  function UnsignedAttributes(value: octets): Option<seq<SignedAttribute>> {
    EachChild(AttributeOf, value)
  }

  /** Signed attributes: exactly one content type and exactly one message digest among them. */
  function SignedAttributes(value: octets): Option<ParsedSignedAttributes> {
    var attributes :- UnsignedAttributes(value);
    var contentType :- UniqueValue(attributes, Oids.CONTENT_TYPE, TAG_OID);
    var messageDigest :- UniqueValue(attributes, Oids.MESSAGE_DIGEST, TAG_OCTET_STRING);
    if Oids.IsOid(contentType) then
      Some(ParsedSignedAttributes(attributes, Some(contentType), Some(messageDigest)))
    else None
  }

  function SignerIdentifierOf(sid: Tlv, version: octets): Option<SignerIdentifier> {
    if sid.tag == TAG_SEQUENCE then
      var fields :- Children(sid.value);
      if version == [1] && |fields| == 2 && fields[0].tag == TAG_SEQUENCE && fields[1].tag == TAG_INTEGER
        && fields[1].value != [] && fields[0].size <= |sid.value|
      then Some(IssuerAndSerialNumber(sid.value[..fields[0].size], fields[1].value))
      else None
    else if sid.tag == TAG_SUBJECT_KEY_IDENTIFIER && version == [3] && sid.value != [] then
      Some(SubjectKeyIdentifier(sid.value))
    else None
  }

  /** The fields of a `SignerInfo` before its signed attributes are looked into. */
  datatype SignerFields = SignerFields(
    identifier: SignerIdentifier,
    digestOid: octets,
    signedAttrs: Option<octets>,
    signatureOid: octets,
    signature: octets)

  /** What may follow the signature: unsigned attributes, or nothing. */
  predicate IsSignerTrailer(fields: seq<Tlv>) {
    fields == [] || (|fields| == 1 && fields[0].tag == TAG_CONTEXT_1 && UnsignedAttributes(fields[0].value).Some?)
  }

  /** Version, signer identifier and digest algorithm. */
  function SignerHead(fields: seq<Tlv>): Option<(SignerIdentifier, octets)>
    requires |fields| >= 3
  {
    var version :- ValueOf(fields[0], TAG_INTEGER);
    var identifier :- SignerIdentifierOf(fields[1], version);
    var digestOid :- AlgorithmEntry(fields[2]);
    Some((identifier, digestOid))
  }

  /** The optional signed attributes, the signature algorithm, and the signature. */
  function SignatureFields(fields: seq<Tlv>, from: nat): Option<(Option<octets>, octets, octets)> {
    if |fields| <= from then None
    else
      var signedAttrs := ValueOf(fields[from], TAG_CONTEXT_0);
      var at := if signedAttrs.Some? then from + 1 else from;
      if |fields| < at + 2 then None
      else
        var signatureOid :- AlgorithmEntry(fields[at]);
        var signature :- ValueOf(fields[at + 1], TAG_OCTET_STRING);
        if IsSignerTrailer(fields[at + 2..]) then Some((signedAttrs, signatureOid, signature)) else None
  }

  function SignerFieldsOf(fields: seq<Tlv>): Option<SignerFields> {
    if |fields| < 3 then None
    else
      var head :- SignerHead(fields);
      var tail :- SignatureFields(fields, 3);
      Some(SignerFields(head.0, head.1, tail.0, tail.1, tail.2))
  }

  /** `SignerInfo`, its signed attributes re-tagged as the SET that was signed. */
  function SignerInfoOf(body: octets, expectedContentType: octets): Option<SignerInfo> {
    var children :- Children(body);
    var fields :- SignerFieldsOf(children);
    if fields.signedAttrs.None? then
      Some(SignerInfo(fields.identifier, fields.digestOid, fields.signatureOid, fields.signature, None, [], None))
    else
      var attrs := fields.signedAttrs.value;
      var parsed :- SignedAttributes(attrs);
      if parsed.contentType == Some(expectedContentType) then
        Some(SignerInfo(fields.identifier, fields.digestOid, fields.signatureOid, fields.signature,
                        Some(TlvOctets(TAG_SET, attrs)), parsed.attributes, parsed.messageDigest))
      else None
  }

  /** The optional certificates, the optional revocation field, and then the signer set alone. */
  function CertificatesAndSigners(fields: seq<Tlv>): Option<(seq<octets>, octets)> {
    var hasCertificates := fields != [] && fields[0].tag == TAG_CONTEXT_0;
    var certificates :- if hasCertificates then Certificates(fields[0].value) else Some([]);
    var afterCertificates := if hasCertificates then fields[1..] else fields;
    var hasCrls := afterCertificates != [] && afterCertificates[0].tag == TAG_CONTEXT_1;
    if hasCrls && !IsNonemptyStream(afterCertificates[0].value) then None
    else
      var rest := if hasCrls then afterCertificates[1..] else afterCertificates;
      if |rest| != 1 then None
      else
        var signers :- ValueOf(rest[0], TAG_SET);
        Some((certificates, signers))
  }

  function Version(t: Tlv): Option<octets> {
    if t.tag == TAG_INTEGER && t.value != [] then Some(t.value) else None
  }

  /** Version, digest algorithms and encapsulated content. */
  function SignedDataHead(fields: seq<Tlv>): Option<(seq<octets>, octets, octets)>
    requires |fields| >= 3
  {
    var version :- Version(fields[0]);
    var digestOids :- DigestAlgorithms(fields[1]);
    var content :- EncapsulatedContent(fields[2]);
    Some((digestOids, content.0, content.1))
  }

  /** The body of `SignedData`: exactly one signer, whose digest algorithm the digest set names. */
  function SignedDataOf(body: octets): Option<SignedData> {
    var fields :- Children(body);
    if |fields| < 3 then None
    else
      var head :- SignedDataHead(fields);
      var tail :- CertificatesAndSigners(fields[3..]);
      var signerInfo :- ExactValue(tail.1, TAG_SEQUENCE);
      var signer :- SignerInfoOf(signerInfo, head.1);
      if signer.digestAlgorithmOid in head.0 then Some(SignedData(head.1, head.2, tail.0, signer)) else None
  }

  /** The `SignedData` body inside a `ContentInfo`. */
  function ContentInfoBody(input: octets): Option<octets> {
    var outer :- ExactValue(input, TAG_SEQUENCE);
    var fields :- Children(outer);
    if |fields| != 2 then None
    else
      var oid :- OidValue(fields[0]);
      var explicit :- ValueOf(fields[1], TAG_CONTEXT_0);
      if oid == Oids.SIGNED_DATA then ExactValue(explicit, TAG_SEQUENCE) else None
  }

  /** The three wrappings: EF.SOD, `ContentInfo`, and a bare `SignedData`. */
  function Unwrapped(input: octets): Option<octets> {
    if input == [] then None
    else if input[0] == TAG_EF_SOD then
      var inner :- ExactValue(input, TAG_EF_SOD);
      ContentInfoBody(inner)
    else if input[0] == TAG_SEQUENCE then
      var outer :- ExactValue(input, TAG_SEQUENCE);
      var fields :- Children(outer);
      if fields == [] then None
      else if fields[0].tag == TAG_OID then ContentInfoBody(input)
      else Some(outer)
    else None
  }

  function ParsedSignedData(input: octets): Option<SignedData> {
    var body :- Unwrapped(input);
    SignedDataOf(body)
  }

  // ----- Verification -----

  datatype HashAlgorithm = Sha256 | Sha384 | Sha512

  function HashFromOid(oid: octets): Option<HashAlgorithm> {
    if oid == Oids.SHA256 then Some(Sha256)
    else if oid == Oids.SHA384 then Some(Sha384)
    else if oid == Oids.SHA512 then Some(Sha512)
    else None
  }

  /** Which primitive checks the signature, and over which digest of the payload. */
  datatype Primitive = RsaPkcs1(hash: HashAlgorithm) | Ecdsa(hash: HashAlgorithm)

  /** The dispatch on the signature algorithm; a bare key type takes the signer's digest. */
  function PrimitiveOf(signatureOid: octets, fallback: HashAlgorithm): Option<Primitive> {
    if signatureOid == Oids.SHA256_WITH_RSA then Some(RsaPkcs1(Sha256))
    else if signatureOid == Oids.SHA384_WITH_RSA then Some(RsaPkcs1(Sha384))
    else if signatureOid == Oids.SHA512_WITH_RSA then Some(RsaPkcs1(Sha512))
    else if signatureOid == Oids.RSA_ENCRYPTION then Some(RsaPkcs1(fallback))
    else if signatureOid == Oids.ECDSA_WITH_SHA256 then Some(Ecdsa(Sha256))
    else if signatureOid == Oids.ECDSA_WITH_SHA384 then Some(Ecdsa(Sha384))
    else if signatureOid == Oids.ECDSA_WITH_SHA512 then Some(Ecdsa(Sha512))
    else if signatureOid == Oids.EC_PUBLIC_KEY then Some(Ecdsa(fallback))
    else None
  }

  /** The digest of some octets, and whether a signature over a payload checks under a key. */
  datatype Crypto = Crypto(
    digest: (HashAlgorithm, octets) -> octets,
    checks: (Primitive, octets, octets, octets) -> bool)

  function Dispatched(crypto: Crypto, signatureOid: octets, fallback: HashAlgorithm, spki: octets, payload: octets,
                      signature: octets): Result<(), CmsError>
  {
    match PrimitiveOf(signatureOid, fallback)
    case None => Err(UnsupportedSignatureAlgorithm)
    case Some(primitive) =>
      if crypto.checks(primitive, spki, payload, signature) then Ok(()) else Err(SignatureRejected)
  }

  function Verify(crypto: Crypto, sd: SignedData, spki: octets): Result<(), CmsError> {
    match HashFromOid(sd.signer.digestAlgorithmOid)
    case None => Err(UnsupportedDigestAlgorithm)
    case Some(hash) =>
      if sd.signer.signedDataToVerify.Some? && sd.signer.messageDigest.None? then
        Err(UnexpectedStructure("signedAttrs missing messageDigest"))
      else if sd.signer.signedDataToVerify.Some?
        && crypto.digest(hash, sd.econtentDer) != sd.signer.messageDigest.value then
        Err(SignerHashMismatch)
      else
        var payload := if sd.signer.signedDataToVerify.Some? then sd.signer.signedDataToVerify.value
                       else sd.econtentDer;
        Dispatched(crypto, sd.signer.signatureAlgorithmOid, hash, spki, payload, sd.signer.signature)
  }
}
