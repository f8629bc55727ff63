/** The reader methods of `cms.rs`, proved to accept exactly what `Cms` describes. */
module CmsReader {
  import opened Octets
  import opened Ber
  import opened Cms
  import Oids

  /** The next child, or an error when there is none or it does not parse. */
  method NextField(it: BerTlvIter, missing: string) returns (r: Result<Tlv, CmsError>)
    modifies it
    ensures r.Err? ==> Children(old(it.remaining)) in {None, Some([])}
    ensures r.Ok? ==> Children(old(it.remaining)) == Joined([r.value], Children(it.remaining))
    ensures r.Ok? ==> ParseTlv(old(it.remaining)) == Ok(r.value)
    ensures r.Ok? ==> it.remaining == old(it.remaining)[r.value.size..]
  {
    var item := it.Next();
    if item.None? {
      return Err(UnexpectedStructure(missing));
    }
    if item.value.Err? {
      return Err(BerFailure(item.value.error));
    }
    return Ok(item.value.value);
  }

  /** `remaining` holds the children from number `k` on. */
  ghost predicate At(all: Option<seq<Tlv>>, k: nat, remaining: octets) {
    if all.None? then Children(remaining).None?
    else k <= |all.value| && Children(remaining) == Some(all.value[k..])
  }

  /** `NextField`, told by number which child comes next. */
  method NextAt(it: BerTlvIter, ghost all: Option<seq<Tlv>>, ghost k: nat, missing: string)
    returns (r: Result<Tlv, CmsError>)
    requires At(all, k, it.remaining)
    modifies it
    ensures r.Err? ==> all.None? || |all.value| <= k
    ensures r.Ok? ==> At(all, k + 1, it.remaining)
    ensures r.Ok? ==> all.Some? ==> k < |all.value| && r.value == all.value[k]
    ensures r.Ok? ==> |r.value.value| < U32_LIMIT
  {
    r := NextField(it, missing);
    if r.Ok? && all.Some? {
      assert all.value[k..] == [r.value] + Children(it.remaining).value;
      assert all.value[k + 1..] == all.value[k..][1..];
    }
  }

  /** Whether anything is left, well-formed or not. */
  method HasMore(it: BerTlvIter) returns (more: bool)
    modifies it
    ensures more <==> old(it.remaining) != []
    ensures !more <==> Children(old(it.remaining)) == Some([])
  {
    var item := it.Next();
    more := item.Some?;
  }

  method Expect(t: Tlv, tag: byte, what: string) returns (r: Result<octets, CmsError>)
    ensures r.Accepted() == ValueOf(t, tag)
  {
    if t.tag != tag {
      return Err(UnexpectedStructure(what));
    }
    return Ok(t.value);
  }

  method ExpectOid(t: Tlv, what: string) returns (r: Result<octets, CmsError>)
    ensures r.Accepted() == OidValue(t)
  {
    if t.tag != TAG_OID || t.value == [] || t.value[|t.value| - 1] >= 0x80 {
      return Err(UnexpectedStructure(what));
    }
    return Ok(t.value);
  }

  /** One typed TLV and no octet after it. */
  method ParseExact(input: octets, tag: byte, trailing: string) returns (r: Result<octets, CmsError>)
    ensures r.Accepted() == ExactValue(input, tag)
  {
    var t := Parse(input);
    if t.Err? {
      return Err(BerFailure(t.error));
    }
    if t.value.tag != tag {
      return Err(UnexpectedStructure("unexpected tag"));
    }
    if t.value.size != |input| {
      return Err(UnexpectedStructure(trailing));
    }
    return Ok(t.value.value);
  }

  method ParseAlgorithmIdentifier(value: octets) returns (r: Result<octets, CmsError>)
    ensures r.Accepted() == AlgorithmOid(value)
  {
    var it := new BerTlvIter(value);
    var first :- NextField(it, "AlgorithmIdentifier missing OID");
    var oid :- ExpectOid(first, "AlgorithmIdentifier algorithm not OID");
    var parameters := it.Next();
    if parameters.Some? {
      if parameters.value.Err? {
        return Err(BerFailure(parameters.value.error));
      }
      var extra := it.Next();
      if extra.Some? {
        if extra.value.Err? {
          return Err(BerFailure(extra.value.error));
        }
        return Err(UnexpectedStructure("AlgorithmIdentifier has trailing fields"));
      }
    }
    return Ok(oid);
  }

  lemma JoinedStep<T>(done: seq<T>, next: T, rest: Option<seq<T>>)
    ensures Joined(done, Joined([next], rest)) == Joined(done + [next], rest)
  {
    if rest.Some? {
      assert done + ([next] + rest.value) == done + [next] + rest.value;
    }
  }

  lemma JoinedEnd<T>(done: seq<T>)
    ensures Joined(done, Some([])) == Some(done)
    ensures forall rest: Option<seq<T>> :: Joined([], rest) == rest
  {
    assert done + [] == done;
    forall rest: Option<seq<T>> | rest.Some?
      ensures Joined([], rest) == rest
    {
      assert [] + rest.value == rest.value;
    }
  }

  method ParseDigestAlgorithms(t: Tlv) returns (r: Result<seq<octets>, CmsError>)
    ensures r.Accepted() == DigestAlgorithms(t)
  {
    var value :- Expect(t, TAG_SET, "SignedData digestAlgorithms not SET");
    var algorithms: seq<octets> := [];
    var it := new BerTlvIter(value);
    JoinedEnd(algorithms);
    while true
      invariant EachChild(AlgorithmEntry, value) == Joined(algorithms, EachChild(AlgorithmEntry, it.remaining))
      decreases |it.remaining|
    {
      var item := it.Next();
      if item.None? {
        break;
      }
      if item.value.Err? {
        return Err(BerFailure(item.value.error));
      }
      var sequence :- Expect(item.value.value, TAG_SEQUENCE, "digestAlgorithms entry not SEQUENCE");
      var oid :- ParseAlgorithmIdentifier(sequence);
      JoinedStep(algorithms, oid, EachChild(AlgorithmEntry, it.remaining));
      algorithms := algorithms + [oid];
    }
    JoinedEnd(algorithms);
    if algorithms == [] {
      return Err(UnexpectedStructure("digestAlgorithms is empty"));
    }
    return Ok(algorithms);
  }

  method ParseCertificates(certificates: octets) returns (r: Result<seq<octets>, CmsError>)
    ensures r.Accepted() == Certificates(certificates)
  {
    if certificates == [] {
      return Err(UnexpectedStructure("empty certificates field"));
    }
    var result: seq<octets> := [];
    var cursor := 0;
    assert certificates[0..] == certificates;
    JoinedEnd(result);
    while cursor < |certificates|
      invariant 0 <= cursor <= |certificates|
      invariant EncodingsOf(certificates, TAG_SEQUENCE)
        == Joined(result, EncodingsOf(certificates[cursor..], TAG_SEQUENCE))
    {
      var tail := certificates[cursor..];
      var parsed := Parse(tail);
      if parsed.Err? {
        return Err(BerFailure(parsed.error));
      }
      var certificate := parsed.value;
      if certificate.tag != TAG_SEQUENCE {
        return Err(UnexpectedStructure("unsupported CMS CertificateChoices entry"));
      }
      var end := cursor + certificate.size;
      assert tail[certificate.size..] == certificates[end..];
      assert tail[..certificate.size] == certificates[cursor..end];
      JoinedStep(result, certificates[cursor..end], EncodingsOf(certificates[end..], TAG_SEQUENCE));
      result := result + [certificates[cursor..end]];
      cursor := end;
    }
    JoinedEnd(result);
    return Ok(result);
  }

  method ValidateNonemptyTlvStream(values: octets, empty: string) returns (r: Result<nat, CmsError>)
    ensures r.Ok? <==> IsNonemptyStream(values)
  {
    var count := 0;
    var it := new BerTlvIter(values);
    while true
      invariant Children(values).Some? <==> Children(it.remaining).Some?
      invariant count == 0 ==> it.remaining == values
      invariant count > 0 ==> values != []
      decreases |it.remaining|
    {
      var item := it.Next();
      if item.None? {
        break;
      }
      if item.value.Err? {
        return Err(BerFailure(item.value.error));
      }
      count := count + 1;
    }
    if count == 0 {
      return Err(UnexpectedStructure(empty));
    }
    return Ok(count);
  }

  /** The OID and the value set of one attribute. */
  method ParseAttribute(t: Tlv) returns (r: Result<SignedAttribute, CmsError>)
    ensures r.Accepted() == AttributeOf(t)
  {
    var value :- Expect(t, TAG_SEQUENCE, "attribute not SEQUENCE");
    var it := new BerTlvIter(value);
    var first :- NextField(it, "attribute missing OID");
    var oid :- ExpectOid(first, "attribute type not OID");
    var second :- NextField(it, "attribute missing values");
    var values :- Expect(second, TAG_SET, "attribute values not SET");
    var more := HasMore(it);
    if more {
      return Err(UnexpectedStructure("attribute has trailing fields"));
    }
    var _ :- ValidateNonemptyTlvStream(values, "attribute value set is empty");
    return Ok(SignedAttribute(oid, values));
  }

  lemma Associative<T>(x: seq<T>, y: seq<T>, z: seq<T>)
    ensures x + y + z == x + (y + z)
  {
  }

  lemma OfTypeHead(a: seq<SignedAttribute>, oid: octets)
    requires a != []
    ensures OfType(a, oid) == (if a[0].oid == oid then [a[0]] else []) + OfType(a[1..], oid)
  {
  }

  lemma {:induction false} OfTypeConcatenation(a: seq<SignedAttribute>, b: seq<SignedAttribute>, oid: octets)
    ensures OfType(a + b, oid) == OfType(a, oid) + OfType(b, oid)
  {
    if a == [] {
      assert a + b == b;
    } else {
      OfTypeHead(a, oid);
      OfTypeHead(a + b, oid);
      OfTypeConcatenation(a[1..], b, oid);
      assert (a + b)[1..] == a[1..] + b;
      hide *;
      if a[0].oid == oid {
        Associative([a[0]], OfType(a[1..], oid), OfType(b, oid));
      } else {
        Associative([], OfType(a[1..], oid), OfType(b, oid));
      }
    }
  }

  /** What the reader has recorded about one mandatory attribute after `seen`. */
  ghost predicate Recorded(seen: seq<SignedAttribute>, oid: octets, tag: byte, value: Option<octets>) {
    if value.None? then OfType(seen, oid) == []
    else |OfType(seen, oid)| == 1 && ExactValue(OfType(seen, oid)[0].valuesDer, tag) == value
  }

  /** One more attribute: of another type, of this type for the first time, or spoiling the set. */
  lemma RecordedStep(seen: seq<SignedAttribute>, next: SignedAttribute, rest: seq<SignedAttribute>,
                     oid: octets, tag: byte, value: Option<octets>)
    requires Recorded(seen, oid, tag, value)
    ensures next.oid != oid ==> Recorded(seen + [next], oid, tag, value)
    ensures next.oid == oid && value.None? && ExactValue(next.valuesDer, tag).Some?
      ==> Recorded(seen + [next], oid, tag, ExactValue(next.valuesDer, tag))
    ensures next.oid == oid && (value.Some? || ExactValue(next.valuesDer, tag).None?)
      ==> UniqueValue(seen + [next] + rest, oid, tag).None?
    ensures next.oid == oid
      ==> UniqueValue(seen + [next] + rest, oid, tag) in {None, ExactValue(next.valuesDer, tag)}
  {
    OfTypeConcatenation(seen + [next], rest, oid);
    OfTypeConcatenation(seen, [next], oid);
    assert OfType([next], oid) == if next.oid == oid then [next] else [];
  }

  method RecordContentType(values: octets, contentType: Option<octets>) returns (r: Result<octets, CmsError>)
    ensures r.Ok? <==> contentType.None? && ExactValue(values, TAG_OID).Some?
                       && Oids.IsOid(ExactValue(values, TAG_OID).value)
    ensures r.Ok? ==> ExactValue(values, TAG_OID) == Some(r.value)
  {
    if contentType.Some? {
      return Err(UnexpectedStructure("duplicate signed contentType attribute"));
    }
    var oid :- ParseExact(values, TAG_OID, "contentType attribute has multiple values");
    if oid == [] || oid[|oid| - 1] >= 0x80 {
      return Err(UnexpectedStructure("contentType attribute OID malformed"));
    }
    return Ok(oid);
  }

  method RecordMessageDigest(values: octets, messageDigest: Option<octets>) returns (r: Result<octets, CmsError>)
    ensures r.Ok? <==> messageDigest.None? && ExactValue(values, TAG_OCTET_STRING).Some?
    ensures r.Ok? ==> ExactValue(values, TAG_OCTET_STRING) == Some(r.value)
  {
    if messageDigest.Some? {
      return Err(UnexpectedStructure("duplicate signed messageDigest attribute"));
    }
    r := ParseExact(values, TAG_OCTET_STRING, "messageDigest attribute has multiple values");
  }

  ghost predicate BothRecorded(seen: seq<SignedAttribute>, contentType: Option<octets>, messageDigest: Option<octets>) {
    && Recorded(seen, Oids.CONTENT_TYPE, TAG_OID, contentType)
    && Recorded(seen, Oids.MESSAGE_DIGEST, TAG_OCTET_STRING, messageDigest)
    && (contentType.Some? ==> Oids.IsOid(contentType.value))
  }

  /** Whether a complete run of attributes meets the mandatory rule, and with which values. */
  ghost function Judged(attributes: Option<seq<SignedAttribute>>): Option<ParsedSignedAttributes> {
    var all :- attributes;
    var contentType :- UniqueValue(all, Oids.CONTENT_TYPE, TAG_OID);
    var messageDigest :- UniqueValue(all, Oids.MESSAGE_DIGEST, TAG_OCTET_STRING);
    if Oids.IsOid(contentType) then Some(ParsedSignedAttributes(all, Some(contentType), Some(messageDigest))) else None
  }

  lemma MandatoryStep(seen: seq<SignedAttribute>, next: SignedAttribute, rest: Option<seq<SignedAttribute>>,
                      contentType: Option<octets>, messageDigest: Option<octets>)
    requires BothRecorded(seen, contentType, messageDigest)
    ensures var oid := ExactValue(next.valuesDer, TAG_OID);
      next.oid == Oids.CONTENT_TYPE ==>
        if contentType.None? && oid.Some? && Oids.IsOid(oid.value)
        then BothRecorded(seen + [next], oid, messageDigest)
        else Judged(Joined(seen, Joined([next], rest))).None?
    ensures var digest := ExactValue(next.valuesDer, TAG_OCTET_STRING);
      next.oid == Oids.MESSAGE_DIGEST ==>
        if messageDigest.None? && digest.Some?
        then BothRecorded(seen + [next], contentType, digest)
        else Judged(Joined(seen, Joined([next], rest))).None?
    ensures next.oid !in {Oids.CONTENT_TYPE, Oids.MESSAGE_DIGEST}
      ==> BothRecorded(seen + [next], contentType, messageDigest)
  {
    assert Oids.CONTENT_TYPE[8] != Oids.MESSAGE_DIGEST[8];
    JoinedStep(seen, next, rest);
    var tail := if rest.Some? then rest.value else [];
    RecordedStep(seen, next, tail, Oids.CONTENT_TYPE, TAG_OID, contentType);
    RecordedStep(seen, next, tail, Oids.MESSAGE_DIGEST, TAG_OCTET_STRING, messageDigest);
  }

  lemma JudgedIsSignedAttributes(value: octets)
    ensures Judged(EachChild(AttributeOf, value)) == SignedAttributes(value)
  {
  }

  method ParseAttributes(value: octets, mandatory: bool) returns (r: Result<ParsedSignedAttributes, CmsError>)
    ensures mandatory ==> r.Accepted() == SignedAttributes(value)
    ensures !mandatory ==> (r.Ok? <==> UnsignedAttributes(value).Some?)
  {
    var attributes: seq<SignedAttribute> := [];
    var contentType: Option<octets> := None;
    var messageDigest: Option<octets> := None;
    var it := new BerTlvIter(value);
    JoinedEnd(attributes);
    JudgedIsSignedAttributes(value);
    while true
      invariant EachChild(AttributeOf, value) == Joined(attributes, EachChild(AttributeOf, it.remaining))
      invariant mandatory ==> BothRecorded(attributes, contentType, messageDigest)
      decreases |it.remaining|
    {
      var item := it.Next();
      if item.None? {
        break;
      }
      if item.value.Err? {
        return Err(BerFailure(item.value.error));
      }
      var attribute :- ParseAttribute(item.value.value);
      JoinedStep(attributes, attribute, EachChild(AttributeOf, it.remaining));
      if mandatory {
        MandatoryStep(attributes, attribute, EachChild(AttributeOf, it.remaining), contentType, messageDigest);
        if attribute.oid == Oids.CONTENT_TYPE {
          var oid :- RecordContentType(attribute.valuesDer, contentType);
          contentType := Some(oid);
        } else if attribute.oid == Oids.MESSAGE_DIGEST {
          var digest :- RecordMessageDigest(attribute.valuesDer, messageDigest);
          messageDigest := Some(digest);
        }
      }
      attributes := attributes + [attribute];
    }
    JoinedEnd(attributes);
    if mandatory && contentType.None? {
      return Err(UnexpectedStructure("signedAttrs missing contentType"));
    }
    if mandatory && messageDigest.None? {
      return Err(UnexpectedStructure("signedAttrs missing messageDigest"));
    }
    return Ok(ParsedSignedAttributes(attributes, contentType, messageDigest));
  }

  method ParseSignerIdentifier(sid: Tlv, version: octets) returns (r: Result<SignerIdentifier, CmsError>)
    ensures r.Accepted() == SignerIdentifierOf(sid, version)
  {
    if sid.tag == TAG_SEQUENCE {
      if version != [1] {
        return Err(UnexpectedStructure("issuerAndSerialNumber signerInfo version is not 1"));
      }
      var it := new BerTlvIter(sid.value);
      var issuer :- NextField(it, "sid missing issuer");
      var _ :- Expect(issuer, TAG_SEQUENCE, "sid issuer is not Name SEQUENCE");
      var second :- NextField(it, "sid missing serialNumber");
      var serial :- Expect(second, TAG_INTEGER, "sid serialNumber not INTEGER");
      var more := HasMore(it);
      if serial == [] || more {
        return Err(UnexpectedStructure("issuerAndSerialNumber malformed"));
      }
      return Ok(IssuerAndSerialNumber(sid.value[..issuer.size], serial));
    } else if sid.tag == TAG_SUBJECT_KEY_IDENTIFIER {
      if version != [3] {
        return Err(UnexpectedStructure("subjectKeyIdentifier signerInfo version is not 3"));
      }
      if sid.value == [] {
        return Err(UnexpectedStructure("subjectKeyIdentifier is empty"));
      }
      return Ok(SubjectKeyIdentifier(sid.value));
    } else {
      return Err(UnexpectedStructure("unsupported SignerIdentifier choice"));
    }
  }

  /** The unsigned attributes, if any, and nothing after them. */
  method ParseSignerTrailer(it: BerTlvIter) returns (r: Result<bool, CmsError>)
    modifies it
    ensures r.Ok? <==> Children(old(it.remaining)).Some? && IsSignerTrailer(Children(old(it.remaining)).value)
  {
    var unsigned := it.Next();
    if unsigned.Some? {
      if unsigned.value.Err? {
        return Err(BerFailure(unsigned.value.error));
      }
      if unsigned.value.value.tag != TAG_CONTEXT_1 {
        return Err(UnexpectedStructure("signerInfo trailing field is not unsignedAttrs"));
      }
      var _ :- ParseAttributes(unsigned.value.value.value, false);
    }
    var more := HasMore(it);
    if more {
      return Err(UnexpectedStructure("signerInfo has trailing fields"));
    }
    return Ok(true);
  }

  method ParseAlgorithmEntry(t: Tlv, what: string) returns (r: Result<octets, CmsError>)
    ensures r.Accepted() == AlgorithmEntry(t)
  {
    var value :- Expect(t, TAG_SEQUENCE, what);
    r := ParseAlgorithmIdentifier(value);
  }

  method ParseSignerHead(it: BerTlvIter, ghost all: Option<seq<Tlv>>)
    returns (r: Result<(SignerIdentifier, octets), CmsError>)
    requires At(all, 0, it.remaining)
    modifies it
    ensures all.Some? ==> r.Accepted() == if |all.value| < 3 then None else SignerHead(all.value)
    ensures r.Ok? ==> At(all, 3, it.remaining)
  {
    var first :- NextAt(it, all, 0, "signerInfo missing version");
    var version :- Expect(first, TAG_INTEGER, "signerInfo version not INTEGER");
    var sid :- NextAt(it, all, 1, "signerInfo missing sid");
    var identifier :- ParseSignerIdentifier(sid, version);
    var third :- NextAt(it, all, 2, "signerInfo missing digestAlgorithm");
    var digestOid :- ParseAlgorithmEntry(third, "digestAlgorithm not SEQUENCE");
    return Ok((identifier, digestOid));
  }

  method ParseSignatureFields(it: BerTlvIter, ghost all: Option<seq<Tlv>>)
    returns (r: Result<(Option<octets>, octets, octets), CmsError>)
    requires At(all, 3, it.remaining)
    modifies it
    ensures r.Accepted() == if all.None? then None else SignatureFields(all.value, 3)
    ensures r.Ok? && r.value.0.Some? ==> |r.value.0.value| < U32_LIMIT
  {
    ghost var at := 3;
    var afterDigest :- NextAt(it, all, at, "signerInfo missing signature material");
    var signedAttrs: Option<octets> := None;
    var signatureAlgorithm := afterDigest;
    if afterDigest.tag == TAG_CONTEXT_0 {
      at := 4;
      signedAttrs := Some(afterDigest.value);
      signatureAlgorithm :- NextAt(it, all, at, "signerInfo missing signatureAlgorithm");
    }
    var signatureOid :- ParseAlgorithmEntry(signatureAlgorithm, "signatureAlgorithm not SEQUENCE");
    var octetString :- NextAt(it, all, at + 1, "signerInfo missing signature material");
    var signature :- Expect(octetString, TAG_OCTET_STRING, "signature not OCTET STRING");
    var _ :- ParseSignerTrailer(it);
    return Ok((signedAttrs, signatureOid, signature));
  }

  method ParseSignerFields(body: octets) returns (r: Result<SignerFields, CmsError>)
    ensures r.Accepted() == (if Children(body).None? then None else SignerFieldsOf(Children(body).value))
    ensures r.Ok? && r.value.signedAttrs.Some? ==> |r.value.signedAttrs.value| < U32_LIMIT
  {
    var it := new BerTlvIter(body);
    ghost var all := Children(body);
    var head :- ParseSignerHead(it, all);
    var tail :- ParseSignatureFields(it, all);
    return Ok(SignerFields(head.0, head.1, tail.0, tail.1, tail.2));
  }

  method ParseSignerInfo(body: octets, expectedContentType: octets) returns (r: Result<SignerInfo, CmsError>)
    ensures r.Accepted() == SignerInfoOf(body, expectedContentType)
  {
    var fields :- ParseSignerFields(body);
    if fields.signedAttrs.None? {
      return Ok(SignerInfo(fields.identifier, fields.digestOid, fields.signatureOid, fields.signature, None, [], None));
    }
    var attrs := fields.signedAttrs.value;
    var rebuilt := WriteTlv(TAG_SET, attrs);
    var parsed :- ParseAttributes(attrs, true);
    if parsed.contentType != Some(expectedContentType) {
      return Err(UnexpectedStructure("signed contentType does not match eContentType"));
    }
    return Ok(SignerInfo(fields.identifier, fields.digestOid, fields.signatureOid, fields.signature,
                         Some(rebuilt), parsed.attributes, parsed.messageDigest));
  }

  method DecodeContentInfo(input: octets) returns (r: Result<octets, CmsError>)
    ensures r.Accepted() == ContentInfoBody(input)
  {
    var outer :- ParseExact(input, TAG_SEQUENCE, "trailing bytes after ContentInfo");
    var it := new BerTlvIter(outer);
    var first :- NextField(it, "ContentInfo missing OID");
    var oid :- ExpectOid(first, "ContentInfo OID malformed");
    if oid != Oids.SIGNED_DATA {
      return Err(UnexpectedStructure("ContentInfo not SignedData"));
    }
    var second :- NextField(it, "ContentInfo missing [0] EXPLICIT");
    var explicit :- Expect(second, TAG_CONTEXT_0, "ContentInfo content tag not [0] EXPLICIT");
    var more := HasMore(it);
    if more {
      return Err(UnexpectedStructure("ContentInfo has trailing fields"));
    }
    r := ParseExact(explicit, TAG_SEQUENCE, "trailing bytes in ContentInfo content");
  }

  method ParseEncapsulatedContent(t: Tlv) returns (r: Result<(octets, octets), CmsError>)
    ensures r.Accepted() == EncapsulatedContent(t)
  {
    var value :- Expect(t, TAG_SEQUENCE, "encapContentInfo not SEQUENCE");
    var it := new BerTlvIter(value);
    var first :- NextField(it, "encap missing eContentType");
    var contentType :- ExpectOid(first, "eContentType not OID");
    var field := it.Next();
    if field.None? {
      return Ok((contentType, []));
    }
    if field.value.Err? {
      return Err(BerFailure(field.value.error));
    }
    var explicit :- Expect(field.value.value, TAG_CONTEXT_0, "eContent is not [0] EXPLICIT");
    var more := HasMore(it);
    if more {
      return Err(UnexpectedStructure("encapContentInfo has trailing fields"));
    }
    var content :- ParseExact(explicit, TAG_OCTET_STRING, "trailing bytes in eContent");
    return Ok((contentType, content));
  }

  /** The fields left after the content, collected before they are told apart by index. */
  method CollectRemaining(it: BerTlvIter) returns (r: Result<seq<Tlv>, CmsError>)
    modifies it
    ensures r.Accepted() == Children(old(it.remaining))
  {
    var remaining: seq<Tlv> := [];
    JoinedEnd(remaining);
    while true
      invariant Children(old(it.remaining)) == Joined(remaining, Children(it.remaining))
      decreases |it.remaining|
    {
      var item := it.Next();
      if item.None? {
        break;
      }
      if item.value.Err? {
        return Err(BerFailure(item.value.error));
      }
      JoinedStep(remaining, item.value.value, Children(it.remaining));
      remaining := remaining + [item.value.value];
    }
    JoinedEnd(remaining);
    return Ok(remaining);
  }

  method ParseCertificatesAndSigners(remaining: seq<Tlv>) returns (r: Result<(seq<octets>, octets), CmsError>)
    ensures r.Accepted() == CertificatesAndSigners(remaining)
  {
    var fieldIndex := 0;
    var certificates: seq<octets> := [];
    if fieldIndex < |remaining| && remaining[fieldIndex].tag == TAG_CONTEXT_0 {
      certificates :- ParseCertificates(remaining[fieldIndex].value);
      fieldIndex := fieldIndex + 1;
    }
    ghost var afterCertificates := remaining[fieldIndex..];
    if fieldIndex < |remaining| && remaining[fieldIndex].tag == TAG_CONTEXT_1 {
      var _ :- ValidateNonemptyTlvStream(remaining[fieldIndex].value, "empty crls field");
      fieldIndex := fieldIndex + 1;
      assert remaining[fieldIndex..] == afterCertificates[1..];
    }
    if fieldIndex >= |remaining| {
      return Err(UnexpectedStructure("SignedData missing signerInfos"));
    }
    var signers :- Expect(remaining[fieldIndex], TAG_SET, "SignedData signerInfos not SET");
    fieldIndex := fieldIndex + 1;
    if fieldIndex != |remaining| {
      return Err(UnexpectedStructure("SignedData has trailing or out-of-order fields"));
    }
    return Ok((certificates, signers));
  }

  /** The sole signerInfo of the set. */
  method SoleSigner(signers: octets) returns (r: Result<octets, CmsError>)
    ensures r.Accepted() == ExactValue(signers, TAG_SEQUENCE)
  {
    var it := new BerTlvIter(signers);
    var first :- NextField(it, "signerInfos is empty");
    var value :- Expect(first, TAG_SEQUENCE, "signerInfo not SEQUENCE");
    var extra := it.Next();
    if extra.None? {
      return Ok(value);
    }
    if extra.value.Err? {
      return Err(BerFailure(extra.value.error));
    }
    return Err(UnexpectedStructure("SignedData must contain exactly one signerInfo"));
  }

  method ParseVersion(t: Tlv) returns (r: Result<octets, CmsError>)
    ensures r.Accepted() == Version(t)
  {
    var version :- Expect(t, TAG_INTEGER, "SignedData version not INTEGER");
    if version == [] {
      return Err(UnexpectedStructure("SignedData version is empty"));
    }
    return Ok(version);
  }

  method ParseSignedDataHead(it: BerTlvIter, ghost all: Option<seq<Tlv>>)
    returns (r: Result<(seq<octets>, octets, octets), CmsError>)
    requires At(all, 0, it.remaining)
    modifies it
    ensures all.Some? ==> r.Accepted() == if |all.value| < 3 then None else SignedDataHead(all.value)
    ensures r.Ok? ==> At(all, 3, it.remaining)
  {
    var first :- NextAt(it, all, 0, "SignedData missing version");
    var version :- ParseVersion(first);
    var second :- NextAt(it, all, 1, "SignedData missing digestAlgorithms");
    var digestOids :- ParseDigestAlgorithms(second);
    var third :- NextAt(it, all, 2, "SignedData missing encapContentInfo");
    var content :- ParseEncapsulatedContent(third);
    return Ok((digestOids, content.0, content.1));
  }

  method ParseSignedDataBody(body: octets) returns (r: Result<SignedData, CmsError>)
    ensures r.Accepted() == SignedDataOf(body)
  {
    var it := new BerTlvIter(body);
    ghost var all := Children(body);
    var head :- ParseSignedDataHead(it, all);
    var remaining :- CollectRemaining(it);
    var tail :- ParseCertificatesAndSigners(remaining);
    var signerBody :- SoleSigner(tail.1);
    var signer :- ParseSignerInfo(signerBody, head.1);
    if signer.digestAlgorithmOid !in head.0 {
      return Err(UnexpectedStructure("signer digestAlgorithm absent from SignedData set"));
    }
    return Ok(SignedData(head.1, head.2, tail.0, signer));
  }

  /** The entry point: outer tag, wrapping, body. */
  method ParseSignedData(input: octets) returns (r: Result<SignedData, CmsError>)
    ensures r.Accepted() == ParsedSignedData(input)
  {
    if input == [] {
      return Err(UnexpectedStructure("empty input"));
    }
    var body: octets;
    if input[0] == TAG_EF_SOD {
      var outer :- ParseExact(input, TAG_EF_SOD, "trailing bytes after EF.SOD wrapper");
      body :- DecodeContentInfo(outer);
    } else if input[0] == TAG_SEQUENCE {
      var outer :- ParseExact(input, TAG_SEQUENCE, "trailing bytes after CMS value");
      var it := new BerTlvIter(outer);
      var first :- NextField(it, "empty");
      if first.tag == TAG_OID {
        body :- DecodeContentInfo(input);
      } else {
        body := outer;
      }
    } else {
      return Err(UnexpectedStructure("unknown wrapper tag"));
    }
    r := ParseSignedDataBody(body);
  }
}
