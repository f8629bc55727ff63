/**
 The signatures in a container (`asic_verify.rs`): every signature entry, its signer's certificate, its
 verdict over the manifest, and the report on the whole.
 */
module SignedContainer {

  import opened Octets
  import opened Text
  import opened Manifest
  import opened Container
  import Cades
  import Cms
  import CmsRoundTrip
  import Oids
  import Zip

  /** `.p7s` and `.p7m` */
  const SIGNATURE_SUFFIX: octets := [0x2E, 0x70, 0x37, 0x73]
  const MESSAGE_SUFFIX: octets := [0x2E, 0x70, 0x37, 0x6D]

  predicate EndsWith(name: octets, suffix: octets) {
    |name| >= |suffix| && name[|name| - |suffix|..] == suffix
  }

  predicate IsSignatureName(name: octets) {
    InMetaInf(name) && (EndsWith(name, SIGNATURE_SUFFIX) || EndsWith(name, MESSAGE_SUFFIX))
  }

  /** The contents of all signature entries, in order. */
  function SignatureEntries(entries: seq<Zip.Entry>): seq<octets> {
    if entries == [] then []
    else
      var last := entries[|entries| - 1];
      SignatureEntries(entries[..|entries| - 1]) + if IsSignatureName(last.name) then [last.content] else []
  }

  // ----- One signature -----

  /** The key of a certificate that parses, and whether a certificate is the one an identifier names. */
  datatype X509 = X509(key: octets -> Option<octets>, binds: (octets, Cms.SignerIdentifier) -> bool)

  datatype SignatureError = NoSignatures | DoesNotParse | NotData | CertificateDoesNotParse | SignerNotEmbedded

  /** The first certificate that the identifier names, each before it having to parse. */
  function SignerKey(x509: X509, certificates: seq<octets>, signer: Cms.SignerIdentifier)
    : Result<octets, SignatureError>
  {
    if certificates == [] then Err(SignerNotEmbedded)
    else
      match x509.key(certificates[0])
      case None => Err(CertificateDoesNotParse)
      case Some(key) =>
        if x509.binds(certificates[0], signer) then Ok(key) else SignerKey(x509, certificates[1..], signer)
  }

  method FindSigner(x509: X509, certificates: seq<octets>, signer: Cms.SignerIdentifier)
    returns (r: Result<octets, SignatureError>)
    ensures r == SignerKey(x509, certificates, signer)
  {
    assert certificates[0..] == certificates;
    for k := 0 to |certificates|
      invariant SignerKey(x509, certificates[k..], signer) == SignerKey(x509, certificates, signer)
    {
      assert certificates[k..][1..] == certificates[k + 1..];
      var key := x509.key(certificates[k]);
      if key.None? {
        return Err(CertificateDoesNotParse);
      }
      if x509.binds(certificates[k], signer) {
        return Ok(key.value);
      }
    }
    return Err(SignerNotEmbedded);
  }

  /** When all certificates parse and one alone is the signer's, its key is found wherever it stands. */
  lemma {:induction false} SignerIsFound(x509: X509, certificates: seq<octets>, signer: Cms.SignerIdentifier,
                                         own: octets)
    requires forall c :: c in certificates ==> x509.key(c).Some? && (x509.binds(c, signer) <==> c == own)
    requires own in certificates
    ensures SignerKey(x509, certificates, signer) == Ok(x509.key(own).value)
  {
    if certificates[0] != own {
      assert own in certificates[1..];
      SignerIsFound(x509, certificates[1..], signer, own);
    }
  }

  /** A verdict on the manifest, or what keeps it from being given. */
  function SignatureVerdict(crypto: Cms.Crypto, x509: X509, cms: octets, manifest: octets)
    : Result<Result<(), Cms.CmsError>, SignatureError>
  {
    match Cms.ParsedSignedData(cms)
    case None => Err(DoesNotParse)
    case Some(signed) =>
      if signed.econtentTypeOid != Oids.DATA then Err(NotData)
      else
        match SignerKey(x509, signed.certificatesDer, signed.signer.signerIdentifier)
        case Err(error) => Err(error)
        case Ok(key) => Ok(Cms.Verify(crypto, signed.(econtentDer := manifest), key))
  }

  // ----- The report -----

  function Verdicts(crypto: Cms.Crypto, x509: X509, signatures: seq<octets>, manifest: octets)
    : (r: Result<seq<bool>, SignatureError>)
    ensures r.Ok? ==> |r.value| == |signatures|
  {
    if signatures == [] then Ok([])
    else
      var before :- Verdicts(crypto, x509, signatures[..|signatures| - 1], manifest);
      var last :- SignatureVerdict(crypto, x509, signatures[|signatures| - 1], manifest);
      Ok(before + [last.Ok?])
  }

  /** Every signature entry verified in turn, one at least. */
  method VerifySignatures(crypto: Cms.Crypto, x509: X509, entries: seq<Zip.Entry>, manifest: octets)
    returns (r: Result<seq<bool>, SignatureError>)
    ensures r == if SignatureEntries(entries) == [] then Err(NoSignatures)
                 else Verdicts(crypto, x509, SignatureEntries(entries), manifest)
  {
    hide *;
    var signatures := SignatureEntries(entries);
    if signatures == [] {
      return Err(NoSignatures);
    }
    var verdicts := [];
    NoVerdicts(crypto, x509, signatures, manifest);
    for k := 0 to |signatures|
      invariant Verdicts(crypto, x509, signatures[..k], manifest) == Ok(verdicts)
    {
      VerdictsStep(crypto, x509, signatures, manifest, k);
      var verdict := SignatureVerdict(crypto, x509, signatures[k], manifest);
      if verdict.Err? {
        RefusalStays(crypto, x509, signatures, manifest, k + 1);
        return Err(verdict.error);
      }
      verdicts := verdicts + [verdict.value.Ok?];
    }
    assert signatures[..|signatures|] == signatures;
    return Ok(verdicts);
  }

  lemma NoVerdicts(crypto: Cms.Crypto, x509: X509, signatures: seq<octets>, manifest: octets)
    ensures Verdicts(crypto, x509, signatures[..0], manifest) == Ok([])
  {
  }

  lemma VerdictsStep(crypto: Cms.Crypto, x509: X509, signatures: seq<octets>, manifest: octets, k: nat)
    requires k < |signatures| && Verdicts(crypto, x509, signatures[..k], manifest).Ok?
    ensures Verdicts(crypto, x509, signatures[..k + 1], manifest)
      == match SignatureVerdict(crypto, x509, signatures[k], manifest)
         case Err(error) => Err(error)
         case Ok(verdict) => Ok(Verdicts(crypto, x509, signatures[..k], manifest).value + [verdict.Ok?])
  {
    hide SignatureVerdict;
    assert signatures[..k + 1][..k] == signatures[..k];
  }

  lemma {:induction false} RefusalStays(crypto: Cms.Crypto, x509: X509, signatures: seq<octets>, manifest: octets,
                                        k: nat)
    requires k <= |signatures| && Verdicts(crypto, x509, signatures[..k], manifest).Err?
    ensures Verdicts(crypto, x509, signatures, manifest) == Verdicts(crypto, x509, signatures[..k], manifest)
    decreases |signatures|
  {
    hide SignatureVerdict;
    if k < |signatures| {
      var init := signatures[..|signatures| - 1];
      assert init[..k] == signatures[..k];
      RefusalStays(crypto, x509, init, manifest, k);
    } else {
      assert signatures[..k] == signatures;
    }
  }

  datatype ReportError = ContainerRefused(container: DocumentError) | SignatureRefused(signature: SignatureError)

  /** Files, signatures, and whether all of them are in order. */
  datatype Report = Report(files: seq<VerifiedFile>, signatures: seq<bool>, ok: bool)

  predicate AllInOrder(files: seq<VerifiedFile>, signatures: seq<bool>) {
    (forall k :: 0 <= k < |files| ==> files[k].digestOk) && forall k :: 0 <= k < |signatures| ==> signatures[k]
  }

  function ReportOn(digest: Cades.DigestFunction, crypto: Cms.Crypto, x509: X509, bytes: octets, library: Libraries)
    : Result<Report, ReportError>
  {
    match CheckContainer(digest, bytes, library)
    case Err(error) => Err(ContainerRefused(error))
    case Ok(checked) =>
      var signatures := SignatureEntries(checked.entries);
      if signatures == [] then Err(SignatureRefused(NoSignatures))
      else
        match Verdicts(crypto, x509, signatures, checked.manifest)
        case Err(error) => Err(SignatureRefused(error))
        case Ok(verdicts) => Ok(Report(checked.files, verdicts, AllInOrder(checked.files, verdicts)))
  }

  /** The whole verification of a container's octets. */
  method VerifyDocument(digest: Cades.DigestFunction, crypto: Cms.Crypto, x509: X509, bytes: octets, library: Libraries)
    returns (r: Result<Report, ReportError>)
    ensures r == ReportOn(digest, crypto, x509, bytes, library)
  {
    hide CheckContainer, SignatureEntries, Verdicts;
    var checked := VerifyBytes(digest, bytes, library);
    if checked.Err? {
      return Err(ContainerRefused(checked.error));
    }
    var verdicts := VerifySignatures(crypto, x509, checked.value.entries, checked.value.manifest);
    if verdicts.Err? {
      return Err(SignatureRefused(verdicts.error));
    }
    var ok := AllInOrder(checked.value.files, verdicts.value);
    return Ok(Report(checked.value.files, verdicts.value, ok));
  }

  // ----- A finished container -----

  lemma OwnNames()
    ensures IsSignatureName(CMS_ENTRY) && !IsSignatureName(MANIFEST_ENTRY) && !IsSignatureName(MIMETYPE_ENTRY)
  {
    FurnitureNames();
    assert |CMS_ENTRY| == 22 && |MANIFEST_ENTRY| == 25;
    assert CMS_ENTRY[18..] == SIGNATURE_SUFFIX;
    assert MANIFEST_ENTRY[21..][0] == MANIFEST_ENTRY[21] == 0x2E;
    assert MANIFEST_ENTRY[21..][1] == MANIFEST_ENTRY[22] == 0x78;
    assert SIGNATURE_SUFFIX[1] == MESSAGE_SUFFIX[1] == 0x70;
  }

  lemma {:induction false} NoSignatureAmong(entries: seq<Zip.Entry>, k: nat)
    requires k <= |entries| && forall j :: 0 <= j < k ==> !IsSignatureName(entries[j].name)
    ensures SignatureEntries(entries[..k]) == []
  {
    if k > 0 {
      hide IsSignatureName;
      assert entries[..k][..k - 1] == entries[..k - 1];
      NoSignatureAmong(entries, k - 1);
    }
  }

  /** A finished container has one signature entry, its own. */
  lemma OneSignatureEntry(objects: seq<DataObject>, manifest: octets, cms: octets)
    requires UsableNames(objects)
    ensures SignatureEntries(ContainerEntries(objects, manifest, cms)) == [cms]
  {
    hide UnusableObjectName, EndsWith, InMetaInf, MIMETYPE_ENTRY, MANIFEST_ENTRY, CMS_ENTRY, MimetypeAsice;
    var entries := ContainerEntries(objects, manifest, cms);
    OwnNames();
    forall j | 0 <= j < |objects| + 2 ensures !IsSignatureName(entries[j].name) {
      if 0 < j <= |objects| {
        UsableIsApart(objects[j - 1].name);
      }
    }
    NoSignatureAmong(entries, |objects| + 2);
    assert entries[..|objects| + 3] == entries;
  }
  /** The detached structure a signing run puts into the container. */
  function ContainerSignature(digest: Cades.DigestFunction, p: Cades.SignerParameters, objects: seq<DataObject>,
                              signature: octets, material: Cades.ValidationMaterial, timestamps: seq<octets>): octets
  {
    var manifest := Utf8(ManifestText(digest, p.digestAlgorithm, objects));
    Cades.SignedDataDer(p, Cades.ToBeSigned(digest, p, digest(p.digestAlgorithm, manifest)), signature,
                        Cades.Detached, [], material, timestamps)
  }

  /**
   Sign, archive, read, verify: the report on a container read back whole has every digest ok and one
   signature, and is in order exactly when the primitive accepts the signature over the octets the card
   signed, given that both sides compute one digest and the signer's certificate is found.
   */
  lemma SignedContainerVerifies(crypto: Cms.Crypto, x509: X509, digest: Cades.DigestFunction,
                                p: Cades.SignerParameters, objects: seq<DataObject>, signature: octets,
                                material: Cades.ValidationMaterial, timestamps: seq<octets>, library: Libraries,
                                spki: octets)
    requires objects != [] && UsableNames(objects)
    requires var manifest := Utf8(ManifestText(digest, p.digestAlgorithm, objects));
      var cms := ContainerSignature(digest, p, objects, signature, material, timestamps);
      var entries := ContainerEntries(objects, manifest, cms);
      && Zip.Finishable(entries) && Zip.WithinReaderLimits(entries)
      && ReadsBack(library, ManifestText(digest, p.digestAlgorithm, objects), entries)
      && CmsRoundTrip.Writable(digest, p, digest(p.digestAlgorithm, manifest), signature, Cades.Detached, [],
                               material, timestamps)
      && crypto.digest(CmsRoundTrip.HashOf(p.digestAlgorithm), manifest) == digest(p.digestAlgorithm, manifest)
    requires SignerKey(x509, Cades.CertificateSet(p, material),
                       Cms.IssuerAndSerialNumber(p.certificate.issuerDer, p.certificate.serialDer)) == Ok(spki)
    ensures var manifest := Utf8(ManifestText(digest, p.digestAlgorithm, objects));
      var cms := ContainerSignature(digest, p, objects, signature, material, timestamps);
      var accepted := crypto.checks(CmsRoundTrip.PrimitiveFor(p.signatureAlgorithm), spki,
                                    Cades.ToBeSigned(digest, p, digest(p.digestAlgorithm, manifest)), signature);
      ReportOn(digest, crypto, x509, Zip.Archive(ContainerEntries(objects, manifest, cms)), library)
      == Ok(Report(AllFine(objects), [accepted], accepted))
  {
    hide *;
    var manifest := Utf8(ManifestText(digest, p.digestAlgorithm, objects));
    var cms := ContainerSignature(digest, p, objects, signature, material, timestamps);
    ContainerRoundTrip(digest, p.digestAlgorithm, objects, cms, library);
    OneSignatureEntry(objects, manifest, cms);
    SignatureMeans(digest, p, objects, signature, material, timestamps);
    OwnVerdict(crypto, x509, digest, p, manifest, signature, material, timestamps, spki);
    OneVerdict(crypto, x509, cms, manifest);
    FinesAreFine(objects);
    ReportMeans(digest, crypto, x509, Zip.Archive(ContainerEntries(objects, manifest, cms)), library,
                ContainerEntries(objects, manifest, cms), manifest, objects, cms);
  }

  /** The verdict on a written structure, the manifest supplied as its content. */
  lemma OwnVerdict(crypto: Cms.Crypto, x509: X509, digest: Cades.DigestFunction, p: Cades.SignerParameters,
                   manifest: octets, signature: octets, material: Cades.ValidationMaterial, timestamps: seq<octets>,
                   spki: octets)
    requires CmsRoundTrip.Writable(digest, p, digest(p.digestAlgorithm, manifest), signature, Cades.Detached, [],
                                   material, timestamps)
    requires crypto.digest(CmsRoundTrip.HashOf(p.digestAlgorithm), manifest) == digest(p.digestAlgorithm, manifest)
    requires SignerKey(x509, Cades.CertificateSet(p, material),
                       Cms.IssuerAndSerialNumber(p.certificate.issuerDer, p.certificate.serialDer)) == Ok(spki)
    ensures var signed := Cades.ToBeSigned(digest, p, digest(p.digestAlgorithm, manifest));
      var der := Cades.SignedDataDer(p, signed, signature, Cades.Detached, [], material, timestamps);
      var verdict := SignatureVerdict(crypto, x509, der, manifest);
      && verdict.Ok?
      && (verdict.value.Ok?
          <==> crypto.checks(CmsRoundTrip.PrimitiveFor(p.signatureAlgorithm), spki, signed, signature))
  {
    hide *;
    var contentDigest := digest(p.digestAlgorithm, manifest);
    CmsRoundTrip.WritableMeans(digest, p, contentDigest, signature, Cades.Detached, [], material, timestamps);
    CmsRoundTrip.SignedDataRoundTrip(digest, p, contentDigest, signature, Cades.Detached, [], material, timestamps);
    CmsRoundTrip.VerifyDecides(crypto, digest, p, contentDigest, signature, Cades.Detached, [], material, timestamps,
                               manifest, spki);
    CmsRoundTrip.ReadSignerRebuilds(digest, p, contentDigest, signature);
    VerdictMeans(crypto, x509, Cades.SignedDataDer(p, Cades.ToBeSigned(digest, p, contentDigest), signature,
                                                   Cades.Detached, [], material, timestamps), manifest, spki);
    var verdict := SignatureVerdict(crypto, x509, Cades.SignedDataDer(p, Cades.ToBeSigned(digest, p, contentDigest),
                                                                      signature, Cades.Detached, [], material,
                                                                      timestamps), manifest).value;
    assert verdict.Ok? ==> verdict.value == ();
  }

  lemma VerdictMeans(crypto: Cms.Crypto, x509: X509, cms: octets, manifest: octets, spki: octets)
    requires Cms.ParsedSignedData(cms).Some?
    requires var signed := Cms.ParsedSignedData(cms).value;
      && signed.econtentTypeOid == Oids.DATA
      && SignerKey(x509, signed.certificatesDer, signed.signer.signerIdentifier) == Ok(spki)
    ensures SignatureVerdict(crypto, x509, cms, manifest)
      == Ok(Cms.Verify(crypto, Cms.ParsedSignedData(cms).value.(econtentDer := manifest), spki))
  {
    hide Cms.ParsedSignedData, Cms.Verify, SignerKey;
  }

  lemma OneVerdict(crypto: Cms.Crypto, x509: X509, cms: octets, manifest: octets)
    requires SignatureVerdict(crypto, x509, cms, manifest).Ok?
    ensures Verdicts(crypto, x509, [cms], manifest) == Ok([SignatureVerdict(crypto, x509, cms, manifest).value.Ok?])
  {
    hide SignatureVerdict;
    assert [cms][..0] == [];
    assert Verdicts(crypto, x509, [], manifest) == Ok([]);
    var valid := SignatureVerdict(crypto, x509, cms, manifest).value.Ok?;
    assert [] + [valid] == [valid];
  }

  lemma FinesAreFine(objects: seq<DataObject>)
    ensures forall k :: 0 <= k < |AllFine(objects)| ==> AllFine(objects)[k].digestOk
  {
  }

  lemma ReportMeans(digest: Cades.DigestFunction, crypto: Cms.Crypto, x509: X509, bytes: octets, library: Libraries,
                    entries: seq<Zip.Entry>, manifest: octets, objects: seq<DataObject>, cms: octets)
    requires CheckContainer(digest, bytes, library) == Ok(Checked(entries, manifest, AllFine(objects)))
    requires SignatureEntries(entries) == [cms]
    requires SignatureVerdict(crypto, x509, cms, manifest).Ok?
    requires Verdicts(crypto, x509, [cms], manifest) == Ok([SignatureVerdict(crypto, x509, cms, manifest).value.Ok?])
    requires forall k :: 0 <= k < |AllFine(objects)| ==> AllFine(objects)[k].digestOk
    ensures var accepted := SignatureVerdict(crypto, x509, cms, manifest).value.Ok?;
      ReportOn(digest, crypto, x509, bytes, library) == Ok(Report(AllFine(objects), [accepted], accepted))
  {
    hide CheckContainer, SignatureEntries, SignatureVerdict, Verdicts, AllFine;
    var valid := SignatureVerdict(crypto, x509, cms, manifest).value.Ok?;
    assert [valid][0] == valid;
  }

  lemma SignatureMeans(digest: Cades.DigestFunction, p: Cades.SignerParameters, objects: seq<DataObject>,
                       signature: octets, material: Cades.ValidationMaterial, timestamps: seq<octets>)
    ensures var manifest := Utf8(ManifestText(digest, p.digestAlgorithm, objects));
      ContainerSignature(digest, p, objects, signature, material, timestamps)
      == Cades.SignedDataDer(p, Cades.ToBeSigned(digest, p, digest(p.digestAlgorithm, manifest)), signature,
                             Cades.Detached, [], material, timestamps)
  {
    hide Utf8, ManifestText, Cades.SignedDataDer, Cades.ToBeSigned;
  }
}
