/** The ASiC-E with CAdES arms of planning and finishing a document (`document.rs`). */
module Document {

  import opened Octets
  import opened Text
  import opened Manifest
  import opened Container
  import opened SignedContainer
  import ManifestReader
  import Cades
  import EcdsaEncoding
  import Zip

  datatype DocumentFailure = NoInput | UnusableObjectName | MalformedEcdsaSignature | ContainerTooLarge

  /** What is signed, and what is written once it has been. */
  datatype DocumentPlan = DocumentPlan(attributes: octets, objects: seq<DataObject>, manifest: octets)

  /** The octets the card signs for these objects. */
  function Attributes(digest: Cades.DigestFunction, p: Cades.SignerParameters, objects: seq<DataObject>): octets {
    var manifest := Utf8(ManifestText(digest, p.digestAlgorithm, objects));
    Cades.ToBeSigned(digest, p, digest(p.digestAlgorithm, manifest))
  }

  /** RSA passes through; ECDSA becomes DER. */
  function ForCms(algorithm: Cades.SignatureAlgorithm, signature: octets): Option<octets> {
    match algorithm
    case RsaPkcs1Sha256 => Some(signature)
    case RsaPkcs1Sha384 => Some(signature)
    case EcdsaSha256 => EcdsaEncoding.SignatureToCms(signature)
    case EcdsaSha384 => EcdsaEncoding.SignatureToCms(signature)
  }

  /** Refused without objects or with an unusable name; else the manifest and what to sign. */
  method PlanContainer(digest: Cades.DigestFunction, p: Cades.SignerParameters, objects: seq<DataObject>)
    returns (r: Result<DocumentPlan, DocumentFailure>)
    requires |Cades.SignedAttributesBody(
                digest, p, digest(p.digestAlgorithm, Utf8(ManifestText(digest, p.digestAlgorithm, objects))))| < U32_LIMIT
    ensures r == if objects == [] then Err(NoInput)
                 else if !UsableNames(objects) then Err(UnusableObjectName)
                 else Ok(DocumentPlan(Attributes(digest, p, objects), objects,
                                      Utf8(ManifestText(digest, p.digestAlgorithm, objects))))
  {
    hide ManifestText, Utf8, UsableNames, Cades.SignedAttributesBody, Cades.ToBeSigned;
    if objects == [] {
      return Err(NoInput);
    }
    var usable := CheckObjectNames(objects);
    if !usable {
      return Err(UnusableObjectName);
    }
    var text := ManifestReader.WriteManifest(digest, p.digestAlgorithm, objects);
    var manifest := Utf8(text);
    var attributes := Cades.SignedAttributes(digest, p, digest(p.digestAlgorithm, manifest));
    return Ok(DocumentPlan(attributes, objects, manifest));
  }

  /** The archive around the structure around the signature, for a plan of these objects. */
  method Finish(digest: Cades.DigestFunction, p: Cades.SignerParameters, plan: DocumentPlan, signature: octets,
                timestamps: seq<octets>, material: Cades.ValidationMaterial)
    returns (r: Result<octets, DocumentFailure>)
    requires plan.attributes == Attributes(digest, p, plan.objects)
    requires plan.manifest == Utf8(ManifestText(digest, p.digestAlgorithm, plan.objects))
    requires ForCms(p.signatureAlgorithm, signature).Some?
      ==> |Flatten(Cades.ContentInfoParts(p, plan.attributes, ForCms(p.signatureAlgorithm, signature).value,
                                          Cades.Detached, [], material, timestamps))| < U32_LIMIT
    ensures match ForCms(p.signatureAlgorithm, signature)
            case None => r == Err(MalformedEcdsaSignature)
            case Some(der) =>
              var entries := ContainerEntries(plan.objects, plan.manifest,
                                              ContainerSignature(digest, p, plan.objects, der, material, timestamps));
              r == if Zip.Finishable(entries) then Ok(Zip.Archive(entries)) else Err(ContainerTooLarge)
  {
    hide *;
    var der := ForCms(p.signatureAlgorithm, signature);
    if der.None? {
      return Err(MalformedEcdsaSignature);
    }
    var cms := Cades.WriteSignedData(p, plan.attributes, der.value, Cades.Detached, [], material, timestamps);
    SignatureMeans(digest, p, plan.objects, der.value, material, timestamps);
    AttributesMean(digest, p, plan.objects);
    var archive := FinishContainer(plan.objects, plan.manifest, cms);
    if archive.None? {
      return Err(ContainerTooLarge);
    }
    return Ok(archive.value);
  }

  lemma AttributesMean(digest: Cades.DigestFunction, p: Cades.SignerParameters, objects: seq<DataObject>)
    ensures Attributes(digest, p, objects)
      == Cades.ToBeSigned(digest, p,
                          digest(p.digestAlgorithm, Utf8(ManifestText(digest, p.digestAlgorithm, objects))))
  {
    hide Cades.ToBeSigned, Utf8, ManifestText;
  }
}
