# refineID: a verified model

This project models the parts of refineID in which a mistake costs a signature, a PIN or a card, and
proves what they promise. `dafny verify dfyconfig.toml` checks all of it.

**Signature structures.** `Ber` writes and reads TLVs; `DerSet` is the order of a DER `SET OF`; `Cades`
writes the signed attributes and the `SignedData`; `Cms` says which structures the reader accepts and
`CmsReader` is the reader as written, proved to accept exactly those; `CmsRoundTrip` connects the two
sides, re-tagging of section 5.4 of RFC 5652 included, up to the verdict of `verify`. `Calendar` turns
seconds into the civil date a signing time carries.

**Containers.** `Crc32` and `Zip` are the archive writer and the local-header reader; `Text`, `Manifest`
and `ManifestReader` the manifest and the tag scan that reads it; `Base64` both of its forms and
`Base64Forms` what they take beyond encodings; `Container`, `SignedContainer` and `Document` put them
together: plan, sign, finish, read, check, verify.

**Arithmetic.** `Modular`, `Curve` and `ScalarMul` are the short-Weierstrass formulas and double-and-add;
`KeyResidues` what they do to a key that is not reduced; `EcdsaVerify` the verification against section 6.4
of FIPS 186-4; `SmallCurve` a curve to try it on; `DigestScalar` the cut of a digest to a
scalar; `EcdsaEncoding` the two converters between raw pairs and DER and the parser.

**Cards.** `PinRules` has the retry floors and activation rules, `CardPin` the three flows as runs against
a card with try counters, `CardRuns` any sequence of them on any cards.

**The agent.** `OfferGate` is the gate on the browsers' certificate as a step system of session thread and
quit; `Jobs` the session thread's loops and where they keep every signature request; `RequestRuns` the pipe
thread and the session thread on the request channel as a step system; `ErrorRuns` the counting of repeated
failures.

Code that changes things step by step is modelled by methods and classes with the same fields and loops;
each is proved against a function or a predicate that says what it computes, and the lemmas are about
those. What lies outside (hash functions, the signature primitive, UTF-8 decoding, inflating, the phone's
engine, the card's answers) is a parameter or a nondeterministic choice.

## Assumptions

- Associativity of point addition is a hypothesis (`ScalarMul.Associative`) wherever a multiple is compared
  with repeated addition. Closure, commutativity and the cases of infinity are proved without it, and
  `SmallCurve.HypothesesAreMet` gives a curve that meets all that is assumed.
- One card command loses at most one try of the credential it presents, none when the card accepts it or
  the credential is exhausted or invalidated; a PIN reported verified has its full counter; a count a card
  reports is its count. A connection stays with one card; another card may be there at the next opening.
- In `OfferGate.OfferMatchesStore` and `OfferGate.EmptyForever` no removal fails in the run. What holds in
  every run is `OfferGate.StoreSinceLastRemoval`, `OfferGate.OfferedIsHeld` and `OfferGate.QuitDecides`;
  `OfferGate.FailedRemovalLeavesTwo` is a run with a failing one.
- A key whose coordinates are not reduced belongs to the base point's group of prime order; a reduced one
  need not, and the base point is reduced.

## Where the code and its documentation differ

- `ber.rs:434-437` says the length octet 0x80 is rejected; line 431 reads it as a length of 128
  (`Ber.IndefiniteMarkerReadsAs128`). The writer never emits it.
- `cades.rs:444` says only inputs that are neither pairs nor valid DER are refused. Input that starts with
  0x30 can be refused or passed unchanged although it is an even pair; `EcdsaEncoding.ConvertsPairExactly`
  and `EcdsaEncoding.RefusesPairExactly` say exactly which is.
- `ecdsa.rs:499-501` takes distinct coordinates to be distinct modulo `p`. A public key's are not reduced,
  so that its point can go unrecognised, or its `x` be compared as it came, when `r == s`
  (`EcdsaVerify.UnreducedKeyExactly`, `SmallCurve.UnreducedKeyIsAccepted`, `SmallCurve.UnreducedKeyIsRefused`).
- `digest_to_scalar` shifts a digest that is shorter than the order as well
  (`DigestScalar.ScalarIsLeftmostBitsExactly` says exactly when that matters).
- `base64.rs:87-89` promises that ASCII whitespace around the text is tolerated; `trim` takes all of
  Unicode's (`Base64Forms.AsciiWhitespaceExactly`, `Base64Forms.NoBreakSpaceIsTrimmed`).
- `asic_verify.rs:577-578` says malformed escapes stay literal; `u8::from_str_radix` takes a plus sign, so
  `%+F` decodes to one octet (`Text.StaysLiteralExactly`, `Text.SignedEscapeIsDecoded`).

## Model

| member | source | states |
|---|---|---|
| Ber.BerEncoder.PushLength | crates/refineid-doc-sign/src/ber.rs:132-166 | appending a length adds exactly the definite form with the fewest octets, up to four length octets |
| Ber.BerEncoder.PushTlv | crates/refineid-doc-sign/src/ber.rs:94-98 | appending a TLV adds its tag, its length octets and its value behind what the buffer held |
| Ber.WriteTlv | crates/refineid-doc-sign/src/ber.rs:180-192 | a single TLV on its own |
| Ber.Parse | crates/refineid-doc-sign/src/ber.rs:393-461 | the index-advancing reader gives, for every input, the TLV at the front or the error `ParseTlv` specifies |
| Ber.ParseOfWritten | crates/refineid-doc-sign/src/ber.rs:393-461 | reading what was written gives tag, value and size back for every length below 4 GiB, whatever follows |
| Ber.ParseExtends | crates/refineid-doc-sign/src/ber.rs:393-461 | what was read does not depend on the octets behind it |
| Ber.IndefiniteMarkerReadsAs128 | crates/refineid-doc-sign/src/ber.rs:428-440 | a first length octet of 0x80 is read as length 128, against the comment that it is rejected |
| Ber.UnsupportedFormExactly | crates/refineid-doc-sign/src/ber.rs:430-449 | a length form is refused exactly when it announces more than four length octets |
| Ber.LengthIsShortest | crates/refineid-doc-sign/src/ber.rs:132-166 | no length form the reader takes is shorter than the one the writer writes, except exactly that of a 0x80 octet |
| Ber.ChildrenOfConcatenation | crates/refineid-doc-sign/src/ber.rs:486-530 | iterating concatenated TLVs gives back exactly those TLVs, in order |
| Ber.BerTlvIter.Next | crates/refineid-doc-sign/src/ber.rs:507-530 | one step of the iterator: the next TLV, the end, or an error after which the iterator is empty |
| DerSet.SortedIsOrderedPermutation | crates/refineid-doc-sign/src/cades.rs:386 | sorting orders the encodings and loses or invents none |
| DerSet.SortedIsUnique | crates/refineid-doc-sign/src/cades.rs:386 | the order is the only one, however the elements were given |
| DerSet.SetOfElements | crates/refineid-doc-sign/src/cades.rs:533-540 | sort and dedup give strictly ascending encodings with the same elements |
| DerSet.SliceOrderIsDerOrder | crates/refineid-doc-sign/src/cades.rs:526-534 | sorting encodings as slices is the order X.690 section 11.6 asks for, where shorter encodings are padded with zeros, because no TLV is a prefix of another |
| Cades.SignedAttributes | crates/refineid-doc-sign/src/cades.rs:364-394 | the octets to sign are the universal SET of the attributes in DER order |
| Cades.PushAttributes | crates/refineid-doc-sign/src/cades.rs:364-384 | content type, message digest, the signing time when it can be written, and the signing certificate, in this order before sorting |
| Cades.WriteAttribute | crates/refineid-doc-sign/src/cades.rs:397-401 | one attribute: its type and its SET of values in a SEQUENCE |
| Cades.Retag | crates/refineid-doc-sign/src/cades.rs:612-619 | the first octet of the SET becomes the implicit `[0]` and nothing else changes |
| Cades.SignerInfo | crates/refineid-doc-sign/src/cades.rs:601-651 | the signer as a SEQUENCE of version, issuer and serial, digest algorithm, re-tagged attributes, signature algorithm, signature and timestamps |
| Cades.WriteSetOf | crates/refineid-doc-sign/src/cades.rs:533-541 | an implicit SET OF under a context tag: sorted, deduplicated, concatenated |
| Cades.WriteSignedDataBody | crates/refineid-doc-sign/src/cades.rs:502-583 | the `SignedData` body, with the revocation field only when there is revocation evidence |
| Cades.WriteSignedData | crates/refineid-doc-sign/src/cades.rs:502-589 | the finished `ContentInfo`, octet for octet |
| CmsReader.ParseSignedData | crates/refineid-doc-sign/src/cms.rs:443-479 | the lazy reader accepts exactly the inputs the declarative description accepts, in all three wrappings, with the same value |
| CmsReader.DecodeContentInfo | crates/refineid-doc-sign/src/cms.rs:527-562 | a `ContentInfo` is accepted exactly when it is two complete fields naming signed data, with nothing behind |
| CmsReader.ParseSignedDataBody | crates/refineid-doc-sign/src/cms.rs:569-714 | a `SignedData` body is accepted exactly when its fields are complete, in order and mutually consistent |
| CmsReader.ParseDigestAlgorithms | crates/refineid-doc-sign/src/cms.rs:717-734 | the digest algorithm set is accepted exactly when every entry is an algorithm identifier |
| CmsReader.ParseAlgorithmIdentifier | crates/refineid-doc-sign/src/cms.rs:737-763 | an algorithm identifier is accepted exactly with an OID, at most one parameter and nothing behind |
| CmsReader.ParseCertificates | crates/refineid-doc-sign/src/cms.rs:767-791 | the certificate set is accepted exactly when it is SEQUENCEs end to end, and gives their encodings |
| CmsReader.ValidateNonemptyTlvStream | crates/refineid-doc-sign/src/cms.rs:794-804 | accepted exactly when the octets are one or more complete TLVs |
| CmsReader.ParseSignerInfo | crates/refineid-doc-sign/src/cms.rs:807-910 | a signer is accepted exactly when its fields are complete and its content type is the one expected |
| CmsReader.ParseSignerIdentifier | crates/refineid-doc-sign/src/cms.rs:913-973 | both identifier forms, each tied to its version |
| CmsReader.ParseAttributes | crates/refineid-doc-sign/src/cms.rs:977-1058 | the attributes are accepted exactly when each is well formed and content type and message digest occur once, wherever they stand |
| CmsRoundTrip.SignedAttributesRead | crates/refineid-doc-sign/src/cms.rs:977-1058 | wherever DER sorting puts the attributes, the reader recovers the content type and the message digest |
| CmsRoundTrip.SignedDataRoundTrip | crates/refineid-doc-sign/src/cms.rs:443-714 | parsing what was written gives the same signature, signer identifier, digest algorithm, ordered duplicate-free certificates and content, empty when detached, for every well-formed input |
| CmsRoundTrip.ReadAttributesReencode | crates/refineid-doc-sign/src/cms.rs:977-1058 | encoding the attributes that were read gives the octets they were read from |
| CmsRoundTrip.RebuiltIsSigned | crates/refineid-doc-sign/src/cms.rs:880-900 | section 5.4 of RFC 5652: the structure carries the attributes under `[0]`, not as signed, and the SET the reader rebuilds from them is what the card signed, octet for octet |
| CmsRoundTrip.VerifyDecides | crates/refineid-doc-sign/src/cms.rs:1071-1108 | verification reports a hash mismatch exactly when the content's digest is not the one signed, and otherwise accepts exactly when the primitive accepts the signature over the octets the card signed |
| CmsRoundTrip.AlgorithmTablesAgree | crates/refineid-doc-sign/src/cms.rs:1208-1254 | the writer's algorithm identifiers dispatch to the primitives they name |
| Calendar.FromUnixSecsCorrect | crates/refineid-doc-sign/src/cades.rs:266-298 | for every second count whose year fits 16 bits, the fields are a valid Gregorian date and time that count back to the same second by the ordinary leap-year rule |
| Calendar.RoundTripExactly | crates/refineid-doc-sign/src/cades.rs:266-298 | the count comes back exactly when its year fits 16 bits |
| Calendar.FromUnixSecsAscends | crates/refineid-doc-sign/src/cades.rs:266-298 | later seconds give later fields |
| Calendar.CivilDateCorrect | crates/refineid-doc-sign/src/cades.rs:270-288 | the era arithmetic gives the calendar day |
| Modular.InverseIsComplete | crates/refineid-doc-sign/src/ecdsa.rs:460-463 | the inverse fails only where there is none |
| Modular.PrimeInverse | crates/refineid-doc-sign/src/ecdsa.rs:456-463 | modulo a prime everything but its multiples is invertible |
| Curve.DoubleInGroup | crates/refineid-doc-sign/src/ecdsa.rs:442-472 | twice a point of the curve is on the curve or infinity |
| Curve.AddInGroup | crates/refineid-doc-sign/src/ecdsa.rs:479-511 | the sum of two points of the curve, reduced or not, is on the curve or infinity |
| Curve.DoubleIsInfinity | crates/refineid-doc-sign/src/ecdsa.rs:442-463 | on reduced points doubling gives infinity exactly at infinity and at `y == 0`: the fail-closed branch is never taken |
| Curve.AddIsInfinity | crates/refineid-doc-sign/src/ecdsa.rs:479-505 | on reduced points of the curve the sum is infinity exactly for mirrored points |
| Curve.AddCommutes | crates/refineid-doc-sign/src/ecdsa.rs:479-511 | addition commutes on reduced points |
| ScalarMul.ScalarMultiple | crates/refineid-doc-sign/src/ecdsa.rs:516-530 | the loop over the bits computes the ladder |
| ScalarMul.MultipleInGroup | crates/refineid-doc-sign/src/ecdsa.rs:516-530 | for every scalar the multiple of a point of the curve is on the curve or infinity |
| ScalarMul.DoubleAndAddIsTimes | crates/refineid-doc-sign/src/ecdsa.rs:516-530 | given associativity, double-and-add is the repeated sum for every scalar |
| ScalarMul.TimesCycles | crates/refineid-doc-sign/src/ecdsa.rs:516-530 | multiples of a point whose order divides `n` depend on the scalar modulo `n` alone |
| EcdsaVerify.EquationHoldsExactly | crates/refineid-doc-sign/src/ecdsa.rs:579-606 | acceptance, both ways, for every key on the curve, reduced or not, in terms of repeated addition, of the point such a key really gives and of the source's own reduction of `x` |
| EcdsaVerify.UnreducedKeyExactly | crates/refineid-doc-sign/src/ecdsa.rs:566-606 | a key of the prime-order group with coordinates at or above `p` is verified with as its residue whenever `r` and `s` differ; for `r == s` the point `u1 G` decides whether the result is the same, a refusal, or a comparison with the key's own `x` |
| EcdsaVerify.AcceptsAsTheStandard | crates/refineid-doc-sign/src/ecdsa.rs:566-606 | accepted exactly as section 6.4.2 of FIPS 186-4 asks of the key's residue, when `x` fits the order's width and is below `2n`, for reduced keys and, in the prime-order group, for all others unless `r == s` |
| EcdsaVerify.RefusesValidExactly | crates/refineid-doc-sign/src/ecdsa.rs:566-606 | what the standard accepts is accepted exactly when the last reduction is right, for the same keys |
| EcdsaVerify.IntoNReducesExactly | crates/refineid-doc-sign/src/ecdsa.rs:818-826 | cutting to the width and subtracting once reduces exactly the values that the condition names |
| EcdsaVerify.IntoNReducesNarrow | crates/refineid-doc-sign/src/ecdsa.rs:818-826 | for values that fit the width, exactly those below `2n` |
| EcdsaVerify.SignedIsAccepted | crates/refineid-doc-sign/src/ecdsa.rs:566-606 | every signature made by the signing equation is accepted |
| EcdsaVerify.SignedOctetsAreAccepted | crates/refineid-doc-sign/src/ecdsa.rs:566-606 | the same from octets to octets: the raw pair converted to DER, the key as an uncompressed point, the digest cut to its scalar |
| EcdsaVerify.AcceptedSatisfiesEquation | crates/refineid-doc-sign/src/ecdsa.rs:566-606 | what is accepted parses, has both numbers in range, and its computed point gives `r`; the standard accepts it too unless the key is not reduced and `r == s` |
| EcdsaVerify.PublicKeyReads | crates/refineid-doc-sign/src/ecdsa.rs:618-635 | an uncompressed point gives its two coordinates |
| SmallCurve.HypothesesAreMet | crates/refineid-doc-sign/src/ecdsa.rs:442-606 | a curve, with its order and base point, for which everything the theorems above assume holds, associativity included |
| SmallCurve.UnreducedKeyIsAccepted | crates/refineid-doc-sign/src/ecdsa.rs:566-606 | an input accepted under a key that is not reduced, which the standard refuses for the point the key stands for |
| SmallCurve.UnreducedKeyIsRefused | crates/refineid-doc-sign/src/ecdsa.rs:566-606 | an input refused under a key that is not reduced and accepted under the same point reduced |
| KeyResidues.AddUnreduced | crates/refineid-doc-sign/src/ecdsa.rs:479-511 | adding a point that is not reduced to one that is: as its residue, but for the residue itself, where the doubling is missed |
| KeyResidues.MultipleOfKey | crates/refineid-doc-sign/src/ecdsa.rs:516-530 | double-and-add on a point of prime order that is not reduced gives it back as it came for the scalar one, and the multiple of its residue for every other scalar below the order |
| DigestScalar.ShiftRight | crates/refineid-doc-sign/src/ecdsa.rs:797-806 | the in-place carry loop divides the whole buffer by a power of two |
| DigestScalar.DigestToScalar | crates/refineid-doc-sign/src/ecdsa.rs:782-812 | what the conversion computes, for every digest and order length |
| DigestScalar.ScalarIsLeftmostBitsExactly | crates/refineid-doc-sign/src/ecdsa.rs:782-812 | it is the leftmost bits of section 2.3.2 of RFC 6979 exactly when the digest is as long as the order, the order is whole octets, or the digest is zero |
| DigestScalar.ShortDigestIsShifted | crates/refineid-doc-sign/src/ecdsa.rs:787-808 | an input where a short digest is shifted that should not be |
| EcdsaEncoding.EncodeDerInteger | crates/refineid-doc-sign/src/ecdsa.rs:713-735 | appends the minimal INTEGER of a magnitude |
| EcdsaEncoding.EncodeDerLength | crates/refineid-doc-sign/src/ecdsa.rs:744-771 | appends a length in at most two length octets, clamped beyond them |
| EcdsaEncoding.FromRawConcatenation | crates/refineid-doc-sign/src/ecdsa.rs:644-668 | an even nonempty pair becomes a SEQUENCE of two INTEGERs, anything else is refused |
| EcdsaEncoding.IntegerContentsMean | crates/refineid-doc-sign/src/ecdsa.rs:713-735 | the contents are not negative, minimal, and the number that was given |
| EcdsaEncoding.SameNumberSameInteger | crates/refineid-doc-sign/src/ecdsa.rs:713-735 | one number has one INTEGER, however it was padded |
| EcdsaEncoding.RawRoundTrip | crates/refineid-doc-sign/src/ecdsa.rs:644-700 | converting and parsing gives both numbers back without leading zeros exactly when the body fits two length octets, and fails otherwise |
| EcdsaEncoding.SameAsVerifier | crates/refineid-doc-sign/src/cades.rs:446-469 | where the first octet is not 0x30 the structure writer's converter gives the octets of the verifier's |
| EcdsaEncoding.SequenceInput | crates/refineid-doc-sign/src/cades.rs:447-461 | input that starts like a SEQUENCE: complete ones pass, unsupported length forms are refused, other pairs are converted |
| EcdsaEncoding.RefusesPairExactly | crates/refineid-doc-sign/src/cades.rs:444-465 | which even nonempty pairs are refused, against the documentation |
| EcdsaEncoding.RefusedPair | crates/refineid-doc-sign/src/cades.rs:444-465 | an even nonempty pair that is refused |
| EcdsaEncoding.UnconvertedPair | crates/refineid-doc-sign/src/cades.rs:444-465 | a pair handed back as if it were a DER signature, which does not parse as one |
| EcdsaEncoding.ConvertsPairExactly | crates/refineid-doc-sign/src/cades.rs:444-469 | an even nonempty pair of any length is converted exactly unless it has six octets or more, starts with 0x30 and goes on with an unsupported length form or is a complete SEQUENCE as it stands: no such SEQUENCE is its own conversion |
| EcdsaEncoding.OutputIsOneSequence | crates/refineid-doc-sign/src/cades.rs:446-469 | every output is one complete SEQUENCE as the reader sees it |
| EcdsaEncoding.ConvertingAgain | crates/refineid-doc-sign/src/cades.rs:446-469 | converting an output again changes nothing exactly while two length octets suffice |
| Base64.Encode | crates/refineid-doc-sign/src/base64.rs:30-55 | the packing loops compute the padded encoding |
| Base64.EncodeUrlUnpadded | crates/refineid-doc-sign/src/base64.rs:61-81 | the packing loops compute the unpadded URL encoding |
| Base64.DecodeQuad | crates/refineid-doc-sign/src/base64.rs:131-155 | one quantum, its padding and its spare bits |
| Base64.Decode | crates/refineid-doc-sign/src/base64.rs:93-123 | the strict decoder accepts exactly what its specification accepts |
| Base64.DecodesExactly | crates/refineid-doc-sign/src/base64.rs:30-155 | decoding gives some octets exactly when the trimmed text is their encoding |
| Base64.RoundTrip | crates/refineid-doc-sign/src/base64.rs:30-155 | decoding undoes encoding for every octet string |
| Base64.NoTwoDecodeAlike | crates/refineid-doc-sign/src/base64.rs:93-155 | texts that decode alike are alike once trimmed |
| Base64.DecodeUrlUnpadded | crates/refineid-doc-sign/src/base64.rs:176-207 | the loop over a 32-bit accumulator computes what exact numbers would |
| Base64.AccumulatorSuffices | crates/refineid-doc-sign/src/base64.rs:195-203 | the accumulator drops only bits that were already written |
| Base64.UrlRoundTrip | crates/refineid-doc-sign/src/base64.rs:61-207 | the URL form decodes back for every octet string |
| Base64Forms.AsciiWhitespaceExactly | crates/refineid-doc-sign/src/base64.rs:85-123 | the strict decoder agrees with one that trims ASCII whitespace alone exactly when the text rid of ASCII whitespace has no other whitespace at its ends, or holds no encoding and is refused by both |
| Base64Forms.NoBreakSpaceIsTrimmed | crates/refineid-doc-sign/src/base64.rs:85-97 | an input on which the two differ |
| Base64Forms.UrlAcceptsEncodingExactly | crates/refineid-doc-sign/src/base64.rs:61-207 | a text the URL decoder accepts is the encoding of its value exactly when it has no pad, a length other than 1 modulo 4, and no spare bits |
| Base64Forms.UrlCanonicalIsInjective | crates/refineid-doc-sign/src/base64.rs:176-207 | among such texts no two decode alike |
| Base64Forms.UrlIsNotInjective | crates/refineid-doc-sign/src/base64.rs:176-207 | two texts the URL decoder takes for one octet string, one of them with spare bits |
| Crc32.Crc32 | crates/refineid-doc-sign/src/asic.rs:502-519 | the nested loops compute the checksum |
| Crc32.ByteStepIsInjective | crates/refineid-doc-sign/src/asic.rs:509-516 | the update for one octet is injective in the register |
| Crc32.RegisterIsInjective | crates/refineid-doc-sign/src/asic.rs:508-517 | different registers stay different, whatever follows |
| Crc32.WindowIsInjective | crates/refineid-doc-sign/src/asic.rs:508-517 | four octets from one register determine the register after them |
| Crc32.WindowErrorsAreDetected | crates/refineid-doc-sign/src/asic.rs:502-519 | inputs of one length that differ only inside four consecutive octets have different checksums |
| Zip.ZipWriter.Add | crates/refineid-doc-sign/src/asic.rs:401-471 | an entry is added exactly when every field can hold its value; otherwise nothing is added and the overflow stays |
| Zip.ZipWriter.Finish | crates/refineid-doc-sign/src/asic.rs:476-494 | there is an archive exactly when no add overflowed and the totals fit, and it is entries, directory and end record |
| Zip.Cursor.Take | crates/refineid-doc-sign/src/asic_verify.rs:348-353 | takes what is there or leaves the position |
| Zip.ReadHeader | crates/refineid-doc-sign/src/asic_verify.rs:382-401 | the header fields by position |
| Zip.ReadEntry | crates/refineid-doc-sign/src/asic_verify.rs:275-310 | one entry, or the first thing wrong with it |
| Zip.ReadZip | crates/refineid-doc-sign/src/asic_verify.rs:256-335 | the reader's loop computes the entries or the error, for every input |
| Zip.ArchiveRoundTrip | crates/refineid-doc-sign/src/asic_verify.rs:256-335 | reading a finished archive gives the same names and contents in order exactly when the entries keep the reader's limits |
| Zip.DirectoryAgrees | crates/refineid-doc-sign/src/asic.rs:401-471 | the k-th central record's offset addresses the k-th local header, with equal fields and name |
| Zip.EndRecordIsExact | crates/refineid-doc-sign/src/asic.rs:476-494 | counts, directory size and directory position are exact |
| Text.PercentRoundTrip | crates/refineid-doc-sign/src/asic_verify.rs:579-605 | percent-decoding undoes percent-encoding for every name |
| Text.StaysLiteralExactly | crates/refineid-doc-sign/src/asic_verify.rs:577-604 | the decoding is that of two-digit escapes alone, malformed ones left literal, exactly when the scan meets no escape with a plus sign before a digit |
| Text.SignedEscapeIsDecoded | crates/refineid-doc-sign/src/asic_verify.rs:589-597 | an escape with a plus sign that is decoded |
| Text.EscapedIsSafe | crates/refineid-doc-sign/src/xades.rs:576-590 | an escaped value cannot open a tag or end its quotes |
| ManifestReader.WriteManifest | crates/refineid-doc-sign/src/asic.rs:246-278 | the loop appends one reference per object between head and tail |
| ManifestReader.ScanTag | crates/refineid-doc-sign/src/asic_verify.rs:492-537 | the next tag behind comments, instructions and declarations |
| ManifestReader.ScanInner | crates/refineid-doc-sign/src/asic_verify.rs:433-456 | the inner scan of one reference |
| ManifestReader.ParseManifest | crates/refineid-doc-sign/src/asic_verify.rs:424-480 | the two nested loops compute the references or the error, for every manifest |
| ManifestReader.DecodePercent | crates/refineid-doc-sign/src/asic_verify.rs:588-604 | the percent-decoding loop |
| Manifest.ReferenceOpens | crates/refineid-doc-sign/src/asic_verify.rs:424-432 | a written reference's tag gives its encoded name for every media type, one with `>` in it included |
| Manifest.ScanReads | crates/refineid-doc-sign/src/asic_verify.rs:433-470 | a written reference gives its algorithm and digest |
| Manifest.ManifestRoundTrip | crates/refineid-doc-sign/src/asic_verify.rs:424-480 | every name and digest is recovered in order, for any objects |
| Container.CheckObjectNames | crates/refineid-doc-sign/src/document.rs:431-457 | accepted exactly when every name is usable and none occurs twice |
| Container.UsableIsApart | crates/refineid-doc-sign/src/document.rs:443-457 | a usable name is neither `mimetype` nor under `META-INF/` |
| Container.FinishContainer | crates/refineid-doc-sign/src/asic.rs:140-149 | the archive of the container's entries, exactly when the ZIP fields can hold them, although the results of the adds are not looked at |
| Container.NothingUncovered | crates/refineid-doc-sign/src/asic_verify.rs:649-666 | nothing is flagged exactly when every data file is covered |
| Container.FlagUncoveredFiles | crates/refineid-doc-sign/src/asic_verify.rs:649-666 | the loop appends the uncovered files in order |
| Container.VerifyBytes | crates/refineid-doc-sign/src/asic_verify.rs:168-199 | the reader end to end up to the signatures, for every input |
| Container.DigestsAreFine | crates/refineid-doc-sign/src/asic_verify.rs:607-643 | for the container's own entries every digest is ok, in order |
| Container.ContainerRoundTrip | crates/refineid-doc-sign/src/asic_verify.rs:168-199 | plan, finish, read: every digest ok, no file uncovered, manifest and signature as they were, for objects with usable names within the limits |
| SignedContainer.FindSigner | crates/refineid-doc-sign/src/asic_verify.rs:711-736 | the loop over the embedded certificates: the first that is named, each before it having to parse |
| SignedContainer.SignerIsFound | crates/refineid-doc-sign/src/asic_verify.rs:711-736 | when all parse and one alone is named, its key is found wherever sorting put it |
| SignedContainer.VerifySignatures | crates/refineid-doc-sign/src/asic_verify.rs:673-692 | every signature entry is verified in turn, one at least, and the first that cannot be judged ends it |
| SignedContainer.VerifyDocument | crates/refineid-doc-sign/src/asic_verify.rs:168-205 | the report, in order exactly when every file and every signature is |
| SignedContainer.OneSignatureEntry | crates/refineid-doc-sign/src/asic_verify.rs:677-684 | a finished container has its own signature entry and no other, whatever the objects are called |
| SignedContainer.SignedContainerVerifies | crates/refineid-doc-sign/src/asic_verify.rs:168-205 | sign, archive, read, verify: every digest ok, one signature, and the report in order exactly when the primitive accepts the signature over the octets the card signed |
| Document.PlanContainer | crates/refineid-doc-sign/src/document.rs:482-552 | refused without objects or with an unusable name; otherwise the manifest and the octets to sign |
| Document.Finish | crates/refineid-doc-sign/src/document.rs:301-319 | the archive around the structure around the signature, or the reason there is none |
| PinRules.FloorsSpareLastTries | crates/refineid-lib-core/src/pin_retry_risk.rs:282-367 | all three floors serve a credential only where a wrong code cannot take one of the last two tries |
| PinRules.FloorsServeExactly | crates/refineid-lib-core/src/pin_retry_risk.rs:282-367 | the counts at which each floor serves |
| CardPin.GuardMeans | crates/refineid-card-manager-core/src/card_pin.rs:852-892 | a log that keeps the guard: each modifying command follows a read of the expected serial with no other in between, or is the reset behind its own accepted PUK |
| CardPin.ReVerifySession | crates/refineid-card-manager-core/src/card_pin.rs:864-892 | the serial is read again and anything but the bound one is refused |
| CardPin.RequireActivated | crates/refineid-card-manager-core/src/card_pin.rs:585-598 | an honest status of a PIN that does not await activation, or the refusal |
| CardPin.PukRetryFloor | crates/refineid-card-manager-core/src/card_pin.rs:1058-1066 | nothing presents the PUK where a last try could be lost |
| CardPin.SendChangePin | crates/refineid-lib-core/src/auth.rs:646-676 | one command after the local checks, nothing sent when they fail |
| CardPin.SendResetRetryCounter | crates/refineid-lib-core/src/auth.rs:693-750 | the citizen card's one command, or the PUK verified first and the reset only when it was accepted |
| CardPin.ActivateSlotSetup | crates/refineid-card-manager-core/src/card_pin.rs:1088-1117 | one PIN set behind the rule of its scheme |
| CardPin.ChangePinFirst | crates/refineid-card-manager-core/src/card_pin.rs:609-655 | no last try is touched, one try at most is lost, refusals send nothing, no other PIN is set, and the command follows a read of the bound serial |
| CardPin.UnblockPinFirst | crates/refineid-card-manager-core/src/card_pin.rs:677-715 | the same for unblocking, under the PUK's floor: the last command is the reset of the asked PIN in the card's numbering, or the PUK that was not accepted |
| CardPin.ActivateFirst | crates/refineid-card-manager-core/src/card_pin.rs:1215-1314 | one activation loses at most one try over PIN1, PIN2 and PUK together, sends nothing modifying after an outcome other than success, sets only what was entered, also when it fails, and unless overridden reports outcomes only for PINs that awaited activation |
| CardRuns.Serve | crates/refineid-card-manager-core/src/service.rs:390-451 | each operation is bound to the displayed serial |
| CardRuns.ServeAll | crates/refineid-card-manager-core/src/service.rs:370-451 | over any number of operations in any order on any cards no counter at two or more falls below two and none at one is lost |
| OfferGate.EveryRunKeepsInvariant | crates/refineid-agent/src/session.rs:297-367 | every interleaving of session and quit in which no removal fails keeps the invariant |
| OfferGate.OfferMatchesStore | crates/refineid-agent/src/offer_gate.rs:29-45 | between critical sections the browsers hold exactly the offered certificate until the gate closes, never two, and nothing once the quit's close has returned |
| OfferGate.EmptyForever | crates/refineid-agent/src/session.rs:209-214 | whatever runs after the close returned, the store stays empty |
| OfferGate.OfferedIsHeld | crates/refineid-agent/src/session.rs:297-359 | in every run, failed removals or not, the certificate remembered as offered is in the store until the gate closes |
| OfferGate.QuitDecides | crates/refineid-agent/src/session.rs:209-214 | in every run, failed removals or not, the store is empty for good behind the quit's removal exactly when that removal succeeded or found nothing |
| OfferGate.FailedRemovalLeavesTwo | crates/refineid-agent/src/session.rs:355-359 | a run in which a removal fails and two certificates are held |
| OfferGate.StoreSinceLastRemoval | crates/refineid-agent/src/session.rs:297-367 | in every run, failed removals or not, the store is exactly the certificates installed since the last removal that succeeded |
| OfferGate.TwoAreHeldExactly | crates/refineid-agent/src/session.rs:297-367 | two are held exactly when two different ones have been installed since then |
| Jobs.SessionThread.HoldSession | crates/refineid-agent/src/session.rs:556-600 | every job is answered before the next is received |
| Jobs.SessionThread.AfterFailedSearch | crates/refineid-agent/src/session.rs:461-499 | the pending place is free whenever a request is put there, and a search that is over answers everything queued |
| Jobs.SessionThread.Sign | crates/refineid-agent/src/session.rs:666-684 | one answer per job, a failure for another pairing's |
| Jobs.SessionThread.SetPending | crates/refineid-agent/src/session.rs:476-495 | a pending request is never overwritten |
| Jobs.SessionThread.ServePhone | crates/refineid-agent/src/session.rs:363-447 | over a whole run the answers are the requests in the order they came, and what is left is dropped when the thread ends |
| Jobs.SignatureOnlyWhenCompleted | crates/refineid-agent/src/session.rs:687-699 | only a completed signature operation becomes a signature |
| RequestRuns.EveryRunKeepsInvariant | crates/refineid-agent/src/session.rs:150-190 | every interleaving of pipe thread and session thread, deadlines and endings included, keeps the invariant |
| RequestRuns.RequestsAreConserved | crates/refineid-agent/src/session.rs:363-499 | each request sent is answered, held or in the channel, once and in the order it was sent, and at most one is held |
| RequestRuns.RepliesInOrder | crates/refineid-agent/src/session.rs:363-499 | requests are disposed of in the order they were sent and none twice |
| RequestRuns.OneAnswerPerClient | crates/refineid-agent/src/session.rs:150-190 | each client let in has exactly one answer but for the one being served, and an answer given stays whatever runs after |
| RequestRuns.AnswerIsTheReply | crates/refineid-agent/src/session.rs:165-180 | for every reply of every run, its client's answer is that reply unless the deadline passed first; the two differ exactly when it did and the reply says anything else |
| RequestRuns.GaveUpExactly | crates/refineid-agent/src/session.rs:174-180 | the clients told of the deadline are those for whom it passed while the pipe thread waited |
| RequestRuns.SignatureIsTheClients | crates/refineid-agent/src/session.rs:165-190 | a client that gets a signature asked for it: its own request, and no other of its, was run for the pairing it named and completed with that signature |
| RequestRuns.PendingIsNotOverwritten | crates/refineid-agent/src/session.rs:476-497 | no step puts a request where another waits or is in hand; one that leaves its place is taken in hand |
| RequestRuns.AwaitedIsNotLost | crates/refineid-agent/src/session.rs:165-180 | the awaited request is answered or still on its way, never both, and while the session thread runs any other on its way has a client told of the deadline |
| RequestRuns.SignatureAfterDeadline | crates/refineid-agent/src/session.rs:174-180 | a run in which a client was told the deadline passed and its request is signed afterwards |
| ErrorRuns.Recorder.Observe | crates/refineid-dev-errors/src/record.rs:160-205 | the run and the entries after one report, for every run before it |
| ErrorRuns.Recorder.ObserveAll | crates/refineid-dev-errors/src/record.rs:160-205 | the entries and the run of a whole sequence of reports |
| ErrorRuns.EveryReportIsCounted | crates/refineid-dev-errors/src/record.rs:160-205 | for every failure, what entries wrote, what the run holds and what saturation lost add up to the reports |
| ErrorRuns.CountsAreKept | crates/refineid-dev-errors/src/record.rs:160-205 | below the 32-bit saturation nothing is lost |
| ErrorRuns.HistoryHolds | crates/refineid-dev-errors/src/record.rs:160-205 | over any reports: what stands between two neighbouring entries, which report wrote each, how many repeats it counts, and what the run still holds |
| ErrorRuns.EntriesAreApart | crates/refineid-dev-errors/src/record.rs:171-186 | of entries for one failure with no other failure's between, the last is at least the repeat window behind the first unless another failure's report flushed it |
| ErrorRuns.CloseEntriesExactly | crates/refineid-dev-errors/src/record.rs:171-205 | two neighbouring entries for one failure are closer than the window exactly when another failure's report wrote the second, inside the window and not directly behind the first's; it counts the repeats between |
| ErrorRuns.FlushedEntryIsClose | crates/refineid-dev-errors/src/record.rs:183-193 | three reports that give two entries for one failure two milliseconds apart |

## Left out

- PAdES, XAdES, the archive timestamp container, HTTP and the timestamp client: other formats over the same pieces.
- The eMRTD `LDSSecurityObject` parser, parsing a certificate and comparing it with a signer's identifier: parameters of `SignedContainer.X509`.
- Hash functions, RSA, Montgomery form and the limbs of big integers: digests are uninterpreted, field elements are integers modulo `p` and `n`. A curve over a field of one element is not modelled, nor the saturation of the bit count for orders beyond 2^29 octets.
- Inflating deflated entries and the reader's lenient UTF-8 decoding: parameters of `Zip.Library` and `Manifest.Library`.
- The messages inside refusals of the CMS, Base64 and ECDSA readers: acceptance and the value are compared, not which message a refusal carries. The ZIP and manifest readers' errors are kept apart by kind.
- Sorting and removing duplicates in place: `DerSet.Sorted` and `DerSet.Deduped` say what the library calls leave behind, not how.
- Lengths of 4 GiB and more, where the BER encoder panics: the writers require less.
- The recommended lengths a card publishes, the digits themselves and whether a code is right: any code may be accepted or refused by the card.
- How a PIN's changed flag and an activation's certificate date come about: both are free choices of the card.
- Timing in the agent: deadlines, windows and pauses are free choices, so the wall-clock bounds on the standing offer are not stated. The pairing store, the phone's engine and `wire.rs` are not part of this model.
- A loop of the agent that could run forever is cut after a number of rounds left open: what is stated holds after every number of rounds.
- The offer and the request channel are composed each on its own, in `OfferGate` and `RequestRuns`: no step of one reads the other's state but for the thread's end.
- Poisoned locks and panics of a thread.
- Fixed-layout codecs, tables and display code: they would add only easy members.
