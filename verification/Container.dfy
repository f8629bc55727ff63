/**
 The ASiC-E container with a CAdES signature, end to end: object names (`document.rs`), the archive
 (`asic.rs`), and the digest check of the reader (`asic_verify.rs`).
 */
module Container {

  import opened Octets
  import opened Text
  import opened Manifest
  import ManifestReader
  import Cades
  import Zip

  /** `mimetype` */
  const MIMETYPE_ENTRY: octets := [0x6D, 0x69, 0x6D, 0x65, 0x74, 0x79, 0x70, 0x65]

  /** `META-INF/` */
  const META_INF: octets := [0x4D, 0x45, 0x54, 0x41, 0x2D, 0x49, 0x4E, 0x46, 0x2F]

  /** `META-INF/ASiCManifest.xml` */
  const MANIFEST_ENTRY: octets := META_INF + [0x41, 0x53, 0x69, 0x43] + [0x4D, 0x61, 0x6E, 0x69, 0x66, 0x65, 0x73, 0x74]
                                  + [0x2E, 0x78, 0x6D, 0x6C]

  /** `META-INF/manifest.xml` */
  const MANIFEST_ENTRY_ODF: octets := META_INF + [0x6D, 0x61, 0x6E, 0x69, 0x66, 0x65, 0x73, 0x74]
                                      + [0x2E, 0x78, 0x6D, 0x6C]

  /** `META-INF/signature.p7s` */
  const CMS_ENTRY: octets := META_INF + [0x73, 0x69, 0x67, 0x6E, 0x61, 0x74, 0x75, 0x72, 0x65] + [0x2E, 0x70, 0x37, 0x73]

  /** `application/vnd.etsi.asic-e+zip` */
  function MimetypeAsice(): octets {
    Utf8("application/" + "vnd.etsi.asic-e+zip")
  }

  // ----- Object names -----

  function Lower(b: byte): byte {
    if 0x41 <= b <= 0x5A then b + 0x20 else b
  }

  predicate EqualsIgnoringCase(a: octets, b: octets) {
    |a| == |b| && forall k :: 0 <= k < |a| ==> Lower(a[k]) == Lower(b[k])
  }

  /** A path component that is empty, `.` or `..` somewhere between slashes. */
  predicate HasBadComponent(name: octets) {
    exists i, j :: 0 <= i <= j <= |name| && IsComponent(name, i, j) && BadComponent(name[i..j])
  }

  predicate IsComponent(name: octets, i: nat, j: nat)
    requires i <= j <= |name|
  {
    (i == 0 || name[i - 1] == 0x2F) && (j == |name| || name[j] == 0x2F) && 0x2F !in name[i..j]
  }

  predicate BadComponent(component: octets) {
    component == [] || component == [0x2E] || component == [0x2E, 0x2E]
  }

  /** A control character: below the space, or from delete through the C1 controls. */
  predicate HasControl(name: octets) {
    exists k :: 0 <= k < |name|
      && (name[k] < 0x20 || name[k] == 0x7F
          || (name[k] == 0xC2 && k + 1 < |name| && 0x80 <= name[k + 1] <= 0x9F))
  }

  predicate UnusableObjectName(name: octets) {
    || name == []
    || EqualsIgnoringCase(name, MIMETYPE_ENTRY)
    || EqualsIgnoringCase(name, META_INF[..8])
    || (|name| >= |META_INF| && EqualsIgnoringCase(name[..|META_INF|], META_INF))
    || name[0] == 0x2F
    || 0x5C in name
    || HasBadComponent(name)
    || HasControl(name)
  }

  predicate UsableNames(objects: seq<DataObject>) {
    && (forall k :: 0 <= k < |objects| ==> !UnusableObjectName(objects[k].name))
    && forall i, j :: 0 <= i < j < |objects| ==> objects[i].name != objects[j].name
  }

  /** Every name usable, none twice. */
  method CheckObjectNames(objects: seq<DataObject>) returns (ok: bool)
    ensures ok <==> UsableNames(objects)
  {
    hide UnusableObjectName;
    var seen: seq<octets> := [];
    for k := 0 to |objects|
      invariant |seen| == k && forall i :: 0 <= i < k ==> seen[i] == objects[i].name
      invariant forall i :: 0 <= i < k ==> !UnusableObjectName(objects[i].name)
      invariant forall i, j :: 0 <= i < j < k ==> objects[i].name != objects[j].name
    {
      var name := objects[k].name;
      if UnusableObjectName(name) || name in seen {
        return false;
      }
      seen := seen + [name];
    }
    return true;
  }

  predicate InMetaInf(name: octets) {
    META_INF <= name
  }

  lemma FurnitureIsCaught(name: octets)
    ensures name == MIMETYPE_ENTRY ==> EqualsIgnoringCase(name, MIMETYPE_ENTRY)
    ensures InMetaInf(name) ==> |name| >= |META_INF| && EqualsIgnoringCase(name[..|META_INF|], META_INF)
  {
    assert InMetaInf(name) ==> name[..|META_INF|] == META_INF;
  }

  /** A usable name collides with nothing the container adds. */
  lemma UsableIsApart(name: octets)
    requires !UnusableObjectName(name)
    ensures name != MIMETYPE_ENTRY && !InMetaInf(name)
  {
    FurnitureIsCaught(name);
    hide HasBadComponent, HasControl, InMetaInf, EqualsIgnoringCase;
  }

  lemma FurnitureNames()
    ensures InMetaInf(MANIFEST_ENTRY) && InMetaInf(CMS_ENTRY) && InMetaInf(MANIFEST_ENTRY_ODF)
    ensures !InMetaInf(MIMETYPE_ENTRY) && MANIFEST_ENTRY != CMS_ENTRY
  {
    assert MANIFEST_ENTRY[9] == 0x41 && CMS_ENTRY[9] == 0x73;
    assert META_INF[0] != MIMETYPE_ENTRY[0];
    assert |META_INF| == 9;
  }

  // ----- The archive -----

  function ObjectEntries(objects: seq<DataObject>): (entries: seq<Zip.Entry>)
    ensures |entries| == |objects|
    ensures forall k :: 0 <= k < |objects| ==> entries[k] == Zip.Entry(objects[k].name, objects[k].content)
  {
    seq(|objects|, k requires 0 <= k < |objects| => Zip.Entry(objects[k].name, objects[k].content))
  }

  /** `mimetype` first, then the objects, then manifest and signature. */
  function ContainerEntries(objects: seq<DataObject>, manifest: octets, cms: octets): (entries: seq<Zip.Entry>)
    ensures |entries| == |objects| + 3
    ensures entries[0] == Zip.Entry(MIMETYPE_ENTRY, MimetypeAsice())
    ensures forall k :: 0 <= k < |objects| ==> entries[k + 1] == Zip.Entry(objects[k].name, objects[k].content)
    ensures entries[|objects| + 1] == Zip.Entry(MANIFEST_ENTRY, manifest)
    ensures entries[|objects| + 2] == Zip.Entry(CMS_ENTRY, cms)
  {
    [Zip.Entry(MIMETYPE_ENTRY, MimetypeAsice())] + ObjectEntries(objects)
    + [Zip.Entry(MANIFEST_ENTRY, manifest), Zip.Entry(CMS_ENTRY, cms)]
  }

  lemma {:induction false} UnaddressableStays(entries: seq<Zip.Entry>, k: nat, n: nat)
    requires k <= n <= |entries| && !Zip.Addressable(entries, k)
    ensures !Zip.Addressable(entries, n)
    decreases n
  {
    if k < n {
      UnaddressableStays(entries, k, n - 1);
    }
  }

  /** The writer after some adds: it holds the first `k` entries, or has overflowed for good. */
  ghost predicate Holds(w: Zip.ZipWriter, entries: seq<Zip.Entry>, k: nat)
    requires k <= |entries|
    reads w
  {
    && w.Valid()
    && (!w.overflowed ==> w.entries == entries[..k] && Zip.Addressable(entries, k)
                          && Zip.Locals(entries, k) == Zip.Locals(w.entries, |w.entries|))
    && (w.overflowed ==> !Zip.Addressable(entries, |entries|))
  }

  /** One more entry added; the result of the add is not looked at. */
  method AddEntry(w: Zip.ZipWriter, name: octets, content: octets, ghost entries: seq<Zip.Entry>, ghost k: nat)
    requires k < |entries| && entries[k] == Zip.Entry(name, content) && Holds(w, entries, k)
    modifies w
    ensures Holds(w, entries, k + 1)
  {
    hide Zip.Addressable, Zip.Locals, Zip.Directory, Zip.Describable;
    ghost var before, wasFine := w.entries, !w.overflowed;
    var ok := w.Add(name, content);
    if wasFine {
      StepHolds(before, entries, k);
    }
  }

  /** What adding entry `k` does to what the writer holds. */
  lemma StepHolds(before: seq<Zip.Entry>, entries: seq<Zip.Entry>, k: nat)
    requires k < |entries| && before == entries[..k]
    requires Zip.Addressable(entries, k) && Zip.Addressable(before, |before|)
    requires Zip.Locals(entries, k) == Zip.Locals(before, |before|)
    ensures var fits := |Zip.Locals(before, |before|)| < U32_LIMIT && Zip.Describable(entries[k]) && k < U16_LIMIT - 1;
      && (fits ==> && before + [entries[k]] == entries[..k + 1]
                   && Zip.Addressable(entries, k + 1) && Zip.Addressable(entries[..k + 1], k + 1)
                   && Zip.Locals(entries, k + 1) == Zip.Locals(entries[..k + 1], k + 1))
      && (!fits ==> !Zip.Addressable(entries, |entries|))
  {
    hide Zip.LocalEntry, Zip.CentralRecord, Zip.Describable;
    assert entries[..k + 1] == entries[..k] + [entries[k]];
    if |Zip.Locals(before, |before|)| < U32_LIMIT && Zip.Describable(entries[k]) && k < U16_LIMIT - 1 {
      Zip.OneMore(entries, k);
      Zip.AddressableAppend(before, entries[k], |before|);
      Zip.OneMore(before + [entries[k]], |before|);
    } else {
      assert !Zip.Addressable(entries, k + 1);
      UnaddressableStays(entries, k + 1, |entries|);
    }
  }

  /** The finished container, exactly when the archive's fields can hold it. */
  method FinishContainer(objects: seq<DataObject>, manifest: octets, cms: octets) returns (archive: Option<octets>)
    ensures archive.Some? <==> Zip.Finishable(ContainerEntries(objects, manifest, cms))
    ensures archive.Some? ==> archive.value == Zip.Archive(ContainerEntries(objects, manifest, cms))
  {
    hide Zip.Archive, Zip.Directory, Zip.Locals, Zip.Addressable, ContainerEntries, MimetypeAsice;
    ghost var entries := ContainerEntries(objects, manifest, cms);
    var w := new Zip.ZipWriter();
    assert entries[..0] == [];
    Zip.NothingAtFirst(entries);
    Zip.NothingAtFirst([]);
    AddEntry(w, MIMETYPE_ENTRY, MimetypeAsice(), entries, 0);
    for k := 0 to |objects|
      invariant Holds(w, entries, k + 1)
    {
      AddEntry(w, objects[k].name, objects[k].content, entries, k + 1);
    }
    AddEntry(w, MANIFEST_ENTRY, manifest, entries, |objects| + 1);
    AddEntry(w, CMS_ENTRY, cms, entries, |objects| + 2);
    archive := w.Finish();
    assert entries[..|entries|] == entries;
  }

  // ----- Reading -----

  datatype Detail = Fine | MissingFromContainer | DigestMismatch | NotCovered

  datatype VerifiedFile = VerifiedFile(name: octets, digestOk: bool, detail: Detail)

  datatype DocumentError =
    | PdfUnsupported
    | XadesUnsupported
    | NoManifest
    | ZipError(zip: Zip.ReadError)
    | ManifestRefused(manifest: ManifestError)

  /** The two UTF-8 decoders and the inflater, which belong to libraries. */
  datatype Libraries = Libraries(strict: octets -> Option<string>, lossy: octets -> octets,
                                 inflate: octets -> Option<octets>)

  function ZipLibrary(library: Libraries): Zip.Library {
    Zip.Library(library.lossy, library.inflate)
  }

  function ManifestLibrary(library: Libraries): Manifest.Library {
    Manifest.Library(library.strict, library.lossy)
  }

  /** The content of the first entry of that name. */
  function FindEntry(entries: seq<Zip.Entry>, name: octets): Option<octets> {
    if entries == [] then None
    else if entries[0].name == name then Some(entries[0].content)
    else FindEntry(entries[1..], name)
  }

  lemma {:induction false} FindEntryIs(entries: seq<Zip.Entry>, k: nat)
    requires k < |entries| && forall j :: 0 <= j < k ==> entries[j].name != entries[k].name
    ensures FindEntry(entries, entries[k].name) == Some(entries[k].content)
    decreases |entries|
  {
    if k > 0 {
      FindEntryIs(entries[1..], k - 1);
    }
  }

  /** One reference: the entry by its decoded name, else by the name as written, and its digest. */
  function CheckDigest(digest: Cades.DigestFunction, entries: seq<Zip.Entry>, ref: ManifestRef): VerifiedFile {
    var byUri := FindEntry(entries, ref.uri);
    var content := if byUri.Some? then byUri else FindEntry(entries, Utf8(ref.rawUri));
    match content
    case None => VerifiedFile(ref.uri, false, MissingFromContainer)
    case Some(data) =>
      if digest(ref.algorithm, data) == ref.expected then VerifiedFile(ref.uri, true, Fine)
      else VerifiedFile(ref.uri, false, DigestMismatch)
  }

  function CheckDigests(digest: Cades.DigestFunction, entries: seq<Zip.Entry>, refs: seq<ManifestRef>)
    : (files: seq<VerifiedFile>)
    ensures |files| == |refs|
    ensures forall k :: 0 <= k < |refs| ==> files[k] == CheckDigest(digest, entries, refs[k])
  {
    seq(|refs|, k requires 0 <= k < |refs| => CheckDigest(digest, entries, refs[k]))
  }

  predicate IsData(name: octets) {
    name != MIMETYPE_ENTRY && !InMetaInf(name)
  }

  predicate Covered(refs: seq<ManifestRef>, name: octets) {
    exists k :: 0 <= k < |refs| && (refs[k].uri == name || Utf8(refs[k].rawUri) == name)
  }

  /** A file for every data entry that no reference covers. */
  function Uncovered(entries: seq<Zip.Entry>, refs: seq<ManifestRef>): seq<VerifiedFile> {
    if entries == [] then []
    else
      var last := entries[|entries| - 1];
      Uncovered(entries[..|entries| - 1], refs)
      + if IsData(last.name) && !Covered(refs, last.name) then [VerifiedFile(last.name, false, NotCovered)] else []
  }

  predicate Attested(refs: seq<ManifestRef>, name: octets) {
    IsData(name) ==> Covered(refs, name)
  }

  /** Nothing is flagged exactly when every data entry is covered. */
  lemma {:induction false} NothingUncovered(entries: seq<Zip.Entry>, refs: seq<ManifestRef>)
    ensures Uncovered(entries, refs) == [] <==> forall e :: e in entries ==> Attested(refs, e.name)
  {
    if entries != [] {
      var init, last := entries[..|entries| - 1], entries[|entries| - 1];
      NothingUncovered(init, refs);
      UncoveredLast(init, last, refs);
      hide Uncovered, Attested;
      assert entries == init + [last];
    }
  }

  lemma UncoveredLast(init: seq<Zip.Entry>, last: Zip.Entry, refs: seq<ManifestRef>)
    ensures Uncovered(init + [last], refs) == [] <==> Uncovered(init, refs) == [] && Attested(refs, last.name)
  {
    hide IsData, Covered;
    assert (init + [last])[..|init|] == init;
  }

  method FlagUncoveredFiles(entries: seq<Zip.Entry>, refs: seq<ManifestRef>, files: seq<VerifiedFile>)
    returns (flagged: seq<VerifiedFile>)
    ensures flagged == files + Uncovered(entries, refs)
  {
    hide IsData, Covered;
    flagged := files;
    for k := 0 to |entries|
      invariant flagged == files + Uncovered(entries[..k], refs)
    {
      assert entries[..k + 1][..k] == entries[..k];
      if !IsData(entries[k].name) {
        continue;
      }
      if !Covered(refs, entries[k].name) {
        flagged := flagged + [VerifiedFile(entries[k].name, false, NotCovered)];
      }
    }
    assert entries[..|entries|] == entries;
  }

  /** `%PDF` */
  const PDF_MARK: octets := [0x25, 0x50, 0x44, 0x46]

  /** What the container's entries say about its files, and the entries themselves. */
  datatype Checked = Checked(entries: seq<Zip.Entry>, manifest: octets, files: seq<VerifiedFile>)

  function CheckEntries(digest: Cades.DigestFunction, entries: seq<Zip.Entry>, library: Libraries)
    : Result<Checked, DocumentError>
  {
    match FindEntry(entries, MANIFEST_ENTRY)
    case None =>
      Err(if FindEntry(entries, MANIFEST_ENTRY_ODF).Some? then XadesUnsupported else NoManifest)
    case Some(manifest) =>
      match ParsedManifest(manifest, ManifestLibrary(library))
      case Err(error) => Err(ManifestRefused(error))
      case Ok(refs) => Ok(Checked(entries, manifest, CheckDigests(digest, entries, refs) + Uncovered(entries, refs)))
  }

  function CheckContainer(digest: Cades.DigestFunction, bytes: octets, library: Libraries)
    : Result<Checked, DocumentError>
  {
    if PDF_MARK <= bytes then Err(PdfUnsupported)
    else
      match Zip.EntriesFrom(bytes, 0, 0, 0, ZipLibrary(library))
      case Err(error) => Err(ZipError(error))
      case Ok(entries) => CheckEntries(digest, entries, library)
  }

  method VerifyBytes(digest: Cades.DigestFunction, bytes: octets, library: Libraries)
    returns (r: Result<Checked, DocumentError>)
    ensures r == CheckContainer(digest, bytes, library)
  {
    hide Zip.EntriesFrom, FindEntry, ParsedManifest, CheckDigests, Uncovered;
    if PDF_MARK <= bytes {
      return Err(PdfUnsupported);
    }
    var read := Zip.ReadZip(bytes, ZipLibrary(library));
    if read.Err? {
      return Err(ZipError(read.error));
    }
    var entries := read.value;
    var manifest := FindEntry(entries, MANIFEST_ENTRY);
    if manifest.None? {
      return Err(if FindEntry(entries, MANIFEST_ENTRY_ODF).Some? then XadesUnsupported else NoManifest);
    }
    var parsed := ManifestReader.ParseManifest(manifest.value, ManifestLibrary(library));
    if parsed.Err? {
      return Err(ManifestRefused(parsed.error));
    }
    var files := CheckDigests(digest, entries, parsed.value);
    files := FlagUncoveredFiles(entries, parsed.value, files);
    return Ok(Checked(entries, manifest.value, files));
  }

  // ----- End to end -----

  function AllFine(objects: seq<DataObject>): (files: seq<VerifiedFile>)
    ensures |files| == |objects|
    ensures forall k :: 0 <= k < |files| ==> files[k] == VerifiedFile(objects[k].name, true, Fine)
  {
    seq(|objects|, k requires 0 <= k < |objects| => VerifiedFile(objects[k].name, true, Fine))
  }

  /** The strict decoder reads this manifest back, and the lenient one leaves the entry names alone. */
  ghost predicate ReadsBack(library: Libraries, text: string, entries: seq<Zip.Entry>) {
    library.strict(Utf8(text)) == Some(text) && Zip.KeepsNames(entries, ZipLibrary(library))
  }

  lemma ObjectNamesKept(library: Libraries, text: string, objects: seq<DataObject>, manifest: octets, cms: octets)
    requires ReadsBack(library, text, ContainerEntries(objects, manifest, cms))
    ensures Manifest.KeepsNames(objects, ManifestLibrary(library).lossy)
  {
    var entries := ContainerEntries(objects, manifest, cms);
    forall o | o in objects
      ensures library.lossy(o.name) == o.name
    {
      var k :| 0 <= k < |objects| && objects[k] == o;
      assert entries[k + 1] in entries;
    }
  }

  /** Where the reader finds each entry: none before it has its name. */
  lemma EntriesFound(objects: seq<DataObject>, manifest: octets, cms: octets)
    requires UsableNames(objects)
    ensures var entries := ContainerEntries(objects, manifest, cms);
      && FindEntry(entries, MANIFEST_ENTRY) == Some(manifest)
      && FindEntry(entries, CMS_ENTRY) == Some(cms)
      && forall k :: 0 <= k < |objects| ==> FindEntry(entries, objects[k].name) == Some(objects[k].content)
  {
    hide FindEntry, UnusableObjectName, MANIFEST_ENTRY, CMS_ENTRY, MIMETYPE_ENTRY, InMetaInf;
    var entries := ContainerEntries(objects, manifest, cms);
    FurnitureNames();
    forall j | 0 <= j <= |objects|
      ensures !InMetaInf(entries[j].name) && (j > 0 ==> entries[j].name != MIMETYPE_ENTRY)
    {
      if j > 0 {
        UsableIsApart(objects[j - 1].name);
      }
    }
    FindEntryIs(entries, |objects| + 1);
    FindEntryIs(entries, |objects| + 2);
    forall k | 0 <= k < |objects|
      ensures FindEntry(entries, objects[k].name) == Some(objects[k].content)
    {
      forall j | 0 <= j < k + 1
        ensures entries[j].name != entries[k + 1].name
      {
        if j > 0 {
          assert entries[j].name == objects[j - 1].name;
        }
      }
      FindEntryIs(entries, k + 1);
    }
  }

  lemma DigestsAreFine(digest: Cades.DigestFunction, algorithm: Cades.DigestAlgorithm, objects: seq<DataObject>,
                       manifest: octets, cms: octets)
    requires UsableNames(objects)
    ensures CheckDigests(digest, ContainerEntries(objects, manifest, cms), RefsOf(digest, algorithm, objects))
      == AllFine(objects)
  {
    hide FindEntry, UsableNames, ContainerEntries, PercentEncoded, Utf8;
    EntriesFound(objects, manifest, cms);
  }

  lemma EverythingIsCovered(digest: Cades.DigestFunction, algorithm: Cades.DigestAlgorithm, objects: seq<DataObject>,
                            manifest: octets, cms: octets)
    ensures Uncovered(ContainerEntries(objects, manifest, cms), RefsOf(digest, algorithm, objects)) == []
  {
    hide *;
    var entries, refs := ContainerEntries(objects, manifest, cms), RefsOf(digest, algorithm, objects);
    forall e | e in entries
      ensures Attested(refs, e.name)
    {
      var k :| 0 <= k < |entries| && entries[k] == e;
      EntryIsAttested(digest, algorithm, objects, manifest, cms, k);
    }
    NothingUncovered(entries, refs);
  }

  lemma EntryIsAttested(digest: Cades.DigestFunction, algorithm: Cades.DigestAlgorithm, objects: seq<DataObject>,
                        manifest: octets, cms: octets, k: nat)
    requires k < |ContainerEntries(objects, manifest, cms)|
    ensures Attested(RefsOf(digest, algorithm, objects), ContainerEntries(objects, manifest, cms)[k].name)
  {
    hide MANIFEST_ENTRY, CMS_ENTRY, MIMETYPE_ENTRY, InMetaInf, Utf8, PercentEncoded;
    var refs := RefsOf(digest, algorithm, objects);
    FurnitureNames();
    if 0 < k <= |objects| {
      assert refs[k - 1].uri == objects[k - 1].name;
    }
  }

  lemma PdfStarts(bytes: octets)
    ensures PDF_MARK <= bytes ==> bytes != [] && bytes[0] == 0x25
  {
    if PDF_MARK <= bytes {
      assert bytes[..|PDF_MARK|][0] == bytes[0];
    }
  }

  lemma LocalEntryStarts(e: Zip.Entry)
    requires Zip.Describable(e)
    ensures |Zip.LocalEntry(e)| > 0 && Zip.LocalEntry(e)[0] == 0x50
  {
    hide Zip.SharedFields, Zip.LocalEntry;
    Zip.LocalEntryParts(e);
    assert Zip.LocalEntry(e)[0] == Zip.LocalEntry(e)[0..4][0];
  }

  lemma ArchiveIsNoPdf(entries: seq<Zip.Entry>)
    requires Zip.Finishable(entries) && entries != []
    ensures !(PDF_MARK <= Zip.Archive(entries))
  {
    hide *;
    Zip.RecordAndEntryLie(entries, 0);
    Zip.NothingAtFirst(entries);
    LocalEntryStarts(entries[0]);
    Zip.SliceOfSlice(Zip.Archive(entries), 0, Zip.LocalEntry(entries[0]), 0, 1);
    assert Zip.Archive(entries)[0 + 0..0 + 1][0] == Zip.Archive(entries)[0];
    assert Zip.LocalEntry(entries[0])[0..1][0] == 0x50;
    PdfStarts(Zip.Archive(entries));
  }

  /**
   The container end to end: for objects with usable names, within the archive's fields and the reader's
   limits, reading what plan and finish wrote gives every digest ok in order, flags no uncovered file, and
   gives the manifest and the signature back as they were.
   */
  lemma ContainerRoundTrip(digest: Cades.DigestFunction, algorithm: Cades.DigestAlgorithm, objects: seq<DataObject>,
                           cms: octets, library: Libraries)
    requires objects != [] && UsableNames(objects)
    requires var manifest := Utf8(ManifestText(digest, algorithm, objects));
      var entries := ContainerEntries(objects, manifest, cms);
      && Zip.Finishable(entries) && Zip.WithinReaderLimits(entries)
      && ReadsBack(library, ManifestText(digest, algorithm, objects), entries)
    ensures var manifest := Utf8(ManifestText(digest, algorithm, objects));
      var entries := ContainerEntries(objects, manifest, cms);
      && CheckContainer(digest, Zip.Archive(entries), library) == Ok(Checked(entries, manifest, AllFine(objects)))
      && FindEntry(entries, CMS_ENTRY) == Some(cms)
  {
    hide *;
    var text := ManifestText(digest, algorithm, objects);
    var manifest := Utf8(text);
    var entries := ContainerEntries(objects, manifest, cms);
    ContainerEntriesSize(objects, manifest, cms);
    ReadsBackMeans(library, text, entries);
    Zip.ArchiveRoundTrip(entries, ZipLibrary(library));
    ArchiveIsNoPdf(entries);
    ObjectNamesKept(library, text, objects, manifest, cms);
    EntriesFound(objects, manifest, cms);
    ManifestRoundTrip(digest, algorithm, objects, manifest, ManifestLibrary(library));
    DigestsAreFine(digest, algorithm, objects, manifest, cms);
    EverythingIsCovered(digest, algorithm, objects, manifest, cms);
    CheckMeans(digest, Zip.Archive(entries), library, entries, manifest, RefsOf(digest, algorithm, objects));
    assert AllFine(objects) + [] == AllFine(objects);
  }

  lemma ContainerEntriesSize(objects: seq<DataObject>, manifest: octets, cms: octets)
    ensures |ContainerEntries(objects, manifest, cms)| == |objects| + 3
  {
  }

  lemma ReadsBackMeans(library: Libraries, text: string, entries: seq<Zip.Entry>)
    requires ReadsBack(library, text, entries)
    ensures ManifestLibrary(library).strict(Utf8(text)) == Some(text)
    ensures Zip.KeepsNames(entries, ZipLibrary(library))
  {
    hide Utf8;
  }

  lemma CheckMeans(digest: Cades.DigestFunction, bytes: octets, library: Libraries, entries: seq<Zip.Entry>,
                   manifest: octets, refs: seq<ManifestRef>)
    requires !(PDF_MARK <= bytes) && Zip.EntriesFrom(bytes, 0, 0, 0, ZipLibrary(library)) == Ok(entries)
    requires FindEntry(entries, MANIFEST_ENTRY) == Some(manifest)
    requires ParsedManifest(manifest, ManifestLibrary(library)) == Ok(refs)
    ensures CheckContainer(digest, bytes, library)
      == Ok(Checked(entries, manifest, CheckDigests(digest, entries, refs) + Uncovered(entries, refs)))
  {
    hide Zip.EntriesFrom, FindEntry, ParsedManifest, CheckDigests, Uncovered;
  }
}
