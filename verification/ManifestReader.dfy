/** The manifest code as written: loops that append text, move a position and push references. */
module ManifestReader {

  import opened Octets
  import opened Text
  import opened Manifest
  import Base64
  import Cades

  // ----- Writing -----

  lemma {:induction false} ReferencesAppend(digest: Cades.DigestFunction, algorithm: Cades.DigestAlgorithm,
                                            objects: seq<DataObject>, last: DataObject)
    ensures ReferencesText(digest, algorithm, objects + [last])
      == ReferencesText(digest, algorithm, objects) + ReferenceText(digest, algorithm, last)
  {
    hide ReferenceText;
    if objects == [] {
      assert ([] + [last])[1..] == [];
    } else {
      assert (objects + [last])[1..] == objects[1..] + [last];
      ReferencesAppend(digest, algorithm, objects[1..], last);
    }
  }

  method WriteReference(digest: Cades.DigestFunction, algorithm: Cades.DigestAlgorithm, o: DataObject,
                        manifest: string)
    returns (longer: string)
    ensures longer == manifest + ReferenceText(digest, algorithm, o)
  {
    var encoded := Base64.Encode(digest(algorithm, o.content));
    assert encoded == DigestText(digest, algorithm, o);
    var value := VALUE_BODY;
    var valueEnd := VALUE_END_BODY;
    var referenceEnd := REFERENCE_END_BODY;
    var reference, method_ := ReferenceBody(o), MethodBody(algorithm);
    hide ReferenceBody, MethodBody, DigestText, VALUE_BODY, VALUE_END_BODY, REFERENCE_END_BODY, TagText;
    longer := manifest + ("  " + TagText(reference) + "\n");
    longer := longer + ("    " + TagText(method_) + "\n");
    longer := longer + ("    " + TagText(value) + encoded + TagText(valueEnd) + "\n");
    longer := longer + ("  " + TagText(referenceEnd) + "\n");
  }

  method WriteManifest(digest: Cades.DigestFunction, algorithm: Cades.DigestAlgorithm, objects: seq<DataObject>)
    returns (manifest: string)
    ensures manifest == ManifestText(digest, algorithm, objects)
  {
    hide *;
    manifest := HeadText();
    NoReferencesYet(digest, algorithm);
    for k := 0 to |objects|
      invariant manifest == HeadText() + ReferencesText(digest, algorithm, objects[..k])
    {
      OneMoreReference(digest, algorithm, objects, k);
      manifest := WriteReference(digest, algorithm, objects[k], manifest);
    }
    assert objects[..|objects|] == objects;
    manifest := manifest + TailText();
    ManifestTextMeans(digest, algorithm, objects);
  }

  lemma NoReferencesYet(digest: Cades.DigestFunction, algorithm: Cades.DigestAlgorithm)
    ensures HeadText() + ReferencesText(digest, algorithm, []) == HeadText()
  {
    hide HeadText;
  }

  lemma ManifestTextMeans(digest: Cades.DigestFunction, algorithm: Cades.DigestAlgorithm, objects: seq<DataObject>)
    ensures ManifestText(digest, algorithm, objects)
      == HeadText() + ReferencesText(digest, algorithm, objects) + TailText()
  {
    hide HeadText, ReferencesText, TailText;
  }

  lemma OneMoreReference(digest: Cades.DigestFunction, algorithm: Cades.DigestAlgorithm, objects: seq<DataObject>,
                         k: nat)
    requires k < |objects|
    ensures HeadText() + ReferencesText(digest, algorithm, objects[..k + 1])
      == HeadText() + ReferencesText(digest, algorithm, objects[..k]) + ReferenceText(digest, algorithm, objects[k])
  {
    hide HeadText, ReferencesText, ReferenceText;
    ReferencesAppend(digest, algorithm, objects[..k], objects[k]);
    assert objects[..k + 1] == objects[..k] + [objects[k]];
  }

  // ----- Reading -----

  method ScanTag(text: string, from: nat) returns (r: Option<(Tag, nat)>)
    requires from <= |text|
    ensures r == NextTag(text, from)
  {
    hide Find, StartsAt, TagOf;
    var pos := from;
    while true
      invariant from <= pos <= |text| && NextTag(text, pos) == NextTag(text, from)
      decreases |text| - pos
    {
      var open :- Find(text, "<", pos);
      var at := open + 1;
      if StartsAt(text, at, "!--") {
        var end :- Find(text, "-->", at + 3);
        pos := end + 3;
        continue;
      }
      if StartsAt(text, at, "?") {
        var end :- Find(text, "?>", at);
        pos := end + 2;
        continue;
      }
      if StartsAt(text, at, "!") {
        var end :- Find(text, ">", at);
        pos := end + 1;
        continue;
      }
      var end :- Find(text, ">", at);
      var tag :- TagOf(text[at..end]);
      return Some((tag, end + 1));
    }
  }

  /** The inner loop: tags up to the closing one of the reference. */
  method ScanInner(text: string, from: nat) returns (r: Result<Found, ManifestError>)
    requires from <= |text|
    ensures r == ScanReference(text, from, None, None)
  {
    hide Find, NextTag, LocalName, AttrValue, Base64.Trim;
    var pos := from;
    var algorithmUri: Option<string> := None;
    var value: Option<string> := None;
    while true
      invariant from <= pos <= |text|
      invariant ScanReference(text, pos, algorithmUri, value) == ScanReference(text, from, None, None)
      decreases |text| - pos
    {
      var next := ScanTag(text, pos);
      if next.None? {
        return Ok(Found(algorithmUri, value, pos));
      }
      var inner, after := next.value.0, next.value.1;
      TagAdvances(text, pos);
      pos := after;
      var local := LocalName(inner.name);
      if inner.closing && local == "DataObjectReference" {
        return Ok(Found(algorithmUri, value, pos));
      }
      if !inner.closing && local == "DigestMethod" {
        algorithmUri := AttrValue(inner.attrs, "Algorithm");
      }
      if !inner.closing && local == "DigestValue" {
        var end := Find(text, "<", pos);
        if end.None? {
          return Err(UnterminatedDigestValue);
        }
        FindStaysIn(text, pos);
        value := Some(Base64.Trim(text[pos..end.value]));
      }
    }
  }

  lemma TagAdvances(text: string, from: nat)
    requires from <= |text|
    ensures NextTag(text, from).Some? ==> from < NextTag(text, from).value.1 <= |text|
  {
  }

  lemma FindStaysIn(text: string, from: nat)
    ensures Find(text, "<", from).Some? ==> from <= Find(text, "<", from).value < |text|
  {
  }

  /** References already read, in front of what is still to come. */
  function Behind(refs: seq<ManifestRef>, rest: Result<seq<ManifestRef>, ManifestError>)
    : Result<seq<ManifestRef>, ManifestError>
  {
    match rest
    case Err(error) => Err(error)
    case Ok(more) => Ok(refs + more)
  }

  predicate ComesTo(goal: Result<seq<ManifestRef>, ManifestError>, refs: seq<ManifestRef>, text: string, pos: nat,
                    lossy: octets -> octets)
    requires pos <= |text|
  {
    Behind(refs, RefsFrom(text, pos, lossy)) == goal
  }

  lemma NothingRead(text: string, lossy: octets -> octets)
    ensures ComesTo(RefsFrom(text, 0, lossy), [], text, 0, lossy)
  {
    var rest := RefsFrom(text, 0, lossy);
    if rest.Ok? {
      assert [] + rest.value == rest.value;
    }
  }

  /** One round of the outer loop. */
  lemma RefsRound(goal: Result<seq<ManifestRef>, ManifestError>, refs: seq<ManifestRef>, text: string, pos: nat,
                  lossy: octets -> octets)
    requires pos <= |text| && ComesTo(goal, refs, text, pos, lossy)
    ensures NextTag(text, pos).None? ==> goal == Ok(refs)
    ensures NextTag(text, pos).Some?
      ==> var tag, after := NextTag(text, pos).value.0, NextTag(text, pos).value.1;
          && (tag.closing || LocalName(tag.name) != "DataObjectReference" ==> ComesTo(goal, refs, text, after, lossy))
          && (!tag.closing && LocalName(tag.name) == "DataObjectReference"
              ==> RefRound(goal, refs, text, tag, after, lossy))
  {
    hide NextTag, LocalName, AttrValue, ScanReference, RefOf;
    assert refs + [] == refs;
    if NextTag(text, pos).Some? {
      var tag, after := NextTag(text, pos).value.0, NextTag(text, pos).value.1;
      if !tag.closing && LocalName(tag.name) == "DataObjectReference" && AttrValue(tag.attrs, "URI").Some? {
        var rawUri := AttrValue(tag.attrs, "URI").value;
        var found := ScanReference(text, after, None, None);
        if found.Ok? && RefOf(rawUri, found.value, lossy).Ok? {
          var ref := RefOf(rawUri, found.value, lossy).value;
          var rest := RefsFrom(text, found.value.next, lossy);
          if rest.Ok? {
            assert refs + ([ref] + rest.value) == refs + [ref] + rest.value;
          }
        }
      }
    }
  }

  /** What a reference's tag does to the result. */
  predicate RefRound(goal: Result<seq<ManifestRef>, ManifestError>, refs: seq<ManifestRef>, text: string, tag: Tag,
                     after: nat, lossy: octets -> octets)
    requires after <= |text|
  {
    match AttrValue(tag.attrs, "URI")
    case None => goal == Err(ReferenceWithoutUri)
    case Some(rawUri) =>
      match ScanReference(text, after, None, None)
      case Err(error) => goal == Err(error)
      case Ok(found) =>
        match RefOf(rawUri, found, lossy)
        case Err(error) => goal == Err(error)
        case Ok(ref) => ComesTo(goal, refs + [ref], text, found.next, lossy)
  }

  method ReadRefs(text: string, lossy: octets -> octets) returns (r: Result<seq<ManifestRef>, ManifestError>)
    ensures r == RefsFrom(text, 0, lossy)
  {
    hide NextTag, LocalName, AttrValue, ScanReference, RefOf, RefsFrom, ComesTo;
    var refs: seq<ManifestRef> := [];
    var pos := 0;
    ghost var goal := RefsFrom(text, 0, lossy);
    NothingRead(text, lossy);
    while true
      invariant 0 <= pos <= |text| && ComesTo(goal, refs, text, pos, lossy)
      decreases |text| - pos
    {
      RefsRound(goal, refs, text, pos, lossy);
      TagAdvances(text, pos);
      var next := ScanTag(text, pos);
      if next.None? {
        return Ok(refs);
      }
      var tag, after := next.value.0, next.value.1;
      pos := after;
      if tag.closing || LocalName(tag.name) != "DataObjectReference" {
        continue;
      }
      var rawUri := AttrValue(tag.attrs, "URI");
      if rawUri.None? {
        return Err(ReferenceWithoutUri);
      }
      var scanned := ScanInner(text, pos);
      if scanned.Err? {
        return Err(scanned.error);
      }
      var found := scanned.value;
      ScanAdvances(text, pos);
      var ref := RefOf(rawUri.value, found, lossy);
      if ref.Err? {
        return Err(ref.error);
      }
      refs := refs + [ref.value];
      pos := found.next;
    }
  }

  lemma ScanAdvances(text: string, from: nat)
    requires from <= |text|
    ensures ScanReference(text, from, None, None).Ok?
      ==> from <= ScanReference(text, from, None, None).value.next <= |text|
  {
  }

  method ParseManifest(xml: octets, library: Library) returns (r: Result<seq<ManifestRef>, ManifestError>)
    ensures r == ParsedManifest(xml, library)
  {
    hide RefsFrom;
    var text := library.strict(xml);
    if text.None? {
      return Err(NotUtf8);
    }
    var refs :- ReadRefs(text.value, library.lossy);
    if refs == [] {
      return Err(NoReferences);
    }
    return Ok(refs);
  }

  /** The percent-decoding loop of a manifest URI. */
  method DecodePercent(bytes: octets) returns (out: octets)
    ensures out == PercentDecoded(bytes)
  {
    hide HexOctet;
    out := [];
    var index := 0;
    assert bytes[0..] == bytes;
    while index < |bytes|
      invariant index <= |bytes|
      invariant out + PercentDecoded(bytes[index..]) == PercentDecoded(bytes)
    {
      ghost var rest := bytes[index..];
      assert rest[0] == bytes[index] && rest[1..] == bytes[index + 1..];
      if bytes[index] == 0x25 && index + 3 <= |bytes| && HexOctet(bytes[index + 1], bytes[index + 2]).Some? {
        var value := HexOctet(bytes[index + 1], bytes[index + 2]).value;
        assert rest[1] == bytes[index + 1] && rest[2] == bytes[index + 2] && rest[3..] == bytes[index + 3..];
        assert out + ([value] + PercentDecoded(rest[3..])) == out + [value] + PercentDecoded(rest[3..]);
        out := out + [value];
        index := index + 3;
        continue;
      }
      assert out + ([rest[0]] + PercentDecoded(rest[1..])) == out + [rest[0]] + PercentDecoded(rest[1..]);
      out := out + [bytes[index]];
      index := index + 1;
    }
  }
}
