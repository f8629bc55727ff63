/** The `ASiCManifest.xml` writer (`asic.rs`) and the liberal tag scan that reads it (`asic_verify.rs`). */
module Manifest {

  import opened Octets
  import opened Text
  import Base64
  import Cades

  const NAMESPACE_ASIC: string := "http://uri.etsi" + ".org/02918/v1.2.1#"
  const NAMESPACE_DSIG: string := "http://www.w3.org" + "/2000/09/xmldsig#"
  const SIGNATURE_ENTRY: string := "META-INF/" + "signature.p7s"
  const MIMETYPE_SIGNATURE: string := "application/" + "pkcs7-signature"
  const W3_2001: string := "http://www.w3.org" + "/2001/04/"
  const SHA256_URI: string := W3_2001 + "xmlenc#sha256"
  const SHA384_URI: string := W3_2001 + "xmldsig-more#sha384"
  const SHA384_ENC_URI: string := W3_2001 + "xmlenc#sha384"

  const REFERENCE_NAME: string := "asic" + ":" + "DataObjectReference"
  const METHOD_NAME: string := "ds" + ":" + "DigestMethod"
  const VALUE_NAME: string := "ds" + ":" + "DigestValue"
  const MANIFEST_NAME: string := "asic" + ":" + "ASiCManifest"
  const SIG_REFERENCE_NAME: string := "asic" + ":" + "SigReference"

  /** A file to carry and attest; the name in UTF-8 octets. */
  datatype DataObject = DataObject(name: octets, mimeType: string, content: octets)

  // ----- Writing -----

  function MethodUri(algorithm: Cades.DigestAlgorithm): string {
    match algorithm
    case Sha256 => SHA256_URI
    case Sha384 => SHA384_URI
  }

  function TagText(body: string): string {
    "<" + body + ">"
  }

  function ReferenceBody(o: DataObject): string {
    REFERENCE_NAME + " URI=\"" + EscapedAttribute(PercentEncoded(o.name))
    + ("\" MimeType=\"" + EscapedAttribute(o.mimeType) + "\"")
  }

  function MethodBody(algorithm: Cades.DigestAlgorithm): string {
    METHOD_NAME + " Algorithm=\"" + MethodUri(algorithm) + "\"/"
  }

  function DigestText(digest: Cades.DigestFunction, algorithm: Cades.DigestAlgorithm, o: DataObject): string {
    Base64.Encoded(digest(algorithm, o.content), false)
  }

  const VALUE_BODY: string := VALUE_NAME
  const VALUE_END_BODY: string := "/" + VALUE_NAME
  const REFERENCE_END_BODY: string := "/" + REFERENCE_NAME
  const MANIFEST_END_BODY: string := "/" + MANIFEST_NAME

  function ManifestAttrs(): string {
    "xmlns:asic=\"" + (NAMESPACE_ASIC + ("\" xmlns:ds=\"" + (NAMESPACE_DSIG + "\"")))
  }

  function SigReferenceAttrs(): string {
    "URI=\"" + (SIGNATURE_ENTRY + ("\" MimeType=\"" + (MIMETYPE_SIGNATURE + "\"")))
  }

  function ManifestBody(): string {
    MANIFEST_NAME + (" " + ManifestAttrs())
  }

  function SigReferenceBody(): string {
    SIG_REFERENCE_NAME + (" " + SigReferenceAttrs()) + "/"
  }

  const DECLARATION_INSIDE: string := "xml version=" + "\"1.0\" encoding=" + "\"UTF-8\""
  const XML_DECLARATION: string := "?" + DECLARATION_INSIDE + "?"

  function HeadText(): string {
    TagText(XML_DECLARATION) + "\n" + TagText(ManifestBody()) + "\n" + "  " + TagText(SigReferenceBody()) + "\n"
  }

  function ReferenceText(digest: Cades.DigestFunction, algorithm: Cades.DigestAlgorithm, o: DataObject): string {
    "  " + TagText(ReferenceBody(o)) + "\n"
    + ("    " + TagText(MethodBody(algorithm)) + "\n")
    + ("    " + TagText(VALUE_BODY) + DigestText(digest, algorithm, o) + TagText(VALUE_END_BODY) + "\n")
    + ("  " + TagText(REFERENCE_END_BODY) + "\n")
  }

  function ReferencesText(digest: Cades.DigestFunction, algorithm: Cades.DigestAlgorithm, objects: seq<DataObject>)
    : string
  {
    if objects == [] then ""
    else ReferenceText(digest, algorithm, objects[0]) + ReferencesText(digest, algorithm, objects[1..])
  }

  function TailText(): string {
    TagText(MANIFEST_END_BODY) + "\n"
  }

  function ManifestText(digest: Cades.DigestFunction, algorithm: Cades.DigestAlgorithm, objects: seq<DataObject>)
    : string
  {
    HeadText() + ReferencesText(digest, algorithm, objects) + TailText()
  }

  // ----- The tag scan -----

  datatype Tag = Tag(name: string, attrs: string, closing: bool)

  function FirstWhitespace(s: string, from: nat): (r: nat)
    requires from <= |s|
    ensures from <= r <= |s|
    decreases |s| - from
  {
    if from == |s| || Base64.IsWhitespace(s[from]) then from else FirstWhitespace(s, from + 1)
  }

  function WithoutSlashes(body: string): string {
    var inner := if body != "" && body[0] == '/' then body[1..] else body;
    if inner != "" && inner[|inner| - 1] == '/' then inner[..|inner| - 1] else inner
  }

  /** What stands between `<` and `>`; `None` without a name. */
  function TagOf(body: string): Option<Tag> {
    var inner := WithoutSlashes(body);
    var split := FirstWhitespace(inner, 0);
    if split == 0 then None else Some(Tag(inner[..split], inner[split..], body != "" && body[0] == '/'))
  }

  /** The next tag at or after `from` and the place behind it; comments and declarations are no tags. */
  function NextTag(text: string, from: nat): (r: Option<(Tag, nat)>)
    requires from <= |text|
    ensures r.Some? ==> from < r.value.1 <= |text|
    decreases |text| - from
  {
    var open :- Find(text, "<", from);
    var at := open + 1;
    if StartsAt(text, at, "!--") then
      var end :- Find(text, "-->", at + 3);
      NextTag(text, end + 3)
    else if StartsAt(text, at, "?") then
      var end :- Find(text, "?>", at);
      NextTag(text, end + 2)
    else if StartsAt(text, at, "!") then
      var end :- Find(text, ">", at);
      NextTag(text, end + 1)
    else
      var end :- Find(text, ">", at);
      var tag :- TagOf(text[at..end]);
      Some((tag, end + 1))
  }

  function LastColon(name: string): (at: nat)
    ensures at <= |name|
    decreases |name|
  {
    if name == "" then 0 else if name[|name| - 1] == ':' then |name| else LastColon(name[..|name| - 1])
  }

  /** The name without its namespace prefix. */
  function LocalName(name: string): string {
    name[LastColon(name)..]
  }

  function QuotedValue(attrs: string, form: string, quote: string): Option<Option<string>>
  {
    match Find(attrs, form, 0)
    case None => None
    case Some(start) =>
      match Find(attrs, quote, start + |form|)
      case None => Some(None)
      case Some(end) => Some(Some(attrs[start + |form|..end]))
  }

  /** Either quote style; a value that does not end ends the search. */
  function AttrValue(attrs: string, wanted: string): Option<string> {
    match QuotedValue(attrs, wanted + "=\"", "\"")
    case Some(value) => value
    case None =>
      match QuotedValue(attrs, wanted + "='", "'")
      case Some(value) => value
      case None => None
  }

  // ----- Reading the manifest -----

  datatype ManifestError =
    | NotUtf8
    | ReferenceWithoutUri
    | UnterminatedDigestValue
    | ReferenceWithoutDigestMethod
    | UnsupportedDigest
    | ReferenceWithoutDigestValue
    | BadDigestValue
    | NoReferences

  datatype ManifestRef = ManifestRef(uri: octets, rawUri: string, algorithm: Cades.DigestAlgorithm, expected: octets)

  function DigestByUri(uri: string): Option<Cades.DigestAlgorithm> {
    if uri == SHA256_URI then Some(Cades.Sha256)
    else if uri == SHA384_URI || uri == SHA384_ENC_URI then Some(Cades.Sha384)
    else None
  }

  function Unescaped(raw: string): string {
    Replaced(Replaced(Replaced(Replaced(Replaced(raw, "&quot;", "\""), "&apos;", "'"), "&lt;", "<"), "&gt;", ">"),
             "&amp;", "&")
  }

  /** XML-unescaped, percent-decoded, and leniently taken as UTF-8. */
  function DecodedUri(raw: string, lossy: octets -> octets): octets {
    lossy(PercentDecoded(Utf8(Unescaped(raw))))
  }

  /** What the scan of one reference has found, and where it stopped. */
  datatype Found = Found(algorithmUri: Option<string>, value: Option<string>, next: nat)

  function ScanReference(text: string, from: nat, algorithmUri: Option<string>, value: Option<string>)
    : (r: Result<Found, ManifestError>)
    requires from <= |text|
    ensures r.Ok? ==> from <= r.value.next <= |text|
    decreases |text| - from
  {
    match NextTag(text, from)
    case None => Ok(Found(algorithmUri, value, from))
    case Some((inner, after)) =>
      var local := LocalName(inner.name);
      if inner.closing && local == "DataObjectReference" then Ok(Found(algorithmUri, value, after))
      else
        var uri := if !inner.closing && local == "DigestMethod" then AttrValue(inner.attrs, "Algorithm")
                   else algorithmUri;
        if !inner.closing && local == "DigestValue" then
          match Find(text, "<", after)
          case None => Err(UnterminatedDigestValue)
          case Some(end) => ScanReference(text, after, uri, Some(Base64.Trim(text[after..end])))
        else ScanReference(text, after, uri, value)
  }

  /** The reference a scan found, behind its opening tag. */
  function RefOf(rawUri: string, found: Found, lossy: octets -> octets): Result<ManifestRef, ManifestError> {
    match found.algorithmUri
    case None => Err(ReferenceWithoutDigestMethod)
    case Some(algorithmUri) =>
      match DigestByUri(algorithmUri)
      case None => Err(UnsupportedDigest)
      case Some(algorithm) =>
        match found.value
        case None => Err(ReferenceWithoutDigestValue)
        case Some(encoded) =>
          match Base64.Decoded(encoded)
          case None => Err(BadDigestValue)
          case Some(expected) => Ok(ManifestRef(DecodedUri(rawUri, lossy), rawUri, algorithm, expected))
  }

  /** The references from `from` on. */
  function RefsFrom(text: string, from: nat, lossy: octets -> octets): Result<seq<ManifestRef>, ManifestError>
    requires from <= |text|
    decreases |text| - from
  {
    match NextTag(text, from)
    case None => Ok([])
    case Some((tag, after)) =>
      if tag.closing || LocalName(tag.name) != "DataObjectReference" then RefsFrom(text, after, lossy)
      else
        match AttrValue(tag.attrs, "URI")
        case None => Err(ReferenceWithoutUri)
        case Some(rawUri) =>
          var found :- ScanReference(text, after, None, None);
          var ref :- RefOf(rawUri, found, lossy);
          var rest :- RefsFrom(text, found.next, lossy);
          Ok([ref] + rest)
  }

  /** What the reader takes from a library: strict and lenient UTF-8. */
  datatype Library = Library(strict: octets -> Option<string>, lossy: octets -> octets)

  function ParsedManifest(xml: octets, library: Library): Result<seq<ManifestRef>, ManifestError> {
    match library.strict(xml)
    case None => Err(NotUtf8)
    case Some(text) =>
      var refs :- RefsFrom(text, 0, library.lossy);
      if refs == [] then Err(NoReferences) else Ok(refs)
  }

  // ----- Reading one tag -----

  lemma {:induction false} WhitespaceBehind(s: string, from: nat, at: nat)
    requires from <= at < |s| && Base64.IsWhitespace(s[at])
    requires forall k :: from <= k < at ==> !Base64.IsWhitespace(s[k])
    ensures FirstWhitespace(s, from) == at
    decreases at - from
  {
    hide Base64.IsWhitespace;
    if from < at {
      WhitespaceBehind(s, from + 1, at);
    }
  }

  lemma {:induction false} NoWhitespace(s: string, from: nat)
    requires from <= |s| && forall k :: from <= k < |s| ==> !Base64.IsWhitespace(s[k])
    ensures FirstWhitespace(s, from) == |s|
    decreases |s| - from
  {
    hide Base64.IsWhitespace;
    if from < |s| {
      NoWhitespace(s, from + 1);
    }
  }

  /** A name a tag can have, without whitespace or marks. */
  predicate PlainName(name: string) {
    && name != ""
    && name[0] != '/' && name[0] != '!' && name[0] != '?'
    && name[|name| - 1] != '/'
    && forall k :: 0 <= k < |name| ==> !Base64.IsWhitespace(name[k])
  }

  /** An opening tag: a name, a space, attributes; a final slash is dropped. */
  lemma OpeningTag(name: string, attrs: string, body: string)
    requires PlainName(name)
    requires body == name + (" " + attrs) + "/"
             || (body == name + (" " + attrs) && (attrs != "" ==> attrs[|attrs| - 1] != '/'))
    ensures TagOf(body) == Some(Tag(name, " " + attrs, false))
  {
    var inner := name + (" " + attrs);
    assert body[0] == name[0];
    assert inner[|inner| - 1] == if attrs == "" then ' ' else attrs[|attrs| - 1];
    assert (inner + "/")[..|inner|] == inner;
    assert WithoutSlashes(body) == inner;
    assert inner[|name|] == ' ';
    WhitespaceBehind(inner, 0, |name|);
  }

  /** A tag without attributes, opening or closing. */
  lemma BareTag(name: string)
    requires PlainName(name)
    ensures TagOf(name) == Some(Tag(name, "", false))
    ensures TagOf("/" + name) == Some(Tag(name, "", true))
  {
    assert ("/" + name)[1..] == name;
    assert name[|name|..] == "" && name[..|name|] == name;
    NoWhitespace(name, 0);
  }

  /** Not the start of a comment, a declaration or an instruction. */
  predicate IsElement(body: string) {
    body != "" && body[0] != '!' && body[0] != '?'
  }

  lemma NotAt(text: string, at: nat, pattern: string)
    requires pattern != "" && at < |text|
    ensures StartsAt(text, at, pattern) ==> text[at] == pattern[0]
  {
    if StartsAt(text, at, pattern) {
      assert text[at..at + |pattern|][0] == text[at];
    }
  }

  /** A tag behind text without one. */
  lemma TagReads(text: string, from: nat, gap: string, body: string, rest: string)
    requires Follows(text, from, gap + ("<" + (body + (">" + rest)))) && Lacks(gap, '<') && Lacks(body, '>')
    requires IsElement(body) && TagOf(body).Some?
    ensures var after := from + |gap| + |body| + 2;
      NextTag(text, from) == Some((TagOf(body).value, after)) && Follows(text, after, rest)
  {
    hide *;
    var at := from + |gap| + 1;
    assert gap + ("<" + (body + (">" + rest))) == gap + "<" + (body + (">" + rest));
    assert body + (">" + rest) == body + ">" + rest;
    FindBehind(text, from, gap, '<', body + (">" + rest));
    FollowsOn(text, from, gap + "<", body + (">" + rest));
    FindBehind(text, at, body, '>', rest);
    FollowsOn(text, at, body, ">" + rest);
    FollowsOn(text, at + |body|, ">", rest);
    ElementReads(text, from, body, at);
  }

  /** The scan, once the brackets are found. */
  lemma ElementReads(text: string, from: nat, body: string, at: nat)
    requires from < at && at + |body| + 1 <= |text|
    requires Find(text, "<", from) == Some(at - 1) && Find(text, ">", at) == Some(at + |body|)
    requires text[at..at + |body|] == body && IsElement(body) && TagOf(body).Some?
    ensures NextTag(text, from) == Some((TagOf(body).value, at + |body| + 1))
  {
    hide TagOf, Find, StartsAt;
    assert text[at] == text[at..at + |body|][0] == body[0];
    NotAt(text, at, "!--");
    NotAt(text, at, "?");
    NotAt(text, at, "!");
  }

  lemma {:induction false} LastColonOf(prefix: string, local: string)
    requires Lacks(local, ':')
    ensures LastColon(prefix + ":" + local) == |prefix| + 1
    decreases |local|
  {
    var name := prefix + ":" + local;
    if local != "" {
      var shorter := local[..|local| - 1];
      assert name[..|name| - 1] == prefix + ":" + shorter;
      LastColonOf(prefix, shorter);
    }
  }

  lemma LocalNameOf(prefix: string, local: string)
    requires Lacks(local, ':')
    ensures LocalName(prefix + ":" + local) == local
  {
    LastColonOf(prefix, local);
  }

  /** The first attribute of a tag. */
  lemma FirstAttribute(wanted: string, value: string, more: string)
    requires wanted != "" && wanted[0] != ' ' && Lacks(value, '\"')
    ensures AttrValue(" " + (wanted + "=\"" + (value + ("\"" + more))), wanted) == Some(value)
  {
    var form := wanted + "=\"";
    var attrs := " " + (form + (value + ("\"" + more)));
    assert attrs[0] == ' ' && form[0] == wanted[0];
    NotAt(attrs, 0, form);
    assert attrs[1..1 + |form|] == form;
    FindIsFirst(attrs, form, 0, 1);
    var at := 1 + |form|;
    assert attrs[at..] == value + "\"" + more;
    FindBehind(attrs, at, value, '\"', more);
    assert attrs[at..at + |value|] == value;
    hide Find;
  }

  // ----- The tags the writer emits -----

  /** Letters and the like: nothing that ends a name or marks a tag. */
  predicate PlainPart(s: string) {
    s != "" && forall k :: 0 <= k < |s| ==> PlainChar(s[k])
  }

  predicate PlainChar(c: char) {
    'A' <= c <= 'Z' || 'a' <= c <= 'z'
  }

  lemma PlainCharIsPlain(c: char)
    requires PlainChar(c) || c == ':'
    ensures !Base64.IsWhitespace(c) && c != '/' && c != '!' && c != '?' && c != '>'
  {
  }

  lemma PartsMakeName(prefix: string, local: string)
    requires PlainPart(prefix) && PlainPart(local)
    ensures PlainName(prefix + ":" + local) && Lacks(prefix + ":" + local, '>')
    ensures LocalName(prefix + ":" + local) == local
  {
    LocalNameOf(prefix, local);
    var name := prefix + ":" + local;
    hide LocalName, Base64.IsWhitespace;
    forall k | 0 <= k < |name|
      ensures !Base64.IsWhitespace(name[k]) && name[k] != '/' && name[k] != '!' && name[k] != '?' && name[k] != '>'
    {
      PlainCharIsPlain(name[k]);
    }
  }

  lemma ReferenceName()
    ensures PlainName(REFERENCE_NAME) && Lacks(REFERENCE_NAME, '>')
    ensures LocalName(REFERENCE_NAME) == "DataObjectReference"
  {
    hide PlainName, Lacks, LocalName;
    PartsMakeName("asic", "DataObjectReference");
    assert REFERENCE_NAME == "asic" + ":" + "DataObjectReference";
  }

  lemma MethodName()
    ensures PlainName(METHOD_NAME) && Lacks(METHOD_NAME, '>')
    ensures LocalName(METHOD_NAME) == "DigestMethod"
  {
    hide PlainName, Lacks, LocalName;
    PartsMakeName("ds", "DigestMethod");
    assert METHOD_NAME == "ds" + ":" + "DigestMethod";
  }

  lemma ValueName()
    ensures PlainName(VALUE_NAME) && Lacks(VALUE_NAME, '>')
    ensures LocalName(VALUE_NAME) == "DigestValue"
  {
    hide PlainName, Lacks, LocalName;
    PartsMakeName("ds", "DigestValue");
    assert VALUE_NAME == "ds" + ":" + "DigestValue";
  }

  lemma ManifestName()
    ensures PlainName(MANIFEST_NAME) && Lacks(MANIFEST_NAME, '>')
    ensures LocalName(MANIFEST_NAME) == "ASiCManifest"
  {
    hide PlainName, Lacks, LocalName;
    PartsMakeName("asic", "ASiCManifest");
    assert MANIFEST_NAME == "asic" + ":" + "ASiCManifest";
  }

  lemma SigReferenceName()
    ensures PlainName(SIG_REFERENCE_NAME) && Lacks(SIG_REFERENCE_NAME, '>')
    ensures LocalName(SIG_REFERENCE_NAME) == "SigReference"
  {
    hide PlainName, Lacks, LocalName;
    PartsMakeName("asic", "SigReference");
    assert SIG_REFERENCE_NAME == "asic" + ":" + "SigReference";
  }

  lemma LacksConcatenation(a: string, b: string, c: char)
    ensures Lacks(a + b, c) <==> Lacks(a, c) && Lacks(b, c)
  {
    assert forall k :: 0 <= k < |a| ==> (a + b)[k] == a[k];
    assert forall k :: 0 <= k < |b| ==> (a + b)[|a| + k] == b[k];
  }

  /** Cut at the first `c`, which is there at the latest at the end. */
  lemma {:induction false} CutAt(s: string, c: char, other: char) returns (before: string, behind: string)
    ensures s + [c] == before + ([c] + behind) && Lacks(before, c)
    ensures Lacks(s, other) && c != other ==> Lacks(behind, other)
    decreases |s|
  {
    if s == "" {
      before, behind := "", "";
      assert s + [c] == [c];
    } else {
      assert s == [s[0]] + s[1..];
      LacksConcatenation([s[0]], s[1..], other);
      if s[0] == c {
        before, behind := "", s[1..] + [c];
        LacksConcatenation(s[1..], [c], other);
        assert s + [c] == [c] + (s[1..] + [c]);
      } else {
        before, behind := CutAt(s[1..], c, other);
        LacksConcatenation([s[0]], before, c);
        assert s + [c] == [s[0]] + (before + ([c] + behind));
        before := [s[0]] + before;
      }
    }
  }

  lemma PathIsSafe(name: octets)
    ensures EscapedAttribute(PercentEncoded(name)) == PercentEncoded(name)
    ensures Lacks(PercentEncoded(name), '\"') && Lacks(PercentEncoded(name), '>') && Lacks(PercentEncoded(name), '&')
  {
    EncodedIsPath(name);
    EscapesNothing(PercentEncoded(name));
  }

  const MIME_PART: string := " MimeType=\""

  /** The attributes of a reference, up to where its tag ends. */
  function ReferenceAttrs(uri: string, mime: string): string {
    "URI" + "=\"" + (uri + ("\"" + (MIME_PART + mime)))
  }

  /** What the writer puts between the brackets, as name and attributes. */
  lemma ReferenceBodyParts(o: DataObject)
    ensures ReferenceBody(o)
      == REFERENCE_NAME + (" " + ReferenceAttrs(PercentEncoded(o.name), EscapedAttribute(o.mimeType) + "\""))
  {
    PathIsSafe(o.name);
    hide PercentEncoded, EscapedAttribute;
    var uri, mime := PercentEncoded(o.name), EscapedAttribute(o.mimeType);
    assert " URI=\"" == " " + "URI" + "=\"";
    assert "\" MimeType=\"" == "\"" + MIME_PART;
  }

  lemma AttrsLack(uri: string, mime: string, c: char)
    requires Lacks(uri, c) && Lacks(mime, c) && (c == '>' || c == '<')
    ensures Lacks(ReferenceAttrs(uri, mime), c)
  {
    LacksConcatenation(MIME_PART, mime, c);
    LacksConcatenation("\"", MIME_PART + mime, c);
    LacksConcatenation(uri, "\"" + (MIME_PART + mime), c);
    LacksConcatenation("URI" + "=\"", uri + ("\"" + (MIME_PART + mime)), c);
  }

  /** A tag whose attributes start with the reference's: whatever ends it, it reads as the reference. */
  lemma ReferenceTag(uri: string, mime: string) returns (tag: Tag)
    requires Lacks(uri, '\"')
    ensures TagOf(REFERENCE_NAME + (" " + ReferenceAttrs(uri, mime))) == Some(tag)
    ensures !tag.closing && tag.name == REFERENCE_NAME && AttrValue(tag.attrs, "URI") == Some(uri)
  {
    ReferenceName();
    hide PlainName, Lacks, AttrValue, TagOf, LocalName;
    if mime != "" && mime[|mime| - 1] == '/' {
      var shorter := mime[..|mime| - 1];
      tag := Tag(REFERENCE_NAME, " " + ReferenceAttrs(uri, shorter), false);
      assert mime == shorter + "/";
      assert ReferenceAttrs(uri, mime) == ReferenceAttrs(uri, shorter) + "/";
      OpeningTag(REFERENCE_NAME, ReferenceAttrs(uri, shorter), REFERENCE_NAME + (" " + ReferenceAttrs(uri, mime)));
      FirstAttribute("URI", uri, MIME_PART + shorter);
    } else {
      tag := Tag(REFERENCE_NAME, " " + ReferenceAttrs(uri, mime), false);
      OpeningTag(REFERENCE_NAME, ReferenceAttrs(uri, mime), REFERENCE_NAME + (" " + ReferenceAttrs(uri, mime)));
      FirstAttribute("URI", uri, MIME_PART + mime);
    }
  }

  /**
   The opening tag of a reference reads as one with the encoded name, for every media type: one with a
   `>` in it ends the tag early, and what is left over opens no other.
   */
  lemma ReferenceOpens(text: string, from: nat, gap: string, o: DataObject, rest: string)
    returns (tag: Tag, after: nat, left: string)
    requires Follows(text, from, gap + ("<" + (ReferenceBody(o) + (">" + rest)))) && Lacks(gap, '<')
    ensures NextTag(text, from) == Some((tag, after)) && from < after
    ensures !tag.closing && tag.name == REFERENCE_NAME && AttrValue(tag.attrs, "URI") == Some(PercentEncoded(o.name))
    ensures Lacks(left, '<') && Follows(text, after, left + rest)
  {
    hide *;
    var uri, mime := PercentEncoded(o.name), EscapedAttribute(o.mimeType) + "\"";
    ReferenceBodyParts(o);
    PathIsSafe(o.name);
    MimeIsSafe(o.mimeType);
    var cut, behind := CutAt(mime, '>', '<');
    left := behind;
    tag := ReferenceTag(uri, cut);
    var body := REFERENCE_NAME + (" " + ReferenceAttrs(uri, cut));
    BodyCuts(uri, mime, cut, behind, rest);
    BodyLacks(uri, cut);
    TagReads(text, from, gap, body, behind + rest);
    after := from + |gap| + |body| + 2;
  }

  lemma MimeIsSafe(mimeType: string)
    ensures Lacks(EscapedAttribute(mimeType) + "\"", '<')
  {
    EscapedIsSafe(mimeType);
    LacksConcatenation(EscapedAttribute(mimeType), "\"", '<');
  }

  lemma BodyLacks(uri: string, mime: string)
    requires Lacks(uri, '>') && Lacks(mime, '>')
    ensures Lacks(REFERENCE_NAME + (" " + ReferenceAttrs(uri, mime)), '>')
    ensures IsElement(REFERENCE_NAME + (" " + ReferenceAttrs(uri, mime)))
  {
    ReferenceName();
    AttrsLack(uri, mime, '>');
    LacksConcatenation(" ", ReferenceAttrs(uri, mime), '>');
    LacksConcatenation(REFERENCE_NAME, " " + ReferenceAttrs(uri, mime), '>');
    hide ReferenceAttrs, Lacks, LocalName;
    assert (REFERENCE_NAME + (" " + ReferenceAttrs(uri, mime)))[0] == REFERENCE_NAME[0];
  }

  lemma BodyCuts(uri: string, mime: string, cut: string, behind: string, rest: string)
    requires mime + ">" == cut + (">" + behind)
    ensures REFERENCE_NAME + (" " + ReferenceAttrs(uri, mime)) + (">" + rest)
      == REFERENCE_NAME + (" " + ReferenceAttrs(uri, cut)) + (">" + (behind + rest))
  {
    var front := REFERENCE_NAME + " " + ("URI" + "=\"") + uri + "\"" + MIME_PART;
    AttrsFront(uri, mime);
    AttrsFront(uri, cut);
    hide ReferenceAttrs;
    assert front + mime + (">" + rest) == front + (mime + ">") + rest;
    assert front + cut + (">" + (behind + rest)) == front + (cut + (">" + behind)) + rest;
  }

  lemma AttrsFront(uri: string, mime: string)
    ensures REFERENCE_NAME + (" " + ReferenceAttrs(uri, mime))
      == REFERENCE_NAME + " " + ("URI" + "=\"") + uri + "\"" + MIME_PART + mime
  {
  }

  // ----- The rest of a reference -----

  lemma MethodUriIsPlain(algorithm: Cades.DigestAlgorithm)
    ensures Lacks(MethodUri(algorithm), '\"') && Lacks(MethodUri(algorithm), '>')
    ensures DigestByUri(MethodUri(algorithm)) == Some(algorithm)
  {
    MethodUriLacks(algorithm, '\"');
    MethodUriLacks(algorithm, '>');
    hide Lacks;
    assert |SHA256_URI| != |SHA384_URI|;
  }

  lemma MethodUriLacks(algorithm: Cades.DigestAlgorithm, c: char)
    requires c == '\"' || c == '>'
    ensures Lacks(MethodUri(algorithm), c)
  {
    LacksConcatenation("http://www.w3.org", "/2001/04/", c);
    LacksConcatenation(W3_2001, "xmlenc#sha256", c);
    LacksConcatenation(W3_2001, "xmldsig-more#sha384", c);
  }

  function MethodAttrs(uri: string): string {
    "Algorithm" + "=\"" + (uri + ("\"" + ""))
  }

  lemma MethodBodyParts(algorithm: Cades.DigestAlgorithm)
    ensures MethodBody(algorithm) == METHOD_NAME + (" " + MethodAttrs(MethodUri(algorithm))) + "/"
  {
    hide MethodUri;
    assert " Algorithm=\"" == " " + "Algorithm" + "=\"";
    assert "\"/" == "\"" + "" + "/";
  }

  lemma MethodBodyIsPlain(uri: string)
    requires Lacks(uri, '>')
    ensures Lacks(METHOD_NAME + (" " + MethodAttrs(uri)) + "/", '>')
    ensures IsElement(METHOD_NAME + (" " + MethodAttrs(uri)) + "/")
  {
    MethodName();
    LacksConcatenation(uri, "\"" + "", '>');
    LacksConcatenation("Algorithm" + "=\"", uri + ("\"" + ""), '>');
    LacksConcatenation(" ", MethodAttrs(uri), '>');
    LacksConcatenation(METHOD_NAME, " " + MethodAttrs(uri), '>');
    LacksConcatenation(METHOD_NAME + (" " + MethodAttrs(uri)), "/", '>');
    assert (METHOD_NAME + (" " + MethodAttrs(uri)) + "/")[0] == METHOD_NAME[0];
    hide MethodAttrs, LocalName;
  }

  lemma MethodAttrsRead(uri: string)
    requires Lacks(uri, '\"')
    ensures AttrValue(" " + MethodAttrs(uri), "Algorithm") == Some(uri)
  {
    hide AttrValue, Lacks;
    FirstAttribute("Algorithm", uri, "");
  }

  /** The digest method's tag names the algorithm. */
  lemma MethodTag(algorithm: Cades.DigestAlgorithm) returns (tag: Tag)
    ensures TagOf(MethodBody(algorithm)) == Some(tag) && IsElement(MethodBody(algorithm))
    ensures Lacks(MethodBody(algorithm), '>')
    ensures !tag.closing && tag.name == METHOD_NAME
    ensures AttrValue(tag.attrs, "Algorithm") == Some(MethodUri(algorithm))
  {
    hide *;
    var uri := MethodUri(algorithm);
    MethodName();
    MethodUriIsPlain(algorithm);
    MethodBodyParts(algorithm);
    MethodBodyIsPlain(uri);
    MethodAttrsRead(uri);
    OpeningTag(METHOD_NAME, MethodAttrs(uri), MethodBody(algorithm));
    tag := Tag(METHOD_NAME, " " + MethodAttrs(uri), false);
  }

  /** A bare name as an opening and as a closing tag. */
  lemma BareTags(name: string)
    requires PlainName(name) && Lacks(name, '>')
    ensures TagOf(name) == Some(Tag(name, "", false)) && IsElement(name)
    ensures TagOf("/" + name) == Some(Tag(name, "", true)) && IsElement("/" + name)
    ensures Lacks("/" + name, '>')
  {
    BareTag(name);
    LacksConcatenation("/", name, '>');
  }

  lemma {:induction false} EncodedLacks(b: octets, c: char)
    requires c == '<' || c == '>'
    ensures Lacks(Base64.Encoded(b, false), c)
    decreases |b|
  {
    if b != [] {
      var n := if |b| < 3 then |b| else 3;
      EncodedLacks(b[n..], c);
      QuantumLacks(b[..n], c);
      assert Base64.Encoded(b, false) == Base64.Quantum(b[..n], false) + Base64.Encoded(b[n..], false);
      hide *;
      LacksConcatenation(Base64.Quantum(b[..n], false), Base64.Encoded(b[n..], false), c);
    }
  }

  lemma QuantumLacks(chunk: octets, c: char)
    requires 1 <= |chunk| <= 3 && (c == '<' || c == '>')
    ensures Lacks(Base64.Quantum(chunk, false), c)
  {
    Base64.QuantumAt(chunk, false, 0);
    Base64.QuantumAt(chunk, false, 1);
    Base64.QuantumAt(chunk, false, 2);
    Base64.QuantumAt(chunk, false, 3);
    hide Base64.Quantum, Base64.Sextet, Base64.Packed;
  }

  /** An encoding has no whitespace to trim, and decodes to what was encoded. */
  lemma TrimmedEncoding(b: octets)
    ensures Base64.Trim(Base64.Encoded(b, false)) == Base64.Encoded(b, false)
    ensures Base64.Decoded(Base64.Encoded(b, false)) == Some(b)
  {
    hide *;
    Base64.RoundTrip(b);
    Base64.DecodesExactly(Base64.Encoded(b, false), b);
  }

  /** The tags of one reference behind its opening one. */
  function ReferenceInside(algorithm: Cades.DigestAlgorithm, value: string, rest: string): string {
    "\n    " + ("<" + (MethodBody(algorithm) + (">"
    + ("\n    " + ("<" + (VALUE_NAME + (">" + ValueOn(value, rest))))))))
  }

  function ValueOn(value: string, rest: string): string {
    value + ("<" + (("/" + VALUE_NAME) + (">" + ("\n  " + ("<" + (("/" + REFERENCE_NAME) + (">" + rest)))))))
  }

  lemma ReferenceTextParts(digest: Cades.DigestFunction, algorithm: Cades.DigestAlgorithm, o: DataObject, rest: string)
    ensures ReferenceText(digest, algorithm, o) + rest
      == "  " + ("<" + (ReferenceBody(o) + (">"
         + ReferenceInside(algorithm, DigestText(digest, algorithm, o), "\n" + rest))))
  {
    var value := DigestText(digest, algorithm, o);
    hide ReferenceBody, MethodBody, DigestText;
    assert VALUE_BODY == VALUE_NAME && VALUE_END_BODY == "/" + VALUE_NAME;
    assert REFERENCE_END_BODY == "/" + REFERENCE_NAME;
    assert "\n" + "    " == "\n    " && "\n" + "  " == "\n  ";
    TextJoins(ReferenceBody(o), MethodBody(algorithm), VALUE_NAME, value, "/" + VALUE_NAME, "/" + REFERENCE_NAME, rest);
  }

  lemma TextJoins(a: string, b: string, c: string, value: string, d: string, e: string, rest: string)
    ensures "  " + TagText(a) + "\n" + ("    " + TagText(b) + "\n")
            + ("    " + TagText(c) + value + TagText(d) + "\n") + ("  " + TagText(e) + "\n") + rest
      == "  " + ("<" + (a + (">" + ("\n    " + ("<" + (b + (">" + ("\n    " + ("<" + (c + (">"
         + (value + ("<" + (d + (">" + ("\n  " + ("<" + (e + (">" + ("\n" + rest))))))))))))))))))))
  {
  }

  /** The scan of one reference finds the algorithm and the digest and stops behind the closing tag. */
  lemma ScanReads(text: string, from: nat, left: string, algorithm: Cades.DigestAlgorithm, b: octets, rest: string)
    returns (next: nat)
    requires Lacks(left, '<')
    requires Follows(text, from, left + ReferenceInside(algorithm, Base64.Encoded(b, false), rest))
    ensures from < next && Follows(text, next, rest)
    ensures ScanReference(text, from, None, None)
      == Ok(Found(Some(MethodUri(algorithm)), Some(Base64.Encoded(b, false)), next))
  {
    hide *;
    var value := Base64.Encoded(b, false);
    var onward := "\n    " + ("<" + (VALUE_NAME + (">" + ValueOn(value, rest))));
    var method_ := MethodTag(algorithm);
    InsideUnfolds(algorithm, value, left, rest);
    LacksConcatenation(left, "\n    ", '<');
    TagReads(text, from, left + "\n    ", MethodBody(algorithm), onward);
    var at1 := from + |left + "\n    "| + |MethodBody(algorithm)| + 2;
    ScanPassesMethod(text, from, at1, method_, MethodUri(algorithm));
    next := ScanValue(text, at1, Some(MethodUri(algorithm)), b, rest);
  }

  lemma InsideUnfolds(algorithm: Cades.DigestAlgorithm, value: string, left: string, rest: string)
    ensures left + ReferenceInside(algorithm, value, rest)
      == (left + "\n    ") + ("<" + (MethodBody(algorithm) + (">"
         + ("\n    " + ("<" + (VALUE_NAME + (">" + ValueOn(value, rest))))))))
    ensures Lacks("\n    ", '<') && Lacks("\n  ", '<')
  {
    hide MethodBody, ValueOn;
    var inside := "<" + (MethodBody(algorithm) + (">"
      + ("\n    " + ("<" + (VALUE_NAME + (">" + ValueOn(value, rest)))))));
    assert ReferenceInside(algorithm, value, rest) == "\n    " + inside;
    assert left + ("\n    " + inside) == (left + "\n    ") + inside;
  }

  lemma ScanPassesMethod(text: string, from: nat, after: nat, tag: Tag, uri: string)
    requires from < after <= |text| && NextTag(text, from) == Some((tag, after))
    requires !tag.closing && tag.name == METHOD_NAME && AttrValue(tag.attrs, "Algorithm") == Some(uri)
    ensures ScanReference(text, from, None, None) == ScanReference(text, after, Some(uri), None)
  {
    MethodName();
    hide NextTag, LocalName, PlainName, Lacks, AttrValue;
  }

  /** The digest value and the two closing tags. */
  lemma ScanValue(text: string, from: nat, uri: Option<string>, b: octets, rest: string) returns (next: nat)
    requires Follows(text, from, "\n    " + ("<" + (VALUE_NAME + (">" + ValueOn(Base64.Encoded(b, false), rest)))))
    ensures from < next && Follows(text, next, rest)
    ensures ScanReference(text, from, uri, None) == Ok(Found(uri, Some(Base64.Encoded(b, false)), next))
  {
    hide *;
    var value := Base64.Encoded(b, false);
    ValueName();
    ReferenceName();
    BareTags(VALUE_NAME);
    BareTags(REFERENCE_NAME);
    EncodedLacks(b, '<');
    TrimmedEncoding(b);
    InsideUnfolds(Cades.Sha256, value, "", rest);
    var closing := "\n  " + ("<" + (("/" + REFERENCE_NAME) + (">" + rest)));
    ValueUnfolds(value, rest);
    TagReads(text, from, "\n    ", VALUE_NAME, ValueOn(value, rest));
    var at1 := from + |"\n    "| + |VALUE_NAME| + 2;
    FollowsOn(text, at1, value, "<" + (("/" + VALUE_NAME) + (">" + closing)));
    FindBehind(text, at1, value, '<', ("/" + VALUE_NAME) + (">" + closing));
    TagReads(text, at1, value, "/" + VALUE_NAME, closing);
    var at2 := at1 + |value| + |"/" + VALUE_NAME| + 2;
    TagReads(text, at2, "\n  ", "/" + REFERENCE_NAME, rest);
    next := at2 + |"\n  "| + |"/" + REFERENCE_NAME| + 2;
    ScanEnds(text, at2, next, uri, Some(value));
    ScanPassesValueEnd(text, at1, at2, uri, Some(value));
    ScanPassesValue(text, from, at1, uri, value);
  }

  lemma ValueUnfolds(value: string, rest: string)
    ensures ValueOn(value, rest)
      == value + ("<" + (("/" + VALUE_NAME) + (">" + ("\n  " + ("<" + (("/" + REFERENCE_NAME) + (">" + rest)))))))
    ensures ValueOn(value, rest)
      == value + "<" + (("/" + VALUE_NAME) + (">" + ("\n  " + ("<" + (("/" + REFERENCE_NAME) + (">" + rest))))))
  {
  }

  lemma ScanPassesValue(text: string, from: nat, after: nat, uri: Option<string>, value: string)
    requires from < after <= |text| && NextTag(text, from) == Some((Tag(VALUE_NAME, "", false), after))
    requires Find(text, "<", after) == Some(after + |value|) && text[after..after + |value|] == value
    requires Base64.Trim(value) == value
    ensures ScanReference(text, from, uri, None) == ScanReference(text, after, uri, Some(value))
  {
    ValueName();
    hide NextTag, LocalName, PlainName, Lacks, AttrValue, Find, Base64.Trim;
  }

  lemma ScanPassesValueEnd(text: string, from: nat, after: nat, uri: Option<string>, value: Option<string>)
    requires from < after <= |text| && NextTag(text, from) == Some((Tag(VALUE_NAME, "", true), after))
    ensures ScanReference(text, from, uri, value) == ScanReference(text, after, uri, value)
  {
    ValueName();
    hide NextTag, LocalName, PlainName, Lacks, AttrValue, Find, Base64.Trim;
  }

  lemma ScanEnds(text: string, from: nat, after: nat, uri: Option<string>, value: Option<string>)
    requires from < after <= |text| && NextTag(text, from) == Some((Tag(REFERENCE_NAME, "", true), after))
    ensures ScanReference(text, from, uri, value) == Ok(Found(uri, value, after))
  {
    ReferenceName();
    hide NextTag, LocalName, PlainName, Lacks, AttrValue, Find, Base64.Trim;
  }

  // ----- All references -----

  /** What the reader must find for the objects, in order. */
  function RefsOf(digest: Cades.DigestFunction, algorithm: Cades.DigestAlgorithm, objects: seq<DataObject>)
    : (refs: seq<ManifestRef>)
    ensures |refs| == |objects|
    ensures forall k :: 0 <= k < |refs|
              ==> refs[k] == ManifestRef(objects[k].name, PercentEncoded(objects[k].name), algorithm,
                                         digest(algorithm, objects[k].content))
  {
    if objects == [] then []
    else [ManifestRef(objects[0].name, PercentEncoded(objects[0].name), algorithm,
                      digest(algorithm, objects[0].content))]
         + RefsOf(digest, algorithm, objects[1..])
  }

  /** The lenient decoding leaves a name as it is. */
  predicate KeepsNames(objects: seq<DataObject>, lossy: octets -> octets) {
    forall o :: o in objects ==> lossy(o.name) == o.name
  }

  lemma NameDecodes(name: octets, lossy: octets -> octets)
    requires lossy(name) == name
    ensures DecodedUri(PercentEncoded(name), lossy) == name
  {
    var raw := PercentEncoded(name);
    PathIsSafe(name);
    hide PercentEncoded, PercentDecoded, Utf8, EscapedAttribute, Replaced;
    ReplacesNothing(raw, "&quot;", "\"");
    ReplacesNothing(raw, "&apos;", "'");
    ReplacesNothing(raw, "&lt;", "<");
    ReplacesNothing(raw, "&gt;", ">");
    ReplacesNothing(raw, "&amp;", "&");
    PercentRoundTrip(name);
  }

  /** One reference: its opening tag, its inside, and what comes behind. */
  lemma OneRefReads(digest: Cades.DigestFunction, algorithm: Cades.DigestAlgorithm, o: DataObject,
                    lossy: octets -> octets, text: string, from: nat, gap: string, rest: string)
    returns (next: nat)
    requires Follows(text, from, gap + (ReferenceText(digest, algorithm, o) + rest)) && Lacks(gap, '<')
    requires lossy(o.name) == o.name
    ensures from < next && Follows(text, next, "\n" + rest)
    ensures RefsFrom(text, from, lossy)
      == var tail := RefsFrom(text, next, lossy);
         if tail.Err? then tail
         else Ok([ManifestRef(o.name, PercentEncoded(o.name), algorithm, digest(algorithm, o.content))] + tail.value)
  {
    hide *;
    var b := digest(algorithm, o.content);
    ReferenceTextParts(digest, algorithm, o, rest);
    DigestTextMeans(digest, algorithm, o);
    var inside := ReferenceInside(algorithm, Base64.Encoded(b, false), "\n" + rest);
    GapGrows(gap, "<" + (ReferenceBody(o) + (">" + inside)));
    var tag, after, left := ReferenceOpens(text, from, gap + "  ", o, inside);
    next := ScanReads(text, after, left, algorithm, b, "\n" + rest);
    RefMakes(o, algorithm, b, lossy, next);
    RefsStep(text, from, tag, after, PercentEncoded(o.name), algorithm, b, next, lossy,
             ManifestRef(o.name, PercentEncoded(o.name), algorithm, b));
  }

  lemma DigestTextMeans(digest: Cades.DigestFunction, algorithm: Cades.DigestAlgorithm, o: DataObject)
    ensures DigestText(digest, algorithm, o) == Base64.Encoded(digest(algorithm, o.content), false)
  {
    hide Base64.Encoded;
  }

  lemma GapGrows(gap: string, rest: string)
    ensures gap + ("  " + rest) == (gap + "  ") + rest
    ensures Lacks(gap, '<') ==> Lacks(gap + "  ", '<')
  {
  }

  lemma RefMakes(o: DataObject, algorithm: Cades.DigestAlgorithm, b: octets, lossy: octets -> octets, next: nat)
    requires lossy(o.name) == o.name
    ensures RefOf(PercentEncoded(o.name), Found(Some(MethodUri(algorithm)), Some(Base64.Encoded(b, false)), next), lossy)
      == Ok(ManifestRef(o.name, PercentEncoded(o.name), algorithm, b))
  {
    hide PercentEncoded, Base64.Encoded, Base64.Decoded, DigestByUri, MethodUri, DecodedUri;
    NameDecodes(o.name, lossy);
    MethodUriIsPlain(algorithm);
    TrimmedEncoding(b);
  }

  lemma RefsStep(text: string, from: nat, tag: Tag, after: nat, rawUri: string, algorithm: Cades.DigestAlgorithm,
                 b: octets, next: nat, lossy: octets -> octets, ref: ManifestRef)
    requires from < after <= next <= |text| && NextTag(text, from) == Some((tag, after))
    requires !tag.closing && tag.name == REFERENCE_NAME && AttrValue(tag.attrs, "URI") == Some(rawUri)
    requires ScanReference(text, after, None, None)
      == Ok(Found(Some(MethodUri(algorithm)), Some(Base64.Encoded(b, false)), next))
    requires RefOf(rawUri, Found(Some(MethodUri(algorithm)), Some(Base64.Encoded(b, false)), next), lossy) == Ok(ref)
    ensures RefsFrom(text, from, lossy)
      == var tail := RefsFrom(text, next, lossy);
         if tail.Err? then tail else Ok([ref] + tail.value)
  {
    ReferenceName();
    hide NextTag, LocalName, PlainName, Lacks, AttrValue, ScanReference, RefOf, Base64.Encoded, MethodUri;
  }

  /** A tag that is no reference is passed over. */
  lemma RefsSkip(text: string, from: nat, tag: Tag, after: nat, lossy: octets -> octets)
    requires from < after <= |text| && NextTag(text, from) == Some((tag, after))
    requires tag.closing || LocalName(tag.name) != "DataObjectReference"
    ensures RefsFrom(text, from, lossy) == RefsFrom(text, after, lossy)
  {
    hide NextTag, LocalName;
  }

  /** Behind the last tag there is nothing to read. */
  lemma RefsEnd(text: string, from: nat, lossy: octets -> octets)
    requires Follows(text, from, "\n")
    ensures RefsFrom(text, from, lossy) == Ok([])
  {
    FindNothing(text, from, '<');
  }

  /** The closing tag of the manifest, and the end. */
  lemma TailReads(text: string, from: nat, gap: string, lossy: octets -> octets)
    requires Follows(text, from, gap + ("<" + (("/" + MANIFEST_NAME) + (">" + "\n")))) && Lacks(gap, '<')
    ensures RefsFrom(text, from, lossy) == Ok([])
  {
    hide *;
    ManifestName();
    BareTags(MANIFEST_NAME);
    TagReads(text, from, gap, "/" + MANIFEST_NAME, "\n");
    var after := from + |gap| + |"/" + MANIFEST_NAME| + 2;
    FollowsWithin(text, after, "\n");
    RefsSkip(text, from, Tag(MANIFEST_NAME, "", true), after, lossy);
    RefsEnd(text, after, lossy);
  }

  lemma FollowsWithin(text: string, from: nat, rest: string)
    requires Follows(text, from, rest)
    ensures from <= |text|
  {
  }

  function Tail(): string {
    "<" + (("/" + MANIFEST_NAME) + (">" + "\n"))
  }

  lemma {:induction false} RefsRead(digest: Cades.DigestFunction, algorithm: Cades.DigestAlgorithm,
                                    objects: seq<DataObject>, lossy: octets -> octets,
                                    text: string, from: nat, gap: string)
    requires Follows(text, from, gap + (ReferencesText(digest, algorithm, objects) + Tail())) && Lacks(gap, '<')
    requires KeepsNames(objects, lossy)
    ensures from <= |text|
    ensures RefsFrom(text, from, lossy) == Ok(RefsOf(digest, algorithm, objects))
    decreases |objects|
  {
    hide *;
    FollowsWithin(text, from, gap + (ReferencesText(digest, algorithm, objects) + Tail()));
    ReferencesUnfold(digest, algorithm, objects);
    if objects == [] {
      TailReads(text, from, gap, lossy);
    } else {
      KeepsEach(objects, lossy);
      var rest := ReferencesText(digest, algorithm, objects[1..]) + Tail();
      var next := OneRefReads(digest, algorithm, objects[0], lossy, text, from, gap, rest);
      NewlineLacks();
      RefsRead(digest, algorithm, objects[1..], lossy, text, next, "\n");
    }
  }

  lemma NewlineLacks()
    ensures Lacks("\n", '<')
  {
  }

  lemma KeepsEach(objects: seq<DataObject>, lossy: octets -> octets)
    requires objects != [] && KeepsNames(objects, lossy)
    ensures lossy(objects[0].name) == objects[0].name && KeepsNames(objects[1..], lossy)
  {
  }

  lemma ReferencesUnfold(digest: Cades.DigestFunction, algorithm: Cades.DigestAlgorithm, objects: seq<DataObject>)
    ensures objects == [] ==> ReferencesText(digest, algorithm, objects) + Tail()
                              == "<" + (("/" + MANIFEST_NAME) + (">" + "\n"))
    ensures objects == [] ==> RefsOf(digest, algorithm, objects) == []
    ensures objects != [] ==> ReferencesText(digest, algorithm, objects) + Tail()
                              == ReferenceText(digest, algorithm, objects[0])
                                 + (ReferencesText(digest, algorithm, objects[1..]) + Tail())
    ensures objects != [] ==> RefsOf(digest, algorithm, objects)
                              == [ManifestRef(objects[0].name, PercentEncoded(objects[0].name), algorithm,
                                              digest(algorithm, objects[0].content))]
                                 + RefsOf(digest, algorithm, objects[1..])
  {
    hide ReferenceText, PercentEncoded;
    if objects != [] {
      assert ReferenceText(digest, algorithm, objects[0]) + ReferencesText(digest, algorithm, objects[1..]) + Tail()
          == ReferenceText(digest, algorithm, objects[0])
             + (ReferencesText(digest, algorithm, objects[1..]) + Tail());
    }
  }

  // ----- The head of the manifest, and the whole -----

  /** A processing instruction is no tag. */
  lemma InstructionSkipped(text: string, from: nat, inside: string, rest: string)
    requires Follows(text, from, "<" + ("?" + (inside + ("?>" + rest))))
    requires Lacks(inside, '?') && inside != "" && inside[0] != '>'
    ensures var after := from + |inside| + 4;
      Follows(text, after, rest) && NextTag(text, from) == NextTag(text, after)
  {
    hide *;
    var at := from + 1;
    assert "<" + ("?" + (inside + ("?>" + rest))) == "" + "<" + ("?" + (inside + ("?>" + rest)));
    LacksNothing('<');
    FindBehind(text, from, "", '<', "?" + (inside + ("?>" + rest)));
    FollowsOn(text, from, "<", "?" + (inside + ("?>" + rest)));
    FollowsOn(text, at, "?", inside + ("?>" + rest));
    FollowsOn(text, at + 1, inside, "?>" + rest);
    FollowsOn(text, at + 1 + |inside|, "?>", rest);
    InstructionEnds(text, at, inside);
    InstructionReads(text, from, at, |inside|);
  }

  lemma LacksNothing(c: char)
    ensures Lacks("", c)
  {
  }

  lemma InstructionEnds(text: string, at: nat, inside: string)
    requires at + |inside| + 3 <= |text| && text[at..at + 1] == "?" && text[at + 1..at + 1 + |inside|] == inside
    requires text[at + 1 + |inside|..at + 3 + |inside|] == "?>"
    requires Lacks(inside, '?') && inside != "" && inside[0] != '>'
    ensures Find(text, "?>", at) == Some(at + 1 + |inside|)
  {
    var end := at + 1 + |inside|;
    assert text[at + 1] == text[at + 1..end][0] == inside[0];
    forall k | at <= k < end
      ensures !StartsAt(text, k, "?>")
    {
      if k == at {
        assert text[k..k + 2][1] == text[at + 1];
      } else {
        assert text[k] == text[at + 1..end][k - at - 1] == inside[k - at - 1];
        assert text[k..k + 2][0] == text[k];
      }
    }
    FindIsFirst(text, "?>", at, end);
  }

  lemma InstructionReads(text: string, from: nat, at: nat, n: nat)
    requires at == from + 1 && at + n + 3 <= |text| && text[at..at + 1] == "?"
    requires Find(text, "<", from) == Some(from) && Find(text, "?>", at) == Some(at + 1 + n)
    ensures NextTag(text, from) == NextTag(text, at + n + 3)
  {
    assert text[at] == text[at..at + 1][0];
    hide Find, TagOf;
    NotAt(text, at, "!--");
  }

  lemma RefsFollowTags(text: string, from: nat, after: nat, lossy: octets -> octets)
    requires from <= |text| && after <= |text| && NextTag(text, from) == NextTag(text, after)
    ensures RefsFrom(text, from, lossy) == RefsFrom(text, after, lossy)
  {
    hide NextTag, LocalName, AttrValue, ScanReference, RefOf;
  }

  lemma NamespacesArePlain()
    ensures Lacks(NAMESPACE_ASIC, '>') && Lacks(NAMESPACE_DSIG, '>')
  {
    LacksConcatenation("http://uri.etsi", ".org/02918/v1.2.1#", '>');
    LacksConcatenation("http://www.w3.org", "/2000/09/xmldsig#", '>');
  }

  lemma SignatureEntryIsPlain()
    ensures Lacks(SIGNATURE_ENTRY, '>') && Lacks(MIMETYPE_SIGNATURE, '>')
  {
    LacksConcatenation("META-INF/", "signature.p7s", '>');
    LacksConcatenation("application/", "pkcs7-signature", '>');
  }

  lemma AttrsArePlain()
    ensures Lacks(ManifestAttrs(), '>') && Lacks(SigReferenceAttrs(), '>') && Lacks(" ", '>') && Lacks("/", '>')
  {
    hide NAMESPACE_ASIC, NAMESPACE_DSIG, SIGNATURE_ENTRY, MIMETYPE_SIGNATURE;
    NamespacesArePlain();
    SignatureEntryIsPlain();
    QuotedPairIsPlain("xmlns:asic=\"", NAMESPACE_ASIC, "\" xmlns:ds=\"", NAMESPACE_DSIG);
    QuotedPairIsPlain("URI=\"", SIGNATURE_ENTRY, "\" MimeType=\"", MIMETYPE_SIGNATURE);
  }

  lemma QuotedPairIsPlain(a: string, b: string, c: string, d: string)
    requires Lacks(a, '>') && Lacks(b, '>') && Lacks(c, '>') && Lacks(d, '>')
    ensures Lacks(a + (b + (c + (d + "\""))), '>')
  {
    LacksConcatenation(d, "\"", '>');
    LacksConcatenation(c, d + "\"", '>');
    LacksConcatenation(b, c + (d + "\""), '>');
    LacksConcatenation(a, b + (c + (d + "\"")), '>');
  }

  lemma AttrsEnd()
    ensures ManifestAttrs() != "" && ManifestAttrs()[|ManifestAttrs()| - 1] == '\"'
  {
    hide NAMESPACE_ASIC, NAMESPACE_DSIG;
  }

  lemma ManifestBodyMeans()
    ensures ManifestBody() == MANIFEST_NAME + (" " + ManifestAttrs())
    ensures SigReferenceBody() == SIG_REFERENCE_NAME + (" " + SigReferenceAttrs()) + "/"
  {
    hide ManifestAttrs, SigReferenceAttrs;
  }

  lemma NameStarts(name: string, rest: string)
    requires PlainName(name)
    ensures IsElement(name + rest)
  {
    assert (name + rest)[0] == name[0];
  }

  lemma ManifestTag()
    ensures TagOf(ManifestBody()) == Some(Tag(MANIFEST_NAME, " " + ManifestAttrs(), false))
    ensures Lacks(ManifestBody(), '>') && IsElement(ManifestBody())
  {
    hide *;
    ManifestName();
    ManifestBodyMeans();
    AttrsEnd();
    AttrsArePlain();
    OpeningTag(MANIFEST_NAME, ManifestAttrs(), ManifestBody());
    LacksConcatenation(" ", ManifestAttrs(), '>');
    LacksConcatenation(MANIFEST_NAME, " " + ManifestAttrs(), '>');
    NameStarts(MANIFEST_NAME, " " + ManifestAttrs());
  }

  lemma SigReferenceTag()
    ensures TagOf(SigReferenceBody()) == Some(Tag(SIG_REFERENCE_NAME, " " + SigReferenceAttrs(), false))
    ensures Lacks(SigReferenceBody(), '>') && IsElement(SigReferenceBody())
  {
    hide *;
    SigReferenceName();
    ManifestBodyMeans();
    AttrsArePlain();
    OpeningTag(SIG_REFERENCE_NAME, SigReferenceAttrs(), SigReferenceBody());
    LacksConcatenation(" ", SigReferenceAttrs(), '>');
    LacksConcatenation(SIG_REFERENCE_NAME, " " + SigReferenceAttrs(), '>');
    LacksConcatenation(SIG_REFERENCE_NAME + (" " + SigReferenceAttrs()), "/", '>');
    NameStarts(SIG_REFERENCE_NAME, " " + SigReferenceAttrs() + "/");
    assert SigReferenceBody() == SIG_REFERENCE_NAME + (" " + SigReferenceAttrs() + "/");
  }

  function Headed(rest: string): string {
    "<" + ("?" + (DECLARATION_INSIDE + ("?>" + AfterDeclaration(rest))))
  }

  function AfterDeclaration(rest: string): string {
    "\n" + ("<" + (ManifestBody() + (">" + ("\n  " + ("<" + (SigReferenceBody() + (">" + ("\n" + rest))))))))
  }

  lemma HeadParts(rest: string)
    ensures HeadText() + rest == Headed(rest)
  {
    hide ManifestBody, SigReferenceBody;
    hide DECLARATION_INSIDE;
    assert "?" + ">" == "?>" && "\n" + "  " == "\n  ";
    HeadJoins(DECLARATION_INSIDE, ManifestBody(), SigReferenceBody(), rest);
  }

  lemma HeadJoins(inside: string, a: string, b: string, rest: string)
    ensures TagText("?" + inside + "?") + "\n" + TagText(a) + "\n" + "  " + TagText(b) + "\n" + rest
      == "<" + ("?" + (inside + ("?>" + ("\n" + ("<" + (a + (">" + ("\n  " + ("<" + (b + (">" + ("\n" + rest))))))))))))
  {
  }

  lemma DeclarationIsPlain()
    ensures Lacks(DECLARATION_INSIDE, '?') && DECLARATION_INSIDE != "" && DECLARATION_INSIDE[0] != '>'
    ensures Lacks("\n", '<') && Lacks("\n  ", '<')
    ensures LocalName(MANIFEST_NAME) != "DataObjectReference" && LocalName(SIG_REFERENCE_NAME) != "DataObjectReference"
  {
    ManifestName();
    SigReferenceName();
    hide LocalName, PlainName;
  }

  /** The declaration and the two tags of the head are passed over. */
  lemma HeadReads(text: string, rest: string, lossy: octets -> octets) returns (next: nat)
    requires Follows(text, 0, Headed(rest))
    ensures Follows(text, next, "\n" + rest) && next <= |text|
    ensures RefsFrom(text, 0, lossy) == RefsFrom(text, next, lossy)
  {
    hide *;
    HeadedMeans(rest);
    DeclarationIsPlain();
    ManifestTag();
    SigReferenceTag();
    InstructionSkipped(text, 0, DECLARATION_INSIDE, AfterDeclaration(rest));
    var at1 := |DECLARATION_INSIDE| + 4;
    var sig := "\n  " + ("<" + (SigReferenceBody() + (">" + ("\n" + rest))));
    FollowsWithin(text, 0, Headed(rest));
    FollowsWithin(text, at1, AfterDeclaration(rest));
    RefsFollowTags(text, 0, at1, lossy);
    TagReads(text, at1, "\n", ManifestBody(), sig);
    var at2 := at1 + |"\n"| + |ManifestBody()| + 2;
    FollowsWithin(text, at2, sig);
    RefsSkip(text, at1, Tag(MANIFEST_NAME, " " + ManifestAttrs(), false), at2, lossy);
    TagReads(text, at2, "\n  ", SigReferenceBody(), "\n" + rest);
    next := at2 + |"\n  "| + |SigReferenceBody()| + 2;
    FollowsWithin(text, next, "\n" + rest);
    RefsSkip(text, at2, Tag(SIG_REFERENCE_NAME, " " + SigReferenceAttrs(), false), next, lossy);
  }

  lemma HeadedMeans(rest: string)
    ensures Headed(rest) == "<" + ("?" + (DECLARATION_INSIDE + ("?>" + AfterDeclaration(rest))))
    ensures AfterDeclaration(rest)
      == "\n" + ("<" + (ManifestBody() + (">" + ("\n  " + ("<" + (SigReferenceBody() + (">" + ("\n" + rest))))))))
  {
    hide ManifestBody, SigReferenceBody;
  }

  lemma ManifestParts(digest: Cades.DigestFunction, algorithm: Cades.DigestAlgorithm, objects: seq<DataObject>)
    ensures Follows(ManifestText(digest, algorithm, objects), 0,
                    Headed(ReferencesText(digest, algorithm, objects) + Tail()))
  {
    var text := ManifestText(digest, algorithm, objects);
    var references := ReferencesText(digest, algorithm, objects);
    TailMeans();
    HeadParts(references + Tail());
    hide HeadText, ReferencesText, TailText, Headed, Tail;
    assert HeadText() + references + TailText() == HeadText() + (references + TailText());
    assert text[0..] == text;
  }

  lemma TailMeans()
    ensures TailText() == Tail()
  {
    assert MANIFEST_END_BODY == "/" + MANIFEST_NAME;
    TailJoins(MANIFEST_END_BODY);
  }

  lemma TailJoins(body: string)
    ensures TagText(body) + "\n" == "<" + (body + (">" + "\n"))
  {
  }

  /**
   The manifest round trip: from what was written for any objects with any names and media types, the
   tag scan recovers every name and digest, in order.
   */
  lemma ManifestRoundTrip(digest: Cades.DigestFunction, algorithm: Cades.DigestAlgorithm, objects: seq<DataObject>,
                          xml: octets, library: Library)
    requires library.strict(xml) == Some(ManifestText(digest, algorithm, objects))
    requires objects != [] && KeepsNames(objects, library.lossy)
    ensures ParsedManifest(xml, library) == Ok(RefsOf(digest, algorithm, objects))
  {
    hide *;
    var text := ManifestText(digest, algorithm, objects);
    var rest := ReferencesText(digest, algorithm, objects) + Tail();
    ManifestParts(digest, algorithm, objects);
    var next := HeadReads(text, rest, library.lossy);
    NewlineLacks();
    RefsRead(digest, algorithm, objects, library.lossy, text, next, "\n");
    ParsedMeans(xml, text, library, RefsOf(digest, algorithm, objects));
    RefsOfSize(digest, algorithm, objects);
  }

  lemma RefsOfSize(digest: Cades.DigestFunction, algorithm: Cades.DigestAlgorithm, objects: seq<DataObject>)
    ensures |RefsOf(digest, algorithm, objects)| == |objects|
  {
  }

  lemma ParsedMeans(xml: octets, text: string, library: Library, refs: seq<ManifestRef>)
    requires library.strict(xml) == Some(text) && RefsFrom(text, 0, library.lossy) == Ok(refs)
    ensures ParsedManifest(xml, library) == if refs == [] then Err(NoReferences) else Ok(refs)
  {
    hide RefsFrom;
  }
}
