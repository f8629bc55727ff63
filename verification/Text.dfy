/** Text as the manifest code handles it: searching, escaping, percent-encoding, UTF-8. */
module Text {

  import opened Octets

  // ----- Searching -----

  /** `pattern` starts at `at`. */
  predicate StartsAt(text: string, at: nat, pattern: string) {
    at + |pattern| <= |text| && text[at..at + |pattern|] == pattern
  }

  /** The first place at or after `from` where `pattern` starts. */
  function Find(text: string, pattern: string, from: nat): (r: Option<nat>)
    ensures r.Some? ==> from <= r.value && r.value + |pattern| <= |text|
    decreases |text| - from
  {
    if from + |pattern| > |text| then None
    else if StartsAt(text, from, pattern) then Some(from)
    else Find(text, pattern, from + 1)
  }

  lemma {:induction false} FindIsFirst(text: string, pattern: string, from: nat, at: nat)
    requires from <= at && StartsAt(text, at, pattern)
    requires forall k :: from <= k < at ==> !StartsAt(text, k, pattern)
    ensures Find(text, pattern, from) == Some(at)
    decreases at - from
  {
    if from < at {
      FindIsFirst(text, pattern, from + 1, at);
    }
  }

  /** No `c` among the characters. */
  predicate Lacks(s: string, c: char) {
    forall k :: 0 <= k < |s| ==> s[k] != c
  }

  /** From `from` on, the text reads `rest`. */
  predicate Follows(text: string, from: nat, rest: string) {
    from <= |text| && text[from..] == rest
  }

  lemma FollowsOn(text: string, from: nat, part: string, rest: string)
    requires Follows(text, from, part + rest)
    ensures Follows(text, from + |part|, rest)
    ensures from + |part| <= |text| && text[from..from + |part|] == part
  {
    assert text[from + |part|..] == text[from..][|part|..];
    assert text[from..from + |part|] == text[from..][..|part|];
  }

  /** The first `c` behind characters that are not `c`. */
  lemma FindBehind(text: string, from: nat, gap: string, c: char, rest: string)
    requires Follows(text, from, gap + [c] + rest) && Lacks(gap, c)
    ensures Find(text, [c], from) == Some(from + |gap|)
  {
    var at := from + |gap|;
    assert text[from..] == gap + [c] + rest;
    forall k | from <= k < at
      ensures text[k] == gap[k - from]
    {
      assert text[k] == text[from..][k - from];
    }
    assert text[at] == text[from..][|gap|] == c;
    assert text[at..at + 1] == [c];
    forall k | from <= k < at
      ensures !StartsAt(text, k, [c])
    {
      assert text[k..k + 1] == [text[k]];
    }
    FindIsFirst(text, [c], from, at);
  }

  lemma {:induction false} FindNothing(text: string, from: nat, c: char)
    requires from <= |text| && Lacks(text[from..], c)
    ensures Find(text, [c], from) == None
    decreases |text| - from
  {
    if from < |text| {
      assert text[from..][0] == text[from];
      assert text[from..from + 1] == [text[from]];
      assert text[from..][1..] == text[from + 1..];
      FindNothing(text, from + 1, c);
    }
  }

  // ----- Replacing -----

  /** Every occurrence of `pattern`, from the left, replaced. */
  function Replaced(s: string, pattern: string, replacement: string): string
    requires pattern != ""
    decreases |s|
  {
    if s == "" then ""
    else if StartsAt(s, 0, pattern) then replacement + Replaced(s[|pattern|..], pattern, replacement)
    else [s[0]] + Replaced(s[1..], pattern, replacement)
  }

  lemma FirstOfPattern(s: string, pattern: string)
    requires pattern != ""
    ensures StartsAt(s, 0, pattern) ==> s != "" && s[0] == pattern[0]
  {
    if StartsAt(s, 0, pattern) {
      assert s[0..|pattern|][0] == s[0];
    }
  }

  lemma {:induction false} ReplacesNothing(s: string, pattern: string, replacement: string)
    requires pattern != "" && Lacks(s, pattern[0])
    ensures Replaced(s, pattern, replacement) == s
  {
    if s != "" {
      FirstOfPattern(s, pattern);
      ReplacesNothing(s[1..], pattern, replacement);
    }
  }

  // ----- UTF-8 -----

  function Utf8Char(c: char): octets {
    var n := c as int;
    if n < 0x80 then [n]
    else if n < 0x800 then [0xC0 + n / 0x40, 0x80 + n % 0x40]
    else if n < 0x1_0000 then [0xE0 + n / 0x1000, 0x80 + n / 0x40 % 0x40, 0x80 + n % 0x40]
    else [0xF0 + n / 0x4_0000, 0x80 + n / 0x1000 % 0x40, 0x80 + n / 0x40 % 0x40, 0x80 + n % 0x40]
  }

  function Utf8(s: string): octets {
    if s == "" then [] else Utf8Char(s[0]) + Utf8(s[1..])
  }

  // ----- Escaping attribute values -----

  function EscapedChar(c: char): string {
    if c == '&' then "&amp;"
    else if c == '<' then "&lt;"
    else if c == '\"' then "&quot;"
    else if c == '\t' then "&#x9;"
    else if c == '\n' then "&#xA;"
    else if c == '\r' then "&#xD;"
    else [c]
  }

  function EscapedAttribute(value: string): string {
    if value == "" then "" else EscapedChar(value[0]) + EscapedAttribute(value[1..])
  }

  predicate NeedsEscape(c: char) {
    c == '&' || c == '<' || c == '\"' || c == '\t' || c == '\n' || c == '\r'
  }

  lemma {:induction false} EscapesNothing(value: string)
    requires forall k :: 0 <= k < |value| ==> !NeedsEscape(value[k])
    ensures EscapedAttribute(value) == value
  {
    if value != "" {
      EscapesNothing(value[1..]);
    }
  }

  /** An escaped value cannot open a tag or end its quotes. */
  lemma {:induction false} EscapedIsSafe(value: string)
    ensures Lacks(EscapedAttribute(value), '<') && Lacks(EscapedAttribute(value), '\"')
  {
    if value != "" {
      EscapedIsSafe(value[1..]);
      EscapedCharIsSafe(value[0]);
    }
  }

  lemma EscapedCharIsSafe(c: char)
    ensures Lacks(EscapedChar(c), '<') && Lacks(EscapedChar(c), '\"')
  {
  }

  // ----- Percent-encoding -----

  predicate Unreserved(b: byte) {
    0x41 <= b <= 0x5A || 0x61 <= b <= 0x7A || 0x30 <= b <= 0x39 || b == 0x2D || b == 0x2E || b == 0x5F || b == 0x7E
    || b == 0x2F
  }

  function HexDigit(n: nat): char
    requires n < 16
  {
    if n < 10 then ('0' as int + n) as char else ('A' as int + n - 10) as char
  }

  function PercentByte(b: byte): string {
    if Unreserved(b) then [b as char] else ['%', HexDigit(b / 16), HexDigit(b % 16)]
  }

  function PercentEncoded(name: octets): string {
    if name == [] then "" else PercentByte(name[0]) + PercentEncoded(name[1..])
  }

  function HexValue(b: byte): Option<nat> {
    if 0x30 <= b <= 0x39 then Some(b - 0x30)
    else if 0x41 <= b <= 0x46 then Some(b - 0x41 + 10)
    else if 0x61 <= b <= 0x66 then Some(b - 0x61 + 10)
    else None
  }

  /** Two characters read as a hexadecimal octet; a plus sign counts as a sign. */
  function HexOctet(high: byte, low: byte): Option<byte> {
    match HexValue(low)
    case None => None
    case Some(l) =>
      if high == 0x2B then Some(l)
      else
        match HexValue(high)
        case None => None
        case Some(h) => Some(h * 16 + l)
  }

  /** Percent escapes undone; a malformed one stays as it is. */
  function PercentDecoded(bytes: octets): octets
    decreases |bytes|
  {
    if bytes == [] then []
    else if bytes[0] == 0x25 && |bytes| >= 3 && HexOctet(bytes[1], bytes[2]).Some? then
      [HexOctet(bytes[1], bytes[2]).value] + PercentDecoded(bytes[3..])
    else [bytes[0]] + PercentDecoded(bytes[1..])
  }

  /** Percent escapes of two hexadecimal digits undone, everything else left as it is. */
  function StrictlyDecoded(bytes: octets): octets
    decreases |bytes|
  {
    if bytes == [] then []
    else if bytes[0] == 0x25 && |bytes| >= 3 && HexValue(bytes[1]).Some? && HexValue(bytes[2]).Some? then
      [HexValue(bytes[1]).value * 16 + HexValue(bytes[2]).value] + StrictlyDecoded(bytes[3..])
    else [bytes[0]] + StrictlyDecoded(bytes[1..])
  }

  /** The scan, passing whole escapes, comes to a percent sign with a plus sign and a digit behind it. */
  predicate MeetsSignedEscape(bytes: octets)
    decreases |bytes|
  {
    bytes != []
    && if bytes[0] == 0x25 && |bytes| >= 3 && HexValue(bytes[2]).Some? && bytes[1] == 0x2B then true
       else if bytes[0] == 0x25 && |bytes| >= 3 && HexValue(bytes[1]).Some? && HexValue(bytes[2]).Some? then
         MeetsSignedEscape(bytes[3..])
       else MeetsSignedEscape(bytes[1..])
  }

  /** Malformed escapes stay as they are exactly when the scan meets no signed one. */
  lemma {:induction false} StaysLiteralExactly(bytes: octets)
    ensures PercentDecoded(bytes) == StrictlyDecoded(bytes) <==> !MeetsSignedEscape(bytes)
    decreases |bytes|
  {
    if bytes != [] {
      if bytes[0] == 0x25 && |bytes| >= 3 && HexValue(bytes[2]).Some? && bytes[1] == 0x2B {
        assert PercentDecoded(bytes)[0] < 16 && StrictlyDecoded(bytes)[0] == 0x25;
      } else if bytes[0] == 0x25 && |bytes| >= 3 && HexValue(bytes[1]).Some? && HexValue(bytes[2]).Some? {
        StaysLiteralExactly(bytes[3..]);
        assert PercentDecoded(bytes)[1..] == PercentDecoded(bytes[3..]);
        assert StrictlyDecoded(bytes)[1..] == StrictlyDecoded(bytes[3..]);
      } else {
        StaysLiteralExactly(bytes[1..]);
        assert PercentDecoded(bytes)[1..] == PercentDecoded(bytes[1..]);
        assert StrictlyDecoded(bytes)[1..] == StrictlyDecoded(bytes[1..]);
      }
    }
  }

  /** `%+F` is taken for the octet 15. */
  lemma SignedEscapeIsDecoded()
    ensures PercentDecoded([0x25, 0x2B, 0x46]) == [0x0F] && StrictlyDecoded([0x25, 0x2B, 0x46]) == [0x25, 0x2B, 0x46]
  {
    var bytes := [0x25, 0x2B, 0x46];
    assert bytes[3..] == [] && bytes[1..] == [0x2B, 0x46] && bytes[1..][1..] == [0x46] && bytes[1..][1..][1..] == [];
  }

  lemma HexRoundTrip(b: byte)
    ensures HexDigit(b / 16) as int < 0x80 && HexDigit(b % 16) as int < 0x80
    ensures HexOctet(HexDigit(b / 16) as int, HexDigit(b % 16) as int) == Some(b)
  {
  }

  lemma Utf8OfAsciiChar(c: char, rest: string)
    requires c as int < 0x80
    ensures Utf8([c] + rest) == [c as int] + Utf8(rest)
  {
    assert ([c] + rest)[1..] == rest;
  }

  /** Decoding what was encoded gives the name back, for every name. */
  lemma {:induction false} PercentRoundTrip(name: octets)
    ensures PercentDecoded(Utf8(PercentEncoded(name))) == name
  {
    if name != [] {
      var b, rest := name[0], PercentEncoded(name[1..]);
      PercentRoundTrip(name[1..]);
      assert name == [b] + name[1..];
      if Unreserved(b) {
        Utf8OfAsciiChar(b as char, rest);
        DecodeLiteral(b, Utf8(rest));
      } else {
        var high, low := HexDigit(b / 16), HexDigit(b % 16);
        HexRoundTrip(b);
        Utf8OfEscape(high, low, rest);
        DecodeEscape(b, high as int, low as int, Utf8(rest));
      }
    }
  }

  lemma Utf8OfEscape(high: char, low: char, rest: string)
    requires high as int < 0x80 && low as int < 0x80
    ensures Utf8(['%', high, low] + rest) == [0x25, high as int, low as int] + Utf8(rest)
  {
    Utf8OfAsciiChar(low, rest);
    Utf8OfAsciiChar(high, [low] + rest);
    Utf8OfAsciiChar('%', [high] + ([low] + rest));
    assert ['%', high, low] + rest == ['%'] + ([high] + ([low] + rest));
    hide Utf8;
    assert [0x25, high as int, low as int] + Utf8(rest)
        == [0x25] + ([high as int] + ([low as int] + Utf8(rest)));
  }

  lemma DecodeLiteral(b: byte, rest: octets)
    requires b != 0x25
    ensures PercentDecoded([b] + rest) == [b] + PercentDecoded(rest)
  {
    assert ([b] + rest)[1..] == rest;
  }

  lemma DecodeEscape(b: byte, high: byte, low: byte, rest: octets)
    requires HexOctet(high, low) == Some(b)
    ensures PercentDecoded([0x25, high, low] + rest) == [b] + PercentDecoded(rest)
  {
    assert ([0x25, high, low] + rest)[3..] == rest;
  }

  /** Characters an encoded name consists of. */
  predicate PathChar(c: char) {
    'A' <= c <= 'Z' || 'a' <= c <= 'z' || '0' <= c <= '9' || c == '-' || c == '.' || c == '_' || c == '~' || c == '/'
    || c == '%'
  }

  lemma PercentByteIsPath(b: byte)
    ensures forall k :: 0 <= k < |PercentByte(b)| ==> PathChar(PercentByte(b)[k])
  {
  }

  lemma {:induction false} EncodedIsPath(name: octets)
    ensures forall k :: 0 <= k < |PercentEncoded(name)| ==> PathChar(PercentEncoded(name)[k])
  {
    if name != [] {
      EncodedIsPath(name[1..]);
      PercentByteIsPath(name[0]);
      hide PercentByte;
    }
  }
}
