/**
 What the two Base64 decoders take beyond the encodings (`base64.rs`): the strict one more whitespace at the
 ends than its documentation says, the URL one other texts for the same octets.
 */
module Base64Forms {

  import opened Octets
  import opened Base64
  import Modular

  // ----- Whitespace at the ends -----

  /** ASCII whitespace: tab, line feed, form feed, carriage return and space. */
  predicate IsAsciiWhitespace(c: char) {
    var n := c as int;
    n in {9, 10, 12, 13, 0x20}
  }

  function AsciiTrimStart(s: string): string {
    if s != "" && IsAsciiWhitespace(s[0]) then AsciiTrimStart(s[1..]) else s
  }

  function AsciiTrimEnd(s: string): string {
    if s != "" && IsAsciiWhitespace(s[|s| - 1]) then AsciiTrimEnd(s[..|s| - 1]) else s
  }

  function AsciiTrim(s: string): string {
    AsciiTrimEnd(AsciiTrimStart(s))
  }

  /** The decoder as documented: ASCII whitespace around the text is tolerated, and no other. */
  function AsciiDecoded(input: string): Option<octets> {
    TextOctets(AsciiTrim(input))
  }

  predicate EndsAreClean(text: string) {
    text != "" ==> !IsWhitespace(text[0]) && !IsWhitespace(text[|text| - 1])
  }

  lemma {:induction false} StartsAlike(s: string)
    ensures TrimStart(AsciiTrimStart(s)) == TrimStart(s)
  {
    if s != "" && IsAsciiWhitespace(s[0]) {
      StartsAlike(s[1..]);
    }
  }

  lemma {:induction false} LastGoesFirst(s: string)
    requires s != "" && IsWhitespace(s[|s| - 1])
    ensures Trim(s[..|s| - 1]) == Trim(s)
  {
    var init := s[..|s| - 1];
    if IsWhitespace(s[0]) {
      if init != "" {
        assert s[1..][..|s| - 2] == init[1..];
        LastGoesFirst(s[1..]);
      }
    } else {
      assert TrimStart(init) == init && TrimStart(s) == s;
    }
  }

  lemma {:induction false} EndsAlike(s: string)
    ensures Trim(AsciiTrimEnd(s)) == Trim(s)
  {
    if s != "" && IsAsciiWhitespace(s[|s| - 1]) {
      EndsAlike(s[..|s| - 1]);
      LastGoesFirst(s);
    }
  }

  /** Trimming ASCII whitespace first changes nothing. */
  lemma TrimAbsorbs(s: string)
    ensures Trim(AsciiTrim(s)) == Trim(s)
  {
    EndsAlike(AsciiTrimStart(s));
    StartsAlike(s);
  }

  lemma CleanIsTrimmed(text: string)
    requires EndsAreClean(text)
    ensures Trim(text) == text
  {
  }

  /** A text with whitespace at an end is no encoding. */
  lemma UncleanIsRefused(text: string)
    requires !EndsAreClean(text)
    ensures TextOctets(text) == None
  {
    hide TextOctets, IsWhitespace;
    if TextOctets(text).Some? {
      var b := TextOctets(text).value;
      TextDecodesExactly(text, b);
      if b != [] {
        EncodedEnds(b);
      }
    }
  }

  /**
   The decoder does as documented exactly when the text, rid of ASCII whitespace, has no other whitespace
   at its ends, or is refused anyway because what is inside is no encoding.
   */
  lemma AsciiWhitespaceExactly(input: string)
    ensures Decoded(input) == AsciiDecoded(input)
      <==> EndsAreClean(AsciiTrim(input)) || forall b :: Trim(input) != Encoded(b, false)
    ensures AsciiDecoded(input).Some? ==> Decoded(input) == AsciiDecoded(input)
  {
    var text := AsciiTrim(input);
    TrimAbsorbs(input);
    hide TextOctets, EndsAreClean, Trim, AsciiTrim, Encoded;
    if EndsAreClean(text) {
      CleanIsTrimmed(text);
    } else {
      UncleanIsRefused(text);
    }
    if Decoded(input).Some? {
      DecodesExactly(input, Decoded(input).value);
    } else {
      forall b ensures Trim(input) != Encoded(b, false) {
        DecodesExactly(input, b);
      }
    }
  }

  /** A no-break space is trimmed away, which the documentation does not promise. */
  lemma NoBreakSpaceIsTrimmed()
    ensures Decoded(['\U{A0}']) == Some([]) && AsciiDecoded(['\U{A0}']) == None
  {
    var text: string := ['\U{A0}'];
    assert text[1..] == "";
    assert TrimStart(text) == "";
    UncleanIsRefused(text);
  }

  // ----- The URL form -----

  /** The bits of the last character that no octet takes. */
  function SpareBits(text: string): nat {
    if text == "" || ValueOf(text[|text| - 1], true).None? then 0
    else
      var last := ValueOf(text[|text| - 1], true).value;
      match |text| % 4 case 2 => last % 16 case 3 => last % 4 case _ => 0
  }

  /** No pads, a length some octets have, and no spare bits. */
  predicate UrlCanonical(text: string) {
    PAD !in text && |text| % 4 != 1 && SpareBits(text) == 0
  }

  lemma QuantumIsCanonical(chunk: octets)
    requires 1 <= |chunk| <= 3
    ensures |Quantum(chunk, true)| == |chunk| + 1 && UrlCanonical(Quantum(chunk, true))
  {
    var n, quantum := Packed(chunk), Quantum(chunk, true);
    UrlQuantumValues(chunk);
    SplitOctets(n);
    PackedOctets(chunk);
    hide Packed, Sextet, Quantum, ValueOf;
  }

  lemma CanonicalAppend(head: string, rest: string)
    requires |head| == 4 && PAD !in head && UrlCanonical(rest)
    ensures UrlCanonical(head + rest)
  {
    hide ValueOf;
    if rest != "" {
      assert (head + rest)[|head + rest| - 1] == rest[|rest| - 1];
    }
  }

  lemma {:induction false} EncodedIsCanonical(b: octets)
    ensures UrlCanonical(Encoded(b, true))
    decreases |b|
  {
    if b != [] {
      var n := if |b| < 3 then |b| else 3;
      QuantumIsCanonical(b[..n]);
      EncodedIsCanonical(b[n..]);
      assert Encoded(b, true) == Quantum(b[..n], true) + Encoded(b[n..], true);
      if n == 3 {
        hide *;
        CanonicalMeans(Quantum(b[..n], true));
        CanonicalAppend(Quantum(b[..n], true), Encoded(b[n..], true));
      } else {
        assert Encoded(b[n..], true) == "";
        assert Quantum(b[..n], true) + "" == Quantum(b[..n], true);
      }
    }
  }

  lemma CanonicalMeans(text: string)
    requires UrlCanonical(text)
    ensures PAD !in text
  {
  }

  // ----- Four, three or two characters at a time -----

  /** The octets of four sextets. */
  function OctetsOf(v: seq<sextet>): (r: octets)
    requires |v| == 4
    ensures |r| == 3
  {
    var s0: int, s1: int, s2: int, s3: int := v[0], v[1], v[2], v[3];
    [s0 * 4 + s1 / 16, s1 % 16 * 16 + s2 / 4, s2 % 4 * 64 + s3]
  }

  lemma OctetsOfJoined(v: seq<sextet>)
    requires |v| == 4
    ensures var n := Joined(v[0], v[1], v[2], v[3]);
      && n < 0x100_0000
      && ThreeOctets(n) == OctetsOf(v)
      && forall i :: 0 <= i < 4 ==> Sextet(n, i) == v[i]
  {
    var n := Joined(v[0], v[1], v[2], v[3]);
    DigitsAreSextets(v[0], v[1], v[2], v[3]);
    SplitOctets(n);
    hide Joined, Sextet;
    forall i | 0 <= i < 4 ensures Sextet(n, i) == v[i] {
      assert i == 0 || i == 1 || i == 2 || i == 3;
    }
  }

  /** Without spare bits, the octets the characters give have the characters as their quantum. */
  lemma QuantumOfValues(v: seq<sextet>, count: nat)
    requires |v| == 4 && 1 <= count <= 3
    requires count <= 2 ==> v[3] == 0 && v[2] % 4 == 0
    requires count == 1 ==> v[2] == 0 && v[1] % 16 == 0
    ensures |Quantum(OctetsOf(v)[..count], true)| == count + 1
    ensures forall i :: 0 <= i <= count ==> ValueOf(Quantum(OctetsOf(v)[..count], true)[i], true) == Some(v[i])
  {
    var n := Joined(v[0], v[1], v[2], v[3]);
    OctetsOfJoined(v);
    SpareIsZero(v, count);
    PackedOfOctets(n, 3 - count);
    UrlQuantumValues(OctetsOf(v)[..count]);
    hide *;
  }

  lemma SpareIsZero(v: seq<sextet>, count: nat)
    requires |v| == 4 && 1 <= count <= 3
    requires count <= 2 ==> v[3] == 0 && v[2] % 4 == 0
    requires count == 1 ==> v[2] == 0 && v[1] % 16 == 0
    ensures count == 2 ==> Joined(v[0], v[1], v[2], v[3]) % 0x100 == 0
    ensures count == 1 ==> Joined(v[0], v[1], v[2], v[3]) % 0x1_0000 == 0
  {
    var s0: int, s1: int, s2: int := v[0], v[1], v[2];
    var n := Joined(v[0], v[1], v[2], v[3]);
    if count == 2 {
      Modular.QuotientIsUnique(0x100, n, s0 * 1024 + s1 * 16 + s2 / 4, 0);
    } else if count == 1 {
      Modular.QuotientIsUnique(0x1_0000, n, s0 * 4 + s1 / 16, 0);
    }
  }

  /** A text that decodes has a value at each character that is no pad. */
  lemma {:induction false} UrlValues(text: string, low: nat, bits: nat, k: nat)
    requires bits in {0, 2, 4, 6} && low < Unit(bits) && UrlDecoded(text, low, bits).Some?
    requires k < |text| && PAD !in text
    ensures ValueOf(text[k], true).Some?
    decreases |text|
  {
    if k > 0 {
      var v := ValueOf(text[0], true).value;
      if bits == 0 {
        UrlValues(text[1..], v, 6, k - 1);
      } else {
        UrlValues(text[1..], (low * 64 + v) % Unit(bits - 2), bits - 2, k - 1);
      }
    }
  }

  function UrlValue(c: char): sextet {
    if ValueOf(c, true).Some? then ValueOf(c, true).value else 0
  }

  /** The values of the first four characters, zero for those that are not there. */
  function FourValues(text: string): (v: seq<sextet>)
    ensures |v| == 4
  {
    seq(4, i requires 0 <= i < 4 => if i < |text| then UrlValue(text[i]) else 0)
  }

  predicate AllValued(text: string) {
    forall k :: 0 <= k < |text| ==> text[k] != PAD && ValueOf(text[k], true) == Some(UrlValue(text[k]))
  }

  /** Where the octets sit among the values. */
  lemma OctetsAt(v: seq<sextet>)
    requires |v| == 4
    ensures var o := OctetsOf(v);
      var s0: nat, s1: nat, s2: nat, s3: nat := v[0], v[1], v[2], v[3];
      && |o| == 3
      && NextOctet(s0 * 64 + s1, 4) == o[0]
      && (s0 * 64 + s1) % 16 == s1 % 16
      && NextOctet(s1 % 16 * 64 + s2, 2) == o[1]
      && (s1 % 16 * 64 + s2) % 4 == s2 % 4
      && NextOctet(s2 % 4 * 64 + s3, 0) == o[2]
  {
    NextOctets(v[0], v[1], v[2], v[3]);
    hide NextOctet;
  }

  /** Two or more characters give one octet fewer than there are, up to three. */
  lemma ChunkDecodes(text: string, count: nat)
    requires AllValued(text) && 1 <= count <= 3 && count < |text| && (count < 3 ==> |text| == count + 1)
    ensures UrlDecoded(text, 0, 0) == After(OctetsOf(FourValues(text))[..count],
                                            if count == 3 then UrlDecoded(text[4..], 0, 0) else Some([]))
  {
    hide *;
    UnitValues();
    FourLong(text);
    ValuesAt(text);
    var v := FourValues(text);
    OctetsAt(v);
    var o := OctetsOf(v);
    assert text[0..] == text;
    AfterNothing(UrlDecoded(text, 0, 0));
    UrlStep(text, 0, 0, 0, []);
    UrlTake(text, 1, v[0], 6, [], v[1]);
    assert [] + [o[0]] == o[..1];
    if count == 1 {
      NothingLeft(text, v[1] % 16, 4, o[..1]);
      AfterEmpty(o[..1]);
    } else {
      UrlTake(text, 2, v[1] % 16, 4, o[..1], v[2]);
      assert o[..1] + [o[1]] == o[..2];
      if count == 2 {
        NothingLeft(text, v[2] % 4, 2, o[..2]);
        AfterEmpty(o[..2]);
      } else {
        UrlTake(text, 3, v[2] % 4, 2, o[..2], v[3]);
        ModuloOne(v[2] as int % 4 * 64 + v[3] as int);
        assert o[..2] + [o[2]] == o[..3];
      }
    }
  }

  lemma FourLong(text: string)
    ensures |FourValues(text)| == 4
  {
  }

  lemma AfterEmpty(out: octets)
    ensures After(out, Some([])) == Some(out)
  {
    assert out + [] == out;
  }

  lemma ModuloOne(n: nat)
    ensures n % 1 == 0
  {
  }

  lemma ValuesAt(text: string)
    requires AllValued(text)
    ensures forall i :: 0 <= i < |text| && i < 4 ==> text[i] != PAD
    ensures forall i :: 0 <= i < |text| && i < 4 ==> ValueOf(text[i], true) == Some(FourValues(text)[i])
  {
  }

  // ----- Which texts are encodings -----

  lemma AcceptedIsValued(text: string)
    requires UrlDecoded(text, 0, 0).Some? && PAD !in text
    ensures AllValued(text)
  {
    forall k | 0 <= k < |text| ensures text[k] != PAD && ValueOf(text[k], true) == Some(UrlValue(text[k])) {
      assert Unit(0) == 1;
      UrlValues(text, 0, 0, k);
    }
  }

  /** Encoding the octets of one chunk of characters gives the characters back, without spare bits. */
  lemma ChunkEncodes(text: string, count: nat)
    requires AllValued(text) && 1 <= count <= 3 && count < |text| && (count < 3 ==> |text| == count + 1)
    requires count < 3 ==> SpareBits(text) == 0
    ensures Quantum(OctetsOf(FourValues(text))[..count], true) == text[..count + 1]
  {
    var v := FourValues(text);
    var quantum := Quantum(OctetsOf(v)[..count], true);
    assert count < 3 ==> v[3] == 0;
    assert count == 2 ==> v[2] % 4 == 0;
    assert count == 1 ==> v[2] == 0 && v[1] % 16 == 0;
    ValuesAt(text);
    QuantumOfValues(v, count);
    forall i | 0 <= i <= count ensures quantum[i] == text[i] {
      AlphabetIsBijective(quantum[i], v[i], true);
      AlphabetIsBijective(text[i], v[i], true);
      hide *;
    }
  }

  lemma {:induction false} CanonicalIsEncoding(text: string)
    requires UrlDecoded(text, 0, 0).Some? && UrlCanonical(text)
    ensures Encoded(UrlDecoded(text, 0, 0).value, true) == text
    decreases |text|
  {
    if text != "" {
      CanonicalMeans(text);
      AcceptedIsValued(text);
      LengthIsChunked(text);
      var count := if |text| < 4 then |text| - 1 else 3;
      var rest := text[count + 1..];
      var chunk := OctetsOf(FourValues(text))[..count];
      hide *;
      FourLong(text);
      OctetsAt(FourValues(text));
      ChunkDecodes(text, count);
      CanonicalTail(text);
      ChunkEncodes(text, count);
      assert text[..count + 1] + rest == text;
      if count == 3 {
        AfterMeans(chunk, UrlDecoded(rest, 0, 0));
        CanonicalIsEncoding(rest);
        EncodedOfMore(chunk, UrlDecoded(rest, 0, 0).value);
      } else {
        AfterEmpty(chunk);
        EncodedOfOne(chunk);
        assert rest == "";
      }
    }
  }

  lemma LengthIsChunked(text: string)
    requires UrlCanonical(text) && text != ""
    ensures |text| > 1
  {
  }

  lemma CanonicalTail(text: string)
    requires UrlCanonical(text)
    ensures |text| < 4 ==> SpareBits(text) == 0
    ensures |text| >= 4 ==> UrlCanonical(text[4..])
  {
    hide ValueOf;
    if |text| > 4 {
      assert text[4..][|text| - 5] == text[|text| - 1];
    }
  }

  lemma EncodedOfOne(chunk: octets)
    requires 1 <= |chunk| <= 3
    ensures Encoded(chunk, true) == Quantum(chunk, true)
  {
    assert chunk[..|chunk|] == chunk && chunk[|chunk|..] == [];
    assert Quantum(chunk, true) + "" == Quantum(chunk, true);
  }

  lemma EncodedOfMore(chunk: octets, more: octets)
    requires |chunk| == 3
    ensures Encoded(chunk + more, true) == Quantum(chunk, true) + Encoded(more, true)
  {
    assert (chunk + more)[..3] == chunk && (chunk + more)[3..] == more;
  }

  /**
   An accepted text is the encoding of what it decodes to exactly when it has no pads, a length some octets
   have and no spare bits.
   */
  lemma UrlAcceptsEncodingExactly(text: string)
    requires UrlDecoded(text, 0, 0).Some?
    ensures text == Encoded(UrlDecoded(text, 0, 0).value, true) <==> UrlCanonical(text)
  {
    if UrlCanonical(text) {
      CanonicalIsEncoding(text);
    } else {
      EncodedIsCanonical(UrlDecoded(text, 0, 0).value);
    }
  }

  /** Among the texts that are encodings, no two decode alike. */
  lemma UrlCanonicalIsInjective(first: string, second: string)
    requires UrlCanonical(first) && UrlCanonical(second)
    requires UrlDecoded(first, 0, 0).Some? && UrlDecoded(first, 0, 0) == UrlDecoded(second, 0, 0)
    ensures first == second
  {
    UrlAcceptsEncodingExactly(first);
    UrlAcceptsEncodingExactly(second);
  }

  /** Unlike the strict decoder, the URL decoder takes two texts for one octet string. */
  lemma UrlIsNotInjective()
    ensures UrlDecoded("AA", 0, 0) == UrlDecoded("AB", 0, 0) == Some([0])
    ensures UrlCanonical("AA") && !UrlCanonical("AB")
  {
    UrlEndsWith('A', 0);
    UrlEndsWith('B', 1);
    assert "AA"[1..] == ['A'] && "AB"[1..] == ['B'];
  }

  lemma UrlEndsWith(c: char, v: sextet)
    requires ValueOf(c, true) == Some(v) && v < 16
    ensures UrlDecoded([c], 0, 6) == Some([0])
  {
    AlphabetIsBijective(c, v, true);
    assert [c][1..] == "";
    assert UrlDecoded("", v % 16, 4) == Some([]);
    assert [NextOctet(v, 4)] + [] == [0];
  }
}
