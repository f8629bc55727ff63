/** Base64 (`base64.rs`): the padded form of section 4 of RFC 4648 and the unpadded URL form of section 5. */
module Base64 {

  import opened Octets
  import Modular

  const PAD: char := '='

  type sextet = n: int | 0 <= n < 64

  // ----- The alphabet -----

  /** The 64 characters in order, `last` being the two that differ between the forms. */
  function CharOf(v: sextet, url: bool): char {
    if v < 26 then ('A' as int + v) as char
    else if v < 52 then ('a' as int + v - 26) as char
    else if v < 62 then ('0' as int + v - 52) as char
    else if v == 62 then (if url then '-' else '+')
    else (if url then '_' else '/')
  }

  function ValueOf(c: char, url: bool): Option<sextet> {
    if 'A' <= c <= 'Z' then Some(c as int - 'A' as int)
    else if 'a' <= c <= 'z' then Some(c as int - 'a' as int + 26)
    else if '0' <= c <= '9' then Some(c as int - '0' as int + 52)
    else if c == (if url then '-' else '+') then Some(62)
    else if c == (if url then '_' else '/') then Some(63)
    else None
  }

  /** Characters and sextets correspond one to one. */
  lemma AlphabetIsBijective(c: char, v: sextet, url: bool)
    ensures ValueOf(c, url) == Some(v) <==> c == CharOf(v, url)
    ensures CharOf(v, url) != PAD
  {
  }

  // ----- Encoding -----

  /** Up to three octets as a 24-bit number, the missing ones zero. */
  function Packed(chunk: octets): (r: nat)
    requires |chunk| <= 3
    ensures r < 0x100_0000
  {
    var a, b, c := if |chunk| > 0 then chunk[0] else 0, if |chunk| > 1 then chunk[1] else 0,
      if |chunk| > 2 then chunk[2] else 0;
    (a as int * 256 + b) * 256 + c
  }

  function Sextet(packed: nat, index: nat): sextet
    requires index < 4
  {
    match index
    case 0 => packed / 0x4_0000 % 64
    case 1 => packed / 0x1000 % 64
    case 2 => packed / 0x40 % 64
    case _ => packed % 64
  }

  /** One octet gives two characters, two give three, three give four. */
  function QuantumChars(chunk: octets, url: bool): (r: string)
    requires 1 <= |chunk| <= 3
    ensures |r| == |chunk| + 1
  {
    seq(|chunk| + 1, i requires 0 <= i < |chunk| + 1 => CharOf(Sextet(Packed(chunk), i), url))
  }

  function Pads(count: nat): (r: string)
    ensures |r| == count && forall c :: c in r ==> c == PAD
  {
    seq(count, _ => PAD)
  }

  function Quantum(chunk: octets, url: bool): string
    requires 1 <= |chunk| <= 3
  {
    QuantumChars(chunk, url) + if url then "" else Pads(3 - |chunk|)
  }

  /** Each three octets in turn, the last one to three together. */
  function Encoded(input: octets, url: bool): string
    decreases |input|
  {
    if input == [] then "" else
      var n := if |input| < 3 then |input| else 3;
      Quantum(input[..n], url) + Encoded(input[n..], url)
  }

  /** The packing loop of both encoders. */
  method Pack(chunk: octets) returns (packed: nat)
    requires 1 <= |chunk| <= 3
    ensures packed == Packed(chunk)
  {
    packed := 0;
    for index := 0 to 3
      invariant index == 1 ==> packed == chunk[0]
      invariant index == 2 ==> packed == chunk[0] as int * 256 + if |chunk| > 1 then chunk[1] else 0
      invariant index == 3 ==> packed == Packed(chunk)
      invariant index == 0 ==> packed == 0
    {
      packed := packed * 256;
      packed := packed + if index < |chunk| then chunk[index] else 0;
    }
  }

  lemma QuantumAt(chunk: octets, url: bool, i: nat)
    requires 1 <= |chunk| <= 3
    ensures |Quantum(chunk, url)| == if url then |chunk| + 1 else 4
    ensures i <= |chunk| ==> Quantum(chunk, url)[i] == CharOf(Sextet(Packed(chunk), i), url)
    ensures |chunk| < i < |Quantum(chunk, url)| ==> Quantum(chunk, url)[i] == PAD
  {
    hide Packed, Sextet, CharOf;
  }

  /** The emitting loop: characters that carry input, then padding. */
  method PushQuantum(out: string, chunk: octets) returns (longer: string)
    requires 1 <= |chunk| <= 3
    ensures longer == out + Quantum(chunk, false)
  {
    hide *;
    var packed := Pack(chunk);
    ghost var quantum := Quantum(chunk, false);
    QuantumAt(chunk, false, 0);
    longer := out;
    for index := 0 to 4
      invariant longer == out + quantum[..index]
    {
      QuantumAt(chunk, false, index);
      if index <= |chunk| {
        longer := longer + [CharOf(Sextet(packed, index), false)];
      } else {
        longer := longer + [PAD];
      }
    }
    assert quantum[..4] == quantum;
  }

  method PushUrlQuantum(out: string, chunk: octets) returns (longer: string)
    requires 1 <= |chunk| <= 3
    ensures longer == out + Quantum(chunk, true)
  {
    hide *;
    var packed := Pack(chunk);
    ghost var quantum := Quantum(chunk, true);
    QuantumAt(chunk, true, 0);
    longer := out;
    var outChars := match |chunk| case 1 => 2 case 2 => 3 case _ => 4;
    for index := 0 to outChars
      invariant longer == out + quantum[..index]
    {
      QuantumAt(chunk, true, index);
      longer := longer + [CharOf(Sextet(packed, index), true)];
    }
    assert quantum[..outChars] == quantum;
  }

  lemma EncodedStep(input: octets, at: nat, n: nat, url: bool, out: string)
    requires at < |input| && n == if |input| - at < 3 then |input| - at else 3
    ensures out + Encoded(input[at..], url) == out + Quantum(input[at..at + n], url) + Encoded(input[at + n..], url)
  {
    assert input[at..][..n] == input[at..at + n] && input[at..][n..] == input[at + n..];
    var quantum, rest := Quantum(input[at..at + n], url), Encoded(input[at + n..], url);
    assert Encoded(input[at..], url) == quantum + rest;
    hide *;
    assert out + (quantum + rest) == out + quantum + rest;
  }

  method Encode(input: octets) returns (out: string)
    ensures out == Encoded(input, false)
  {
    assert Encoded([], false) == "";
    hide *;
    out := "";
    var at := 0;
    assert input[0..] == input;
    while at < |input|
      invariant at <= |input|
      invariant out + Encoded(input[at..], false) == Encoded(input, false)
    {
      var n := if |input| - at < 3 then |input| - at else 3;
      EncodedStep(input, at, n, false, out);
      out := PushQuantum(out, input[at..at + n]);
      at := at + n;
    }
  }

  method EncodeUrlUnpadded(input: octets) returns (out: string)
    ensures out == Encoded(input, true)
  {
    assert Encoded([], true) == "";
    hide *;
    out := "";
    var at := 0;
    assert input[0..] == input;
    while at < |input|
      invariant at <= |input|
      invariant out + Encoded(input[at..], true) == Encoded(input, true)
    {
      var n := if |input| - at < 3 then |input| - at else 3;
      EncodedStep(input, at, n, true, out);
      out := PushUrlQuantum(out, input[at..at + n]);
      at := at + n;
    }
  }

  // ----- Decoding -----

  /** The `White_Space` characters of Unicode, which trimming removes at both ends. */
  predicate IsWhitespace(c: char) {
    var n := c as int;
    9 <= n <= 13 || n in {0x20, 0x85, 0xA0, 0x1680, 0x2028, 0x2029, 0x202F, 0x205F, 0x3000} || 0x2000 <= n <= 0x200A
  }

  function TrimStart(s: string): string {
    if s != "" && IsWhitespace(s[0]) then TrimStart(s[1..]) else s
  }

  function TrimEnd(s: string): string {
    if s != "" && IsWhitespace(s[|s| - 1]) then TrimEnd(s[..|s| - 1]) else s
  }

  function Trim(s: string): string {
    TrimEnd(TrimStart(s))
  }

  function TrailingPads(s: string): (n: nat)
    ensures n <= |s|
    ensures forall i :: |s| - n <= i < |s| ==> s[i] == PAD
    ensures n < |s| ==> s[|s| - 1 - n] != PAD
  {
    if s != "" && s[|s| - 1] == PAD then 1 + TrailingPads(s[..|s| - 1]) else 0
  }

  function Pow64(k: nat): (r: nat)
    ensures r > 0
  {
    if k == 0 then 1 else 64 * Pow64(k - 1)
  }

  /** The characters as one number, six bits each. */
  function Gathered(chars: string): (r: Option<nat>)
    ensures r.Some? ==> r.value < Pow64(|chars|)
  {
    if chars == "" then Some(0)
    else
      var before :- Gathered(chars[..|chars| - 1]);
      var v :- ValueOf(chars[|chars| - 1], false);
      Some(before * 64 + v)
  }

  function TwoBits(count: nat): nat
    requires count <= 2
  {
    match count case 0 => 1 case 1 => 4 case _ => 16
  }

  /** The octets of a quantum whose last `padding` characters are pads. */
  function QuadOctets(quad: string, padding: nat): (r: Option<octets>)
    requires |quad| == 4 && padding <= 2
    ensures r.Some? ==> |r.value| == 3 - padding
  {
    var packed :- Gathered(quad[..4 - padding]);
    assert Pow64(4 - padding) * Pow64(padding) == 0x100_0000;
    if packed % TwoBits(padding) != 0 then None
    else Some(ThreeOctets(packed * Pow64(padding))[..3 - padding])
  }

  function ThreeOctets(n: nat): (r: octets)
    ensures |r| == 3
  {
    [n / 0x1_0000 % 256, n / 0x100 % 256, n % 256]
  }

  function QuadsOctets(text: string, padding: nat): Option<octets>
    requires |text| % 4 == 0 && text != "" && padding <= 2
  {
    if |text| == 4 then QuadOctets(text, padding)
    else
      var first :- QuadOctets(text[..4], 0);
      var rest :- QuadsOctets(text[4..], padding);
      Some(first + rest)
  }

  /** What the strict decoder makes of a text that has been trimmed. */
  function TextOctets(text: string): Option<octets> {
    if text == "" then Some([])
    else if |text| % 4 != 0 || TrailingPads(text) > 2 then None
    else QuadsOctets(text, TrailingPads(text))
  }

  /** What the strict decoder accepts, and as what. */
  function Decoded(input: string): Option<octets> {
    TextOctets(Trim(input))
  }

  // ----- The decoder as written -----

  /** The gathering loop: six bits a character, none when one is not in the alphabet. */
  method Gather(chars: string) returns (packed: Option<nat>)
    ensures packed == Gathered(chars)
  {
    var number: nat := 0;
    assert Gathered(chars[..0]) == Some(0);
    for index := 0 to |chars|
      invariant Gathered(chars[..index]) == Some(number)
    {
      assert chars[..index + 1][..index] == chars[..index];
      GatheredPrefix(chars, index + 1);
      var v := ValueOf(chars[index], false);
      if v.None? {
        return None;
      }
      number := number * 64 + v.value;
    }
    assert chars[..|chars|] == chars;
    return Some(number);
  }

  /** The octets of one quantum, behind those already decoded. */
  method DecodeQuad(quad: string, padding: nat, out: octets) returns (r: Option<octets>)
    requires |quad| == 4 && padding <= 2
    ensures r == if QuadOctets(quad, padding).Some? then Some(out + QuadOctets(quad, padding).value) else None
  {
    hide Gathered, Pow64;
    var chars := 4 - padding;
    var packed :- Gather(quad[..chars]);
    if packed % TwoBits(padding) != 0 {
      return None;
    }
    packed := packed * Pow64(padding);
    var octetCount := 3 - padding;
    ghost var all := ThreeOctets(packed);
    assert all == [packed / 0x1_0000 % 256, packed / 0x100 % 256, packed % 256];
    hide ThreeOctets;
    var longer := out;
    for index := 0 to octetCount
      invariant longer == out + all[..index]
    {
      longer := longer + [match index case 0 => packed / 0x1_0000 % 256 case 1 => packed / 0x100 % 256
                          case _ => packed % 256];
    }
    return Some(longer);
  }

  lemma {:induction false} GatheredPrefix(chars: string, k: nat)
    requires k <= |chars|
    ensures Gathered(chars).Some? ==> Gathered(chars[..k]).Some?
    decreases |chars|
  {
    if k < |chars| {
      assert chars[..|chars| - 1][..k] == chars[..k];
      GatheredPrefix(chars[..|chars| - 1], k);
    } else {
      assert chars[..k] == chars;
    }
  }

  /** What the quads still to come make of the octets already decoded. */
  function After(out: octets, rest: Option<octets>): Option<octets> {
    if rest.Some? then Some(out + rest.value) else None
  }

  /** The quads from `at` on, the first of them decoded or refused. */
  lemma QuadsStep(text: string, at: nat, padding: nat, out: octets)
    requires |text| % 4 == 0 && at % 4 == 0 && at + 4 < |text| && padding <= 2
    ensures var first := QuadOctets(text[at..at + 4], 0);
      After(out, QuadsOctets(text[at..], padding))
      == if first.Some? then After(out + first.value, QuadsOctets(text[at + 4..], padding)) else None
  {
    assert text[at..][..4] == text[at..at + 4] && text[at..][4..] == text[at + 4..];
    var first, rest := QuadOctets(text[at..at + 4], 0), QuadsOctets(text[at + 4..], padding);
    if first.Some? && rest.Some? {
      assert out + (first.value + rest.value) == out + first.value + rest.value;
    }
  }

  lemma LastQuad(text: string, at: nat, padding: nat, out: octets)
    requires at + 4 == |text| && |text| % 4 == 0 && padding <= 2
    ensures After(out, QuadsOctets(text[at..], padding)) == After(out, QuadOctets(text[at..], padding))
  {
  }

  lemma AfterMeans(out: octets, rest: Option<octets>)
    ensures rest.None? ==> After(out, rest) == None
    ensures rest.Some? ==> After(out, rest) == Some(out + rest.value)
  {
  }

  /** The loop over all quads but the last, then the last with its padding. */
  method DecodeQuads(text: string, padding: nat) returns (r: Option<octets>)
    requires |text| % 4 == 0 && text != "" && padding <= 2
    ensures r == QuadsOctets(text, padding)
  {
    hide *;
    var out := [];
    var at := 0;
    assert text[0..] == text;
    AfterNothing(QuadsOctets(text, padding));
    while at + 4 < |text|
      invariant at % 4 == 0 && at < |text|
      invariant After(out, QuadsOctets(text[at..], padding)) == QuadsOctets(text, padding)
    {
      QuadsStep(text, at, padding, out);
      var longer := DecodeQuad(text[at..at + 4], 0, out);
      if longer.None? {
        return None;
      }
      out := longer.value;
      at := at + 4;
    }
    LastQuad(text, at, padding, out);
    AfterMeans(out, QuadOctets(text[at..], padding));
    r := DecodeQuad(text[at..], padding, out);
  }

  method Decode(input: string) returns (r: Option<octets>)
    ensures r == Decoded(input)
  {
    var text := Trim(input);
    if text == "" {
      return Some([]);
    }
    if |text| % 4 != 0 {
      return None;
    }
    var padding := TrailingPads(text);
    if padding > 2 {
      return None;
    }
    if PAD in text[..|text| - padding] {
      PadInBody(text, padding);
      return None;
    }
    r := DecodeQuads(text, padding);
  }

  lemma AfterNothing(rest: Option<octets>)
    ensures After([], rest) == rest
  {
    if rest.Some? {
      assert [] + rest.value == rest.value;
    }
  }

  lemma {:induction false} GatheredRejects(chars: string, c: char)
    requires c in chars && ValueOf(c, false).None?
    ensures Gathered(chars) == None
  {
    var init, last := chars[..|chars| - 1], chars[|chars| - 1];
    assert chars == init + [last];
    if c != last {
      GatheredRejects(init, c);
    }
  }

  /** A pad before the trailing ones is never read. */
  lemma {:induction false} PadInBody(text: string, padding: nat)
    requires |text| % 4 == 0 && text != "" && padding <= 2 && PAD in text[..|text| - padding]
    ensures QuadsOctets(text, padding) == None
  {
    if |text| == 4 {
      GatheredRejects(text[..4 - padding], PAD);
    } else if PAD in text[..4] {
      assert text[..4][..4] == text[..4];
      GatheredRejects(text[..4], PAD);
    } else {
      var n := |text| - padding;
      assert text[..n] == text[..4] + text[4..n];
      assert text[4..][..n - 4] == text[4..n];
      PadInBody(text[4..], padding);
    }
  }

  // ----- One quantum, both ways -----

  lemma GatheredTwo(chars: string, v0: sextet, v1: sextet)
    requires |chars| >= 2 && ValueOf(chars[0], false) == Some(v0) && ValueOf(chars[1], false) == Some(v1)
    ensures Gathered(chars[..2]) == Some(v0 * 64 + v1)
  {
    assert chars[..2][..1] == chars[..1] && chars[..1][..0] == "";
    assert Gathered(chars[..1]) == Some(v0 as nat);
  }

  lemma GatheredOneMore(chars: string, k: nat, before: nat, v: sextet)
    requires k < |chars| && Gathered(chars[..k]) == Some(before) && ValueOf(chars[k], false) == Some(v)
    ensures Gathered(chars[..k + 1]) == Some(before * 64 + v)
  {
    assert chars[..k + 1][..k] == chars[..k];
  }

  /** Four digits in base 64. */
  function Joined(v0: nat, v1: nat, v2: nat, v3: nat): nat {
    ((v0 * 64 + v1) * 64 + v2) * 64 + v3
  }

  /** The four sextets of a 24-bit number are its digits in base 64. */
  lemma SextetDigits(n: nat)
    requires n < 0x100_0000
    ensures n / 0x1000 == Sextet(n, 0) * 64 + Sextet(n, 1)
    ensures n / 0x40 == (Sextet(n, 0) * 64 + Sextet(n, 1)) * 64 + Sextet(n, 2)
    ensures n == Joined(Sextet(n, 0), Sextet(n, 1), Sextet(n, 2), Sextet(n, 3))
  {
    assert n / 0x1000 == n / 0x40 / 0x40;
    assert n / 0x4_0000 == n / 0x1000 / 0x40;
  }

  lemma Pow64s()
    ensures Pow64(0) == 1 && Pow64(1) == 64 && Pow64(2) == 0x1000
  {
    assert Pow64(0) == 1;
    assert Pow64(1) == 64;
  }

  lemma PackedOctets(chunk: octets)
    requires 1 <= |chunk| <= 3
    ensures var n := Packed(chunk);
      && n / 0x1_0000 == chunk[0]
      && n / 0x100 % 256 == (if |chunk| >= 2 then chunk[1] else 0)
      && n % 256 == (if |chunk| == 3 then chunk[2] else 0)
  {
    var a: int, b: int, c: int := chunk[0], if |chunk| >= 2 then chunk[1] else 0, if |chunk| == 3 then chunk[2] else 0;
    assert Packed(chunk) == (a * 256 + b) * 256 + c;
    hide Packed;
    assert Packed(chunk) / 0x100 == a * 256 + b;
    assert Packed(chunk) / 0x1_0000 == Packed(chunk) / 0x100 / 0x100;
  }

  /** The octets of a 24-bit number among its sextets. */
  lemma SplitOctets(n: nat)
    requires n < 0x100_0000
    ensures var s0, s1, s2, s3 := Sextet(n, 0), Sextet(n, 1), Sextet(n, 2), Sextet(n, 3);
      && n / 0x1_0000 == s0 * 4 + s1 / 16
      && n / 0x100 % 256 == s1 % 16 * 16 + s2 / 4
      && n % 256 == s2 % 4 * 64 + s3
  {
    var s0: int, s1: int, s2: int, s3: int := Sextet(n, 0), Sextet(n, 1), Sextet(n, 2), Sextet(n, 3);
    SextetDigits(n);
    hide Sextet;
    assert s2 == 4 * (s2 / 4) + s2 % 4;
    assert s1 == 16 * (s1 / 16) + s1 % 16;
    Modular.QuotientIsUnique(0x100, n, s0 * 1024 + s1 * 16 + s2 / 4, s2 % 4 * 64 + s3);
    Modular.QuotientIsUnique(0x100, n / 0x100, s0 * 4 + s1 / 16, s1 % 16 * 16 + s2 / 4);
    assert n / 0x1_0000 == n / 0x100 / 0x100;
  }

  lemma OctetsOfPacked(chunk: octets)
    requires 1 <= |chunk| <= 3
    ensures ThreeOctets(Packed(chunk))[..|chunk|] == chunk
    ensures |chunk| == 1 ==> Packed(chunk) / 0x1000 * 0x1000 == Packed(chunk) && Packed(chunk) / 0x1000 % 16 == 0
    ensures |chunk| == 2 ==> Packed(chunk) / 0x40 * 0x40 == Packed(chunk) && Packed(chunk) / 0x40 % 4 == 0
  {
    var n := Packed(chunk);
    PackedOctets(chunk);
    hide Packed;
    assert n == 256 * (n / 0x100) + n % 256;
    assert n / 0x1_0000 == n / 0x100 / 0x100;
    if |chunk| == 1 {
      Modular.QuotientIsUnique(0x1000, n, 16 * (chunk[0] as int), 0);
    } else if |chunk| == 2 {
      Modular.QuotientIsUnique(0x40, n, 4 * (n / 0x100), 0);
    }
  }

  /** Decoding an encoded quantum gives its octets back. */
  lemma QuadOfQuantum(chunk: octets)
    requires 1 <= |chunk| <= 3
    ensures |Quantum(chunk, false)| == 4
    ensures QuadOctets(Quantum(chunk, false), 3 - |chunk|) == Some(chunk)
  {
    var quad, n := Quantum(chunk, false), Packed(chunk);
    QuantumAt(chunk, false, 0);
    QuantumAt(chunk, false, 1);
    QuantumAt(chunk, false, 2);
    QuantumAt(chunk, false, 3);
    AlphabetIsBijective(quad[0], Sextet(n, 0), false);
    AlphabetIsBijective(quad[1], Sextet(n, 1), false);
    AlphabetIsBijective(quad[2], Sextet(n, 2), false);
    AlphabetIsBijective(quad[3], Sextet(n, 3), false);
    hide Quantum, CharOf, ValueOf, Gathered, Sextet, Packed, Pow64, ThreeOctets;
    SextetDigits(n);
    OctetsOfPacked(chunk);
    Pow64s();
    GatheredTwo(quad, Sextet(n, 0), Sextet(n, 1));
    if |chunk| >= 2 {
      GatheredOneMore(quad, 2, n / 0x1000, Sextet(n, 2));
    }
    if |chunk| == 3 {
      GatheredOneMore(quad, 3, n / 0x40, Sextet(n, 3));
    }
  }

  /** A quantum that decodes has a value at every character it carries. */
  lemma {:induction false} GatheredValues(chars: string, k: nat)
    requires Gathered(chars).Some? && k < |chars|
    ensures ValueOf(chars[k], false).Some?
  {
    if k < |chars| - 1 {
      GatheredValues(chars[..|chars| - 1], k);
    }
  }

  /** Four sextets whose number is `n` are the sextets of `n`. */
  lemma DigitsAreSextets(v0: sextet, v1: sextet, v2: sextet, v3: sextet)
    ensures var n := Joined(v0, v1, v2, v3);
      n < 0x100_0000 && Sextet(n, 0) == v0 && Sextet(n, 1) == v1 && Sextet(n, 2) == v2 && Sextet(n, 3) == v3
  {
  }

  /** Three octets cut down to those that are not padding pack to the number they came from. */
  lemma PackedOfOctets(n: nat, padding: nat)
    requires n < 0x100_0000 && padding <= 2
    requires padding == 1 ==> n % 0x100 == 0
    requires padding == 2 ==> n % 0x1_0000 == 0
    ensures Packed(ThreeOctets(n)[..3 - padding]) == n
  {
    assert n / 0x1_0000 == n / 0x100 / 0x100;
  }

  function ValueOrZero(c: char): sextet {
    if ValueOf(c, false).Some? then ValueOf(c, false).value else 0
  }

  lemma GatheredQuad(quad: string, padding: nat)
    requires |quad| == 4 && padding <= 2 && Gathered(quad[..4 - padding]).Some?
    ensures forall i :: 0 <= i < 4 - padding ==> ValueOf(quad[i], false) == Some(ValueOrZero(quad[i]))
    ensures var v := QuadValues(quad, padding);
      Gathered(quad[..4 - padding]).value * Pow64(padding) == Joined(v[0], v[1], v[2], v[3])
  {
    forall i | 0 <= i < 4 - padding
      ensures ValueOf(quad[i], false) == Some(ValueOrZero(quad[i]))
    {
      GatheredValues(quad[..4 - padding], i);
    }
    Pow64s();
    hide ValueOf, Gathered, Pow64, ValueOrZero;
    GatheredTwo(quad, ValueOrZero(quad[0]), ValueOrZero(quad[1]));
    var two := ValueOrZero(quad[0]) * 64 + ValueOrZero(quad[1]);
    if padding <= 1 {
      GatheredOneMore(quad, 2, two, ValueOrZero(quad[2]));
    }
    if padding == 0 {
      GatheredOneMore(quad, 3, two * 64 + ValueOrZero(quad[2]), ValueOrZero(quad[3]));
    }
  }

  /** Encoding what a quantum decoded to gives the quantum back: spare bits must have been zero. */
  lemma QuantumOfQuad(quad: string, padding: nat)
    requires |quad| == 4 && padding <= 2 && QuadOctets(quad, padding).Some?
    requires forall i :: 4 - padding <= i < 4 ==> quad[i] == PAD
    ensures Quantum(QuadOctets(quad, padding).value, false) == quad
  {
    var chunk := QuadOctets(quad, padding).value;
    var v := QuadValues(quad, padding);
    PackedOfQuad(quad, padding);
    hide QuadOctets, QuadValues, Packed;
    DigitsAreSextets(v[0], v[1], v[2], v[3]);
    forall i | 0 <= i < 4
      ensures |Quantum(chunk, false)| == 4 && Quantum(chunk, false)[i] == quad[i]
    {
      hide *;
      QuantumAt(chunk, false, i);
      AlphabetIsBijective(quad[i], v[i], false);
      assert i == 0 || i == 1 || i == 2 || i == 3;
    }
  }

  /** The values of the characters of a quantum, its pads counting as zero. */
  function QuadValues(quad: string, padding: nat): (v: seq<sextet>)
    requires |quad| == 4 && padding <= 2
    ensures |v| == 4
  {
    seq(4, i requires 0 <= i < 4 => if i < 4 - padding then ValueOrZero(quad[i]) else 0)
  }

  /** What a quantum decoded to packs to the number its characters stand for. */
  lemma PackedOfQuad(quad: string, padding: nat)
    requires |quad| == 4 && padding <= 2 && QuadOctets(quad, padding).Some?
    ensures var v := QuadValues(quad, padding);
      && Packed(QuadOctets(quad, padding).value) == Joined(v[0], v[1], v[2], v[3])
      && forall i :: 0 <= i < 4 - padding ==> ValueOf(quad[i], false) == Some(v[i])
  {
    GatheredQuad(quad, padding);
    var v := QuadValues(quad, padding);
    var packed := Gathered(quad[..4 - padding]).value;
    assert QuadOctets(quad, padding).value == ThreeOctets(packed * Pow64(padding))[..3 - padding];
    assert packed % TwoBits(padding) == 0;
    hide *;
    DigitsAreSextets(v[0], v[1], v[2], v[3]);
    PackedOfShifted(packed, padding, Joined(v[0], v[1], v[2], v[3]));
    forall i | 0 <= i < 4 - padding
      ensures ValueOf(quad[i], false) == Some(v[i])
    {
      QuadValueAt(quad, padding, i);
    }
  }

  lemma QuadValueAt(quad: string, padding: nat, i: nat)
    requires |quad| == 4 && padding <= 2 && i < 4 - padding
    ensures QuadValues(quad, padding)[i] == ValueOrZero(quad[i])
  {
  }

  lemma PackedOfShifted(packed: nat, padding: nat, n: nat)
    requires padding <= 2 && packed % TwoBits(padding) == 0 && n == packed * Pow64(padding) && n < 0x100_0000
    ensures Packed(ThreeOctets(n)[..3 - padding]) == n
  {
    Pow64s();
    hide Packed, ThreeOctets, Pow64;
    PackedOfOctets(n, padding);
  }

  // ----- Whole texts -----

  /** How many pads the encoding of `n` octets ends with. */
  function PadsFor(n: nat): (r: nat)
    ensures r <= 2
  {
    (3 - n % 3) % 3
  }

  lemma PadsForOneQuantum(n: nat)
    requires n > 0
    ensures n <= 3 ==> PadsFor(n) == 3 - n
    ensures n > 3 ==> PadsFor(n - 3) == PadsFor(n)
  {
  }

  lemma EncodedHead(b: octets)
    requires b != []
    ensures |b| <= 3 ==> Encoded(b, false) == Quantum(b, false)
    ensures |b| > 3 ==> Encoded(b, false) == Quantum(b[..3], false) + Encoded(b[3..], false)
  {
    hide Quantum;
    if |b| <= 3 {
      assert b[..|b|] == b && b[|b|..] == [];
      assert Quantum(b, false) + "" == Quantum(b, false);
    }
  }

  lemma QuadsHead(first: string, rest: string, padding: nat)
    requires |first| == 4 && |rest| % 4 == 0 && rest != "" && padding <= 2
    ensures var a, b := QuadOctets(first, 0), QuadsOctets(rest, padding);
      QuadsOctets(first + rest, padding) == if a.Some? && b.Some? then Some(a.value + b.value) else None
  {
    assert (first + rest)[..4] == first && (first + rest)[4..] == rest;
  }

  lemma QuadsOfOne(quad: string, padding: nat)
    requires |quad| == 4 && padding <= 2
    ensures QuadsOctets(quad, padding) == QuadOctets(quad, padding)
  {
  }

  lemma {:induction false} QuadsOfEncoded(b: octets)
    requires b != []
    ensures |Encoded(b, false)| % 4 == 0 && Encoded(b, false) != ""
    ensures QuadsOctets(Encoded(b, false), PadsFor(|b|)) == Some(b)
    decreases |b|
  {
    hide *;
    PadsForOneQuantum(|b|);
    EncodedHead(b);
    if |b| <= 3 {
      QuadOfQuantum(b);
      QuadsOfOne(Quantum(b, false), 3 - |b|);
    } else {
      QuadOfQuantum(b[..3]);
      QuadsOfEncoded(b[3..]);
      QuadsHead(Quantum(b[..3], false), Encoded(b[3..], false), PadsFor(|b|));
      assert b[..3] + b[3..] == b;
    }
  }

  lemma {:induction false} EncodedOfQuads(text: string, padding: nat)
    requires |text| % 4 == 0 && text != "" && padding <= 2 && QuadsOctets(text, padding).Some?
    requires forall i :: |text| - padding <= i < |text| ==> text[i] == PAD
    ensures QuadsOctets(text, padding).value != []
    ensures Encoded(QuadsOctets(text, padding).value, false) == text
    decreases |text|
  {
    hide *;
    var b := QuadsOctets(text, padding).value;
    if |text| == 4 {
      QuadsOfOne(text, padding);
      QuantumOfQuad(text, padding);
      EncodedHead(b);
    } else {
      var head, tail := text[..4], text[4..];
      assert text == head + tail;
      QuadsHead(head, tail, padding);
      QuantumOfQuad(head, 0);
      EncodedOfQuads(tail, padding);
      EncodedHead(b);
      assert b[..3] == QuadOctets(head, 0).value && b[3..] == QuadsOctets(tail, padding).value;
    }
  }

  /** The count is the only one with pads behind it and something else before it. */
  lemma {:induction false} TrailingPadsIs(s: string, n: nat)
    requires n < |s| && s[|s| - 1 - n] != PAD
    requires forall i :: |s| - n <= i < |s| ==> s[i] == PAD
    ensures TrailingPads(s) == n
  {
    if n > 0 {
      TrailingPadsIs(s[..|s| - 1], n - 1);
    }
  }

  lemma {:induction false} EncodedEnds(b: octets)
    requires b != []
    ensures var t := Encoded(b, false);
      && |t| >= 4
      && !IsWhitespace(t[0])
      && !IsWhitespace(t[|t| - 1])
      && t[|t| - 1 - PadsFor(|b|)] != PAD
      && forall i :: |t| - PadsFor(|b|) <= i < |t| ==> t[i] == PAD
    decreases |b|
  {
    hide *;
    PadsForOneQuantum(|b|);
    EncodedHead(b);
    if |b| <= 3 {
      NoAlphabetWhitespace(Quantum(b, false), b);
    } else {
      NoAlphabetWhitespace(Quantum(b[..3], false), b[..3]);
      EncodedEnds(b[3..]);
    }
  }

  lemma NoAlphabetWhitespace(quantum: string, chunk: octets)
    requires 1 <= |chunk| <= 3 && quantum == Quantum(chunk, false)
    ensures |quantum| == 4
    ensures forall i :: 0 <= i < 4 ==> !IsWhitespace(quantum[i])
    ensures forall i :: 0 <= i <= |chunk| ==> quantum[i] != PAD
    ensures forall i :: |chunk| < i < 4 ==> quantum[i] == PAD
  {
    forall i | 0 <= i < 4
      ensures |quantum| == 4 && !IsWhitespace(quantum[i])
      ensures i <= |chunk| ==> quantum[i] != PAD
      ensures i > |chunk| ==> quantum[i] == PAD
    {
      QuantumAt(chunk, false, i);
      hide Quantum, Packed, Sextet;
    }
  }

  /** Trimmed, exactly the encodings decode, each to what was encoded. */
  lemma TextDecodesExactly(text: string, b: octets)
    ensures TextOctets(text) == Some(b) <==> text == Encoded(b, false)
  {
    if text == Encoded(b, false) && b != [] {
      EncodedEnds(b);
      TrailingPadsIs(text, PadsFor(|b|));
      QuadsOfEncoded(b);
    }
    if TextOctets(text) == Some(b) && text != "" {
      EncodedOfQuads(text, TrailingPads(text));
    }
  }

  /**
   The strict decoder is the inverse of the encoder, both ways: it accepts exactly the encodings, with
   whitespace around them, and returns what was encoded.
   */
  lemma DecodesExactly(input: string, b: octets)
    ensures Decoded(input) == Some(b) <==> Trim(input) == Encoded(b, false)
  {
    TextDecodesExactly(Trim(input), b);
    hide TextOctets, Encoded, Trim;
  }

  /** Decoding an encoding gives the octets back. */
  lemma RoundTrip(b: octets)
    ensures Decoded(Encoded(b, false)) == Some(b)
  {
    if b != [] {
      EncodedEnds(b);
    }
    DecodesExactly(Encoded(b, false), b);
  }

  /** Two octet strings with one encoding are one, and so are two texts with one decoding once trimmed. */
  lemma NoTwoDecodeAlike(first: string, second: string)
    requires Decoded(first).Some? && Decoded(first) == Decoded(second)
    ensures Trim(first) == Trim(second)
  {
    DecodesExactly(first, Decoded(first).value);
    DecodesExactly(second, Decoded(first).value);
  }

  // ----- The URL form -----

  /** Values of the bits left over between characters: none, two, four or six of them. */
  function Unit(bits: nat): (r: nat)
    requires bits in {0, 2, 4, 6}
    ensures r > 0
  {
    match bits case 0 => 1 case 2 => 4 case 4 => 16 case _ => 64
  }

  /** The URL decoder on exact numbers: `low` holds the `bits` bits no octet has taken yet. */
  function UrlDecoded(text: string, low: nat, bits: nat): Option<octets>
    requires bits in {0, 2, 4, 6} && low < Unit(bits)
    decreases |text|
  {
    if text == "" then Some([])
    else if text[0] == PAD then UrlDecoded(text[1..], low, bits)
    else
      var v :- ValueOf(text[0], true);
      if bits == 0 then UrlDecoded(text[1..], v, 6)
      else
        var longer := low * 64 + v;
        var rest :- UrlDecoded(text[1..], longer % Unit(bits - 2), bits - 2);
        Some([NextOctet(longer, bits - 2)] + rest)
  }

  /** The eight bits above the `bits` lowest. */
  function NextOctet(n: nat, bits: nat): byte
    requires bits in {0, 2, 4}
  {
    n / Unit(bits) % 256
  }

  /** A 32-bit accumulator drops only bits that have already been written. */
  lemma AccumulatorSuffices(buf: nat, v: sextet, bits: nat)
    requires buf < U32_LIMIT && bits in {0, 2, 4, 6}
    ensures var longer := buf * 64 % U32_LIMIT + v;
      var exact := buf % Unit(bits) * 64 + v;
      && longer < U32_LIMIT
      && (bits == 0 ==> longer % 64 == v)
      && (bits > 0 ==> longer % Unit(bits - 2) == exact % Unit(bits - 2))
      && (bits > 0 ==> NextOctet(longer, bits - 2) == NextOctet(exact, bits - 2))
  {
    var longer := buf * 64 % U32_LIMIT + v;
    var dropped := buf * 64 / U32_LIMIT;
    assert buf * 64 == U32_LIMIT * dropped + buf * 64 % U32_LIMIT;
    hide NextOctet;
    match bits {
      case 0 =>
        Shifted(buf, v, 1, 0x400_0000, dropped);
        LowBitsRemain(longer, 64, buf - 0x400_0000 * dropped, v);
      case 2 =>
        Shifted(buf, v, 4, 0x100_0000, dropped);
        LowBitsRemain(longer, 0x100, buf / 4 - 0x100_0000 * dropped, buf % 4 * 64 + v);
        SameOctet(longer, buf % 4 * 64 + v, 0);
      case 4 =>
        Shifted(buf, v, 16, 0x40_0000, dropped);
        LowBitsRemain(longer, 0x400, buf / 16 - 0x40_0000 * dropped, buf % 16 * 64 + v);
        SameOctet(longer, buf % 16 * 64 + v, 2);
      case _ =>
        Shifted(buf, v, 64, 0x10_0000, dropped);
        LowBitsRemain(longer, 0x1000, buf / 64 - 0x10_0000 * dropped, buf % 64 * 64 + v);
        SameOctet(longer, buf % 64 * 64 + v, 4);
    }
  }

  /** What is dropped is a multiple of everything still of interest. */
  lemma Shifted(buf: nat, v: nat, unit: nat, count: nat, dropped: int)
    requires unit > 0 && 64 * unit * count == U32_LIMIT
    ensures buf * 64 - U32_LIMIT * dropped + v == 64 * unit * (buf / unit - count * dropped) + (buf % unit * 64 + v)
  {
    assert buf == unit * (buf / unit) + buf % unit;
    assert 64 * unit * (buf / unit - count * dropped) == 64 * (unit * (buf / unit)) - 64 * unit * count * dropped;
  }

  lemma LowBitsRemain(n: nat, m: nat, q: int, low: nat)
    requires low < m && n == m * q + low
    ensures n % m == low
  {
    Modular.QuotientIsUnique(m, n, q, low);
  }

  /** Numbers that agree below the octet agree on it. */
  lemma SameOctet(n: nat, exact: nat, bits: nat)
    requires bits in {0, 2, 4} && n % (256 * Unit(bits)) == exact
    ensures NextOctet(n, bits) == NextOctet(exact, bits) && n % Unit(bits) == exact % Unit(bits)
  {
    var unit, q := Unit(bits), n / (256 * Unit(bits));
    hide Unit;
    assert n == unit * (256 * q) + exact;
    assert exact == unit * (exact / unit) + exact % unit;
    assert unit * (256 * q) + unit * (exact / unit) == unit * (256 * q + exact / unit);
    Modular.QuotientIsUnique(unit, n, 256 * q + exact / unit, exact % unit);
    OctetAbove(q, exact / unit);
  }

  lemma OctetAbove(q: nat, x: int)
    ensures (256 * q + x) % 256 == x % 256
  {
  }

  lemma UrlStep(text: string, at: nat, low: nat, bits: nat, out: octets)
    requires at < |text| && bits in {0, 2, 4, 6} && low < Unit(bits)
    ensures text[at] == PAD
      ==> After(out, UrlDecoded(text[at..], low, bits)) == After(out, UrlDecoded(text[at + 1..], low, bits))
    ensures text[at] != PAD && ValueOf(text[at], true).None? ==> After(out, UrlDecoded(text[at..], low, bits)) == None
    ensures text[at] != PAD && ValueOf(text[at], true).Some?
      ==> var v := ValueOf(text[at], true).value;
          var longer := low * 64 + v;
          After(out, UrlDecoded(text[at..], low, bits))
          == if bits == 0 then After(out, UrlDecoded(text[at + 1..], v, 6))
             else After(out + [NextOctet(longer, bits - 2)],
                        UrlDecoded(text[at + 1..], longer % Unit(bits - 2), bits - 2))
  {
    hide ValueOf, NextOctet;
    assert text[at..][1..] == text[at + 1..];
    if text[at] != PAD && ValueOf(text[at], true).Some? && bits > 0 {
      var longer := low * 64 + ValueOf(text[at], true).value;
      var rest := UrlDecoded(text[at + 1..], longer % Unit(bits - 2), bits - 2);
      var next := NextOctet(longer, bits - 2);
      if rest.Some? {
        assert out + ([next] + rest.value) == out + [next] + rest.value;
      }
    }
  }

  /** A full character of `v`, with at least two bits waiting. */
  lemma UrlTake(text: string, at: nat, low: nat, bits: nat, out: octets, v: sextet)
    requires at < |text| && bits in {2, 4, 6} && low < Unit(bits)
    requires text[at] != PAD && ValueOf(text[at], true) == Some(v)
    ensures After(out, UrlDecoded(text[at..], low, bits))
      == After(out + [NextOctet(low * 64 + v, bits - 2)],
               UrlDecoded(text[at + 1..], (low * 64 + v) % Unit(bits - 2), bits - 2))
  {
    UrlStep(text, at, low, bits, out);
    hide *;
  }

  method DecodeUrlUnpadded(text: string) returns (r: Option<octets>)
    ensures r == UrlDecoded(text, 0, 0)
  {
    if text == "" {
      return Some([]);
    }
    var out := [];
    var buf: nat := 0;
    var bits: nat := 0;
    assert text[0..] == text;
    AfterNothing(UrlDecoded(text, 0, 0));
    assert Unit(0) == 1;
    hide UrlDecoded, NextOctet, ValueOf, After;
    for at := 0 to |text|
      invariant bits in {0, 2, 4, 6} && buf < U32_LIMIT
      invariant After(out, UrlDecoded(text[at..], buf % Unit(bits), bits)) == UrlDecoded(text, 0, 0)
    {
      UrlStep(text, at, buf % Unit(bits), bits, out);
      if text[at] != PAD {
        var val := ValueOf(text[at], true);
        if val.None? {
          return None;
        }
        AccumulatorSuffices(buf, val.value, bits);
        buf := buf * 64 % U32_LIMIT + val.value;
        bits := bits + 6;
        if bits >= 8 {
          bits := bits - 8;
          out := out + [NextOctet(buf, bits)];
        }
      }
    }
    NothingLeft(text, buf % Unit(bits), bits, out);
    return Some(out);
  }

  lemma NothingLeft(text: string, low: nat, bits: nat, out: octets)
    requires bits in {0, 2, 4, 6} && low < Unit(bits)
    ensures After(out, UrlDecoded(text[|text|..], low, bits)) == Some(out)
  {
    assert out + [] == out;
  }

  /** Three characters' worth of arithmetic: where each octet of a chunk sits among the sextets. */
  lemma OctetsAmongSextets(chunk: octets)
    requires 1 <= |chunk| <= 3
    ensures var n := Packed(chunk);
      var s0, s1, s2, s3 := Sextet(n, 0), Sextet(n, 1), Sextet(n, 2), Sextet(n, 3);
      && NextOctet(s0 * 64 + s1, 4) == chunk[0]
      && (s0 * 64 + s1) % 16 == s1 % 16
      && (|chunk| >= 2 ==> NextOctet(s1 % 16 * 64 + s2, 2) == chunk[1])
      && (s1 % 16 * 64 + s2) % 4 == s2 % 4
      && (|chunk| == 3 ==> NextOctet(s2 % 4 * 64 + s3, 0) == chunk[2])
  {
    var n := Packed(chunk);
    PackedOctets(chunk);
    SplitOctets(n);
    NextOctets(Sextet(n, 0), Sextet(n, 1), Sextet(n, 2), Sextet(n, 3));
    hide *;
  }

  lemma NextOctets(s0: sextet, s1: sextet, s2: sextet, s3: sextet)
    ensures NextOctet(s0 * 64 + s1, 4) == s0 * 4 + s1 / 16
    ensures (s0 * 64 + s1) % 16 == s1 % 16
    ensures NextOctet(s1 % 16 * 64 + s2, 2) == s1 % 16 * 16 + s2 / 4
    ensures (s1 % 16 * 64 + s2) % 4 == s2 % 4
    ensures NextOctet(s2 % 4 * 64 + s3, 0) == s2 % 4 * 64 + s3
  {
    assert s1 as int == 16 * (s1 / 16) + s1 % 16;
    assert s2 as int == 4 * (s2 / 4) + s2 % 4;
    Modular.QuotientIsUnique(16, s0 * 64 + s1, s0 * 4 + s1 / 16, s1 % 16);
    Modular.QuotientIsUnique(4, s1 % 16 * 64 + s2, s1 % 16 * 16 + s2 / 4, s2 % 4);
  }

  lemma UrlQuantumValues(chunk: octets)
    requires 1 <= |chunk| <= 3
    ensures var quantum := Quantum(chunk, true);
      && |quantum| == |chunk| + 1
      && forall i :: 0 <= i <= |chunk|
           ==> quantum[i] != PAD && ValueOf(quantum[i], true) == Some(Sextet(Packed(chunk), i))
  {
    var n, quantum := Packed(chunk), Quantum(chunk, true);
    forall i | 0 <= i <= |chunk|
      ensures |quantum| == |chunk| + 1 && quantum[i] != PAD && ValueOf(quantum[i], true) == Some(Sextet(n, i))
    {
      hide *;
      QuantumAt(chunk, true, i);
      AlphabetIsBijective(quantum[i], Sextet(n, i), true);
    }
  }

  lemma UnitValues()
    ensures Unit(6) == 64 && Unit(4) == 16 && Unit(2) == 4 && Unit(0) == 1
  {
  }

  /** The characters of one chunk decode to the chunk and leave nothing over when it is full. */
  lemma UrlQuantum(chunk: octets, rest: string)
    requires 1 <= |chunk| <= 3 && (|chunk| < 3 ==> rest == "")
    ensures UrlDecoded(Quantum(chunk, true) + rest, 0, 0) == After(chunk, UrlDecoded(rest, 0, 0))
  {
    hide *;
    var n := Packed(chunk);
    var quantum := Quantum(chunk, true);
    var text := quantum + rest;
    UrlQuantumValues(chunk);
    OctetsAmongSextets(chunk);
    UnitValues();
    assert text[|quantum|..] == rest && text[0..] == text;
    var s0, s1, s2 := Sextet(n, 0), Sextet(n, 1), Sextet(n, 2);
    AfterNothing(UrlDecoded(text, 0, 0));
    UrlStep(text, 0, 0, 0, []);
    UrlTake(text, 1, s0, 6, [], s1);
    assert [] + [chunk[0]] == [chunk[0]];
    if |chunk| == 1 {
      UrlChunkEnds(text, s1 % 16, 4, [chunk[0]], chunk, rest);
    } else {
      UrlTake(text, 2, s1 % 16, 4, [chunk[0]], s2);
      if |chunk| == 2 {
        UrlChunkEnds(text, s2 % 4, 2, [chunk[0]] + [chunk[1]], chunk, rest);
      } else {
        UrlTake(text, 3, s2 % 4, 2, [chunk[0]] + [chunk[1]], Sextet(n, 3));
        assert [chunk[0]] + [chunk[1]] + [chunk[2]] == chunk;
      }
    }
  }

  lemma UrlChunkEnds(text: string, low: nat, bits: nat, out: octets, chunk: octets, rest: string)
    requires bits in {0, 2, 4, 6} && low < Unit(bits) && out == chunk && rest == ""
    ensures After(out, UrlDecoded(text[|text|..], low, bits)) == After(chunk, UrlDecoded(rest, 0, 0))
  {
    NothingLeft(text, low, bits, out);
    assert chunk + [] == chunk;
  }

  /** The unpadded form decodes back, for every octet string. */
  lemma {:induction false} UrlRoundTrip(b: octets)
    ensures UrlDecoded(Encoded(b, true), 0, 0) == Some(b)
    decreases |b|
  {
    if b != [] {
      var n := if |b| < 3 then |b| else 3;
      var head, tail := b[..n], b[n..];
      assert Encoded(b, true) == Quantum(head, true) + Encoded(tail, true);
      assert |b| < 3 ==> Encoded(tail, true) == "";
      hide *;
      UrlRoundTrip(tail);
      UrlQuantum(head, Encoded(tail, true));
      AfterMeans(head, Some(tail));
      assert head + tail == b;
    }
  }
}
