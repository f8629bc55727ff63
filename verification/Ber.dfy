/**
 BER-TLV writing and reading (`ber.rs`).

 The writer is an encoder object that appends to its buffer; the reader parses one TLV from the
 front of a slice, and an iterator walks the children of a constructed value. `TlvOctets`,
 `ParseTlv` and `Children` say what the three compute, and the lemmas connect them: reading what
 was written gives it back, whatever follows it.
 */
module Ber {
  import opened Octets

  const LONG_FORM_1B: byte := 0x81
  const LONG_FORM_2B: byte := 0x82
  const LONG_FORM_3B: byte := 0x83
  const LONG_FORM_4B: byte := 0x84

  const TAG_INTEGER: byte := 0x02
  const TAG_OCTET_STRING: byte := 0x04
  const TAG_OID: byte := 0x06
  const TAG_UTC_TIME: byte := 0x17
  const TAG_SEQUENCE: byte := 0x30
  const TAG_SET: byte := 0x31
  const TAG_CONTEXT_0: byte := 0xA0
  const TAG_CONTEXT_1: byte := 0xA1

  datatype BerError = Empty | Truncated | UnsupportedLengthForm

  /** A parsed TLV: its tag, its value octets, and how many octets it took in all. */
  datatype Tlv = Tlv(tag: nat, value: octets, size: nat)

  // ----- Writing -----

  /** Length octets of a value of `n` octets. The encoder panics at 4 GiB, so there are none there. */
  function LengthOctets(n: nat): octets {
    if n < 0x80 then [n]
    else if n < 0x100 then [LONG_FORM_1B, n]
    else if n < U16_LIMIT then [LONG_FORM_2B, n / 0x100, n % 0x100]
    else if n < U24_LIMIT then [LONG_FORM_3B, n / 0x1_0000, n / 0x100 % 0x100, n % 0x100]
    else if n < U32_LIMIT then
      [LONG_FORM_4B, n / 0x100_0000, n / 0x1_0000 % 0x100, n / 0x100 % 0x100, n % 0x100]
    else []
  }

  function TlvOctets(tag: byte, value: octets): octets {
    [tag] + LengthOctets(|value|) + value
  }

  lemma TlvIsLonger(tag: byte, value: octets)
    ensures |value| < |TlvOctets(tag, value)|
  {
  }

  /** Owned TLV building buffer. */
  class BerEncoder {
    var out: octets

    constructor ()
      ensures out == []
    {
      out := [];
    }

    method PushLength(len: nat)
      requires len < U32_LIMIT
      modifies this
      ensures out == old(out) + LengthOctets(len)
    {
      if len < 0x80 {
        out := out + [len];
      } else if len < 0x100 {
        out := out + [LONG_FORM_1B];
        out := out + [len];
      } else if len < U16_LIMIT {
        out := out + [LONG_FORM_2B];
        out := out + [len / 0x100, len % 0x100];
      } else if len < U24_LIMIT {
        out := out + [LONG_FORM_3B];
        out := out + [len / 0x1_0000, len / 0x100 % 0x100, len % 0x100];
      } else {
        out := out + [LONG_FORM_4B];
        out := out + [len / 0x100_0000, len / 0x1_0000 % 0x100, len / 0x100 % 0x100, len % 0x100];
      }
    }

    method PushTlv(tag: byte, value: octets)
      requires |value| < U32_LIMIT
      modifies this
      ensures out == old(out) + TlvOctets(tag, value)
    {
      out := out + [tag];
      PushLength(|value|);
      out := out + value;
    }
  }

  method WriteTlv(tag: byte, value: octets) returns (der: octets)
    requires |value| < U32_LIMIT
    ensures der == TlvOctets(tag, value)
  {
    var enc := new BerEncoder();
    enc.PushTlv(tag, value);
    der := enc.out;
  }

  // ----- Reading one TLV -----

  /** Octets the tag takes: two when the low five bits of the first are all set. */
  function TagSize(first: byte): nat {
    if first % 0x20 == 0x1F then 2 else 1
  }

  /** How many octets follow a first length octet, or none when the form is not supported. */
  function LengthOctetCount(lenFirst: byte): Option<nat> {
    if lenFirst < LONG_FORM_1B then Some(0)
    else if lenFirst <= LONG_FORM_4B then Some(lenFirst - 0x80)
    else None
  }

  function ParseTlv(bytes: octets): (r: Result<Tlv, BerError>)
    ensures r.Ok? ==> 2 <= r.value.size <= |bytes|
    ensures r.Ok? ==> |r.value.value| <= r.value.size - 2
    ensures r.Ok? ==> r.value.value == bytes[r.value.size - |r.value.value|..r.value.size]
    ensures r.Ok? ==> |r.value.value| < U32_LIMIT
  {
    if bytes == [] then Err(Empty)
    else
      var at := TagSize(bytes[0]);
      if |bytes| <= at then Err(Truncated)
      else
        var tag := if at == 2 then bytes[0] as int * 0x100 + bytes[1] else bytes[0] as int;
        var count := LengthOctetCount(bytes[at]);
        if count.None? then Err(UnsupportedLengthForm)
        else
          var start := at + 1 + count.value;
          if |bytes| < start then Err(Truncated)
          else
            BigEndianBound(bytes[at + 1..start]);
            var length := if count.value == 0 then bytes[at] else BigEndian(bytes[at + 1..start]);
            if |bytes| < start + length then Err(Truncated)
            else Ok(Tlv(tag, bytes[start..start + length], start + length))
  }

  /** The reader as written: one advancing index, the long-form length folded octet by octet. */
  method Parse(bytes: octets) returns (r: Result<Tlv, BerError>)
    ensures r == ParseTlv(bytes)
  {
    var idx := 0;
    if idx >= |bytes| {
      return Err(Empty);
    }
    var first := bytes[idx];
    idx := idx + 1;
    var tag: nat := first;
    if first % 0x20 == 0x1F {
      if idx >= |bytes| {
        return Err(Truncated);
      }
      tag := first as int * 0x100 + bytes[idx];
      idx := idx + 1;
    }
    if idx >= |bytes| {
      return Err(Truncated);
    }
    var lenFirst := bytes[idx];
    idx := idx + 1;
    var length: nat := lenFirst;
    if lenFirst >= LONG_FORM_1B {
      if lenFirst > LONG_FORM_4B {
        return Err(UnsupportedLengthForm);
      }
      var nbytes := lenFirst - 0x80;
      if idx + nbytes > |bytes| {
        return Err(Truncated);
      }
      var lenBytes := bytes[idx..idx + nbytes];
      idx := idx + nbytes;
      length := 0;
      for i := 0 to |lenBytes|
        invariant length == BigEndian(lenBytes[..i])
      {
        BigEndianAppend(lenBytes[..i], lenBytes[i]);
        assert lenBytes[..i] + [lenBytes[i]] == lenBytes[..i + 1];
        length := length * 0x100 + lenBytes[i];
      }
      assert lenBytes[..|lenBytes|] == lenBytes;
    }
    var valueEnd := idx + length;
    if valueEnd > |bytes| {
      return Err(Truncated);
    }
    return Ok(Tlv(tag, bytes[idx..valueEnd], valueEnd));
  }

  lemma BigEndianOfLength(n: nat)
    requires 0x80 <= n < U32_LIMIT
    ensures BigEndian(LengthOctets(n)[1..]) == n
  {
    FourDigits(n);
    var b := LengthOctets(n)[1..];
    if n < 0x100 {
      assert b == [n];
    } else if n < U16_LIMIT {
      assert b == [n / 0x100, n % 0x100];
    } else if n < U24_LIMIT {
      assert b == [n / 0x1_0000, n / 0x100 % 0x100, n % 0x100];
    } else {
      assert b == [n / 0x100_0000, n / 0x1_0000 % 0x100, n / 0x100 % 0x100, n % 0x100];
    }
    BigEndianOfShort(b);
    hide BigEndian, LengthOctets;
  }

  /** Reading undoes writing for every one-octet tag and every length, whatever follows. */
  lemma ParseOfWritten(tag: byte, value: octets, rest: octets)
    requires tag % 0x20 != 0x1F
    requires |value| < U32_LIMIT
    ensures ParseTlv(TlvOctets(tag, value) + rest) == Ok(Tlv(tag, value, |TlvOctets(tag, value)|))
  {
    var n := |value|;
    var lens := LengthOctets(n);
    var bytes := TlvOctets(tag, value) + rest;
    assert bytes[0] == tag;
    assert bytes[1] == lens[0];
    assert bytes[1..1 + |lens|] == lens;
    if n >= 0x80 {
      BigEndianOfLength(n);
      assert bytes[2..1 + |lens|] == lens[1..];
    }
    assert bytes[1 + |lens|..1 + |lens| + n] == value;
  }

  /** What was read stays read when more octets follow. */
  lemma ParseExtends(bytes: octets, rest: octets)
    requires ParseTlv(bytes).Ok?
    ensures ParseTlv(bytes + rest) == ParseTlv(bytes)
  {
    var all := bytes + rest;
    var at := TagSize(bytes[0]);
    var count := LengthOctetCount(bytes[at]).value;
    var start := at + 1 + count;
    assert all[at + 1..start] == bytes[at + 1..start];
    var t := ParseTlv(bytes).value;
    assert all[start..t.size] == bytes[start..t.size];
  }

  /**
   The module note promises that the indefinite-length marker is rejected. The comparison with
   `LONG_FORM_1B` reads it as a short-form length of 128 instead.
   */
  lemma IndefiniteMarkerReadsAs128(tag: byte, body: octets)
    requires tag % 0x20 != 0x1F
    requires |body| >= 128
    ensures ParseTlv([tag, 0x80] + body) == Ok(Tlv(tag, body[..128], 130))
  {
    var bytes := [tag, 0x80] + body;
    assert bytes[2..130] == body[..128];
  }

  /** The length forms the reader does refuse are exactly those above four length octets. */
  lemma UnsupportedFormExactly(bytes: octets)
    ensures ParseTlv(bytes) == Err(UnsupportedLengthForm)
      <==> bytes != [] && |bytes| > TagSize(bytes[0]) && bytes[TagSize(bytes[0])] > LONG_FORM_4B
  {
  }

  /**
   The writer's length is the shortest the reader takes, but for 128, which the reader takes from a lone
   indefinite-length marker as well.
   */
  lemma LengthIsShortest(bytes: octets)
    requires ParseTlv(bytes).Ok?
    ensures var t, at := ParseTlv(bytes).value, TagSize(bytes[0]);
      t.size - |t.value| - at >= |LengthOctets(|t.value|)| <==> bytes[at] != 0x80
  {
    var at := TagSize(bytes[0]);
    var count := LengthOctetCount(bytes[at]).value;
    var digits := bytes[at + 1..at + 1 + count];
    var n := |ParseTlv(bytes).value.value|;
    if count > 0 {
      BigEndianOfShort(digits);
      assert n == BigEndian(digits);
    }
    hide BigEndian;
  }

  // ----- Reading a run of TLVs -----

  /** Every TLV of a constructed value, or `None` when the octets do not divide into TLVs. */
  function Children(value: octets): Option<seq<Tlv>> {
    if value == [] then Some([])
    else
      var t := ParseTlv(value);
      if t.Err? then None
      else
        var rest := Children(value[t.value.size..]);
        if rest.None? then None else Some([t.value] + rest.value)
  }

  /** The octets are one complete TLV and nothing else. */
  predicate IsOneTlv(bytes: octets) {
    ParseTlv(bytes).Ok? && ParseTlv(bytes).value.size == |bytes|
  }

  function OnlyTlv(bytes: octets): Tlv
    requires IsOneTlv(bytes)
  {
    ParseTlv(bytes).value
  }

  function OnlyTlvs(parts: seq<octets>): (ts: seq<Tlv>)
    requires forall k :: 0 <= k < |parts| ==> IsOneTlv(parts[k])
    ensures |ts| == |parts|
    ensures forall k :: 0 <= k < |ts| ==> ts[k] == OnlyTlv(parts[k])
  {
    if parts == [] then [] else [OnlyTlv(parts[0])] + OnlyTlvs(parts[1..])
  }

  /** Concatenated TLVs come back one by one, each as it reads alone. */
  lemma {:induction false} ChildrenOfConcatenation(parts: seq<octets>)
    requires forall k :: 0 <= k < |parts| ==> IsOneTlv(parts[k])
    ensures Children(Flatten(parts)) == Some(OnlyTlvs(parts))
  {
    if parts != [] {
      var rest := Flatten(parts[1..]);
      ChildrenOfConcatenation(parts[1..]);
      ParseExtends(parts[0], rest);
      assert (parts[0] + rest)[|parts[0]|..] == rest;
    }
  }

  lemma WrittenIsOneTlv(tag: byte, value: octets)
    requires tag % 0x20 != 0x1F
    requires |value| < U32_LIMIT
    ensures IsOneTlv(TlvOctets(tag, value))
    ensures OnlyTlv(TlvOctets(tag, value)) == Tlv(tag, value, |TlvOctets(tag, value)|)
  {
    ParseOfWritten(tag, value, []);
    assert TlvOctets(tag, value) + [] == TlvOctets(tag, value);
  }

  /** Iterator over heterogeneous TLV children. */
  class BerTlvIter {
    var remaining: octets

    constructor (value: octets)
      ensures remaining == value
    {
      remaining := value;
    }

    /** The next child. An error ends the walk. */
    method Next() returns (item: Option<Result<Tlv, BerError>>)
      modifies this
      ensures item.None? <==> old(remaining) == []
      ensures item.None? ==> remaining == []
      ensures item.Some? ==> item.value == ParseTlv(old(remaining))
      ensures item.Some? && item.value.Err? ==> remaining == [] && Children(old(remaining)).None?
      ensures item.Some? && item.value.Ok? ==> remaining == old(remaining)[item.value.value.size..]
      ensures |remaining| <= |old(remaining)| - (if item.Some? then 1 else 0)
    {
      if remaining == [] {
        return None;
      }
      var t := Parse(remaining);
      if t.Ok? {
        remaining := remaining[t.value.size..];
      } else {
        remaining := [];
      }
      return Some(t);
    }
  }
}
