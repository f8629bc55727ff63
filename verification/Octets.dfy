/** Octets, big- and little-endian integers, and the result types the other modules share. */
module Octets {

  type byte = n: int | 0 <= n < 256

  type octets = seq<byte>

  const U16_LIMIT: nat := 0x1_0000
  const U24_LIMIT: nat := 0x100_0000
  const U32_LIMIT: nat := 0x1_0000_0000

  datatype Option<+T> = None | Some(value: T) {
    predicate IsFailure() {
      None?
    }

    function PropagateFailure<U>(): Option<U>
      requires None?
    {
      None
    }

    function Extract(): T
      requires Some?
    {
      value
    }
  }

  datatype Result<+T, +E> = Ok(value: T) | Err(error: E) {
    predicate IsFailure() {
      Err?
    }

    function PropagateFailure<U>(): Result<U, E>
      requires Err?
    {
      Err(error)
    }

    function Extract(): T
      requires Ok?
    {
      value
    }

    /** The value, forgetting which error kept it away. */
    function Accepted(): Option<T> {
      if Ok? then Some(value) else None
    }
  }

  /** The unsigned integer a big-endian octet string writes. */
  function BigEndian(b: octets): nat {
    if b == [] then 0 else BigEndian(b[..|b| - 1]) * 256 + b[|b| - 1]
  }

  lemma BigEndianAppend(b: octets, last: byte)
    ensures BigEndian(b + [last]) == BigEndian(b) * 256 + last
  {
    assert (b + [last])[..|b|] == b;
  }

  /** One to four octets, written out. */
  lemma BigEndianOfShort(b: octets)
    requires 1 <= |b| <= 4
    ensures |b| == 1 ==> BigEndian(b) == b[0]
    ensures |b| == 2 ==> BigEndian(b) == b[0] as int * 256 + b[1]
    ensures |b| == 3 ==> BigEndian(b) == (b[0] as int * 256 + b[1]) * 256 + b[2]
    ensures |b| == 4 ==> BigEndian(b) == ((b[0] as int * 256 + b[1]) * 256 + b[2]) * 256 + b[3]
  {
    assert BigEndian(b[..0]) == 0;
    if |b| >= 2 {
      BigEndianOfShort(b[..|b| - 1]);
    }
  }

  lemma BigEndianBound(b: octets)
    requires |b| <= 4
    ensures BigEndian(b) < U32_LIMIT
  {
    if b != [] {
      BigEndianOfShort(b);
    }
  }

  /** The base-256 digits of a 32-bit number. */
  lemma FourDigits(n: nat)
    requires n < U32_LIMIT
    ensures n == ((n / 0x100_0000 * 256 + n / 0x1_0000 % 256) * 256 + n / 0x100 % 256) * 256 + n % 256
  {
    assert n / 0x1_0000 == n / 0x100 / 0x100;
    assert n / 0x100_0000 == n / 0x1_0000 / 0x100;
  }

  /** All the pieces of `parts`, end to end. */
  function Flatten(parts: seq<octets>): octets {
    if parts == [] then [] else parts[0] + Flatten(parts[1..])
  }

  lemma {:induction false} FlattenAppend(parts: seq<octets>, last: octets)
    ensures Flatten(parts + [last]) == Flatten(parts) + last
  {
    if parts != [] {
      assert (parts + [last])[1..] == parts[1..] + [last];
      FlattenAppend(parts[1..], last);
    }
  }

  lemma {:induction false} FlattenPartBound(parts: seq<octets>, k: nat)
    requires k < |parts|
    ensures |parts[k]| <= |Flatten(parts)|
  {
    if k > 0 {
      FlattenPartBound(parts[1..], k - 1);
    }
  }

  function LittleEndian16(n: nat): (b: octets)
    requires n < U16_LIMIT
    ensures |b| == 2
  {
    [n % 256, n / 256]
  }

  function LittleEndian32(n: nat): (b: octets)
    requires n < U32_LIMIT
    ensures |b| == 4
  {
    [n % 256, n / 256 % 256, n / 0x1_0000 % 256, n / 0x100_0000]
  }
}
