/** The bitwise CRC-32 of the ZIP writer (`asic.rs`). */
module Crc32 {

  const POLYNOMIAL: bv32 := 0xEDB8_8320

  const INITIAL: bv32 := 0xFFFF_FFFF

  function Xor(x: bv32, y: bv32): bv32 {
    x ^ y
  }

  function Halved(x: bv32): bv32 {
    x >> 1
  }

  predicate LowBit(x: bv32) {
    x & 1 != 0
  }

  /** An octet as the low bits of the register. */
  function Bits(b: bv8): bv32 {
    b as bv32
  }

  /** One bit shifted out, the polynomial folded in when it was set. */
  function BitStep(crc: bv32): bv32 {
    if LowBit(crc) then Xor(Halved(crc), POLYNOMIAL) else Halved(crc)
  }

  function BitSteps(crc: bv32, count: nat): bv32 {
    if count == 0 then crc else BitStep(BitSteps(crc, count - 1))
  }

  function ByteStep(crc: bv32, b: bv8): bv32 {
    BitSteps(Xor(crc, Bits(b)), 8)
  }

  function Register(crc: bv32, data: seq<bv8>): bv32 {
    if data == [] then crc else ByteStep(Register(crc, data[..|data| - 1]), data[|data| - 1])
  }

  function Complement(x: bv32): bv32 {
    !x
  }

  function Checksum(data: seq<bv8>): bv32 {
    Complement(Register(INITIAL, data))
  }

  lemma StepsUnfold(crc: bv32, count: nat)
    ensures BitSteps(crc, 0) == crc
    ensures BitSteps(crc, count + 1) == BitStep(BitSteps(crc, count))
  {
    hide BitStep;
  }

  lemma RegisterUnfolds(crc: bv32, data: seq<bv8>, i: nat)
    requires i < |data|
    ensures Register(crc, data[..0]) == crc
    ensures Register(crc, data[..i + 1]) == ByteStep(Register(crc, data[..i]), data[i])
  {
    hide ByteStep;
    assert data[..i + 1][..i] == data[..i];
  }

  /** The inner loop: eight bits of one octet. */
  method StepByte(before: bv32, b: bv8) returns (crc: bv32)
    ensures crc == ByteStep(before, b)
  {
    assert ByteStep(before, b) == BitSteps(Xor(before, Bits(b)), 8);
    crc := Xor(before, Bits(b));
    ghost var mixed := crc;
    hide BitSteps;
    StepsUnfold(mixed, 0);
    for bit := 0 to 8
      invariant crc == BitSteps(mixed, bit)
    {
      StepsUnfold(mixed, bit);
      assert BitSteps(mixed, bit + 1) == BitStep(crc);
      var carry := LowBit(crc);
      crc := Halved(crc);
      if carry {
        crc := Xor(crc, POLYNOMIAL);
      }
    }
  }

  /** The outer loop: every octet in turn. */
  method RunRegister(initial: bv32, data: seq<bv8>) returns (crc: bv32)
    ensures crc == Register(initial, data)
  {
    assert Register(initial, []) == initial;
    hide *;
    crc := initial;
    assert data[..0] == [];
    for i := 0 to |data|
      invariant crc == Register(initial, data[..i])
    {
      RegisterUnfolds(initial, data, i);
      crc := StepByte(crc, data[i]);
    }
    assert data[..|data|] == data;
  }

  method Crc32(data: seq<bv8>) returns (crc: bv32)
    ensures crc == Checksum(data)
  {
    hide Register, Complement;
    crc := RunRegister(INITIAL, data);
    crc := Complement(crc);
  }

  // ----- Injectivity -----

  /** The polynomial's top bit is set, so the bit that went in can be read off and the step undone. */
  lemma BitStepIsInjective(x: bv32, y: bv32)
    requires BitStep(x) == BitStep(y)
    ensures x == y
  {
  }

  lemma {:induction false} BitStepsIsInjective(x: bv32, y: bv32, count: nat)
    requires BitSteps(x, count) == BitSteps(y, count)
    ensures x == y
    decreases count
  {
    hide *;
    StepsUnfold(x, 0);
    StepsUnfold(y, 0);
    if count > 0 {
      StepsUnfold(x, count - 1);
      StepsUnfold(y, count - 1);
      BitStepIsInjective(BitSteps(x, count - 1), BitSteps(y, count - 1));
      BitStepsIsInjective(x, y, count - 1);
    }
  }

  lemma XorCancels(x: bv32, y: bv32, k: bv32)
    ensures Xor(x, k) == Xor(y, k) ==> x == y
    ensures Xor(x, k) == Xor(k, x)
  {
  }

  /** The update for one octet is injective in the register. */
  lemma ByteStepIsInjective(x: bv32, y: bv32, b: bv8)
    requires ByteStep(x, b) == ByteStep(y, b)
    ensures x == y
  {
    ByteStepMeans(x, b);
    ByteStepMeans(y, b);
    hide *;
    BitStepsIsInjective(Xor(x, Bits(b)), Xor(y, Bits(b)), 8);
    XorCancels(x, y, Bits(b));
  }

  lemma ByteStepMeans(x: bv32, b: bv8)
    ensures ByteStep(x, b) == BitSteps(Xor(x, Bits(b)), 8)
  {
    hide BitSteps, Xor, Bits;
  }

  /** Different registers stay different, whatever octets follow. */
  lemma {:induction false} RegisterIsInjective(x: bv32, y: bv32, data: seq<bv8>)
    requires Register(x, data) == Register(y, data)
    ensures x == y
    decreases |data|
  {
    if data != [] {
      var init, last := data[..|data| - 1], data[|data| - 1];
      assert data[..|data|] == data;
      hide *;
      RegisterUnfolds(x, data, |data| - 1);
      RegisterUnfolds(y, data, |data| - 1);
      ByteStepIsInjective(Register(x, init), Register(y, init), last);
      RegisterIsInjective(x, y, init);
    }
  }

  lemma {:induction false} RegisterOfConcatenation(crc: bv32, a: seq<bv8>, b: seq<bv8>)
    ensures Register(crc, a + b) == Register(Register(crc, a), b)
    decreases |b|
  {
    hide ByteStep;
    if b == [] {
      assert a + b == a;
    } else {
      assert (a + b)[..|a + b| - 1] == a + b[..|b| - 1];
      RegisterOfConcatenation(crc, a, b[..|b| - 1]);
    }
  }

  // ----- Four octets are one word -----

  lemma LowBitOfXor(x: bv32, z: bv32)
    requires !LowBit(z)
    ensures LowBit(Xor(x, z)) <==> LowBit(x)
  {
  }

  lemma HalvedOfXor(x: bv32, z: bv32)
    ensures Halved(Xor(x, z)) == Xor(Halved(x), Halved(z))
  {
  }

  lemma XorSwaps(x: bv32, y: bv32, z: bv32)
    ensures Xor(Xor(x, y), z) == Xor(Xor(x, z), y)
  {
  }

  /** Bits above the lowest do not change which way a step goes. */
  lemma BitStepIsLinear(x: bv32, z: bv32)
    requires !LowBit(z)
    ensures BitStep(Xor(x, z)) == Xor(BitStep(x), Halved(z))
  {
    hide Xor, Halved, LowBit;
    LowBitOfXor(x, z);
    HalvedOfXor(x, z);
    XorSwaps(Halved(x), Halved(z), POLYNOMIAL);
  }

  function HalvedTimes(z: bv32, count: nat): bv32 {
    if count == 0 then z else Halved(HalvedTimes(z, count - 1))
  }

  lemma {:induction false} BitStepsAreLinear(x: bv32, z: bv32, count: nat)
    requires forall k :: 0 <= k < count ==> !LowBit(HalvedTimes(z, k))
    ensures BitSteps(Xor(x, z), count) == Xor(BitSteps(x, count), HalvedTimes(z, count))
    decreases count
  {
    assert HalvedTimes(z, 0) == z;
    assert count > 0 ==> HalvedTimes(z, count) == Halved(HalvedTimes(z, count - 1));
    hide *;
    StepsUnfold(x, 0);
    StepsUnfold(Xor(x, z), 0);
    if count > 0 {
      StepsUnfold(x, count - 1);
      StepsUnfold(Xor(x, z), count - 1);
      BitStepsAreLinear(x, z, count - 1);
      BitStepIsLinear(BitSteps(x, count - 1), HalvedTimes(z, count - 1));
    }
  }

  function Doubled(x: bv32): bv32 {
    x << 1
  }

  function DoubledTimes(x: bv32, count: nat): bv32 {
    if count == 0 then x else Doubled(DoubledTimes(x, count - 1))
  }

  predicate TopBit(x: bv32) {
    x & 0x8000_0000 != 0
  }

  predicate Disjoint(x: bv32, mask: bv32) {
    x & mask == 0
  }

  const TOP_OCTET: bv32 := 0xFF00_0000

  predicate IsThreeOctets(w: bv32) {
    Disjoint(w, TOP_OCTET)
  }

  lemma DoublingKeepsDisjoint(x: bv32, mask: bv32)
    requires Disjoint(x, mask)
    ensures Disjoint(Doubled(x), Doubled(mask))
  {
  }

  lemma TopBitIsClear(x: bv32, mask: bv32)
    requires Disjoint(x, mask) && TopBit(mask)
    ensures !TopBit(x)
  {
  }

  lemma HalvedDoubled(x: bv32)
    requires !TopBit(x)
    ensures Halved(Doubled(x)) == x && !LowBit(Doubled(x))
  {
  }

  /** The top octet, moved up fewer than eight bits, still reaches the top bit. */
  lemma TopOctetReaches(count: nat)
    requires count < 8
    ensures TopBit(DoubledTimes(TOP_OCTET, count))
  {
    assert DoubledTimes(TOP_OCTET, 0) == 0xFF00_0000;
    assert DoubledTimes(TOP_OCTET, 1) == 0xFE00_0000;
    assert DoubledTimes(TOP_OCTET, 2) == 0xFC00_0000;
    assert DoubledTimes(TOP_OCTET, 3) == 0xF800_0000;
    assert DoubledTimes(TOP_OCTET, 4) == 0xF000_0000;
    assert DoubledTimes(TOP_OCTET, 5) == 0xE000_0000;
    assert DoubledTimes(TOP_OCTET, 6) == 0xC000_0000;
    assert DoubledTimes(TOP_OCTET, 7) == 0x8000_0000;
  }

  lemma DoubledTimesUnfolds(x: bv32, count: nat)
    ensures DoubledTimes(x, 0) == x
    ensures DoubledTimes(x, count + 1) == Doubled(DoubledTimes(x, count))
  {
    hide Doubled;
  }

  lemma {:induction false} RaisingKeepsDisjoint(w: bv32, count: nat)
    requires IsThreeOctets(w)
    ensures Disjoint(DoubledTimes(w, count), DoubledTimes(TOP_OCTET, count))
    decreases count
  {
    assert Disjoint(w, TOP_OCTET);
    hide *;
    DoubledTimesUnfolds(w, 0);
    DoubledTimesUnfolds(TOP_OCTET, 0);
    if count > 0 {
      RaisingKeepsDisjoint(w, count - 1);
      DoubledTimesUnfolds(w, count - 1);
      DoubledTimesUnfolds(TOP_OCTET, count - 1);
      DoublingKeepsDisjoint(DoubledTimes(w, count - 1), DoubledTimes(TOP_OCTET, count - 1));
    }
  }

  /** A word moved up by one octet. */
  function Raised(w: bv32): bv32 {
    DoubledTimes(w, 8)
  }

  lemma HalvedTimesUnfolds(z: bv32, k: nat)
    ensures HalvedTimes(z, 0) == z
    ensures HalvedTimes(z, k + 1) == Halved(HalvedTimes(z, k))
  {
    hide Halved;
  }

  /** Eight clear bits shift out, one at a time. */
  lemma {:induction false} RaisedShiftsOut(w: bv32, k: nat)
    requires IsThreeOctets(w) && k <= 8
    ensures HalvedTimes(Raised(w), k) == DoubledTimes(w, 8 - k)
    ensures k < 8 ==> !LowBit(HalvedTimes(Raised(w), k))
    decreases k
  {
    assert Raised(w) == DoubledTimes(w, 8);
    hide *;
    HalvedTimesUnfolds(Raised(w), 0);
    if k > 0 {
      RaisedShiftsOut(w, k - 1);
      HalvedTimesUnfolds(Raised(w), k - 1);
      DoubledBack(w, 8 - k);
    }
    if k < 8 {
      DoubledBack(w, 7 - k);
    }
  }

  lemma DoubledBack(w: bv32, count: nat)
    requires IsThreeOctets(w) && count < 8
    ensures Halved(DoubledTimes(w, count + 1)) == DoubledTimes(w, count)
    ensures !LowBit(DoubledTimes(w, count + 1))
  {
    hide *;
    RaisingKeepsDisjoint(w, count);
    TopOctetReaches(count);
    TopBitIsClear(DoubledTimes(w, count), DoubledTimes(TOP_OCTET, count));
    HalvedDoubled(DoubledTimes(w, count));
    DoubledTimesUnfolds(w, count);
  }

  /** An octet's worth of steps brings a raised word down and leaves the rest to the register. */
  lemma ByteStepsAreLinear(x: bv32, w: bv32)
    requires IsThreeOctets(w)
    ensures BitSteps(Xor(x, Raised(w)), 8) == Xor(BitSteps(x, 8), w)
  {
    hide *;
    forall k | 0 <= k < 8
      ensures !LowBit(HalvedTimes(Raised(w), k))
    {
      RaisedShiftsOut(w, k);
    }
    RaisedShiftsOut(w, 8);
    DoubledTimesUnfolds(w, 0);
    BitStepsAreLinear(x, Raised(w), 8);
  }

  // ----- The window property -----

  lemma XorAssociates(x: bv32, y: bv32, z: bv32)
    ensures Xor(Xor(x, y), z) == Xor(x, Xor(y, z))
  {
  }

  const ALL_BUT_LOWEST_OCTET: bv32 := 0xFFFF_FF00
  const UPPER_HALF: bv32 := 0xFFFF_0000

  lemma BitsAreOneOctet(b: bv8)
    ensures Disjoint(Bits(b), ALL_BUT_LOWEST_OCTET)
  {
  }

  lemma BitsAreInjective(a: bv8, b: bv8)
    requires Bits(a) == Bits(b)
    ensures a == b
  {
  }

  lemma NarrowerMasks(x: bv32)
    ensures Disjoint(x, ALL_BUT_LOWEST_OCTET) ==> Disjoint(x, UPPER_HALF)
    ensures Disjoint(x, UPPER_HALF) ==> Disjoint(x, TOP_OCTET)
  {
  }

  lemma XorStaysDisjoint(x: bv32, y: bv32, mask: bv32)
    requires Disjoint(x, mask) && Disjoint(y, mask)
    ensures Disjoint(Xor(x, y), mask)
  {
  }

  lemma {:induction false} DoublingTimesKeepsDisjoint(x: bv32, mask: bv32, count: nat)
    requires Disjoint(x, mask)
    ensures Disjoint(DoubledTimes(x, count), DoubledTimes(mask, count))
    decreases count
  {
    hide *;
    DoubledTimesUnfolds(x, 0);
    DoubledTimesUnfolds(mask, 0);
    if count > 0 {
      DoublingTimesKeepsDisjoint(x, mask, count - 1);
      DoubledTimesUnfolds(x, count - 1);
      DoubledTimesUnfolds(mask, count - 1);
      DoublingKeepsDisjoint(DoubledTimes(x, count - 1), DoubledTimes(mask, count - 1));
    }
  }

  lemma RaisedMasks()
    ensures DoubledTimes(ALL_BUT_LOWEST_OCTET, 8) == UPPER_HALF
    ensures DoubledTimes(UPPER_HALF, 8) == TOP_OCTET
  {
    assert DoubledTimes(ALL_BUT_LOWEST_OCTET, 0) == 0xFFFF_FF00;
    assert DoubledTimes(ALL_BUT_LOWEST_OCTET, 2) == 0xFFFF_FC00;
    assert DoubledTimes(ALL_BUT_LOWEST_OCTET, 4) == 0xFFFF_F000;
    assert DoubledTimes(ALL_BUT_LOWEST_OCTET, 6) == 0xFFFF_C000;
    assert DoubledTimes(UPPER_HALF, 0) == 0xFFFF_0000;
    assert DoubledTimes(UPPER_HALF, 2) == 0xFFFC_0000;
    assert DoubledTimes(UPPER_HALF, 4) == 0xFFF0_0000;
    assert DoubledTimes(UPPER_HALF, 6) == 0xFFC0_0000;
  }

  /** An octet with a word raised behind it. */
  function Joined(b: bv8, w: bv32): bv32 {
    Xor(Bits(b), Raised(w))
  }

  /** Octets joined to one octet are two, and to two are three. */
  lemma JoinedIsNarrow(b: bv8, w: bv32)
    ensures Disjoint(w, ALL_BUT_LOWEST_OCTET) ==> Disjoint(Joined(b, w), UPPER_HALF)
    ensures Disjoint(w, UPPER_HALF) ==> IsThreeOctets(Joined(b, w))
  {
    hide Xor, Disjoint, Bits, DoubledTimes;
    RaisedMasks();
    BitsAreOneOctet(b);
    NarrowerMasks(Bits(b));
    if Disjoint(w, ALL_BUT_LOWEST_OCTET) {
      DoublingTimesKeepsDisjoint(w, ALL_BUT_LOWEST_OCTET, 8);
      XorStaysDisjoint(Bits(b), Raised(w), UPPER_HALF);
    }
    if Disjoint(w, UPPER_HALF) {
      DoublingTimesKeepsDisjoint(w, UPPER_HALF, 8);
      XorStaysDisjoint(Bits(b), Raised(w), TOP_OCTET);
    }
  }

  /** Two octets in turn, the second with a word behind it: the first with all of that behind it. */
  lemma AbsorbOctet(x: bv32, b: bv8, w: bv32)
    requires IsThreeOctets(w)
    ensures Xor(ByteStep(x, b), w) == BitSteps(Xor(x, Joined(b, w)), 8)
  {
    ByteStepMeans(x, b);
    assert Joined(b, w) == Xor(Bits(b), Raised(w));
    hide *;
    ByteStepsAreLinear(Xor(x, Bits(b)), w);
    XorAssociates(x, Bits(b), Raised(w));
  }

  /** Four octets in a register: one word folded in, then thirty-two steps. */
  lemma FourOctets(x: bv32, a: bv8, b: bv8, c: bv8, d: bv8)
    ensures ByteStep(ByteStep(ByteStep(ByteStep(x, a), b), c), d)
      == BitSteps(BitSteps(BitSteps(BitSteps(Xor(x, Joined(a, Joined(b, Joined(c, Bits(d))))), 8), 8), 8), 8)
  {
    assert IsThreeOctets(Bits(d)) by {
      BitsAreOneOctet(d);
      NarrowerMasks(Bits(d));
    }
    assert Disjoint(Joined(c, Bits(d)), UPPER_HALF) && IsThreeOctets(Joined(c, Bits(d))) by {
      BitsAreOneOctet(d);
      JoinedIsNarrow(c, Bits(d));
      NarrowerMasks(Joined(c, Bits(d)));
    }
    hide *;
    JoinedIsNarrow(b, Joined(c, Bits(d)));
    var x1 := ByteStep(x, a);
    var x2 := ByteStep(x1, b);
    ByteStepMeans(ByteStep(x2, c), d);
    AbsorbOctet(x2, c, Bits(d));
    AbsorbOctet(x1, b, Joined(c, Bits(d)));
    AbsorbOctet(x, a, Joined(b, Joined(c, Bits(d))));
  }

  // ----- Distinct octets make distinct words -----

  function Narrowed(mask: bv32): bv32 {
    (mask >> 1) | 0x8000_0000
  }

  function NarrowedTimes(mask: bv32, count: nat): bv32 {
    if count == 0 then mask else Narrowed(NarrowedTimes(mask, count - 1))
  }

  lemma HalvingStaysDisjoint(x: bv32, mask: bv32)
    requires Disjoint(x, mask)
    ensures Disjoint(Halved(x), Narrowed(mask))
  {
  }

  lemma {:induction false} HalvingTimesStaysDisjoint(x: bv32, mask: bv32, count: nat)
    requires Disjoint(x, mask)
    ensures Disjoint(HalvedTimes(x, count), NarrowedTimes(mask, count))
    decreases count
  {
    assert NarrowedTimes(mask, 0) == mask;
    assert count > 0 ==> NarrowedTimes(mask, count) == Narrowed(NarrowedTimes(mask, count - 1));
    hide *;
    HalvedTimesUnfolds(x, 0);
    if count > 0 {
      HalvingTimesStaysDisjoint(x, mask, count - 1);
      HalvedTimesUnfolds(x, count - 1);
      HalvingStaysDisjoint(HalvedTimes(x, count - 1), NarrowedTimes(mask, count - 1));
    }
  }

  lemma EverythingNarrows()
    ensures NarrowedTimes(ALL_BUT_LOWEST_OCTET, 8) == 0xFFFF_FFFF
  {
    assert NarrowedTimes(ALL_BUT_LOWEST_OCTET, 0) == 0xFFFF_FF00;
    assert NarrowedTimes(ALL_BUT_LOWEST_OCTET, 2) == 0xFFFF_FFC0;
    assert NarrowedTimes(ALL_BUT_LOWEST_OCTET, 4) == 0xFFFF_FFF0;
    assert NarrowedTimes(ALL_BUT_LOWEST_OCTET, 6) == 0xFFFF_FFFC;
  }

  lemma DisjointFromAll(x: bv32)
    requires Disjoint(x, 0xFFFF_FFFF)
    ensures x == 0
  {
  }

  lemma XorZero(x: bv32)
    ensures Xor(0, x) == x
  {
  }

  lemma OctetVanishes(b: bv8)
    ensures HalvedTimes(Bits(b), 8) == 0
  {
    hide *;
    BitsAreOneOctet(b);
    HalvingTimesStaysDisjoint(Bits(b), ALL_BUT_LOWEST_OCTET, 8);
    EverythingNarrows();
    DisjointFromAll(HalvedTimes(Bits(b), 8));
  }

  lemma {:induction false} HalvedTimesOfXor(x: bv32, y: bv32, count: nat)
    ensures HalvedTimes(Xor(x, y), count) == Xor(HalvedTimes(x, count), HalvedTimes(y, count))
    decreases count
  {
    hide *;
    HalvedTimesUnfolds(x, 0);
    HalvedTimesUnfolds(y, 0);
    HalvedTimesUnfolds(Xor(x, y), 0);
    if count > 0 {
      HalvedTimesUnfolds(x, count - 1);
      HalvedTimesUnfolds(y, count - 1);
      HalvedTimesUnfolds(Xor(x, y), count - 1);
      HalvedTimesOfXor(x, y, count - 1);
      HalvedOfXor(HalvedTimes(x, count - 1), HalvedTimes(y, count - 1));
    }
  }

  /** Eight halvings take the joined octet off and bring the word back down. */
  lemma WordBehind(b: bv8, w: bv32)
    requires IsThreeOctets(w)
    ensures HalvedTimes(Joined(b, w), 8) == w
  {
    assert Joined(b, w) == Xor(Bits(b), Raised(w));
    hide *;
    HalvedTimesOfXor(Bits(b), Raised(w), 8);
    OctetVanishes(b);
    RaisedShiftsOut(w, 8);
    DoubledTimesUnfolds(w, 0);
    XorZero(w);
  }

  lemma JoinedIsInjective(a: bv8, w: bv32, b: bv8, z: bv32)
    requires IsThreeOctets(w) && IsThreeOctets(z) && Joined(a, w) == Joined(b, z)
    ensures a == b && w == z
  {
    assert Joined(a, w) == Xor(Bits(a), Raised(w)) && Joined(b, z) == Xor(Bits(b), Raised(z));
    hide *;
    WordBehind(a, w);
    WordBehind(b, z);
    XorCancels(Bits(a), Bits(b), Raised(w));
    BitsAreInjective(a, b);
  }

  /** A word of four octets. */
  function Word(w: seq<bv8>): bv32
    requires |w| == 4
  {
    Joined(w[0], Joined(w[1], Joined(w[2], Bits(w[3]))))
  }

  lemma WordParts(c: bv8, d: bv8)
    ensures IsThreeOctets(Bits(d)) && IsThreeOctets(Joined(c, Bits(d)))
    ensures forall b :: IsThreeOctets(Joined(b, Joined(c, Bits(d))))
  {
    hide *;
    BitsAreOneOctet(d);
    NarrowerMasks(Bits(d));
    JoinedIsNarrow(c, Bits(d));
    NarrowerMasks(Joined(c, Bits(d)));
    ThreeOctetsMeans(Bits(d));
    ThreeOctetsMeans(Joined(c, Bits(d)));
    forall b
      ensures IsThreeOctets(Joined(b, Joined(c, Bits(d))))
    {
      JoinedIsNarrow(b, Joined(c, Bits(d)));
    }
  }

  lemma ThreeOctetsMeans(w: bv32)
    ensures IsThreeOctets(w) <==> Disjoint(w, TOP_OCTET)
  {
    hide Disjoint;
  }

  lemma WordIsInjective(v: seq<bv8>, w: seq<bv8>)
    requires |v| == |w| == 4 && Word(v) == Word(w)
    ensures v == w
  {
    hide Joined, Bits, IsThreeOctets;
    WordParts(v[2], v[3]);
    WordParts(w[2], w[3]);
    JoinedIsInjective(v[0], Joined(v[1], Joined(v[2], Bits(v[3]))), w[0], Joined(w[1], Joined(w[2], Bits(w[3]))));
    JoinedIsInjective(v[1], Joined(v[2], Bits(v[3])), w[1], Joined(w[2], Bits(w[3])));
    JoinedIsInjective(v[2], Bits(v[3]), w[2], Bits(w[3]));
    BitsAreInjective(v[3], w[3]);
  }

  lemma RegisterOfFour(x: bv32, w: seq<bv8>)
    requires |w| == 4
    ensures Register(x, w) == BitSteps(BitSteps(BitSteps(BitSteps(Xor(x, Word(w)), 8), 8), 8), 8)
  {
    assert Word(w) == Joined(w[0], Joined(w[1], Joined(w[2], Bits(w[3]))));
    hide *;
    RegisterUnfolds(x, w, 0);
    RegisterUnfolds(x, w, 1);
    RegisterUnfolds(x, w, 2);
    RegisterUnfolds(x, w, 3);
    assert w[..4] == w;
    FourOctets(x, w[0], w[1], w[2], w[3]);
  }

  /** One register, two windows: the same register after them only when they are the same. */
  lemma WindowIsInjective(x: bv32, v: seq<bv8>, w: seq<bv8>)
    requires |v| == |w| == 4 && Register(x, v) == Register(x, w)
    ensures v == w
  {
    hide *;
    RegisterOfFour(x, v);
    RegisterOfFour(x, w);
    var a, b := Xor(x, Word(v)), Xor(x, Word(w));
    BitStepsIsInjective(BitSteps(BitSteps(BitSteps(a, 8), 8), 8), BitSteps(BitSteps(BitSteps(b, 8), 8), 8), 8);
    BitStepsIsInjective(BitSteps(BitSteps(a, 8), 8), BitSteps(BitSteps(b, 8), 8), 8);
    BitStepsIsInjective(BitSteps(a, 8), BitSteps(b, 8), 8);
    BitStepsIsInjective(a, b, 8);
    XorCancels(Word(v), Word(w), x);
    XorCancels(x, x, Word(v));
    XorCancels(x, x, Word(w));
    WordIsInjective(v, w);
  }

  /** The same for shorter windows: what follows both can fill them up. */
  lemma ShortWindowIsInjective(x: bv32, v: seq<bv8>, w: seq<bv8>)
    requires |v| == |w| <= 4 && Register(x, v) == Register(x, w)
    ensures v == w
  {
    hide *;
    var fill: seq<bv8> := seq(4 - |v|, _ => 0);
    RegisterOfConcatenation(x, v, fill);
    RegisterOfConcatenation(x, w, fill);
    WindowIsInjective(x, v + fill, w + fill);
    assert v == (v + fill)[..|v|] && w == (w + fill)[..|w|];
  }

  lemma ComplementIsInjective(x: bv32, y: bv32)
    requires Complement(x) == Complement(y)
    ensures x == y
  {
  }

  /**
   Error detection: two inputs of one length that differ, and differ only inside one window of at most
   four consecutive octets, never have the same checksum.
   */
  lemma WindowErrorsAreDetected(before: seq<bv8>, v: seq<bv8>, w: seq<bv8>, after: seq<bv8>)
    requires |v| == |w| <= 4 && v != w
    ensures Checksum(before + v + after) != Checksum(before + w + after)
  {
    if Checksum(before + v + after) == Checksum(before + w + after) {
      ComplementIsInjective(Register(INITIAL, before + v + after), Register(INITIAL, before + w + after));
      hide *;
      RegisterOfConcatenation(INITIAL, before + v, after);
      RegisterOfConcatenation(INITIAL, before + w, after);
      RegisterIsInjective(Register(INITIAL, before + v), Register(INITIAL, before + w), after);
      RegisterOfConcatenation(INITIAL, before, v);
      RegisterOfConcatenation(INITIAL, before, w);
      ShortWindowIsInjective(Register(INITIAL, before), v, w);
    }
  }
}
