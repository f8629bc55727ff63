/** The stored-entry ZIP writer (`asic.rs`) and the local-header reader (`asic_verify.rs`). */
module Zip {

  import opened Octets
  import Crc32

  const SIGNATURE_LOCAL_HEADER: nat := 0x0403_4B50
  const SIGNATURE_CENTRAL_HEADER: nat := 0x0201_4B50
  const SIGNATURE_END_OF_DIRECTORY: nat := 0x0605_4B50
  const VERSION_NEEDED: nat := 20
  const VERSION_MADE_BY: nat := 0x0314
  const REGULAR_FILE_EXTERNAL_ATTRIBUTES: nat := 0x81A4_0000
  const METHOD_STORED: nat := 0
  const METHOD_DEFLATED: nat := 8
  const UTF8_NAME_FLAG: nat := 0x0800
  const MAX_ENTRIES: nat := 4096
  const MAX_TOTAL_BYTES: nat := 0x2000_0000

  const LOCAL_FIXED: nat := 30
  const CENTRAL_FIXED: nat := 46
  const END_SIZE: nat := 22

  /** A named data object; the name in UTF-8 octets. */
  datatype Entry = Entry(name: octets, content: octets)

  // ----- The archive -----

  function AsBits(content: octets): seq<bv8> {
    seq(|content|, i requires 0 <= i < |content| => content[i] as bv8)
  }

  function ChecksumOf(content: octets): (r: nat)
    ensures r < U32_LIMIT
  {
    Crc32.Checksum(AsBits(content)) as int
  }

  predicate IsAscii(name: octets) {
    forall i :: 0 <= i < |name| ==> name[i] < 0x80
  }

  function Flags(name: octets): nat {
    if IsAscii(name) then 0 else UTF8_NAME_FLAG
  }

  /** Lengths that the ZIP fields can hold. */
  predicate Describable(e: Entry) {
    |e.content| < U32_LIMIT && |e.name| < U16_LIMIT
  }

  /** What the local header and the central record of an entry share: version needed to name length. */
  function SharedFields(e: Entry): (r: octets)
    requires Describable(e)
    ensures |r| == 24
  {
    LittleEndian16(VERSION_NEEDED) + LittleEndian16(Flags(e.name)) + LittleEndian16(METHOD_STORED)
    + LittleEndian16(0) + LittleEndian16(0) + LittleEndian32(ChecksumOf(e.content))
    + LittleEndian32(|e.content|) + LittleEndian32(|e.content|) + LittleEndian16(|e.name|)
  }

  function LocalEntry(e: Entry): (r: octets)
    requires Describable(e)
    ensures |r| == LOCAL_FIXED + |e.name| + |e.content|
  {
    LittleEndian32(SIGNATURE_LOCAL_HEADER) + SharedFields(e) + LittleEndian16(0) + e.name + e.content
  }

  function CentralRecord(e: Entry, offset: nat): (r: octets)
    requires Describable(e) && offset < U32_LIMIT
    ensures |r| == CENTRAL_FIXED + |e.name|
  {
    LittleEndian32(SIGNATURE_CENTRAL_HEADER) + LittleEndian16(VERSION_MADE_BY) + SharedFields(e)
    + LittleEndian16(0) + LittleEndian16(0) + LittleEndian16(0) + LittleEndian16(0)
    + LittleEndian32(REGULAR_FILE_EXTERNAL_ATTRIBUTES) + LittleEndian32(offset) + e.name
  }

  /** The fields can hold the first `k` entries, and each starts where a 32-bit offset can point. */
  predicate Addressable(entries: seq<Entry>, k: nat)
    requires k <= |entries|
    decreases k, 0
  {
    k == 0 || (Addressable(entries, k - 1) && Describable(entries[k - 1]) && k < U16_LIMIT
               && |Locals(entries, k - 1)| < U32_LIMIT)
  }

  /** The first `k` local entries, end to end. */
  function Locals(entries: seq<Entry>, k: nat): octets
    requires k <= |entries| && Addressable(entries, k)
    decreases k, 1
  {
    if k == 0 then [] else Locals(entries, k - 1) + LocalEntry(entries[k - 1])
  }

  /** The first `k` central records, each with the offset of its local entry. */
  function Directory(entries: seq<Entry>, k: nat): octets
    requires k <= |entries| && Addressable(entries, k)
    decreases k
  {
    if k == 0 then []
    else Directory(entries, k - 1) + CentralRecord(entries[k - 1], |Locals(entries, k - 1)|)
  }

  function EndRecord(count: nat, directorySize: nat, directoryAt: nat): (r: octets)
    requires count < U16_LIMIT && directorySize < U32_LIMIT && directoryAt < U32_LIMIT
    ensures |r| == END_SIZE
  {
    LittleEndian32(SIGNATURE_END_OF_DIRECTORY) + LittleEndian16(0) + LittleEndian16(0) + LittleEndian16(count)
    + LittleEndian16(count) + LittleEndian32(directorySize) + LittleEndian32(directoryAt) + LittleEndian16(0)
  }

  predicate Finishable(entries: seq<Entry>) {
    && Addressable(entries, |entries|)
    && |entries| < U16_LIMIT
    && |Locals(entries, |entries|)| < U32_LIMIT
    && |Directory(entries, |entries|)| < U32_LIMIT
  }

  function Archive(entries: seq<Entry>): octets
    requires Finishable(entries)
  {
    var n := |entries|;
    Locals(entries, n) + Directory(entries, n) + EndRecord(n, |Directory(entries, n)|, |Locals(entries, n)|)
  }

  // ----- The writer -----

  class ZipWriter {
    var out: octets
    var directory: octets
    var count: nat
    var overflowed: bool
    /** What has been added. */
    ghost var entries: seq<Entry>

    ghost predicate Valid()
      reads this
    {
      && Addressable(entries, |entries|)
      && out == Locals(entries, |entries|)
      && directory == Directory(entries, |entries|)
      && count == |entries| < U16_LIMIT
    }

    constructor ()
      ensures Valid() && entries == [] && !overflowed
    {
      out, directory, count, overflowed, entries := [], [], 0, false, [];
    }

    /** One stored entry, or the sticky overflow when a field cannot hold what it must. */
    method Add(name: octets, content: octets) returns (ok: bool)
      requires Valid()
      modifies this
      ensures Valid()
      ensures ok <==> old(|out|) < U32_LIMIT && Describable(Entry(name, content)) && old(count) < U16_LIMIT - 1
      ensures entries == if ok then old(entries) + [Entry(name, content)] else old(entries)
      ensures overflowed == (old(overflowed) || !ok)
    {
      ghost var e := Entry(name, content);
      if |out| >= U32_LIMIT || |content| >= U32_LIMIT || |name| >= U16_LIMIT || count + 1 >= U16_LIMIT {
        overflowed := true;
        return false;
      }
      AddressableAppend(entries, e, |entries|);
      OneMore(entries + [e], |entries|);
      hide *;
      var fields := WriteSharedFields(name, content);
      var offset := |out|;
      out := AppendLocalEntry(out, fields, name, content);
      var record := WriteCentralRecord(fields, offset, name, content);
      directory := directory + record;
      count := count + 1;
      entries := entries + [e];
      return true;
    }

    /** The archive, or nothing when any add overflowed or the totals do. */
    method Finish() returns (archive: Option<octets>)
      requires Valid()
      ensures archive.Some? <==> !overflowed && Finishable(entries)
      ensures archive.Some? ==> archive.value == Archive(entries)
    {
      if overflowed || |out| >= U32_LIMIT || |directory| >= U32_LIMIT {
        return None;
      }
      var directoryAt, directorySize := |out|, |directory|;
      hide LittleEndian16, LittleEndian32, Locals, Directory;
      var end := LittleEndian32(SIGNATURE_END_OF_DIRECTORY);
      end := end + LittleEndian16(0);
      end := end + LittleEndian16(0);
      end := end + LittleEndian16(count);
      end := end + LittleEndian16(count);
      end := end + LittleEndian32(directorySize);
      end := end + LittleEndian32(directoryAt);
      end := end + LittleEndian16(0);
      return Some(out + directory + end);
    }
  }

  method WriteSharedFields(name: octets, content: octets) returns (fields: octets)
    requires Describable(Entry(name, content))
    ensures fields == SharedFields(Entry(name, content))
  {
    var crcBits := Crc32.Crc32(AsBits(content));
    var crc: nat := crcBits as int;
    assert crc == ChecksumOf(content);
    var flags := if IsAscii(name) then 0 else UTF8_NAME_FLAG;
    assert flags == Flags(name);
    hide LittleEndian16, LittleEndian32, ChecksumOf, Flags;
    fields := LittleEndian16(VERSION_NEEDED);
    fields := fields + LittleEndian16(flags);
    fields := fields + LittleEndian16(METHOD_STORED);
    fields := fields + LittleEndian16(0);
    fields := fields + LittleEndian16(0);
    fields := fields + LittleEndian32(crc);
    fields := fields + LittleEndian32(|content|);
    fields := fields + LittleEndian32(|content|);
    fields := fields + LittleEndian16(|name|);
  }

  method AppendLocalEntry(out: octets, fields: octets, name: octets, content: octets) returns (longer: octets)
    requires Describable(Entry(name, content)) && fields == SharedFields(Entry(name, content))
    ensures longer == out + LocalEntry(Entry(name, content))
  {
    hide LittleEndian16, LittleEndian32, SharedFields;
    longer := out + LittleEndian32(SIGNATURE_LOCAL_HEADER);
    longer := longer + fields;
    longer := longer + LittleEndian16(0);
    longer := longer + name;
    longer := longer + content;
  }

  method WriteCentralRecord(fields: octets, offset: nat, name: octets, ghost content: octets)
    returns (record: octets)
    requires Describable(Entry(name, content)) && fields == SharedFields(Entry(name, content)) && offset < U32_LIMIT
    ensures record == CentralRecord(Entry(name, content), offset)
  {
    assert LittleEndian16(0) == [0, 0];
    hide LittleEndian16, LittleEndian32, SharedFields;
    record := LittleEndian32(SIGNATURE_CENTRAL_HEADER);
    record := record + LittleEndian16(VERSION_MADE_BY);
    record := record + fields;
    ghost var before := record;
    for k := 0 to 4
      invariant record == before + seq(2 * k, _ => 0)
    {
      record := record + LittleEndian16(0);
    }
    assert seq(8, _ => 0) == LittleEndian16(0) + LittleEndian16(0) + LittleEndian16(0) + LittleEndian16(0);
    record := record + LittleEndian32(REGULAR_FILE_EXTERNAL_ATTRIBUTES);
    record := record + LittleEndian32(offset);
    record := record + name;
  }

  /** Adding an entry behind leaves what is before it. */
  lemma {:induction false} AddressableAppend(entries: seq<Entry>, e: Entry, k: nat)
    requires k <= |entries| && Addressable(entries, k)
    ensures Addressable(entries + [e], k)
    ensures Locals(entries + [e], k) == Locals(entries, k)
    ensures Directory(entries + [e], k) == Directory(entries, k)
    decreases k
  {
    hide LocalEntry, CentralRecord, Describable;
    if k > 0 {
      AddressableAppend(entries, e, k - 1);
    }
  }

  lemma OneMore(entries: seq<Entry>, k: nat)
    requires k < |entries| && Addressable(entries, k) && |Locals(entries, k)| < U32_LIMIT
    requires Describable(entries[k]) && k + 1 < U16_LIMIT
    ensures Addressable(entries, k + 1)
    ensures Locals(entries, k + 1) == Locals(entries, k) + LocalEntry(entries[k])
    ensures Directory(entries, k + 1) == Directory(entries, k) + CentralRecord(entries[k], |Locals(entries, k)|)
  {
    hide LocalEntry, CentralRecord, Describable;
  }

  // ----- Reading octets -----

  function Little(b: octets): (r: nat)
    requires |b| in {2, 4}
  {
    if |b| == 2 then b[0] as int + 0x100 * (b[1] as int)
    else b[0] as int + 0x100 * (b[1] as int) + 0x1_0000 * (b[2] as int) + 0x100_0000 * (b[3] as int)
  }

  lemma LittleOfLittleEndian(n: nat)
    ensures n < U16_LIMIT ==> Little(LittleEndian16(n)) == n
    ensures n < U32_LIMIT ==> Little(LittleEndian32(n)) == n
  {
    if n < U32_LIMIT {
      FourDigits(n);
    }
  }

  /** Octet cursor that fails closed instead of slicing. */
  class Cursor {
    const bytes: octets
    var pos: nat

    constructor (bytes: octets)
      ensures Valid() && this.bytes == bytes && pos == 0
    {
      this.bytes := bytes;
      pos := 0;
    }

    ghost predicate Valid()
      reads this
      ensures Valid() ==> pos <= |bytes|
    {
      pos <= |bytes|
    }

    method Take(len: nat) returns (slice: Option<octets>)
      requires Valid()
      modifies this`pos
      ensures Valid()
      ensures slice == if old(pos) + len <= |bytes| then Some(bytes[old(pos)..old(pos) + len]) else None
      ensures pos == if slice.Some? then old(pos) + len else old(pos)
    {
      if pos + len > |bytes| {
        return None;
      }
      slice := Some(bytes[pos..pos + len]);
      pos := pos + len;
    }

    method U16() returns (n: Option<nat>)
      requires Valid()
      modifies this`pos
      ensures Valid()
      ensures n == if old(pos) + 2 <= |bytes| then Some(Little(bytes[old(pos)..old(pos) + 2])) else None
      ensures pos == if n.Some? then old(pos) + 2 else old(pos)
    {
      var slice :- Take(2);
      return Some(Little(slice));
    }

    method U32() returns (n: Option<nat>)
      requires Valid()
      modifies this`pos
      ensures Valid()
      ensures n == if old(pos) + 4 <= |bytes| then Some(Little(bytes[old(pos)..old(pos) + 4])) else None
      ensures pos == if n.Some? then old(pos) + 4 else old(pos)
    {
      var slice :- Take(4);
      return Some(Little(slice));
    }
  }

  /** Local file header fields a verifier needs. */
  datatype LocalHeader = LocalHeader(flags: nat, compression: nat, compressedLen: nat, uncompressedLen: nat,
                                     nameLen: nat, extraLen: nat)

  const HEADER_FIELDS: nat := 26

  /** The fields behind a signature that ends at `at`. */
  function HeaderAt(bytes: octets, at: nat): LocalHeader
    requires at + HEADER_FIELDS <= |bytes|
  {
    LocalHeader(Little(bytes[at + 2..at + 4]), Little(bytes[at + 4..at + 6]), Little(bytes[at + 14..at + 18]),
                Little(bytes[at + 18..at + 22]), Little(bytes[at + 22..at + 24]), Little(bytes[at + 24..at + 26]))
  }

  method ReadHeader(cursor: Cursor) returns (header: Option<LocalHeader>)
    requires cursor.Valid()
    modifies cursor`pos
    ensures cursor.Valid()
    ensures header.Some? <==> old(cursor.pos) + HEADER_FIELDS <= |cursor.bytes|
    ensures header.Some?
      ==> header.value == HeaderAt(cursor.bytes, old(cursor.pos)) && cursor.pos == old(cursor.pos) + HEADER_FIELDS
  {
    hide Little;
    var _ :- cursor.U16();
    var flags :- cursor.U16();
    var compression :- cursor.U16();
    var _ :- cursor.U16();
    var _ :- cursor.U16();
    var _ :- cursor.U32();
    var compressed :- cursor.U32();
    var uncompressed :- cursor.U32();
    var nameLen :- cursor.U16();
    var extraLen :- cursor.U16();
    return Some(LocalHeader(flags, compression, compressed, uncompressed, nameLen, extraLen));
  }

  // ----- The reader -----

  datatype ReadError =
    | NotAContainer
    | BadSignature
    | TruncatedHeader
    | Encrypted
    | HasDescriptor
    | TruncatedName
    | TruncatedExtra
    | TruncatedData
    | UnsupportedMethod
    | DeflateError
    | SizeMismatch
    | TooLarge
    | TooManyEntries

  /** The two things the reader leaves to a library: decoding names leniently, and inflating. */
  datatype Library = Library(lossy: octets -> octets, inflate: octets -> Option<octets>)

  /** The bits of a flag word, from the lowest. */
  predicate HasBit(flags: nat, unit: nat)
    requires unit > 0
  {
    flags / unit % 2 == 1
  }

  /** One entry behind a signature that ends at `at`, and where it ends. */
  function EntryAt(bytes: octets, at: nat, library: Library): (r: Result<(Entry, nat), ReadError>)
    ensures r.Ok? ==> at + HEADER_FIELDS <= r.value.1 <= |bytes|
  {
    if at + HEADER_FIELDS > |bytes| then Err(TruncatedHeader)
    else
      var h := HeaderAt(bytes, at);
      var nameAt := at + HEADER_FIELDS;
      var extraAt := nameAt + h.nameLen;
      var dataAt := extraAt + h.extraLen;
      if HasBit(h.flags, 1) then Err(Encrypted)
      else if HasBit(h.flags, 8) then Err(HasDescriptor)
      else if extraAt > |bytes| then Err(TruncatedName)
      else if dataAt > |bytes| then Err(TruncatedExtra)
      else if dataAt + h.compressedLen > |bytes| then Err(TruncatedData)
      else
        var data :- Unpacked(h.compression, bytes[dataAt..dataAt + h.compressedLen], library);
        if |data| != h.uncompressedLen then Err(SizeMismatch)
        else Ok((Entry(library.lossy(bytes[nameAt..extraAt]), data), dataAt + h.compressedLen))
  }

  function Unpacked(compression: nat, stored: octets, library: Library): Result<octets, ReadError> {
    if compression == METHOD_STORED then Ok(stored)
    else if compression == METHOD_DEFLATED then
      match library.inflate(stored)
      case Some(data) => Ok(data)
      case None => Err(DeflateError)
    else Err(UnsupportedMethod)
  }

  predicate EndsEntries(signature: nat) {
    signature == SIGNATURE_CENTRAL_HEADER || signature == SIGNATURE_END_OF_DIRECTORY
  }

  /** One round of the reader: nothing more to read, a refusal, or an entry and where it ends. */
  datatype Round = Ends | Fails(error: ReadError) | Reads(entry: Entry, next: nat)

  function RoundAt(bytes: octets, at: nat, count: nat, total: nat, library: Library): (r: Round)
    requires at <= |bytes|
    ensures r.Reads? ==> at < r.next <= |bytes|
  {
    if at + 4 > |bytes| || EndsEntries(Little(bytes[at..at + 4])) then
      if count == 0 then Fails(NotAContainer) else Ends
    else if Little(bytes[at..at + 4]) != SIGNATURE_LOCAL_HEADER then
      Fails(if count == 0 then NotAContainer else BadSignature)
    else
      match EntryAt(bytes, at + 4, library)
      case Err(error) => Fails(error)
      case Ok((entry, next)) =>
        if total + |entry.content| > MAX_TOTAL_BYTES then Fails(TooLarge)
        else if count + 1 > MAX_ENTRIES then Fails(TooManyEntries)
        else Reads(entry, next)
  }

  /** The entries from `at` on, when `count` of them with `total` octets were read before. */
  function EntriesFrom(bytes: octets, at: nat, count: nat, total: nat, library: Library)
    : Result<seq<Entry>, ReadError>
    requires at <= |bytes|
    decreases |bytes| - at
  {
    match RoundAt(bytes, at, count, total, library)
    case Ends => Ok([])
    case Fails(error) => Err(error)
    case Reads(entry, next) =>
      match EntriesFrom(bytes, next, count + 1, total + |entry.content|, library)
      case Err(error) => Err(error)
      case Ok(rest) => Ok([entry] + rest)
  }

  /** The entry at the cursor, past its signature. */
  method ReadEntry(cursor: Cursor, library: Library) returns (r: Result<Entry, ReadError>)
    requires cursor.Valid()
    modifies cursor`pos
    ensures cursor.Valid()
    ensures match EntryAt(cursor.bytes, old(cursor.pos), library)
            case Err(error) => r == Err(error)
            case Ok((entry, next)) => r == Ok(entry) && cursor.pos == next
  {
    var header := ReadHeader(cursor);
    hide HeaderAt, HasBit;
    if header.None? {
      return Err(TruncatedHeader);
    }
    var h := header.value;
    if HasBit(h.flags, 1) {
      return Err(Encrypted);
    }
    if HasBit(h.flags, 8) {
      return Err(HasDescriptor);
    }
    var nameBytes := cursor.Take(h.nameLen);
    if nameBytes.None? {
      return Err(TruncatedName);
    }
    var extra := cursor.Take(h.extraLen);
    if extra.None? {
      return Err(TruncatedExtra);
    }
    var stored := cursor.Take(h.compressedLen);
    if stored.None? {
      return Err(TruncatedData);
    }
    var data :- Unpacked(h.compression, stored.value, library);
    if |data| != h.uncompressedLen {
      return Err(SizeMismatch);
    }
    return Ok(Entry(library.lossy(nameBytes.value), data));
  }

  /** Entries already read, in front of what is still to come. */
  function Behind(entries: seq<Entry>, rest: Result<seq<Entry>, ReadError>): Result<seq<Entry>, ReadError> {
    match rest
    case Err(error) => Err(error)
    case Ok(more) => Ok(entries + more)
  }

  method ReadRound(cursor: Cursor, count: nat, total: nat, library: Library) returns (r: Round)
    requires cursor.Valid()
    modifies cursor`pos
    ensures cursor.Valid()
    ensures r == RoundAt(cursor.bytes, old(cursor.pos), count, total, library)
    ensures r.Reads? ==> cursor.pos == r.next
  {
    hide EntryAt, Little;
    var sig := cursor.U32();
    if sig.None? || EndsEntries(sig.value) {
      return if count == 0 then Fails(NotAContainer) else Ends;
    }
    if sig.value != SIGNATURE_LOCAL_HEADER {
      return Fails(if count == 0 then NotAContainer else BadSignature);
    }
    var entry := ReadEntry(cursor, library);
    match entry {
      case Err(error) => return Fails(error);
      case Ok(e) =>
        if total + |e.content| > MAX_TOTAL_BYTES {
          return Fails(TooLarge);
        }
        if count + 1 > MAX_ENTRIES {
          return Fails(TooManyEntries);
        }
        return Reads(e, cursor.pos);
    }
  }

  method ReadZip(bytes: octets, library: Library) returns (r: Result<seq<Entry>, ReadError>)
    ensures r == EntriesFrom(bytes, 0, 0, 0, library)
  {
    hide *;
    var cursor := new Cursor(bytes);
    var entries: seq<Entry> := [];
    var total: nat := 0;
    ghost var goal := EntriesFrom(bytes, 0, 0, 0, library);
    NothingRead(bytes, library);
    while true
      invariant cursor.Valid() && cursor.bytes == bytes
      invariant ComesTo(goal, entries, bytes, cursor.pos, total, library)
      decreases |bytes| - cursor.pos
    {
      EntriesStep(goal, bytes, cursor.pos, entries, total, library);
      var round := ReadRound(cursor, |entries|, total, library);
      match round {
        case Ends => return Ok(entries);
        case Fails(error) => return Err(error);
        case Reads(entry, _) =>
          total := total + |entry.content|;
          entries := entries + [entry];
      }
    }
  }

  /** What was read so far and what is still to come make up the result. */
  predicate ComesTo(goal: Result<seq<Entry>, ReadError>, entries: seq<Entry>, bytes: octets, at: nat, total: nat,
                    library: Library)
    requires at <= |bytes|
  {
    Behind(entries, EntriesFrom(bytes, at, |entries|, total, library)) == goal
  }

  lemma NothingRead(bytes: octets, library: Library)
    ensures ComesTo(EntriesFrom(bytes, 0, 0, 0, library), [], bytes, 0, 0, library)
  {
    var rest := EntriesFrom(bytes, 0, 0, 0, library);
    if rest.Ok? {
      assert [] + rest.value == rest.value;
    }
  }

  /** One round of the reader's loop. */
  lemma EntriesStep(goal: Result<seq<Entry>, ReadError>, bytes: octets, at: nat, entries: seq<Entry>, total: nat,
                    library: Library)
    requires at <= |bytes| && ComesTo(goal, entries, bytes, at, total, library)
    ensures match RoundAt(bytes, at, |entries|, total, library)
            case Ends => goal == Ok(entries)
            case Fails(error) => goal == Err(error)
            case Reads(entry, next) =>
              ComesTo(goal, entries + [entry], bytes, next, total + |entry.content|, library)
  {
    hide RoundAt;
    assert entries + [] == entries;
    match RoundAt(bytes, at, |entries|, total, library) {
      case Reads(entry, next) =>
        var rest := EntriesFrom(bytes, next, |entries| + 1, total + |entry.content|, library);
        if rest.Ok? {
          assert entries + ([entry] + rest.value) == entries + [entry] + rest.value;
        }
      case _ =>
    }
  }

  // ----- Reading what was written -----

  function ContentTotal(entries: seq<Entry>): nat {
    if entries == [] then 0 else ContentTotal(entries[..|entries| - 1]) + |entries[|entries| - 1].content|
  }

  /** The reader's lenient decoding leaves a name as it is. */
  predicate KeepsNames(entries: seq<Entry>, library: Library) {
    forall e :: e in entries ==> library.lossy(e.name) == e.name
  }

  /** What reading an archive of `entries` gives: the entries, or the limit they break first. */
  function ReadBack(entries: seq<Entry>, k: nat, total: nat): Result<seq<Entry>, ReadError>
    requires k <= |entries|
    decreases |entries| - k
  {
    if k == |entries| then (if k == 0 then Err(NotAContainer) else Ok([]))
    else if total + |entries[k].content| > MAX_TOTAL_BYTES then Err(TooLarge)
    else if k + 1 > MAX_ENTRIES then Err(TooManyEntries)
    else
      match ReadBack(entries, k + 1, total + |entries[k].content|)
      case Err(error) => Err(error)
      case Ok(rest) => Ok([entries[k]] + rest)
  }

  lemma SliceOfSlice(bytes: octets, at: nat, part: octets, i: nat, j: nat)
    requires Lies(bytes, at, part) && i <= j <= |part|
    ensures at + |part| <= |bytes| && bytes[at + i..at + j] == part[i..j]
  {
    forall k | 0 <= k < j - i
      ensures bytes[at + i..at + j][k] == part[i..j][k]
    {
      assert bytes[at..at + |part|][i + k] == part[i + k];
    }
  }

  /** The parts of the shared fields, by position. */
  lemma SharedFieldsParts(e: Entry)
    requires Describable(e)
    ensures var f := SharedFields(e);
      && f[2..4] == LittleEndian16(Flags(e.name))
      && f[4..6] == LittleEndian16(METHOD_STORED)
      && f[14..18] == LittleEndian32(|e.content|)
      && f[18..22] == LittleEndian32(|e.content|)
      && f[22..24] == LittleEndian16(|e.name|)
  {
    assert Flags(e.name) < U16_LIMIT;
    hide LittleEndian16, LittleEndian32, Flags, ChecksumOf;
    var head := LittleEndian16(VERSION_NEEDED) + LittleEndian16(Flags(e.name));
    var times := head + LittleEndian16(METHOD_STORED) + LittleEndian16(0) + LittleEndian16(0);
    var sums := times + LittleEndian32(ChecksumOf(e.content));
    var f := SharedFields(e);
    assert f == sums + LittleEndian32(|e.content|) + LittleEndian32(|e.content|) + LittleEndian16(|e.name|);
    hide SharedFields;
    assert f[..14] == sums;
    assert sums[..10] == times;
    assert times[4..6] == LittleEndian16(METHOD_STORED) && f[4..6] == sums[4..6] == times[4..6];
  }

  /** The shared fields, read one by one from where they start. */
  lemma SharedFieldsRead(e: Entry, bytes: octets, at: nat)
    requires Describable(e) && Lies(bytes, at, SharedFields(e))
    ensures Little(bytes[at + 2..at + 4]) == Flags(e.name)
    ensures Little(bytes[at + 4..at + 6]) == METHOD_STORED
    ensures Little(bytes[at + 14..at + 18]) == |e.content|
    ensures Little(bytes[at + 18..at + 22]) == |e.content|
    ensures Little(bytes[at + 22..at + 24]) == |e.name|
  {
    var fields := SharedFields(e);
    assert Flags(e.name) < U16_LIMIT && |e.content| < U32_LIMIT && |e.name| < U16_LIMIT;
    hide *;
    SharedFieldsParts(e);
    LittleOfLittleEndian(Flags(e.name));
    LittleOfLittleEndian(METHOD_STORED);
    LittleOfLittleEndian(|e.content|);
    LittleOfLittleEndian(|e.name|);
    SliceOfSlice(bytes, at, fields, 2, 4);
    SliceOfSlice(bytes, at, fields, 4, 6);
    SliceOfSlice(bytes, at, fields, 14, 18);
    SliceOfSlice(bytes, at, fields, 18, 22);
    SliceOfSlice(bytes, at, fields, 22, 24);
  }

  /** The parts of a local entry, by position. */
  lemma LocalEntryParts(e: Entry)
    requires Describable(e)
    ensures var b := LocalEntry(e);
      && b[0..4] == LittleEndian32(SIGNATURE_LOCAL_HEADER)
      && b[4..28] == SharedFields(e)
      && b[28..30] == LittleEndian16(0)
      && b[30..30 + |e.name|] == e.name
      && b[30 + |e.name|..|b|] == e.content
  {
    hide SharedFields, LittleEndian16, LittleEndian32;
  }

  lemma FlagsAreClear(name: octets)
    ensures !HasBit(Flags(name), 1) && !HasBit(Flags(name), 8)
  {
  }

  /** The fixed part of a local entry, read where it lies. */
  lemma HeaderReads(bytes: octets, at: nat, e: Entry)
    requires Describable(e)
    requires Lies(bytes, at, LocalEntry(e))
    ensures Little(bytes[at..at + 4]) == SIGNATURE_LOCAL_HEADER
    ensures HeaderAt(bytes, at + 4)
      == LocalHeader(Flags(e.name), METHOD_STORED, |e.content|, |e.content|, |e.name|, 0)
    ensures bytes[at + 30..at + 30 + |e.name|] == e.name
    ensures bytes[at + 30 + |e.name|..at + |LocalEntry(e)|] == e.content
  {
    var b := LocalEntry(e);
    hide LocalEntry, SharedFields, Little, LittleEndian16, LittleEndian32, Flags, Describable;
    LocalEntryParts(e);
    LittleOfLittleEndian(SIGNATURE_LOCAL_HEADER);
    LittleOfLittleEndian(0);
    SliceOfSlice(bytes, at, b, 0, 4);
    SliceOfSlice(bytes, at, b, 4, 28);
    SliceOfSlice(bytes, at, b, 28, 30);
    SliceOfSlice(bytes, at, b, 30, 30 + |e.name|);
    SliceOfSlice(bytes, at, b, 30 + |e.name|, |b|);
    SharedFieldsRead(e, bytes, at + 4);
  }

  /** A local entry in an archive reads as the entry. */
  lemma EntryReads(bytes: octets, at: nat, e: Entry, library: Library)
    requires Describable(e) && library.lossy(e.name) == e.name
    requires Lies(bytes, at, LocalEntry(e))
    ensures Little(bytes[at..at + 4]) == SIGNATURE_LOCAL_HEADER
    ensures EntryAt(bytes, at + 4, library) == Ok((e, at + |LocalEntry(e)|))
  {
    HeaderReads(bytes, at, e);
    FlagsAreClear(e.name);
    hide HeaderAt, SharedFields, Little, Flags, HasBit, Describable, LocalEntry;
  }

  /** The first `k + 1` entries are addressable when more are, and lie in front of the rest. */
  lemma {:induction false} PartsAt(entries: seq<Entry>, k: nat, n: nat)
    requires k < n <= |entries| && Addressable(entries, n)
    ensures Addressable(entries, k) && Addressable(entries, k + 1) && Describable(entries[k])
    ensures |Locals(entries, k)| < U32_LIMIT
    ensures Locals(entries, k) + LocalEntry(entries[k]) <= Locals(entries, n)
    ensures Directory(entries, k) + CentralRecord(entries[k], |Locals(entries, k)|) <= Directory(entries, n)
    ensures Locals(entries, k + 1) == Locals(entries, k) + LocalEntry(entries[k])
    decreases n
  {
    hide LocalEntry, CentralRecord, Describable;
    if k + 1 < n {
      PartsAt(entries, k, n - 1);
    }
  }

  /** A part found inside octets. */
  predicate Lies(bytes: octets, at: nat, part: octets) {
    at + |part| <= |bytes| && bytes[at..at + |part|] == part
  }

  lemma PrefixLies(bytes: octets, before: octets, part: octets, all: octets)
    requires before + part <= all <= bytes
    ensures Lies(bytes, |before|, part)
  {
    assert bytes[..|before| + |part|] == before + part;
  }

  /** One more entry read where it lies. */
  lemma NextEntryReads(entries: seq<Entry>, bytes: octets, k: nat, library: Library)
    requires k < |entries| && Addressable(entries, |entries|)
    requires library.lossy(entries[k].name) == entries[k].name
    requires Locals(entries, |entries|) <= bytes
    ensures Addressable(entries, k) && Addressable(entries, k + 1)
    ensures |Locals(entries, k)| + 4 <= |Locals(entries, k + 1)| <= |bytes|
    ensures var at := |Locals(entries, k)|;
      && Little(bytes[at..at + 4]) == SIGNATURE_LOCAL_HEADER
      && EntryAt(bytes, at + 4, library) == Ok((entries[k], |Locals(entries, k + 1)|))
  {
    hide *;
    PartsAt(entries, k, |entries|);
    PrefixLies(bytes, Locals(entries, k), LocalEntry(entries[k]), Locals(entries, |entries|));
    EntryReads(bytes, |Locals(entries, k)|, entries[k], library);
  }

  /** Any octets that begin with the local entries and then do not go on with another. */
  lemma {:induction false} EntriesRead(entries: seq<Entry>, bytes: octets, k: nat, total: nat, library: Library)
    requires k <= |entries| && Addressable(entries, |entries|) && Addressable(entries, k)
    requires KeepsNames(entries, library)
    requires Locals(entries, |entries|) <= bytes && |Locals(entries, |entries|)| + 4 <= |bytes|
    requires EndsEntries(Little(bytes[|Locals(entries, |entries|)|..|Locals(entries, |entries|)| + 4]))
    ensures |Locals(entries, k)| <= |bytes|
    ensures EntriesFrom(bytes, |Locals(entries, k)|, k, total, library) == ReadBack(entries, k, total)
    decreases |entries| - k
  {
    hide Little, EntryAt, Addressable, Locals, EndsEntries;
    if k < |entries| {
      assert entries[k] in entries;
      NextEntryReads(entries, bytes, k, library);
      LocalSignatureDoesNotEnd();
      EntriesRead(entries, bytes, k + 1, total + |entries[k].content|, library);
    }
  }

  lemma LocalSignatureDoesNotEnd()
    ensures !EndsEntries(SIGNATURE_LOCAL_HEADER)
    ensures EndsEntries(SIGNATURE_CENTRAL_HEADER) && EndsEntries(SIGNATURE_END_OF_DIRECTORY)
  {
  }

  lemma EndRecordParts(count: nat, directorySize: nat, directoryAt: nat)
    requires count < U16_LIMIT && directorySize < U32_LIMIT && directoryAt < U32_LIMIT
    ensures var b := EndRecord(count, directorySize, directoryAt);
      && |b| == END_SIZE == 22
      && b[0..4] == LittleEndian32(SIGNATURE_END_OF_DIRECTORY)
      && b[8..10] == LittleEndian16(count)
      && b[10..12] == LittleEndian16(count)
      && b[12..16] == LittleEndian32(directorySize)
      && b[16..20] == LittleEndian32(directoryAt)
  {
    hide LittleEndian16, LittleEndian32;
    var head := LittleEndian32(SIGNATURE_END_OF_DIRECTORY) + LittleEndian16(0) + LittleEndian16(0);
    var counts := head + LittleEndian16(count) + LittleEndian16(count);
    var b := EndRecord(count, directorySize, directoryAt);
    assert b == counts + LittleEndian32(directorySize) + LittleEndian32(directoryAt) + LittleEndian16(0);
    hide EndRecord;
    assert b[..12] == counts && counts[..8] == head;
    assert b[8..10] == counts[8..10] && b[10..12] == counts[10..12];
  }

  /** The parts of a central record, by position. */
  lemma CentralRecordParts(e: Entry, offset: nat)
    requires Describable(e) && offset < U32_LIMIT
    ensures var b := CentralRecord(e, offset);
      && b[0..4] == LittleEndian32(SIGNATURE_CENTRAL_HEADER)
      && b[6..30] == SharedFields(e)
      && b[42..46] == LittleEndian32(offset)
      && b[46..|b|] == e.name
  {
    hide SharedFields, LittleEndian16, LittleEndian32;
    var head := LittleEndian32(SIGNATURE_CENTRAL_HEADER) + LittleEndian16(VERSION_MADE_BY) + SharedFields(e);
    var zeros := head + LittleEndian16(0) + LittleEndian16(0) + LittleEndian16(0) + LittleEndian16(0);
    var fixed := zeros + LittleEndian32(REGULAR_FILE_EXTERNAL_ATTRIBUTES) + LittleEndian32(offset);
    var b := CentralRecord(e, offset);
    assert b == fixed + e.name;
    hide CentralRecord;
    assert b[..46] == fixed && fixed[..38] == zeros && zeros[..30] == head;
    assert b[42..46] == fixed[42..46];
    assert b[0..4] == fixed[0..4] == zeros[0..4] == head[0..4];
    assert b[6..30] == fixed[6..30] == zeros[6..30] == head[6..30];
  }

  lemma FinishableMeans(entries: seq<Entry>)
    requires Finishable(entries)
    ensures var n := |entries|;
      && Addressable(entries, n)
      && n < U16_LIMIT
      && |Locals(entries, n)| < U32_LIMIT
      && |Directory(entries, n)| < U32_LIMIT
      && Archive(entries) == Locals(entries, n) + Directory(entries, n)
                             + EndRecord(n, |Directory(entries, n)|, |Locals(entries, n)|)
  {
    hide Addressable, Locals, Directory, EndRecord;
  }

  lemma NothingAtFirst(entries: seq<Entry>)
    ensures Addressable(entries, 0) && Locals(entries, 0) == [] && Directory(entries, 0) == []
    ensures ContentTotal([]) == 0
  {
  }

  lemma EndRecordEnds(count: nat, directorySize: nat, directoryAt: nat)
    requires count < U16_LIMIT && directorySize < U32_LIMIT && directoryAt < U32_LIMIT
    ensures |EndRecord(count, directorySize, directoryAt)| == END_SIZE == 22
    ensures EndsEntries(Little(EndRecord(count, directorySize, directoryAt)[0..4]))
  {
    hide LittleEndian16, LittleEndian32, EndRecord, Little;
    EndRecordParts(count, directorySize, directoryAt);
    LittleOfLittleEndian(SIGNATURE_END_OF_DIRECTORY);
  }

  lemma CentralRecordEnds(e: Entry, offset: nat)
    requires Describable(e) && offset < U32_LIMIT
    ensures |CentralRecord(e, offset)| >= CENTRAL_FIXED == 46
    ensures EndsEntries(Little(CentralRecord(e, offset)[0..4]))
  {
    hide LittleEndian16, LittleEndian32, CentralRecord, Little;
    CentralRecordParts(e, offset);
    LittleOfLittleEndian(SIGNATURE_CENTRAL_HEADER);
  }

  lemma FirstOctetsOf(locals: octets, directory: octets, end: octets, first: octets)
    requires |end| >= 4 && |first| >= 4
    ensures var archive := locals + directory + end;
      && locals <= archive
      && |locals| + 4 <= |locals| + |directory| + |end|
      && (directory == [] ==> archive[|locals|..|locals| + 4] == end[0..4])
      && (first <= directory ==> archive[|locals|..|locals| + 4] == first[0..4])
  {
    var archive := locals + directory + end;
    if first <= directory {
      assert directory[0..4] == first[0..4];
    }
  }

  /** What follows the local entries of an archive is the directory, or the end record when that is empty. */
  lemma ArchiveEndsEntries(entries: seq<Entry>)
    requires Finishable(entries)
    ensures var locals := Locals(entries, |entries|);
      && locals <= Archive(entries)
      && |locals| + 4 <= |Archive(entries)|
      && EndsEntries(Little(Archive(entries)[|locals|..|locals| + 4]))
  {
    hide *;
    FinishableMeans(entries);
    NothingAtFirst(entries);
    var n := |entries|;
    var locals, directory := Locals(entries, n), Directory(entries, n);
    var end := EndRecord(n, |directory|, |locals|);
    EndRecordEnds(n, |directory|, |locals|);
    if n == 0 {
      FirstOctetsOf(locals, directory, end, end);
    } else {
      PartsAt(entries, 0, n);
      CentralRecordEnds(entries[0], 0);
      var first := CentralRecord(entries[0], 0);
      assert [] + first == first;
      FirstOctetsOf(locals, directory, end, first);
    }
  }

  /** The limits the reader sets. */
  predicate WithinReaderLimits(entries: seq<Entry>) {
    entries != [] && |entries| <= MAX_ENTRIES && ContentTotal(entries) <= MAX_TOTAL_BYTES
  }

  lemma {:induction false} ContentTotalGrows(entries: seq<Entry>, k: nat)
    requires k <= |entries|
    ensures ContentTotal(entries[..k]) <= ContentTotal(entries)
    ensures k < |entries| ==> ContentTotal(entries[..k + 1]) == ContentTotal(entries[..k]) + |entries[k].content|
    decreases |entries|
  {
    if k < |entries| {
      var init := entries[..|entries| - 1];
      ContentTotalGrows(init, k);
      assert init[..k] == entries[..k];
      assert entries[..k + 1][..k] == entries[..k];
    } else {
      assert entries[..k] == entries;
    }
  }

  /** The reader returns everything exactly when no limit is broken. */
  lemma {:induction false} ReadBackExactly(entries: seq<Entry>, k: nat)
    requires k <= |entries| && k <= MAX_ENTRIES && ContentTotal(entries[..k]) <= MAX_TOTAL_BYTES
    ensures WithinReaderLimits(entries) ==> ReadBack(entries, k, ContentTotal(entries[..k])) == Ok(entries[k..])
    ensures !WithinReaderLimits(entries) ==> ReadBack(entries, k, ContentTotal(entries[..k])).Err?
    decreases |entries| - k
  {
    ContentTotalGrows(entries, k);
    hide ContentTotal;
    if k < |entries| {
      if k + 1 < |entries| {
        ContentTotalGrows(entries, k + 1);
      } else {
        assert entries[..k + 1] == entries;
      }
      if ContentTotal(entries[..k + 1]) <= MAX_TOTAL_BYTES && k + 1 <= MAX_ENTRIES {
        ReadBackExactly(entries, k + 1);
        assert entries[k..] == [entries[k]] + entries[k + 1..];
      }
    } else {
      assert entries[..k] == entries;
      assert k == 0 ==> entries == [];
      assert entries[k..] == [];
    }
  }

  /**
   The round trip: reading a finished archive gives the same names and contents in order exactly when
   the entries keep the reader's limits, and an error otherwise.
   */
  lemma ArchiveRoundTrip(entries: seq<Entry>, library: Library)
    requires Finishable(entries) && KeepsNames(entries, library)
    ensures var read := EntriesFrom(Archive(entries), 0, 0, 0, library);
      && (WithinReaderLimits(entries) ==> read == Ok(entries))
      && (!WithinReaderLimits(entries) ==> read.Err?)
  {
    hide *;
    FinishableMeans(entries);
    NothingAtFirst(entries);
    ArchiveEndsEntries(entries);
    assert entries[..0] == [] && entries[0..] == entries;
    EntriesRead(entries, Archive(entries), 0, 0, library);
    ReadBackExactly(entries, 0);
  }

  /**
   The directory agrees with the local headers: record `k` points at local entry `k`, which starts with
   the local signature and repeats its fields and its name.
   */
  lemma DirectoryAgrees(entries: seq<Entry>, k: nat)
    requires Finishable(entries) && k < |entries|
    ensures Addressable(entries, k)
    ensures RecordRepeats(Archive(entries), |Locals(entries, |entries|)| + |Directory(entries, k)|, entries[k])
    ensures var at := |Locals(entries, |entries|)| + |Directory(entries, k)|;
      Little(Archive(entries)[at + 42..at + 46]) == |Locals(entries, k)|
  {
    hide *;
    FinishableMeans(entries);
    RecordAndEntryLie(entries, k);
    var at := |Locals(entries, |entries|)| + |Directory(entries, k)|;
    RecordRepeatsEntry(Archive(entries), at, |Locals(entries, k)|, entries[k]);
  }

  /** A central record at `at` whose offset addresses a local header with the same fields and name. */
  predicate RecordRepeats(archive: octets, at: nat, e: Entry)
    ensures RecordRepeats(archive, at, e) ==> at + CENTRAL_FIXED <= |archive|
  {
    var n := |e.name|;
    && at + CENTRAL_FIXED + n <= |archive|
    && Little(archive[at..at + 4]) == SIGNATURE_CENTRAL_HEADER
    && var offset := Little(archive[at + 42..at + 46]);
    && offset + LOCAL_FIXED + n <= |archive|
    && Little(archive[offset..offset + 4]) == SIGNATURE_LOCAL_HEADER
    && archive[at + 6..at + 30] == archive[offset + 4..offset + 28]
    && archive[at + 46..at + 46 + n] == e.name
    && archive[offset + 30..offset + 30 + n] == e.name
  }

  /** A record and the entry it points at, wherever they lie. */
  lemma RecordRepeatsEntry(archive: octets, at: nat, offset: nat, e: Entry)
    requires Describable(e) && offset < U32_LIMIT
    requires Lies(archive, at, CentralRecord(e, offset)) && Lies(archive, offset, LocalEntry(e))
    ensures RecordRepeats(archive, at, e)
    ensures Little(archive[at + 42..at + 46]) == offset
  {
    RecordReads(archive, at, offset, e);
    EntryPartsLie(archive, offset, e);
    hide CentralRecord, LocalEntry, SharedFields, Little, Describable, Lies;
  }

  lemma RecordReads(archive: octets, at: nat, offset: nat, e: Entry)
    requires Describable(e) && offset < U32_LIMIT && Lies(archive, at, CentralRecord(e, offset))
    ensures at + CENTRAL_FIXED + |e.name| <= |archive|
    ensures Little(archive[at..at + 4]) == SIGNATURE_CENTRAL_HEADER
    ensures Little(archive[at + 42..at + 46]) == offset
    ensures archive[at + 6..at + 30] == SharedFields(e)
    ensures archive[at + 46..at + 46 + |e.name|] == e.name
  {
    var record := CentralRecord(e, offset);
    hide CentralRecord, SharedFields, Little, LittleEndian16, LittleEndian32, Describable, Lies;
    CentralRecordParts(e, offset);
    LittleOfLittleEndian(SIGNATURE_CENTRAL_HEADER);
    LittleOfLittleEndian(offset);
    SliceOfSlice(archive, at, record, 0, 4);
    SliceOfSlice(archive, at, record, 6, 30);
    SliceOfSlice(archive, at, record, 42, 46);
    SliceOfSlice(archive, at, record, 46, |record|);
  }

  lemma EntryPartsLie(archive: octets, offset: nat, e: Entry)
    requires Describable(e) && Lies(archive, offset, LocalEntry(e))
    ensures offset + LOCAL_FIXED + |e.name| <= |archive|
    ensures Little(archive[offset..offset + 4]) == SIGNATURE_LOCAL_HEADER
    ensures archive[offset + 4..offset + 28] == SharedFields(e)
    ensures archive[offset + 30..offset + 30 + |e.name|] == e.name
  {
    var entry := LocalEntry(e);
    hide LocalEntry, SharedFields, Little, LittleEndian16, LittleEndian32, Describable, Lies;
    LocalEntryParts(e);
    LittleOfLittleEndian(SIGNATURE_LOCAL_HEADER);
    SliceOfSlice(archive, offset, entry, 0, 4);
    SliceOfSlice(archive, offset, entry, 4, 28);
    SliceOfSlice(archive, offset, entry, 30, 30 + |e.name|);
  }

  lemma PlacesInConcatenation(locals: octets, directory: octets, end: octets, before: octets, entry: octets,
                              records: octets, record: octets)
    requires before + entry <= locals && records + record <= directory
    ensures var archive := locals + directory + end;
      Lies(archive, |locals| + |records|, record) && Lies(archive, |before|, entry)
  {
    var archive := locals + directory + end;
    assert locals <= archive;
    PrefixLies(archive, before, entry, locals);
    assert locals + (records + record) <= locals + directory <= archive;
    assert locals + (records + record) == locals + records + record;
    PrefixLies(archive, locals + records, record, locals + directory);
  }

  /** Where record and entry `k` lie in the archive. */
  lemma RecordAndEntryLie(entries: seq<Entry>, k: nat)
    requires Finishable(entries) && k < |entries|
    ensures Addressable(entries, k) && |Locals(entries, k)| < U32_LIMIT && Describable(entries[k])
    ensures var offset := |Locals(entries, k)|;
      && Lies(Archive(entries), |Locals(entries, |entries|)| + |Directory(entries, k)|,
              CentralRecord(entries[k], offset))
      && Lies(Archive(entries), offset, LocalEntry(entries[k]))
  {
    hide *;
    var n := |entries|;
    FinishableMeans(entries);
    PartsAt(entries, k, n);
    var locals, directory := Locals(entries, n), Directory(entries, n);
    PlacesInConcatenation(locals, directory, EndRecord(n, |directory|, |locals|),
                          Locals(entries, k), LocalEntry(entries[k]),
                          Directory(entries, k), CentralRecord(entries[k], |Locals(entries, k)|));
  }

  lemma EndRecordReads(count: nat, directorySize: nat, directoryAt: nat)
    requires count < U16_LIMIT && directorySize < U32_LIMIT && directoryAt < U32_LIMIT
    ensures var end := EndRecord(count, directorySize, directoryAt);
      && |end| == END_SIZE == 22
      && Little(end[0..4]) == SIGNATURE_END_OF_DIRECTORY
      && Little(end[8..10]) == count
      && Little(end[10..12]) == count
      && Little(end[12..16]) == directorySize
      && Little(end[16..20]) == directoryAt
  {
    hide EndRecord, Little, LittleEndian16, LittleEndian32;
    EndRecordParts(count, directorySize, directoryAt);
    LittleOfLittleEndian(SIGNATURE_END_OF_DIRECTORY);
    LittleOfLittleEndian(count);
    LittleOfLittleEndian(directorySize);
    LittleOfLittleEndian(directoryAt);
  }

  /** The end record's counts, size and position are exact, and the directory lies where it says. */
  lemma EndRecordIsExact(entries: seq<Entry>)
    requires Finishable(entries)
    ensures var archive, n := Archive(entries), |entries|;
      && |archive| >= END_SIZE
      && var end := archive[|archive| - END_SIZE..];
      && Little(end[0..4]) == SIGNATURE_END_OF_DIRECTORY
      && Little(end[8..10]) == n
      && Little(end[10..12]) == n
      && Little(end[12..16]) == |Directory(entries, n)|
      && Little(end[16..20]) == |Locals(entries, n)|
      && archive == Locals(entries, n) + Directory(entries, n) + end
  {
    hide *;
    FinishableMeans(entries);
    var n := |entries|;
    var archive, locals, directory := Archive(entries), Locals(entries, n), Directory(entries, n);
    var end := EndRecord(n, |directory|, |locals|);
    EndRecordReads(n, |directory|, |locals|);
    assert archive[|archive| - END_SIZE..] == end;
  }
}
