/** The checksum routines of config/hive/hivesum.c, its streaming contexts, and the header
    checksum that config/hive/hivechek.c repairs. */
module Checksum {
  import ByteMemory
  import CellMap
  import opened Crc32
  import opened RotatingChecksum

  datatype Algorithm = ChecksumXor | ChecksumCrc32 | ChecksumMd5 | ChecksumSha1

  datatype Status = Success | InvalidParameter | NotSupported

  // ----- One-shot checksums

  /** b << (i * 8) */
  function InPlace(b: bv8, i: nat): bv32 {
    if i == 0 then Word(b) else ShiftUp(InPlace(b, i - 1))
  }

  lemma {:induction false} PackSnoc(s: seq<bv8>, b: bv8)
    requires |s| < 4
    ensures Pack(s + [b]) == Or(Pack(s), InPlace(b, |s|))
    decreases |s|
  {
    hide Or, ShiftUp, Word;
    PackStep(s + [b]);
    if s == [] {
      assert (s + [b])[1..] == [];
      OrZero(Word(b));
    } else {
      PackStep(s);
      assert (s + [b])[1..] == s[1..] + [b];
      PackSnoc(s[1..], b);
      ShiftUpOfOr(Pack(s[1..]), InPlace(b, |s| - 1));
      OrAssociates(Word(s[0]), ShiftUp(Pack(s[1..])), InPlace(b, |s|));
    }
  }

  lemma OrZero(x: bv32)
    ensures Or(x, ShiftUp(0)) == x && Or(0, x) == x
  {
  }

  lemma OrAssociates(x: bv32, y: bv32, z: bv32)
    ensures Or(Or(x, y), z) == Or(x, Or(y, z))
  {
  }

  lemma ShiftUpOfOr(x: bv32, y: bv32)
    ensures ShiftUp(Or(x, y)) == Or(ShiftUp(x), ShiftUp(y))
  {
  }

  /** The bytes after the last dword, put together as the low bytes of one. */
  method LastDword(data: seq<bv8>) returns (last: bv32)
    requires |data| < 4
    ensures last == Pack(data)
  {
    hide Pack, Or, InPlace;
    last := 0;
    var i := 0;
    EmptyPack();
    while i < |data|
      invariant 0 <= i <= |data|
      invariant last == Pack(data[..i])
    {
      PackSnoc(data[..i], data[i]);
      assert data[..i + 1] == data[..i] + [data[i]];
      last := Or(last, InPlace(data[i], i));
      i := i + 1;
    }
    assert data[..i] == data;
  }

  /** A checksum value carried on over a buffer: the loop that the one-shot, the streaming and
      the file variant each write out. */
  method AbsorbDwords(start: bv32, data: seq<bv8>) returns (checksum: bv32)
    ensures checksum == Fold(start, data)
  {
    hide Xor, Rotate, Pack;
    checksum := start;
    var count := |data| / 4;
    var i := 0;
    assert data[4 * i..] == data;
    while i < count
      invariant 0 <= i <= count
      invariant Fold(checksum, data[4 * i..]) == Fold(start, data)
    {
      var rest := data[4 * i..];
      assert rest[4..] == data[4 * (i + 1)..];
      checksum := Xor(checksum, Pack(rest[..4]));
      checksum := Rotate(checksum);
      i := i + 1;
    }
    if |data| % 4 > 0 {
      var last := LastDword(data[4 * count..]);
      checksum := Xor(checksum, last);
    } else {
      assert data[4 * count..] == [];
      EmptyPack();
      XorZero(checksum);
    }
  }

  /** HiveCalculateXorChecksum, and HiveCalculateFileChecksum of config/hive/hiveload.c. */
  method XorChecksumOf(data: seq<bv8>) returns (checksum: bv32)
    ensures checksum == XorChecksum(data)
  {
    hide Pack, Fold;
    if |data| == 0 {
      EmptyPack();
      XorZero(0);
      EmptyFold(0);
      return 0;
    }
    checksum := AbsorbDwords(0, data);
  }

  /** The lookup table and its flag, shared by every CRC computation. */
  class CrcTable {
    const entries: array<bv32>
    var initialized: bool

    ghost predicate Valid()
      reads this, entries
    {
      entries.Length == 256 && (initialized ==> forall b: bv8 :: entries[b as int] == Entry(b))
    }

    constructor ()
      ensures Valid() && fresh(entries) && !initialized
    {
      entries := new bv32[256];
      initialized := false;
    }

    method Initialize()
      requires Valid()
      modifies this, entries
      ensures Valid() && initialized
      ensures old(initialized) ==> entries[..] == old(entries[..])
      ensures entries[0x80] == 0xEDB8_8320
    {
      hide Entry, TableSteps, Xor, Half, Odd, Coefficient;
      Generator();
      if initialized {
        return;
      }
      var i := 0;
      while i < 256
        invariant 0 <= i <= 256 && entries.Length == 256 && !initialized
        invariant forall b: bv8 :: (b as int) < i ==> entries[b as int] == Entry(b)
      {
        var crc := EntryLoop(i as bv8);
        entries[i] := crc;
        i := i + 1;
      }
      initialized := true;
    }

    /** HiveCalculateCrc32Checksum. */
    method ChecksumOf(data: seq<bv8>) returns (crc: bv32)
      requires Valid()
      modifies this, entries
      ensures Valid() && (data != [] ==> initialized)
      ensures crc == Crc32Of(data)
    {
      hide Crc32Of, TableBytes, Complement, Entry;
      TableCrcCorrect(data);
      if |data| == 0 {
        EmptyCrc();
        return 0;
      }
      if !initialized {
        Initialize();
      }
      crc := Absorb(0xFFFF_FFFF, data);
      crc := Complement(crc);
    }

    /** The register after the bytes of a buffer, through the table. */
    method Absorb(start: bv32, data: seq<bv8>) returns (crc: bv32)
      requires Valid() && initialized
      ensures crc == TableBytes(start, data)
    {
      hide Xor, DropByte, LowByte, Word, Entry;
      crc := start;
      var i := 0;
      assert data[i..] == data;
      while i < |data|
        invariant 0 <= i <= |data|
        invariant TableBytes(crc, data[i..]) == TableBytes(start, data)
      {
        var index := LowByte(Xor(crc, Word(data[i])));
        assert data[i..][1..] == data[i + 1..];
        crc := Xor(DropByte(crc), entries[index as int]);
        i := i + 1;
      }
    }
  }

  method EntryLoop(i: bv8) returns (crc: bv32)
    ensures crc == Entry(i)
  {
    hide Xor, Half, Odd;
    crc := Word(i);
    var j := 0;
    while j < 8
      invariant 0 <= j <= 8
      invariant TableSteps(crc, 8 - j) == Entry(i)
    {
      if Odd(crc) {
        crc := Xor(Half(crc), POLYNOMIAL);
      } else {
        crc := Half(crc);
      }
      j := j + 1;
    }
  }

  lemma EmptyCrc()
    ensures Complement(TableBytes(0xFFFF_FFFF, [])) == 0
  {
  }

  // ----- Streaming

  predicate Supported(algorithm: Algorithm) {
    algorithm.ChecksumXor? || algorithm.ChecksumCrc32?
  }

  function Preset(algorithm: Algorithm): bv32 {
    if algorithm.ChecksumCrc32? then 0xFFFF_FFFF else 0
  }

  /** The running value after one more chunk. */
  function Absorbed(algorithm: Algorithm, value: bv32, data: seq<bv8>): bv32 {
    match algorithm
    case ChecksumXor => Fold(value, data)
    case ChecksumCrc32 => TableBytes(value, data)
    case _ => value
  }

  function AbsorbedAll(algorithm: Algorithm, chunks: seq<seq<bv8>>): bv32
    decreases |chunks|
  {
    if chunks == [] then Preset(algorithm)
    else Absorbed(algorithm, AbsorbedAll(algorithm, chunks[..|chunks| - 1]), chunks[|chunks| - 1])
  }

  function Joined(chunks: seq<seq<bv8>>): seq<bv8>
    decreases |chunks|
  {
    if chunks == [] then [] else Joined(chunks[..|chunks| - 1]) + chunks[|chunks| - 1]
  }

  function Lengths(chunks: seq<seq<bv8>>): (lens: seq<nat>)
    ensures |lens| == |chunks| && forall i :: 0 <= i < |lens| ==> lens[i] == |chunks[i]|
  {
    seq(|chunks|, i requires 0 <= i < |chunks| => |chunks[i]|)
  }

  /** Every length but the last is whole dwords. */
  predicate WholeDwords(lens: seq<nat>) {
    forall i :: 0 <= i < |lens| - 1 ==> lens[i] % 4 == 0
  }

  /** However a message is cut, streaming it through the table is one pass over it. */
  lemma {:induction false} CrcStreams(chunks: seq<seq<bv8>>)
    ensures AbsorbedAll(ChecksumCrc32, chunks) == TableBytes(0xFFFF_FFFF, Joined(chunks))
    decreases |chunks|
  {
    hide TableByte;
    if chunks != [] {
      var rest := chunks[..|chunks| - 1];
      CrcStreams(rest);
      TableBytesAppend(0xFFFF_FFFF, Joined(rest), chunks[|chunks| - 1]);
    }
  }

  function Total(lens: seq<nat>): nat {
    if lens == [] then 0 else Total(lens[..|lens| - 1]) + lens[|lens| - 1]
  }

  lemma {:induction false} TotalOf(chunks: seq<seq<bv8>>)
    ensures |Joined(chunks)| == Total(Lengths(chunks))
    decreases |chunks|
  {
    if chunks != [] {
      TotalOf(chunks[..|chunks| - 1]);
      assert Lengths(chunks)[..|chunks| - 1] == Lengths(chunks[..|chunks| - 1]);
    }
  }

  lemma {:induction false} TotalAligned(lens: seq<nat>)
    requires forall i :: 0 <= i < |lens| ==> lens[i] % 4 == 0
    ensures Total(lens) % 4 == 0
    decreases |lens|
  {
    if lens != [] {
      TotalAligned(lens[..|lens| - 1]);
    }
  }

  lemma {:induction false} XorStreams(chunks: seq<seq<bv8>>)
    requires WholeDwords(Lengths(chunks))
    ensures AbsorbedAll(ChecksumXor, chunks) == XorChecksum(Joined(chunks))
    decreases |chunks|
  {
    hide Fold;
    if chunks == [] {
      EmptyFold(0);
    } else {
      var rest := chunks[..|chunks| - 1];
      TotalOf(rest);
      TotalAligned(Lengths(rest));
      XorStreams(rest);
      FoldAppend(0, Joined(rest), chunks[|chunks| - 1]);
    }
  }

  /** All chunks of these lengths stream to the rotate-XOR checksum of the whole. */
  ghost predicate StreamsFaithfully(lens: seq<nat>) {
    forall chunks :: Lengths(chunks) == lens ==> Faithful(chunks)
  }

  ghost predicate Faithful(chunks: seq<seq<bv8>>) {
    AbsorbedAll(ChecksumXor, chunks) == XorChecksum(Joined(chunks))
  }

  function ZeroChunks(lens: seq<nat>): (chunks: seq<seq<bv8>>)
    ensures Lengths(chunks) == lens
  {
    seq(|lens|, i requires 0 <= i < |lens| => Zeros(lens[i]))
  }

  lemma {:induction false} ZerosAbsorbed(lens: seq<nat>)
    ensures Joined(ZeroChunks(lens)) == Zeros(Total(lens))
    ensures AbsorbedAll(ChecksumXor, ZeroChunks(lens)) == 0
    decreases |lens|
  {
    hide Fold;
    if lens != [] {
      var last := |lens| - 1;
      assert ZeroChunks(lens)[..last] == ZeroChunks(lens[..last]);
      ZerosAbsorbed(lens[..last]);
      FoldZeros(lens[last]);
    }
  }

  /** One more chunk, streamed and joined. */
  lemma OneMoreChunk(algorithm: Algorithm, chunks: seq<seq<bv8>>, last: seq<bv8>)
    ensures Joined(chunks + [last]) == Joined(chunks) + last
    ensures AbsorbedAll(algorithm, chunks + [last]) == Absorbed(algorithm, AbsorbedAll(algorithm, chunks), last)
  {
    hide Fold, TableBytes;
    assert (chunks + [last])[..|chunks|] == chunks;
  }

  lemma OneMoreLength(chunks: seq<seq<bv8>>, lens: seq<nat>, last: seq<bv8>)
    requires lens != [] && Lengths(chunks) == lens[..|lens| - 1] && |last| == lens[|lens| - 1]
    ensures Lengths(chunks + [last]) == lens
  {
    assert lens == lens[..|lens| - 1] + [lens[|lens| - 1]];
  }

  /** Chunks on which a stream with an inner length off a dword boundary goes wrong. If all
      before the last end off a boundary, zeros and then a one; else the trouble is further
      in, and zeros behind it do not mend it. */
  lemma {:induction false} BreakingChunks(lens: seq<nat>) returns (chunks: seq<seq<bv8>>)
    requires !WholeDwords(lens) && forall i :: 0 <= i < |lens| ==> lens[i] > 0
    ensures Lengths(chunks) == lens && !Faithful(chunks)
    decreases |lens|
  {
    hide Fold, Joined, AbsorbedAll, XorChecksum, Lengths, Total;
    var rest, n := lens[..|lens| - 1], lens[|lens| - 1];
    if Total(rest) % 4 != 0 {
      chunks := ZeroChunks(rest) + [Marked(0, n)];
      ZerosAbsorbed(rest);
      OneMoreChunk(ChecksumXor, ZeroChunks(rest), Marked(0, n));
      OneMoreLength(ZeroChunks(rest), lens, Marked(0, n));
      UnalignedChunkBreaks(Total(rest), n);
    } else {
      OffBoundaryEarlier(lens);
      var before := BreakingChunks(rest);
      chunks := before + [Zeros(n)];
      OneMoreChunk(ChecksumXor, before, Zeros(n));
      OneMoreLength(before, lens, Zeros(n));
      TotalOf(before);
      ZerosDoNotMend(AbsorbedAll(ChecksumXor, before), Joined(before), n);
    }
  }

  lemma TotalLast(lens: seq<nat>)
    requires lens != [] && WholeDwords(lens)
    ensures Total(lens) % 4 == lens[|lens| - 1] % 4
  {
    TotalAligned(lens[..|lens| - 1]);
  }

  lemma OffBoundaryEarlier(lens: seq<nat>)
    requires !WholeDwords(lens) && Total(lens[..|lens| - 1]) % 4 == 0
    ensures !WholeDwords(lens[..|lens| - 1])
  {
    hide Total;
    var rest := lens[..|lens| - 1];
    var k :| 0 <= k < |rest| && lens[k] % 4 != 0;
    assert rest[k] == lens[k];
    if WholeDwords(rest) {
      TotalLast(rest);
    }
  }

  lemma ZerosDoNotMend(c: bv32, data: seq<bv8>, n: nat)
    requires |data| % 4 == 0 && c != XorChecksum(data)
    ensures Fold(c, Zeros(n)) != XorChecksum(data + Zeros(n))
  {
    hide Fold;
    FoldAppend(0, data, Zeros(n));
    if Fold(c, Zeros(n)) == Fold(XorChecksum(data), Zeros(n)) {
      FoldInjective(c, XorChecksum(data), Zeros(n));
    }
  }

  /** Streaming chunks of given lengths is faithful on all data exactly when every one but the
      last is whole dwords. Empty chunks are refused before they reach the value. */
  lemma XorStreamsExactly(lens: seq<nat>)
    requires forall i :: 0 <= i < |lens| ==> lens[i] > 0
    ensures StreamsFaithfully(lens) <==> WholeDwords(lens)
  {
    hide AbsorbedAll, Joined, XorChecksum;
    if WholeDwords(lens) {
      forall chunks | Lengths(chunks) == lens
        ensures Faithful(chunks)
      {
        XorStreams(chunks);
      }
    } else {
      var chunks := BreakingChunks(lens);
    }
  }

  /** A caller's CHECKSUM_CONTEXT; `chunks` remembers what was fed in since initialization. */
  class ChecksumContext {
    const table: CrcTable
    var algorithm: Algorithm
    var currentValue: bv32
    var bytesProcessed: nat
    ghost var chunks: seq<seq<bv8>>

    ghost predicate Valid()
      reads this, table, table.entries
    {
      && table.Valid()
      && (algorithm.ChecksumCrc32? ==> table.initialized)
      && (Supported(algorithm) ==> currentValue == AbsorbedAll(algorithm, chunks))
      && (forall i :: 0 <= i < |chunks| ==> chunks[i] != [])
      && bytesProcessed == |Joined(chunks)| % ByteMemory.TWO_32
    }

    constructor (crcTable: CrcTable)
      ensures table == crcTable
    {
      table := crcTable;
    }

    method Initialize(kind: Algorithm) returns (status: Status)
      requires table.Valid()
      modifies this, table, table.entries
      ensures Valid() && algorithm == kind && chunks == []
      ensures status == if kind.ChecksumXor? || kind.ChecksumCrc32? then Success else NotSupported
    {
      hide Entry;
      algorithm, currentValue, bytesProcessed, chunks := kind, 0, 0, [];
      match kind {
      case ChecksumXor =>
        currentValue := 0;
      case ChecksumCrc32 =>
        if !table.initialized {
          table.Initialize();
        }
        currentValue := 0xFFFF_FFFF;
      case _ =>
        return NotSupported;
      }
      status := Success;
    }

    method Update(data: seq<bv8>) returns (status: Status)
      requires Valid() && |data| < ByteMemory.TWO_32
      modifies this
      ensures Valid() && algorithm == old(algorithm)
      ensures status == if data == [] then InvalidParameter
                        else if algorithm.ChecksumXor? || algorithm.ChecksumCrc32? then Success else NotSupported
      ensures chunks == if status == Success then old(chunks) + [data] else old(chunks)
      ensures status != Success ==> currentValue == old(currentValue) && bytesProcessed == old(bytesProcessed)
      ensures status == Success ==> bytesProcessed == (old(bytesProcessed) + |data|) % 0x1_0000_0000
    {
      hide Fold, TableBytes, Entry, Joined, AbsorbedAll;
      if |data| == 0 {
        return InvalidParameter;
      }
      OneMoreChunk(algorithm, chunks, data);
      match algorithm {
      case ChecksumXor =>
        currentValue := AbsorbDwords(currentValue, data);
      case ChecksumCrc32 =>
        currentValue := table.Absorb(currentValue, data);
      case _ =>
        return NotSupported;
      }
      bytesProcessed := (bytesProcessed + |data|) % ByteMemory.TWO_32;
      chunks := chunks + [data];
      status := Success;
    }

    /** What a finished stream yields: for the CRC the checksum of everything fed in; for the
        rotate-XOR the chunks folded one after the other, which is the checksum of everything
        fed in on all data of these lengths exactly when only the last may end inside a dword. */
    method Finalize() returns (status: Status, checksum: bv32)
      requires Valid()
      ensures status == if algorithm.ChecksumXor? || algorithm.ChecksumCrc32? then Success else NotSupported
      ensures algorithm.ChecksumCrc32? ==> checksum == Crc32Of(Joined(chunks))
      ensures algorithm.ChecksumXor? ==> checksum == AbsorbedAll(ChecksumXor, chunks)
      ensures algorithm.ChecksumXor? && WholeDwords(Lengths(chunks)) ==> checksum == XorChecksum(Joined(chunks))
      ensures StreamsFaithfully(Lengths(chunks)) <==> WholeDwords(Lengths(chunks))
    {
      hide Fold, TableBytes, Entry, Crc32Of, Complement, Joined, AbsorbedAll, WholeDwords, Lengths, XorChecksum;
      XorStreamsExactly(Lengths(chunks));
      checksum := 0;
      match algorithm {
      case ChecksumXor =>
        checksum := currentValue;
        if WholeDwords(Lengths(chunks)) {
          XorStreams(chunks);
        }
      case ChecksumCrc32 =>
        checksum := Complement(currentValue);
        CrcStreams(chunks);
        TableCrcCorrect(Joined(chunks));
      case _ =>
        return NotSupported, checksum;
      }
      status := Success;
    }
  }

  // ----- The header checksum

  /** The place of the Checksum field in a hive header. */
  const CHECKSUM_AT: int := 140

  type Header = h: seq<bv8> | |h| == CellMap.HIVE_HEADER witness Zeros(CellMap.HIVE_HEADER)

  /** v in memory, low byte first. */
  function Unpack(v: bv32): (s: seq<bv8>)
    ensures |s| == 4
  {
    [LowByte(v), LowByte(DropByte(v)), LowByte(DropByte(DropByte(v))), LowByte(DropByte(DropByte(DropByte(v))))]
  }

  function WithDword(h: Header, at: nat, s: seq<bv8>): Header
    requires at + 4 <= CellMap.HIVE_HEADER && |s| == 4
  {
    h[..at] + s + h[at + 4..]
  }

  function StoredChecksum(h: Header): bv32 {
    Pack(h[CHECKSUM_AT..CHECKSUM_AT + 4])
  }

  /** The checksum of a header with its own Checksum field taken as zero. */
  function HeaderChecksum(h: Header): bv32 {
    XorChecksum(WithDword(h, CHECKSUM_AT, Zeros(4)))
  }

  predicate HeaderVerifies(h: Header) {
    StoredChecksum(h) == HeaderChecksum(h)
  }

  function Repaired(h: Header): Header {
    WithDword(h, CHECKSUM_AT, Unpack(HeaderChecksum(h)))
  }

  lemma FourBytes(v: bv32)
    ensures Or(Word(LowByte(v)), ShiftUp(DropByte(v))) == v
    ensures Word(LowByte(DropByte(DropByte(DropByte(v))))) == DropByte(DropByte(DropByte(v)))
  {
  }

  lemma PackUnpack(v: bv32)
    ensures Pack(Unpack(v)) == v
  {
    hide Or, Word, ShiftUp, LowByte, DropByte, Pack;
    var s := Unpack(v);
    PackStep(s);
    PackStep(s[1..]);
    PackStep(s[2..]);
    PackStep(s[3..]);
    assert s[1..][1..] == s[2..] && s[2..][1..] == s[3..] && s[3..][1..] == [];
    EmptyPack();
    FourBytes(v);
    FourBytes(DropByte(v));
    FourBytes(DropByte(DropByte(v)));
    OrZero(Word(LowByte(DropByte(DropByte(DropByte(v))))));
  }

  lemma UnpackPack(s: seq<bv8>)
    requires |s| == 4
    ensures Unpack(Pack(s)) == s
  {
    hide Pack, Unpack;
    PackUnpack(Pack(s));
    PackInjective(Unpack(Pack(s)), s);
  }

  lemma WithDwordAt(h: Header, at: nat, s: seq<bv8>)
    requires at + 4 <= CellMap.HIVE_HEADER && |s| == 4
    ensures WithDword(h, at, s)[at..at + 4] == s
    ensures WithDword(h, at, s)[..at] == h[..at] && WithDword(h, at, s)[at + 4..] == h[at + 4..]
    ensures WithDword(h, at, h[at..at + 4]) == h
  {
  }

  /** Writing the field leaves the computed checksum alone. */
  lemma ChecksumIgnoresField(h: Header, s: seq<bv8>)
    requires |s| == 4
    ensures HeaderChecksum(WithDword(h, CHECKSUM_AT, s)) == HeaderChecksum(h)
    ensures StoredChecksum(WithDword(h, CHECKSUM_AT, s)) == Pack(s)
  {
    hide Pack, XorChecksum;
    WithDwordAt(h, CHECKSUM_AT, s);
  }

  /** Repair makes verification succeed, and changes nothing in a header that verifies. */
  lemma RepairVerifies(h: Header)
    ensures HeaderVerifies(Repaired(h))
    ensures HeaderVerifies(h) ==> Repaired(h) == h
  {
    hide Pack, Unpack, HeaderChecksum;
    ChecksumIgnoresField(h, Unpack(HeaderChecksum(h)));
    PackUnpack(HeaderChecksum(h));
    UnpackPack(h[CHECKSUM_AT..CHECKSUM_AT + 4]);
    WithDwordAt(h, CHECKSUM_AT, h[CHECKSUM_AT..CHECKSUM_AT + 4]);
  }

  /** A header that verifies stops doing so when any one dword of it changes. */
  lemma TamperedHeaderFails(h: Header, at: nat, t: seq<bv8>)
    requires HeaderVerifies(h)
    requires at % 4 == 0 && at + 4 <= CellMap.HIVE_HEADER && |t| == 4 && t != h[at..at + 4]
    ensures !HeaderVerifies(WithDword(h, at, t))
  {
    hide Pack, XorChecksum, HeaderChecksum;
    var s := h[at..at + 4];
    if at == CHECKSUM_AT {
      ChecksumIgnoresField(h, t);
      if Pack(t) == Pack(s) {
        PackInjective(s, t);
      }
    } else {
      ElsewhereKeepsField(h, at, t);
      ElsewhereChangesChecksum(h, at, t);
    }
  }

  lemma ElsewhereKeepsField(h: Header, at: nat, t: seq<bv8>)
    requires at % 4 == 0 && at + 4 <= CellMap.HIVE_HEADER && |t| == 4 && at != CHECKSUM_AT
    ensures StoredChecksum(WithDword(h, at, t)) == StoredChecksum(h)
  {
    hide Pack;
    assert WithDword(h, at, t)[CHECKSUM_AT..CHECKSUM_AT + 4] == h[CHECKSUM_AT..CHECKSUM_AT + 4];
  }

  lemma ElsewhereChangesChecksum(h: Header, at: nat, t: seq<bv8>)
    requires at % 4 == 0 && at + 4 <= CellMap.HIVE_HEADER && |t| == 4 && at != CHECKSUM_AT && t != h[at..at + 4]
    ensures HeaderChecksum(WithDword(h, at, t)) != HeaderChecksum(h)
  {
    hide Pack, XorChecksum;
    var z := WithDword(h, CHECKSUM_AT, Zeros(4));
    var s := h[at..at + 4];
    assert z == z[..at] + s + z[at + 4..];
    assert WithDword(WithDword(h, at, t), CHECKSUM_AT, Zeros(4)) == z[..at] + t + z[at + 4..];
    OneDwordChange(z[..at], s, t, z[at + 4..]);
  }

  /** The header as the linker lays it out: 3728 bytes, the field in bytes 140 to 143. */
  lemma HeaderLayout(h: Header)
    ensures |h| == 3728 && StoredChecksum(h) == Pack(h[140..144])
    ensures HeaderChecksum(h) == XorChecksum(h[..140] + [0, 0, 0, 0] + h[144..])
    ensures Repaired(h)[..140] == h[..140] && Repaired(h)[144..] == h[144..]
    ensures Pack(Repaired(h)[140..144]) == XorChecksum(h[..140] + [0, 0, 0, 0] + h[144..])
  {
    hide Pack, Unpack, XorChecksum;
    assert Zeros(4) == [0, 0, 0, 0];
    WithDwordAt(h, CHECKSUM_AT, Unpack(HeaderChecksum(h)));
    PackUnpack(HeaderChecksum(h));
  }

  /** The header in its buffer. */
  method StoreDword(header: array<bv8>, at: nat, v: bv32)
    requires header.Length == CellMap.HIVE_HEADER && at + 4 <= CellMap.HIVE_HEADER
    modifies header
    ensures header[..] == WithDword(old(header[..]), at, Unpack(v))
  {
    hide LowByte, DropByte;
    header[at] := LowByte(v);
    header[at + 1] := LowByte(DropByte(v));
    header[at + 2] := LowByte(DropByte(DropByte(v)));
    header[at + 3] := LowByte(DropByte(DropByte(DropByte(v))));
  }

  lemma UnpackZero()
    ensures Unpack(0) == Zeros(4)
  {
  }

  /** HiveCalculateChecksum: the field is cleared for the computation and put back. */
  method HeaderChecksumOf(header: array<bv8>) returns (checksum: bv32)
    requires header.Length == CellMap.HIVE_HEADER
    modifies header
    ensures header[..] == old(header[..])
    ensures checksum == HeaderChecksum(old(header[..]))
    ensures header.Length == 3728
    ensures checksum == XorChecksum(header[..140] + [0, 0, 0, 0] + header[144..])
  {
    hide Pack, Unpack, XorChecksum, Zeros;
    ghost var h: Header := header[..];
    HeaderLayout(h);
    var field := header[CHECKSUM_AT..CHECKSUM_AT + 4];
    var original := Pack(field);
    UnpackZero();
    StoreDword(header, CHECKSUM_AT, 0);
    checksum := XorChecksumOf(header[..]);
    UnpackPack(field);
    WithDwordAt(h, CHECKSUM_AT, Zeros(4));
    WithDwordAt(h, CHECKSUM_AT, field);
    StoreDword(header, CHECKSUM_AT, original);
  }

  /** HiveVerifyChecksum. */
  method VerifyHeader(header: array<bv8>) returns (valid: bool)
    requires header.Length == CellMap.HIVE_HEADER
    modifies header
    ensures header[..] == old(header[..])
    ensures valid == HeaderVerifies(old(header[..]))
    ensures header.Length == 3728
    ensures valid <==> Pack(header[140..144]) == XorChecksum(header[..140] + [0, 0, 0, 0] + header[144..])
  {
    hide Pack, HeaderChecksum, XorChecksum;
    SlicesOf(header);
    HeaderLayout(header[..]);
    var stored := Pack(header[CHECKSUM_AT..CHECKSUM_AT + 4]);
    assert header[..][CHECKSUM_AT..CHECKSUM_AT + 4] == header[CHECKSUM_AT..CHECKSUM_AT + 4];
    var calculated := HeaderChecksumOf(header);
    valid := stored == calculated;
  }

  /** HiveRepairChecksum on the header. */
  method RepairHeader(header: array<bv8>)
    requires header.Length == CellMap.HIVE_HEADER
    modifies header
    ensures header[..] == Repaired(old(header[..])) && HeaderVerifies(header[..])
    ensures header.Length == 3728
    ensures header[..140] == old(header[..140]) && header[144..] == old(header[144..])
    ensures Pack(header[140..144]) == XorChecksum(header[..140] + [0, 0, 0, 0] + header[144..])
  {
    hide Pack, HeaderChecksum, WithDword, Unpack, HeaderVerifies, XorChecksum, Repaired;
    ghost var h: Header := header[..];
    SlicesOf(header);
    HeaderLayout(h);
    RepairVerifies(header[..]);
    var checksum := HeaderChecksumOf(header);
    StoreDword(header, CHECKSUM_AT, checksum);
    assert header[..] == Repaired(h) by { RepairedIs(h); }
    SlicesOf(header);
  }

  lemma RepairedIs(h: Header)
    ensures Repaired(h) == WithDword(h, CHECKSUM_AT, Unpack(HeaderChecksum(h)))
  {
  }

  lemma SlicesOf(header: array<bv8>)
    requires header.Length == CellMap.HIVE_HEADER >= 144
    ensures header[..140] == header[..][..140] && header[144..] == header[..][144..]
    ensures header[140..144] == header[..][140..144]
  {
  }
}
