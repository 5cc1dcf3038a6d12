/** The table-driven CRC-32 of config/hive/hivesum.c against the bit-serial definition:
    the reflected generator of section 3.2.9 of IEEE 802.3, as in section 8 of RFC 1952. */
module Crc32 {

  const POLYNOMIAL: bv32 := 0xEDB8_8320

  // Machine words. The bit-vector facts are all stated about these few operations.

  function Xor(x: bv32, y: bv32): bv32 { x ^ y }
  function Half(x: bv32): bv32 { x >> 1 }
  function Odd(x: bv32): bool { x & 1 == 1 }
  function DropByte(x: bv32): bv32 { x >> 8 }
  function LowByte(x: bv32): bv8 { (x & 0xFF) as bv8 }
  function HighBytes(x: bv32): bv32 { x & 0xFFFF_FF00 }
  function Word(b: bv8): bv32 { b as bv32 }
  function Complement(x: bv32): bv32 { !x }
  function Has(b: bv8, mask: bv8): bool { b & mask != 0 }

  // ----- The definition: one message bit at a time

  /** The register after one message bit. */
  function ShiftBit(crc: bv32, bit: bool): bv32 {
    if Odd(crc) != bit then Xor(Half(crc), POLYNOMIAL) else Half(crc)
  }

  function ShiftBits(crc: bv32, bits: seq<bool>): bv32
    decreases |bits|
  {
    if bits == [] then crc else ShiftBits(ShiftBit(crc, bits[0]), bits[1..])
  }

  /** The bits of a byte in transmission order, least significant first. */
  function ByteBits(b: bv8): seq<bool> {
    [Has(b, 0x01), Has(b, 0x02), Has(b, 0x04), Has(b, 0x08),
     Has(b, 0x10), Has(b, 0x20), Has(b, 0x40), Has(b, 0x80)]
  }

  function MessageBits(data: seq<bv8>): seq<bool> {
    if data == [] then [] else ByteBits(data[0]) + MessageBits(data[1..])
  }

  /** CRC-32 of a message: preset to ones, shifted through every bit, complemented. */
  function Crc32Of(data: seq<bv8>): bv32 {
    Complement(ShiftBits(0xFFFF_FFFF, MessageBits(data)))
  }

  // ----- The table

  function TableStep(crc: bv32): bv32 {
    if Odd(crc) then Xor(Half(crc), POLYNOMIAL) else Half(crc)
  }

  function TableSteps(crc: bv32, n: nat): bv32
    decreases n
  {
    if n == 0 then crc else TableSteps(TableStep(crc), n - 1)
  }

  /** Entry i of the table. */
  function Entry(i: bv8): bv32 {
    TableSteps(Word(i), 8)
  }

  /** One byte through the table. */
  function TableByte(crc: bv32, b: bv8): bv32 {
    Xor(DropByte(crc), Entry(LowByte(Xor(crc, Word(b)))))
  }

  function TableBytes(crc: bv32, data: seq<bv8>): bv32
    decreases |data|
  {
    if data == [] then crc else TableBytes(TableByte(crc, data[0]), data[1..])
  }

  // ----- Words

  lemma XorZero(x: bv32)
    ensures Xor(0, x) == x && Xor(x, 0) == x
  {
  }

  lemma XorCommutes(x: bv32, y: bv32)
    ensures Xor(x, y) == Xor(y, x)
  {
  }

  lemma XorCancels(c: bv32, d: bv32, w: bv32)
    requires Xor(c, w) == Xor(d, w)
    ensures c == d
  {
    assert (c ^ w) ^ w == c && (d ^ w) ^ w == d;
  }

  lemma ComplementCancels(x: bv32, y: bv32)
    requires Complement(x) == Complement(y)
    ensures x == y
  {
    assert !(!x) == x && !(!y) == y;
  }

  lemma ByteAsWord(b: bv8)
    ensures LowByte(Word(b)) == b && DropByte(Word(b)) == 0
  {
  }

  lemma SplitLowByte(x: bv32)
    ensures x == Xor(Word(LowByte(x)), HighBytes(x))
    ensures DropByte(HighBytes(x)) == DropByte(x) && LowByte(HighBytes(x)) == 0
  {
  }

  lemma EightHalves(x: bv32)
    ensures Half(Half(Half(Half(Half(Half(Half(Half(x)))))))) == DropByte(x)
  {
  }

  lemma LowBitsOfByte(w: bv32)
    ensures Has(LowByte(w), 0x01) == Odd(w)
    ensures Has(LowByte(w), 0x02) == Odd(Half(w))
    ensures Has(LowByte(w), 0x04) == Odd(Half(Half(w)))
    ensures Has(LowByte(w), 0x08) == Odd(Half(Half(Half(w))))
  {
  }

  lemma HighBitsOfByte(w: bv32)
    ensures Has(LowByte(w), 0x10) == Odd(Half(Half(Half(Half(w)))))
    ensures Has(LowByte(w), 0x20) == Odd(Half(Half(Half(Half(Half(w))))))
    ensures Has(LowByte(w), 0x40) == Odd(Half(Half(Half(Half(Half(Half(w)))))))
    ensures Has(LowByte(w), 0x80) == Odd(Half(Half(Half(Half(Half(Half(Half(w))))))))
  {
  }

  lemma HalfOfXor(x: bv32, y: bv32)
    ensures Half(Xor(x, y)) == Xor(Half(x), Half(y))
  {
  }

  lemma OddOfXor(x: bv32, y: bv32)
    ensures Odd(Xor(x, y)) == (Odd(x) != Odd(y))
  {
  }

  lemma XorAssociates(a: bv32, b: bv32, c: bv32)
    ensures Xor(Xor(a, b), c) == Xor(a, Xor(b, c))
  {
  }

  lemma XorSelf(a: bv32)
    ensures Xor(a, a) == 0
  {
  }

  lemma XorMoves(a: bv32, b: bv32, p: bv32)
    ensures Xor(Xor(a, p), Xor(b, p)) == Xor(a, b)
    ensures Xor(Xor(a, p), b) == Xor(Xor(a, b), p)
    ensures Xor(a, Xor(b, p)) == Xor(Xor(a, b), p)
  {
    hide Xor;
    XorAssociates(a, b, p);
    XorAssociates(a, p, b);
    XorCommutes(b, p);
    XorAssociates(a, p, Xor(b, p));
    XorAssociates(p, p, b);
    XorSelf(p);
    XorZero(b);
  }

  // ----- Linearity

  lemma StepLinear(x: bv32, y: bv32)
    ensures TableStep(Xor(x, y)) == Xor(TableStep(x), TableStep(y))
  {
    hide Xor, Half, Odd;
    HalfOfXor(x, y);
    OddOfXor(x, y);
    XorMoves(Half(x), Half(y), POLYNOMIAL);
  }

  /** The table is linear over XOR. */
  lemma {:induction false} StepsLinear(x: bv32, y: bv32, n: nat)
    ensures TableSteps(Xor(x, y), n) == Xor(TableSteps(x, n), TableSteps(y, n))
    decreases n
  {
    hide TableStep, Xor;
    if n > 0 {
      StepLinear(x, y);
      StepsLinear(TableStep(x), TableStep(y), n - 1);
    }
  }

  lemma {:induction false} StepsCompose(c: bv32, m: nat, n: nat)
    ensures TableSteps(TableSteps(c, m), n) == TableSteps(c, m + n)
    decreases m
  {
    hide TableStep;
    if m > 0 {
      StepsCompose(TableStep(c), m - 1, n);
    }
  }

  // ----- One byte

  /** Feeding a message bit is XORing it in and stepping; the bits above wait. */
  lemma FeedBit(c: bv32, w: bv32)
    ensures Xor(ShiftBit(c, Odd(w)), Half(w)) == TableStep(Xor(c, w))
  {
    hide Xor, Half, Odd;
    HalfOfXor(c, w);
    OddOfXor(c, w);
    XorMoves(Half(c), Half(w), POLYNOMIAL);
  }

  /** The next n bits of w, least significant first. */
  function LowBits(w: bv32, n: nat): seq<bool>
    decreases n
  {
    if n == 0 then [] else [Odd(w)] + LowBits(Half(w), n - 1)
  }

  function ShiftDown(w: bv32, n: nat): bv32
    decreases n
  {
    if n == 0 then w else ShiftDown(Half(w), n - 1)
  }

  lemma {:induction false} FeedBits(c: bv32, w: bv32, n: nat)
    ensures Xor(ShiftBits(c, LowBits(w, n)), ShiftDown(w, n)) == TableSteps(Xor(c, w), n)
    decreases n
  {
    hide ShiftBit, TableStep, Xor, Half, Odd;
    if n > 0 {
      var bits := LowBits(w, n);
      assert bits[0] == Odd(w) && bits[1..] == LowBits(Half(w), n - 1);
      FeedBit(c, w);
      FeedBits(ShiftBit(c, Odd(w)), Half(w), n - 1);
    }
  }

  lemma TwoLowBits(w: bv32, n: nat)
    requires n >= 2
    ensures LowBits(w, n) == [Odd(w), Odd(Half(w))] + LowBits(Half(Half(w)), n - 2)
    ensures ShiftDown(w, n) == ShiftDown(Half(Half(w)), n - 2)
  {
    hide Half, Odd;
  }

  lemma Flatten(a: bool, b: bool, c: bool, d: bool, e: bool, f: bool, g: bool, h: bool)
    ensures [a, b] + ([c, d] + ([e, f] + ([g, h] + []))) == [a, b, c, d, e, f, g, h]
  {
    Pairs(a, b, c, d, [e, f, g, h]);
    Pairs(e, f, g, h, []);
    assert [e, f, g, h] + [] == [e, f, g, h];
    var all := [a, b, c, d, e, f, g, h];
    assert all[..4] == [a, b, c, d] && all[4..] == [e, f, g, h];
    assert all == all[..4] + all[4..];
  }

  lemma Pairs(a: bool, b: bool, c: bool, d: bool, s: seq<bool>)
    ensures [a, b] + ([c, d] + s) == [a, b, c, d] + s
  {
  }

  lemma NoBits(w: bv32)
    ensures LowBits(w, 0) == [] && ShiftDown(w, 0) == w
  {
  }

  lemma EightLowBits(w: bv32)
    ensures LowBits(w, 8) == ByteBits(LowByte(w))
    ensures ShiftDown(w, 8) == DropByte(w)
  {
    hide Half, Odd, LowByte, Has, DropByte, LowBits, ShiftDown;
    Flatten(Odd(w), Odd(Half(w)), Odd(Half(Half(w))), Odd(Half(Half(Half(w)))), Odd(Half(Half(Half(Half(w))))),
            Odd(Half(Half(Half(Half(Half(w)))))), Odd(Half(Half(Half(Half(Half(Half(w))))))),
            Odd(Half(Half(Half(Half(Half(Half(Half(w)))))))));
    TwoLowBits(w, 8);
    TwoLowBits(Half(Half(w)), 6);
    TwoLowBits(Half(Half(Half(Half(w)))), 4);
    TwoLowBits(Half(Half(Half(Half(Half(Half(w)))))), 2);
    NoBits(Half(Half(Half(Half(Half(Half(Half(Half(w)))))))));
    LowBitsOfByte(w);
    HighBitsOfByte(w);
    EightHalves(w);
  }

  lemma ZeroStep()
    ensures ShiftBit(0, false) == 0 && !Has(0, 0x01) && !Has(0, 0x02) && !Has(0, 0x04) && !Has(0, 0x08)
    ensures !Has(0, 0x10) && !Has(0, 0x20) && !Has(0, 0x40) && !Has(0, 0x80)
  {
  }

  lemma {:induction false} ZeroStays(bits: seq<bool>)
    requires true !in bits
    ensures ShiftBits(0, bits) == 0
    decreases |bits|
  {
    hide ShiftBit;
    ZeroStep();
    if bits != [] {
      ZeroStays(bits[1..]);
    }
  }

  /** A register whose low byte is clear only shifts. */
  lemma ClearByteShifts(x: bv32)
    requires LowByte(x) == 0
    ensures TableSteps(x, 8) == DropByte(x)
  {
    hide TableSteps, ShiftBits, ShiftBit, LowBits, ShiftDown, Xor, DropByte, LowByte, Has;
    FeedBits(0, x, 8);
    EightLowBits(x);
    ZeroStep();
    ZeroStays(ByteBits(0));
    XorZero(x);
    XorZero(DropByte(x));
  }

  /** The table look-up does eight steps at once. */
  lemma TableByteIsSteps(x: bv32)
    ensures TableSteps(x, 8) == Xor(DropByte(x), Entry(LowByte(x)))
  {
    hide TableSteps, Xor, DropByte, LowByte, HighBytes, Word;
    SplitLowByte(x);
    StepsLinear(Word(LowByte(x)), HighBytes(x), 8);
    ClearByteShifts(HighBytes(x));
    XorCommutes(TableSteps(Word(LowByte(x)), 8), DropByte(x));
  }

  lemma LowByteOfXor(c: bv32, w: bv32)
    ensures LowByte(Xor(c, w)) == LowByte(Xor(c, Word(LowByte(w))))
  {
  }

  lemma DropByteOfXor(c: bv32, w: bv32)
    ensures DropByte(Xor(c, w)) == Xor(DropByte(c), DropByte(w))
  {
  }

  /** A word whose low byte is fed after c: the table consumes that byte, the rest waits. */
  lemma FeedByte(c: bv32, w: bv32)
    ensures Xor(TableByte(c, LowByte(w)), DropByte(w)) == TableSteps(Xor(c, w), 8)
  {
    hide TableSteps, Entry, Xor, DropByte, LowByte, Word;
    TableByteIsSteps(Xor(c, w));
    LowByteOfXor(c, w);
    DropByteOfXor(c, w);
    XorMoves(DropByte(c), DropByte(w), Entry(LowByte(Xor(c, w))));
  }

  /** The table takes a byte to the register the eight message bits take it to. */
  lemma TableByteIsBits(c: bv32, b: bv8)
    ensures TableByte(c, b) == ShiftBits(c, ByteBits(b))
  {
    hide TableSteps, TableByte, ShiftBits, ByteBits, LowBits, ShiftDown, Xor, DropByte, LowByte, Word;
    ByteAsWord(b);
    FeedByte(c, Word(b));
    FeedBits(c, Word(b), 8);
    EightLowBits(Word(b));
    XorZero(TableByte(c, b));
    XorZero(ShiftBits(c, ByteBits(b)));
  }

  // ----- Whole messages

  lemma {:induction false} ShiftBitsAppend(c: bv32, x: seq<bool>, y: seq<bool>)
    ensures ShiftBits(c, x + y) == ShiftBits(ShiftBits(c, x), y)
    decreases |x|
  {
    hide ShiftBit;
    if x == [] {
      assert x + y == y;
    } else {
      assert (x + y)[1..] == x[1..] + y;
      ShiftBitsAppend(ShiftBit(c, x[0]), x[1..], y);
    }
  }

  lemma {:induction false} TableIsBits(c: bv32, data: seq<bv8>)
    ensures TableBytes(c, data) == ShiftBits(c, MessageBits(data))
    decreases |data|
  {
    hide ShiftBit, TableByte, ByteBits;
    if data != [] {
      TableByteIsBits(c, data[0]);
      TableIsBits(TableByte(c, data[0]), data[1..]);
      ShiftBitsAppend(c, ByteBits(data[0]), MessageBits(data[1..]));
    }
  }

  /** The table-driven checksum of every byte string is its CRC-32. */
  lemma TableCrcCorrect(data: seq<bv8>)
    ensures Complement(TableBytes(0xFFFF_FFFF, data)) == Crc32Of(data)
  {
    TableIsBits(0xFFFF_FFFF, data);
  }

  // ----- Known values

  lemma EightSteps(x: bv32)
    ensures TableSteps(x, 8)
         == TableStep(TableStep(TableStep(TableStep(TableStep(TableStep(TableStep(TableStep(x))))))))
  {
    hide TableStep;
    StepsCompose(x, 4, 4);
    FourSteps(x);
    FourSteps(TableSteps(x, 4));
  }

  lemma FourSteps(x: bv32)
    ensures TableSteps(x, 4) == TableStep(TableStep(TableStep(TableStep(x))))
  {
    hide TableStep;
    assert TableSteps(x, 4) == TableSteps(TableStep(TableStep(x)), 2);
  }

  /** The generator polynomial is the one of IEEE 802.3: the entry of a single top bit, read from
      bit 31 down, has the terms of x^26 + x^23 + x^22 + x^16 + x^12 + x^11 + x^10 + x^8 + x^7 +
      x^5 + x^4 + x^2 + x + 1 and no others. */
  lemma Generator()
    ensures Entry(0x80) == 0xEDB8_8320
    ensures forall e: nat :: e < 32 ==>
      (Coefficient(Entry(0x80), e) <==> e in {26, 23, 22, 16, 12, 11, 10, 8, 7, 5, 4, 2, 1, 0})
  {
    hide Coefficient;
    EightSteps(Word(0x80));
    HighTerms();
    LowTerms();
  }

  /** The coefficient of x^e in a reflected polynomial. */
  function Coefficient(p: bv32, e: nat): bool
    requires e < 32
  {
    (p >> (31 - e)) & 1 == 1
  }

  lemma HighTerms()
    ensures forall e: nat :: 16 <= e < 32 ==> (Coefficient(0xEDB8_8320, e) <==> e in {26, 23, 22, 16})
  {
  }

  lemma LowTerms()
    ensures forall e: nat :: e < 16 ==>
      (Coefficient(0xEDB8_8320, e) <==> e in {12, 11, 10, 8, 7, 5, 4, 2, 1, 0})
  {
  }

  lemma OneByte(c: bv32, b: bv8)
    ensures TableByte(c, b)
         == TableStep(TableStep(TableStep(TableStep(TableStep(TableStep(TableStep(TableStep(Xor(c, Word(b))))))))))
  {
    hide TableSteps, TableStep, Xor, Word, LowByte, DropByte, Entry, TableByte;
    ByteAsWord(b);
    FeedByte(c, Word(b));
    EightSteps(Xor(c, Word(b)));
    XorZero(TableByte(c, b));
  }

  lemma FirstDigits()
    ensures TableByte(0xFFFF_FFFF, 0x31) == 0x7C23_1048
    ensures TableByte(0x7C23_1048, 0x32) == 0xB0AC_BB32
    ensures TableByte(0xB0AC_BB32, 0x33) == 0x77B7_9C2D
  {
    hide TableByte;
    OneByte(0xFFFF_FFFF, 0x31);
    OneByte(0x7C23_1048, 0x32);
    OneByte(0xB0AC_BB32, 0x33);
  }

  lemma MiddleDigits()
    ensures TableByte(0x77B7_9C2D, 0x34) == 0x641C_1F5C
    ensures TableByte(0x641C_1F5C, 0x35) == 0x340A_C5E3
    ensures TableByte(0x340A_C5E3, 0x36) == 0xF68D_2C9E
  {
    hide TableByte;
    OneByte(0x77B7_9C2D, 0x34);
    OneByte(0x641C_1F5C, 0x35);
    OneByte(0x340A_C5E3, 0x36);
  }

  lemma LastDigits()
    ensures TableByte(0xF68D_2C9E, 0x37) == 0xAFFC_9660
    ensures TableByte(0xAFFC_9660, 0x38) == 0x651F_2550
    ensures TableByte(0x651F_2550, 0x39) == 0x340B_C6D9
  {
    hide TableByte;
    OneByte(0xF68D_2C9E, 0x37);
    OneByte(0xAFFC_9660, 0x38);
    OneByte(0x651F_2550, 0x39);
  }

  /** Registers that follow one another byte by byte. */
  lemma {:induction false} Trail(data: seq<bv8>, registers: seq<bv32>)
    requires |registers| == |data| + 1
    requires forall i :: 0 <= i < |data| ==> TableByte(registers[i], data[i]) == registers[i + 1]
    ensures TableBytes(registers[0], data) == registers[|data|]
    decreases |data|
  {
    hide TableByte;
    if data != [] {
      assert forall i :: 0 <= i < |data[1..]| ==>
        TableByte(registers[1..][i], data[1..][i]) == registers[1..][i + 1] by {
        assert forall i :: 0 <= i < |data[1..]| ==> data[1..][i] == data[i + 1];
      }
      Trail(data[1..], registers[1..]);
    }
  }

  lemma DigitsTrail(data: seq<bv8>)
    requires data == [0x31, 0x32, 0x33, 0x34, 0x35, 0x36, 0x37, 0x38, 0x39]
    ensures TableBytes(0xFFFF_FFFF, data) == 0x340B_C6D9
  {
    hide TableByte;
    FirstDigits();
    MiddleDigits();
    LastDigits();
    Trail(data, [0xFFFF_FFFF, 0x7C23_1048, 0xB0AC_BB32, 0x77B7_9C2D, 0x641C_1F5C,
                 0x340A_C5E3, 0xF68D_2C9E, 0xAFFC_9660, 0x651F_2550, 0x340B_C6D9]);
  }

  /** The check value of the digits 1 to 9: preset, bit order, generator and complement at once. */
  lemma CheckValue()
    ensures Crc32Of([0x31, 0x32, 0x33, 0x34, 0x35, 0x36, 0x37, 0x38, 0x39]) == 0xCBF4_3926
  {
    hide TableBytes, Crc32Of;
    var data := [0x31, 0x32, 0x33, 0x34, 0x35, 0x36, 0x37, 0x38, 0x39];
    DigitsTrail(data);
    TableCrcCorrect(data);
  }

  lemma {:induction false} TableBytesAppend(c: bv32, x: seq<bv8>, y: seq<bv8>)
    ensures TableBytes(c, x + y) == TableBytes(TableBytes(c, x), y)
    decreases |x|
  {
    hide TableByte;
    if x == [] {
      assert x + y == y;
    } else {
      assert (x + y)[1..] == x[1..] + y;
      TableBytesAppend(TableByte(c, x[0]), x[1..], y);
    }
  }

  // ----- Error detection

  lemma StepInjective(x: bv32, y: bv32)
    requires TableStep(x) == TableStep(y)
    ensures x == y
  {
  }

  lemma {:induction false} StepsInjective(x: bv32, y: bv32, n: nat)
    requires TableSteps(x, n) == TableSteps(y, n)
    ensures x == y
    decreases n
  {
    hide TableStep;
    if n > 0 {
      StepsInjective(TableStep(x), TableStep(y), n - 1);
      StepInjective(x, y);
    }
  }

  function Or(x: bv32, y: bv32): bv32 { x | y }
  function ShiftUp(x: bv32): bv32 { x << 8 }

  /** Byte b below the bytes of r. */
  function Over(b: bv8, r: bv32): bv32 { Or(Word(b), ShiftUp(r)) }

  /** Up to four bytes as a little-endian word. */
  function Pack(s: seq<bv8>): bv32 {
    if s == [] then 0 else Over(s[0], Pack(s[1..]))
  }

  lemma OverWord(b: bv8, r: bv32)
    ensures r <= 0xFF_FFFF ==> DropByte(Over(b, r)) == r
    ensures LowByte(Over(b, r)) == b
    ensures r == 0 ==> Over(b, r) <= 0xFF
    ensures r <= 0xFF ==> Over(b, r) <= 0xFFFF
    ensures r <= 0xFFFF ==> Over(b, r) <= 0xFF_FFFF
  {
  }

  ghost predicate PackFits(n: nat, r: bv32) {
    (n == 0 ==> r == 0) && (n == 1 ==> r <= 0xFF) && (n == 2 ==> r <= 0xFFFF) && (n == 3 ==> r <= 0xFF_FFFF)
  }

  lemma OverFits(n: nat, b: bv8, r: bv32)
    requires n <= 3 && PackFits(n, r)
    ensures PackFits(n + 1, Over(b, r)) && LowByte(Over(b, r)) == b && DropByte(Over(b, r)) == r
  {
    hide Over, LowByte, DropByte;
    OverWord(b, r);
  }

  /** A byte string of up to four bytes unpacks byte by byte. */
  lemma {:induction false} PackUnfolds(s: seq<bv8>)
    requires |s| <= 4
    ensures PackFits(|s|, Pack(s))
    ensures s != [] ==> LowByte(Pack(s)) == s[0] && DropByte(Pack(s)) == Pack(s[1..])
    decreases |s|
  {
    hide Over, LowByte, DropByte, PackFits;
    if s == [] {
      EmptyFits();
    } else {
      PackUnfolds(s[1..]);
      OverFits(|s| - 1, s[0], Pack(s[1..]));
    }
  }

  lemma EmptyFits()
    ensures PackFits(0, 0)
  {
  }

  /** At most four bytes act on the register as one word XORed in. */
  lemma {:induction false} TableOfSegment(c: bv32, s: seq<bv8>)
    requires |s| <= 4
    ensures TableBytes(c, s) == TableSteps(Xor(c, Pack(s)), 8 * |s|)
    decreases |s|
  {
    hide TableByte, TableStep, Xor, LowByte, DropByte, Over, PackFits;
    if s == [] {
      XorZero(c);
    } else {
      PackUnfolds(s);
      FeedByte(c, Pack(s));
      TableOfSegment(TableByte(c, s[0]), s[1..]);
      StepsCompose(Xor(c, Pack(s)), 8, 8 * |s[1..]|);
    }
  }

  lemma {:induction false} PackInjective(s: seq<bv8>, t: seq<bv8>)
    requires |s| == |t| <= 4 && Pack(s) == Pack(t)
    ensures s == t
    decreases |s|
  {
    hide Over, LowByte, DropByte, PackFits, Pack;
    if s != [] {
      PackUnfolds(s);
      PackUnfolds(t);
      PackInjective(s[1..], t[1..]);
      assert s == [s[0]] + s[1..] && t == [t[0]] + t[1..];
    }
  }

  lemma {:induction false} RegisterInjective(c: bv32, d: bv32, data: seq<bv8>)
    requires TableBytes(c, data) == TableBytes(d, data)
    ensures c == d
    decreases |data|
  {
    hide TableByte, TableSteps, Xor, LowByte, DropByte, Word;
    if data != [] {
      var w := Word(data[0]);
      RegisterInjective(TableByte(c, data[0]), TableByte(d, data[0]), data[1..]);
      ByteAsWord(data[0]);
      FeedByte(c, w);
      FeedByte(d, w);
      StepsInjective(Xor(c, w), Xor(d, w), 8);
      XorCancels(c, d, w);
    }
  }

  /** An error confined to four consecutive bytes never goes unnoticed. */
  lemma BurstChangesCrc(before: seq<bv8>, s: seq<bv8>, t: seq<bv8>, after: seq<bv8>)
    requires |s| == |t| <= 4 && s != t
    ensures Crc32Of(before + s + after) != Crc32Of(before + t + after)
  {
    hide TableSteps, TableBytes, Pack, Crc32Of, Xor, Complement;
    var c := TableBytes(0xFFFF_FFFF, before);
    TableCrcCorrect(before + s + after);
    TableCrcCorrect(before + t + after);
    TableBytesAppend(0xFFFF_FFFF, before + s, after);
    TableBytesAppend(0xFFFF_FFFF, before + t, after);
    TableBytesAppend(0xFFFF_FFFF, before, s);
    TableBytesAppend(0xFFFF_FFFF, before, t);
    if Crc32Of(before + s + after) == Crc32Of(before + t + after) {
      ComplementCancels(TableBytes(0xFFFF_FFFF, before + s + after), TableBytes(0xFFFF_FFFF, before + t + after));
      RegisterInjective(TableBytes(c, s), TableBytes(c, t), after);
      TableOfSegment(c, s);
      TableOfSegment(c, t);
      StepsInjective(Xor(c, Pack(s)), Xor(c, Pack(t)), 8 * |s|);
      XorCommutes(c, Pack(s));
      XorCommutes(c, Pack(t));
      XorCancels(Pack(s), Pack(t), c);
      PackInjective(s, t);
    }
  }
}
