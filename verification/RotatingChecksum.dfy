/** The rotate-XOR checksum of config/hive/hivesum.c as a fold over little-endian dwords:
    its closed form, the errors it always detects, and what streaming it keeps. */
module RotatingChecksum {
  import opened Crc32

  /** One bit to the left, the top bit coming round. */
  function Rotate(x: bv32): bv32 { (x << 1) | (x >> 31) }

  function RotateBy(x: bv32, n: nat): bv32
    decreases n
  {
    if n == 0 then x else RotateBy(Rotate(x), n - 1)
  }

  /** The checksum carried on over a byte string: every dword is XORed in and the result
      rotated, the bytes after the last dword are XORed in as they are. */
  function Fold(c: bv32, data: seq<bv8>): bv32
    decreases |data|
  {
    if |data| < 4 then Xor(c, Pack(data)) else Fold(Rotate(Xor(c, Pack(data[..4]))), data[4..])
  }

  function XorChecksum(data: seq<bv8>): bv32 {
    Fold(0, data)
  }

  // ----- Rotation

  lemma RotateLinear(x: bv32, y: bv32)
    ensures Rotate(Xor(x, y)) == Xor(Rotate(x), Rotate(y))
  {
  }

  lemma RotateInjective(x: bv32, y: bv32)
    requires Rotate(x) == Rotate(y)
    ensures x == y
  {
  }

  lemma {:induction false} RotateByLinear(x: bv32, y: bv32, n: nat)
    ensures RotateBy(Xor(x, y), n) == Xor(RotateBy(x, n), RotateBy(y, n))
    decreases n
  {
    hide Rotate, Xor;
    if n > 0 {
      RotateLinear(x, y);
      RotateByLinear(Rotate(x), Rotate(y), n - 1);
    }
  }

  lemma {:induction false} RotateByInjective(x: bv32, y: bv32, n: nat)
    requires RotateBy(x, n) == RotateBy(y, n)
    ensures x == y
    decreases n
  {
    hide Rotate;
    if n > 0 {
      RotateByInjective(Rotate(x), Rotate(y), n - 1);
      RotateInjective(x, y);
    }
  }

  // ----- The closed form

  /** The XOR of every dword rotated by its distance from the end, and of the last bytes. */
  function Spread(data: seq<bv8>): bv32
    decreases |data|
  {
    if |data| < 4 then Pack(data) else Xor(RotateBy(Pack(data[..4]), |data| / 4), Spread(data[4..]))
  }

  /** Carrying a value in only adds its own rotation. */
  lemma {:induction false} FoldIsSpread(c: bv32, data: seq<bv8>)
    ensures Fold(c, data) == Xor(RotateBy(c, |data| / 4), Spread(data))
    decreases |data|
  {
    hide Rotate, Xor, Pack;
    if |data| >= 4 {
      var w := Pack(data[..4]);
      var n := |data| / 4;
      assert |data[4..]| / 4 == n - 1;
      FoldIsSpread(Rotate(Xor(c, w)), data[4..]);
      RotateByLinear(c, w, n);
      XorAssociates(RotateBy(c, n), RotateBy(w, n), Spread(data[4..]));
    }
  }

  /** The checksum of a byte string is its spread: no order of evaluation is left in it. */
  lemma ChecksumIsSpread(data: seq<bv8>)
    ensures XorChecksum(data) == Spread(data)
  {
    hide Rotate, Xor, Pack, Fold, Spread;
    FoldIsSpread(0, data);
    ZeroRotates(|data| / 4);
    XorZero(Spread(data));
  }

  lemma {:induction false} ZeroRotates(n: nat)
    ensures RotateBy(0, n) == 0
  {
    if n > 0 {
      ZeroRotates(n - 1);
    }
  }

  // ----- One dword

  /** A byte doubled, taking in the top bit of the byte below. */
  function Doubled(b: bv8, below: bv8): bv8 { (b << 1) | (below >> 7) }

  lemma RotateBytes(b0: bv8, b1: bv8, b2: bv8, b3: bv8)
    ensures Rotate(Over(b0, Over(b1, Over(b2, Word(b3)))))
         == Over(Doubled(b0, b3), Over(Doubled(b1, b0), Over(Doubled(b2, b1), Word(Doubled(b3, b2)))))
  {
  }

  lemma PackFour(b0: bv8, b1: bv8, b2: bv8, b3: bv8)
    ensures Pack([b0, b1, b2, b3]) == Over(b0, Over(b1, Over(b2, Word(b3))))
  {
    hide Over;
    var s := [b0, b1, b2, b3];
    assert s[1..] == [b1, b2, b3] && s[1..][1..] == [b2, b3] && s[1..][1..][1..] == [b3];
    PackOne(b3);
    PackStep(s);
    PackStep([b1, b2, b3]);
    PackStep([b2, b3]);
    assert [b1, b2, b3][1..] == [b2, b3] && [b2, b3][1..] == [b3];
  }

  lemma PackOne(b: bv8)
    ensures Pack([b]) == Word(b)
  {
    PackStep([b]);
    assert [b][1..] == [];
  }

  /** A lone dword is turned one bit to the left: each byte doubles and takes in the top bit of
      the byte below it, the lowest that of the highest. */
  lemma OneDwordTurns(b0: bv8, b1: bv8, b2: bv8, b3: bv8)
    ensures XorChecksum([b0, b1, b2, b3])
         == Pack([(b0 << 1) | (b3 >> 7), (b1 << 1) | (b0 >> 7), (b2 << 1) | (b1 >> 7), (b3 << 1) | (b2 >> 7)])
  {
    hide Rotate, Over, Pack, Doubled;
    RotateBytes(b0, b1, b2, b3);
    PackFour(b0, b1, b2, b3);
    PackFour(Doubled(b0, b3), Doubled(b1, b0), Doubled(b2, b1), Doubled(b3, b2));
    DoubledBytes(b0, b3);
    DoubledBytes(b1, b0);
    DoubledBytes(b2, b1);
    DoubledBytes(b3, b2);
    DwordOnly([b0, b1, b2, b3]);
  }

  lemma DoubledBytes(b: bv8, below: bv8)
    ensures Doubled(b, below) == (b << 1) | (below >> 7)
  {
  }

  lemma DwordOnly(s: seq<bv8>)
    requires |s| == 4
    ensures XorChecksum(s) == Rotate(Pack(s))
  {
    hide Rotate, Pack, Xor, Fold;
    assert s + [] == s;
    FoldOneWord(0, s, []);
    XorZero(Pack(s));
    EmptyFold(Rotate(Pack(s)));
  }

  lemma EmptyFold(c: bv32)
    ensures Fold(c, []) == c
  {
    hide Pack, Xor;
    EmptyPack();
    XorZero(c);
  }

  /** Known values: the first byte is the lowest, a dword is turned after it is taken in, and the
      bytes behind the last dword are taken in as they are. */
  lemma KnownChecksums()
    ensures XorChecksum([0x78, 0x56, 0x34, 0x92]) == 0x2468_ACF1
    ensures XorChecksum([0x78, 0x56, 0x34]) == 0x34_5678
    ensures XorChecksum([0x01, 0x00, 0x00, 0x80, 0x05]) == 0x6
  {
    hide Rotate, Over, Xor;
    OneDwordTurns(0x78, 0x56, 0x34, 0x92);
    PackFour(0xF1, 0xAC, 0x68, 0x24);
    KnownWords();
    DwordAndByte();
    ThreeBytes();
  }

  lemma KnownWords()
    ensures Over(0xF1, Over(0xAC, Over(0x68, Word(0x24)))) == 0x2468_ACF1
    ensures Over(0x78, Over(0x56, Word(0x34))) == 0x34_5678
    ensures Rotate(Over(0x01, Over(0x00, Over(0x00, Word(0x80))))) == 0x3
    ensures Xor(0x3, Word(0x05)) == 0x6
  {
  }

  lemma ThreeBytes()
    ensures XorChecksum([0x78, 0x56, 0x34]) == 0x34_5678
  {
    hide Over, Xor;
    var s: seq<bv8> := [0x78, 0x56, 0x34];
    KnownWords();
    PackStep(s);
    PackStep(s[1..]);
    PackOne(0x34);
    assert s[1..][1..] == [0x34];
    XorZero(Pack(s));
  }

  lemma DwordAndByte()
    ensures XorChecksum([0x01, 0x00, 0x00, 0x80, 0x05]) == 0x6
  {
    hide Over, Xor, Rotate, Pack;
    var s: seq<bv8> := [0x01, 0x00, 0x00, 0x80, 0x05];
    assert s[..4] == [0x01, 0x00, 0x00, 0x80] && s[4..] == [0x05];
    PackFour(0x01, 0x00, 0x00, 0x80);
    PackOne(0x05);
    KnownWords();
    XorZero(Pack(s[..4]));
  }

  // ----- Streaming

  /** Whole dwords first, then the rest: the same as all at once. */
  lemma {:induction false} FoldAppend(c: bv32, x: seq<bv8>, y: seq<bv8>)
    requires |x| % 4 == 0
    ensures Fold(c, x + y) == Fold(Fold(c, x), y)
    decreases |x|
  {
    hide Rotate, Xor;
    if x == [] {
      assert x + y == y;
      XorZero(c);
    } else {
      assert (x + y)[..4] == x[..4] && (x + y)[4..] == x[4..] + y;
      FoldAppend(Rotate(Xor(c, Pack(x[..4]))), x[4..], y);
    }
  }

  function Zeros(n: nat): (s: seq<bv8>)
    ensures |s| == n
  {
    seq(n, _ => 0)
  }

  lemma PackZero(n: nat)
    requires n <= 4
    ensures Pack(Zeros(n)) == 0
    decreases n
  {
    if n > 0 {
      assert Zeros(n)[1..] == Zeros(n - 1);
      PackZero(n - 1);
    }
  }

  lemma {:induction false} FoldZeros(n: nat)
    ensures Fold(0, Zeros(n)) == 0
  {
    hide Pack;
    if n < 4 {
      PackZero(n);
    } else {
      assert Zeros(n)[..4] == Zeros(4) && Zeros(n)[4..] == Zeros(n - 4);
      PackZero(4);
      FoldZeros(n - 4);
    }
  }

  lemma {:induction false} SpreadZeros(n: nat)
    ensures Spread(Zeros(n)) == 0
  {
    FoldZeros(n);
    ChecksumIsSpread(Zeros(n));
  }

  /** A one in byte r of a dword, nothing before or after: its place shows in the checksum. */
  function Marked(r: nat, n: nat): (s: seq<bv8>)
    requires r < 4 && n > r
    ensures |s| == n
  {
    Zeros(n)[r := 1]
  }

  function Mark(r: nat): bv32
    requires r < 4
  {
    if r == 0 then 0x1 else if r == 1 then 0x100 else if r == 2 then 0x1_0000 else 0x100_0000
  }

  lemma PackMarked(r: nat, n: nat)
    requires r < n <= 4
    ensures Pack(Marked(r, n)) == Mark(r)
    decreases n
  {
    hide Pack, Over;
    var s := Marked(r, n);
    PackStep(s);
    if r == 0 {
      assert s[1..] == Zeros(n - 1);
      PackZero(n - 1);
      OverMark(0);
    } else {
      assert s[1..] == Marked(r - 1, n - 1);
      PackMarked(r - 1, n - 1);
      OverMark(r);
    }
  }

  lemma PackStep(s: seq<bv8>)
    requires s != []
    ensures Pack(s) == Over(s[0], Pack(s[1..]))
  {
  }

  lemma OverMark(r: nat)
    requires r < 4
    ensures r == 0 ==> Over(1, 0) == Mark(0)
    ensures r > 0 ==> Over(0, Mark(r - 1)) == Mark(r)
  {
  }

  lemma MarkedSpread(r: nat, n: nat)
    requires r < 4 && r < n
    ensures Spread(Marked(r, n)) == RotateBy(Mark(r), n / 4)
  {
    hide Pack, Xor, Mark;
    var s := Marked(r, n);
    if n < 4 {
      PackMarked(r, n);
    } else {
      assert s[..4] == Marked(r, 4) && s[4..] == Zeros(n - 4);
      PackMarked(r, 4);
      SpreadZeros(n - 4);
      XorZero(RotateBy(Mark(r), n / 4));
    }
  }

  lemma MarksDiffer(r: nat)
    requires 0 < r < 4
    ensures Mark(r) != Mark(0) && Rotate(Mark(r)) != Mark(0)
  {
  }

  /** After a chunk that stops inside a dword the streamed value can differ: zeros, and then a
      one in the first byte. */
  lemma UnalignedChunkBreaks(m: nat, n: nat)
    requires m % 4 != 0 && n > 0
    ensures Fold(0, Marked(0, n)) != XorChecksum(Zeros(m) + Marked(0, n))
  {
    hide Fold, Spread, Rotate, Mark, XorChecksum, Xor, Marked;
    var r := m % 4;
    var y := Marked(0, n);
    MarkedSpread(0, n);
    FoldIsChecksum(y);
    ChecksumIsSpread(y);
    MarkedWhole(m, n);
    MarksDiffer(r);
    var d, e := n / 4, (r + n) / 4;
    assert e == d || e == d + 1;
    if RotateBy(Mark(r), e) == RotateBy(Mark(0), d) {
      if e == d {
        RotateByInjective(Mark(r), Mark(0), d);
      } else {
        RotateByInjective(Rotate(Mark(r)), Mark(0), d);
      }
      assert false;
    }
  }

  lemma FoldIsChecksum(y: seq<bv8>)
    ensures Fold(0, y) == XorChecksum(y)
  {
  }

  lemma MarkedSplit(m: nat, n: nat)
    requires m % 4 != 0 && n > 0
    ensures Zeros(m) + Marked(0, n) == Zeros(m - m % 4) + Marked(m % 4, m % 4 + n)
  {
  }

  /** The same mark seen in the whole string. */
  lemma MarkedWhole(m: nat, n: nat)
    requires m % 4 != 0 && n > 0
    ensures XorChecksum(Zeros(m) + Marked(0, n)) == RotateBy(Mark(m % 4), (m % 4 + n) / 4)
  {
    hide Fold, Spread, Rotate, Mark, Xor, RotateBy, Zeros, Marked, XorChecksum;
    var r := m % 4;
    var z := Zeros(m - r);
    MarkedSplit(m, n);
    FoldAppend(0, z, Marked(r, r + n));
    FoldZeros(m - r);
    FoldIsChecksum(z + Marked(r, r + n));
    FoldIsChecksum(Marked(r, r + n));
    ChecksumIsSpread(Marked(r, r + n));
    MarkedSpread(r, r + n);
  }

  // ----- Detection

  /** Different values carried in stay different. */
  lemma FoldInjective(c: bv32, d: bv32, data: seq<bv8>)
    requires Fold(c, data) == Fold(d, data)
    ensures c == d
  {
    hide Fold, Xor, Spread, RotateBy;
    var n := |data| / 4;
    FoldIsSpread(c, data);
    FoldIsSpread(d, data);
    XorCancels(RotateBy(c, n), RotateBy(d, n), Spread(data));
    RotateByInjective(c, d, n);
  }

  /** Changing one dword, or the bytes after the last one, always changes the checksum. */
  lemma OneDwordChange(before: seq<bv8>, s: seq<bv8>, t: seq<bv8>, after: seq<bv8>)
    requires |before| % 4 == 0 && |s| == |t| <= 4 && s != t
    requires |s| == 4 || after == []
    ensures XorChecksum(before + s + after) != XorChecksum(before + t + after)
  {
    hide Fold, Pack;
    var c := Fold(0, before);
    FoldAppend(0, before, s + after);
    FoldAppend(0, before, t + after);
    assert before + s + after == before + (s + after) && before + t + after == before + (t + after);
    if Fold(c, s + after) == Fold(c, t + after) {
      FoldOneWord(c, s, after);
      FoldOneWord(c, t, after);
      FoldInjective(Taken(c, s), Taken(c, t), after);
      TakenInjective(c, s, t);
      PackInjective(s, t);
    }
  }

  /** The value after one dword, or after the bytes that end the data. */
  function Taken(c: bv32, s: seq<bv8>): bv32 {
    if |s| == 4 then Rotate(Xor(c, Pack(s))) else Xor(c, Pack(s))
  }

  lemma FoldOneWord(c: bv32, s: seq<bv8>, after: seq<bv8>)
    requires |s| == 4 || (|s| < 4 && after == [])
    ensures Fold(c, s + after) == Fold(Taken(c, s), after)
  {
    hide Pack, Rotate, Xor;
    if |s| == 4 {
      assert (s + after)[..4] == s && (s + after)[4..] == after;
    } else {
      assert s + after == s;
      XorZero(Taken(c, s));
      EmptyPack();
    }
  }

  lemma EmptyPack()
    ensures Pack([]) == 0
  {
  }

  lemma TakenInjective(c: bv32, s: seq<bv8>, t: seq<bv8>)
    requires |s| == |t| && Taken(c, s) == Taken(c, t)
    ensures Pack(s) == Pack(t)
  {
    hide Pack, Rotate, Xor;
    if |s| == 4 {
      RotateInjective(Xor(c, Pack(s)), Xor(c, Pack(t)));
    }
    XorCommutes(c, Pack(s));
    XorCommutes(c, Pack(t));
    XorCancels(Pack(s), Pack(t), c);
  }
}
