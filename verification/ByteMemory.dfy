/** Byte-addressed memory: little-endian fields and block copies, as the C sources
    read and write them through casted pointers and memcpy. */
module ByteMemory {

  type Byte = x: int | 0 <= x < 256

  /** The contents of a buffer at one moment. */
  type Image = seq<Byte>

  const TWO_16: int := 0x1_0000
  const TWO_31: int := 0x8000_0000
  const TWO_32: int := 0x1_0000_0000
  const TWO_64: int := 0x1_0000_0000_0000_0000

  function Pow256(n: nat): (p: nat)
    ensures p >= 1
  {
    if n == 0 then 1 else 256 * Pow256(n - 1)
  }

  lemma FieldWidths()
    ensures Pow256(2) == TWO_16 && Pow256(4) == TWO_32 && Pow256(8) == TWO_64
  {
    assert Pow256(2) == 256 * Pow256(1);
    assert Pow256(4) == 256 * 256 * Pow256(2);
    assert Pow256(6) == 256 * 256 * Pow256(4);
    assert Pow256(8) == 256 * 256 * Pow256(6);
  }

  /** The unsigned value of a little-endian field. */
  function Decode(bs: Image): (v: nat)
    ensures v < Pow256(|bs|)
  {
    if bs == [] then 0 else bs[0] + 256 * Decode(bs[1..])
  }

  /** The low n bytes of v, least significant first; higher bits are cut off. */
  function Encode(v: nat, n: nat): (bs: Image)
    ensures |bs| == n
  {
    if n == 0 then [] else [v % 256] + Encode(v / 256, n - 1)
  }

  lemma {:induction false} DecodeEncode(v: nat, n: nat)
    ensures v < Pow256(n) ==> Decode(Encode(v, n)) == v
  {
    if n > 0 && v < Pow256(n) {
      assert v / 256 < Pow256(n - 1);
      DecodeEncode(v / 256, n - 1);
      assert Encode(v, n)[1..] == Encode(v / 256, n - 1);
    }
  }

  lemma {:induction false} EncodeDecode(bs: Image)
    ensures Encode(Decode(bs), |bs|) == bs
  {
    if bs != [] {
      EncodeDecode(bs[1..]);
      assert Decode(bs) % 256 == bs[0] && Decode(bs) / 256 == Decode(bs[1..]);
      assert bs == [bs[0]] + bs[1..];
    }
  }

  function ReadU16(m: Image, o: nat): nat
    requires o + 2 <= |m|
  {
    Decode(m[o..o + 2])
  }

  function ReadU32(m: Image, o: nat): nat
    requires o + 4 <= |m|
  {
    Decode(m[o..o + 4])
  }

  function ReadU64(m: Image, o: nat): nat
    requires o + 8 <= |m|
  {
    Decode(m[o..o + 8])
  }

  /** A two's-complement INT32 field. */
  function Signed32(v: nat): int {
    if v >= TWO_31 then v - TWO_32 else v
  }

  function ReadI32(m: Image, o: nat): int
    requires o + 4 <= |m|
  {
    Signed32(ReadU32(m, o))
  }

  lemma DecodeStep(bs: Image)
    requires bs != []
    ensures Decode(bs) == bs[0] + 256 * Decode(bs[1..])
  {
  }

  lemma TwoBytes(m: Image, o: nat)
    requires o + 2 <= |m|
    ensures Decode(m[o..o + 2]) == m[o] + 0x100 * (m[o + 1] as int)
  {
    hide Decode;
    var f := m[o..o + 2];
    DecodeStep(f);
    DecodeStep(f[1..]);
    assert f[1..][1..] == [];
    EmptyField();
  }

  lemma EmptyField()
    ensures Decode([]) == 0
  {
  }

  lemma TwoBytesOn(bs: Image)
    requires |bs| >= 2
    ensures Decode(bs) == Decode(bs[..2]) + 0x1_0000 * Decode(bs[2..])
  {
    hide Decode;
    TwoBytes(bs, 0);
    DecodeStep(bs);
    DecodeStep(bs[1..]);
    DropTwice(bs);
  }

  lemma DropTwice(bs: Image)
    requires |bs| >= 2
    ensures bs[1..][1..] == bs[2..] && bs[1..][0] == bs[1] && bs[0..2] == bs[..2]
  {
  }

  lemma FourBytes(m: Image, o: nat)
    requires o + 4 <= |m|
    ensures Decode(m[o..o + 4])
         == m[o] + 0x100 * (m[o + 1] as int) + 0x1_0000 * (m[o + 2] as int) + 0x100_0000 * (m[o + 3] as int)
  {
    hide Decode;
    var f := m[o..o + 4];
    TwoBytesOn(f);
    assert f[..2] == m[o..o + 2] && f[2..] == m[o + 2..o + 4];
    TwoBytes(m, o);
    TwoBytes(m, o + 2);
  }

  /** The bytes of a field weigh 1, 256, 65536 and so on, and the top bit of an INT32 counts down. */
  lemma LittleEndian(m: Image, o: nat)
    requires o + 4 <= |m|
    ensures ReadU16(m, o) == m[o] + 0x100 * (m[o + 1] as int)
    ensures ReadU32(m, o)
         == m[o] + 0x100 * (m[o + 1] as int) + 0x1_0000 * (m[o + 2] as int) + 0x100_0000 * (m[o + 3] as int)
    ensures ReadI32(m, o) == ReadU32(m, o) - (if m[o + 3] >= 0x80 then 0x1_0000_0000 else 0)
  {
    hide Decode;
    TwoBytes(m, o);
    FourBytes(m, o);
  }

  /** A UINT64 is two UINT32 halves, the low one first. */
  lemma LowHalfFirst(m: Image, o: nat)
    requires o + 8 <= |m|
    ensures ReadU64(m, o) == ReadU32(m, o) + 0x1_0000_0000 * ReadU32(m, o + 4)
  {
    hide Decode;
    var f := m[o..o + 8];
    TwoBytesOn(f);
    TwoBytesOn(f[2..]);
    assert f[2..][2..] == f[4..] == m[o + 4..o + 8];
    FourBytes(m, o);
    TwoBytes(m, o + 2);
    TwoBytes(m, o);
    assert f[..2] == m[o..o + 2] && f[2..][..2] == m[o + 2..o + 4];
  }

  lemma ZerosRead(m: Image, at: nat)
    requires at + 4 <= |m| && forall k :: at <= k < at + 4 ==> m[k] == 0
    ensures ReadI32(m, at) == 0
  {
    var f := m[at..at + 4];
    assert f == [0, 0, 0, 0];
    assert f[1..] == [0, 0, 0] && f[1..][1..] == [0, 0] && f[1..][1..][1..] == [0] && f[1..][1..][1..][1..] == [];
    assert Decode(f[1..][1..]) == 0;
    assert Decode(f) == 0;
  }

  function EncodeI32(v: int): (bs: Image)
    ensures |bs| == 4
    ensures -TWO_31 <= v < TWO_31 ==> Signed32(Decode(bs)) == v
  {
    FieldWidths();
    DecodeEncode(v % TWO_32, 4);
    Encode(v % TWO_32, 4)
  }

  lemma SliceOfSlice(m: Image, from: nat, to: nat, i: nat, j: nat)
    requires from <= to <= |m| && i <= j && from + j <= to
    ensures m[from..to][i..j] == m[from + i..from + j]
  {
    var x, y := m[from..to][i..j], m[from + i..from + j];
    assert |x| == |y| && forall k :: 0 <= k < |x| ==> x[k] == y[k];
  }

  /** m with the bytes bs copied in at offset o. */
  function Blit(m: Image, o: nat, bs: Image): (r: Image)
    requires o + |bs| <= |m|
    ensures |r| == |m|
  {
    m[..o] + bs + m[o + |bs|..]
  }

  lemma BlitAt(m: Image, o: nat, bs: Image)
    requires o + |bs| <= |m|
    ensures forall k :: 0 <= k < |m| ==> Blit(m, o, bs)[k] == if o <= k < o + |bs| then bs[k - o] else m[k]
  {
  }

  /** A copy is seen in full where it went, and nowhere else. */
  lemma BlitSlice(m: Image, o: nat, bs: Image, lo: nat, hi: nat)
    requires o + |bs| <= |m| && lo <= hi <= |m|
    ensures hi <= o || o + |bs| <= lo ==> Blit(m, o, bs)[lo..hi] == m[lo..hi]
    ensures o <= lo && hi <= o + |bs| ==> Blit(m, o, bs)[lo..hi] == bs[lo - o..hi - o]
  {
    var r := Blit(m, o, bs);
    BlitAt(m, o, bs);
    if hi <= o || o + |bs| <= lo {
      assert r[lo..hi] == m[lo..hi];
    }
    if o <= lo && hi <= o + |bs| {
      assert r[lo..hi] == bs[lo - o..hi - o];
    }
  }

  /** memcpy of bs into the buffer at offset o. */
  method CopyIn(a: array<Byte>, o: nat, bs: Image)
    requires o + |bs| <= a.Length
    modifies a
    ensures a[..] == Blit(old(a[..]), o, bs)
  {
    var i := 0;
    while i < |bs|
      invariant 0 <= i <= |bs|
      invariant forall k :: o <= k < o + i ==> a[k] == bs[k - o]
      invariant forall k :: 0 <= k < a.Length && !(o <= k < o + i) ==> a[k] == old(a[k])
    {
      a[o + i] := bs[i];
      i := i + 1;
    }
  }
}
