/** Base relocation of a loaded PE image: NtPeApplyRelocations of config/ntcore/pe.c, with the
    block layout of "The .reloc Section (Image Only)" of the Microsoft PE Format specification. */
module PeRelocation {
  import opened ByteMemory

  const BLOCK_HEADER: int := 8
  const REL_DIR64: int := 10

  /** The base relocation directory of the headers. */
  datatype Directory = Directory(address: nat, size: nat)

  // ----- What the directory names

  function EntryType(e: nat): nat { e / 0x1000 }
  function EntryOffset(e: nat): nat { e % 0x1000 }

  function BlockPage(m: Image, b: nat): nat
    requires b + BLOCK_HEADER <= |m|
  {
    ReadU32(m, b)
  }

  function BlockSize(m: Image, b: nat): nat
    requires b + BLOCK_HEADER <= |m|
  {
    ReadU32(m, b + 4)
  }

  /** The walk from byte `parsed` on meets whole blocks inside the image until it stops. */
  predicate WellFormed(m: Image, d: Directory, parsed: nat)
    decreases if parsed < d.size then d.size - parsed else 0
  {
    parsed < d.size ==>
      && d.address + parsed + BLOCK_HEADER <= |m|
      && var size := BlockSize(m, d.address + parsed);
         size == 0 || (size >= BLOCK_HEADER && d.address + parsed + size <= |m| && WellFormed(m, d, parsed + size))
  }

  /** One past the last byte the walk reads. */
  function WalkEnd(m: Image, d: Directory, parsed: nat): (end: nat)
    requires WellFormed(m, d, parsed)
    ensures end >= d.address + parsed
    ensures parsed < d.size ==> end >= d.address + parsed + BLOCK_HEADER
    decreases if parsed < d.size then d.size - parsed else 0
  {
    if parsed >= d.size then d.address + parsed
    else
      var size := BlockSize(m, d.address + parsed);
      if size == 0 then d.address + parsed + BLOCK_HEADER else WalkEnd(m, d, parsed + size)
  }

  /** The target of the entry at `at` of the block at b, if it is a DIR64 entry. */
  function EntrySlot(m: Image, b: nat, at: nat): seq<nat>
    requires b + BLOCK_HEADER <= |m| && at + 2 <= |m|
  {
    var e := ReadU16(m, at);
    if EntryType(e) == REL_DIR64 then [BlockPage(m, b) + EntryOffset(e)] else []
  }

  /** The targets of the DIR64 entries i to n of the block at b. */
  function BlockSlots(m: Image, b: nat, i: nat, n: nat): seq<nat>
    requires i <= n && b + BLOCK_HEADER + 2 * n <= |m|
    decreases n - i
  {
    if i == n then [] else EntrySlot(m, b, b + BLOCK_HEADER + 2 * i) + BlockSlots(m, b, i + 1, n)
  }

  function EntryCount(size: nat): nat
    requires size >= BLOCK_HEADER
  {
    (size - BLOCK_HEADER) / 2
  }

  /** Every address the directory asks to relocate, in walking order. */
  function Slots(m: Image, d: Directory, parsed: nat): seq<nat>
    requires WellFormed(m, d, parsed)
    decreases if parsed < d.size then d.size - parsed else 0
  {
    if parsed >= d.size then []
    else
      var b := d.address + parsed;
      var size := BlockSize(m, b);
      if size == 0 then [] else BlockSlots(m, b, 0, EntryCount(size)) + Slots(m, d, parsed + size)
  }

  // ----- A directory as a linker writes it

  datatype Entry = Entry(kind: nat, offset: nat)

  datatype Block = Block(page: nat, entries: seq<Entry>)

  /** What the 32-bit and 16-bit fields can hold. */
  predicate Writable(b: Block) {
    && b.page < TWO_32 && 8 + 2 * |b.entries| < TWO_32
    && forall i :: 0 <= i < |b.entries| ==> b.entries[i].kind < 16 && b.entries[i].offset < 4096
  }

  /** Type in the high four bits, offset in the low twelve. */
  function EntryBytes(es: seq<Entry>): (bytes: Image)
    ensures |bytes| == 2 * |es|
  {
    if es == [] then [] else Encode(es[0].kind * 4096 + es[0].offset, 2) + EntryBytes(es[1..])
  }

  function BlockBytes(b: Block): (bytes: Image)
    ensures |bytes| == 8 + 2 * |b.entries|
  {
    Encode(b.page, 4) + Encode(8 + 2 * |b.entries|, 4) + EntryBytes(b.entries)
  }

  function DirectoryBytes(bs: seq<Block>): Image {
    if bs == [] then [] else BlockBytes(bs[0]) + DirectoryBytes(bs[1..])
  }

  /** The addresses of the entries of type 10. */
  function Targets(page: nat, es: seq<Entry>): seq<nat> {
    if es == [] then []
    else (if es[0].kind == 10 then [page + es[0].offset] else []) + Targets(page, es[1..])
  }

  function AllTargets(bs: seq<Block>): seq<nat> {
    if bs == [] then [] else Targets(bs[0].page, bs[0].entries) + AllTargets(bs[1..])
  }

  lemma {:induction false} EntryBytesAt(es: seq<Entry>, i: nat)
    requires i < |es|
    ensures EntryBytes(es)[2 * i..2 * i + 2] == Encode(es[i].kind * 4096 + es[i].offset, 2)
    decreases i
  {
    hide Encode;
    var rest := EntryBytes(es[1..]);
    if i > 0 {
      EntryBytesAt(es[1..], i - 1);
      assert EntryBytes(es)[2 * i..2 * i + 2] == rest[2 * (i - 1)..2 * (i - 1) + 2];
    }
  }

  /** The parts of a block that stands at offset b. */
  lemma BlockParts(m: Image, b: nat, block: Block)
    requires b + 8 + 2 * |block.entries| <= |m| && Writable(block)
    requires m[b..b + 8 + 2 * |block.entries|] == BlockBytes(block)
    ensures BlockPage(m, b) == block.page && BlockSize(m, b) == 8 + 2 * |block.entries|
    ensures forall i :: 0 <= i < |block.entries| ==>
      m[b + 8 + 2 * i..b + 8 + 2 * i + 2] == Encode(block.entries[i].kind * 4096 + block.entries[i].offset, 2)
  {
    hide Encode, Decode, EntryBytes;
    var n := |block.entries|;
    var all, page, size := BlockBytes(block), Encode(block.page, 4), Encode(8 + 2 * n, 4);
    FieldWidths();
    DecodeEncode(block.page, 4);
    DecodeEncode(8 + 2 * n, 4);
    assert all[0..4] == page && all[4..8] == size && all[8..8 + 2 * n] == EntryBytes(block.entries);
    SliceOfSlice(m, b, b + 8 + 2 * n, 0, 4);
    SliceOfSlice(m, b, b + 8 + 2 * n, 4, 8);
    SliceOfSlice(m, b, b + 8 + 2 * n, 8, 8 + 2 * n);
    forall i | 0 <= i < n
      ensures m[b + 8 + 2 * i..b + 8 + 2 * i + 2]
           == Encode(block.entries[i].kind * 4096 + block.entries[i].offset, 2)
    {
      EntryBytesAt(block.entries, i);
      SliceOfSlice(m, b + 8, b + 8 + 2 * n, 2 * i, 2 * i + 2);
    }
  }

  lemma EntryParts(m: Image, b: nat, at: nat, e: Entry)
    requires b + BLOCK_HEADER <= |m| && at + 2 <= |m| && e.kind < 16 && e.offset < 4096
    requires m[at..at + 2] == Encode(e.kind * 4096 + e.offset, 2)
    ensures EntrySlot(m, b, at) == if e.kind == 10 then [BlockPage(m, b) + e.offset] else []
  {
    hide Encode, Decode, BlockPage;
    FieldWidths();
    DecodeEncode(e.kind * 4096 + e.offset, 2);
  }

  lemma NextTarget(page: nat, es: seq<Entry>, i: nat)
    requires i <= |es|
    ensures Targets(page, es[i..])
         == if i == |es| then []
            else (if es[i].kind == 10 then [page + es[i].offset] else []) + Targets(page, es[i + 1..])
  {
    if i < |es| {
      assert es[i..][1..] == es[i + 1..];
    }
  }

  lemma EntryOf(m: Image, b: nat, block: Block, i: nat)
    requires b + 8 + 2 * |block.entries| <= |m| && Writable(block) && i < |block.entries|
    requires m[b..b + 8 + 2 * |block.entries|] == BlockBytes(block)
    ensures EntrySlot(m, b, b + 8 + 2 * i)
         == if block.entries[i].kind == 10 then [block.page + block.entries[i].offset] else []
  {
    hide Encode, EntrySlot, BlockPage, BlockSize, BlockBytes;
    BlockParts(m, b, block);
    EntryParts(m, b, b + 8 + 2 * i, block.entries[i]);
  }

  lemma {:induction false} BlockReadsBack(m: Image, b: nat, block: Block, i: nat)
    requires b + 8 + 2 * |block.entries| <= |m| && Writable(block) && i <= |block.entries|
    requires m[b..b + 8 + 2 * |block.entries|] == BlockBytes(block)
    ensures BlockSlots(m, b, i, |block.entries|) == Targets(block.page, block.entries[i..])
    decreases |block.entries| - i
  {
    hide Encode, EntrySlot, BlockPage, BlockSize, BlockBytes, Targets, Writable;
    NextTarget(block.page, block.entries, i);
    if i < |block.entries| {
      EntryOf(m, b, block, i);
      BlockReadsBack(m, b, block, i + 1);
    }
  }

  /** A directory written block by block is walked block by block: its slots are the targets of
      the entries of type 10, in order, and no others. */
  lemma {:induction false} DirectoryReadsBack(m: Image, d: Directory, parsed: nat, bs: seq<Block>)
    requires parsed <= d.size && d.address + d.size <= |m|
    requires forall b :: b in bs ==> b.page < TWO_32 && 8 + 2 * |b.entries| < TWO_32
    requires forall b, e :: b in bs && e in b.entries ==> e.kind < 16 && e.offset < 4096
    requires m[d.address + parsed..d.address + d.size] == DirectoryBytes(bs)
    ensures WellFormed(m, d, parsed) && Slots(m, d, parsed) == AllTargets(bs)
    decreases |bs|
  {
    hide BlockBytes, BlockSize, BlockSlots, Targets, Writable;
    if bs != [] {
      var n := |bs[0].entries|;
      assert bs[0] in bs && Writable(bs[0]) by {
        FirstWritable(bs);
      }
      FirstBlock(m, d.address + parsed, d.address + d.size, bs);
      BlockParts(m, d.address + parsed, bs[0]);
      BlockReadsBack(m, d.address + parsed, bs[0], 0);
      assert bs[0].entries[0..] == bs[0].entries;
      DirectoryReadsBack(m, d, parsed + 8 + 2 * n, bs[1..]);
    }
  }

  lemma FirstWritable(bs: seq<Block>)
    requires bs != []
    requires forall b :: b in bs ==> b.page < TWO_32 && 8 + 2 * |b.entries| < TWO_32
    requires forall b, e :: b in bs && e in b.entries ==> e.kind < 16 && e.offset < 4096
    ensures Writable(bs[0])
  {
    assert forall i :: 0 <= i < |bs[0].entries| ==> bs[0].entries[i] in bs[0].entries;
  }

  lemma FirstBlock(m: Image, b: nat, end: nat, bs: seq<Block>)
    requires bs != [] && b <= end <= |m| && m[b..end] == DirectoryBytes(bs)
    ensures var n := 8 + 2 * |bs[0].entries|;
      b + n <= end && m[b..b + n] == BlockBytes(bs[0]) && m[b + n..end] == DirectoryBytes(bs[1..])
  {
    hide BlockBytes;
    var n, all := 8 + 2 * |bs[0].entries|, DirectoryBytes(bs);
    assert all[0..n] == BlockBytes(bs[0]) && all[n..|all|] == DirectoryBytes(bs[1..]);
    SliceOfSlice(m, b, end, 0, n);
    SliceOfSlice(m, b, end, n, |all|);
  }

  // ----- What relocation does

  /** delta added to the 64-bit word at s, modulo 2^64. */
  function AddAt(m: Image, s: nat, delta: nat): (r: Image)
    requires s + 8 <= |m|
    ensures |r| == |m|
  {
    Blit(m, s, Encode((ReadU64(m, s) + delta) % TWO_64, 8))
  }

  predicate InImage(slots: seq<nat>, size: nat) {
    forall i :: 0 <= i < |slots| ==> slots[i] + 8 <= size
  }

  function Relocated(m: Image, slots: seq<nat>, delta: nat): (r: Image)
    requires InImage(slots, |m|)
    ensures |r| == |m|
    decreases |slots|
  {
    if slots == [] then m
    else
      var n := |slots| - 1;
      AddAt(Relocated(m, slots[..n], delta), slots[n], delta)
  }

  predicate Disjoint(s: nat, t: nat) {
    s + 8 <= t || t + 8 <= s
  }

  predicate AllDisjoint(slots: seq<nat>) {
    forall i, j :: 0 <= i < j < |slots| ==> Disjoint(slots[i], slots[j])
  }

  predicate Touched(slots: seq<nat>, k: nat) {
    exists i :: 0 <= i < |slots| && slots[i] <= k < slots[i] + 8
  }

  lemma AddAtReads(m: Image, s: nat, delta: nat)
    requires s + 8 <= |m|
    ensures ReadU64(AddAt(m, s, delta), s) == (ReadU64(m, s) + delta) % TWO_64
    ensures forall k :: 0 <= k < |m| && !(s <= k < s + 8) ==> AddAt(m, s, delta)[k] == m[k]
  {
    hide Encode, Decode;
    var v := (ReadU64(m, s) + delta) % TWO_64;
    FieldWidths();
    DecodeEncode(v, 8);
    BlitAt(m, s, Encode(v, 8));
    BlitSlice(m, s, Encode(v, 8), s, s + 8);
  }

  lemma SameWord(m: Image, r: Image, s: nat)
    requires s + 8 <= |m| == |r| && forall k :: s <= k < s + 8 ==> m[k] == r[k]
    ensures ReadU64(m, s) == ReadU64(r, s)
  {
    assert m[s..s + 8] == r[s..s + 8];
  }

  lemma LastIsAlone(slots: seq<nat>, k: nat)
    requires slots != [] && AllDisjoint(slots)
    requires slots[|slots| - 1] <= k < slots[|slots| - 1] + 8
    ensures !Touched(slots[..|slots| - 1], k)
  {
    assert forall j :: 0 <= j < |slots| - 1 ==> Disjoint(slots[j], slots[|slots| - 1]);
  }

  /** Over disjoint slots, relocation adds the delta to every slot and leaves every other byte. */
  lemma {:induction false} RelocatedExactly(m: Image, slots: seq<nat>, delta: nat)
    requires InImage(slots, |m|) && AllDisjoint(slots)
    ensures forall i :: 0 <= i < |slots| ==>
      ReadU64(Relocated(m, slots, delta), slots[i]) == (ReadU64(m, slots[i]) + delta) % TWO_64
    ensures forall k :: 0 <= k < |m| && !Touched(slots, k) ==> Relocated(m, slots, delta)[k] == m[k]
    decreases |slots|
  {
    hide AddAt, ReadU64;
    if slots != [] {
      var n := |slots| - 1;
      var rest, r := Relocated(m, slots[..n], delta), Relocated(m, slots, delta);
      RelocatedExactly(m, slots[..n], delta);
      AddAtReads(rest, slots[n], delta);
      forall i | 0 <= i < |slots|
        ensures ReadU64(r, slots[i]) == (ReadU64(m, slots[i]) + delta) % TWO_64
      {
        if i < n {
          assert Disjoint(slots[i], slots[n]);
          SameWord(rest, r, slots[i]);
          assert slots[..n][i] == slots[i];
        } else {
          forall k | slots[n] <= k < slots[n] + 8
            ensures rest[k] == m[k]
          {
            LastIsAlone(slots, k);
          }
          SameWord(rest, m, slots[n]);
        }
      }
      forall k | 0 <= k < |m| && !Touched(slots, k)
        ensures r[k] == m[k]
      {
        assert !(slots[n] <= k < slots[n] + 8);
        assert forall i :: 0 <= i < n ==> slots[..n][i] == slots[i];
        assert !Touched(slots[..n], k);
      }
    }
  }

  // ----- Composition

  lemma SameBytes(m: Image, r: Image, s: nat, k: nat)
    requires s + 8 <= |m| == |r| && ReadU64(m, s) == ReadU64(r, s) && s <= k < s + 8
    ensures m[k] == r[k]
  {
    hide Encode, Decode;
    EncodeDecode(m[s..s + 8]);
    EncodeDecode(r[s..s + 8]);
    assert m[s..s + 8][k - s] == r[s..s + 8][k - s];
  }

  /** An image is settled by its slots and the bytes outside them. */
  lemma Settled(m: Image, r: Image, slots: seq<nat>)
    requires |m| == |r| && InImage(slots, |m|)
    requires forall i :: 0 <= i < |slots| ==> ReadU64(m, slots[i]) == ReadU64(r, slots[i])
    requires forall k :: 0 <= k < |m| && !Touched(slots, k) ==> m[k] == r[k]
    ensures m == r
  {
    hide ReadU64;
    forall k | 0 <= k < |m|
      ensures m[k] == r[k]
    {
      if Touched(slots, k) {
        var i :| 0 <= i < |slots| && slots[i] <= k < slots[i] + 8;
        SameBytes(m, r, slots[i], k);
      }
    }
  }

  /** Deltas add up modulo 2^64. */
  lemma RelocatedComposes(m: Image, slots: seq<nat>, x: nat, y: nat)
    requires InImage(slots, |m|) && AllDisjoint(slots)
    ensures Relocated(Relocated(m, slots, x), slots, y) == Relocated(m, slots, (x + y) % TWO_64)
  {
    hide ReadU64, Relocated, Touched, Disjoint;
    RelocatedExactly(m, slots, x);
    RelocatedExactly(Relocated(m, slots, x), slots, y);
    RelocatedExactly(m, slots, (x + y) % TWO_64);
    forall i | 0 <= i < |slots|
      ensures ReadU64(Relocated(Relocated(m, slots, x), slots, y), slots[i])
           == ReadU64(Relocated(m, slots, (x + y) % TWO_64), slots[i])
    {
      AddsUp(ReadU64(m, slots[i]), x, y);
    }
    Settled(Relocated(Relocated(m, slots, x), slots, y), Relocated(m, slots, (x + y) % TWO_64), slots);
  }

  lemma AddsUp(v: nat, x: nat, y: nat)
    ensures ((v + x) % TWO_64 + y) % TWO_64 == (v + (x + y) % TWO_64) % TWO_64
  {
  }

  lemma RelocatedByZero(m: Image, slots: seq<nat>)
    requires InImage(slots, |m|) && AllDisjoint(slots)
    ensures Relocated(m, slots, 0) == m
  {
    hide ReadU64, Relocated, Touched, Disjoint;
    RelocatedExactly(m, slots, 0);
    forall i | 0 <= i < |slots|
      ensures ReadU64(Relocated(m, slots, 0), slots[i]) == ReadU64(m, slots[i])
    {
      WordBound(m, slots[i]);
    }
    Settled(Relocated(m, slots, 0), m, slots);
  }

  lemma WordBound(m: Image, s: nat)
    requires s + 8 <= |m|
    ensures ReadU64(m, s) % TWO_64 == ReadU64(m, s)
  {
    hide Decode;
    FieldWidths();
  }

  // ----- The directory survives

  predicate SameFrom(m: Image, r: Image, lo: nat, hi: nat) {
    |m| == |r| && hi <= |m| && forall k :: lo <= k < hi ==> m[k] == r[k]
  }

  lemma SameHeader(m: Image, r: Image, b: nat, hi: nat)
    requires SameFrom(m, r, b, hi) && b + BLOCK_HEADER <= hi
    ensures BlockPage(m, b) == BlockPage(r, b) && BlockSize(m, b) == BlockSize(r, b)
  {
    assert m[b..b + 4] == r[b..b + 4] && m[b + 4..b + 8] == r[b + 4..b + 8];
  }

  lemma SameEntry(m: Image, r: Image, b: nat, at: nat, hi: nat)
    requires SameFrom(m, r, b, hi) && b + BLOCK_HEADER <= at && at + 2 <= hi
    ensures at + 2 <= |m| == |r| && EntrySlot(m, b, at) == EntrySlot(r, b, at)
  {
    hide Decode, BlockPage, BlockSize;
    SameHeader(m, r, b, hi);
    assert m[at..at + 2] == r[at..at + 2];
  }

  lemma {:induction false} SameBlockSlots(m: Image, r: Image, b: nat, i: nat, n: nat, hi: nat)
    requires i <= n && b + BLOCK_HEADER + 2 * n <= hi <= |m| == |r| && SameFrom(m, r, b, hi)
    ensures BlockSlots(m, b, i, n) == BlockSlots(r, b, i, n)
    decreases n - i
  {
    hide EntrySlot, SameFrom;
    if i < n {
      SameEntry(m, r, b, b + BLOCK_HEADER + 2 * i, hi);
      SameBlockSlots(m, r, b, i + 1, n, hi);
    }
  }

  /** The walk never reads past its end, whole blocks included. */
  lemma {:induction false} WalkEndInside(m: Image, d: Directory, parsed: nat)
    requires WellFormed(m, d, parsed)
    ensures parsed < d.size ==> WalkEnd(m, d, parsed) <= |m|
    ensures parsed < d.size ==> d.address + parsed + BlockSize(m, d.address + parsed) <= WalkEnd(m, d, parsed)
    decreases if parsed < d.size then d.size - parsed else 0
  {
    hide BlockSize;
    if parsed < d.size && BlockSize(m, d.address + parsed) > 0 {
      WalkEndInside(m, d, parsed + BlockSize(m, d.address + parsed));
    }
  }

  lemma {:induction false} SameWalk(m: Image, r: Image, d: Directory, parsed: nat)
    requires WellFormed(m, d, parsed) && |m| == |r|
    requires parsed < d.size ==> SameFrom(m, r, d.address + parsed, WalkEnd(m, d, parsed))
    ensures WellFormed(r, d, parsed)
    ensures Slots(r, d, parsed) == Slots(m, d, parsed) && WalkEnd(r, d, parsed) == WalkEnd(m, d, parsed)
    decreases if parsed < d.size then d.size - parsed else 0
  {
    hide BlockSize, BlockSlots;
    if parsed < d.size {
      var b := d.address + parsed;
      var hi := WalkEnd(m, d, parsed);
      var size := BlockSize(m, b);
      SameHeader(m, r, b, hi);
      WalkEndInside(m, d, parsed);
      if size > 0 {
        SameBlockSlots(m, r, b, 0, EntryCount(size), hi);
        SameWalk(m, r, d, parsed + size);
      }
    }
  }

  /** Whole blocks, slots inside the image, apart from each other and from the directory. */
  predicate Relocatable(m: Image, d: Directory) {
    && d.size > 0
    && WellFormed(m, d, 0)
    && InImage(Slots(m, d, 0), |m|)
    && AllDisjoint(Slots(m, d, 0))
    && AwayFrom(Slots(m, d, 0), d.address, WalkEnd(m, d, 0))
  }

  /** The same without names for its parts. */
  lemma RelocatableMeans(m: Image, d: Directory, slots: seq<nat>)
    requires WellFormed(m, d, 0) && slots == Slots(m, d, 0)
    ensures Relocatable(m, d) <==>
      && d.size > 0
      && (forall i :: 0 <= i < |slots| ==> slots[i] + 8 <= |m|)
      && (forall i, j :: 0 <= i < j < |slots| ==> slots[i] + 8 <= slots[j] || slots[j] + 8 <= slots[i])
      && (forall i :: 0 <= i < |slots| ==> slots[i] + 8 <= d.address || WalkEnd(m, d, 0) <= slots[i])
  {
    hide WellFormed, Slots, WalkEnd, AllDisjoint, InImage, AwayFrom;
    PartsMean(slots, |m|, d.address, WalkEnd(m, d, 0));
  }

  lemma PartsMean(slots: seq<nat>, size: nat, lo: nat, hi: nat)
    ensures InImage(slots, size) <==> forall i :: 0 <= i < |slots| ==> slots[i] + 8 <= size
    ensures AllDisjoint(slots) <==>
      forall i, j :: 0 <= i < j < |slots| ==> slots[i] + 8 <= slots[j] || slots[j] + 8 <= slots[i]
    ensures AwayFrom(slots, lo, hi) <==> forall i :: 0 <= i < |slots| ==> slots[i] + 8 <= lo || hi <= slots[i]
  {
    if AllDisjoint(slots) {
      forall i, j | 0 <= i < j < |slots|
        ensures slots[i] + 8 <= slots[j] || slots[j] + 8 <= slots[i]
      {
        assert Disjoint(slots[i], slots[j]);
      }
    }
  }

  predicate AwayFrom(slots: seq<nat>, lo: nat, hi: nat) {
    forall i :: 0 <= i < |slots| ==> slots[i] + 8 <= lo || hi <= slots[i]
  }

  function Relocate(m: Image, d: Directory, delta: nat): Image
    requires Relocatable(m, d)
  {
    Relocated(m, Slots(m, d, 0), delta)
  }

  /** Relocation, even of part of the slots, never changes the directory. */
  lemma DirectoryKept(m: Image, slots: seq<nat>, delta: nat, lo: nat, hi: nat)
    requires InImage(slots, |m|) && AllDisjoint(slots) && AwayFrom(slots, lo, hi) && hi <= |m|
    ensures SameFrom(m, Relocated(m, slots, delta), lo, hi)
  {
    hide Relocated, Disjoint;
    RelocatedExactly(m, slots, delta);
    assert forall k :: lo <= k < hi ==> !Touched(slots, k);
  }

  lemma RelocateKeepsDirectory(m: Image, d: Directory, delta: nat)
    requires Relocatable(m, d)
    ensures var r := Relocate(m, d, delta); Relocatable(r, d) && Slots(r, d, 0) == Slots(m, d, 0)
  {
    hide WellFormed, Slots, WalkEnd, InImage, AllDisjoint, AwayFrom, Relocated, SameFrom;
    WalkEndInside(m, d, 0);
    DirectoryKept(m, Slots(m, d, 0), delta, d.address, WalkEnd(m, d, 0));
    SameWalk(m, Relocate(m, d, delta), d, 0);
  }

  /** Relocating twice is relocating once by the sum. */
  lemma RelocateComposes(m: Image, d: Directory, x: nat, y: nat)
    requires Relocatable(m, d)
    ensures Relocatable(Relocate(m, d, x), d)
    ensures Relocate(Relocate(m, d, x), d, y) == Relocate(m, d, (x + y) % TWO_64)
  {
    hide WellFormed, Slots, WalkEnd, InImage, AllDisjoint, AwayFrom, Relocated;
    RelocateKeepsDirectory(m, d, x);
    RelocatedComposes(m, Slots(m, d, 0), x, y);
  }

  /** What is added when an image preferring one base is loaded at another. */
  function Delta(loaded: nat, preferred: nat): nat {
    (loaded - preferred) % TWO_64
  }

  /** Moving an image to a new base and back restores every byte. */
  lemma RelocateAndBack(m: Image, d: Directory, preferred: nat, loaded: nat)
    requires Relocatable(m, d)
    ensures Relocatable(Relocate(m, d, (loaded - preferred) % TWO_64), d)
    ensures Relocate(Relocate(m, d, (loaded - preferred) % TWO_64), d, (preferred - loaded) % TWO_64) == m
  {
    hide WellFormed, Slots, WalkEnd, InImage, AllDisjoint, AwayFrom, Relocated, Delta;
    DeltaIs(loaded, preferred);
    DeltaIs(preferred, loaded);
    RelocateComposes(m, d, Delta(loaded, preferred), Delta(preferred, loaded));
    ThereAndBack(loaded, preferred);
    RelocatedByZero(m, Slots(m, d, 0));
  }

  lemma DeltaIs(loaded: nat, preferred: nat)
    ensures Delta(loaded, preferred) == (loaded - preferred) % TWO_64
  {
  }

  /** Every slot of r is moved from m by the way between two bases, and no other byte differs. */
  ghost predicate Moves(m: Image, r: Image, slots: seq<nat>, preferred: nat, loaded: nat) {
    && |r| == |m|
    && (forall s :: s in slots ==>
          s + 8 <= |m| && ReadU64(r, s) == (ReadU64(m, s) + loaded - preferred) % TWO_64)
    && (forall k :: 0 <= k < |m| && !Touched(slots, k) ==> r[k] == m[k])
  }

  /** Every slot of a loaded image is moved from the preferred to the actual base. */
  lemma SlotsMove(m: Image, d: Directory, preferred: nat, loaded: nat)
    requires Relocatable(m, d)
    ensures Moves(m, Relocate(m, d, Delta(loaded, preferred)), Slots(m, d, 0), preferred, loaded)
  {
    hide WellFormed, Slots, WalkEnd, AwayFrom, Relocated, Delta, ReadU64, AllDisjoint, Touched;
    var slots := Slots(m, d, 0);
    RelocatedExactly(m, slots, Delta(loaded, preferred));
    forall s | s in slots
      ensures s + 8 <= |m|
      ensures ReadU64(Relocate(m, d, Delta(loaded, preferred)), s) == (ReadU64(m, s) + loaded - preferred) % TWO_64
    {
      var i :| 0 <= i < |slots| && slots[i] == s;
      DeltaAdds(ReadU64(m, slots[i]), loaded, preferred);
    }
  }

  lemma DeltaAdds(v: nat, loaded: nat, preferred: nat)
    ensures (v + Delta(loaded, preferred)) % TWO_64 == (v + loaded - preferred) % TWO_64
  {
    assert (v + Delta(loaded, preferred)) % TWO_64 == (v + (loaded - preferred)) % TWO_64;
  }

  /** A pointer to an address of the image still points at it: preferred + rva becomes loaded + rva. */
  lemma PointersFollow(m: Image, d: Directory, preferred: nat, loaded: nat, s: nat, rva: nat)
    requires Relocatable(m, d) && s in Slots(m, d, 0) && s + 8 <= |m|
    requires ReadU64(m, s) == preferred + rva && loaded + rva < TWO_64
    ensures ReadU64(Relocate(m, d, Delta(loaded, preferred)), s) == loaded + rva
  {
    hide Relocatable, Slots, Relocate, Delta, ReadU64, Touched;
    SlotsMove(m, d, preferred, loaded);
    assert ReadU64(m, s) + loaded - preferred == loaded + rva;
  }

  /** Nothing is written when the image lies where it prefers to be. */
  lemma AtHome(m: Image, d: Directory, preferred: nat, loaded: nat)
    requires Relocatable(m, d) && Delta(loaded, preferred) == 0
    ensures Relocate(m, d, Delta(loaded, preferred)) == m
  {
    hide WellFormed, Slots, WalkEnd, AwayFrom, Relocated, Delta, AllDisjoint;
    RelocatedByZero(m, Slots(m, d, 0));
  }

  lemma ThereAndBack(x: nat, y: nat)
    ensures (Delta(x, y) + Delta(y, x)) % TWO_64 == 0
  {
    assert (Delta(x, y) + Delta(y, x)) % TWO_64 == ((x - y) + (y - x)) % TWO_64;
  }

  // ----- The loop

  /** There is a directory to walk and a delta to add. */
  predicate HasWork(d: Directory, delta: nat) {
    d.address != 0 && d.size != 0 && delta != 0
  }

  lemma SlotsSplit(slots: seq<nat>, done: seq<nat>, remaining: seq<nat>, size: nat)
    requires slots == done + remaining && InImage(slots, size) && AllDisjoint(slots)
    ensures InImage(done, size) && AllDisjoint(done)
  {
    hide Disjoint;
    assert forall i :: 0 <= i < |done| ==> done[i] == slots[i];
  }

  lemma AwaySplit(slots: seq<nat>, done: seq<nat>, remaining: seq<nat>, lo: nat, hi: nat)
    requires slots == done + remaining && AwayFrom(slots, lo, hi)
    ensures AwayFrom(done, lo, hi)
  {
    assert forall i :: 0 <= i < |done| ==> done[i] == slots[i];
  }

  /** The image part way through the walk: `done` relocated, `remaining` still to come, and the
      directory as it was at the start. */
  ghost predicate PartWay(m: Image, r: Image, d: Directory, done: seq<nat>, remaining: seq<nat>, delta: nat)
    requires Relocatable(m, d)
  {
    && Slots(m, d, 0) == done + remaining
    && InImage(done, |m|)
    && r == Relocated(m, done, delta)
    && SameFrom(m, r, d.address, WalkEnd(m, d, 0))
  }

  lemma NothingDone(m: Image, d: Directory, delta: nat)
    requires Relocatable(m, d)
    ensures PartWay(m, m, d, [], Slots(m, d, 0), delta)
  {
    hide WellFormed, Slots, WalkEnd, AllDisjoint, AwayFrom;
    WalkEndInside(m, d, 0);
  }

  /** Relocating the next slot. */
  lemma OneDone(m: Image, r: Image, d: Directory, done: seq<nat>, s: nat, remaining: seq<nat>, delta: nat)
    requires Relocatable(m, d) && PartWay(m, r, d, done, [s] + remaining, delta)
    ensures s + 8 <= |r| && PartWay(m, AddAt(r, s, delta), d, done + [s], remaining, delta)
  {
    hide WellFormed, Slots, WalkEnd, AllDisjoint, AwayFrom, AddAt, SameFrom;
    var slots := Slots(m, d, 0);
    assert done + ([s] + remaining) == (done + [s]) + remaining;
    assert slots[|done|] == s;
    SlotsSplit(slots, done + [s], remaining, |m|);
    AwaySplit(slots, done + [s], remaining, d.address, WalkEnd(m, d, 0));
    WalkEndInside(m, d, 0);
    DirectoryKept(m, done + [s], delta, d.address, WalkEnd(m, d, 0));
    assert (done + [s])[..|done|] == done;
  }

  lemma AllDone(m: Image, r: Image, d: Directory, done: seq<nat>, delta: nat)
    requires Relocatable(m, d) && PartWay(m, r, d, done, [], delta)
    ensures r == Relocate(m, d, delta)
  {
    hide WellFormed, Slots, WalkEnd, AllDisjoint, AwayFrom, Relocated, SameFrom;
    assert done + [] == done;
  }

  /** The next block as the loop sees it in the image so far. */
  lemma NextBlock(m: Image, r: Image, d: Directory, parsed: nat)
    requires WellFormed(m, d, 0) && WellFormed(m, d, parsed) && parsed < d.size
    requires WalkEnd(m, d, parsed) == WalkEnd(m, d, 0) && SameFrom(m, r, d.address, WalkEnd(m, d, 0))
    ensures d.address + parsed + BLOCK_HEADER <= |r|
    ensures BlockSize(r, d.address + parsed) == BlockSize(m, d.address + parsed)
    ensures BlockPage(r, d.address + parsed) == BlockPage(m, d.address + parsed)
    ensures var size := BlockSize(m, d.address + parsed);
      if size == 0 then Slots(m, d, parsed) == []
      else
        size >= BLOCK_HEADER && d.address + parsed + size <= WalkEnd(m, d, 0) <= |m|
        && WellFormed(m, d, parsed + size) && WalkEnd(m, d, parsed + size) == WalkEnd(m, d, 0)
        && Slots(m, d, parsed) == BlockSlots(m, d.address + parsed, 0, EntryCount(size)) + Slots(m, d, parsed + size)
  {
    hide BlockSize, BlockPage, BlockSlots;
    WalkEndInside(m, d, parsed);
    SameHeader(m, r, d.address + parsed, WalkEnd(m, d, 0));
  }

  lemma RelocatableParts(m: Image, d: Directory)
    requires Relocatable(m, d)
    ensures WellFormed(m, d, 0)
  {
  }

  lemma PartWayParts(m: Image, r: Image, d: Directory, done: seq<nat>, remaining: seq<nat>, delta: nat)
    requires Relocatable(m, d) && PartWay(m, r, d, done, remaining, delta)
    ensures SameFrom(m, r, d.address, WalkEnd(m, d, 0)) && |r| == |m|
  {
  }

  /** The walk stops at the end of the directory or at a block of size 0, with nothing to do. */
  lemma WalkStops(m: Image, d: Directory, parsed: nat)
    requires WellFormed(m, d, parsed) && (parsed < d.size ==> BlockSize(m, d.address + parsed) == 0)
    ensures Slots(m, d, parsed) == []
  {
  }

  lemma SameFromInside(m: Image, r: Image, lo: nat, b: nat, hi: nat)
    requires SameFrom(m, r, lo, hi) && lo <= b <= hi
    ensures SameFrom(m, r, b, hi)
  {
  }

  method Add(image: array<Byte>, target: nat, delta: nat)
    requires target + 8 <= image.Length
    modifies image
    ensures image[..] == AddAt(old(image[..]), target, delta)
  {
    hide Encode, Decode, ReadU64;
    var v := (ReadU64(image[..], target) + delta) % TWO_64;
    CopyIn(image, target, Encode(v, 8));
  }

  // ----- The walk on any directory

  /** The entry at `at`, as the bytes stand, can be read and its target lies in the image. */
  predicate EntrySafe(m: Image, b: nat, at: nat) {
    && b + BLOCK_HEADER <= |m| && at + 2 <= |m|
    && (EntrySlot(m, b, at) != [] ==> EntrySlot(m, b, at)[0] + 8 <= |m|)
  }

  /** The image after that entry. */
  function EntryDone(m: Image, b: nat, at: nat, delta: nat): (r: Image)
    requires EntrySafe(m, b, at)
    ensures |r| == |m|
  {
    if EntrySlot(m, b, at) == [] then m else AddAt(m, EntrySlot(m, b, at)[0], delta)
  }

  /** The entries i to n of the block at b, each read from the bytes as they stand by then, stay
      inside the image with their targets. */
  predicate EntriesSafe(m: Image, b: nat, i: nat, n: nat, delta: nat)
    decreases n - i
  {
    i < n ==>
      && EntrySafe(m, b, b + BLOCK_HEADER + 2 * i)
      && EntriesSafe(EntryDone(m, b, b + BLOCK_HEADER + 2 * i, delta), b, i + 1, n, delta)
  }

  /** The image after them. */
  function Entries(m: Image, b: nat, i: nat, n: nat, delta: nat): (r: Image)
    requires EntriesSafe(m, b, i, n, delta)
    ensures |r| == |m|
    decreases n - i
  {
    if i >= n then m else Entries(EntryDone(m, b, b + BLOCK_HEADER + 2 * i, delta), b, i + 1, n, delta)
  }

  /** The walk stays inside the image; sizes are read before and after the entries of a block. */
  predicate WalkSafe(m: Image, d: Directory, parsed: nat, delta: nat)
    decreases if parsed < d.size then d.size - parsed else 0
  {
    parsed < d.size ==>
      && var b := d.address + parsed;
      && b + BLOCK_HEADER <= |m|
      && var size := BlockSize(m, b);
         size == 0 ||
           (&& size >= BLOCK_HEADER && EntriesSafe(m, b, 0, EntryCount(size), delta)
            && var r := Entries(m, b, 0, EntryCount(size), delta);
               BlockSize(r, b) == 0 || WalkSafe(r, d, parsed + BlockSize(r, b), delta))
  }

  /** The image after the walk, whatever overlaps. */
  function Walked(m: Image, d: Directory, parsed: nat, delta: nat): (r: Image)
    requires WalkSafe(m, d, parsed, delta)
    ensures |r| == |m|
    decreases if parsed < d.size then d.size - parsed else 0
  {
    if parsed >= d.size then m
    else
      var b := d.address + parsed;
      var size := BlockSize(m, b);
      if size == 0 then m
      else
        var r := Entries(m, b, 0, EntryCount(size), delta);
        if BlockSize(r, b) == 0 then r else Walked(r, d, parsed + BlockSize(r, b), delta)
  }

  lemma NextEntry(m: Image, b: nat, i: nat, n: nat, delta: nat)
    requires EntriesSafe(m, b, i, n, delta) && i < n
    ensures EntrySafe(m, b, b + BLOCK_HEADER + 2 * i)
    ensures var r := EntryDone(m, b, b + BLOCK_HEADER + 2 * i, delta);
      EntriesSafe(r, b, i + 1, n, delta) && Entries(m, b, i, n, delta) == Entries(r, b, i + 1, n, delta)
  {
    hide EntrySafe, EntryDone;
  }

  lemma LastEntry(m: Image, b: nat, n: nat, delta: nat)
    ensures EntriesSafe(m, b, n, n, delta) && Entries(m, b, n, n, delta) == m
  {
  }

  /** In a part-way image of a relocatable one, the entries of a block relocate its slots. */
  lemma {:induction false} EntriesPartWay(m: Image, r: Image, d: Directory, b: nat, i: nat, n: nat,
                                          before: seq<nat>, rest: seq<nat>, delta: nat)
      returns (done: seq<nat>)
    requires Relocatable(m, d) && i <= n && d.address <= b && b + BLOCK_HEADER + 2 * n <= WalkEnd(m, d, 0) <= |m|
    requires PartWay(m, r, d, before, BlockSlots(m, b, i, n) + rest, delta)
    ensures EntriesSafe(r, b, i, n, delta) && PartWay(m, Entries(r, b, i, n, delta), d, done, rest, delta)
    decreases n - i
  {
    hide WellFormed, Slots, WalkEnd, Relocated, Relocatable, SameFrom, BlockSize, PartWay, AddAt, EntrySlot;
    RelocatableParts(m, d);
    PartWayParts(m, r, d, before, BlockSlots(m, b, i, n) + rest, delta);
    if i == n {
      LastEntry(r, b, n, delta);
      assert [] + rest == rest;
      done := before;
    } else {
      var at := b + BLOCK_HEADER + 2 * i;
      var more := BlockSlots(m, b, i + 1, n) + rest;
      SameSlot(m, r, d, b, at);
      assert BlockSlots(m, b, i, n) + rest == EntrySlot(m, b, at) + more;
      if EntrySlot(m, b, at) == [] {
        assert [] + more == more;
        done := EntriesPartWay(m, r, d, b, i + 1, n, before, rest, delta);
      } else {
        var s := EntrySlot(m, b, at)[0];
        OneSlot(m, b, at);
        OneDone(m, r, d, before, s, more, delta);
        done := EntriesPartWay(m, AddAt(r, s, delta), d, b, i + 1, n, before + [s], rest, delta);
      }
    }
  }

  lemma OneSlot(m: Image, b: nat, at: nat)
    requires b + BLOCK_HEADER <= |m| && at + 2 <= |m| && EntrySlot(m, b, at) != []
    ensures EntrySlot(m, b, at) == [EntrySlot(m, b, at)[0]]
  {
  }

  lemma SameSlot(m: Image, r: Image, d: Directory, b: nat, at: nat)
    requires WellFormed(m, d, 0) && SameFrom(m, r, d.address, WalkEnd(m, d, 0))
    requires d.address <= b && b + BLOCK_HEADER <= at && at + 2 <= WalkEnd(m, d, 0)
    ensures at + 2 <= |r| == |m| && EntrySlot(m, b, at) == EntrySlot(r, b, at)
  {
    hide WalkEnd, WellFormed, EntrySlot;
    SameFromInside(m, r, d.address, b, WalkEnd(m, d, 0));
    SameEntry(m, r, b, at, WalkEnd(m, d, 0));
  }

  /** The walk over what is left of a relocatable image completes the relocation. */
  lemma {:induction false} WalkPartWay(m: Image, r: Image, d: Directory, parsed: nat, before: seq<nat>, delta: nat)
    requires Relocatable(m, d) && WellFormed(m, d, parsed) && WalkEnd(m, d, parsed) == WalkEnd(m, d, 0)
    requires PartWay(m, r, d, before, Slots(m, d, parsed), delta)
    ensures WalkSafe(r, d, parsed, delta) && Walked(r, d, parsed, delta) == Relocate(m, d, delta)
    decreases if parsed < d.size then d.size - parsed else 0
  {
    hide WellFormed, Slots, WalkEnd, Relocated, Relocatable, SameFrom;
    hide BlockSize, PartWay, Relocate, EntriesSafe, Entries;
    RelocatableParts(m, d);
    if parsed >= d.size {
      WalkStops(m, d, parsed);
      AllDone(m, r, d, before, delta);
    } else {
      var b := d.address + parsed;
      PartWayParts(m, r, d, before, Slots(m, d, parsed), delta);
      NextBlock(m, r, d, parsed);
      var size := BlockSize(m, b);
      if size == 0 {
        AllDone(m, r, d, before, delta);
      } else {
        var rest := Slots(m, d, parsed + size);
        var done := EntriesPartWay(m, r, d, b, 0, EntryCount(size), before, rest, delta);
        var next := Entries(r, b, 0, EntryCount(size), delta);
        PartWayParts(m, next, d, done, rest, delta);
        NextBlock(m, next, d, parsed);
        WalkPartWay(m, next, d, parsed + size, done, delta);
      }
    }
  }

  /** On a relocatable image the walk is safe and is the relocation of its slots. */
  lemma WalkRelocates(m: Image, d: Directory, delta: nat)
    requires Relocatable(m, d)
    ensures WalkSafe(m, d, 0, delta) && Walked(m, d, 0, delta) == Relocate(m, d, delta)
  {
    hide WellFormed, Slots, WalkEnd, Relocated, Relocatable, PartWay, Relocate, WalkSafe, Walked;
    RelocatableParts(m, d);
    NothingDone(m, d, delta);
    WalkPartWay(m, m, d, 0, [], delta);
  }

  /** What the method leaves, whether or not it has anything to do, moves every slot. */
  lemma WalkMoves(m: Image, d: Directory, preferred: nat, loaded: nat)
    requires d.address > 0 && Relocatable(m, d)
    ensures WalkSafe(m, d, 0, Delta(loaded, preferred))
    ensures var delta := Delta(loaded, preferred);
      Moves(m, if HasWork(d, delta) then Walked(m, d, 0, delta) else m, Slots(m, d, 0), preferred, loaded)
  {
    hide WellFormed, Slots, WalkEnd, InImage, AllDisjoint, AwayFrom, Relocate, WalkSafe, Walked, Delta, Moves;
    WalkRelocates(m, d, Delta(loaded, preferred));
    SlotsMove(m, d, preferred, loaded);
    if Delta(loaded, preferred) == 0 {
      AtHome(m, d, preferred, loaded);
    }
  }

  /** The walk over the blocks. */
  method WalkBlocks(image: array<Byte>, d: Directory, delta: nat)
    requires WalkSafe(image[..], d, 0, delta)
    modifies image
    ensures image[..] == Walked(old(image[..]), d, 0, delta)
  {
    hide BlockSize, EntriesSafe, Entries;
    ghost var m := image[..];
    var parsed := 0;
    while parsed < d.size
      invariant WalkSafe(image[..], d, parsed, delta)
      invariant Walked(image[..], d, parsed, delta) == Walked(m, d, 0, delta)
      decreases d.size - parsed
    {
      var b := d.address + parsed;
      var size := BlockSize(image[..], b);
      if size == 0 {
        break;
      }
      RelocateBlock(image, b, EntryCount(size), delta);
      if BlockSize(image[..], b) == 0 {
        // the next turn would stop at this block again
        return;
      }
      parsed := parsed + BlockSize(image[..], b);
    }
  }

  /** NtPeApplyRelocations, on any directory whose walk stays inside the image. Of a relocatable
      image every slot is moved by the way from the preferred to the actual base, modulo 2^64, and
      no other byte changes. */
  method ApplyRelocations(image: array<Byte>, d: Directory, preferred: nat, loaded: nat)
    requires HasWork(d, Delta(loaded, preferred)) ==> WalkSafe(image[..], d, 0, Delta(loaded, preferred))
    modifies image
    ensures image[..]
         == if HasWork(d, Delta(loaded, preferred)) then Walked(old(image[..]), d, 0, Delta(loaded, preferred))
                         else old(image[..])
    ensures HasWork(d, Delta(loaded, preferred)) && Relocatable(old(image[..]), d) ==>
      image[..] == Relocate(old(image[..]), d, Delta(loaded, preferred))
    ensures d.address == 0 || d.size == 0 || loaded == preferred ==> image[..] == old(image[..])
    ensures d.address > 0 && Relocatable(old(image[..]), d) ==>
      && (forall s :: s in Slots(old(image[..]), d, 0) ==>
            s + 8 <= |image[..]| == |old(image[..])|
            && ReadU64(image[..], s) == (ReadU64(old(image[..]), s) + loaded - preferred) % 0x1_0000_0000_0000_0000)
      && (forall k :: 0 <= k < |image[..]| == |old(image[..])| && !Touched(Slots(old(image[..]), d, 0), k) ==>
            image[..][k] == old(image[..])[k])
  {
    hide Delta, Relocate, Relocatable, Walked, WalkSafe, Moves, Slots, ReadU64;
    ghost var m := image[..];
    SameBase(loaded, preferred);
    if d.address > 0 && Relocatable(m, d) {
      WalkMoves(m, d, preferred, loaded);
    }
    if d.address == 0 || d.size == 0 {
      MovesParts(m, image[..], d, preferred, loaded);
      return;
    }
    var delta := Delta(loaded, preferred);
    if delta == 0 {
      MovesParts(m, image[..], d, preferred, loaded);
      return;
    }
    if Relocatable(m, d) {
      WalkRelocates(m, d, delta);
    }
    WalkBlocks(image, d, delta);
    MovesParts(m, image[..], d, preferred, loaded);
  }

  lemma MovesParts(m: Image, r: Image, d: Directory, preferred: nat, loaded: nat)
    ensures Relocatable(m, d) && Moves(m, r, Slots(m, d, 0), preferred, loaded) ==>
      && |r| == |m|
      && (forall s :: s in Slots(m, d, 0) ==>
            s + 8 <= |m| && ReadU64(r, s) == (ReadU64(m, s) + loaded - preferred) % 0x1_0000_0000_0000_0000)
      && (forall k :: 0 <= k < |m| && !Touched(Slots(m, d, 0), k) ==> r[k] == m[k])
  {
    hide Slots, WellFormed, WalkEnd, InImage, AllDisjoint, AwayFrom, ReadU64, Touched;
  }

  lemma SameBase(loaded: nat, preferred: nat)
    ensures loaded == preferred ==> Delta(loaded, preferred) == 0
  {
  }

  /** The entries of one block. */
  method RelocateBlock(image: array<Byte>, b: nat, entryCount: nat, delta: nat)
    requires EntriesSafe(image[..], b, 0, entryCount, delta)
    modifies image
    ensures image[..] == Entries(old(image[..]), b, 0, entryCount, delta)
  {
    hide EntriesSafe, Entries, AddAt, EntryType, EntryOffset, BlockPage, ReadU16;
    ghost var m := image[..];
    var i := 0;
    while i < entryCount
      invariant 0 <= i <= entryCount
      invariant EntriesSafe(image[..], b, i, entryCount, delta)
      invariant Entries(image[..], b, i, entryCount, delta) == Entries(m, b, 0, entryCount, delta)
    {
      NextEntry(image[..], b, i, entryCount, delta);
      var e := ReadU16(image[..], b + BLOCK_HEADER + 2 * i);
      if EntryType(e) == REL_DIR64 {
        Add(image, BlockPage(image[..], b) + EntryOffset(e), delta);
      }
      i := i + 1;
    }
    LastEntry(image[..], b, entryCount, delta);
  }
}
