/** The registry-hive arena as a value: the bytes of the hive, its size, and the cell
    map those bytes spell out. The operations are the specification of the methods of
    class Hive; the lemmas say what the operations keep. */
module HiveArena {
  import opened ByteMemory
  import opened CellMap

  /** hi is Hive->Size; the buffer m may be longer. */
  datatype Arena = Arena(m: Image, cells: seq<Cell>, hi: nat)

  ghost predicate Headers(m: Image, cs: seq<Cell>) {
    forall i :: 0 <= i < |cs| ==> cs[i].off + CELL_HEADER <= |m| && ReadI32(m, cs[i].off) == cs[i].size
  }

  /** The headers found by walking from the hive header tile [sizeof(HIVE_HEADER), Size). */
  ghost predicate Tiled(a: Arena) {
    && HIVE_HEADER <= a.hi <= |a.m|
    && a.hi < TWO_31
    && Chain(a.cells, HIVE_HEADER, a.hi)
    && Headers(a.m, a.cells)
  }

  ghost predicate SameOutside(m: Image, n: Image, lo: int, hi: int) {
    && |m| == |n|
    && (forall k :: 0 <= k < |m| && !(lo <= k < hi) ==> n[k] == m[k])
  }

  lemma OutsideTwice(m: Image, n: Image, p: Image, lo: int, hi: int, lo2: int, hi2: int, a: int, b: int)
    requires SameOutside(m, n, lo, hi) && SameOutside(n, p, lo2, hi2)
    requires a <= lo && hi <= b && a <= lo2 && hi2 <= b
    ensures SameOutside(m, p, a, b)
  {
  }

  /** The whole cell c, header included. */
  function CellBytes(m: Image, c: Cell): Image
    requires c.End() <= |m|
  {
    m[c.off..c.End()]
  }

  /** Cell c is live on both sides with the same bytes. */
  ghost predicate Kept(a: Arena, b: Arena, c: Cell) {
    && c in Live(a.cells) && c in Live(b.cells)
    && c.End() <= |a.m| && c.End() <= |b.m|
    && CellBytes(b.m, c) == CellBytes(a.m, c)
  }

  /** Every live cell of a outside gone is still live in b, byte for byte. */
  ghost predicate KeptExcept(a: Arena, b: Arena, gone: set<Cell>) {
    forall c | c in Live(a.cells) && c !in gone :: Kept(a, b, c)
  }

  lemma KeptCell(a: Arena, b: Arena, gone: set<Cell>, c: Cell)
    requires KeptExcept(a, b, gone) && c in Live(a.cells) && c !in gone
    ensures Kept(a, b, c) && c in Live(b.cells)
  {
  }

  lemma KeptTwice(a: Arena, b: Arena, c: Arena, gone: set<Cell>, gone2: set<Cell>)
    requires KeptExcept(a, b, gone) && KeptExcept(b, c, gone2)
    ensures KeptExcept(a, c, gone + gone2)
  {
    hide CellBytes;
    forall l | l in Live(a.cells) && l !in gone + gone2
      ensures Kept(a, c, l)
    {
      assert Kept(a, b, l) && Kept(b, c, l);
    }
  }

  /** Cells that were never live cannot be missed. */
  lemma KeptFewer(a: Arena, b: Arena, gone: set<Cell>, fewer: set<Cell>)
    requires KeptExcept(a, b, gone) && gone * Live(a.cells) <= fewer
    ensures KeptExcept(a, b, fewer)
  {
  }

  lemma KeptSlice(a: Arena, b: Arena, c: Cell, lo: nat, hi: nat)
    requires Kept(a, b, c) && c.off <= lo <= hi <= c.End()
    ensures b.m[lo..hi] == a.m[lo..hi]
  {
    SliceOfSlice(a.m, c.off, c.End(), lo - c.off, hi - c.off);
    SliceOfSlice(b.m, c.off, c.End(), lo - c.off, hi - c.off);
  }

  lemma CellsInside(a: Arena)
    requires Tiled(a)
    ensures forall i :: 0 <= i < |a.cells| ==> HIVE_HEADER <= a.cells[i].off && a.cells[i].End() <= a.hi
    ensures forall i, j :: 0 <= i < j < |a.cells| ==> a.cells[i].End() <= a.cells[j].off
    ensures forall i :: 0 <= i < |a.cells| ==> a.cells[i].Len() >= CELL_HEADER
  {
    ChainOrdered(a.cells, HIVE_HEADER, a.hi);
  }

  /** Where a walk stands after k cells. */
  function StartOf(cs: seq<Cell>, k: nat, hi: nat): nat
    requires k <= |cs|
  {
    if k < |cs| then cs[k].off else hi
  }

  lemma WalkStep(a: Arena, k: nat)
    requires Tiled(a) && k < |a.cells|
    ensures a.cells[k].off + CELL_HEADER <= a.hi <= |a.m|
    ensures ReadI32(a.m, a.cells[k].off) == a.cells[k].size
    ensures a.cells[k].End() == StartOf(a.cells, k + 1, a.hi) <= a.hi
  {
    CellInside(a, k);
    ChainNext(a.cells, k, HIVE_HEADER, a.hi);
  }

  lemma WalkStart(a: Arena)
    requires Tiled(a)
    ensures StartOf(a.cells, 0, a.hi) == HIVE_HEADER
  {
  }

  function Abs(x: int): nat {
    if x < 0 then -x else x
  }

  // ----- Header writes

  /** Cell->Size = size; Cell->Signature = 0; Cell->Flags = 0. */
  function PutHeader(m: Image, off: nat, size: int): (r: Image)
    requires off + CELL_HEADER <= |m|
    ensures |r| == |m|
  {
    Blit(m, off, EncodeI32(size) + [0, 0, 0, 0])
  }

  /** Cell->Size = size, leaving signature and flags. */
  function PutSize(m: Image, off: nat, size: int): (r: Image)
    requires off + 4 <= |m|
    ensures |r| == |m|
  {
    Blit(m, off, EncodeI32(size))
  }

  lemma PutHeaderReads(m: Image, off: nat, size: int)
    requires off + CELL_HEADER <= |m| && -TWO_31 <= size < TWO_31
    ensures ReadI32(PutHeader(m, off, size), off) == size
    ensures SameOutside(m, PutHeader(m, off, size), off, off + CELL_HEADER)
  {
    assert PutHeader(m, off, size)[off..off + 4] == EncodeI32(size);
  }

  /** Signature and flags of a new header are zero. */
  lemma PutHeaderClears(m: Image, off: nat, size: int)
    requires off + CELL_HEADER <= |m|
    ensures PutHeader(m, off, size)[off + 4..off + 8] == [0, 0, 0, 0]
  {
    hide EncodeI32;
    var h := EncodeI32(size) + [0, 0, 0, 0];
    BlitSlice(m, off, h, off + 4, off + 8);
    assert h[4..8] == [0, 0, 0, 0];
  }

  lemma PutSizeReads(m: Image, off: nat, size: int)
    requires off + 4 <= |m| && -TWO_31 <= size < TWO_31
    ensures ReadI32(PutSize(m, off, size), off) == size
    ensures SameOutside(m, PutSize(m, off, size), off, off + 4)
  {
    assert PutSize(m, off, size)[off..off + 4] == EncodeI32(size);
  }

  lemma ReadOutside(m: Image, n: Image, lo: int, hi: int, off: nat)
    requires SameOutside(m, n, lo, hi) && off + 4 <= |m|
    requires off + 4 <= lo || hi <= off
    ensures ReadI32(n, off) == ReadI32(m, off)
  {
    assert n[off..off + 4] == m[off..off + 4];
  }

  /** The buffer after free cell c gives need bytes. */
  function PlaceImage(m: Image, c: Cell, need: nat): (r: Image)
    requires c.End() <= |m| && Fits(c, need) && c.Len() >= CELL_HEADER
    ensures |r| == |m|
  {
    var split := if Splits(c, need) then PutHeader(m, c.off + need, c.size - need) else m;
    PutHeader(split, c.off, 0 - need)
  }

  /** The buffer after free cell i is merged with its free neighbours. */
  function CoalesceImage(m: Image, cs: seq<Cell>, i: nat): (r: Image)
    requires i < |cs| && cs[i].off + CELL_HEADER <= |m|
    requires i > 0 ==> cs[i - 1].off + CELL_HEADER <= |m|
    ensures |r| == |m|
  {
    var own := cs[i].size + if JoinsNext(cs, i) then cs[i + 1].size else 0;
    var grown := if JoinsNext(cs, i) then PutSize(m, cs[i].off, own) else m;
    if JoinsPrev(cs, i) then PutSize(grown, cs[i - 1].off, cs[i - 1].size + own) else grown
  }

  function ReleaseImage(m: Image, cs: seq<Cell>, i: nat): (r: Image)
    requires i < |cs| && cs[i].off + CELL_HEADER <= |m|
    requires i > 0 ==> cs[i - 1].off + CELL_HEADER <= |m|
    ensures |r| == |m|
  {
    CoalesceImage(PutHeader(m, cs[i].off, cs[i].Len()), cs[i := Cell(cs[i].off, cs[i].Len())], i)
  }

  lemma PlaceBytes(m: Image, c: Cell, need: nat)
    requires c.End() <= |m| && Fits(c, need) && c.Len() >= CELL_HEADER && c.size < TWO_31
    requires need % 8 == 0
    ensures SameOutside(m, PlaceImage(m, c, need), c.off, c.End())
    ensures ReadI32(PlaceImage(m, c, need), c.off) == 0 - need
    ensures need > 0 && Splits(c, need) ==>
              ReadI32(PlaceImage(m, c, need), c.off + need) == c.size - need
    ensures !Splits(c, need) ==> SameOutside(m, PlaceImage(m, c, need), c.off, c.off + CELL_HEADER)
  {
    hide PutHeader, ReadI32, SameOutside;
    var r := PlaceImage(m, c, need);
    if Splits(c, need) {
      var split := PutHeader(m, c.off + need, c.size - need);
      PutHeaderReads(m, c.off + need, c.size - need);
      PutHeaderReads(split, c.off, 0 - need);
      OutsideTwice(m, split, r, c.off + need, c.off + need + CELL_HEADER, c.off, c.off + CELL_HEADER, c.off, c.End());
      if need > 0 {
        ReadOutside(split, r, c.off, c.off + CELL_HEADER, c.off + need);
      }
    } else {
      PutHeaderReads(m, c.off, 0 - need);
      SameMeansOutside(m, c.off, c.End());
      OutsideTwice(m, m, r, c.off, c.End(), c.off, c.off + CELL_HEADER, c.off, c.End());
    }
  }

  lemma SameMeansOutside(m: Image, lo: int, hi: int)
    ensures SameOutside(m, m, lo, hi)
  {
  }

  /** The size in header i once its successor has been merged in. */
  function OwnSize(cs: seq<Cell>, i: nat): int
    requires i < |cs|
  {
    cs[i].size + if JoinsNext(cs, i) then cs[i + 1].size else 0
  }

  lemma CoalesceSizes(a: Arena, i: nat)
    requires Tiled(a) && i < |a.cells| && a.cells[i].size > 0
    ensures 0 < OwnSize(a.cells, i) <= JoinedSize(a.cells, i) < TWO_31
    ensures a.cells[i].off + CELL_HEADER <= |a.m|
    ensures JoinsPrev(a.cells, i) ==>
              a.cells[i - 1].End() == a.cells[i].off && a.cells[i - 1].off + CELL_HEADER <= a.cells[i].off
    ensures i > 0 ==> a.cells[i - 1].off + CELL_HEADER <= |a.m|
  {
    CellsInside(a);
    assert JoinsPrev(a.cells, i) ==> a.cells[i - 1].End() == a.cells[i].off;
    assert JoinsNext(a.cells, i) ==> a.cells[i].End() == a.cells[i + 1].off;
  }

  /** Only the headers of the merged cells are written, and the first of them reads the
      merged size. The header of cell i, stale when the cell was merged into its
      predecessor, still reads the cell's own size grown by its successor. */
  lemma CoalesceBytes(a: Arena, i: nat)
    requires Tiled(a) && i < |a.cells| && a.cells[i].size > 0
    requires a.cells[i].off + CELL_HEADER <= |a.m|
    requires i > 0 ==> a.cells[i - 1].off + CELL_HEADER <= |a.m|
    ensures var from := if JoinsPrev(a.cells, i) then i - 1 else i;
      var m := CoalesceImage(a.m, a.cells, i);
      && ReadI32(m, a.cells[from].off) == JoinedSize(a.cells, i)
      && ReadI32(m, a.cells[i].off) == OwnSize(a.cells, i)
      && SameOutside(a.m, m, a.cells[from].off, a.cells[i].off + CELL_HEADER)
  {
    hide PutSize, ReadI32, SameOutside, Chain;
    CoalesceSizes(a, i);
    var cs := a.cells;
    var own := OwnSize(cs, i);
    var grown := if JoinsNext(cs, i) then PutSize(a.m, cs[i].off, own) else a.m;
    var lo := if JoinsPrev(cs, i) then cs[i - 1].off else cs[i].off;
    var hi := cs[i].off + CELL_HEADER;
    assert SameOutside(a.m, grown, lo, hi) && ReadI32(grown, cs[i].off) == own by {
      if JoinsNext(cs, i) {
        PutSizeReads(a.m, cs[i].off, own);
        OutsideTwice(a.m, grown, grown, cs[i].off, cs[i].off + 4, lo, hi, lo, hi) by {
          SameMeansOutside(grown, lo, hi);
        }
      } else {
        SameMeansOutside(a.m, lo, hi);
        HeaderAt(a, i);
      }
    }
    if JoinsPrev(cs, i) {
      var r := PutSize(grown, cs[i - 1].off, cs[i - 1].size + own);
      PutSizeReads(grown, cs[i - 1].off, cs[i - 1].size + own);
      ReadOutside(grown, r, cs[i - 1].off, cs[i - 1].off + 4, cs[i].off);
      OutsideTwice(a.m, grown, r, lo, hi, lo, lo + 4, lo, hi);
    }
  }

  lemma HeaderAt(a: Arena, i: nat)
    requires Tiled(a) && i < |a.cells|
    ensures a.cells[i].off + CELL_HEADER <= |a.m|
    ensures ReadI32(a.m, a.cells[i].off) == a.cells[i].size
  {
  }

  /** Rewriting bytes inside a stretch of cells leaves all other cells as they were. */
  lemma StretchKept(a: Arena, m: Image, from: nat, to: nat)
    requires Tiled(a) && from < to <= |a.cells|
    requires SameOutside(a.m, m, a.cells[from].off, a.cells[to - 1].End())
    ensures |m| == |a.m|
    ensures forall j :: 0 <= j < |a.cells| ==>
              a.cells[j].End() <= |a.m| && a.cells[j].off + CELL_HEADER <= |a.m|
    ensures forall j :: 0 <= j < |a.cells| && !(from <= j < to) ==>
              CellBytes(m, a.cells[j]) == CellBytes(a.m, a.cells[j])
              && ReadI32(m, a.cells[j].off) == a.cells[j].size
  {
    hide Chain;
    CellsInside(a);
    var lo, hi := a.cells[from].off, a.cells[to - 1].End();
    forall j | 0 <= j < |a.cells| && !(from <= j < to)
      ensures CellBytes(m, a.cells[j]) == CellBytes(a.m, a.cells[j])
      ensures ReadI32(m, a.cells[j].off) == a.cells[j].size
    {
      assert if j < from then a.cells[j].End() <= lo else hi <= a.cells[j].off;
      BytesOutside(a.m, m, a.cells[j].off, a.cells[j].End(), lo, hi);
      ReadOutside(a.m, m, lo, hi, a.cells[j].off);
    }
  }

  lemma BytesOutside(m: Image, n: Image, from: nat, to: nat, lo: int, hi: int)
    requires SameOutside(m, n, lo, hi) && from <= to <= |m|
    requires to <= lo || hi <= from
    ensures n[from..to] == m[from..to]
  {
  }

  lemma ReplaceHeaders(a: Arena, m: Image, from: nat, to: nat, ns: seq<Cell>)
    requires Tiled(a) && from < to <= |a.cells|
    requires SameOutside(a.m, m, a.cells[from].off, a.cells[to - 1].End())
    requires Headers(m, ns)
    ensures Headers(m, Replace(a.cells, from, to, ns))
  {
    hide Chain, SameOutside, ReadI32, CellBytes;
    StretchKept(a, m, from, to);
    var rs := Replace(a.cells, from, to, ns);
    forall k | 0 <= k < |rs|
      ensures rs[k].off + CELL_HEADER <= |m| && ReadI32(m, rs[k].off) == rs[k].size
    {
      if k < from {
        assert rs[k] == a.cells[k];
      } else if k < from + |ns| {
        assert rs[k] == ns[k - from];
      } else {
        assert rs[k] == a.cells[k - |ns| + (to - from)];
      }
    }
  }

  /** The live cells outside a rewritten stretch survive with their bytes. */
  lemma LiveOutsideKept(a: Arena, b: Arena, from: nat, to: nat)
    requires Tiled(a) && from < to <= |a.cells|
    requires SameOutside(a.m, b.m, a.cells[from].off, a.cells[to - 1].End())
    requires forall c | c in Live(a.cells) && c !in a.cells[from..to] :: c in Live(b.cells)
    ensures KeptExcept(a, b, Elems(a.cells[from..to]))
  {
    hide SameOutside, Chain, ReadI32, CellBytes, Headers;
    StretchKept(a, b.m, from, to);
    forall c | c in Live(a.cells) && c !in Elems(a.cells[from..to])
      ensures Kept(a, b, c)
    {
      var j := OutsideStretch(a.cells, from, to, c);
      assert a.cells[j] == c;
    }
  }

  // ----- Operations

  /** Where HiveBinAllocateBlock looks: the first fitting cell, |cells| when none. */
  function Taken(a: Arena, n: nat): (i: nat)
    ensures i <= |a.cells|
  {
    if n == 0 then |a.cells| else FitIndex(a.cells, AlignUp8(n))
  }

  /** need bytes taken from the front of free cell i. */
  ghost function PlaceAt(a: Arena, i: nat, need: nat): (r: Arena)
    requires Tiled(a) && i < |a.cells| && Fits(a.cells[i], need)
  {
    CellsInside(a);
    Arena(PlaceImage(a.m, a.cells[i], need), Place(a.cells, i, need), a.hi)
  }

  /** HiveBinAllocateBlock: the arena afterwards and the offset returned (0 is failure). */
  ghost function Allocate(a: Arena, n: nat): (r: (Arena, nat))
    requires Tiled(a)
  {
    var i := Taken(a, n);
    if i == |a.cells| then (a, 0) else (PlaceAt(a, i, AlignUp8(n)), a.cells[i].off)
  }

  /** The allocation stays clear of the slack case. */
  ghost predicate Covered(a: Arena, n: nat) {
    Taken(a, n) < |a.cells| ==> Covers(a.cells[Taken(a, n)], AlignUp8(n))
  }

  /** The index of the cell that starts at off, |cs| when there is none. */
  function IndexAt(cs: seq<Cell>, off: nat): (i: nat)
    ensures i <= |cs|
    ensures i < |cs| ==> cs[i].off == off
    ensures forall j :: 0 <= j < i ==> cs[j].off != off
  {
    if cs == [] then 0
    else if cs[0].off == off then 0
    else
      var k := IndexAt(cs[1..], off);
      assert forall j :: 1 <= j <= k ==> cs[j] == cs[1..][j - 1];
      k + 1
  }

  /** The offsets a caller can hold: those of cells, and the ones every operation refuses. */
  ghost predicate Addressable(a: Arena, off: nat) {
    off == 0 || off >= a.hi || IndexAt(a.cells, off) < |a.cells|
  }

  lemma IndexAtCell(a: Arena, i: nat)
    requires Tiled(a) && i < |a.cells|
    ensures IndexAt(a.cells, a.cells[i].off) == i
  {
    CellsInside(a);
  }

  /** Allocated cell i marked free and merged with its free neighbours. */
  ghost function ReleaseAt(a: Arena, i: nat): (r: Arena)
    requires Tiled(a) && i < |a.cells|
  {
    CellsInside(a);
    Arena(ReleaseImage(a.m, a.cells, i), Release(a.cells, i), a.hi)
  }

  /** Free cell i merged with its free neighbours. */
  ghost function CoalesceAt(a: Arena, i: nat): (r: Arena)
    requires Tiled(a) && i < |a.cells|
  {
    CellsInside(a);
    Arena(CoalesceImage(a.m, a.cells, i), Coalesce(a.cells, i), a.hi)
  }

  /** HiveBinFreeBlock on an addressable offset: one that is not the start of an allocated
      cell is left alone. */
  ghost function Free(a: Arena, off: nat): (r: Arena)
    requires Tiled(a)
  {
    var i := IndexAt(a.cells, off);
    if i < |a.cells| && a.cells[i].size < 0 then ReleaseAt(a, i) else a
  }

  /** A live cell whose payload has room for n bytes. */
  predicate CanHold(c: Cell, n: nat) {
    c.size < 0 && -c.size >= n + CELL_HEADER
  }

  /** HiveBinWriteData. */
  ghost function Write(a: Arena, off: nat, data: Image): (r: Arena)
    requires Tiled(a)
  {
    CellsInside(a);
    var i := IndexAt(a.cells, off);
    if data != [] && i < |a.cells| && CanHold(a.cells[i], |data|)
    then a.(m := Blit(a.m, off + CELL_HEADER, data))
    else a
  }

  // ----- What one operation keeps

  lemma ReplaceTiled(a: Arena, m: Image, from: nat, to: nat, ns: seq<Cell>)
    requires Tiled(a) && from < to <= |a.cells|
    requires SameOutside(a.m, m, a.cells[from].off, a.cells[to - 1].End())
    requires Chain(ns, a.cells[from].off, a.cells[to - 1].End()) && Headers(m, ns)
    ensures Tiled(Arena(m, Replace(a.cells, from, to, ns), a.hi))
  {
    hide Chain, Headers, Replace;
    ReplaceChain(a.cells, from, to, ns, HIVE_HEADER, a.hi);
    ReplaceHeaders(a, m, from, to, ns);
  }

  lemma TiledParts(a: Arena)
    requires Tiled(a)
    ensures HIVE_HEADER <= a.hi <= |a.m| && a.hi < TWO_31
    ensures Chain(a.cells, HIVE_HEADER, a.hi) && Headers(a.m, a.cells)
  {
  }

  lemma CellInside(a: Arena, i: nat)
    requires Tiled(a) && i < |a.cells|
    ensures HIVE_HEADER <= a.cells[i].off && CELL_HEADER <= a.cells[i].Len()
    ensures a.cells[i].End() <= a.hi <= |a.m| && a.hi < TWO_31
  {
    CellsInside(a);
  }

  lemma PiecesTile(m: Image, c: Cell, need: nat)
    requires c.End() <= |m| && Fits(c, need) && c.Len() >= CELL_HEADER && c.size < TWO_31
    requires need % 8 == 0 && Covers(c, need)
    ensures Chain(Pieces(c, need), c.off, c.End())
    ensures Headers(PlaceImage(m, c, need), Pieces(c, need))
  {
    hide ReadI32, PlaceImage, SameOutside;
    PlaceBytes(m, c, need);
  }

  lemma PlaceTiledCovered(a: Arena, i: nat, need: nat)
    requires Tiled(a) && i < |a.cells| && Fits(a.cells[i], need) && need % 8 == 0
    requires Covers(a.cells[i], need)
    ensures Tiled(PlaceAt(a, i, need))
  {
    hide Headers, Chain, PlaceImage, Replace, SameOutside, Tiled, ReadI32, Pieces;
    CellInside(a, i);
    PlaceBytes(a.m, a.cells[i], need);
    PiecesTile(a.m, a.cells[i], need);
    ReplaceTiled(a, PlaceImage(a.m, a.cells[i], need), i, i + 1, Pieces(a.cells[i], need));
  }

  lemma PlaceTiled(a: Arena, i: nat, need: nat)
    requires Tiled(a) && i < |a.cells| && Fits(a.cells[i], need) && need % 8 == 0
    ensures Tiled(PlaceAt(a, i, need)) <==> Covers(a.cells[i], need)
  {
    hide Headers, Chain, PlaceImage, Place;
    PlaceChain(a.cells, i, need, HIVE_HEADER, a.hi);
    if Covers(a.cells[i], need) {
      PlaceTiledCovered(a, i, need);
    }
  }

  /** Allocation keeps the tiling exactly when it stays clear of the slack case. */
  lemma AllocateTiled(a: Arena, n: nat)
    requires Tiled(a)
    ensures Tiled(Allocate(a, n).0) <==> Covered(a, n)
  {
    if Taken(a, n) < |a.cells| {
      hide PlaceAt, Tiled;
      PlaceTiled(a, Taken(a, n), AlignUp8(n));
    }
  }

  /** First fit in sizes: an allocation succeeds exactly when some free cell is at least as large
      as the rounded request, and takes the first of them. */
  lemma AllocateFirstFit(a: Arena, n: nat)
    requires Tiled(a) && n > 0
    ensures Allocate(a, n).1 != 0 <==>
      exists i :: 0 <= i < |a.cells| && a.cells[i].size > 0 && a.cells[i].size >= AlignUp8(n)
    ensures Allocate(a, n).1 != 0 ==>
      exists i :: 0 <= i < |a.cells| && a.cells[i].off == Allocate(a, n).1
                  && a.cells[i].size > 0 && a.cells[i].size >= AlignUp8(n)
                  && forall j :: 0 <= j < i ==> a.cells[j].size <= 0 || a.cells[j].size < AlignUp8(n)
  {
    hide PlaceAt, AlignUp8, Chain, Headers;
    if Taken(a, n) < |a.cells| {
      CellInside(a, Taken(a, n));
    }
  }

  /** The two headers an allocation may write, with signature and flags cleared, and nothing else:
      the result is whole when the old cell is used up or the rest has a header of its own. */
  ghost predicate HeadersWritten(m: Image, r: Image, off: nat, need: nat, whole: bool) {
    && off + 8 <= |m| == |r|
    && ReadI32(r, off) == 0 - need && (need > 0 ==> r[off + 4..off + 8] == [0, 0, 0, 0])
    && var size := ReadI32(m, off);
       && off + size <= |m|
       && (size > need + 8 && need > 0 ==>
             ReadI32(r, off + need) == size - need && r[off + need + 4..off + need + 8] == [0, 0, 0, 0])
       && (whole <==> need > 0 && (size == need || size > need + 8))
       && (forall k | 0 <= k < |r| && !(off <= k < off + 8)
                      && !(size > need + 8 && off + need <= k < off + need + 8) :: r[k] == m[k])
  }

  lemma AllocateWrites(a: Arena, n: nat)
    requires Tiled(a) && Allocate(a, n).1 != 0
    ensures var (b, off) := Allocate(a, n); var need := AlignUp8(n);
      && off + 8 <= |a.m| == |b.m|
      && ReadI32(b.m, off) == 0 - need && (need > 0 ==> b.m[off + 4..off + 8] == [0, 0, 0, 0])
      && var size := ReadI32(a.m, off);
         && off + size <= |a.m|
         && (size > need + 8 && need > 0 ==>
               ReadI32(b.m, off + need) == size - need && b.m[off + need + 4..off + need + 8] == [0, 0, 0, 0])
         && (Tiled(b) <==> need > 0 && (size == need || size > need + 8))
         && (forall k | 0 <= k < |b.m| && !(off <= k < off + 8)
                        && !(size > need + 8 && off + need <= k < off + need + 8) :: b.m[k] == a.m[k])
    ensures var (b, off) := Allocate(a, n); HeadersWritten(a.m, b.m, off, AlignUp8(n), Tiled(b))
  {
    hide PutHeader, ReadI32, AlignUp8, Chain, Headers, Place, FitIndex;
    var i, need := Taken(a, n), AlignUp8(n);
    AllocateTiled(a, n);
    CellInside(a, i);
    HeaderAt(a, i);
    PlaceWrites(a.m, a.cells[i], need);
  }

  lemma PlaceWrites(m: Image, c: Cell, need: nat)
    requires c.End() <= |m| && Fits(c, need) && c.Len() >= CELL_HEADER && c.size < TWO_31 && need % 8 == 0
    ensures var r := PlaceImage(m, c, need);
      && ReadI32(r, c.off) == 0 - need && (need > 0 ==> r[c.off + 4..c.off + 8] == [0, 0, 0, 0])
      && (c.size > need + 8 && need > 0 ==>
            && ReadI32(r, c.off + need) == c.size - need
            && r[c.off + need + 4..c.off + need + 8] == [0, 0, 0, 0])
      && (forall k | 0 <= k < |r| && !(c.off <= k < c.off + 8)
                     && !(c.size > need + 8 && c.off + need <= k < c.off + need + 8) :: r[k] == m[k])
  {
    hide ReadI32, PutHeader;
    PlaceBytes(m, c, need);
    if Splits(c, need) {
      var split := PutHeader(m, c.off + need, c.size - need);
      PutHeaderReads(m, c.off + need, c.size - need);
      PutHeaderReads(split, c.off, 0 - need);
      PutHeaderClears(m, c.off + need, c.size - need);
      PutHeaderClears(split, c.off, 0 - need);
      if need > 0 {
        BytesOutside(split, PlaceImage(m, c, need), c.off + need + 4, c.off + need + 8, c.off, c.off + 8);
      }
    } else {
      PutHeaderReads(m, c.off, 0 - need);
      PutHeaderClears(m, c.off, 0 - need);
    }
  }

  lemma PlaceKept(a: Arena, i: nat, need: nat)
    requires Tiled(a) && i < |a.cells| && Fits(a.cells[i], need) && need % 8 == 0
    requires Covers(a.cells[i], need)
    ensures KeptExcept(a, PlaceAt(a, i, need), {})
    ensures Live(PlaceAt(a, i, need).cells) == Live(a.cells) + {Allocated(a.cells[i].off, need)}
  {
    hide Elems, Headers, Chain, PlaceImage, Place, SameOutside, Tiled, ReadI32, Live, KeptExcept;
    CellInside(a, i);
    PlaceLive(a.cells, i, need);
    TiledParts(a);
    FreeCellApart(a.cells, i, need, HIVE_HEADER, a.hi);
    PlaceBytes(a.m, a.cells[i], need);
    LiveOutsideKept(a, PlaceAt(a, i, need), i, i + 1);
    KeptFewer(a, PlaceAt(a, i, need), Elems(a.cells[i..i + 1]), {});
  }

  /** A successful allocation adds one extent of the rounded size, disjoint from every
      live cell, and leaves every live cell byte for byte as it was. */
  lemma AllocateKeeps(a: Arena, n: nat)
    requires Tiled(a) && Covered(a, n) && Taken(a, n) < |a.cells|
    ensures var (b, off) := Allocate(a, n);
      && off >= HIVE_HEADER
      && AlignUp8(n) >= CELL_HEADER
      && Tiled(b) && b.hi == a.hi && |b.m| == |a.m|
      && Live(b.cells) == Live(a.cells) + {Allocated(off, AlignUp8(n))}
      && Apart(a.cells, off, AlignUp8(n))
      && Allocated(off, AlignUp8(n)) !in Live(a.cells)
      && KeptExcept(a, b, {})
      && (NoAdjacentFree(a.cells) ==> NoAdjacentFree(b.cells))
  {
    hide KeptExcept, NoAdjacentFree, Live, Tiled, PlaceAt, AlignUp8, Apart;
    PlaceTiled(a, Taken(a, n), AlignUp8(n));
    PlaceKept(a, Taken(a, n), AlignUp8(n));
    PlaceApart(a, Taken(a, n), AlignUp8(n));
    ApartIsNew(a.cells, a.cells[Taken(a, n)].off, AlignUp8(n));
  }

  lemma PlaceApart(a: Arena, i: nat, need: nat)
    requires Tiled(a) && i < |a.cells| && Fits(a.cells[i], need) && need % 8 == 0
    requires Covers(a.cells[i], need)
    ensures a.cells[i].off >= HIVE_HEADER && need >= CELL_HEADER
    ensures Apart(a.cells, a.cells[i].off, need)
    ensures PlaceAt(a, i, need).hi == a.hi && |PlaceAt(a, i, need).m| == |a.m|
    ensures NoAdjacentFree(a.cells) ==> NoAdjacentFree(PlaceAt(a, i, need).cells)
  {
    hide NoAdjacentFree, Live, Tiled, Place, PlaceImage, Chain, Headers, Apart;
    CellInside(a, i);
    TiledParts(a);
    FreeCellApart(a.cells, i, need, HIVE_HEADER, a.hi);
    if NoAdjacentFree(a.cells) {
      PlaceNoAdjacentFree(a.cells, i, need);
    }
  }

  /** Freeing clears signature and flags of the cell's header, wherever it ends up in a merge. */
  lemma FreeClears(a: Arena, i: nat)
    requires Tiled(a) && i < |a.cells| && a.cells[i].size < 0
    ensures var r := Free(a, a.cells[i].off);
      a.cells[i].off + 8 <= |r.m| && r.m[a.cells[i].off + 4..a.cells[i].off + 8] == [0, 0, 0, 0]
  {
    hide Tiled, PutHeader, PutSize, IndexAt, Release;
    IndexAtCell(a, i);
    CellInside(a, i);
    if i > 0 {
      CellInside(a, i - 1);
      CellsApartInOrder(a, i);
    }
    var c := a.cells[i];
    var cs := a.cells[i := Cell(c.off, c.Len())];
    var m := PutHeader(a.m, c.off, c.Len());
    PutHeaderClears(a.m, c.off, c.Len());
    var own := OwnSize(cs, i);
    var grown := if JoinsNext(cs, i) then PutSize(m, c.off, own) else m;
    SizeAlone(m, c.off, own, c.off);
    if JoinsPrev(cs, i) {
      SizeAlone(grown, cs[i - 1].off, cs[i - 1].size + own, c.off);
    }
  }

  lemma CellsApartInOrder(a: Arena, i: nat)
    requires Tiled(a) && 0 < i < |a.cells|
    ensures a.cells[i - 1].End() <= a.cells[i].off && a.cells[i - 1].off + 8 <= a.cells[i].off
  {
    CellsInside(a);
  }

  /** Rewriting a size leaves the signature and flags of any header at or behind it. */
  lemma SizeAlone(m: Image, off: nat, size: int, at: nat)
    requires off + 4 <= |m| && at + 8 <= |m| && (at == off || off + 8 <= at)
    ensures PutSize(m, off, size)[at + 4..at + 8] == m[at + 4..at + 8]
  {
    hide EncodeI32;
    BlitSlice(m, off, EncodeI32(size), at + 4, at + 8);
  }

  lemma MarkedBytes(a: Arena, i: nat)
    requires Tiled(a) && i < |a.cells| && a.cells[i].size < 0
    ensures var c := Cell(a.cells[i].off, a.cells[i].Len());
      && c.off + CELL_HEADER <= c.End() <= |a.m|
      && SameOutside(a.m, PutHeader(a.m, c.off, c.size), c.off, c.End())
      && Headers(PutHeader(a.m, c.off, c.size), [c])
      && Chain([c], c.off, c.End())
  {
    hide PutHeader, ReadI32, SameOutside, Tiled;
    CellInside(a, i);
    var c := Cell(a.cells[i].off, a.cells[i].Len());
    var m := PutHeader(a.m, c.off, c.size);
    PutHeaderReads(a.m, c.off, c.size);
    SameMeansOutside(m, c.off, c.End());
    OutsideTwice(a.m, m, m, c.off, c.off + CELL_HEADER, c.off, c.End(), c.off, c.End());
  }

  lemma MarkedTiled(a: Arena, i: nat)
    requires Tiled(a) && i < |a.cells| && a.cells[i].size < 0
    ensures a.cells[i].off + CELL_HEADER <= |a.m|
    ensures i > 0 ==> a.cells[i - 1].off + CELL_HEADER <= |a.m|
    ensures var c := Cell(a.cells[i].off, a.cells[i].Len());
      && Tiled(Arena(PutHeader(a.m, c.off, c.size), a.cells[i := c], a.hi))
      && SameOutside(a.m, PutHeader(a.m, c.off, c.size), c.off, c.End())
      && Live(a.cells[i := c]) == Live(a.cells) - {a.cells[i]}
  {
    hide PutHeader, SameOutside, Live, Chain, Replace, Tiled, Headers;
    if i > 0 { CellInside(a, i - 1); }
    MarkedBytes(a, i);
    TiledParts(a);
    ReleaseMarked(a.cells, i, HIVE_HEADER, a.hi);
    var c := Cell(a.cells[i].off, a.cells[i].Len());
    UpdateIsReplace(a.cells, i, c);
    ReplaceTiled(a, PutHeader(a.m, c.off, c.size), i, i + 1, [c]);
  }

  /** Merging free cells keeps the tiling, and writes only inside them. */
  lemma CoalesceTiled(a: Arena, i: nat)
    requires Tiled(a) && i < |a.cells| && a.cells[i].size > 0
    ensures a.cells[i].off + CELL_HEADER <= |a.m|
    ensures i > 0 ==> a.cells[i - 1].off + CELL_HEADER <= |a.m|
    ensures Tiled(Arena(CoalesceImage(a.m, a.cells, i), Coalesce(a.cells, i), a.hi))
    ensures var from := if JoinsPrev(a.cells, i) then i - 1 else i;
      SameOutside(a.m, CoalesceImage(a.m, a.cells, i), a.cells[from].off, a.cells[i].End())
  {
    hide Chain, SameOutside, ReadI32, CoalesceImage, Replace, Tiled, JoinedSize, Headers;
    var cs := a.cells;
    var from := if JoinsPrev(cs, i) then i - 1 else i;
    var to := if JoinsNext(cs, i) then i + 2 else i + 1;
    var merged := Cell(cs[from].off, JoinedSize(cs, i));
    MergedCell(a, i);
    MergedBytes(a, i);
    ReplaceTiled(a, CoalesceImage(a.m, cs, i), from, to, [merged]);
  }

  lemma MergedBytes(a: Arena, i: nat)
    requires Tiled(a) && i < |a.cells| && a.cells[i].size > 0
    requires a.cells[i].off + CELL_HEADER <= |a.m|
    requires i > 0 ==> a.cells[i - 1].off + CELL_HEADER <= |a.m|
    ensures var from := if JoinsPrev(a.cells, i) then i - 1 else i;
      var merged := Cell(a.cells[from].off, JoinedSize(a.cells, i));
      var m := CoalesceImage(a.m, a.cells, i);
      && Headers(m, [merged])
      && SameOutside(a.m, m, a.cells[from].off, a.cells[i].End())
      && SameOutside(a.m, m, a.cells[from].off, merged.End())
  {
    hide Chain, SameOutside, ReadI32, CoalesceImage, Tiled, JoinedSize;
    var cs := a.cells;
    var from := if JoinsPrev(cs, i) then i - 1 else i;
    var merged := Cell(cs[from].off, JoinedSize(cs, i));
    var m := CoalesceImage(a.m, cs, i);
    MergedCell(a, i);
    CoalesceBytes(a, i);
    SameMeansOutside(m, cs[from].off, merged.End());
    SameMeansOutside(m, cs[from].off, cs[i].End());
    OutsideTwice(a.m, m, m, cs[from].off, cs[i].off + CELL_HEADER, cs[from].off, cs[i].End(),
                 cs[from].off, cs[i].End());
    OutsideTwice(a.m, m, m, cs[from].off, cs[i].End(), cs[from].off, merged.End(), cs[from].off, merged.End());
  }

  lemma MergedCell(a: Arena, i: nat)
    requires Tiled(a) && i < |a.cells| && a.cells[i].size > 0
    ensures a.cells[i].Len() >= CELL_HEADER
    ensures a.cells[i].off + CELL_HEADER <= |a.m|
    ensures i > 0 ==> a.cells[i - 1].off + CELL_HEADER <= |a.m|
    ensures var from := if JoinsPrev(a.cells, i) then i - 1 else i;
      var to := if JoinsNext(a.cells, i) then i + 2 else i + 1;
      var merged := Cell(a.cells[from].off, JoinedSize(a.cells, i));
      && Chain([merged], a.cells[from].off, a.cells[to - 1].End())
      && merged.End() == a.cells[to - 1].End() <= |a.m|
      && a.cells[from].off <= a.cells[i].off
      && a.cells[i].End() <= merged.End()
  {
    CellsInside(a);
    CoalesceSizes(a, i);
    assert JoinsNext(a.cells, i) ==> a.cells[i].End() == a.cells[i + 1].off;
  }

  /** Merging keeps every allocated cell, its bytes, and the total free space. */
  lemma CoalesceKept(a: Arena, i: nat)
    requires Tiled(a) && i < |a.cells| && a.cells[i].size > 0
    ensures var b := CoalesceAt(a, i);
      && Tiled(b) && b.hi == a.hi
      && Live(b.cells) == Live(a.cells)
      && FreeBytes(b.cells) == FreeBytes(a.cells)
      && KeptExcept(a, b, {})
  {
    hide Tiled, CoalesceImage, Coalesce, KeptExcept, SameOutside, Live, Elems, FreeBytes;
    var from := if JoinsPrev(a.cells, i) then i - 1 else i;
    CoalesceTiled(a, i);
    CoalesceKeeps(a.cells, i);
    FreeCellsNotLive(a.cells, from, i + 1);
    LiveOutsideKept(a, CoalesceAt(a, i), from, i + 1);
    KeptFewer(a, CoalesceAt(a, i), Elems(a.cells[from..i + 1]), {});
  }

  lemma FreeCellsNotLive(cs: seq<Cell>, from: nat, to: nat)
    requires from <= to <= |cs|
    requires forall j :: from <= j < to ==> cs[j].size > 0
    ensures Elems(cs[from..to]) * Live(cs) == {}
  {
  }

  /** Freeing an allocated cell keeps the tiling and writes only inside the cell and a
      free predecessor. */
  lemma ReleaseTiled(a: Arena, i: nat)
    requires Tiled(a) && i < |a.cells| && a.cells[i].size < 0
    ensures Tiled(ReleaseAt(a, i))
    ensures var from := if JoinsPrev(a.cells, i) then i - 1 else i;
      SameOutside(a.m, ReleaseAt(a, i).m, a.cells[from].off, a.cells[i].End())
  {
    hide Tiled, SameOutside, CoalesceImage, Coalesce, PutHeader, Headers, Chain;
    MarkedTiled(a, i);
    var c := Cell(a.cells[i].off, a.cells[i].Len());
    var marked := Arena(PutHeader(a.m, c.off, c.size), a.cells[i := c], a.hi);
    CellsInside(a);
    CoalesceTiled(marked, i);
    var from := if JoinsPrev(a.cells, i) then i - 1 else i;
    assert marked.cells[from].off == a.cells[from].off;
    OutsideTwice(a.m, marked.m, ReleaseAt(a, i).m, c.off, c.End(),
                 a.cells[from].off, c.End(), a.cells[from].off, c.End());
  }

  /** Freeing is marking and then merging. */
  lemma ReleaseIsCoalesce(a: Arena, i: nat)
    requires Tiled(a) && i < |a.cells| && a.cells[i].size < 0
    ensures a.cells[i].off + CELL_HEADER <= |a.m|
    ensures var c := Cell(a.cells[i].off, a.cells[i].Len());
      var marked := Arena(PutHeader(a.m, c.off, c.size), a.cells[i := c], a.hi);
      Tiled(marked) && ReleaseAt(a, i) == CoalesceAt(marked, i)
  {
    hide Tiled, SameOutside, Live, PutHeader, CoalesceImage, Coalesce;
    MarkedTiled(a, i);
  }

  /** Freeing keeps the tiling, whichever cell it is aimed at. */
  lemma FreeTiled(a: Arena, off: nat)
    requires Tiled(a) && Addressable(a, off)
    ensures Tiled(Free(a, off))
  {
    var i := IndexAt(a.cells, off);
    if i < |a.cells| && a.cells[i].size < 0 {
      hide Tiled, ReleaseAt;
      ReleaseTiled(a, i);
    }
  }

  lemma ReleasedOnly(cs: seq<Cell>, i: nat)
    requires i < |cs| && cs[i].size < 0
    ensures var from := if JoinsPrev(cs, i) then i - 1 else i;
      Elems(cs[from..i + 1]) * Live(cs) == {cs[i]}
  {
    assert cs[if JoinsPrev(cs, i) then i - 1 else i..i + 1]
           == (if JoinsPrev(cs, i) then [cs[i - 1]] else []) + [cs[i]];
  }

  lemma ReleaseKept(a: Arena, i: nat)
    requires Tiled(a) && i < |a.cells| && a.cells[i].size < 0
    ensures KeptExcept(a, ReleaseAt(a, i), {a.cells[i]})
    ensures Live(ReleaseAt(a, i).cells) == Live(a.cells) - {a.cells[i]}
    ensures ReleaseAt(a, i).hi == a.hi && |ReleaseAt(a, i).m| == |a.m|
  {
    hide ReadI32, SameOutside, ReleaseImage, Release, Chain, KeptExcept, Headers, Live, Tiled;
    var from := if JoinsPrev(a.cells, i) then i - 1 else i;
    TiledParts(a);
    ReleaseKeeps(a.cells, i, HIVE_HEADER, a.hi);
    LiveOfStretch(a.cells, i);
    ReleasedOnly(a.cells, i);
    ReleaseTiled(a, i);
    LiveOutsideKept(a, ReleaseAt(a, i), from, i + 1);
    KeptFewer(a, ReleaseAt(a, i), Elems(a.cells[from..i + 1]), {a.cells[i]});
  }

  lemma LiveOfStretch(cs: seq<Cell>, i: nat)
    requires i < |cs| && cs[i].size < 0
    ensures var from := if JoinsPrev(cs, i) then i - 1 else i;
      forall c | c in Live(cs) && c !in cs[from..i + 1] :: c in Live(cs) - {cs[i]}
  {
    ReleasedOnly(cs, i);
  }

  /** Freeing an allocated cell removes its extent and leaves every other live cell
      byte for byte as it was. */
  lemma FreeKeeps(a: Arena, i: nat)
    requires Tiled(a) && i < |a.cells| && a.cells[i].size < 0
    ensures var b := Free(a, a.cells[i].off);
      && Tiled(b) && b.hi == a.hi && |b.m| == |a.m|
      && Live(b.cells) == Live(a.cells) - {a.cells[i]}
      && KeptExcept(a, b, {a.cells[i]})
      && (NoAdjacentFree(a.cells) ==> NoAdjacentFree(b.cells))
  {
    hide KeptExcept, NoAdjacentFree, Live, Tiled, Release, ReleaseImage;
    IndexAtCell(a, i);
    if NoAdjacentFree(a.cells) {
      ReleaseNoAdjacentFree(a.cells, i);
    }
    ReleaseTiled(a, i);
    ReleaseKept(a, i);
  }

  lemma KeptAsIs(a: Arena)
    requires Tiled(a)
    ensures KeptExcept(a, a, {})
  {
    hide CellBytes, Chain, Headers;
    CellsInside(a);
    forall c | c in Live(a.cells)
      ensures Kept(a, a, c)
    {
      var j :| 0 <= j < |a.cells| && a.cells[j] == c;
    }
  }

  lemma BlitOutside(m: Image, at: nat, data: Image)
    requires at + |data| <= |m|
    ensures SameOutside(m, Blit(m, at, data), at, at + |data|)
  {
    BlitAt(m, at, data);
  }

  lemma ElemsOne(cs: seq<Cell>, i: nat)
    requires i < |cs|
    ensures Elems(cs[i..i + 1]) == {cs[i]}
  {
  }

  lemma PatchBytes(m: Image, c: Cell, at: nat, data: Image)
    requires c.End() <= |m| && c.Len() >= CELL_HEADER && ReadI32(m, c.off) == c.size
    requires c.off + 4 <= at && at + |data| <= c.End()
    ensures SameOutside(m, Blit(m, at, data), c.off, c.End())
    ensures Headers(Blit(m, at, data), [c]) && Chain([c], c.off, c.End())
  {
    hide SameOutside, Blit, ReadI32;
    var r := Blit(m, at, data);
    BlitOutside(m, at, data);
    SameMeansOutside(r, c.off, c.End());
    OutsideTwice(m, r, r, at, at + |data|, c.off, c.End(), c.off, c.End());
    ReadOutside(m, r, at, at + |data|, c.off);
  }

  /** Writing bytes of one cell past its size field changes no other cell. */
  lemma PatchKeeps(a: Arena, i: nat, at: nat, data: Image)
    requires Tiled(a) && i < |a.cells|
    requires a.cells[i].off + 4 <= at && at + |data| <= a.cells[i].End()
    ensures at + |data| <= |a.m|
    ensures var b := a.(m := Blit(a.m, at, data));
      Tiled(b) && KeptExcept(a, b, {a.cells[i]})
  {
    hide SameOutside, Blit, ReadI32, Live, KeptExcept, Chain, Headers, Tiled, Replace, Elems;
    CellInside(a, i);
    HeaderAt(a, i);
    var m := Blit(a.m, at, data);
    var c := a.cells[i];
    assert a.cells[i := c] == a.cells;
    ElemsOne(a.cells, i);
    PatchBytes(a.m, c, at, data);
    UpdateIsReplace(a.cells, i, c);
    ReplaceTiled(a, m, i, i + 1, [c]);
    LiveOutsideKept(a, a.(m := m), i, i + 1);
  }

  lemma PatchTwice(a: Arena, i: nat, at: nat, data: Image, at2: nat, data2: Image)
    requires Tiled(a) && i < |a.cells|
    requires a.cells[i].off + 4 <= at && at + |data| <= a.cells[i].End()
    requires a.cells[i].off + 4 <= at2 && at2 + |data2| <= a.cells[i].End()
    ensures a.cells[i].End() <= |a.m|
    ensures var b := a.(m := Blit(Blit(a.m, at, data), at2, data2));
      Tiled(b) && KeptExcept(a, b, {a.cells[i]})
  {
    hide Tiled, KeptExcept, Blit;
    CellInside(a, i);
    var b := a.(m := Blit(a.m, at, data));
    PatchKeeps(a, i, at, data);
    PatchKeeps(b, i, at2, data2);
    KeptTwice(a, b, a.(m := Blit(Blit(a.m, at, data), at2, data2)), {a.cells[i]}, {a.cells[i]});
    assert {a.cells[i]} + {a.cells[i]} == {a.cells[i]};
  }

  /** The live cells that start at off. */
  ghost function LiveAt(a: Arena, off: int): set<Cell> {
    set c | c in Live(a.cells) && c.off == off
  }

  /** Writing a payload changes no header and no other cell. */
  lemma WriteKeeps(a: Arena, off: nat, data: Image)
    requires Tiled(a) && Addressable(a, off)
    ensures var b := Write(a, off, data);
      && Tiled(b) && b.cells == a.cells && b.hi == a.hi
      && KeptExcept(a, b, LiveAt(a, off))
  {
    var i := IndexAt(a.cells, off);
    if data != [] && i < |a.cells| && CanHold(a.cells[i], |data|) {
      hide Tiled, Live, Kept, Blit, KeptExcept;
      PatchKeeps(a, i, off + CELL_HEADER, data);
      KeptFewer(a, Write(a, off, data), {a.cells[i]}, LiveAt(a, off));
    } else {
      KeptAsIs(a);
      KeptFewer(a, a, {}, LiveAt(a, off));
    }
  }

  // ----- Offsets inside a cell

  /** off lies in cell i, past its size field, with room for a header before the cell ends. */
  ghost predicate Inside(a: Arena, i: nat, off: nat) {
    i < |a.cells| && a.cells[i].off + 4 <= off && off + CELL_HEADER <= a.cells[i].End()
  }

  /** The successor that the positive size at off leads to can be read, and merging with it
      does not overflow an INT32. */
  predicate NextReadable(m: Image, hi: nat, off: nat) {
    && off + CELL_HEADER <= |m|
    && var v := ReadI32(m, off);
       && v > 0
       && (off + v < hi ==> off + v + 4 <= |m| && v + ReadI32(m, off + v) < TWO_31)
  }

  /** The size at off grown by a free successor. */
  function GrownAt(m: Image, hi: nat, off: nat): (r: Image)
    requires NextReadable(m, hi, off)
    ensures |r| == |m|
  {
    var v := ReadI32(m, off);
    if off + v < hi && ReadI32(m, off + v) > 0 then PutSize(m, off, v + ReadI32(m, off + v)) else m
  }

  /** What the bytes at an offset inside a cell must be for the code to free it safely. */
  predicate StrayReadable(m: Image, hi: nat, off: nat) {
    && off + CELL_HEADER <= |m|
    && var v := ReadI32(m, off);
       v < 0 ==> v > -TWO_31 && NextReadable(PutHeader(m, off, -v), hi, off)
  }

  /** HiveBinFreeBlock on an offset inside a cell: bytes that read as an allocated header are
      turned into a free one; no cell before it ends there. */
  function FreeInside(m: Image, hi: nat, off: nat): (r: Image)
    requires StrayReadable(m, hi, off)
    ensures |r| == |m|
  {
    var v := ReadI32(m, off);
    if v < 0 then GrownAt(PutHeader(m, off, -v), hi, off) else m
  }

  lemma GrowInsideKeeps(a: Arena, i: nat, off: nat)
    requires Tiled(a) && Inside(a, i, off) && NextReadable(a.m, a.hi, off)
    ensures var b := a.(m := GrownAt(a.m, a.hi, off));
      Tiled(b) && KeptExcept(a, b, {a.cells[i]})
  {
    hide Tiled, ReadI32, KeptExcept, Live, Blit, EncodeI32;
    var v := ReadI32(a.m, off);
    if off + v < a.hi && ReadI32(a.m, off + v) > 0 {
      PatchKeeps(a, i, off, EncodeI32(v + ReadI32(a.m, off + v)));
    } else {
      KeptAsIs(a);
      KeptFewer(a, a, {}, {a.cells[i]});
    }
  }

  /** A free aimed inside a cell, past its size field, keeps the tiling and damages no other cell. */
  lemma FreeInsideKeeps(a: Arena, i: nat, off: nat)
    requires Tiled(a) && i < |a.cells| && a.cells[i].off + 4 <= off && off + 8 <= a.cells[i].End()
    requires StrayReadable(a.m, a.hi, off)
    ensures var b := a.(m := FreeInside(a.m, a.hi, off));
      Tiled(b) && KeptExcept(a, b, {a.cells[i]})
  {
    hide Tiled, ReadI32, KeptExcept, Live, Blit, EncodeI32, GrownAt, NextReadable, Kept;
    var v := ReadI32(a.m, off);
    if v < 0 {
      var b := a.(m := PutHeader(a.m, off, -v));
      PatchKeeps(a, i, off, EncodeI32(-v) + [0, 0, 0, 0]);
      GrowInsideKeeps(b, i, off);
      KeptTwice(a, b, b.(m := GrownAt(b.m, b.hi, off)), {a.cells[i]}, {a.cells[i]});
      assert {a.cells[i]} + {a.cells[i]} == {a.cells[i]};
    } else {
      KeptAsIs(a);
      KeptFewer(a, a, {}, {a.cells[i]});
    }
  }

  // ----- Canonical map

  /** Tiled, and free space is fully merged. */
  ghost predicate Canonical(a: Arena) {
    Tiled(a) && NoAdjacentFree(a.cells)
  }

  /** Two canonical arenas of one size with the same live extents have the same map. */
  lemma MapFromLiveExtents(a: Arena, b: Arena)
    requires Canonical(a) && Canonical(b) && a.hi == b.hi
    requires Live(a.cells) == Live(b.cells)
    ensures a.cells == b.cells
  {
    CanonicalMap(a.cells, b.cells, HIVE_HEADER, a.hi);
  }

  /** Allocating and then freeing what was allocated restores the cell map, and no live
      cell notices. */
  lemma AllocateThenFree(a: Arena, n: nat)
    requires Canonical(a) && Covered(a, n) && Taken(a, n) < |a.cells|
    requires Tiled(Allocate(a, n).0)
    ensures var (b, off) := Allocate(a, n);
      var c := Free(b, off);
      && Canonical(c) && c.cells == a.cells
      && KeptExcept(a, c, {})
  {
    hide KeptExcept, NoAdjacentFree, Chain, Headers, Allocate, Free, AlignUp8, Taken, Tiled, Live, Apart;
    var (b, off) := Allocate(a, n);
    AllocateKeeps(a, n);
    var taken := Allocated(off, AlignUp8(n));
    var i := LiveIndex(b.cells, taken);
    FreeKeeps(b, i);
    MapFromLiveExtents(Free(b, off), a);
    KeptTwice(a, b, Free(b, off), {}, {taken});
    assert {} + {taken} == {taken};
    KeptFewer(a, Free(b, off), {taken}, {});
  }
}
