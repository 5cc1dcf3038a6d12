/** Compaction: packing the allocated cells of an arena, in order, from the hive header. */
module HiveCompaction {
  import opened ByteMemory
  import opened CellMap
  import opened HiveArena

  /** The allocated cells in address order. */
  function LiveList(cs: seq<Cell>): seq<Cell> {
    if cs == [] then []
    else (if cs[0].size < 0 then [cs[0]] else []) + LiveList(cs[1..])
  }

  /** The allocated cells moved together, the first one to offset w. */
  function Packed(cs: seq<Cell>, w: nat): seq<Cell> {
    if cs == [] then []
    else if cs[0].size < 0 then [Cell(w, cs[0].size)] + Packed(cs[1..], w + cs[0].Len())
    else Packed(cs[1..], w)
  }

  ghost predicate InBuffer(m: Image, cs: seq<Cell>) {
    forall i :: 0 <= i < |cs| ==> cs[i].End() <= |m|
  }

  /** The bytes of the allocated cells, one after the other. */
  ghost function LiveImage(m: Image, cs: seq<Cell>): (r: Image)
    requires InBuffer(m, cs)
    ensures |r| == LiveBytes(cs)
  {
    if cs == [] then []
    else (if cs[0].size < 0 then CellBytes(m, cs[0]) else []) + LiveImage(m, cs[1..])
  }

  /** m holds the packed image of cs at offset w. */
  ghost predicate HoldsPacked(r: Image, w: nat, m: Image, cs: seq<Cell>)
    requires InBuffer(m, cs)
  {
    w + LiveBytes(cs) <= |r| && r[w..w + LiveBytes(cs)] == LiveImage(m, cs)
  }

  /** One step of the packing functions. */
  lemma PackingHead(cs: seq<Cell>, w: nat)
    requires cs != []
    ensures cs[0].size < 0 ==>
              && Packed(cs, w) == [Cell(w, cs[0].size)] + Packed(cs[1..], w + cs[0].Len())
              && LiveBytes(cs) == cs[0].Len() + LiveBytes(cs[1..])
              && LiveList(cs) == [cs[0]] + LiveList(cs[1..])
    ensures cs[0].size >= 0 ==>
              && Packed(cs, w) == Packed(cs[1..], w)
              && LiveBytes(cs) == LiveBytes(cs[1..])
              && LiveList(cs) == LiveList(cs[1..])
  {
  }

  lemma LiveImageHead(m: Image, cs: seq<Cell>)
    requires InBuffer(m, cs) && cs != []
    ensures InBuffer(m, cs[1..]) && cs[0].End() <= |m|
    ensures cs[0].size < 0 ==> LiveImage(m, cs) == CellBytes(m, cs[0]) + LiveImage(m, cs[1..])
    ensures cs[0].size >= 0 ==> LiveImage(m, cs) == LiveImage(m, cs[1..])
  {
  }

  lemma HoldsPackedTail(r: Image, w: nat, m: Image, cs: seq<Cell>)
    requires InBuffer(m, cs) && cs != [] && HoldsPacked(r, w, m, cs)
    ensures HoldsPacked(r, if cs[0].size < 0 then w + cs[0].Len() else w, m, cs[1..])
    ensures cs[0].size < 0 ==> w + cs[0].Len() <= |r| && r[w..w + cs[0].Len()] == CellBytes(m, cs[0])
  {
    hide LiveBytes, LiveImage, InBuffer;
    PackingHead(cs, w);
    LiveImageHead(m, cs);
    if cs[0].size < 0 {
      SplitAt(r, w, w + LiveBytes(cs), CellBytes(m, cs[0]), LiveImage(m, cs[1..]));
    }
  }

  lemma SplitAt(r: Image, lo: nat, hi: nat, x: Image, y: Image)
    requires lo <= hi <= |r| && r[lo..hi] == x + y
    ensures r[lo..lo + |x|] == x && r[lo + |x|..hi] == y
  {
    assert |x| + |y| == hi - lo;
    SliceOfSlice(r, lo, hi, 0, |x|);
    SliceOfSlice(r, lo, hi, |x|, hi - lo);
    assert (x + y)[0..|x|] == x && (x + y)[|x|..|x| + |y|] == y;
  }

  lemma EmptyPacking(w: nat)
    ensures Packed([], w) == [] && LiveBytes([]) == 0 && LiveList([]) == []
  {
  }

  lemma {:induction false} PackedChain(cs: seq<Cell>, w: nat)
    requires forall i :: 0 <= i < |cs| ==> cs[i].Len() >= CELL_HEADER
    ensures Chain(Packed(cs, w), w, w + LiveBytes(cs))
    ensures forall i :: 0 <= i < |Packed(cs, w)| ==> Packed(cs, w)[i].size < 0
  {
    hide Chain, Packed, LiveBytes;
    if cs == [] {
      EmptyPacking(w);
      EmptyChain(w);
    } else {
      PackingHead(cs, w);
      if cs[0].size < 0 {
        PackedChain(cs[1..], w + cs[0].Len());
        var c := Cell(w, cs[0].size);
        OneCellChain(c);
        ChainAppend([c], Packed(cs[1..], c.End()), w, c.End(), w + LiveBytes(cs));
      } else {
        PackedChain(cs[1..], w);
      }
    }
  }

  /** In a buffer holding the packed image, the packed cells are exactly the allocated
      cells of the source, in order, of the same sizes and with identical bytes. */
  lemma {:induction false} PackedMatches(r: Image, w: nat, m: Image, cs: seq<Cell>)
    requires InBuffer(m, cs) && HoldsPacked(r, w, m, cs)
    ensures |Packed(cs, w)| == |LiveList(cs)|
    ensures forall j :: 0 <= j < |LiveList(cs)| ==>
              && Packed(cs, w)[j].size == LiveList(cs)[j].size
              && Packed(cs, w)[j].End() <= |r| && LiveList(cs)[j].End() <= |m|
              && CellBytes(r, Packed(cs, w)[j]) == CellBytes(m, LiveList(cs)[j])
    decreases |cs|
  {
    hide LiveImage, HoldsPacked, Packed, LiveList, LiveBytes, InBuffer;
    if cs == [] {
      EmptyPacking(w);
    } else {
      PackingHead(cs, w);
      LiveImageHead(m, cs);
      var rest := if cs[0].size < 0 then w + cs[0].Len() else w;
      HoldsPackedTail(r, w, m, cs);
      PackedMatches(r, rest, m, cs[1..]);
      if cs[0].size < 0 {
        var c := Cell(w, cs[0].size);
        assert CellBytes(r, c) == CellBytes(m, cs[0]);
        assert forall j :: 1 <= j < |LiveList(cs)| ==>
            LiveList(cs)[j] == LiveList(cs[1..])[j - 1] && Packed(cs, w)[j] == Packed(cs[1..], rest)[j - 1];
      } else {
        assert LiveList(cs) == LiveList(cs[1..]);
      }
    }
  }

  /** LiveList names the live cells and no others, in address order. */
  lemma {:induction false} LiveListIsLive(cs: seq<Cell>)
    ensures forall c :: c in LiveList(cs) <==> c in Live(cs)
  {
    if cs != [] {
      LiveListIsLive(cs[1..]);
      assert cs == [cs[0]] + cs[1..];
    }
  }

  lemma PackedHeaders(a: Arena, r: Image)
    requires Tiled(a) && InBuffer(a.m, a.cells)
    requires HoldsPacked(r, HIVE_HEADER, a.m, a.cells)
    ensures Chain(Packed(a.cells, HIVE_HEADER), HIVE_HEADER, HIVE_HEADER + LiveBytes(a.cells))
    ensures Headers(r, Packed(a.cells, HIVE_HEADER))
  {
    hide Live, Chain, Tiled, HoldsPacked, CellBytes, Packed, LiveList, LiveBytes, ReadI32, LiveImage;
    CellsInside(a);
    TiledParts(a);
    PackedChain(a.cells, HIVE_HEADER);
    PackedMatches(r, HIVE_HEADER, a.m, a.cells);
    LiveListIsLive(a.cells);
    var ps, ls := Packed(a.cells, HIVE_HEADER), LiveList(a.cells);
    forall j | 0 <= j < |ps|
      ensures ps[j].off + CELL_HEADER <= |r| && ReadI32(r, ps[j].off) == ps[j].size
    {
      assert ls[j] in Live(a.cells);
      var i := LiveIndex(a.cells, ls[j]);
      HeaderAt(a, i);
      HeaderCopied(a.m, ls[j], r, ps[j]);
    }
  }

  lemma HeaderCopied(m: Image, c: Cell, r: Image, d: Cell)
    requires c.End() <= |m| && d.End() <= |r| && c.Len() >= CELL_HEADER
    requires c.size == d.size && CellBytes(r, d) == CellBytes(m, c)
    ensures ReadI32(r, d.off) == ReadI32(m, c.off)
  {
    hide Decode;
    SliceOfSlice(m, c.off, c.End(), 0, 4);
    SliceOfSlice(r, d.off, d.End(), 0, 4);
  }

  lemma {:induction false} LiveImageAppend(m: Image, a: seq<Cell>, b: seq<Cell>)
    requires InBuffer(m, a) && InBuffer(m, b) && InBuffer(m, a + b)
    ensures LiveImage(m, a + b) == LiveImage(m, a) + LiveImage(m, b)
    ensures LiveBytes(a + b) == LiveBytes(a) + LiveBytes(b)
  {
    if a == [] {
      assert a + b == b;
    } else {
      assert (a + b)[1..] == a[1..] + b;
      LiveImageAppend(m, a[1..], b);
    }
  }

  lemma LiveImageStep(a: Arena, k: nat)
    requires Tiled(a) && k < |a.cells|
    ensures InBuffer(a.m, a.cells[..k]) && InBuffer(a.m, a.cells[..k + 1]) && a.cells[k].End() <= |a.m|
    ensures var more := if a.cells[k].size < 0 then CellBytes(a.m, a.cells[k]) else [];
      LiveImage(a.m, a.cells[..k + 1]) == LiveImage(a.m, a.cells[..k]) + more
    ensures LiveBytes(a.cells[..k + 1]) == LiveBytes(a.cells[..k]) + if a.cells[k].size < 0 then a.cells[k].Len() else 0
  {
    hide Tiled, LiveBytes, LiveImage;
    CellsInBuffer(a);
    var c := a.cells[k];
    OneCell(a.m, c);
    assert a.cells[..k + 1] == a.cells[..k] + [c];
    LiveImageAppend(a.m, a.cells[..k], [c]);
  }

  lemma OneCell(m: Image, c: Cell)
    requires c.End() <= |m|
    ensures InBuffer(m, [c])
    ensures LiveImage(m, [c]) == if c.size < 0 then CellBytes(m, c) else []
    ensures LiveBytes([c]) == if c.size < 0 then c.Len() else 0
  {
    assert [c][1..] == [];
  }

  /** A copy in another buffer: the packed cells tile it up to its last byte. */
  lemma PackedCopyTiled(a: Arena, r: Image)
    requires Tiled(a) && InBuffer(a.m, a.cells) && HoldsPacked(r, HIVE_HEADER, a.m, a.cells)
    ensures Tiled(Arena(r, Packed(a.cells, HIVE_HEADER), HIVE_HEADER + LiveBytes(a.cells)))
    ensures NoAdjacentFree(Packed(a.cells, HIVE_HEADER))
  {
    hide LiveBytes, Packed, LiveImage, Headers, Chain;
    CellsInBuffer(a);
    PackedHeaders(a, r);
    CellsInside(a);
    PackedChain(a.cells, HIVE_HEADER);
  }

  // ----- In-place compaction

  /** m holds the packed image of the first k cells at the front of the arena. */
  ghost predicate PackedSoFar(m: Image, a: Arena, k: nat)
    requires Tiled(a) && k <= |a.cells|
  {
    CellsInBuffer(a);
    HoldsPacked(m, HIVE_HEADER, a.m, a.cells[..k])
  }

  lemma PackedNone(m: Image, a: Arena)
    requires Tiled(a) && |m| >= HIVE_HEADER
    ensures PackedSoFar(m, a, 0) && LiveBytes(a.cells[..0]) == 0
  {
    hide Tiled;
    TiledParts(a);
    assert a.cells[..0] == [];
  }

  lemma PackedAll(m: Image, a: Arena)
    requires Tiled(a) && PackedSoFar(m, a, |a.cells|)
    ensures InBuffer(a.m, a.cells) && HoldsPacked(m, HIVE_HEADER, a.m, a.cells)
    ensures LiveBytes(a.cells[..|a.cells|]) == LiveBytes(a.cells)
  {
    hide Tiled, LiveBytes, HoldsPacked, InBuffer;
    CellsInBuffer(a);
    assert a.cells[..|a.cells|] == a.cells;
  }

  /** A free cell adds nothing to the packed image. */
  lemma PackedFree(m: Image, a: Arena, k: nat)
    requires Tiled(a) && k < |a.cells| && a.cells[k].size > 0 && PackedSoFar(m, a, k)
    ensures PackedSoFar(m, a, k + 1)
    ensures LiveBytes(a.cells[..k + 1]) == LiveBytes(a.cells[..k])
  {
    hide Tiled, LiveImage, LiveBytes, InBuffer;
    LiveImageStep(a, k);
  }

  /** Copying the bytes of allocated cell k behind the packed image extends it. */
  lemma PackedMore(m: Image, n: Image, a: Arena, k: nat)
    requires Tiled(a) && k < |a.cells| && a.cells[k].size < 0 && PackedSoFar(m, a, k)
    requires a.cells[k].End() <= |a.m|
    requires var w := HIVE_HEADER + LiveBytes(a.cells[..k]);
      && w + a.cells[k].Len() <= |m| && n == Blit(m, w, CellBytes(a.m, a.cells[k]))
    ensures PackedSoFar(n, a, k + 1)
    ensures LiveBytes(a.cells[..k + 1]) == LiveBytes(a.cells[..k]) + a.cells[k].Len()
  {
    hide Tiled, LiveImage, LiveBytes, InBuffer, Blit;
    LiveImageStep(a, k);
    var lb := LiveBytes(a.cells[..k]);
    var w := HIVE_HEADER + lb;
    var bytes := CellBytes(a.m, a.cells[k]);
    BlitSlice(m, w, bytes, HIVE_HEADER, w);
    BlitSlice(m, w, bytes, w, w + |bytes|);
    assert bytes[0..|bytes|] == bytes;
    assert n[HIVE_HEADER..w + |bytes|] == n[HIVE_HEADER..w] + n[w..w + |bytes|];
  }

  /** The free bytes before cell k: how far it moves down. */
  function Gap(cs: seq<Cell>, k: nat): nat
    requires k <= |cs|
  {
    FreeBytes(cs[..k])
  }

  lemma GapIsDistance(a: Arena, k: nat)
    requires Tiled(a) && k < |a.cells|
    ensures HIVE_HEADER + LiveBytes(a.cells[..k]) + Gap(a.cells, k) == a.cells[k].off
  {
    ChainSplit(a.cells, k, HIVE_HEADER, a.hi);
    BytesConserved(a.cells[..k], HIVE_HEADER, a.cells[k].off);
  }

  /** After memmove of the n-byte cell at offset at down by gap, the dword at at still
      reads a size of magnitude n. */
  predicate ReReads(m: Image, at: nat, gap: nat, n: nat)
    requires gap <= at && at + n <= |m| && n >= CELL_HEADER
  {
    var v := ReadI32(Blit(m, at - gap, m[at..at + n]), at);
    v == n || v == -(n as int)
  }

  /** Every header that HiveBinCompact reads again after a move still tells the length of
      the moved cell. */
  ghost predicate CompactSafe(a: Arena)
    requires Tiled(a)
  {
    forall k :: 0 <= k < |a.cells| && a.cells[k].size < 0 && Gap(a.cells, k) > 0 ==> SafeAt(a, k)
  }

  ghost predicate SafeAt(a: Arena, k: nat)
    requires Tiled(a) && k < |a.cells|
  {
    CellInside(a, k);
    GapIsDistance(a, k);
    ReReads(a.m, a.cells[k].off, Gap(a.cells, k), a.cells[k].Len())
  }

  lemma ReReadsExactly(m: Image, at: nat, gap: nat, n: nat)
    requires gap <= at && at + n <= |m| && n >= CELL_HEADER
    ensures n <= gap ==> ReadI32(Blit(m, at - gap, m[at..at + n]), at) == ReadI32(m, at)
    ensures gap + 4 <= n ==> ReadI32(Blit(m, at - gap, m[at..at + n]), at) == ReadI32(m, at + gap)
  {
    hide Decode, Blit;
    var moved := m[at..at + n];
    BlitSlice(m, at - gap, moved, at, at + 4);
    if gap + 4 <= n {
      SliceOfSlice(m, at, at + n, gap, gap + 4);
    }
  }

  lemma MultiplesOf8(n: nat, gap: nat)
    requires n % 8 == 0 && gap % 8 == 0 && gap < n
    ensures gap + 8 <= n
  {
  }

  /** The four-byte size field gap bytes into cell k has the magnitude of the cell's length. */
  ghost predicate PayloadReadsAsLength(a: Arena, k: nat)
    requires Tiled(a) && k < |a.cells|
  {
    CellInside(a, k);
    var at, n, gap := a.cells[k].off, a.cells[k].Len(), Gap(a.cells, k);
    gap + 4 <= n && (ReadI32(a.m, at + gap) == n || ReadI32(a.m, at + gap) == -(n as int))
  }

  /** A cell no larger than the gap it moves across is moved safely; a larger one exactly
      when its own bytes, gap bytes in, happen to read as its length. */
  lemma SafeAtExactly(a: Arena, k: nat)
    requires Tiled(a) && k < |a.cells| && a.cells[k].size < 0
    requires a.cells[k].Len() % 8 == 0 && Gap(a.cells, k) % 8 == 0 && Gap(a.cells, k) > 0
    ensures SafeAt(a, k) <==> a.cells[k].Len() <= Gap(a.cells, k) || PayloadReadsAsLength(a, k)
  {
    hide Tiled, Gap, Blit, ReadI32;
    CellInside(a, k);
    HeaderAt(a, k);
    GapIsDistance(a, k);
    var n, gap := a.cells[k].Len(), Gap(a.cells, k);
    ReReadsExactly(a.m, a.cells[k].off, gap, n);
    if gap < n { MultiplesOf8(n, gap); }
  }

  lemma FitsInGap(a: Arena, k: nat)
    requires Tiled(a) && k < |a.cells| && a.cells[k].size < 0
    requires a.cells[k].Len() <= Gap(a.cells, k)
    ensures SafeAt(a, k)
  {
    hide Tiled, Gap, Blit, ReadI32;
    CellInside(a, k);
    HeaderAt(a, k);
    GapIsDistance(a, k);
    ReReadsExactly(a.m, a.cells[k].off, Gap(a.cells, k), a.cells[k].Len());
  }

  /** When each moved cell fits in the gap before it, compaction is safe. */
  lemma FittingIsSafe(a: Arena)
    requires Tiled(a)
    requires forall k :: 0 <= k < |a.cells| && a.cells[k].size < 0 && Gap(a.cells, k) > 0 ==>
               a.cells[k].Len() <= Gap(a.cells, k)
    ensures CompactSafe(a)
  {
    hide Tiled, Gap;
    forall k | 0 <= k < |a.cells| && a.cells[k].size < 0 && Gap(a.cells, k) > 0
      ensures SafeAt(a, k)
    {
      FitsInGap(a, k);
    }
  }

  /** The re-read sees only bytes from at on, which earlier moves have left alone. */
  lemma ReReadUnmoved(m: Image, cur: Image, at: nat, w: nat, n: nat)
    requires |cur| == |m| && w <= at && at + n <= |m| && n >= CELL_HEADER
    requires cur[at..] == m[at..]
    ensures ReadI32(Blit(cur, w, cur[at..at + n]), at) == ReadI32(Blit(m, w, m[at..at + n]), at)
  {
    hide Decode, Blit;
    var x, y := Blit(cur, w, cur[at..at + n]), Blit(m, w, m[at..at + n]);
    BlitAt(cur, w, cur[at..at + n]);
    BlitAt(m, w, m[at..at + n]);
    forall k | at <= k < |m|
      ensures x[k] == y[k]
    {
      assert cur[k] == cur[at..][k - at] == m[at..][k - at] == m[k];
      if k < w + n {
        var o := at + k - w;
        assert cur[o] == cur[at..][o - at] == m[at..][o - at] == m[o];
      }
    }
    assert x[at..at + 4] == y[at..at + 4];
  }

  /** The arena in-place compaction leaves: packed cells, then one free cell. */
  ghost predicate Compacted(a: Arena, b: Arena)
    requires Tiled(a)
  {
    CellsInBuffer(a);
    var w := HIVE_HEADER + LiveBytes(a.cells);
    && b.hi == a.hi && |b.m| == |a.m|
    && b.cells == Packed(a.cells, HIVE_HEADER) + (if w < a.hi then [Cell(w, a.hi - w)] else [])
    && HoldsPacked(b.m, HIVE_HEADER, a.m, a.cells)
    && b.m[..HIVE_HEADER] == a.m[..HIVE_HEADER]
  }

  lemma CellsInBuffer(a: Arena)
    requires Tiled(a)
    ensures InBuffer(a.m, a.cells)
    ensures LiveBytes(a.cells) + FreeBytes(a.cells) == a.hi - HIVE_HEADER
  {
    CellsInside(a);
    BytesConserved(a.cells, HIVE_HEADER, a.hi);
  }

  lemma {:induction false} SomeFreeCell(cs: seq<Cell>)
    requires FreeBytes(cs) > 0 && forall i :: 0 <= i < |cs| ==> cs[i].Len() >= CELL_HEADER
    ensures FreeBytes(cs) >= CELL_HEADER
  {
    if cs != [] && cs[0].size <= 0 {
      SomeFreeCell(cs[1..]);
    }
  }

  /** A compacted arena is tiled with all free space in one cell, and holds the same
      allocated cells in the same order, byte for byte. */
  lemma CompactedIsCanonical(a: Arena, b: Arena)
    requires Tiled(a) && Compacted(a, b)
    requires var w := HIVE_HEADER + LiveBytes(a.cells);
      w < a.hi ==> w + CELL_HEADER <= |b.m| && ReadI32(b.m, w) == a.hi - w
    ensures Canonical(b)
    ensures FreeBytes(b.cells) == FreeBytes(a.cells)
    ensures |LiveList(b.cells)| == |LiveList(a.cells)|
    ensures forall j :: 0 <= j < |LiveList(a.cells)| ==>
              && LiveList(b.cells)[j].size == LiveList(a.cells)[j].size
              && LiveList(b.cells)[j].End() <= |b.m| && LiveList(a.cells)[j].End() <= |a.m|
              && CellBytes(b.m, LiveList(b.cells)[j]) == CellBytes(a.m, LiveList(a.cells)[j])
  {
    hide Headers, HoldsPacked, ReadI32, Packed, LiveList, CellBytes, LiveBytes, FreeBytes;
    CellsInBuffer(a);
    CompactedTiled(a, b);
    CompactedCoalesced(a, b);
    CellsInBuffer(b);
    PackedMatches(b.m, HIVE_HEADER, a.m, a.cells);
    CompactedLists(a.cells, HIVE_HEADER, a.hi, b.cells);
  }

  lemma CompactedTiled(a: Arena, b: Arena)
    requires Tiled(a) && Compacted(a, b)
    requires var w := HIVE_HEADER + LiveBytes(a.cells);
      w < a.hi ==> w + CELL_HEADER <= |b.m| && ReadI32(b.m, w) == a.hi - w
    ensures Tiled(b)
  {
    hide HoldsPacked, ReadI32, Packed, LiveBytes, FreeBytes;
    CellsInBuffer(a);
    CellsInside(a);
    PackedHeaders(a, b.m);
    var w := HIVE_HEADER + LiveBytes(a.cells);
    if w < a.hi {
      SomeFreeCell(a.cells);
      var f := Cell(w, a.hi - w);
      assert Chain([f], w, a.hi);
      ChainAppend(Packed(a.cells, HIVE_HEADER), [f], HIVE_HEADER, w, a.hi);
    } else {
      assert b.cells == Packed(a.cells, HIVE_HEADER);
    }
  }

  lemma CompactedCoalesced(a: Arena, b: Arena)
    requires Tiled(a) && Compacted(a, b)
    ensures NoAdjacentFree(b.cells)
  {
    CellsInside(a);
    PackedChain(a.cells, HIVE_HEADER);
  }

  lemma {:induction false} LiveListAppend(a: seq<Cell>, b: seq<Cell>)
    ensures LiveList(a + b) == LiveList(a) + LiveList(b)
  {
    if a == [] {
      assert a + b == b;
    } else {
      assert (a + b)[1..] == a[1..] + b;
      LiveListAppend(a[1..], b);
    }
  }

  lemma {:induction false} AllLive(cs: seq<Cell>)
    requires forall i :: 0 <= i < |cs| ==> cs[i].size < 0
    ensures LiveList(cs) == cs
  {
    if cs != [] {
      AllLive(cs[1..]);
    }
  }

  lemma {:induction false} LiveBytesOfPacked(cs: seq<Cell>, w: nat)
    ensures LiveBytes(Packed(cs, w)) == LiveBytes(cs)
  {
    if cs != [] {
      if cs[0].size < 0 {
        LiveBytesOfPacked(cs[1..], w + cs[0].Len());
        assert Packed(cs, w)[1..] == Packed(cs[1..], w + cs[0].Len());
      } else {
        LiveBytesOfPacked(cs[1..], w);
      }
    }
  }

  lemma CompactedLists(cs: seq<Cell>, lo: nat, hi: nat, ds: seq<Cell>)
    requires Chain(cs, lo, hi)
    requires ds == Packed(cs, lo)
                   + (if lo + LiveBytes(cs) < hi then [Cell(lo + LiveBytes(cs), hi - lo - LiveBytes(cs))] else [])
    ensures LiveList(ds) == Packed(cs, lo)
    ensures FreeBytes(ds) == FreeBytes(cs)
  {
    hide LiveList, FreeBytes, LiveBytes, Packed;
    BytesConserved(cs, lo, hi);
    ChainLengths(cs, lo, hi);
    PackedChain(cs, lo);
    AllLive(Packed(cs, lo));
    LiveBytesOfPacked(cs, lo);
    BytesConserved(Packed(cs, lo), lo, lo + LiveBytes(cs));
    var tail := if lo + LiveBytes(cs) < hi then [Cell(lo + LiveBytes(cs), hi - lo - LiveBytes(cs))] else [];
    LiveListAppend(Packed(cs, lo), tail);
    FreeBytesAppend(Packed(cs, lo), tail);
    TailOfOne(tail);
    assert LiveList(ds) == Packed(cs, lo) + [];
  }

  lemma ChainLengths(cs: seq<Cell>, lo: int, hi: int)
    requires Chain(cs, lo, hi)
    ensures forall i :: 0 <= i < |cs| ==> cs[i].Len() >= CELL_HEADER
  {
  }

  lemma TailOfOne(tail: seq<Cell>)
    requires |tail| <= 1 && forall i :: 0 <= i < |tail| ==> tail[i].size > 0
    ensures LiveList(tail) == []
    ensures FreeBytes(tail) == if tail == [] then 0 else tail[0].size
  {
    assert tail != [] ==> tail[1..] == [];
  }

  // ----- Facts about the bytes in-place compaction has and has not moved

  lemma SizeUnmoved(m: Image, cur: Image, at: nat)
    requires |cur| == |m| && at + 4 <= |m| && cur[at..] == m[at..]
    ensures ReadI32(cur, at) == ReadI32(m, at)
  {
    hide Decode;
    assert cur[at..at + 4] == cur[at..][..4] == m[at..][..4] == m[at..at + 4];
  }

  lemma BytesUnmoved(a: Arena, cur: Image, k: nat)
    requires Tiled(a) && k < |a.cells| && |cur| == |a.m| && a.cells[k].End() <= |a.m|
    requires cur[a.cells[k].off..] == a.m[a.cells[k].off..]
    ensures cur[a.cells[k].off..a.cells[k].End()] == CellBytes(a.m, a.cells[k])
    ensures cur[a.cells[k].End()..] == a.m[a.cells[k].End()..]
  {
    var at, n := a.cells[k].off, a.cells[k].Len();
    assert cur[at..at + n] == cur[at..][..n] == a.m[at..][..n] == a.m[at..at + n];
    TailUnmoved(a.m, cur, at, n);
  }

  lemma TailUnmoved(m: Image, cur: Image, at: nat, n: nat)
    requires |cur| == |m| && at + n <= |m| && cur[at..] == m[at..]
    ensures cur[at + n..] == m[at + n..]
  {
    assert cur[at + n..] == cur[at..][n..] == m[at..][n..] == m[at + n..];
  }

  lemma BlitSame(m: Image, at: nat, n: nat)
    requires at + n <= |m|
    ensures Blit(m, at, m[at..at + n]) == m
  {
  }

  /** A copy into [at, to) leaves the bytes before lo and from to on. */
  lemma BlitKeeps(m: Image, at: nat, bs: Image, lo: nat, to: nat)
    requires lo <= at && at + |bs| <= to <= |m|
    ensures Blit(m, at, bs)[..lo] == m[..lo]
    ensures Blit(m, at, bs)[to..] == m[to..]
  {
    hide Blit;
    BlitSlice(m, at, bs, 0, lo);
    BlitSlice(m, at, bs, to, |m|);
    assert Blit(m, at, bs)[to..] == Blit(m, at, bs)[to..|m|];
  }

  /** The state of in-place compaction after k cells: what has been packed, and that no
      byte from cell k on has changed yet. */
  ghost predicate MovedDown(m: Image, a: Arena, k: nat)
    requires Tiled(a) && k <= |a.cells|
  {
    StartInside(a, k);
    var at := StartOf(a.cells, k, a.hi);
    && |m| == |a.m|
    && PackedSoFar(m, a, k)
    && m[at..] == a.m[at..]
    && m[..HIVE_HEADER] == a.m[..HIVE_HEADER]
  }

  lemma StartInside(a: Arena, k: nat)
    requires Tiled(a) && k <= |a.cells|
    ensures HIVE_HEADER <= StartOf(a.cells, k, a.hi) <= a.hi <= |a.m|
  {
    if k < |a.cells| { CellInside(a, k); }
  }

  lemma NothingMoved(a: Arena)
    requires Tiled(a)
    ensures MovedDown(a.m, a, 0) && LiveBytes(a.cells[..0]) == 0
  {
    hide Tiled, LiveBytes, PackedSoFar;
    TiledParts(a);
    PackedNone(a.m, a);
  }

  /** What the next header reads, and where the next move goes. */
  lemma NextToMove(m: Image, a: Arena, k: nat)
    requires Tiled(a) && k < |a.cells| && MovedDown(m, a, k)
    ensures |m| == |a.m| && a.cells[k].End() <= |m| && a.cells[k].off + 4 <= |m|
    ensures ReadI32(m, a.cells[k].off) == a.cells[k].size
    ensures HIVE_HEADER + LiveBytes(a.cells[..k]) + Gap(a.cells, k) == a.cells[k].off
    ensures a.cells[k].size < 0 || a.cells[k].size > 0
  {
    hide Tiled, LiveBytes, PackedSoFar, Gap, ReadI32;
    CellInside(a, k);
    HeaderAt(a, k);
    GapIsDistance(a, k);
    SizeUnmoved(a.m, m, a.cells[k].off);
  }

  /** Moving allocated cell k extends the packed image; what its old header reads afterwards
      is settled by the bytes of the arena. */
  lemma MoveReads(m: Image, a: Arena, k: nat)
    requires Tiled(a) && k < |a.cells| && a.cells[k].size < 0 && MovedDown(m, a, k)
    ensures a.cells[k].End() <= |m|
    ensures var c, w := a.cells[k], HIVE_HEADER + LiveBytes(a.cells[..k]);
      && w + c.Len() <= |m|
      && var r := if c.off != w then Blit(m, w, m[c.off..c.End()]) else m;
      && MovedDown(r, a, k + 1)
      && ReadI32(r, c.off) == (if c.off != w then ReadI32(Blit(a.m, w, a.m[c.off..c.End()]), c.off) else c.size)
      && LiveBytes(a.cells[..k + 1]) == LiveBytes(a.cells[..k]) + c.Len()
  {
    hide Tiled, LiveBytes, PackedSoFar, Gap, ReadI32, Blit, CellBytes;
    var c, w := a.cells[k], HIVE_HEADER + LiveBytes(a.cells[..k]);
    CellInside(a, k);
    NextToMove(m, a, k);
    WalkStep(a, k);
    BytesUnmoved(a, m, k);
    var r := if c.off != w then Blit(m, w, m[c.off..c.End()]) else m;
    if c.off != w {
      ReReadUnmoved(a.m, m, c.off, w, c.Len());
    } else {
      BlitSame(m, c.off, c.Len());
    }
    BlitKeeps(m, w, CellBytes(a.m, c), HIVE_HEADER, c.End());
    PackedMore(m, r, a, k);
  }

  /** After a safe move the header read again at its old place still tells the cell's length. */
  lemma MoveLive(m: Image, a: Arena, k: nat)
    requires Tiled(a) && k < |a.cells| && a.cells[k].size < 0 && MovedDown(m, a, k)
    requires Gap(a.cells, k) > 0 ==> SafeAt(a, k)
    ensures a.cells[k].End() <= |m|
    ensures var c, w := a.cells[k], HIVE_HEADER + LiveBytes(a.cells[..k]);
      && w + c.Len() <= |m|
      && var r := if c.off != w then Blit(m, w, m[c.off..c.End()]) else m;
      && MovedDown(r, a, k + 1)
      && Abs(ReadI32(r, c.off)) == c.Len()
      && LiveBytes(a.cells[..k + 1]) == LiveBytes(a.cells[..k]) + c.Len()
  {
    hide Tiled, LiveBytes, PackedSoFar, Gap, ReadI32, Blit, SafeAt, MovedDown;
    CellInside(a, k);
    GapIsDistance(a, k);
    MoveReads(m, a, k);
    if Gap(a.cells, k) > 0 {
      SafeReRead(a, k);
    }
  }

  lemma SafeReRead(a: Arena, k: nat)
    requires Tiled(a) && k < |a.cells| && a.cells[k].size < 0 && Gap(a.cells, k) > 0 && SafeAt(a, k)
    ensures a.cells[k].End() <= |a.m| && a.cells[k].Len() >= CELL_HEADER
    ensures Gap(a.cells, k) <= a.cells[k].off
    ensures var c := a.cells[k];
      Abs(ReadI32(Blit(a.m, c.off - Gap(a.cells, k), a.m[c.off..c.off + c.Len()]), c.off)) == c.Len()
  {
    hide Tiled, Gap, Blit, ReadI32;
    CellInside(a, k);
    GapIsDistance(a, k);
  }

  lemma SkipFree(m: Image, a: Arena, k: nat)
    requires Tiled(a) && k < |a.cells| && a.cells[k].size > 0 && MovedDown(m, a, k)
    ensures MovedDown(m, a, k + 1)
    ensures LiveBytes(a.cells[..k + 1]) == LiveBytes(a.cells[..k])
  {
    hide Tiled, LiveBytes, PackedSoFar;
    CellInside(a, k);
    WalkStep(a, k);
    PackedFree(m, a, k);
    TailUnmoved(a.m, m, a.cells[k].off, a.cells[k].Len());
  }

  /** Once every cell has been read, writing the final free header completes compaction. */
  lemma FinishCompact(a: Arena, m: Image)
    requires Tiled(a) && MovedDown(m, a, |a.cells|)
    ensures var w := HIVE_HEADER + LiveBytes(a.cells);
      && w == HIVE_HEADER + LiveBytes(a.cells[..|a.cells|]) <= a.hi
      && (w < a.hi ==> w + CELL_HEADER <= a.hi)
      && var last := if w < a.hi then PutHeader(m, w, a.hi - w) else m;
      && (w < a.hi ==> ReadI32(last, w) == a.hi - w)
      && Compacted(a, Arena(last, Packed(a.cells, HIVE_HEADER) + (if w < a.hi then [Cell(w, a.hi - w)] else []), a.hi))
  {
    hide Tiled, LiveBytes, FreeBytes, Packed, PutHeader, ReadI32, LiveImage, InBuffer, PackedSoFar;
    TiledParts(a);
    CellsInBuffer(a);
    CellsInside(a);
    PackedAll(m, a);
    var w := HIVE_HEADER + LiveBytes(a.cells);
    if w < a.hi {
      SomeFreeCell(a.cells);
      PutHeaderReads(m, w, a.hi - w);
      var last := PutHeader(m, w, a.hi - w);
      assert last[HIVE_HEADER..w] == m[HIVE_HEADER..w];
      assert last[..HIVE_HEADER] == m[..HIVE_HEADER];
    }
  }

  // ----- Copying compaction

  lemma HeaderArrives(m: Image, src: Image)
    requires |m| >= HIVE_HEADER && |src| >= HIVE_HEADER
    ensures Blit(m, 0, src[..HIVE_HEADER])[..HIVE_HEADER] == src[..HIVE_HEADER]
  {
    BlitSlice(m, 0, src[..HIVE_HEADER], 0, HIVE_HEADER);
  }

  lemma NextToCopy(a: Arena, k: nat)
    requires Tiled(a) && k < |a.cells|
    ensures a.cells[k].End() <= |a.m| && a.m[a.cells[k].off..a.cells[k].End()] == CellBytes(a.m, a.cells[k])
    ensures LiveBytes(a.cells[..k + 1]) == LiveBytes(a.cells[..k]) + if a.cells[k].size < 0 then a.cells[k].Len() else 0
    ensures LiveBytes(a.cells[..k + 1]) <= LiveBytes(a.cells)
    ensures a.cells[k].size != 0
  {
    hide Tiled, LiveBytes, LiveImage, InBuffer;
    CellInside(a, k);
    LiveImageStep(a, k);
    LiveBytesPrefix(a, k + 1);
  }

  /** The state of copying compaction after k cells. */
  ghost predicate CopiedSoFar(m: Image, a: Arena, k: nat)
    requires Tiled(a) && k <= |a.cells|
  {
    && HIVE_HEADER + LiveBytes(a.cells[..k]) <= |m|
    && PackedSoFar(m, a, k)
    && m[..HIVE_HEADER] == a.m[..HIVE_HEADER]
  }

  lemma CopyStart(m: Image, a: Arena)
    requires Tiled(a) && |m| >= HIVE_HEADER
    ensures CopiedSoFar(Blit(m, 0, a.m[..HIVE_HEADER]), a, 0) && LiveBytes(a.cells[..0]) == 0
  {
    hide Tiled, LiveBytes, PackedSoFar, Blit;
    TiledParts(a);
    HeaderArrives(m, a.m);
    PackedNone(Blit(m, 0, a.m[..HIVE_HEADER]), a);
  }

  lemma CopyLive(m: Image, a: Arena, k: nat)
    requires Tiled(a) && k < |a.cells| && a.cells[k].size < 0 && CopiedSoFar(m, a, k)
    requires a.cells[k].End() <= |a.m|
    requires HIVE_HEADER + LiveBytes(a.cells[..k]) + a.cells[k].Len() <= |m|
    ensures CopiedSoFar(Blit(m, HIVE_HEADER + LiveBytes(a.cells[..k]), a.m[a.cells[k].off..a.cells[k].End()]), a, k + 1)
  {
    hide Tiled, LiveBytes, PackedSoFar, Blit, CellBytes;
    NextToCopy(a, k);
    var w, bytes := HIVE_HEADER + LiveBytes(a.cells[..k]), CellBytes(a.m, a.cells[k]);
    PackedMore(m, Blit(m, w, bytes), a, k);
    BlitKeeps(m, w, bytes, HIVE_HEADER, |m|);
  }

  lemma CopyFree(m: Image, a: Arena, k: nat)
    requires Tiled(a) && k < |a.cells| && a.cells[k].size > 0 && CopiedSoFar(m, a, k)
    ensures CopiedSoFar(m, a, k + 1)
  {
    hide Tiled, LiveBytes, PackedSoFar;
    PackedFree(m, a, k);
  }

  /** The first k cells of an arena, as an arena of their own. */
  function Prefix(a: Arena, k: nat): Arena
    requires k <= |a.cells|
  {
    Arena(a.m, a.cells[..k], StartOf(a.cells, k, a.hi))
  }

  lemma PrefixTiled(a: Arena, k: nat)
    requires Tiled(a) && k <= |a.cells|
    ensures Tiled(Prefix(a, k)) && Prefix(a, k).cells[..k] == a.cells[..k]
  {
    hide ReadI32;
    StartInside(a, k);
    TiledParts(a);
    if k < |a.cells| {
      ChainSplit(a.cells, k, HIVE_HEADER, a.hi);
    } else {
      assert a.cells[..k] == a.cells;
    }
  }

  /** A copy of the first k cells: packed, they tile the destination up to its end, and the hive
      header is the source's with the given field written. */
  lemma CopyDone(m: Image, a: Arena, k: nat, at: nat, bs: Image)
    requires Tiled(a) && k <= |a.cells| && CopiedSoFar(m, a, k)
    requires at + |bs| <= HIVE_HEADER
    ensures InBuffer(a.m, a.cells[..k]) && |a.m| >= HIVE_HEADER && |m| >= HIVE_HEADER
    ensures var r := Blit(m, at, bs);
      && HoldsPacked(r, HIVE_HEADER, a.m, a.cells[..k])
      && r[..HIVE_HEADER] == Blit(a.m[..HIVE_HEADER], at, bs)
      && Tiled(Arena(r, Packed(a.cells[..k], HIVE_HEADER), HIVE_HEADER + LiveBytes(a.cells[..k])))
  {
    hide Tiled, LiveBytes, Blit, HoldsPacked, InBuffer, Packed, LiveImage;
    TiledParts(a);
    PrefixTiled(a, k);
    var p := Prefix(a, k);
    assert p.cells[..k] == p.cells;
    PackedEnough(m, p, k);
    HeaderFieldWritten(m, p, at, bs, a.m);
    PackedCopyTiled(p, Blit(m, at, bs));
  }

  /** Once all live bytes are copied, the copy is of all cells. */
  lemma CopiedAll(m: Image, a: Arena, k: nat)
    requires Tiled(a) && k <= |a.cells| && CopiedSoFar(m, a, k) && LiveBytes(a.cells[..k]) == LiveBytes(a.cells)
    ensures CopiedSoFar(m, a, |a.cells|) && LiveBytes(a.cells[..|a.cells|]) == LiveBytes(a.cells)
    decreases |a.cells| - k
  {
    hide Tiled, LiveBytes, PackedSoFar;
    if k < |a.cells| {
      NextToCopy(a, k);
      CopyFree(m, a, k);
      CopiedAll(m, a, k + 1);
    } else {
      assert a.cells[..k] == a.cells;
    }
  }

  /** Some first cells fill n bytes exactly. */
  ghost predicate FillsExactly(cs: seq<Cell>, n: nat) {
    exists j: nat :: j <= |cs| && FillsAt(cs, j, n)
  }

  predicate FillsAt(cs: seq<Cell>, j: nat, n: nat)
    requires j <= |cs|
  {
    HIVE_HEADER + LiveBytes(cs[..j]) == n
  }

  lemma {:induction false} LiveBytesGrow(a: Arena, j: nat, k: nat)
    requires Tiled(a) && j <= k <= |a.cells|
    ensures LiveBytes(a.cells[..j]) <= LiveBytes(a.cells[..k])
    decreases k
  {
    hide Tiled, LiveBytes;
    if j < k {
      NextToCopy(a, k - 1);
      LiveBytesGrow(a, j, k - 1);
    }
  }

  /** Where the next live cell goes past the end, nothing fits exactly. */
  lemma NeverExact(a: Arena, k: nat, n: nat)
    requires Tiled(a) && k < |a.cells|
    requires HIVE_HEADER + LiveBytes(a.cells[..k]) < n < HIVE_HEADER + LiveBytes(a.cells[..k + 1])
    ensures !FillsExactly(a.cells, n) && n < HIVE_HEADER + LiveBytes(a.cells)
  {
    hide Tiled, LiveBytes;
    forall j: nat | j <= |a.cells|
      ensures !FillsAt(a.cells, j, n)
    {
      if j <= k {
        LiveBytesGrow(a, j, k);
      } else {
        LiveBytesGrow(a, k + 1, j);
      }
    }
    assert a.cells[..|a.cells|] == a.cells;
    LiveBytesGrow(a, k + 1, |a.cells|);
  }

  lemma LiveBytesPrefix(a: Arena, k: nat)
    requires Tiled(a) && k <= |a.cells|
    ensures InBuffer(a.m, a.cells) && InBuffer(a.m, a.cells[..k]) && InBuffer(a.m, a.cells[k..])
    ensures LiveBytes(a.cells) == LiveBytes(a.cells[..k]) + LiveBytes(a.cells[k..])
    ensures LiveImage(a.m, a.cells) == LiveImage(a.m, a.cells[..k]) + LiveImage(a.m, a.cells[k..])
  {
    hide Tiled, LiveBytes, LiveImage;
    CellsInBuffer(a);
    assert a.cells == a.cells[..k] + a.cells[k..];
    LiveImageAppend(a.m, a.cells[..k], a.cells[k..]);
  }

  /** When the cells copied so far make up all live bytes, the rest is free and the copy
      is complete. */
  lemma PackedEnough(m: Image, a: Arena, k: nat)
    requires Tiled(a) && k <= |a.cells| && PackedSoFar(m, a, k)
    requires LiveBytes(a.cells[..k]) == LiveBytes(a.cells)
    ensures InBuffer(a.m, a.cells) && HoldsPacked(m, HIVE_HEADER, a.m, a.cells)
  {
    hide Tiled, LiveBytes, LiveImage, InBuffer;
    LiveBytesPrefix(a, k);
    assert LiveImage(a.m, a.cells[k..]) == [];
  }

  /** Writing inside the hive header leaves the packed cells. */
  lemma HeaderFieldWritten(m: Image, a: Arena, at: nat, bs: Image, src: Image)
    requires InBuffer(a.m, a.cells) && HoldsPacked(m, HIVE_HEADER, a.m, a.cells)
    requires at + |bs| <= HIVE_HEADER <= |src| && HIVE_HEADER <= |m| && m[..HIVE_HEADER] == src[..HIVE_HEADER]
    ensures HoldsPacked(Blit(m, at, bs), HIVE_HEADER, a.m, a.cells)
    ensures Blit(m, at, bs)[..HIVE_HEADER] == Blit(src[..HIVE_HEADER], at, bs)
  {
    hide LiveBytes, LiveImage, InBuffer;
    var w := HIVE_HEADER + LiveBytes(a.cells);
    BlitSlice(m, at, bs, HIVE_HEADER, w);
    BlitAt(m, at, bs);
    BlitAt(src[..HIVE_HEADER], at, bs);
    forall k | 0 <= k < HIVE_HEADER
      ensures Blit(m, at, bs)[k] == Blit(src[..HIVE_HEADER], at, bs)[k]
    {
      assert m[..HIVE_HEADER][k] == src[..HIVE_HEADER][k];
    }
    hide Blit;
    assert Blit(m, at, bs)[..HIVE_HEADER] == Blit(src[..HIVE_HEADER], at, bs);
  }
}
