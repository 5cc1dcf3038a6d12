/** The hive as an object: a byte buffer whose cell headers the methods rewrite in
    place (config/hive/hivebin.c, hivefree.c, hivecell.c). The ghost field cells is
    the cell map the headers spell out. */
module HiveObject {
  import opened ByteMemory
  import opened CellMap
  import opened HiveArena
  import opened HiveBlank
  import opened HiveRuns
  import opened HiveCompaction
  import opened HiveWalk
  import opened HiveValues

  datatype Status = Success | InvalidParameter | InsufficientResources | NotFound | BufferTooSmall

  /** The first fitting cell of a walk is the one Allocate takes. */
  lemma FirstFit(a: Arena, n: nat, k: nat)
    requires Tiled(a) && n > 0 && k < |a.cells|
    requires Fits(a.cells[k], AlignUp8(n))
    requires forall j :: 0 <= j < k ==> !Fits(a.cells[j], AlignUp8(n))
    ensures a.cells[k].End() <= |a.m| && a.cells[k].Len() >= CELL_HEADER
    ensures Allocate(a, n) ==
      (Arena(PlaceImage(a.m, a.cells[k], AlignUp8(n)), Place(a.cells, k, AlignUp8(n)), a.hi), a.cells[k].off)
    ensures a.cells[k].off >= HIVE_HEADER
  {
    hide PlaceImage, Place, AlignUp8, Chain, Headers;
    CellInside(a, k);
  }

  lemma NoFit(a: Arena, n: nat)
    requires Tiled(a)
    requires n == 0 || forall j :: 0 <= j < |a.cells| ==> !Fits(a.cells[j], AlignUp8(n))
    ensures Allocate(a, n) == (a, 0)
  {
    hide PlaceAt, AlignUp8, Chain, Headers;
  }

  /** The buffer once the successor of cell i has been merged into it. */
  function Grown(m: Image, cs: seq<Cell>, i: nat): (r: Image)
    requires i < |cs| && cs[i].off + CELL_HEADER <= |m|
    ensures |r| == |m|
  {
    if JoinsNext(cs, i) then PutSize(m, cs[i].off, OwnSize(cs, i)) else m
  }

  /** At the start of a free cell, growing over the next is the first half of the merge. */
  lemma GrownAtStart(a: Arena, i: nat)
    requires Tiled(a) && i < |a.cells| && a.cells[i].size > 0
    ensures a.cells[i].off + CELL_HEADER <= |a.m| && NextReadable(a.m, a.hi, a.cells[i].off)
    ensures GrownAt(a.m, a.hi, a.cells[i].off) == Grown(a.m, a.cells, i)
    ensures ReadI32(Grown(a.m, a.cells, i), a.cells[i].off) == OwnSize(a.cells, i)
  {
    hide PutSize, ReadI32, Chain, SameOutside;
    HeaderAt(a, i);
    WalkStep(a, i);
    CoalesceSizes(a, i);
    if i + 1 < |a.cells| {
      WalkStep(a, i + 1);
    }
    if JoinsNext(a.cells, i) {
      PutSizeReads(a.m, a.cells[i].off, OwnSize(a.cells, i));
    }
  }

  lemma MergeReady(a: Arena, i: nat, off: nat)
    requires Tiled(a) && i < |a.cells|
    requires (a.cells[i].off == off && a.cells[i].size > 0) || (Inside(a, i, off) && NextReadable(a.m, a.hi, off))
    ensures off + CELL_HEADER <= |a.m| && NextReadable(a.m, a.hi, off)
  {
    hide Tiled, NextReadable;
    CellInside(a, i);
    if a.cells[i].off == off {
      GrownAtStart(a, i);
    }
  }

  /** The headers before off as the backward search finds them, and what merging amounts to. */
  lemma CellsBefore(a: Arena, m: Image, i: nat, off: nat)
    requires Tiled(a) && i < |a.cells|
    requires (a.cells[i].off == off && a.cells[i].size > 0) || (Inside(a, i, off) && NextReadable(a.m, a.hi, off))
    requires NextReadable(a.m, a.hi, off) && m == GrownAt(a.m, a.hi, off)
    ensures off + CELL_HEADER <= |m| && (i > 0 ==> a.cells[i - 1].off + CELL_HEADER <= |a.m|)
    ensures var n := if a.cells[i].off == off then i else i + 1;
      && Chain(a.cells[..n], HIVE_HEADER, StartOf(a.cells, n, a.hi)) && Headers(m, a.cells[..n])
      && off <= StartOf(a.cells, n, a.hi)
      && (forall j :: 0 <= j < n ==> a.cells[..n][j].off < off)
      && (n > i ==> StartOf(a.cells, n, a.hi) != off && Tiled(a.(m := m)))
      && (n == i ==> StartOf(a.cells, n, a.hi) == off && ReadI32(m, off) == OwnSize(a.cells, i)
                     && m == Grown(a.m, a.cells, i)
                     && (i > 0 ==> ReadI32(m, a.cells[i - 1].off) == a.cells[i - 1].size))
  {
    hide ReadI32, GrownAt, NextReadable, Chain, Headers, Tiled, KeptExcept;
    TiledParts(a);
    CellInside(a, i);
    var n := if a.cells[i].off == off then i else i + 1;
    PrefixChain(a, n);
    if a.cells[i].off == off {
      GrownAtStart(a, i);
      GrownHeaders(a, i);
      HeadersOf(m, a.cells, i);
      WalkStep(a, i);
    } else {
      GrowInsideKeeps(a, i, off);
      TiledParts(a.(m := m));
      HeadersPrefix(m, a.cells, n);
      WalkStep(a, i);
    }
    forall j | 0 <= j < n
      ensures a.cells[..n][j].off < off
    {
      if j < i { CellOrder(a, j, i); CellInside(a, j); }
    }
  }

  lemma PrefixChain(a: Arena, n: nat)
    requires Tiled(a) && n <= |a.cells|
    ensures Chain(a.cells[..n], HIVE_HEADER, StartOf(a.cells, n, a.hi))
  {
    if n < |a.cells| {
      ChainSplit(a.cells, n, HIVE_HEADER, a.hi);
    } else {
      assert a.cells[..n] == a.cells;
    }
  }

  lemma HeadersPrefix(m: Image, cs: seq<Cell>, n: nat)
    requires Headers(m, cs) && n <= |cs|
    ensures Headers(m, cs[..n])
  {
    hide ReadI32;
  }

  lemma HeadersOf(m: Image, cs: seq<Cell>, n: nat)
    requires n <= |cs|
    requires forall j :: 0 <= j < n ==> cs[j].off + CELL_HEADER <= |m| && ReadI32(m, cs[j].off) == cs[j].size
    ensures Headers(m, cs[..n])
    ensures n > 0 ==> cs[n - 1].off + CELL_HEADER <= |m| && ReadI32(m, cs[n - 1].off) == cs[n - 1].size
  {
    hide ReadI32;
  }

  lemma GrownHeaders(a: Arena, i: nat)
    requires Tiled(a) && i < |a.cells| && a.cells[i].size > 0
    ensures a.cells[i].off + CELL_HEADER <= |a.m|
    ensures forall j :: 0 <= j < i ==>
              a.cells[j].off + CELL_HEADER <= |a.m|
              && ReadI32(Grown(a.m, a.cells, i), a.cells[j].off) == a.cells[j].size
  {
    hide PutSize, ReadI32, SameOutside, Chain;
    HeaderAt(a, i);
    CoalesceSizes(a, i);
    if JoinsNext(a.cells, i) {
      PutSizeReads(a.m, a.cells[i].off, OwnSize(a.cells, i));
    }
    forall j | 0 <= j < i
      ensures a.cells[j].off + CELL_HEADER <= |a.m|
      ensures ReadI32(Grown(a.m, a.cells, i), a.cells[j].off) == a.cells[j].size
    {
      HeaderAt(a, j);
      CellInside(a, j);
      CellsApart(a, i, j);
      CellOrder(a, j, i);
      if JoinsNext(a.cells, i) {
        ReadOutside(a.m, Grown(a.m, a.cells, i), a.cells[i].off, a.cells[i].off + 4, a.cells[j].off);
      }
    }
  }

  lemma CellOrder(a: Arena, j: nat, i: nat)
    requires Tiled(a) && j < i < |a.cells|
    ensures a.cells[j].End() <= a.cells[i].off
    ensures a.cells[j].End() == a.cells[i].off <==> j + 1 == i
  {
    CellsInside(a);
    assert a.cells[j].End() == a.cells[j + 1].off;
  }

  /** Where freeing is safe: what a caller can hold, and readable bytes inside a cell. */
  ghost predicate FreeTarget(a: Arena, off: nat)
    requires Tiled(a)
  {
    Addressable(a, off) || (StrayReadable(a.m, a.hi, off) && exists i :: Inside(a, i, off))
  }

  /** Where merging is safe: the start of a cell, and readable bytes inside one. */
  ghost predicate MergeTarget(a: Arena, off: nat) {
    || IndexAt(a.cells, off) < |a.cells|
    || (off < a.hi && off + CELL_HEADER <= |a.m| && (ReadI32(a.m, off) > 0 ==> NextReadable(a.m, a.hi, off))
        && exists i :: Inside(a, i, off))
  }

  lemma MergeCell(a: Arena, off: nat) returns (i: nat)
    requires Tiled(a) && off != 0 && MergeTarget(a, off)
    ensures i < |a.cells| && off + CELL_HEADER <= |a.m|
    ensures if Addressable(a, off)
            then i == IndexAt(a.cells, off) && a.cells[i].off == off && ReadI32(a.m, off) == a.cells[i].size
            else a.cells[i].off != off && Inside(a, i, off)
                 && (ReadI32(a.m, off) > 0 ==> NextReadable(a.m, a.hi, off))
  {
    hide Tiled, ReadI32, IndexAt, NextReadable;
    if IndexAt(a.cells, off) < |a.cells| {
      i := IndexAt(a.cells, off);
      WalkStep(a, i);
    } else {
      i :| Inside(a, i, off);
      CellInside(a, i);
    }
  }

  /** The range starts inside a cell, and the bytes it would then lead to can be read. */
  ghost predicate RangeInside(a: Arena, off: nat, n: nat) {
    && off < a.hi && off + CELL_HEADER <= |a.m|
    && NextReadable(PutHeader(a.m, off, n), a.hi, off)
    && exists i :: Inside(a, i, off)
  }

  ghost function MarkedInside(a: Arena, off: nat, n: nat): Image
    requires RangeInside(a, off, n)
  {
    GrownAt(PutHeader(a.m, off, n), a.hi, off)
  }

  /** A free header written inside a cell leaves an arena that can be merged there. */
  lemma MarkedRange(a: Arena, off: nat, n: nat)
    requires Tiled(a) && RangeInside(a, off, n) && 0 < n < TWO_31
    ensures var b := a.(m := PutHeader(a.m, off, n));
      && Tiled(b) && MergeTarget(b, off) && !Addressable(b, off) && ReadI32(b.m, off) == n
  {
    hide Tiled, NextReadable, Blit, EncodeI32, KeptExcept, ReadI32, SameOutside;
    var i :| Inside(a, i, off);
    PatchKeeps(a, i, off, EncodeI32(n) + [0, 0, 0, 0]);
    PutHeaderReads(a.m, off, n);
    InsideIsNoStart(a, i, off);
    var b := a.(m := PutHeader(a.m, off, n));
    assert Inside(b, i, off);
  }

  lemma InsideIsNoStart(a: Arena, i: nat, off: nat)
    requires Tiled(a) && Inside(a, i, off)
    ensures IndexAt(a.cells, off) == |a.cells| && 0 < off < a.hi
  {
    hide Headers;
    CellsInside(a);
    ChainOrdered(a.cells, HIVE_HEADER, a.hi);
  }

  /** The marked start of a cell can be merged, and reads the cell's length. */
  lemma MarkedStart(a: Arena, off: nat)
    requires Tiled(a) && IndexAt(a.cells, off) < |a.cells|
    requires a.cells[IndexAt(a.cells, off)].off == off && a.cells[IndexAt(a.cells, off)].size < 0
    ensures off + CELL_HEADER <= |a.m|
    ensures var i := IndexAt(a.cells, off);
      var marked := Arena(PutHeader(a.m, off, -a.cells[i].size), a.cells[i := Cell(off, -a.cells[i].size)], a.hi);
      && Tiled(marked) && IndexAt(marked.cells, off) == i && MergeTarget(marked, off) && Addressable(marked, off)
      && ReadI32(marked.m, off) == -a.cells[i].size > 0
  {
    hide Tiled, PutHeader, ReleaseAt, CoalesceAt, ReadI32;
    var i := IndexAt(a.cells, off);
    MarkStart(a, off);
    var marked := Arena(PutHeader(a.m, off, -a.cells[i].size), a.cells[i := Cell(off, -a.cells[i].size)], a.hi);
    IndexAtCell(marked, i);
    WalkStep(marked, i);
  }

  lemma LastEndsThere(cs: seq<Cell>, k: nat, lo: int, hi: int, offset: nat)
    requires Chain(cs, lo, hi) && k < |cs| && cs[k].End() == offset <= hi
    requires forall j :: 0 <= j < |cs| ==> cs[j].off < offset
    ensures k == |cs| - 1 && hi == offset
  {
    ChainNext(cs, k, lo, hi);
  }

  /** The cell an offset to be freed is aimed at. */
  lemma TargetCell(a: Arena, off: nat) returns (i: nat)
    requires Tiled(a) && FreeTarget(a, off) && 0 < off < a.hi
    ensures i < |a.cells| && off + CELL_HEADER <= |a.m|
    ensures if Addressable(a, off)
            then i == IndexAt(a.cells, off) && a.cells[i].off == off && ReadI32(a.m, off) == a.cells[i].size
            else Inside(a, i, off) && StrayReadable(a.m, a.hi, off) && a.cells[i].off != off
  {
    hide Tiled, ReadI32, IndexAt, StrayReadable;
    if Addressable(a, off) {
      i := IndexAt(a.cells, off);
      WalkStep(a, i);
    } else {
      i :| Inside(a, i, off);
      CellInside(a, i);
    }
  }

  /** Marking an allocated cell free leaves a tiled arena ready to be merged. */
  lemma MarkStart(a: Arena, off: nat)
    requires Tiled(a) && IndexAt(a.cells, off) < |a.cells|
    requires a.cells[IndexAt(a.cells, off)].off == off && a.cells[IndexAt(a.cells, off)].size < 0
    ensures off + CELL_HEADER <= |a.m|
    ensures var i := IndexAt(a.cells, off);
      var c := Cell(off, -a.cells[i].size);
      var marked := Arena(PutHeader(a.m, off, c.size), a.cells[i := c], a.hi);
      Tiled(marked) && Free(a, off) == CoalesceAt(marked, i)
  {
    hide Tiled, IndexAt, ReleaseAt, CoalesceAt, PutHeader;
    ReleaseIsCoalesce(a, IndexAt(a.cells, off));
  }

  /** So does marking bytes inside a cell. */
  lemma MarkInside(a: Arena, i: nat, off: nat)
    requires Tiled(a) && Inside(a, i, off) && StrayReadable(a.m, a.hi, off) && ReadI32(a.m, off) < 0
    ensures var marked := a.(m := PutHeader(a.m, off, -ReadI32(a.m, off)));
      && Tiled(marked) && Inside(marked, i, off) && NextReadable(marked.m, a.hi, off)
      && FreeInside(a.m, a.hi, off) == GrownAt(marked.m, a.hi, off)
  {
    hide Tiled, ReadI32, NextReadable, GrownAt, Blit, EncodeI32, KeptExcept;
    PatchKeeps(a, i, off, EncodeI32(-ReadI32(a.m, off)) + [0, 0, 0, 0]);
  }

  lemma OutOfRange(a: Arena, off: nat)
    requires Tiled(a) && (off == 0 || off >= a.hi)
    ensures IndexAt(a.cells, off) == |a.cells|
  {
    CellsInside(a);
  }

  /** One visit of the defragmentation pass: the visited cell's own header, stale or not,
      leads to a cell boundary, behind which no two free cells touch. */
  lemma PassStep(a: Arena, k: nat)
    requires Tiled(a) && k < |a.cells| && a.cells[k].size > 0 && NoAdjacentFree(a.cells[..k])
    ensures var b, j := CoalesceAt(a, k), MergedIndex(a.cells, k) + 1;
      && j <= |b.cells| <= |a.cells| && NoAdjacentFree(b.cells[..j])
      && (JoinsNext(a.cells, k) ==> |b.cells| < |a.cells|)
      && a.cells[k].off + CELL_HEADER <= |b.m|
      && ReadI32(b.m, a.cells[k].off) == OwnSize(a.cells, k)
      && OwnSize(a.cells, k) > 0
      && a.cells[k].off + OwnSize(a.cells, k) == StartOf(b.cells, j, a.hi)
      && (!JoinsNext(a.cells, k) ==> OwnSize(a.cells, k) == a.cells[k].size)
  {
    hide Tiled, ReadI32, CoalesceImage, SameOutside, NoAdjacentFree;
    TiledParts(a);
    CoalesceSizes(a, k);
    CoalesceBytes(a, k);
    CoalescePrefix(a.cells, k);
    CoalesceChain(a.cells, k, HIVE_HEADER, a.hi);
    ChainNext(Coalesce(a.cells, k), MergedIndex(a.cells, k), HIVE_HEADER, a.hi);
    ChainNext(a.cells, k, HIVE_HEADER, a.hi);
    assert JoinsNext(a.cells, k) ==> a.cells[k].End() == a.cells[k + 1].off;
  }

  lemma PassSkip(cs: seq<Cell>, k: nat)
    requires k < |cs| && cs[k].size < 0 && NoAdjacentFree(cs[..k])
    ensures NoAdjacentFree(cs[..k + 1])
  {
    forall i, j | 0 <= i && j == i + 1 && j < k + 1
      ensures !(cs[i].size > 0 && cs[j].size > 0)
    {
      if j < k { assert cs[..k][i] == cs[i] && cs[..k][j] == cs[j]; }
    }
  }

  /** What defragmentation may do to an arena on its way. */
  ghost predicate Defragmented(a: Arena, b: Arena) {
    && b.hi == a.hi
    && Live(b.cells) == Live(a.cells)
    && FreeBytes(b.cells) == FreeBytes(a.cells)
    && KeptExcept(a, b, {})
  }

  lemma DefragmentedStep(a: Arena, b: Arena, k: nat)
    requires Tiled(b) && Defragmented(a, b) && k < |b.cells| && b.cells[k].size > 0
    ensures Defragmented(a, CoalesceAt(b, k))
  {
    hide Tiled, KeptExcept, Live, FreeBytes, CoalesceAt;
    CoalesceKept(b, k);
    KeptTwice(a, b, CoalesceAt(b, k), {}, {});
    var none: set<Cell> := {};
    assert none + none == none;
  }

  lemma NothingYet(cs: seq<Cell>)
    ensures NoAdjacentFree(cs[..0])
  {
  }

  lemma DefragmentedStart(a: Arena)
    requires Tiled(a)
    ensures Defragmented(a, a)
  {
    KeptAsIs(a);
  }

  lemma AlignTwice(n: nat)
    requires n > 0
    ensures AlignUp8(AlignUp8(n)) == AlignUp8(n) || AlignUp8(n) == 0
  {
  }

  lemma NoneTaken(a: Arena, n: nat)
    requires n > 0 && Taken(a, n) == |a.cells|
    ensures forall j :: 0 <= j < |a.cells| ==> !Fits(a.cells[j], AlignUp8(n))
  {
  }

  lemma TakenFits(a: Arena, n: nat)
    requires n > 0 && Taken(a, n) < |a.cells|
    ensures Fits(a.cells[Taken(a, n)], AlignUp8(n))
    ensures forall j :: 0 <= j < Taken(a, n) ==> !Fits(a.cells[j], AlignUp8(n))
  {
  }

  /** The hive header of a copy: the source's, with the size of the copy in bytes 68 to 71. */
  ghost predicate SizedHeader(r: Image, m: Image, size: nat) {
    && |r| >= 3728 && |m| >= 3728
    && ReadU32(r, 68) == size
    && (forall k :: 0 <= k < 3728 && !(68 <= k < 72) ==> r[k] == m[k])
  }

  lemma SizedMeans(r: Image, m: Image, size: nat)
    requires SizedHeader(r, m, size)
    ensures |r| >= 3728 && |m| >= 3728 && ReadU32(r, 68) == size
    ensures forall k :: 0 <= k < 3728 && !(68 <= k < 72) ==> r[k] == m[k]
  {
  }

  lemma HeaderSized(r: Image, m: Image, size: nat)
    requires |m| >= HIVE_HEADER && |r| >= HIVE_HEADER && size < TWO_32
    requires r[..HIVE_HEADER] == Blit(m[..HIVE_HEADER], HEADER_SIZE_FIELD, Encode(size, 4))
    ensures SizedHeader(r, m, size)
  {
    hide Encode, Decode;
    var h := r[..HIVE_HEADER];
    FieldWidths();
    DecodeEncode(size, 4);
    BlitSlice(m[..HIVE_HEADER], HEADER_SIZE_FIELD, Encode(size, 4), HEADER_SIZE_FIELD, HEADER_SIZE_FIELD + 4);
    assert Encode(size, 4)[0..4] == Encode(size, 4);
    assert r[68..72] == h[68..72];
    BlitAt(m[..HIVE_HEADER], HEADER_SIZE_FIELD, Encode(size, 4));
    forall k | 0 <= k < 3728 && !(68 <= k < 72)
      ensures r[k] == m[k]
    {
      assert r[k] == h[k];
    }
  }

  // Padding of HiveCalculateCompactedSize, and the offset of HIVE_HEADER.Size
  const COPY_PADDING: int := 4096
  const HEADER_SIZE_FIELD: int := 68

  /** Allocation fails exactly when no cell is taken. */
  lemma AllocateOutcome(a: Arena, n: nat)
    requires Tiled(a)
    ensures Allocate(a, n).1 == 0 <==> Taken(a, n) == |a.cells|
    ensures Allocate(a, n).1 == 0 ==> Allocate(a, n).0 == a
  {
    hide Taken, PlaceAt, Chain, Headers;
    if Taken(a, n) < |a.cells| { CellInside(a, Taken(a, n)); }
  }

  lemma OldStays(a: Arena, i: nat, n: nat)
    requires Tiled(a) && Resizable(a, n) && ResizeGoesThrough(a, i, n)
    ensures Tiled(BothCells(a, i, n)) && Addressable(BothCells(a, i, n), a.cells[i].off)
  {
    hide Tiled, IndexAt, BothCells, KeptExcept, Live, CellRequest, Resizable, ResizeGoesThrough, NoAdjacentFree;
    BothCellsKeep(a, i, n);
    GoesThroughLive(a, i, n);
    InLive(a.cells, i);
    KeptCell(a, BothCells(a, i, n), {}, a.cells[i]);
    var p := LiveIndex(BothCells(a, i, n).cells, a.cells[i]);
    IndexAtCell(BothCells(a, i, n), p);
  }

  lemma GoesThroughLive(a: Arena, i: nat, n: nat)
    requires ResizeGoesThrough(a, i, n)
    ensures i < |a.cells| && a.cells[i].size < 0
  {
  }

  // ----- Free-space statistics

  function FreeCount(cs: seq<Cell>): nat {
    if cs == [] then 0 else (if cs[0].size > 0 then 1 else 0) + FreeCount(cs[1..])
  }

  function LargestFree(cs: seq<Cell>): nat {
    if cs == [] then 0
    else if cs[0].size > LargestFree(cs[1..]) then cs[0].size else LargestFree(cs[1..])
  }

  lemma NoFreeSpace()
    ensures FreeCount([]) == FreeBytes([]) == LargestFree([]) == 0
  {
  }

  lemma {:induction false} LargestAppend(cs: seq<Cell>, c: Cell)
    ensures LargestFree(cs + [c]) == if c.size > LargestFree(cs) then c.size else LargestFree(cs)
    ensures FreeCount(cs + [c]) == FreeCount(cs) + if c.size > 0 then 1 else 0
  {
    if cs == [] {
      assert cs + [c] == [c] && [c][1..] == [];
    } else {
      LargestAppend(cs[1..], c);
      assert (cs + [c])[1..] == cs[1..] + [c];
    }
  }

  lemma FreeSpaceStep(cs: seq<Cell>, k: nat)
    requires k < |cs|
    ensures LargestFree(cs[..k + 1]) == if cs[k].size > LargestFree(cs[..k]) then cs[k].size else LargestFree(cs[..k])
    ensures FreeCount(cs[..k + 1]) == FreeCount(cs[..k]) + if cs[k].size > 0 then 1 else 0
    ensures FreeBytes(cs[..k + 1]) == FreeBytes(cs[..k]) + if cs[k].size > 0 then cs[k].size else 0
  {
    hide FreeCount, LargestFree;
    assert cs[..k + 1] == cs[..k] + [cs[k]];
    LargestAppend(cs[..k], cs[k]);
    FreeBytesAppend(cs[..k], [cs[k]]);
    assert [cs[k]][1..] == [];
  }

  /** The largest free block is no larger than all of them, and each takes a header's room. */
  lemma {:induction false} FreeSpaceOrder(cs: seq<Cell>)
    requires forall i :: 0 <= i < |cs| ==> cs[i].Len() >= CELL_HEADER
    ensures LargestFree(cs) <= FreeBytes(cs)
    ensures CELL_HEADER * FreeCount(cs) <= FreeBytes(cs)
  {
    if cs != [] {
      FreeSpaceOrder(cs[1..]);
    }
  }

  /** The three statistics without the recursion: how many free cells, what they hold, the largest. */
  lemma FreeSpaceMeans(a: Arena)
    requires Tiled(a)
    ensures FreeCount(a.cells) == |set i | 0 <= i < |a.cells| && a.cells[i].size > 0|
    ensures FreeBytes(a.cells) + LiveBytes(a.cells) == a.hi - 3728
    ensures forall i :: 0 <= i < |a.cells| ==> a.cells[i].size <= LargestFree(a.cells)
    ensures LargestFree(a.cells) == 0 || exists i :: 0 <= i < |a.cells| && a.cells[i].size == LargestFree(a.cells)
  {
    hide FreeCount, LargestFree, FreeBytes, LiveBytes, Chain, Headers;
    FreeCountIs(a.cells);
    LargestIs(a.cells);
    BytesConserved(a.cells, HIVE_HEADER, a.hi);
  }

  lemma {:induction false} FreeCountIs(cs: seq<Cell>)
    ensures FreeCount(cs) == |set i | 0 <= i < |cs| && cs[i].size > 0|
    decreases |cs|
  {
    hide FreeCount;
    var places := set i | 0 <= i < |cs| && cs[i].size > 0;
    if cs == [] {
      NoFreeSpace();
      assert places == {};
    } else {
      var n, init := |cs| - 1, cs[..|cs| - 1];
      FreeCountIs(init);
      LargestAppend(init, cs[n]);
      assert cs == init + [cs[n]];
      assert places == (set i | 0 <= i < |init| && init[i].size > 0) + (if cs[n].size > 0 then {n} else {});
    }
  }

  lemma {:induction false} LargestIs(cs: seq<Cell>)
    ensures forall i :: 0 <= i < |cs| ==> cs[i].size <= LargestFree(cs)
    ensures LargestFree(cs) == 0 || exists i :: 0 <= i < |cs| && cs[i].size == LargestFree(cs)
    decreases |cs|
  {
    if cs != [] {
      var n, init := |cs| - 1, cs[..|cs| - 1];
      LargestIs(init);
      LargestAppend(init, cs[n]);
      assert cs == init + [cs[n]];
      assert forall i :: 0 <= i < n ==> cs[i] == init[i];
    }
  }

  lemma FreeSpaceBounds(a: Arena)
    requires Tiled(a)
    ensures LargestFree(a.cells) <= FreeBytes(a.cells) < TWO_31
    ensures CELL_HEADER * FreeCount(a.cells) <= FreeBytes(a.cells)
  {
    CellsInside(a);
    FreeSpaceOrder(a.cells);
    BytesConserved(a.cells, HIVE_HEADER, a.hi);
  }

  /** A UINT32 product by one hundred; it wraps on a large hive. */
  function Times100(x: nat): (r: nat)
    ensures r <= 100 * x && r < TWO_32
  {
    x * 100 % TWO_32
  }

  function Over(x: nat, d: nat): nat
    requires d > 0
  {
    x / d
  }

  lemma OverAtMost(x: nat, d: nat, q: nat)
    requires d > 0 && x <= q * d
    ensures Over(x, d) <= q
  {
    hide Over;
    OverTimes(x, d);
    if Over(x, d) > q {
      TimesGrows(Over(x, d), q, d);
    }
  }

  lemma OverTimes(x: nat, d: nat)
    requires d > 0
    ensures Over(x, d) * d <= x
  {
  }

  lemma {:induction false} TimesGrows(p: nat, q: nat, d: nat)
    requires p > q
    ensures p * d >= q * d + d
  {
    assert p * d == (p - 1) * d + d;
    if p > q + 1 {
      TimesGrows(p - 1, q, d);
    }
  }

  /** The fragmentation score with its final difference and sum taken over the integers. */
  function Fragmentation(blocks: nat, total: nat, largest: nat): int {
    if total == 0 then 0
    else
      var score := Over(Times100(blocks), total / 1024 + 1) + 100 - Over(Times100(largest), total);
      if score > 100 then 100 else score
  }

  function Least(x: int, y: int): int { if x < y then x else y }

  /** The score in the code's own terms, and what it bounds: short of 100, and while the largest
      block's product does not wrap, the percentage of free bytes outside that block. */
  lemma FragmentationIs(blocks: nat, total: nat, largest: nat)
    ensures total == 0 ==> Fragmentation(blocks, total, largest) == 0
    ensures total > 0 ==>
      Fragmentation(blocks, total, largest) == Least(100, blocks * 100 % 0x1_0000_0000 / (total / 1024 + 1)
                                                          + 100 - largest * 100 % 0x1_0000_0000 / total)
    ensures total > 0 && 100 * largest < 0x1_0000_0000 && Fragmentation(blocks, total, largest) < 100 ==>
      100 * (total - largest) <= Fragmentation(blocks, total, largest) * total
  {
    if total > 0 && 100 * largest < 0x1_0000_0000 && Fragmentation(blocks, total, largest) < 100 {
      SmallProduct(largest);
      ShareOutside(Over(Times100(blocks), total / 1024 + 1), Over(100 * largest, total), total, largest);
    }
  }

  lemma SmallProduct(x: nat)
    requires 100 * x < 0x1_0000_0000
    ensures Times100(x) == 100 * x
  {
  }

  lemma ShareOutside(b: nat, q: nat, total: nat, largest: nat)
    requires total > 0 && q == Over(100 * largest, total)
    ensures 100 * (total - largest) <= (b + 100 - q) * total
  {
    hide Over;
    OverTimes(100 * largest, total);
    assert (b + 100 - q) * total == b * total + 100 * total - q * total;
  }

  /** Neither 100 - ratio nor the sum wraps, on a hive of any size. */
  lemma ScoreBounds(blocks: nat, total: nat, largest: nat)
    requires 0 < total < TWO_31 && largest <= total && CELL_HEADER * blocks <= total
    ensures Over(Times100(largest), total) <= 100
    ensures Over(Times100(blocks), total / 1024 + 1) <= TWO_31
  {
    hide Over, Times100;
    OverAtMost(Times100(largest), total, 100);
    if total < 1024 {
      OverAtMost(Times100(blocks), 1, TWO_31);
    } else {
      AtLeastTwo(total / 1024 + 1);
      OverAtMost(Times100(blocks), total / 1024 + 1, TWO_31);
    }
  }

  lemma AtLeastTwo(d: nat)
    requires d >= 2
    ensures TWO_32 <= TWO_31 * d
  {
  }

  /** How many cells a copy that has stopped holds: all of them once no live one is left. */
  lemma CopiedCells(m: Image, a: Arena, k: nat, end: nat, n: nat) returns (copied: nat)
    requires Tiled(a) && k <= |a.cells| && CopiedSoFar(m, a, k)
    requires end == HIVE_HEADER + LiveBytes(a.cells[..k]) <= n && (k == |a.cells| || end == n)
    ensures k <= copied <= |a.cells| && CopiedSoFar(m, a, copied) && end == HIVE_HEADER + LiveBytes(a.cells[..copied])
    ensures copied == |a.cells| <==> HIVE_HEADER + LiveBytes(a.cells) <= n
    ensures HIVE_HEADER + LiveBytes(a.cells) <= n || FillsExactly(a.cells, n)
  {
    hide Tiled, LiveBytes, CopiedSoFar;
    assert a.cells[..|a.cells|] == a.cells;
    LiveBytesGrow(a, k, |a.cells|);
    if LiveBytes(a.cells[..k]) == LiveBytes(a.cells) {
      CopiedAll(m, a, k);
      copied := |a.cells|;
    } else {
      assert FillsAt(a.cells, k, n);
      copied := k;
    }
  }

  /** The truncated copy is real: of two allocated cells, a destination for one holds one. */
  lemma TruncatedCopy(len: nat)
    requires CELL_HEADER <= len && HIVE_HEADER + 2 * len < TWO_31
    ensures var cs := [Allocated(HIVE_HEADER, len), Allocated(HIVE_HEADER + len, len)];
      && Tiled(BlankArena(cs, HIVE_HEADER + 2 * len))
      && FillsExactly(cs, HIVE_HEADER + len) && HIVE_HEADER + len < HIVE_HEADER + LiveBytes(cs)
  {
    hide Blank, ReadI32;
    var cs := [Allocated(HIVE_HEADER, len), Allocated(HIVE_HEADER + len, len)];
    BlankIsTiled(cs, HIVE_HEADER, HIVE_HEADER + 2 * len);
    assert cs[..1] == [cs[0]];
    assert LiveBytes(cs[..1]) == len;
    assert FillsAt(cs, 1, HIVE_HEADER + len);
  }

  lemma {:induction false} PackedAllLive(cs: seq<Cell>, w: nat)
    ensures LiveList(Packed(cs, w)) == Packed(cs, w)
    decreases |cs|
  {
    if cs != [] {
      PackingHead(cs, w);
      if cs[0].size < 0 {
        PackedAllLive(cs[1..], w + cs[0].Len());
        PackingHead(Packed(cs, w), 0);
      } else {
        PackedAllLive(cs[1..], w);
      }
    }
  }

  // ----- Headers at any offset

  /** The header at off lies inside the hive, and its size can be negated in an INT32. */
  predicate HeaderReadable(a: Arena, off: nat) {
    0 < off < a.hi ==> off + CELL_HEADER <= |a.m| && ReadI32(a.m, off) > -TWO_31
  }

  lemma AddressableReadable(a: Arena, off: nat)
    requires Tiled(a) && Addressable(a, off)
    ensures HeaderReadable(a, off)
  {
    hide Tiled, ReadI32, IndexAt;
    if 0 < off < a.hi {
      WalkStep(a, IndexAt(a.cells, off));
      CellInside(a, IndexAt(a.cells, off));
    }
  }

  /** What HiveBinGetData makes of the size at off: the payload, when it reads as allocated and
      large enough for n bytes and a header in 64-bit arithmetic. */
  function PayloadAt(m: Image, hi: nat, off: nat, n: nat): (at: nat)
    requires 0 < off < hi ==> off + CELL_HEADER <= |m|
  {
    if off == 0 || off >= hi then 0
    else if ReadI32(m, off) >= 0 || -ReadI32(m, off) < (n + CELL_HEADER) % TWO_64 then 0
    else off + CELL_HEADER
  }

  /** A payload that is found lies inside the buffer. */
  predicate PayloadInside(m: Image, hi: nat, off: nat, n: nat)
    requires 0 < off < hi ==> off + CELL_HEADER <= |m|
  {
    n < TWO_64 && (PayloadAt(m, hi, off, n) != 0 ==> off + CELL_HEADER + n <= |m|)
  }

  lemma PayloadPlace(m: Image, hi: nat, off: nat, n: nat)
    requires 0 < off < hi ==> off + CELL_HEADER <= |m|
    requires PayloadInside(m, hi, off, n) && PayloadAt(m, hi, off, n) != 0
    ensures PayloadAt(m, hi, off, n) == off + CELL_HEADER && off + CELL_HEADER + n <= |m|
  {
    hide ReadI32;
  }

  /** At the start of a cell the payload is found exactly when the cell is live and holds n bytes. */
  lemma PayloadOfCell(a: Arena, off: nat, n: nat)
    requires Tiled(a) && Addressable(a, off) && HeaderReadable(a, off)
    ensures n + CELL_HEADER < TWO_64 ==> var i := IndexAt(a.cells, off);
      PayloadAt(a.m, a.hi, off, n) == if i < |a.cells| && CanHold(a.cells[i], n) then off + CELL_HEADER else 0
  {
    hide Tiled, ReadI32, IndexAt;
    if off == 0 || off >= a.hi {
      OutOfRange(a, off);
    } else {
      WalkStep(a, IndexAt(a.cells, off));
    }
  }

  lemma WrittenSlice(m: Image, at: nat, data: Image)
    requires at + |data| <= |m|
    ensures Blit(m, at, data)[at..at + |data|] == data
  {
    BlitSlice(m, at, data, at, at + |data|);
  }

  lemma StartNotZero(a: Arena)
    requires Tiled(a)
    ensures forall i :: 0 <= i < |a.cells| ==> a.cells[i].off > 0
  {
    CellsInside(a);
  }

  /** The payload of a cell, in its size. */
  lemma PayloadOfCells(a: Arena, off: nat, n: nat)
    requires Tiled(a) && HeaderReadable(a, off)
    ensures n + 8 < TWO_64 ==> forall i :: 0 <= i < |a.cells| && a.cells[i].off == off ==>
      PayloadAt(a.m, a.hi, off, n) == if a.cells[i].size < 0 && n + 8 <= -a.cells[i].size then off + 8 else 0
  {
    hide Tiled, ReadI32;
    forall i | n + 8 < TWO_64 && 0 <= i < |a.cells| && a.cells[i].off == off
      ensures PayloadAt(a.m, a.hi, off, n) == if a.cells[i].size < 0 && n + 8 <= -a.cells[i].size then off + 8 else 0
    {
      WalkStep(a, i);
      CellInside(a, i);
    }
  }

  lemma ValidStart(a: Arena, off: nat)
    requires Tiled(a) && Addressable(a, off) && HeaderReadable(a, off)
    ensures (var i := IndexAt(a.cells, off); i < |a.cells| && a.cells[i].size < 0)
      <==> 0 < off < a.hi && var v := ReadI32(a.m, off); v <= 0 - CELL_HEADER && off - v <= a.hi
  {
    hide Tiled, ReadI32, IndexAt;
    if off == 0 || off >= a.hi {
      OutOfRange(a, off);
    } else {
      WalkStep(a, IndexAt(a.cells, off));
      CellInside(a, IndexAt(a.cells, off));
    }
  }

  /** The n bytes at `at` lie in cell i, past its size field. */
  predicate Spans(a: Arena, i: nat, at: nat, n: nat) {
    i < |a.cells| && a.cells[i].off + 4 <= at && at + n <= a.cells[i].End()
  }

  /** Bytes written inside one cell, wherever they start, change no other. */
  lemma SpannedKept(a: Arena, at: nat, data: Image)
    requires Tiled(a)
    ensures KeptExcept(a, a, {})
    ensures forall i: nat :: Spans(a, i, at, |data|) ==>
      at + |data| <= |a.m|
      && Tiled(a.(m := Blit(a.m, at, data))) && KeptExcept(a, a.(m := Blit(a.m, at, data)), {a.cells[i]})
      && KeptExcept(a, a, {a.cells[i]})
  {
    hide Tiled, Blit, KeptExcept, Live;
    KeptAsIs(a);
    forall i: nat | Spans(a, i, at, |data|)
      ensures at + |data| <= |a.m|
        && Tiled(a.(m := Blit(a.m, at, data))) && KeptExcept(a, a.(m := Blit(a.m, at, data)), {a.cells[i]})
        && KeptExcept(a, a, {a.cells[i]})
    {
      PatchKeeps(a, i, at, data);
      KeptFewer(a, a, {}, {a.cells[i]});
    }
  }

  lemma NothingWritten(a: Arena, off: nat, data: Image)
    requires Tiled(a) && HeaderReadable(a, off) && PayloadInside(a.m, a.hi, off, |data|)
    requires off == 0 || data == [] || PayloadAt(a.m, a.hi, off, |data|) == 0
    ensures Addressable(a, off) && |data| + CELL_HEADER < TWO_64 ==> Write(a, off, data) == a
  {
    hide Tiled, ReadI32, IndexAt, PayloadAt;
    if Addressable(a, off) && off != 0 && data != [] {
      PayloadOfCell(a, off, |data|);
    } else if off == 0 {
      OutOfRange(a, off);
    }
  }

  lemma WriteHere(a: Arena, off: nat, data: Image)
    requires Tiled(a) && Addressable(a, off) && HeaderReadable(a, off) && PayloadInside(a.m, a.hi, off, |data|)
    requires data != [] && PayloadAt(a.m, a.hi, off, |data|) != 0 && |data| + CELL_HEADER < TWO_64
    ensures off + CELL_HEADER + |data| <= |a.m|
    ensures Write(a, off, data) == a.(m := Blit(a.m, off + CELL_HEADER, data))
  {
    hide Tiled, ReadI32, IndexAt, Blit, PayloadAt;
    PayloadOfCell(a, off, |data|);
    PayloadPlace(a.m, a.hi, off, |data|);
  }

  lemma FreedCell(a: Arena, off: nat)
    requires Tiled(a)
    ensures forall i :: 0 <= i < |a.cells| && a.cells[i].off == off && a.cells[i].size < 0 ==>
      && Addressable(a, off)
      && Live(Free(a, off).cells) == Live(a.cells) - {a.cells[i]}
      && off + 8 <= |Free(a, off).m| && Free(a, off).m[off + 4..off + 8] == [0, 0, 0, 0]
  {
    hide Tiled, Free, Live, IndexAt, KeptExcept, NoAdjacentFree;
    forall i | 0 <= i < |a.cells| && a.cells[i].off == off && a.cells[i].size < 0
      ensures Addressable(a, off)
      ensures Live(Free(a, off).cells) == Live(a.cells) - {a.cells[i]}
      ensures off + 8 <= |Free(a, off).m| && Free(a, off).m[off + 4..off + 8] == [0, 0, 0, 0]
    {
      IndexAtCell(a, i);
      FreeKeeps(a, i);
      FreeClears(a, i);
    }
  }

  /** A resize in sizes: what it takes to go through, and what it does then. */
  lemma ResizeInSizes(a: Arena, off: nat, n: nat)
    requires Tiled(a) && Resizable(a, n)
    ensures var (r, to) := Resize(a, off, n);
      && (to == 0 ==> r == a)
      && (to != 0 <==>
            && n > 0 && (exists i :: 0 <= i < |a.cells| && a.cells[i].off == off && a.cells[i].size < -8)
            && (exists i :: 0 <= i < |a.cells| && a.cells[i].size > 0 && a.cells[i].size >= AlignUp8(n + 8)))
      && (to != 0 ==> forall i :: 0 <= i < |a.cells| && a.cells[i].off == off ==>
            && Live(r.cells) == Live(a.cells) - {a.cells[i]} + {Allocated(to, AlignUp8(n + 8))}
            && PrefixCarried(a.m, a.cells[i], r.m, to, n))
  {
    hide Tiled, Live, Resize, Allocate, PrefixCarried, KeptExcept, NoAdjacentFree, CarriedOver, PayloadKept, AlignUp8,
         Covered, IndexAt;
    var i := IndexAt(a.cells, off);
    RequestInSizes(n);
    if n > 0 {
      AllocateFirstFit(a, CellRequest(n));
      AllocateOutcome(a, CellRequest(n));
    }
    forall k | 0 <= k < |a.cells| && a.cells[k].off == off
      ensures k == i
    {
      IndexAtCell(a, k);
    }
    if ResizeGoesThrough(a, i, n) {
      ResizeKeeps(a, i, n);
    } else {
      NothingResized(a, off, n);
    }
  }

  lemma RequestInSizes(n: nat)
    requires n < TWO_64 - 15
    ensures CellRequest(n) == AlignUp8(n + 8) == AlignUp8(CellRequest(n)) > 0
  {
  }

  /** The cell of a value record, in its size. */
  lemma RecordRequest(a: Arena, nameLength: nat)
    requires Tiled(a) && nameLength <= MAX_NAME
    ensures nameLength <= 255 && CellRequest(VALUE_CELL + nameLength) == AlignUp8(40 + nameLength)
    ensures Taken(a, CellRequest(VALUE_CELL + nameLength)) == |a.cells| <==>
      forall i :: 0 <= i < |a.cells| ==> a.cells[i].size <= 0 || a.cells[i].size < AlignUp8(40 + nameLength)
  {
    hide Tiled, Allocate, AlignUp8, CellRequest;
    RequestInSizes(VALUE_CELL + nameLength);
    AllocateFirstFit(a, CellRequest(VALUE_CELL + nameLength));
    AllocateOutcome(a, CellRequest(VALUE_CELL + nameLength));
  }

  lemma AllocateInSizes(a: Arena, n: nat)
    requires Tiled(a)
    ensures var (b, off) := Allocate(a, n);
      && (n > 0 ==>
            (off != 0 <==> exists i :: 0 <= i < |a.cells| && a.cells[i].size > 0 && a.cells[i].size >= AlignUp8(n)))
      && (off != 0 ==>
            exists i :: 0 <= i < |a.cells| && a.cells[i].off == off
                        && a.cells[i].size > 0 && a.cells[i].size >= AlignUp8(n)
                        && forall j :: 0 <= j < i ==> a.cells[j].size <= 0 || a.cells[j].size < AlignUp8(n))
      && (off != 0 ==> HeadersWritten(a.m, b.m, off, AlignUp8(n), Tiled(b)))
  {
    hide Tiled, AlignUp8, ReadI32, PlaceAt;
    if n > 0 {
      AllocateFirstFit(a, n);
    }
    if Allocate(a, n).1 != 0 {
      AllocateWrites(a, n);
    }
  }

  class Hive {
    var base: array<Byte>
    var size: nat
    var dirty: bool
    ghost var cells: seq<Cell>

    ghost function View(): Arena
      reads this, base
    {
      Arena(base[..], cells, size)
    }

    ghost predicate Valid()
      reads this, base
    {
      Tiled(View())
    }

    /** HiveCreate after its buffer has been allocated and zeroed. */
    constructor (initialSize: nat)
      requires HIVE_HEADER + CELL_HEADER <= initialSize < TWO_31
      ensures View() == Created(initialSize) && Valid() && !dirty
      ensures fresh(base)
    {
      base := new Byte[initialSize](_ => 0);
      size := initialSize;
      dirty := false;
      cells := [Cell(HIVE_HEADER, initialSize - HIVE_HEADER)];
      new;
      assert base[..] == seq(initialSize, _ => 0);
      CopyIn(base, HIVE_HEADER, EncodeI32(initialSize - HIVE_HEADER) + [0, 0, 0, 0]);
      CreatedCanonical(initialSize);
    }

    method WriteHeader(off: nat, value: int)
      requires off + CELL_HEADER <= base.Length
      modifies base
      ensures base[..] == PutHeader(old(base[..]), off, value)
    {
      CopyIn(base, off, EncodeI32(value) + [0, 0, 0, 0]);
    }

    method WriteSize(off: nat, value: int)
      requires off + 4 <= base.Length
      modifies base
      ensures base[..] == PutSize(old(base[..]), off, value)
    {
      CopyIn(base, off, EncodeI32(value));
    }

    /** HiveBinAllocateBlock. */
    method AllocateBlock(n: nat) returns (off: nat)
      requires Valid()
      modifies this`cells, this`dirty, base
      ensures base == old(base)
      ensures (View(), off) == Allocate(old(View()), n)
      ensures Valid() <==> Covered(old(View()), n)
      ensures dirty == (old(dirty) || off != 0)
      ensures n > 0 ==>
        (off != 0 <==> exists i :: 0 <= i < |old(cells)| && old(cells)[i].size > 0 && old(cells)[i].size >= AlignUp8(n))
      ensures off != 0 ==>
        exists i :: 0 <= i < |old(cells)| && old(cells)[i].off == off
                    && old(cells)[i].size > 0 && old(cells)[i].size >= AlignUp8(n)
                    && forall j :: 0 <= j < i ==> old(cells)[j].size <= 0 || old(cells)[j].size < AlignUp8(n)
      ensures off != 0 ==> HeadersWritten(old(base[..]), base[..], off, AlignUp8(n), Valid())
    {
      hide Tiled, Allocate, Covered, Place, PutHeader, ReadI32, AlignUp8, HeadersWritten;
      ghost var a := View();
      AllocateTiled(a, n);
      AllocateInSizes(a, n);
      if n == 0 { NoFit(a, n); return 0; }
      var need := AlignUp8(n);
      var offset := HIVE_HEADER;
      ghost var k := 0;
      WalkStart(a);
      while offset < size
        invariant View() == a && base == old(base) && dirty == old(dirty)
        invariant k <= |cells| && offset == StartOf(cells, k, size)
        invariant forall j :: 0 <= j < k ==> !Fits(cells[j], need)
        decreases |cells| - k
      {
        WalkStep(a, k);
        var cellSize := ReadI32(base[..], offset);
        if cellSize > 0 && cellSize >= need {
          FirstFit(a, n, k);
          if cellSize > need + CELL_HEADER {
            WriteHeader(offset + need, cellSize - need);
          }
          WriteHeader(offset, -(need as int));
          cells := Place(cells, k, need);
          dirty := true;
          return offset;
        }
        offset := offset + Abs(cellSize);
        k := k + 1;
      }
      if k < |cells| { WalkStep(a, k); }
      NoFit(a, n);
      return 0;
    }

    /** The merge with the next cell, when that one is free. */
    method GrowOverNext(offset: nat)
      requires NextReadable(base[..], size, offset)
      modifies base
      ensures base[..] == GrownAt(old(base[..]), size, offset)
    {
      hide ReadI32, PutSize;
      var nextOffset := offset + ReadI32(base[..], offset);
      if nextOffset < size {
        var nextSize := ReadI32(base[..], nextOffset);
        if nextSize > 0 {
          WriteSize(offset, ReadI32(base[..], offset) + nextSize);
        }
      }
    }

    /** The walk over the cells before offset: it finds a free cell that ends right there. */
    method FindPrevious(offset: nat, ghost cs: seq<Cell>, ghost hi: int) returns (found: bool, prev: nat)
      requires Chain(cs, HIVE_HEADER, hi) && Headers(base[..], cs) && offset <= hi
      requires forall j :: 0 <= j < |cs| ==> cs[j].off < offset
      ensures found <==> cs != [] && hi == offset && cs[|cs| - 1].size > 0
      ensures found ==> prev == cs[|cs| - 1].off && prev + CELL_HEADER <= base.Length
    {
      hide ReadI32;
      prev := HIVE_HEADER;
      ghost var k: nat := 0;
      while prev < offset
        invariant k <= |cs| && prev == if k < |cs| then cs[k].off else hi
        invariant k == |cs| && hi == offset && k > 0 ==> cs[k - 1].size <= 0
        decreases |cs| - k
      {
        ChainNext(cs, k, HIVE_HEADER, hi);
        var prevSize := ReadI32(base[..], prev);
        var prevEnd := prev + Abs(prevSize);
        if prevEnd == offset && prevSize > 0 {
          LastEndsThere(cs, k, HIVE_HEADER, hi, offset);
          return true, prev;
        }
        prev := prevEnd;
        k := k + 1;
      }
      found := false;
    }

    /** The merge of a free cell with its neighbours, as HiveBinFreeBlock and
        HiveCoalesceFreeSpace both do it: at the start of cell i, or inside it. */
    method MergeNeighbours(offset: nat, ghost i: nat)
      requires Valid() && i < |cells|
      requires (cells[i].off == offset && cells[i].size > 0)
            || (Inside(View(), i, offset) && NextReadable(base[..], size, offset))
      modifies this`cells, base
      ensures base == old(base) && Valid()
      ensures old(cells)[i].off == offset ==> View() == CoalesceAt(old(View()), i)
      ensures old(cells)[i].off != offset ==> View() == old(View()).(m := GrownAt(old(base[..]), size, offset))
    {
      hide Tiled, PutSize, ReadI32, Coalesce, Chain, Headers, GrownAt, NextReadable;
      ghost var a := View();
      ghost var n := if cells[i].off == offset then i else i + 1;
      MergeReady(a, i, offset);
      if cells[i].off == offset {
        CoalesceTiled(a, i);
      }
      GrowOverNext(offset);
      CellsBefore(a, base[..], i, offset);
      var found, prev := FindPrevious(offset, a.cells[..n], StartOf(a.cells, n, a.hi));
      if found {
        WriteSize(prev, ReadI32(base[..], prev) + ReadI32(base[..], offset));
      }
      if cells[i].off == offset {
        cells := Coalesce(cells, i);
      }
    }

    /** HiveBinFreeBlock, on the offsets a caller can hold and on those inside a cell. */
    method FreeBlock(off: nat)
      requires Valid() && FreeTarget(View(), off)
      modifies this`cells, this`dirty, base
      ensures base == old(base) && Valid()
      ensures Addressable(old(View()), off) ==> View() == Free(old(View()), off)
      ensures !Addressable(old(View()), off) ==> View() == old(View()).(m := FreeInside(old(base[..]), size, off))
      ensures forall i :: 0 <= i < |old(cells)| && old(cells)[i].off == off && old(cells)[i].size < 0 ==>
        && Live(cells) == Live(old(cells)) - {old(cells)[i]}
        && off + 8 <= base.Length && base[off + 4..off + 8] == [0, 0, 0, 0]
    {
      hide Tiled, PutHeader, ReadI32, ReleaseAt, CoalesceAt, IndexAt, NextReadable, GrownAt, Live;
      ghost var a := View();
      FreedCell(a, off);
      if off == 0 || off >= size {
        OutOfRange(a, off);
        return;
      }
      ghost var i := TargetCell(a, off);
      var cellSize := ReadI32(base[..], off);
      if cellSize < 0 {
        WriteHeader(off, -cellSize);
        if cells[i].off == off {
          MarkStart(a, off);
          cells := cells[i := Cell(off, -cellSize)];
        } else {
          MarkInside(a, i, off);
        }
        MergeNeighbours(off, i);
        dirty := true;
      }
    }

    /** HiveFindFreeSpace. */
    method FindFreeSpace(n: nat) returns (off: nat)
      requires Valid()
      ensures off == Allocate(View(), n).1
      ensures off != 0 ==> Taken(View(), n) < |cells| && off == cells[Taken(View(), n)].off
      ensures off == 0 ==> Taken(View(), n) == |cells|
      ensures n > 0 ==>
        (off != 0 <==> exists i :: 0 <= i < |cells| && cells[i].size > 0 && cells[i].size >= AlignUp8(n))
      ensures off != 0 ==>
        exists i :: 0 <= i < |cells| && cells[i].off == off && cells[i].size > 0 && cells[i].size >= AlignUp8(n)
                    && forall j :: 0 <= j < i ==> cells[j].size <= 0 || cells[j].size < AlignUp8(n)
    {
      hide Tiled, ReadI32, AlignUp8, PlaceAt, PlaceImage, Place, HeadersWritten;
      ghost var a := View();
      AllocateInSizes(a, n);
      if n == 0 { NoFit(a, n); return 0; }
      var need := AlignUp8(n);
      var offset := HIVE_HEADER;
      ghost var k := 0;
      WalkStart(a);
      while offset < size
        invariant k <= |cells| && offset == StartOf(cells, k, size)
        invariant forall j :: 0 <= j < k ==> !Fits(cells[j], need)
        decreases |cells| - k
      {
        WalkStep(a, k);
        var cellSize := ReadI32(base[..], offset);
        if cellSize > 0 && cellSize >= need {
          FirstFit(a, n, k);
          return offset;
        }
        offset := offset + Abs(cellSize);
        k := k + 1;
      }
      if k < |cells| { WalkStep(a, k); }
      NoFit(a, n);
      return 0;
    }

    /** HiveAllocateFromFreeSpace: the same allocator written a second time. */
    method AllocateFromFreeSpace(n: nat) returns (off: nat)
      requires Valid()
      modifies this`cells, this`dirty, base
      ensures base == old(base)
      ensures n == 0 || AlignUp8(n) > 0 ==> (View(), off) == Allocate(old(View()), n)
      ensures n > 0 && AlignUp8(n) == 0 ==> off == 0 && View() == old(View())
      ensures dirty == (old(dirty) || off != 0)
      ensures n > 0 && AlignUp8(n) > 0 ==>
        (off != 0 <==> exists i :: 0 <= i < |old(cells)| && old(cells)[i].size > 0 && old(cells)[i].size >= AlignUp8(n))
      ensures off != 0 ==>
        exists i :: 0 <= i < |old(cells)| && old(cells)[i].off == off
                    && old(cells)[i].size > 0 && old(cells)[i].size >= AlignUp8(n)
                    && forall j :: 0 <= j < i ==> old(cells)[j].size <= 0 || old(cells)[j].size < AlignUp8(n)
      ensures off != 0 ==> HeadersWritten(old(base[..]), base[..], off, AlignUp8(n), Valid())
    {
      hide Tiled, PutHeader, ReadI32, Place, AlignUp8, HeadersWritten;
      ghost var a := View();
      AllocateInSizes(a, n);
      if n == 0 { NoFit(a, n); return 0; }
      var need := AlignUp8(n);
      AlignTwice(n);
      var freeOffset := FindFreeSpace(need);
      if freeOffset == 0 {
        if need > 0 {
          NoneTaken(a, need);
          NoFit(a, n);
        }
        return 0;
      }
      ghost var k := Taken(a, n);
      TakenFits(a, n);
      FirstFit(a, n, k);
      WalkStep(a, k);
      var cellSize := ReadI32(base[..], freeOffset);
      if cellSize > need + CELL_HEADER {
        WriteHeader(freeOffset + need, cellSize - need);
      }
      WriteHeader(freeOffset, -(need as int));
      cells := Place(cells, k, need);
      dirty := true;
      return freeOffset;
    }

    /** HiveCoalesceFreeSpace, at the start of a cell or inside one. */
    method CoalesceFreeSpace(off: nat) returns (status: Status)
      requires Valid() && (off == 0 || MergeTarget(View(), off))
      modifies this`cells, base
      ensures base == old(base) && Valid()
      ensures status == if off == 0 || ReadI32(old(base[..]), off) <= 0 then InvalidParameter else Success
      ensures status != Success ==> View() == old(View())
      ensures status == Success && Addressable(old(View()), off) ==>
        View() == CoalesceAt(old(View()), IndexAt(old(cells), off))
      ensures status == Success && !Addressable(old(View()), off) ==>
        View() == old(View()).(m := GrownAt(old(base[..]), size, off))
    {
      hide Tiled, ReadI32, CoalesceAt, IndexAt, NextReadable, GrownAt;
      if off == 0 {
        return InvalidParameter;
      }
      ghost var i := MergeCell(View(), off);
      if ReadI32(base[..], off) <= 0 {
        return InvalidParameter;
      }
      MergeNeighbours(off, i);
      return Success;
    }

    /** HiveMarkSpaceAsFree, on the extent of an allocated cell or on a range inside a cell. */
    method MarkSpaceAsFree(off: nat, n: nat) returns (status: Status)
      requires Valid() && off + n < TWO_64
      requires off != 0 && n != 0 && off + n <= size ==> Allocated(off, n) in cells || RangeInside(View(), off, n)
      modifies this`cells, this`dirty, base
      ensures base == old(base) && Valid() && dirty == (old(dirty) || status == Success)
      ensures status == if off != 0 && n != 0 && off + n <= size then Success else InvalidParameter
      ensures status != Success ==> View() == old(View())
      ensures status == Success && Allocated(off, n) in old(cells) ==> View() == Free(old(View()), off)
      ensures status == Success && Allocated(off, n) !in old(cells) ==>
        View() == old(View()).(m := MarkedInside(old(View()), off, n))
    {
      hide Tiled, PutHeader, ReadI32, ReleaseAt, CoalesceAt, IndexAt, NextReadable, GrownAt;
      ghost var a := View();
      if off == 0 || n == 0 {
        return InvalidParameter;
      }
      if off + n > size {
        return InvalidParameter;
      }
      if Allocated(off, n) in a.cells {
        ghost var i :| 0 <= i < |cells| && cells[i] == Allocated(off, n);
        IndexAtCell(a, i);
        WalkStep(a, i);
        MarkStart(a, off);
        MarkedStart(a, off);
      } else {
        TiledParts(a);
        MarkedRange(a, off, n);
      }
      WriteHeader(off, n);
      if Allocated(off, n) in a.cells {
        cells := cells[IndexAt(cells, off) := Cell(off, n)];
      }
      var merged := CoalesceFreeSpace(off);
      dirty := true;
      return Success;
    }

    /** HiveDefragmentFreeSpace. */
    method Defragment()
      requires Valid()
      modifies this`cells, this`dirty, base
      ensures base == old(base) && dirty
      ensures Canonical(View())
      ensures Defragmented(old(View()), View())
    {
      hide Tiled, ReadI32, CoalesceAt, KeptExcept, Live, FreeBytes, NoAdjacentFree, IndexAt, OwnSize;
      ghost var a := View();
      DefragmentedStart(a);
      var changed := true;
      while changed
        invariant base == old(base) && Valid() && Defragmented(a, View())
        invariant changed || NoAdjacentFree(cells)
        decreases |cells| + if changed then 1 else 0
      {
        changed := false;
        var offset := HIVE_HEADER;
        ghost var k: nat := 0;
        ghost var before := |cells|;
        WalkStart(View());
        NothingYet(cells);
        while offset < size
          invariant base == old(base) && Valid() && Defragmented(a, View())
          invariant k <= |cells| <= before && offset == StartOf(cells, k, size)
          invariant NoAdjacentFree(cells[..k])
          invariant changed ==> |cells| < before
          decreases size - offset
        {
          ghost var here := View();
          WalkStep(here, k);
          CellInside(here, k);
          IndexAtCell(here, k);
          if ReadI32(base[..], offset) > 0 {
            var originalSize := ReadI32(base[..], offset);
            PassStep(here, k);
            DefragmentedStep(a, here, k);
            var merged := CoalesceFreeSpace(offset);
            if ReadI32(base[..], offset) != originalSize {
              changed := true;
            }
            k := MergedIndex(here.cells, k) + 1;
          } else {
            PassSkip(cells, k);
            k := k + 1;
          }
          offset := offset + Abs(ReadI32(base[..], offset));
        }
        if k < |cells| { WalkStep(View(), k); }
        assert cells[..k] == cells;
      }
      dirty := true;
    }

    /** The body of the loop of HiveBinCompact. */
    method CompactTurn(readOffset: nat, writeOffset: nat) returns (nextRead: nat, nextWrite: nat)
      requires readOffset < size
      requires Turn(Walk(base[..], readOffset, writeOffset), size) != Walk(base[..], readOffset, writeOffset)
      modifies base
      ensures Walk(base[..], nextRead, nextWrite) == Turn(Walk(old(base[..]), readOffset, writeOffset), size)
    {
      hide ReadI32, Blit;
      nextWrite := writeOffset;
      if ReadI32(base[..], readOffset) < 0 {
        var blockSize := -ReadI32(base[..], readOffset);
        if readOffset != writeOffset {
          CopyIn(base, writeOffset, base[readOffset..readOffset + blockSize]);
        }
        nextWrite := writeOffset + blockSize;
      }
      nextRead := readOffset + Abs(ReadI32(base[..], readOffset));
    }

    /** HiveBinCompact, on any hive on which its loop ends inside the buffer. */
    method Compact()
      requires Valid() && Ends(View())
      modifies this`cells, this`dirty, base
      ensures base == old(base) && dirty
      ensures base[..] == Finished(FinalWalk(old(View())), size)
      ensures PacksInPlace(old(View())) ==> Compacted(old(View()), View()) && Canonical(View())
    {
      hide Tiled, ReadI32, PutHeader, Blit, Turn, Turns, Done, Compacted, PacksInPlace, Canonical, Ends, FinalWalk;
      ghost var a := View();
      ghost var n := TurnsNeeded(a);
      ghost var t: nat := 0;
      var readOffset: nat, writeOffset: nat := HIVE_HEADER, HIVE_HEADER;
      StartOfTurns(a);
      MovesOn(a, n, 0);
      while readOffset < size
        invariant base == old(base)
        invariant Walk(base[..], readOffset, writeOffset) == Turns(Start(a), size, t)
        invariant readOffset < size ==> t < n && Turn(Turns(Start(a), size, t), size) != Turns(Start(a), size, t)
        invariant readOffset >= size ==> Done(Turns(Start(a), size, t), size)
        decreases n - t
      {
        NextTurn(a, t);
        readOffset, writeOffset := CompactTurn(readOffset, writeOffset);
        t := t + 1;
        MovesOn(a, n, t);
      }
      FinalIs(a, t);
      DoneFits(Turns(Start(a), size, t), size);
      if writeOffset < size {
        WriteHeader(writeOffset, size - writeOffset);
      }
      dirty := true;
      if PacksInPlace(a) {
        cells := PackedMap(a);
        PackedIs(a, t);
      }
    }

    /** HiveCalculateCompactedSize: the packed cells and 4096 bytes of padding. */
    method CalculateCompactedSize() returns (n: nat)
      requires Valid()
      ensures n == 3728 + LiveBytes(cells) + 4096
    {
      hide Tiled, ReadI32, LiveBytes, LiveImage;
      ghost var a := View();
      n := HIVE_HEADER;
      var offset := HIVE_HEADER;
      ghost var k: nat := 0;
      WalkStart(a);
      NothingMoved(a);
      while offset < size
        invariant k <= |cells| && offset == StartOf(cells, k, size)
        invariant n == HIVE_HEADER + LiveBytes(cells[..k])
        decreases |cells| - k
      {
        WalkStep(a, k);
        NextToCopy(a, k);
        if ReadI32(base[..], offset) < 0 {
          n := n + Abs(ReadI32(base[..], offset));
        }
        offset := offset + Abs(ReadI32(base[..], offset));
        k := k + 1;
      }
      if k < |cells| { WalkStep(a, k); }
      assert cells[..k] == cells;
      n := n + COPY_PADDING;
    }

    /** HiveCopyCompacted: the first `copied` cells of the source, packed. All of them when they
        fit; but the destination is also left with only some of them, and the same status, when
        these fill it exactly. It ends with its last cell, without a free one. */
    method CopyCompacted(dest: Hive) returns (status: Status, ghost copied: nat)
      requires Valid() && dest != this && dest.base != base
      requires HIVE_HEADER <= dest.size <= dest.base.Length
      modifies dest`size, dest`cells, dest.base
      ensures dest.base == old(dest.base)
      ensures status == if HIVE_HEADER + LiveBytes(cells) <= old(dest.size) || FillsExactly(cells, old(dest.size))
                        then Success else BufferTooSmall
      ensures status != Success ==> dest.size == old(dest.size)
      ensures copied <= |cells|
      ensures status == Success ==> (copied == |cells| <==> HIVE_HEADER + LiveBytes(cells) <= old(dest.size))
      ensures status == Success ==>
                && dest.Valid()
                && dest.cells == Packed(cells[..copied], HIVE_HEADER)
                && dest.size == HIVE_HEADER + LiveBytes(cells[..copied])
                && InBuffer(base[..], cells[..copied])
                && HoldsPacked(dest.base[..], HIVE_HEADER, base[..], cells[..copied])
                && SizedHeader(dest.base[..], base[..], dest.size)
    {
      hide Tiled, ReadI32, LiveBytes, CopiedSoFar, Packed, HoldsPacked, InBuffer, Blit, CellBytes, Encode, Chain,
           Headers, LiveImage, FillsExactly, SizedHeader;
      ghost var a := View();
      TiledParts(a);
      CopyStart(dest.base[..], a);
      CopyIn(dest.base, 0, base[..HIVE_HEADER]);
      var sourceOffset, destOffset := HIVE_HEADER, HIVE_HEADER;
      copied := 0;
      WalkStart(a);
      while sourceOffset < size && destOffset < dest.size
        invariant View() == a && dest.base == old(dest.base) && dest.size == old(dest.size)
        invariant copied <= |a.cells| && sourceOffset == StartOf(a.cells, copied, size)
        invariant destOffset == HIVE_HEADER + LiveBytes(a.cells[..copied]) <= dest.size
        invariant CopiedSoFar(dest.base[..], a, copied)
        decreases |a.cells| - copied
      {
        WalkStep(a, copied);
        NextToCopy(a, copied);
        if ReadI32(base[..], sourceOffset) < 0 {
          var cellSize := Abs(ReadI32(base[..], sourceOffset));
          if destOffset + cellSize > dest.size {
            NeverExact(a, copied, dest.size);
            return BufferTooSmall, copied;
          }
          CopyLive(dest.base[..], a, copied);
          CopyIn(dest.base, destOffset, base[sourceOffset..sourceOffset + cellSize]);
          destOffset := destOffset + cellSize;
        } else {
          CopyFree(dest.base[..], a, copied);
        }
        sourceOffset := sourceOffset + Abs(ReadI32(base[..], sourceOffset));
        copied := copied + 1;
      }
      if copied < |a.cells| { WalkStep(a, copied); }
      copied := CopiedCells(dest.base[..], a, copied, destOffset, dest.size);
      dest.size := destOffset;
      CopyDone(dest.base[..], a, copied, HEADER_SIZE_FIELD, Encode(destOffset, 4));
      dest.cells := Packed(a.cells[..copied], HIVE_HEADER);
      CopyIn(dest.base, HEADER_SIZE_FIELD, Encode(destOffset, 4));
      TiledParts(dest.View());
      HeaderSized(dest.base[..], a.m, destOffset);
      return Success, copied;
    }

    /** HiveCreateCompactedCopy, once the new hive has its buffer: a hive of the computed size
        always suffices, and ends 4096 bytes below it. */
    method CreateCompactedCopy() returns (status: Status, dest: Hive)
      requires Valid() && 3728 + LiveBytes(cells) + 4096 < TWO_31
      ensures status == Success && fresh(dest) && fresh(dest.base) && dest.Valid()
      ensures dest.size == 3728 + LiveBytes(cells) && dest.base.Length == dest.size + 4096
      ensures ReadU32(dest.base[..], 68) == dest.size && base.Length >= 3728
      ensures forall k :: 0 <= k < 3728 && !(68 <= k < 72) ==> dest.base[..][k] == base[..][k]
      ensures NoAdjacentFree(dest.cells) && LiveList(dest.cells) == dest.cells
      ensures |dest.cells| == |LiveList(cells)|
      ensures forall j :: 0 <= j < |dest.cells| ==>
                && dest.cells[j].size == LiveList(cells)[j].size
                && dest.cells[j].End() <= dest.base.Length && LiveList(cells)[j].End() <= base.Length
                && CellBytes(dest.base[..], dest.cells[j]) == CellBytes(base[..], LiveList(cells)[j])
    {
      hide Tiled, LiveBytes, Packed, HoldsPacked, InBuffer, CellBytes, NoAdjacentFree, LiveList, Created, SizedHeader;
      var n := CalculateCompactedSize();
      CreatedSize(n);
      dest := new Hive(n);
      ghost var copied;
      status, copied := CopyCompacted(dest);
      assert cells[..copied] == cells;
      SizedMeans(dest.base[..], base[..], dest.size);
      PackedMatches(dest.base[..], HIVE_HEADER, base[..], cells);
      PackedCopyTiled(View(), dest.base[..]);
      PackedAllLive(cells, HIVE_HEADER);
    }

    // ----- Data access

    /** HiveBinGetData: where the payload of the cell at off starts, or 0 for NULL. */
    method GetData(off: nat, n: nat) returns (at: nat)
      requires Valid() && HeaderReadable(View(), off) && n < TWO_64
      ensures at == PayloadAt(base[..], size, off, n)
      ensures Addressable(View(), off) && n + CELL_HEADER < TWO_64 ==>
        var i := IndexAt(cells, off); at == if i < |cells| && CanHold(cells[i], n) then off + CELL_HEADER else 0
      ensures at == if 0 < off < size && ReadI32(base[..], off) < 0
                       && -ReadI32(base[..], off) >= (n + 8) % 0x1_0000_0000_0000_0000
                    then off + 8 else 0
      ensures n + 8 < TWO_64 ==> forall i :: 0 <= i < |cells| && cells[i].off == off ==>
        at == if cells[i].size < 0 && n + 8 <= -cells[i].size then off + 8 else 0
    {
      hide Tiled, ReadI32, IndexAt;
      PayloadOfCells(View(), off, n);
      if Addressable(View(), off) {
        PayloadOfCell(View(), off, n);
      }
      if off == 0 || off >= size {
        return 0;
      }
      var cellSize := ReadI32(base[..], off);
      if cellSize >= 0 || -cellSize < (n + CELL_HEADER) % TWO_64 {
        return 0;
      }
      return off + CELL_HEADER;
    }

    /** HiveBinWriteData, where the payload it finds lies inside the buffer. */
    method WriteData(off: nat, data: Image) returns (status: Status)
      requires Valid() && HeaderReadable(View(), off) && |data| < TWO_64
      requires PayloadAt(base[..], size, off, |data|) != 0 ==> off + 8 + |data| <= base.Length
      modifies this`dirty, base
      ensures base == old(base) && dirty == (old(dirty) || status == Success)
      ensures status == if off == 0 || data == [] then InvalidParameter
                        else if PayloadAt(old(base[..]), size, off, |data|) == 0 then InsufficientResources else Success
      ensures base[..] == if status == Success then Blit(old(base[..]), off + CELL_HEADER, data) else old(base[..])
      ensures Addressable(View(), off) && |data| + CELL_HEADER < TWO_64 ==>
        View() == Write(old(View()), off, data) && Valid()
      ensures forall i :: 0 <= i < |cells| && cells[i].off <= off + 4 && off + 8 + |data| <= cells[i].End() ==>
        Valid() && KeptExcept(old(View()), View(), {cells[i]})
      ensures |data| > 0 && |data| + 8 < TWO_64 ==> forall i :: 0 <= i < |cells| && cells[i].off == off ==>
        (status == Success <==> cells[i].size < 0 && |data| + 8 <= -cells[i].size)
      ensures status == Success ==> off + 8 + |data| <= base.Length && base[off + 8..off + 8 + |data|] == data
    {
      hide Tiled, ReadI32, IndexAt, Blit, KeptExcept, Write, PayloadAt, Live;
      ghost var a := View();
      PayloadOfCells(a, off, |data|);
      StartNotZero(a);
      SpannedKept(a, off + CELL_HEADER, data);
      if off == 0 || |data| == 0 {
        NothingWritten(a, off, data);
        return InvalidParameter;
      }
      var at := GetData(off, |data|);
      if at == 0 {
        NothingWritten(a, off, data);
        return InsufficientResources;
      }
      PayloadPlace(base[..], size, off, |data|);
      if Addressable(a, off) && |data| + CELL_HEADER < TWO_64 {
        WriteKeeps(a, off, data);
        WriteHere(a, off, data);
      }
      WrittenSlice(base[..], at, data);
      CopyIn(base, at, data);
      dirty := true;
      return Success;
    }

    /** HiveBinReadData, where the payload it finds lies inside the buffer. */
    method ReadData(off: nat, n: nat) returns (status: Status, data: Image)
      requires Valid() && HeaderReadable(View(), off) && n < TWO_64
      requires PayloadAt(base[..], size, off, n) != 0 ==> off + 8 + n <= base.Length
      ensures status == if off == 0 || n == 0 then InvalidParameter
                        else if PayloadAt(base[..], size, off, n) == 0 then NotFound else Success
      ensures status == Success ==>
        off + CELL_HEADER + n <= base.Length && data == base[off + CELL_HEADER..off + CELL_HEADER + n]
      ensures status != Success ==> data == []
      ensures Addressable(View(), off) && n + CELL_HEADER < TWO_64 ==>
        Read(View(), off, n) == if status == Success then Data(data) else NoData
      ensures n > 0 && n + 8 < TWO_64 ==> forall i :: 0 <= i < |cells| && cells[i].off == off ==>
        (status == Success <==> cells[i].size < 0 && n + 8 <= -cells[i].size)
      ensures status == Success ==> off + 8 + n <= base.Length && data == base[off + 8..off + 8 + n]
    {
      hide Tiled, ReadI32, IndexAt, PayloadAt;
      PayloadOfCells(View(), off, n);
      StartNotZero(View());
      if off == 0 || n == 0 {
        if off == 0 { OutOfRange(View(), off); }
        return InvalidParameter, [];
      }
      var at := GetData(off, n);
      if at == 0 {
        return NotFound, [];
      }
      PayloadPlace(base[..], size, off, n);
      return Success, base[at..at + n];
    }

    // ----- Cells

    /** HiveAllocateCell. */
    method AllocateCell(n: nat) returns (off: nat)
      requires Valid()
      modifies this`cells, this`dirty, base
      ensures base == old(base)
      ensures (View(), off) == Allocate(old(View()), if n == 0 then 0 else CellRequest(n))
      ensures Valid() <==> Covered(old(View()), if n == 0 then 0 else CellRequest(n))
    {
      hide Tiled, Allocate, Covered, CellRequest;
      if n == 0 {
        NoFit(View(), 0);
        AllocateTiled(View(), 0);
        return 0;
      }
      off := AllocateBlock(CellRequest(n));
    }

    /** HiveValidateCell, on any offset whose header can be read: it judges by the size there. */
    method ValidateCell(off: nat) returns (ok: bool)
      requires Valid() && HeaderReadable(View(), off)
      ensures Addressable(View(), off) ==> (ok <==> var i := IndexAt(cells, off); i < |cells| && cells[i].size < 0)
      ensures ok <==> 0 < off < size && var v := ReadI32(base[..], off); v <= -8 && off - v <= size
    {
      hide Tiled, ReadI32, IndexAt;
      if Addressable(View(), off) {
        ValidStart(View(), off);
      }
      if off == 0 || off >= size {
        return false;
      }
      var cellSize := ReadI32(base[..], off);
      return !(cellSize >= 0 || off + -cellSize > size || -cellSize < CELL_HEADER);
    }

    /** The payload copy of HiveResizeCell, then signature and flags. */
    method CarryOver(off: nat, to: nat, n: nat)
      requires off + CELL_HEADER + n <= base.Length && to + CELL_HEADER + n <= base.Length
      modifies base
      ensures View() == Moved(old(View()), off, to, n)
    {
      hide Blit;
      CopyIn(base, to + CELL_HEADER, base[off + CELL_HEADER..off + CELL_HEADER + n]);
      CopyIn(base, to + 4, base[off + 4..off + CELL_HEADER]);
    }

    /** HiveResizeCell. */
    method ResizeCell(off: nat, n: nat) returns (to: nat)
      requires Valid() && Addressable(View(), off) && Resizable(View(), n)
      modifies this`cells, this`dirty, base
      ensures base == old(base)
      ensures (View(), to) == Resize(old(View()), off, n) && Valid()
      ensures to == 0 ==> View() == old(View())
      ensures to != 0 <==>
        && n > 0 && (exists i :: 0 <= i < |old(cells)| && old(cells)[i].off == off && old(cells)[i].size < -8)
        && (exists i :: 0 <= i < |old(cells)| && old(cells)[i].size > 0 && old(cells)[i].size >= AlignUp8(n + 8))
      ensures to != 0 ==> forall i :: 0 <= i < |old(cells)| && old(cells)[i].off == off ==>
        && Live(cells) == Live(old(cells)) - {old(cells)[i]} + {Allocated(to, AlignUp8(n + 8))}
        && PrefixCarried(old(base[..]), old(cells)[i], base[..], to, n)
    {
      hide Tiled, ReadI32, IndexAt, Allocate, Free, CellRequest, Covered, Blit, Kept, Taken, KeptExcept, Live, Chain,
           Headers, NoAdjacentFree, AlignUp8, PrefixCarried;
      ghost var a := View();
      ghost var i := IndexAt(cells, off);
      ResizeInSizes(a, off, n);
      AddressableReadable(View(), off);
      var ok := ValidateCell(off);
      if !ok || n == 0 {
        return 0;
      }
      WalkStep(a, i);
      CellInside(a, i);
      var oldSize := -ReadI32(base[..], off) - CELL_HEADER;
      if oldSize == 0 {
        return 0;
      }
      AllocateOutcome(a, CellRequest(n));
      to := AllocateCell(n);
      if to == 0 {
        return 0;
      }
      BothCellsKeep(a, i, n);
      CellsForResize(a, i, n);
      var copySize := if oldSize < n then oldSize else n;
      CarryOver(off, to, copySize);
      assert View() == BothCells(a, i, n);
      OldStays(a, i, n);
      FreeBlock(off);
      dirty := true;
    }

    /** One memcpy or field store into cell i, which was not live in a0: the fields stored
        so far stay, and so does every live cell of a0. */
    method StoreField(at: nat, bytes: Image, ghost a0: Arena, ghost i: nat, ghost fs: seq<Field>)
      requires Valid() && i < |cells|
      requires cells[i].off + 4 <= at && at + |bytes| <= cells[i].End() <= base.Length
      requires KeptExcept(a0, View(), {}) && cells[i] !in Live(a0.cells)
      requires Holds(base[..], fs) && Clear(fs, at, |bytes|)
      modifies base
      ensures base[..] == Blit(old(base[..]), at, bytes)
      ensures Valid() && KeptExcept(a0, View(), {})
      ensures Holds(base[..], fs + [Field(at, bytes)])
    {
      hide Tiled, Blit, KeptExcept, Live, Holds, Clear;
      ghost var a := View();
      PatchKeeps(a, i, at, bytes);
      HoldsAfterBlit(base[..], fs, at, bytes);
      CopyIn(base, at, bytes);
      KeptTwice(a0, a, View(), {}, {cells[i]});
      assert {} + {cells[i]} == {cells[i]};
      assert {cells[i]} * Live(a0.cells) == {};
      KeptFewer(a0, View(), {cells[i]}, {});
    }

    /** The stores of HiveCreateValueCell that do not depend on the data. */
    method StoreRecord(off: nat, nameLength: nat, typ: nat, dataSize: nat, ghost a0: Arena, ghost i: nat)
      requires Valid() && i < |cells| && cells[i].off == off && NAME_AT <= cells[i].Len()
      requires KeptExcept(a0, View(), {}) && cells[i] !in Live(a0.cells)
      modifies base
      ensures Valid() && KeptExcept(a0, View(), {})
      ensures Holds(base[..], RecordFields(off, nameLength, typ, dataSize))
    {
      hide Tiled, Blit, KeptExcept, Live, Holds, HoldsField, Clear, Encode;
      CellInside(View(), i);
      ghost var fs := RecordFields(off, nameLength, typ, dataSize);
      RecordClear(off, nameLength, typ, dataSize, 0);
      NoFields(base[..]);
      StoreField(off + SIGNATURE_AT, Encode(VALUE_SIGNATURE, 2), a0, i, fs[..0]);
      assert fs[..0] + [fs[0]] == fs[..1];
      StoreField(off + FLAGS_AT, Encode(0, 2), a0, i, fs[..1]);
      assert fs[..1] + [fs[1]] == fs[..2];
      StoreField(off + NAME_LENGTH_AT, Encode(nameLength, 2), a0, i, fs[..2]);
      assert fs[..2] + [fs[2]] == fs[..3];
      StoreField(off + DATA_LENGTH_AT, Encode(dataSize, 4), a0, i, fs[..3]);
      assert fs[..3] + [fs[3]] == fs[..4];
      StoreField(off + TYPE_AT, Encode(typ, 4), a0, i, fs[..4]);
      assert fs[..4] + [fs[4]] == fs[..5];
      StoreField(off + VALUE_FLAGS_AT, Encode(0, 2), a0, i, fs[..5]);
      assert fs[..5] + [fs[5]] == fs[..6];
      StoreField(off + SPARE_AT, Encode(0, 2), a0, i, fs[..6]);
      assert fs[..6] + [fs[6]] == fs;
    }

    /** The data part of HiveCreateValueCell; false when the data cell cannot be had. */
    method StoreData(off: nat, data: Buffer, dataSize: nat, ghost a0: Arena, ghost v: Cell, ghost fs: seq<Field>)
      returns (ok: bool, ghost dataOff: nat)
      requires Canonical(View()) && v in Live(cells) && v !in Live(a0.cells)
      requires v.off == off && NAME_AT <= v.Len()
      requires data.Bytes? ==> |data.bytes| == dataSize
      requires dataSize < TWO_32
      requires NeedsDataCell(data, dataSize) ==> Covered(View(), CellRequest(dataSize))
      requires Live(cells) == Live(a0.cells) + {v} && KeptExcept(a0, View(), {})
      requires Within(fs, v) && Holds(base[..], fs) && Clear(fs, off + DATA_OFFSET_AT, 4)
      modifies this`cells, this`dirty, base
      ensures base == old(base) && Canonical(View()) && KeptExcept(a0, View(), {})
      ensures !ok <==> NeedsDataCell(data, dataSize) && Taken(old(View()), CellRequest(dataSize)) == |old(cells)|
      ensures !ok ==> View() == old(View())
      ensures ok ==>
                && Holds(base[..], fs + DataFields(off, data, dataSize, dataOff))
                && v in Live(cells)
                && (if NeedsDataCell(data, dataSize) then
                      && dataOff >= HIVE_HEADER
                      && DataExtent(dataOff, dataSize) !in Live(a0.cells) + {v}
                      && Live(cells) == Live(a0.cells) + {v} + {DataExtent(dataOff, dataSize)}
                      && DataExtent(dataOff, dataSize).End() < TWO_31
                      && (v.End() <= dataOff || dataOff + CellRequest(dataSize) <= off)
                    else dataOff == 0 && cells == old(cells))
    {
      hide Tiled, Blit, KeptExcept, Live, Holds, HoldsField, Encode, CellRequest, Taken, Allocate,
           NoAdjacentFree, Covered, Clear, Within, Apart;
      ghost var a1 := View();
      ghost var i := LiveIndex(cells, v);
      CellInside(a1, i);
      ok, dataOff := true, 0;
      if data.Bytes? && dataSize > 0 {
        if dataSize <= 4 {
          StoreField(off + DATA_OFFSET_AT, Encode(0, 4), a0, i, fs);
          HoldsPrefix(base[..], fs, Field(off + DATA_OFFSET_AT, Encode(0, 4)));
          ClearShorter(fs, off + DATA_OFFSET_AT, 4, dataSize);
          StoreField(off + DATA_OFFSET_AT, data.bytes, a0, i, fs);
        } else {
          AllocateOutcome(a1, CellRequest(dataSize));
          var dataCell := AllocateCell(dataSize);
          if dataCell == 0 {
            ok := false;
            return;
          }
          dataOff := dataCell;
          ghost var d := DataExtent(dataOff, dataSize);
          ghost var p, q;
          p, q := DataCellPlaced(a0, a1, v, dataSize, fs);
          StoreField(dataCell + CELL_HEADER, data.bytes, a0, q, fs);
          ghost var f := Field(dataOff + CELL_HEADER, data.bytes);
          ClearMore(fs, f, off + DATA_OFFSET_AT, 4);
          StoreField(off + DATA_OFFSET_AT, Encode(dataCell, 4), a0, p, fs + [f]);
          assert fs + DataFields(off, data, dataSize, dataOff)
              == fs + [f] + [Field(off + DATA_OFFSET_AT, Encode(dataOff, 4))];
        }
      } else {
        StoreField(off + DATA_OFFSET_AT, Encode(0, 4), a0, i, fs);
      }
    }

    /** HiveCreateValueCell. When it fails, also after the first of two allocations, the
        cell map is the one it found; when it succeeds the value is stored in extents of
        its own. Either way no cell that was live notices. */
    method CreateValueCell(name: Image, typ: nat, data: Buffer, dataSize: nat)
      returns (off: nat, ghost dataOff: nat)
      requires Canonical(View())
      requires typ < TWO_32 && dataSize < TWO_32 && (data.Bytes? ==> |data.bytes| == dataSize)
      requires Covered(View(), CellRequest(32 + |name|))
      requires data.Bytes? && dataSize > 4 && Allocate(View(), CellRequest(32 + |name|)).1 != 0 ==>
        Covered(Allocate(View(), CellRequest(32 + |name|)).0, CellRequest(dataSize))
      modifies this`cells, this`dirty, base
      ensures base == old(base) && Canonical(View()) && KeptExcept(old(View()), View(), {})
      ensures off == 0 ==> cells == old(cells)
      ensures off == 0 <==>
                || |name| > MAX_NAME
                || Taken(old(View()), CellRequest(VALUE_CELL + |name|)) == |old(cells)|
                || (NeedsDataCell(data, dataSize)
                    && var b := Allocate(old(View()), CellRequest(VALUE_CELL + |name|)).0;
                       Taken(b, CellRequest(dataSize)) == |b.cells|)
      ensures off != 0 ==>
                && StoresValue(View(), off, name, typ, data, dataSize, dataOff)
                && Live(cells) == old(Live(cells)) + ValueExtents(off, |name|, dataSize, dataOff)
                && ValueExtents(off, |name|, dataSize, dataOff) !! old(Live(cells))
                && off != dataOff && dataOff < TWO_31
      ensures off != 0 ==> |name| <= 255 && Allocated(off, AlignUp8(40 + |name|)) in Live(cells)
      ensures data.Null? || dataSize <= 4 ==>
        (off == 0 <==>
          || |name| > 255
          || forall i :: 0 <= i < |old(cells)| ==>
               old(cells)[i].size <= 0 || old(cells)[i].size < AlignUp8(40 + |name|))
    {
      hide Tiled, Blit, KeptExcept, Live, Holds, HoldsField, Encode, CellRequest, Taken, Allocate,
           NoAdjacentFree, Covered, RecordFields, DataFields, Clear, Within, Apart;
      ghost var a0 := View();
      ghost var need := CellRequest(VALUE_CELL + |name|);
      off, dataOff := 0, 0;
      KeptAsIs(a0);
      if |name| > MAX_NAME {
        return;
      }
      RecordRequest(a0, |name|);
      AllocateOutcome(a0, need);
      off := AllocateCell(VALUE_CELL + |name|);
      if off == 0 {
        return;
      }
      AllocateKeeps(a0, need);
      ghost var b, v := View(), Allocated(off, need);
      ghost var i := LiveIndex(cells, v);
      CellInside(b, i);
      StoreRecord(off, |name|, typ, dataSize, a0, i);
      ghost var fs := RecordFields(off, |name|, typ, dataSize);
      RecordClear(off, |name|, typ, dataSize, |name|);
      RecordWithin(off, |name|, typ, dataSize, v);
      CoveredByCells(b, View(), CellRequest(dataSize));
      var ok;
      ok, dataOff := StoreData(off, data, dataSize, a0, v, fs);
      if !ok {
        GiveBack(a0, View(), i);
        IndexAtCell(View(), i);
        FreeKeeps(View(), i);
        FreeBlock(off);
        off := 0;
        return;
      }
      i := LiveIndex(cells, v);
      NameClear(off, |name|, typ, data, dataSize, dataOff, v);
      StoreField(off + NAME_AT, name, a0, i, fs + DataFields(off, data, dataSize, dataOff));
      dirty := true;
    }

    /** HiveDeleteCell. */
    method DeleteCell(off: nat) returns (status: Status)
      requires Valid() && Addressable(View(), off)
      requires LiveAtOffset(View(), off) ==> Deletable(View(), off) && DataCellOf(base[..], off) != off
      modifies this`cells, this`dirty, base
      ensures base == old(base) && Valid()
      ensures status == Success <==> old(LiveAtOffset(View(), off))
      ensures View() == if status == Success then Delete(old(View()), off) else old(View())
    {
      hide Tiled, IndexAt, Free, ReadU16, ReadU32;
      ghost var a := View();
      AddressableReadable(View(), off);
      var ok := ValidateCell(off);
      if !ok {
        return InvalidParameter;
      }
      if ReadU16(base[..], off + SIGNATURE_AT) == VALUE_SIGNATURE {
        if ReadU32(base[..], off + DATA_LENGTH_AT) > 4 && ReadU32(base[..], off + DATA_OFFSET_AT) != 0 {
          FreeTiled(a, DataCellOf(a.m, off));
          StillLive(a, DataCellOf(a.m, off), off);
          FreeBlock(ReadU32(base[..], off + DATA_OFFSET_AT));
        }
      }
      FreeBlock(off);
      dirty := true;
      return Success;
    }

    // ----- Statistics

    /** HiveGetFreeSpaceStatistics. */
    method FreeSpaceStatistics() returns (freeBlocks: nat, totalFree: nat, largest: nat)
      requires Valid()
      ensures freeBlocks == FreeCount(cells) && totalFree == FreeBytes(cells) && largest == LargestFree(cells)
      ensures freeBlocks == |set i | 0 <= i < |cells| && cells[i].size > 0|
      ensures totalFree + LiveBytes(cells) == size - 3728
      ensures forall i :: 0 <= i < |cells| ==> cells[i].size <= largest
      ensures largest == 0 || exists i :: 0 <= i < |cells| && cells[i].size == largest
    {
      hide Tiled, ReadI32, FreeBytes, FreeCount, LargestFree, LiveBytes;
      ghost var a := View();
      FreeSpaceMeans(a);
      var offset := HIVE_HEADER;
      ghost var k: nat := 0;
      WalkStart(a);
      NoFreeSpace();
      freeBlocks, totalFree, largest := 0, 0, 0;
      while offset < size
        invariant k <= |cells| && offset == StartOf(cells, k, size)
        invariant freeBlocks == FreeCount(cells[..k]) && totalFree == FreeBytes(cells[..k])
        invariant largest == LargestFree(cells[..k])
        decreases |cells| - k
      {
        WalkStep(a, k);
        FreeSpaceStep(cells, k);
        var cellSize := ReadI32(base[..], offset);
        if cellSize > 0 {
          freeBlocks := freeBlocks + 1;
          totalFree := totalFree + cellSize;
          if cellSize > largest {
            largest := cellSize;
          }
        }
        offset := offset + Abs(cellSize);
        k := k + 1;
      }
      if k < |cells| { WalkStep(a, k); }
      assert cells[..k] == cells;
    }

    /** HiveGetFragmentationLevel, in UINT32 arithmetic. */
    method FragmentationLevel() returns (score: int)
      requires Valid()
      ensures 0 <= score <= 100
      ensures score == Fragmentation(FreeCount(cells), FreeBytes(cells), LargestFree(cells))
      ensures FreeBytes(cells) == 0 ==> score == 0
    {
      hide FreeCount, FreeBytes, LargestFree, Tiled, Over, Times100;
      var freeBlocks, totalFree, largest := FreeSpaceStatistics();
      FreeSpaceBounds(View());
      if totalFree == 0 {
        return 0;
      }
      ScoreBounds(freeBlocks, totalFree, largest);
      var blockScore := Over(Times100(freeBlocks), totalFree / 1024 + 1);
      var largestRatio := Over(Times100(largest), totalFree);
      var sum := (blockScore + (100 - largestRatio) % TWO_32) % TWO_32;
      return if sum > 100 then 100 else sum;
    }
  }
}
