/** The slack case of first-fit allocation. The allocator writes a cell of exactly the
    rounded size even when the free cell it took is up to one header larger and is not
    split, so the bytes in between belong to no cell any more. */
module HiveSlack {
  import opened ByteMemory
  import opened CellMap
  import opened HiveArena
  import opened HiveBlank
  import opened HiveRuns

  /** Headers read from memory determine the walk: any chain over the same bytes starts
      with the cells already known. */
  lemma {:induction false} WalkPrefix(m: Image, cs: seq<Cell>, p: seq<Cell>, lo: int, mid: int, hi: int)
    requires Chain(cs, lo, hi) && Headers(m, cs)
    requires Chain(p, lo, mid) && Headers(m, p) && mid <= hi
    ensures |p| <= |cs| && cs[..|p|] == p
    decreases |p|
  {
    hide ReadI32;
    if p != [] {
      ChainOrdered(p, lo, mid);
      assert cs != [];
      assert cs[0] == p[0];
      ChainTail(cs, lo, hi);
      ChainTail(p, lo, mid);
      HeadersTail(m, cs);
      HeadersTail(m, p);
      WalkPrefix(m, cs[1..], p[1..], p[0].End(), mid, hi);
      assert cs == [cs[0]] + cs[1..] && p == [p[0]] + p[1..];
    }
  }

  lemma HeadersTail(m: Image, cs: seq<Cell>)
    requires Headers(m, cs) && cs != []
    ensures Headers(m, cs[1..])
  {
  }

  lemma HeadersAppend(m: Image, a: seq<Cell>, b: seq<Cell>)
    requires Headers(m, a) && Headers(m, b)
    ensures Headers(m, a + b)
  {
    hide ReadI32;
    forall i | 0 <= i < |a + b|
      ensures (a + b)[i].off + CELL_HEADER <= |m| && ReadI32(m, (a + b)[i].off) == (a + b)[i].size
    {
      if i < |a| { assert (a + b)[i] == a[i]; } else { assert (a + b)[i] == b[i - |a|]; }
    }
  }

  /** An allocation that takes a cell without covering it. */
  ghost predicate LeavesSlack(a: Arena, n: nat) {
    Taken(a, n) < |a.cells| && AlignUp8(n) > 0 && !Covered(a, n)
  }

  /** The offset of the first byte behind the new cell. */
  function SlackStart(a: Arena, n: nat): nat
    requires Taken(a, n) < |a.cells|
  {
    a.cells[Taken(a, n)].off + AlignUp8(n)
  }

  /** After a slack allocation the cells up to and including the new one are still found. */
  lemma KnownPrefix(a: Arena, n: nat)
    requires Tiled(a) && LeavesSlack(a, n)
    ensures var i := Taken(a, n);
      var p := a.cells[..i] + [Allocated(a.cells[i].off, AlignUp8(n))];
      && Chain(p, HIVE_HEADER, SlackStart(a, n)) && Headers(Allocate(a, n).0.m, p)
      && SlackStart(a, n) <= a.hi
      && HIVE_HEADER <= a.hi <= |Allocate(a, n).0.m| && a.hi < TWO_31
  {
    hide ReadI32, PlaceImage, SameOutside, Chain, AlignUp8;
    var i, need := Taken(a, n), AlignUp8(n);
    var c := a.cells[i];
    CellInside(a, i);
    PlaceBytes(a.m, c, need);
    var m := PlaceImage(a.m, c, need);
    ChainSplit(a.cells, i, HIVE_HEADER, a.hi);
    OneCellChain(Allocated(c.off, need));
    ChainAppend(a.cells[..i], [Allocated(c.off, need)], HIVE_HEADER, c.off, c.off + need);
    StretchKept(a, m, i, i + 1);
    HeadersAppend(m, a.cells[..i], [Allocated(c.off, need)]);
  }

  /** Some cell map, whichever, tiles the arena after the allocation. */
  ghost predicate TilesAfter(a: Arena, n: nat)
    requires Tiled(a)
  {
    exists cs :: Tiled(Arena(Allocate(a, n).0.m, cs, a.hi))
  }

  /** Headers read one after the other from offset at on lead exactly to hi. */
  predicate WalksTo(m: Image, at: nat, hi: nat)
    requires hi <= |m|
    decreases hi - at
  {
    at == hi || (at + CELL_HEADER <= hi && Walkable(m, at, hi) && WalksTo(m, at + Abs(ReadI32(m, at)), hi))
  }

  predicate Walkable(m: Image, at: nat, hi: nat)
    requires at + CELL_HEADER <= hi <= |m|
  {
    CELL_HEADER <= Abs(ReadI32(m, at)) && at + Abs(ReadI32(m, at)) <= hi
  }

  lemma {:induction false} WalkHasCells(m: Image, at: nat, hi: nat) returns (cs: seq<Cell>)
    requires hi <= |m| && WalksTo(m, at, hi)
    ensures Chain(cs, at, hi) && Headers(m, cs)
    decreases hi - at
  {
    hide ReadI32;
    if at == hi {
      cs := [];
    } else {
      var c := Cell(at, ReadI32(m, at));
      var tail := WalkHasCells(m, c.End(), hi);
      OneCellChain(c);
      cs := [c] + tail;
      ChainAppend([c], tail, at, c.End(), hi);
      HeadersAppend(m, [c], tail);
    }
  }

  lemma {:induction false} CellsMakeWalk(m: Image, cs: seq<Cell>, at: nat, hi: nat)
    requires hi <= |m| && Chain(cs, at, hi) && Headers(m, cs)
    ensures WalksTo(m, at, hi)
    decreases |cs|
  {
    hide ReadI32;
    if cs != [] {
      ChainOrdered(cs, at, hi);
      ChainTail(cs, at, hi);
      CellsMakeWalk(m, cs[1..], cs[0].End(), hi);
    }
  }

  /** A walk sees only the bytes it starts before. */
  lemma {:induction false} SameWalk(m: Image, r: Image, lo: int, end: int, at: nat, hi: nat)
    requires SameOutside(m, r, lo, end) && end <= at && hi <= |m|
    ensures WalksTo(r, at, hi) == WalksTo(m, at, hi)
    decreases hi - at
  {
    hide ReadI32, SameOutside;
    assert |r| == |m| by { SameLength(m, r, lo, end); }
    if at != hi && at + CELL_HEADER <= hi {
      ReadOutside(m, r, lo, end, at);
      if Walkable(m, at, hi) {
        SameWalk(m, r, lo, end, at + Abs(ReadI32(m, at)), hi);
      }
    }
  }

  lemma SameLength(m: Image, r: Image, lo: int, hi: int)
    requires SameOutside(m, r, lo, hi)
    ensures |r| == |m|
  {
  }

  /** A slack allocation writes the new cell's header and nothing behind it. */
  lemma SlackWrites(a: Arena, n: nat)
    requires Tiled(a) && LeavesSlack(a, n)
    ensures SameOutside(a.m, Allocate(a, n).0.m, SlackStart(a, n) - AlignUp8(n), SlackStart(a, n))
    ensures HIVE_HEADER < SlackStart(a, n) < a.cells[Taken(a, n)].End() <= a.hi <= |a.m|
    ensures a.cells[Taken(a, n)].End() <= SlackStart(a, n) + CELL_HEADER
    ensures AlignUp8(n) >= CELL_HEADER
  {
    hide ReadI32, PlaceImage, SameOutside, AlignUp8;
    var c := a.cells[Taken(a, n)];
    CellInside(a, Taken(a, n));
    PlaceBytes(a.m, c, AlignUp8(n));
    SameMeansOutside(Allocate(a, n).0.m, c.off, c.off + AlignUp8(n));
    OutsideTwice(a.m, Allocate(a, n).0.m, Allocate(a, n).0.m, c.off, c.off + CELL_HEADER,
                 c.off, c.off + AlignUp8(n), c.off, c.off + AlignUp8(n));
  }

  /** After a slack allocation the arena is tiled by some cell map exactly when the bytes the
      allocator leaves over, as they stand before the call, happen to read as headers that
      lead to the end of the hive. */
  lemma SlackTilesByChance(a: Arena, n: nat)
    requires Tiled(a) && LeavesSlack(a, n)
    ensures a.hi <= |a.m|
    ensures TilesAfter(a, n) <==> WalksTo(a.m, SlackStart(a, n), a.hi)
  {
    hide Chain, Headers, Allocate, AlignUp8, Taken, Covered, WalksTo, SameOutside;
    KnownPrefix(a, n);
    SlackWrites(a, n);
    var i := Taken(a, n);
    var m := Allocate(a, n).0.m;
    SameWalk(a.m, m, SlackStart(a, n) - AlignUp8(n), SlackStart(a, n), SlackStart(a, n), a.hi);
    var p := a.cells[..i] + [Allocated(a.cells[i].off, AlignUp8(n))];
    if cs :| Tiled(Arena(m, cs, a.hi)) {
      WalkPrefix(m, cs, p, HIVE_HEADER, SlackStart(a, n), a.hi);
      RestOfWalk(m, cs, p, SlackStart(a, n), a.hi);
      CellsMakeWalk(m, cs[|p|..], SlackStart(a, n), a.hi);
    }
    if WalksTo(m, SlackStart(a, n), a.hi) {
      var tail := WalkHasCells(m, SlackStart(a, n), a.hi);
      ChainAppend(p, tail, HIVE_HEADER, SlackStart(a, n), a.hi);
      HeadersAppend(m, p, tail);
      assert Tiled(Arena(m, p + tail, a.hi));
    }
  }

  lemma RestOfWalk(m: Image, cs: seq<Cell>, p: seq<Cell>, mid: int, hi: int)
    requires Chain(cs, HIVE_HEADER, hi) && Headers(m, cs) && p <= cs && p != []
    requires Chain(p, HIVE_HEADER, mid)
    ensures Chain(cs[|p|..], mid, hi) && Headers(m, cs[|p|..])
  {
    hide ReadI32;
    ChainSplit(cs, |p|, HIVE_HEADER, hi);
    assert cs[..|p|] == p;
    ChainNext(cs, |p| - 1, HIVE_HEADER, hi);
  }

  /** A request that wraps SIZE_T to zero bytes leaves a header that reads zero, over
      which no walk gets; no cell map tiles the arena afterwards. */
  lemma WrappedRequestNeverTiles(a: Arena, n: nat, cs: seq<Cell>)
    requires Tiled(a) && Taken(a, n) < |a.cells| && AlignUp8(n) == 0
    ensures !Tiled(Arena(Allocate(a, n).0.m, cs, a.hi))
  {
    hide ReadI32, PlaceImage, SameOutside, AlignUp8, Chain, Place;
    var i := Taken(a, n);
    var c := a.cells[i];
    CellInside(a, i);
    PlaceBytes(a.m, c, 0);
    var m := PlaceImage(a.m, c, 0);
    if Tiled(Arena(m, cs, a.hi)) {
      ChainSplit(a.cells, i, HIVE_HEADER, a.hi);
      StretchKept(a, m, i, i + 1);
      WalkPrefix(m, cs, a.cells[..i], HIVE_HEADER, c.off, a.hi);
      HeaderAfter(m, cs, a.cells[..i], c.off, a.hi);
    }
  }

  lemma HeaderAfter(m: Image, cs: seq<Cell>, p: seq<Cell>, mid: int, hi: int)
    requires Chain(cs, HIVE_HEADER, hi) && Headers(m, cs) && p <= cs
    requires Chain(p, HIVE_HEADER, mid) && mid < hi
    ensures |p| < |cs| && cs[|p|].off == mid && Abs(ReadI32(m, mid)) >= CELL_HEADER
  {
    hide ReadI32;
    assert cs[..|p|] == p;
    if p == [] {
      assert cs != [];
    } else {
      ChainNext(cs, |p| - 1, HIVE_HEADER, hi);
      assert p[|p| - 1] == cs[|p| - 1];
    }
  }

  // ----- Which cell maps an allocation keeps tiled

  /** Slack in front of a live cell is one whole header; only the last cell can leave less. */
  lemma SlackWidth(a: Arena, n: nat)
    requires Canonical(a) && AlignedLive(a.cells) && LeavesSlack(a, n)
    ensures var c := a.cells[Taken(a, n)];
      c.End() == SlackStart(a, n) + CELL_HEADER || (c.End() == a.hi && a.hi < SlackStart(a, n) + CELL_HEADER)
  {
    hide Headers, Allocate, AlignUp8;
    var i := Taken(a, n);
    SlackWrites(a, n);
    FreeStartAligned(a, i);
    ChainNext(a.cells, i, HIVE_HEADER, a.hi);
    if i + 1 < |a.cells| {
      assert a.cells[i + 1].size < 0;
      assert a.cells[i + 1].off % 8 == 0;
      assert (a.cells[i].End() - SlackStart(a, n)) % 8 == 0;
    }
  }

  /** With zeros behind the headers nothing leads on from the slack. */
  lemma BlankSlackStops(a: Arena, n: nat)
    requires Canonical(a) && AlignedLive(a.cells) && LeavesSlack(a, n)
    requires forall i :: 0 <= i < |a.cells| ==> a.cells[i].off + CELL_HEADER <= a.hi
    requires a.m == Blank(a.cells, a.hi)
    ensures a.hi <= |a.m| && !WalksTo(a.m, SlackStart(a, n), a.hi)
  {
    hide ReadI32, Allocate, AlignUp8, Headers, Chain, Blank, SameOutside, Taken, NoAdjacentFree;
    var at, i := SlackStart(a, n), Taken(a, n);
    SlackWrites(a, n);
    SlackWidth(a, n);
    TiledParts(a);
    BlankIsTiled(a.cells, HIVE_HEADER, a.hi);
    if a.cells[i].End() == at + CELL_HEADER {
      forall p | at <= p < at + 4
        ensures a.m[p] == 0
      {
        InsideCell(a.cells, i, p, HIVE_HEADER, a.hi);
      }
      ZerosRead(a.m, at);
    }
  }

  /** Whatever the payloads, an allocation leaves an arena that some cell map tiles, if and
      only if it stays clear of the slack case. */
  lemma AllocationExactly(a: Arena, n: nat)
    requires Canonical(a) && AlignedLive(a.cells)
    ensures (forall m :: Tiled(a.(m := m)) ==> TilesAfter(a.(m := m), n)) <==> Covered(a, n)
  {
    hide Chain, Headers, Allocate, AlignUp8, Taken, NoAdjacentFree, Blank, WalksTo;
    if Covered(a, n) {
      forall m | Tiled(a.(m := m))
        ensures TilesAfter(a.(m := m), n)
      {
        CoveredTiles(a, a.(m := m), n);
      }
    } else {
      TiledParts(a);
      ChainFits(a.cells, HIVE_HEADER, a.hi);
      BlankIsTiled(a.cells, HIVE_HEADER, a.hi);
      var b := a.(m := Blank(a.cells, a.hi));
      SameRequest(a, b, n);
      if AlignUp8(n) == 0 {
        forall cs
          ensures !Tiled(Arena(Allocate(b, n).0.m, cs, b.hi))
        {
          WrappedRequestNeverTiles(b, n, cs);
        }
      } else {
        BlankSlackStops(b, n);
        SlackTilesByChance(b, n);
      }
      assert !TilesAfter(a.(m := b.m), n);
    }
  }

  lemma SameRequest(a: Arena, b: Arena, n: nat)
    requires a.cells == b.cells
    ensures Taken(a, n) == Taken(b, n) && (Covered(a, n) <==> Covered(b, n))
  {
  }

  lemma CoveredTiles(a: Arena, b: Arena, n: nat)
    requires Tiled(b) && a.cells == b.cells && Covered(a, n)
    ensures TilesAfter(b, n)
  {
    hide Tiled, Allocate, Taken, Covered;
    SameRequest(a, b, n);
    AllocateTiled(b, n);
    AllocateSize(b, n);
    assert Allocate(b, n).0 == Arena(Allocate(b, n).0.m, Allocate(b, n).0.cells, b.hi);
  }

  lemma AllocateSize(a: Arena, n: nat)
    requires Tiled(a)
    ensures Allocate(a, n).0.hi == a.hi
  {
  }

  /** The same in every hive a run can reach. */
  lemma ReachedAllocation(hi: nat, ops: seq<Op>, n: nat)
    requires HIVE_HEADER + CELL_HEADER <= hi < TWO_31
    requires Tiled(Created(hi)) && LegalRun(Created(hi), ops)
    ensures var r := Run(Created(hi), ops);
      (forall m :: Tiled(r.(m := m)) ==> TilesAfter(r.(m := m), n)) <==> Covered(r, n)
  {
    hide Tiled, LegalRun, Run, NoAdjacentFree, AlignedLive, Covered, TilesAfter, Created;
    ReachedAligned(hi, ops);
    AllocationExactly(Run(Created(hi), ops), n);
  }

  /** A hive in which it fails: a new one whose free cell is one header larger than the rounded
      request is not tiled by any cell map after the allocation. */
  lemma FreshHiveSlack(hi: nat, n: nat)
    requires n > 0 && AlignUp8(n) > 0 && hi < TWO_31
    requires hi == HIVE_HEADER + AlignUp8(n) + CELL_HEADER
    requires Tiled(Created(hi))
    ensures LeavesSlack(Created(hi), n) && !TilesAfter(Created(hi), n)
  {
    hide ReadI32, Chain, AlignUp8, Headers, FitIndex, Allocate, SameOutside, Tiled, PutHeader;
    var a, need := Created(hi), AlignUp8(n);
    assert Fits(a.cells[0], need);
    assert Taken(a, n) == 0;
    CreatedZero(hi, HIVE_HEADER + need);
    SlackTilesByChance(a, n);
  }

  lemma CreatedZero(hi: nat, at: nat)
    requires HIVE_HEADER + CELL_HEADER <= at && at + 4 <= hi < TWO_31
    ensures ReadI32(Created(hi).m, at) == 0
  {
    hide ReadI32, EncodeI32;
    BlitAt(seq(hi, _ => 0), HIVE_HEADER, EncodeI32(hi - HIVE_HEADER) + [0, 0, 0, 0]);
    ZerosRead(Created(hi).m, at);
  }
}
