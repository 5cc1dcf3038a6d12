/** The loop of in-place compaction as it runs, re-reading headers that its own moves may have
    overwritten: when it ends, when it packs, and for which cell maps it always does. */
module HiveWalk {
  import opened ByteMemory
  import opened CellMap
  import opened HiveArena
  import opened HiveBlank
  import opened HiveCompaction
  import opened HiveRuns

  /** The buffer, ReadOffset and WriteOffset. */
  datatype Walk = Walk(m: Image, read: nat, write: nat)

  /** One turn of the loop; it stands still at the end, and where it would leave the buffer. */
  function Turn(w: Walk, size: nat): (r: Walk)
    ensures |r.m| == |w.m|
  {
    if w.read >= size || w.read + 4 > |w.m| then w
    else
      var v := ReadI32(w.m, w.read);
      if v >= 0 then Walk(w.m, w.read + v, w.write)
      else if w.read - v > |w.m| || w.write - v > |w.m| then w
      else
        var m := if w.read != w.write then Blit(w.m, w.write, w.m[w.read..w.read - v]) else w.m;
        Walk(m, w.read + Abs(ReadI32(m, w.read)), w.write - v)
  }

  function Turns(w: Walk, size: nat, n: nat): (r: Walk)
    ensures |r.m| == |w.m|
  {
    if n == 0 then w else Turn(Turns(w, size, n - 1), size)
  }

  function Start(a: Arena): Walk {
    Walk(a.m, HIVE_HEADER, HIVE_HEADER)
  }

  /** The loop has read up to the end of the hive, and the last header fits the buffer. */
  predicate Done(w: Walk, size: nat) {
    w.read >= size && (w.write < size ==> w.write + CELL_HEADER <= |w.m|)
  }

  ghost predicate Ends(a: Arena) {
    exists n: nat :: Done(Turns(Start(a), a.hi, n), a.hi)
  }

  lemma {:induction false} DoneStays(w: Walk, size: nat, n: nat, k: nat)
    requires Done(Turns(w, size, n), size) && k >= n
    ensures Turns(w, size, k) == Turns(w, size, n)
    decreases k
  {
    hide ReadI32, Blit;
    if k > n {
      DoneStays(w, size, n, k - 1);
    }
  }

  lemma EndIsOne(w: Walk, size: nat, n: nat, k: nat)
    requires Done(Turns(w, size, n), size) && Done(Turns(w, size, k), size)
    ensures Turns(w, size, n) == Turns(w, size, k)
  {
    if n <= k {
      DoneStays(w, size, n, k);
    } else {
      DoneStays(w, size, k, n);
    }
  }

  /** The buffer after the loop and the free header that follows it. */
  function Finished(w: Walk, size: nat): (m: Image)
    requires Done(w, size)
  {
    if w.write < size then PutHeader(w.m, w.write, size - w.write) else w.m
  }

  /** The packed cell map of an arena. */
  function PackedMap(a: Arena): seq<Cell> {
    var w := HIVE_HEADER + LiveBytes(a.cells);
    Packed(a.cells, HIVE_HEADER) + (if w < a.hi then [Cell(w, a.hi - w)] else [])
  }

  /** The loop ends, and leaves the packed arena. */
  ghost predicate PacksInPlace(a: Arena)
    requires Tiled(a)
  {
    exists n: nat ::
      && Done(Turns(Start(a), a.hi, n), a.hi)
      && Compacted(a, Arena(Finished(Turns(Start(a), a.hi, n), a.hi), PackedMap(a), a.hi))
      && Tiled(Arena(Finished(Turns(Start(a), a.hi, n), a.hi), PackedMap(a), a.hi))
  }

  /** The state the loop ends in. */
  ghost function FinalWalk(a: Arena): (w: Walk)
    requires Ends(a)
    ensures Done(w, a.hi)
  {
    var n: nat :| Done(Turns(Start(a), a.hi, n), a.hi);
    Turns(Start(a), a.hi, n)
  }

  lemma FinalIs(a: Arena, n: nat)
    requires Done(Turns(Start(a), a.hi, n), a.hi)
    ensures Ends(a) && FinalWalk(a) == Turns(Start(a), a.hi, n)
  {
    hide Turns, Done;
    assert Ends(a);
    var k: nat :| Done(Turns(Start(a), a.hi, k), a.hi) && FinalWalk(a) == Turns(Start(a), a.hi, k);
    EndIsOne(Start(a), a.hi, n, k);
  }

  lemma {:induction false} StandsStill(w: Walk, size: nat, n: nat, k: nat)
    requires k >= n && Turn(Turns(w, size, n), size) == Turns(w, size, n)
    ensures Turns(w, size, k) == Turns(w, size, n)
    decreases k
  {
    hide Turn;
    if k > n {
      StandsStill(w, size, n, k - 1);
    }
  }

  /** A loop that ends after n turns moves on in each turn before, and needs no more. */
  lemma MovesOn(a: Arena, n: nat, t: nat)
    requires Done(Turns(Start(a), a.hi, n), a.hi)
    ensures var w := Turns(Start(a), a.hi, t);
      if w.read >= a.hi then Done(w, a.hi) else t < n && Turn(w, a.hi) != w
  {
    hide ReadI32, Blit;
    var w := Turns(Start(a), a.hi, t);
    if t >= n {
      DoneStays(Start(a), a.hi, n, t);
    } else if Turn(w, a.hi) == w {
      StandsStill(Start(a), a.hi, t, n);
    }
  }

  lemma TurnsNeeded(a: Arena) returns (n: nat)
    requires Ends(a)
    ensures Done(Turns(Start(a), a.hi, n), a.hi)
  {
    n :| Done(Turns(Start(a), a.hi, n), a.hi);
  }

  lemma StartOfTurns(a: Arena)
    ensures Turns(Start(a), a.hi, 0) == Start(a)
  {
  }

  /** One turn taken apart, when it moves on. */
  lemma NextTurn(a: Arena, t: nat)
    ensures var w := Turns(Start(a), a.hi, t);
      Turns(Start(a), a.hi, t + 1) == Turn(w, a.hi)
  {
    hide Turn;
  }

  lemma DoneFits(w: Walk, size: nat)
    requires Done(w, size)
    ensures w.read >= size && (w.write < size ==> w.write + CELL_HEADER <= |w.m|)
  {
  }

  /** The packed arena is where the loop ends, however many turns are counted. */
  lemma PackedIs(a: Arena, t: nat)
    requires Tiled(a) && PacksInPlace(a) && Done(Turns(Start(a), a.hi, t), a.hi)
    ensures var b := Arena(Finished(Turns(Start(a), a.hi, t), a.hi), PackedMap(a), a.hi);
      Compacted(a, b) && Canonical(b)
  {
    hide Tiled, Turns, Done, Compacted, Finished, NoAdjacentFree;
    var n: nat :|
      && Done(Turns(Start(a), a.hi, n), a.hi)
      && Compacted(a, Arena(Finished(Turns(Start(a), a.hi, n), a.hi), PackedMap(a), a.hi))
      && Tiled(Arena(Finished(Turns(Start(a), a.hi, n), a.hi), PackedMap(a), a.hi));
    EndIsOne(Start(a), a.hi, n, t);
    CompactedCoalesced(a, Arena(Finished(Turns(Start(a), a.hi, t), a.hi), PackedMap(a), a.hi));
  }

  // ----- Safe moves pack

  /** After k cells whose moves were safe, the walk stands before cell k with the first k packed. */
  lemma {:induction false} SafeTurns(a: Arena, k: nat)
    requires Tiled(a) && k <= |a.cells|
    requires forall j :: 0 <= j < k && a.cells[j].size < 0 && Gap(a.cells, j) > 0 ==> SafeAt(a, j)
    ensures var w := Turns(Start(a), a.hi, k);
      && w.read == StartOf(a.cells, k, a.hi)
      && w.write == HIVE_HEADER + LiveBytes(a.cells[..k])
      && MovedDown(w.m, a, k)
  {
    hide Tiled, LiveBytes, MovedDown, ReadI32, Blit, Gap, SafeAt;
    if k == 0 {
      WalkStart(a);
      NothingMoved(a);
    } else {
      SafeTurns(a, k - 1);
      var w := Turns(Start(a), a.hi, k - 1);
      WalkStep(a, k - 1);
      NextToMove(w.m, a, k - 1);
      if a.cells[k - 1].size < 0 {
        MoveLive(w.m, a, k - 1);
      } else {
        SkipFree(w.m, a, k - 1);
      }
    }
  }

  /** When every re-read is right, the loop ends and packs. */
  lemma SafePacks(a: Arena)
    requires Tiled(a) && CompactSafe(a)
    ensures PacksInPlace(a)
  {
    hide Tiled, LiveBytes, MovedDown, ReadI32, Blit, Gap, SafeAt, Compacted, Turns, Packed, PutHeader;
    var n := |a.cells|;
    SafeTurns(a, n);
    FinishCompact(a, Turns(Start(a), a.hi, n).m);
    TiledParts(a);
    CompactedTiled(a, Arena(Finished(Turns(Start(a), a.hi, n), a.hi), PackedMap(a), a.hi));
  }

  // ----- A cell too large for its gap

  /** Each live cell that moves is no larger than the gap it moves across. */
  predicate FitsGaps(cs: seq<Cell>) {
    forall k :: 0 <= k < |cs| ==> FitsGap(cs, k)
  }

  predicate FitsGap(cs: seq<Cell>, k: nat)
    requires k < |cs|
  {
    cs[k].size < 0 && Gap(cs, k) > 0 ==> cs[k].Len() <= Gap(cs, k)
  }

  lemma GapAligned(a: Arena, k: nat)
    requires Tiled(a) && k < |a.cells| && AlignedLive(a.cells) && a.cells[k].size < 0
    ensures Gap(a.cells, k) % 8 == 0
  {
    hide Tiled, Gap, LiveBytes;
    GapIsDistance(a, k);
    assert forall i :: 0 <= i < k ==> a.cells[..k][i] == a.cells[i];
    LiveBytesAligned(a.cells[..k]);
  }

  /** In a blank buffer the dword a gap's length into a too large cell is zero. */
  lemma BlankAtGap(cs: seq<Cell>, hi: nat, k: nat)
    requires Chain(cs, HIVE_HEADER, hi) && HIVE_HEADER <= hi < TWO_31 && AlignedLive(cs)
    requires k < |cs| && cs[k].size < 0 && 0 < Gap(cs, k) < cs[k].Len()
    ensures forall i :: 0 <= i < |cs| ==> cs[i].off + CELL_HEADER <= hi
    ensures Tiled(BlankArena(cs, hi)) && Gap(cs, k) + 8 <= cs[k].Len() && cs[k].End() <= hi
    ensures ReadI32(Blank(cs, hi), cs[k].off + Gap(cs, k)) == 0
  {
    hide ReadI32, Gap, Blank;
    ChainFits(cs, HIVE_HEADER, hi);
    BlankIsTiled(cs, HIVE_HEADER, hi);
    var a := BlankArena(cs, hi);
    GapAligned(a, k);
    MultiplesOf8(cs[k].Len(), Gap(cs, k));
    ChainOrdered(cs, HIVE_HEADER, hi);
    var at := cs[k].off + Gap(cs, k);
    forall p | at <= p < at + 4
      ensures Blank(cs, hi)[p] == 0
    {
      InsideCell(cs, k, p, HIVE_HEADER, hi);
    }
    ZerosRead(Blank(cs, hi), at);
  }

  /** The first cell too large for its gap stalls the loop for good when its payload is zero:
      the header read again after the move is 0, and so is every header read from then on. */
  lemma TooLargeStalls(cs: seq<Cell>, hi: nat, k: nat)
    requires Chain(cs, HIVE_HEADER, hi) && HIVE_HEADER <= hi < TWO_31 && AlignedLive(cs)
    requires k < |cs| && !FitsGap(cs, k) && forall j :: 0 <= j < k ==> FitsGap(cs, j)
    ensures forall i :: 0 <= i < |cs| ==> cs[i].off + CELL_HEADER <= hi
    ensures Tiled(BlankArena(cs, hi))
    ensures forall n: nat :: Turns(Start(BlankArena(cs, hi)), hi, n).read < hi
  {
    hide ReadI32, Gap, Blank, Turn, Tiled, Chain, LiveBytes, MovedDown, SafeAt, Blit;
    BlankAtGap(cs, hi, k);
    var a := BlankArena(cs, hi);
    forall j | 0 <= j < k && cs[j].size < 0 && Gap(cs, j) > 0
      ensures SafeAt(a, j)
    {
      assert FitsGap(cs, j);
      FitsInGap(a, j);
    }
    SafeTurns(a, k);
    StallingTurn(a, k);
    forall n: nat
      ensures Turns(Start(a), hi, n).read < hi
    {
      if n < k {
        SafeTurns(a, n);
        CellInside(a, n);
        WalkStep(a, n);
      } else if n > k {
        StandsStill(Start(a), hi, k + 1, n);
      }
    }
  }

  /** The turn that moves the cell, and the one after it. */
  lemma StallingTurn(a: Arena, k: nat)
    requires Tiled(a) && k < |a.cells| && a.cells[k].size < 0 && 0 < Gap(a.cells, k)
    requires Gap(a.cells, k) + 8 <= a.cells[k].Len() && a.cells[k].End() <= |a.m|
    requires ReadI32(a.m, a.cells[k].off + Gap(a.cells, k)) == 0
    requires var w := Turns(Start(a), a.hi, k);
      && w.read == StartOf(a.cells, k, a.hi)
      && w.write == HIVE_HEADER + LiveBytes(a.cells[..k])
      && MovedDown(w.m, a, k)
    ensures Turns(Start(a), a.hi, k).read == a.cells[k].off < a.hi
    ensures var v := Turns(Start(a), a.hi, k + 1);
      v.read == a.cells[k].off && Turn(v, a.hi) == v
  {
    hide ReadI32, Gap, Tiled, LiveBytes, MovedDown, Blit;
    var w := Turns(Start(a), a.hi, k);
    CellInside(a, k);
    WalkStep(a, k);
    NextToMove(w.m, a, k);
    MoveReads(w.m, a, k);
    GapIsDistance(a, k);
    ReReadsExactly(a.m, a.cells[k].off, Gap(a.cells, k), a.cells[k].Len());
  }

  /** In-place compaction packs every hive of a cell map, whatever the payloads, if and only if
      each live cell it moves fits in the gap before it. */
  lemma CompactionExactly(cs: seq<Cell>, hi: nat)
    requires Chain(cs, HIVE_HEADER, hi) && HIVE_HEADER <= hi < TWO_31 && AlignedLive(cs)
    ensures (forall m :: Tiled(Arena(m, cs, hi)) ==> PacksInPlace(Arena(m, cs, hi))) <==> FitsGaps(cs)
    ensures (forall m :: Tiled(Arena(m, cs, hi)) ==> Ends(Arena(m, cs, hi))) <==> FitsGaps(cs)
  {
    hide ReadI32, Gap, Blank, Turn, Turns, Tiled, Chain, Compacted, Done;
    if FitsGaps(cs) {
      forall m | Tiled(Arena(m, cs, hi))
        ensures PacksInPlace(Arena(m, cs, hi)) && Ends(Arena(m, cs, hi))
      {
        FitsGapsPacks(Arena(m, cs, hi));
      }
    } else {
      var k := FirstTooLarge(cs);
      TooLargeStalls(cs, hi, k);
      NeverDone(BlankArena(cs, hi));
    }
  }

  lemma FitsGapsPacks(a: Arena)
    requires Tiled(a) && FitsGaps(a.cells)
    ensures PacksInPlace(a) && Ends(a)
  {
    hide Tiled, Gap, Turns, Compacted, Done;
    forall k | 0 <= k < |a.cells| && a.cells[k].size < 0 && Gap(a.cells, k) > 0
      ensures a.cells[k].Len() <= Gap(a.cells, k)
    {
      assert FitsGap(a.cells, k);
    }
    FittingIsSafe(a);
    SafePacks(a);
  }

  lemma FirstTooLarge(cs: seq<Cell>) returns (k: nat)
    requires !FitsGaps(cs)
    ensures k < |cs| && !FitsGap(cs, k) && forall j :: 0 <= j < k ==> FitsGap(cs, j)
  {
    hide FitsGap;
    k := 0;
    while FitsGap(cs, k)
      invariant k < |cs| && forall j :: 0 <= j < k ==> FitsGap(cs, j)
      decreases |cs| - k
    {
      k := k + 1;
    }
  }

  lemma NeverDone(a: Arena)
    requires Tiled(a) && forall n: nat :: Turns(Start(a), a.hi, n).read < a.hi
    ensures !Ends(a) && !PacksInPlace(a)
  {
    hide Tiled, Turns, Compacted;
  }

  /** The hives a run can reach: their cell map decides whether compaction packs them. */
  lemma ReachedCompaction(hi: nat, ops: seq<Op>)
    requires HIVE_HEADER + CELL_HEADER <= hi < TWO_31
    requires Tiled(Created(hi)) && LegalRun(Created(hi), ops)
    ensures var r := Run(Created(hi), ops);
      && Tiled(r) && r.hi == hi
      && (FitsGaps(r.cells) ==> PacksInPlace(r))
      && (FitsGaps(r.cells) <==> forall m :: Tiled(Arena(m, r.cells, hi)) ==> PacksInPlace(Arena(m, r.cells, hi)))
  {
    hide Tiled, NoAdjacentFree, LegalRun, Run, FitsGaps, PacksInPlace, Chain, Headers, Created, Ends, AlignedLive;
    CreatedCanonical(hi);
    CreatedSize(hi);
    ReachedAligned(hi, ops);
    RunCanonical(Created(hi), ops);
    var r := Run(Created(hi), ops);
    TiledParts(r);
    CompactionExactly(r.cells, hi);
    if FitsGaps(r.cells) {
      FitsGapsPacks(r);
    }
  }
}
