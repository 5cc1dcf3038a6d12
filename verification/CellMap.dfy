/** The cell map of a registry hive: the list of signed-size cells laid end to end
    after the hive header. Everything here is about lists of cells; HiveArena ties
    them to the bytes of the hive. */
module CellMap {

  // sizeof(HIVE_HEADER) and sizeof(CELL_HEADER)
  const HIVE_HEADER: int := 3728
  const CELL_HEADER: int := 8

  /** A cell header found at offset off; size is negative when the cell is allocated. */
  datatype Cell = Cell(off: nat, size: int) {
    function Len(): nat {
      if size < 0 then -size else size
    }

    function End(): nat {
      off + Len()
    }
  }

  /** An allocated cell of len bytes. */
  function Allocated(off: nat, len: int): Cell {
    Cell(off, -len)
  }

  /** The cells of cs cover [lo, hi) exactly, in order and without gaps. */
  ghost predicate Chain(cs: seq<Cell>, lo: int, hi: int) {
    && (cs == [] ==> lo == hi)
    && (cs != [] ==> cs[0].off == lo && cs[|cs| - 1].End() == hi)
    && (forall i :: 0 <= i < |cs| ==> cs[i].Len() >= CELL_HEADER)
    && (forall i, j :: 0 <= i && j == i + 1 && j < |cs| ==> cs[i].End() == cs[j].off)
  }

  ghost predicate NoAdjacentFree(cs: seq<Cell>) {
    forall i, j :: 0 <= i && j == i + 1 && j < |cs| ==> !(cs[i].size > 0 && cs[j].size > 0)
  }

  /** The allocated cells, as extents. */
  ghost function Live(cs: seq<Cell>): set<Cell> {
    set c | c in cs && c.size < 0
  }

  function Elems(cs: seq<Cell>): set<Cell> {
    set c | c in cs
  }

  lemma LiveIndex(cs: seq<Cell>, c: Cell) returns (i: nat)
    requires c in Live(cs)
    ensures i < |cs| && cs[i] == c
  {
    i :| 0 <= i < |cs| && cs[i] == c;
  }

  function FreeBytes(cs: seq<Cell>): nat {
    if cs == [] then 0 else (if cs[0].size > 0 then cs[0].size else 0) + FreeBytes(cs[1..])
  }

  function LiveBytes(cs: seq<Cell>): nat {
    if cs == [] then 0 else (if cs[0].size < 0 then -cs[0].size else 0) + LiveBytes(cs[1..])
  }

  // ----- Order and bounds

  lemma {:induction false} ChainTail(cs: seq<Cell>, lo: int, hi: int)
    requires Chain(cs, lo, hi) && cs != []
    ensures Chain(cs[1..], cs[0].End(), hi)
  {
    assert |cs| > 1 ==> cs[0].End() == cs[1].off;
  }

  /** Cells appear in address order, inside [lo, hi), and never overlap. */
  lemma {:induction false} ChainOrdered(cs: seq<Cell>, lo: int, hi: int)
    requires Chain(cs, lo, hi)
    ensures lo <= hi
    ensures forall i :: 0 <= i < |cs| ==> lo <= cs[i].off && cs[i].End() <= hi
    ensures forall i, j :: 0 <= i < j < |cs| ==> cs[i].End() <= cs[j].off
  {
    if cs != [] {
      ChainTail(cs, lo, hi);
      var tail := cs[1..];
      ChainOrdered(tail, cs[0].End(), hi);
      forall i | 0 <= i < |cs|
        ensures lo <= cs[i].off && cs[i].End() <= hi
        ensures i > 0 ==> cs[0].End() <= cs[i].off
      {
        if i > 0 { assert cs[i] == tail[i - 1]; }
      }
      forall i, j | 0 <= i < j < |cs|
        ensures cs[i].End() <= cs[j].off
      {
        if i > 0 { assert cs[i] == tail[i - 1] && cs[j] == tail[j - 1]; }
      }
    }
  }

  lemma LiveDisjoint(cs: seq<Cell>, i: nat, lo: int, hi: int)
    requires Chain(cs, lo, hi) && i < |cs|
    ensures forall c | c in Live(cs) && c != cs[i] :: c.End() <= cs[i].off || cs[i].End() <= c.off
  {
    ChainOrdered(cs, lo, hi);
    forall c | c in Live(cs) && c != cs[i]
      ensures c.End() <= cs[i].off || cs[i].End() <= c.off
    {
      var j :| 0 <= j < |cs| && cs[j] == c;
      assert j < i || i < j;
    }
  }

  /** Every byte of [lo, hi) belongs to a free or to an allocated cell. */
  lemma {:induction false} BytesConserved(cs: seq<Cell>, lo: int, hi: int)
    requires Chain(cs, lo, hi)
    ensures FreeBytes(cs) + LiveBytes(cs) == hi - lo
  {
    if cs != [] {
      ChainTail(cs, lo, hi);
      BytesConserved(cs[1..], cs[0].End(), hi);
    }
  }

  /** Live cells start and end on multiples of 8. */
  predicate AlignedLive(cs: seq<Cell>) {
    forall i :: 0 <= i < |cs| && cs[i].size < 0 ==> cs[i].off % 8 == 0 && cs[i].Len() % 8 == 0
  }

  lemma {:induction false} LiveBytesAligned(cs: seq<Cell>)
    requires AlignedLive(cs)
    ensures LiveBytes(cs) % 8 == 0
  {
    if cs != [] {
      assert forall i :: 0 <= i < |cs[1..]| ==> cs[1..][i] == cs[i + 1];
      LiveBytesAligned(cs[1..]);
    }
  }

  lemma {:induction false} FreeBytesAppend(a: seq<Cell>, b: seq<Cell>)
    ensures FreeBytes(a + b) == FreeBytes(a) + FreeBytes(b)
  {
    if a == [] {
      assert a + b == b;
    } else {
      FreeBytesAppend(a[1..], b);
      assert (a + b)[1..] == a[1..] + b;
    }
  }

  lemma ChainNext(cs: seq<Cell>, k: nat, lo: int, hi: int)
    requires Chain(cs, lo, hi) && k < |cs|
    ensures cs[k].End() == if k + 1 < |cs| then cs[k + 1].off else hi
  {
  }

  lemma EmptyChain(lo: int)
    ensures Chain([], lo, lo)
  {
  }

  lemma OneCellChain(c: Cell)
    requires c.Len() >= CELL_HEADER
    ensures Chain([c], c.off, c.End())
  {
  }

  /** No live cell shares a byte with [off, off + len). */
  ghost predicate Apart(cs: seq<Cell>, off: nat, len: nat) {
    forall c | c in Live(cs) :: c.End() <= off || off + len <= c.off
  }

  lemma ApartIsNew(cs: seq<Cell>, off: nat, len: nat)
    requires Apart(cs, off, len) && len > 0
    ensures Allocated(off, len) !in Live(cs)
  {
    var c := Allocated(off, len);
    assert c.off == off && c.End() == off + len;
  }

  lemma FreeCellApart(cs: seq<Cell>, i: nat, need: nat, lo: int, hi: int)
    requires Chain(cs, lo, hi) && i < |cs| && cs[i].size > 0 && need <= cs[i].size
    ensures Apart(cs, cs[i].off, need)
    ensures Elems(cs[i..i + 1]) * Live(cs) == {}
  {
    LiveDisjoint(cs, i, lo, hi);
  }

  // ----- Replacing a stretch of cells

  function Replace(cs: seq<Cell>, from: nat, to: nat, ns: seq<Cell>): seq<Cell>
    requires from <= to <= |cs|
  {
    cs[..from] + ns + cs[to..]
  }

  lemma ChainAppend(a: seq<Cell>, b: seq<Cell>, lo: int, mid: int, hi: int)
    requires Chain(a, lo, mid) && Chain(b, mid, hi)
    ensures Chain(a + b, lo, hi)
  {
    var rs := a + b;
    forall i, j | 0 <= i && j == i + 1 && j < |rs|
      ensures rs[i].End() == rs[j].off
    {
      if j < |a| {
        assert rs[i] == a[i] && rs[j] == a[j];
      } else if i >= |a| {
        assert rs[i] == b[i - |a|] && rs[j] == b[j - |a|];
      }
    }
  }

  lemma ChainSplit(cs: seq<Cell>, k: nat, lo: int, hi: int)
    requires Chain(cs, lo, hi) && k <= |cs|
    ensures var mid := if k < |cs| then cs[k].off else hi;
      Chain(cs[..k], lo, mid) && Chain(cs[k..], mid, hi)
  {
    if 0 < k < |cs| {
      assert cs[k - 1].End() == cs[k].off;
    }
  }

  /** Cells that cover the same bytes can stand in for a stretch of a chain. */
  lemma ReplaceChain(cs: seq<Cell>, from: nat, to: nat, ns: seq<Cell>, lo: int, hi: int)
    requires Chain(cs, lo, hi) && from < to <= |cs|
    requires Chain(ns, cs[from].off, cs[to - 1].End())
    ensures Chain(Replace(cs, from, to, ns), lo, hi)
  {
    hide Chain;
    var mid := if to < |cs| then cs[to].off else hi;
    ChainNext(cs, to - 1, lo, hi);
    ChainSplit(cs, from, lo, hi);
    ChainSplit(cs, to, lo, hi);
    ChainAppend(cs[..from], ns, lo, cs[from].off, mid);
    ChainAppend(cs[..from] + ns, cs[to..], lo, mid, hi);
  }

  lemma UpdateIsReplace(cs: seq<Cell>, i: nat, c: Cell)
    requires i < |cs|
    ensures cs[i := c] == Replace(cs, i, i + 1, [c])
  {
  }

  lemma OutsideStretch(cs: seq<Cell>, from: nat, to: nat, c: Cell) returns (j: nat)
    requires from <= to <= |cs| && c in cs && c !in cs[from..to]
    ensures j < |cs| && cs[j] == c && !(from <= j < to)
  {
    j :| 0 <= j < |cs| && cs[j] == c;
    assert forall k :: from <= k < to ==> cs[k] == cs[from..to][k - from];
  }

  lemma ReplaceLive(cs: seq<Cell>, from: nat, to: nat, ns: seq<Cell>)
    requires from <= to <= |cs|
    ensures Live(Replace(cs, from, to, ns)) == Live(cs[..from]) + Live(ns) + Live(cs[to..])
    ensures Live(cs) == Live(cs[..from]) + Live(cs[from..to]) + Live(cs[to..])
  {
    assert cs == cs[..from] + cs[from..to] + cs[to..];
  }

  lemma ReplaceFreeBytes(cs: seq<Cell>, from: nat, to: nat, ns: seq<Cell>)
    requires from <= to <= |cs|
    requires FreeBytes(ns) == FreeBytes(cs[from..to])
    ensures FreeBytes(Replace(cs, from, to, ns)) == FreeBytes(cs)
  {
    assert cs == cs[..from] + cs[from..to] + cs[to..];
    FreeBytesAppend(cs[..from], ns);
    FreeBytesAppend(cs[..from] + ns, cs[to..]);
    FreeBytesAppend(cs[..from], cs[from..to]);
    FreeBytesAppend(cs[..from] + cs[from..to], cs[to..]);
  }

  /** A cell occurs once in a chain, so taking it out takes its extent out of Live. */
  lemma LiveWithout(cs: seq<Cell>, i: nat, lo: int, hi: int)
    requires Chain(cs, lo, hi) && i < |cs|
    ensures Live(cs[..i]) + Live(cs[i + 1..]) == Live(cs) - {cs[i]}
  {
    ChainOrdered(cs, lo, hi);
    ReplaceLive(cs, i, i + 1, []);
    assert cs[i] !in cs[..i];
    assert cs[i] !in cs[i + 1..];
    assert cs[i..i + 1] == [cs[i]];
  }

  // ----- The canonical map

  lemma LiveTail(cs: seq<Cell>, lo: int, hi: int)
    requires Chain(cs, lo, hi) && cs != []
    ensures Live(cs[1..]) == Live(cs) - {cs[0]}
  {
    LiveWithout(cs, 0, lo, hi);
    assert cs[..0] == [];
  }

  /** With no two free cells side by side, a leading free cell ends where the first
      allocated cell starts, or at the end of the arena. */
  lemma LeadingFreeCell(cs: seq<Cell>, lo: int, hi: int)
    requires Chain(cs, lo, hi) && NoAdjacentFree(cs) && cs != [] && cs[0].size > 0
    ensures if Live(cs) == {} then cs[0].End() == hi
            else (exists c :: c in Live(cs) && c.off == cs[0].End())
    ensures forall c | c in Live(cs) :: cs[0].End() <= c.off
  {
    ChainOrdered(cs, lo, hi);
    if |cs| > 1 {
      assert cs[0].End() == cs[1].off;
      assert cs[1].size < 0;
      assert cs[1] in Live(cs);
    }
  }

  lemma LeadingLiveCell(a: seq<Cell>, b: seq<Cell>, lo: int, hi: int)
    requires Chain(a, lo, hi) && Chain(b, lo, hi) && a != [] && b != []
    requires a[0].size < 0 && Live(a) <= Live(b)
    ensures a[0] == b[0]
  {
    ChainOrdered(b, lo, hi);
    assert a[0] in Live(b);
  }

  lemma CanonicalHead(a: seq<Cell>, b: seq<Cell>, lo: int, hi: int)
    requires Chain(a, lo, hi) && Chain(b, lo, hi) && a != [] && b != []
    requires NoAdjacentFree(a) && NoAdjacentFree(b)
    requires Live(a) == Live(b)
    ensures a[0] == b[0]
  {
    if a[0].size < 0 {
      LeadingLiveCell(a, b, lo, hi);
    } else if b[0].size < 0 {
      LeadingLiveCell(b, a, lo, hi);
    } else {
      LeadingFreeCell(a, lo, hi);
      LeadingFreeCell(b, lo, hi);
    }
  }

  /** The whole cell map is a function of the live extents: two coalesced chains over
      the same range with the same allocated cells are the same chain. */
  lemma {:induction false} CanonicalMap(a: seq<Cell>, b: seq<Cell>, lo: int, hi: int)
    requires Chain(a, lo, hi) && Chain(b, lo, hi)
    requires NoAdjacentFree(a) && NoAdjacentFree(b)
    requires Live(a) == Live(b)
    ensures a == b
    decreases |a|
  {
    hide Live;
    if a == [] {
      ChainOrdered(b, lo, hi);
    } else {
      ChainOrdered(a, lo, hi);
      assert b != [];
      CanonicalHead(a, b, lo, hi);
      ChainTail(a, lo, hi);
      ChainTail(b, lo, hi);
      LiveTail(a, lo, hi);
      LiveTail(b, lo, hi);
      CanonicalMap(a[1..], b[1..], a[0].End(), hi);
      assert a == [a[0]] + a[1..] && b == [b[0]] + b[1..];
    }
  }

  // ----- First fit, split and coalesce on the cell list

  /** (Size + 7) & ~7 in 64-bit arithmetic. */
  function AlignUp8(n: nat): (r: nat)
    ensures r % 8 == 0
    ensures n <= 0x1_0000_0000_0000_0000 - 8 ==> n <= r < n + 8
    ensures 0x1_0000_0000_0000_0000 - 8 < n < 0x1_0000_0000_0000_0000 ==> r == 0
  {
    (n + 7) % 0x1_0000_0000_0000_0000 / 8 * 8
  }

  /** A free cell that can hold need bytes. */
  predicate Fits(c: Cell, need: nat) {
    c.size > 0 && c.size >= need
  }

  /** The first cell that fits, or |cs|. */
  function FitIndex(cs: seq<Cell>, need: nat): (i: nat)
    ensures i <= |cs|
    ensures i < |cs| ==> Fits(cs[i], need)
    ensures forall j :: 0 <= j < i ==> !Fits(cs[j], need)
  {
    if cs == [] then 0
    else if Fits(cs[0], need) then 0
    else
      var k := FitIndex(cs[1..], need);
      assert forall j :: 1 <= j <= k ==> cs[j] == cs[1..][j - 1];
      k + 1
  }

  predicate Splits(c: Cell, need: nat) {
    c.size > need + CELL_HEADER
  }

  /** The allocator covers the cell it takes: nothing is left over, or a remainder
      large enough to be split off. */
  predicate Covers(c: Cell, need: nat) {
    need > 0 && (c.size == need || Splits(c, need))
  }

  /** What replaces free cell c when need bytes are taken from it. */
  function Pieces(c: Cell, need: nat): seq<Cell> {
    [Allocated(c.off, need)] + if Splits(c, need) then [Cell(c.off + need, c.size - need)] else []
  }

  function Place(cs: seq<Cell>, i: nat, need: nat): seq<Cell>
    requires i < |cs|
  {
    Replace(cs, i, i + 1, Pieces(cs[i], need))
  }

  predicate JoinsNext(cs: seq<Cell>, i: nat) {
    i + 1 < |cs| && cs[i + 1].size > 0
  }

  predicate JoinsPrev(cs: seq<Cell>, i: nat) {
    0 < i <= |cs| && cs[i - 1].size > 0
  }

  /** Cell i merged with its free neighbours. */
  function Coalesce(cs: seq<Cell>, i: nat): seq<Cell>
    requires i < |cs|
  {
    var from := if JoinsPrev(cs, i) then i - 1 else i;
    var to := if JoinsNext(cs, i) then i + 2 else i + 1;
    Replace(cs, from, to, [Cell(cs[from].off, JoinedSize(cs, i))])
  }

  function JoinedSize(cs: seq<Cell>, i: nat): int
    requires i < |cs|
  {
    (if JoinsPrev(cs, i) then cs[i - 1].size else 0) + cs[i].size
    + (if JoinsNext(cs, i) then cs[i + 1].size else 0)
  }

  /** Where the merged cell stands in Coalesce(cs, i). */
  function MergedIndex(cs: seq<Cell>, i: nat): nat
    requires i < |cs|
  {
    if JoinsPrev(cs, i) then i - 1 else i
  }

  /** Cell i turned from allocated to free and merged. */
  function Release(cs: seq<Cell>, i: nat): seq<Cell>
    requires i < |cs|
  {
    Coalesce(cs[i := Cell(cs[i].off, cs[i].Len())], i)
  }

  /** Placing keeps the chain exactly when the taken cell is covered. */
  lemma PlaceChain(cs: seq<Cell>, i: nat, need: nat, lo: int, hi: int)
    requires Chain(cs, lo, hi) && i < |cs| && Fits(cs[i], need) && need % 8 == 0
    ensures Chain(Place(cs, i, need), lo, hi) <==> Covers(cs[i], need)
  {
    var ps := Pieces(cs[i], need);
    var rs := Place(cs, i, need);
    assert rs[i] == ps[0];
    if Covers(cs[i], need) {
      ReplaceChain(cs, i, i + 1, ps, lo, hi);
    } else if need > 0 {
      assert |rs| == |cs| && rs[i].End() < cs[i].End();
      if i + 1 < |cs| {
        assert rs[i + 1] == cs[i + 1];
        assert cs[i].End() == cs[i + 1].off;
      }
    }
  }

  lemma PlaceLive(cs: seq<Cell>, i: nat, need: nat)
    requires i < |cs| && cs[i].size > 0 && need > 0
    ensures Live(Place(cs, i, need)) == Live(cs) + {Allocated(cs[i].off, need)}
  {
    ReplaceLive(cs, i, i + 1, Pieces(cs[i], need));
    assert cs[i..i + 1] == [cs[i]];
    assert Pieces(cs[i], need)[0] == Allocated(cs[i].off, need);
  }

  lemma PlaceNoAdjacentFree(cs: seq<Cell>, i: nat, need: nat)
    requires i < |cs| && Fits(cs[i], need) && NoAdjacentFree(cs)
    ensures NoAdjacentFree(Place(cs, i, need))
  {
    var ps := Pieces(cs[i], need);
    var rs := Place(cs, i, need);
    assert forall k :: 0 <= k < i ==> rs[k] == cs[k];
    assert rs[i] == ps[0];
    assert |ps| == 2 ==> rs[i + 1] == ps[1];
    assert forall k :: i + |ps| <= k < |rs| ==> rs[k] == cs[k - |ps| + 1];
    forall k, l | 0 <= k && l == k + 1 && l < |rs|
      ensures !(rs[k].size > 0 && rs[l].size > 0)
    {
      if |ps| == 2 && k == i + 1 {
        assert rs[l] == cs[i + 1];
      }
    }
  }

  lemma CoalesceChain(cs: seq<Cell>, i: nat, lo: int, hi: int)
    requires Chain(cs, lo, hi) && i < |cs| && cs[i].size > 0
    ensures Chain(Coalesce(cs, i), lo, hi)
    ensures |Coalesce(cs, i)| <= |cs|
    ensures MergedIndex(cs, i) < |Coalesce(cs, i)|
    ensures var merged := Coalesce(cs, i)[MergedIndex(cs, i)];
      merged.size > 0 && merged.End() == (if JoinsNext(cs, i) then cs[i + 1].End() else cs[i].End())
  {
    var from := if JoinsPrev(cs, i) then i - 1 else i;
    var to := if JoinsNext(cs, i) then i + 2 else i + 1;
    var ns := [Cell(cs[from].off, JoinedSize(cs, i))];
    assert JoinsPrev(cs, i) ==> cs[i - 1].End() == cs[i].off;
    assert JoinsNext(cs, i) ==> cs[i].End() == cs[i + 1].off;
    assert Coalesce(cs, i)[from] == ns[0];
    ReplaceChain(cs, from, to, ns, lo, hi);
  }

  lemma OneFreeCell(c: Cell)
    requires c.size > 0
    ensures FreeBytes([c]) == c.size && Live([c]) == {}
  {
    assert [c][1..] == [];
  }

  lemma FreeBytesOfJoined(cs: seq<Cell>, i: nat)
    requires i < |cs| && cs[i].size > 0
    ensures JoinedSize(cs, i) > 0
    ensures var from := if JoinsPrev(cs, i) then i - 1 else i;
      var to := if JoinsNext(cs, i) then i + 2 else i + 1;
      FreeBytes(cs[from..to]) == JoinedSize(cs, i) && Live(cs[from..to]) == {}
  {
    var prev := if JoinsPrev(cs, i) then [cs[i - 1]] else [];
    var next := if JoinsNext(cs, i) then [cs[i + 1]] else [];
    var from := if JoinsPrev(cs, i) then i - 1 else i;
    var to := if JoinsNext(cs, i) then i + 2 else i + 1;
    assert cs[from..to] == prev + [cs[i]] + next;
    if prev != [] { OneFreeCell(cs[i - 1]); }
    if next != [] { OneFreeCell(cs[i + 1]); }
    OneFreeCell(cs[i]);
    FreeBytesAppend(prev, [cs[i]]);
    FreeBytesAppend(prev + [cs[i]], next);
  }

  /** Merging free cells changes no allocated cell and no byte count. */
  lemma CoalesceKeeps(cs: seq<Cell>, i: nat)
    requires i < |cs| && cs[i].size > 0
    ensures Live(Coalesce(cs, i)) == Live(cs)
    ensures FreeBytes(Coalesce(cs, i)) == FreeBytes(cs)
  {
    hide FreeBytes, Live, JoinedSize, Replace;
    var from := if JoinsPrev(cs, i) then i - 1 else i;
    var to := if JoinsNext(cs, i) then i + 2 else i + 1;
    var merged := Cell(cs[from].off, JoinedSize(cs, i));
    FreeBytesOfJoined(cs, i);
    OneFreeCell(merged);
    ReplaceFreeBytes(cs, from, to, [merged]);
    ReplaceLive(cs, from, to, [merged]);
  }

  /** Neighbouring cells before i stay as they were; after merging cell i, no two free
      cells touch in the stretch up to and including the merged cell. */
  lemma CoalescePrefix(cs: seq<Cell>, i: nat)
    requires i < |cs| && cs[i].size > 0 && NoAdjacentFree(cs[..i])
    ensures var k := MergedIndex(cs, i);
      k < |Coalesce(cs, i)| && NoAdjacentFree(Coalesce(cs, i)[..k + 1])
  {
    var k := MergedIndex(cs, i);
    var rs := Coalesce(cs, i);
    assert rs[..k] == cs[..k];
    forall p, q | 0 <= p && q == p + 1 && q < k + 1
      ensures !(rs[p].size > 0 && rs[q].size > 0)
    {
      assert rs[p] == cs[p];
      if q < k {
        assert rs[q] == cs[q] && cs[..i][p] == cs[p] && cs[..i][q] == cs[q];
      } else if JoinsPrev(cs, i) {
        assert cs[..i][p] == cs[p] && cs[..i][p + 1] == cs[i - 1];
      }
    }
  }

  lemma ReleaseMarked(cs: seq<Cell>, i: nat, lo: int, hi: int)
    requires Chain(cs, lo, hi) && i < |cs| && cs[i].size < 0
    ensures Chain(cs[i := Cell(cs[i].off, cs[i].Len())], lo, hi)
    ensures Live(cs[i := Cell(cs[i].off, cs[i].Len())]) == Live(cs) - {cs[i]}
  {
    var c := Cell(cs[i].off, cs[i].Len());
    var marked := cs[i := c];
    assert Live(marked) == Live(cs) - {cs[i]} by {
      hide Chain;
      assert marked == Replace(cs, i, i + 1, [c]);
      ReplaceLive(cs, i, i + 1, [c]);
      LiveWithout(cs, i, lo, hi);
    }
    assert forall k :: 0 <= k < |cs| ==> marked[k].off == cs[k].off && marked[k].Len() == cs[k].Len();
  }

  /** Releasing an allocated cell keeps the chain and removes just its extent. */
  lemma ReleaseKeeps(cs: seq<Cell>, i: nat, lo: int, hi: int)
    requires Chain(cs, lo, hi) && i < |cs| && cs[i].size < 0
    ensures Chain(Release(cs, i), lo, hi)
    ensures Live(Release(cs, i)) == Live(cs) - {cs[i]}
  {
    hide Chain, Coalesce;
    ReleaseMarked(cs, i, lo, hi);
    var marked := cs[i := Cell(cs[i].off, cs[i].Len())];
    CoalesceChain(marked, i, lo, hi);
    CoalesceKeeps(marked, i);
  }

  lemma ReleaseNoAdjacentFree(cs: seq<Cell>, i: nat)
    requires i < |cs| && cs[i].size < 0 && NoAdjacentFree(cs)
    ensures NoAdjacentFree(Release(cs, i))
  {
    var marked := cs[i := Cell(cs[i].off, cs[i].Len())];
    var k := MergedIndex(marked, i);
    var rs := Coalesce(marked, i);
    var shift := |marked| - |rs|;
    assert forall p :: 0 <= p < k ==> rs[p] == cs[p];
    assert forall p :: k < p < |rs| ==> rs[p] == cs[p + shift];
    forall p, q | 0 <= p && q == p + 1 && q < |rs|
      ensures !(rs[p].size > 0 && rs[q].size > 0)
    {
      if q < k {
        assert rs[p] == cs[p] && rs[q] == cs[q];
      } else if q == k {
        if JoinsPrev(marked, i) {
          assert cs[p + 1] == cs[i - 1] == marked[i - 1];
        }
      } else if p == k {
        if JoinsNext(marked, i) {
          assert marked[i + 1] == cs[i + 1] && rs[q] == cs[i + 2];
        } else {
          assert rs[q] == cs[i + 1] == marked[i + 1];
        }
      } else {
        assert rs[p] == cs[p + shift] && rs[q] == cs[q + shift];
      }
    }
  }
}
