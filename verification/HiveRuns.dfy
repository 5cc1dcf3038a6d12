/** Resizing a cell, and runs of hive operations: what holds after any sequence of calls. */
module HiveRuns {
  import opened ByteMemory
  import opened CellMap
  import opened HiveArena

  // ----- HiveResizeCell

  /** The bytes HiveAllocateCell asks for: payload and header, rounded to 8. */
  function CellRequest(n: nat): (r: nat)
    ensures 0 < n < TWO_64 - 15 ==> n + CELL_HEADER <= r && AlignUp8(r) == r
    ensures n < TWO_64 - 15 ==> n + 8 <= r < n + 16
    ensures TWO_64 - 15 <= n <= TWO_64 - 8 ==> r == 0
    ensures TWO_64 - 8 < n < TWO_64 ==> r == 8
    ensures r % 8 == 0
  {
    AlignUp8((n + CELL_HEADER) % TWO_64)
  }

  function PayloadKept(c: Cell, n: nat): (k: nat)
    requires c.size <= 0 - CELL_HEADER
    ensures k <= n && k + CELL_HEADER <= c.Len()
  {
    if -c.size - CELL_HEADER < n then -c.size - CELL_HEADER else n
  }

  /** k payload bytes, signature and flags copied from the cell at off to the cell at to. */
  function Moved(b: Arena, off: nat, to: nat, k: nat): (r: Arena)
    requires off + CELL_HEADER + k <= |b.m| && to + CELL_HEADER + k <= |b.m|
    ensures |r.m| == |b.m| && r.cells == b.cells && r.hi == b.hi
  {
    var copied := Blit(b.m, to + CELL_HEADER, b.m[off + CELL_HEADER..off + CELL_HEADER + k]);
    b.(m := Blit(copied, to + 4, copied[off + 4..off + CELL_HEADER]))
  }

  /** The payload prefix of k bytes, the signature and the flags at off in m are those at to in r. */
  ghost predicate CarriedOver(m: Image, off: nat, r: Image, to: nat, k: nat) {
    && off + CELL_HEADER + k <= |m| && to + CELL_HEADER + k <= |r|
    && r[to + CELL_HEADER..to + CELL_HEADER + k] == m[off + CELL_HEADER..off + CELL_HEADER + k]
    && r[to + 4..to + CELL_HEADER] == m[off + 4..off + CELL_HEADER]
  }

  lemma MovedBytes(m: Image, off: nat, to: nat, k: nat)
    requires off + CELL_HEADER + k <= |m| && to + CELL_HEADER + k <= |m|
    requires off + CELL_HEADER + k <= to || to + CELL_HEADER + k <= off
    ensures var copied := Blit(m, to + CELL_HEADER, m[off + CELL_HEADER..off + CELL_HEADER + k]);
      CarriedOver(m, off, Blit(copied, to + 4, copied[off + 4..off + CELL_HEADER]), to, k)
  {
    hide Blit;
    var data := m[off + CELL_HEADER..off + CELL_HEADER + k];
    var copied := Blit(m, to + CELL_HEADER, data);
    var tags := copied[off + 4..off + CELL_HEADER];
    BlitSlice(m, to + CELL_HEADER, data, off + 4, off + CELL_HEADER);
    BlitSlice(m, to + CELL_HEADER, data, to + CELL_HEADER, to + CELL_HEADER + k);
    BlitSlice(copied, to + 4, tags, to + CELL_HEADER, to + CELL_HEADER + k);
    BlitSlice(copied, to + 4, tags, to + 4, to + CELL_HEADER);
  }

  /** Moving writes only into the target cell, which then holds the source's payload
      prefix, signature and flags. */
  lemma MovedKeeps(b: Arena, i: nat, j: nat, k: nat)
    requires Tiled(b) && i < |b.cells| && j < |b.cells| && i != j
    requires k + CELL_HEADER <= b.cells[i].Len() && k + CELL_HEADER <= b.cells[j].Len()
    ensures b.cells[i].End() <= |b.m| && b.cells[j].End() <= |b.m|
    ensures var r := Moved(b, b.cells[i].off, b.cells[j].off, k);
      && Tiled(r)
      && KeptExcept(b, r, {b.cells[j]})
      && CarriedOver(b.m, b.cells[i].off, r.m, b.cells[j].off, k)
  {
    hide Tiled, KeptExcept, Blit, CarriedOver;
    CellInside(b, i);
    CellInside(b, j);
    CellsApart(b, i, j);
    var off, to := b.cells[i].off, b.cells[j].off;
    MovedBytes(b.m, off, to, k);
    var data := b.m[off + CELL_HEADER..off + CELL_HEADER + k];
    var copied := Blit(b.m, to + CELL_HEADER, data);
    PatchTwice(b, j, to + CELL_HEADER, data, to + 4, copied[off + 4..off + CELL_HEADER]);
  }

  lemma CellsApart(a: Arena, i: nat, j: nat)
    requires Tiled(a) && i < |a.cells| && j < |a.cells| && i != j
    ensures a.cells[i].End() <= a.cells[j].off || a.cells[j].End() <= a.cells[i].off
  {
    CellsInside(a);
  }

  /** The request does not wrap SIZE_T and stays clear of the slack case. */
  ghost predicate Resizable(a: Arena, n: nat) {
    n < TWO_64 - 15 && Covered(a, CellRequest(n))
  }

  /** Cell i is live with a payload, and there is room for a cell of n payload bytes. */
  ghost predicate ResizeGoesThrough(a: Arena, i: nat, n: nat) {
    i < |a.cells| && CanHold(a.cells[i], 1) && n > 0 && Taken(a, CellRequest(n)) < |a.cells|
  }

  /** After the allocation the old cell is still there, next to the new one. */
  lemma OldAndNew(a: Arena, i: nat, n: nat) returns (p: nat, q: nat)
    requires Tiled(a) && Resizable(a, n) && ResizeGoesThrough(a, i, n)
    ensures var (b, to) := Allocate(a, CellRequest(n));
      && Tiled(b) && p < |b.cells| && q < |b.cells| && p != q
      && b.cells[p] == a.cells[i] && b.cells[q] == Allocated(to, CellRequest(n))
      && Kept(a, b, a.cells[i])
      && Allocated(to, CellRequest(n)) !in Live(a.cells)
  {
    hide NoAdjacentFree, Allocate, AlignUp8, Taken, CellRequest, Tiled, Covered, Kept;
    var c, need := a.cells[i], CellRequest(n);
    var (b, to) := Allocate(a, need);
    var t := Allocated(to, need);
    assert c in Live(a.cells) && AlignUp8(need) == need;
    AllocateKeeps(a, need);
    p := LiveIndex(b.cells, c);
    q := LiveIndex(b.cells, t);
  }

  /** The arena of HiveResizeCell just before the old cell is freed. */
  ghost function BothCells(a: Arena, i: nat, n: nat): (r: Arena)
    requires Tiled(a) && Resizable(a, n) && ResizeGoesThrough(a, i, n)
  {
    CellsForResize(a, i, n);
    Moved(Allocate(a, CellRequest(n)).0, a.cells[i].off, Allocate(a, CellRequest(n)).1, PayloadKept(a.cells[i], n))
  }

  lemma CellsForResize(a: Arena, i: nat, n: nat)
    requires Tiled(a) && Resizable(a, n) && ResizeGoesThrough(a, i, n)
    ensures var (b, to) := Allocate(a, CellRequest(n));
      var k := PayloadKept(a.cells[i], n);
      a.cells[i].off + CELL_HEADER + k <= |b.m| && to + CELL_HEADER + k <= |b.m|
  {
    hide Allocate, CellRequest, PayloadKept, Tiled, Covered, Kept, Taken;
    var p, q := OldAndNew(a, i, n);
    CellInside(Allocate(a, CellRequest(n)).0, p);
    CellInside(Allocate(a, CellRequest(n)).0, q);
  }

  /** Before the old cell is freed both cells are live, and nothing else has changed. */
  lemma BothCellsKeep(a: Arena, i: nat, n: nat)
    requires Tiled(a) && Resizable(a, n) && ResizeGoesThrough(a, i, n)
    ensures var r, to := BothCells(a, i, n), Allocate(a, CellRequest(n)).1;
      && to >= HIVE_HEADER
      && Tiled(r) && r.hi == a.hi && |r.m| == |a.m|
      && Live(r.cells) == Live(a.cells) + {Allocated(to, CellRequest(n))}
      && Allocated(to, CellRequest(n)) !in Live(a.cells)
      && KeptExcept(a, r, {})
      && (NoAdjacentFree(a.cells) ==> NoAdjacentFree(r.cells))
      && CarriedOver(a.m, a.cells[i].off, r.m, to, PayloadKept(a.cells[i], n))
  {
    hide KeptExcept, NoAdjacentFree, Allocate, AlignUp8, Taken, CellRequest, PayloadKept, Tiled, Covered, CarriedOver,
         Kept, Live, Apart;
    var c, need := a.cells[i], CellRequest(n);
    var (b, to) := Allocate(a, need);
    var t := Allocated(to, need);
    var k := PayloadKept(c, n);
    AllocateKeeps(a, need);
    var p, q := OldAndNew(a, i, n);
    MovedKeeps(b, p, q, k);
    var r := BothCells(a, i, n);
    KeptTwice(a, b, r, {}, {t});
    assert {} + {t} == {t};
    KeptFewer(a, r, {t}, {});
    CarriedFrom(a, b, c, r.m, to, k);
  }

  lemma CarriedFrom(a: Arena, b: Arena, c: Cell, r: Image, to: nat, k: nat)
    requires Kept(a, b, c) && k + CELL_HEADER <= c.Len()
    requires CarriedOver(b.m, c.off, r, to, k)
    ensures CarriedOver(a.m, c.off, r, to, k)
  {
    hide CellBytes, Live;
    KeptSlice(a, b, c, c.off + CELL_HEADER, c.off + CELL_HEADER + k);
    KeptSlice(a, b, c, c.off + 4, c.off + CELL_HEADER);
  }

  lemma CarriedInto(m: Image, off: nat, a: Arena, b: Arena, t: Cell, k: nat)
    requires Kept(a, b, t) && k + CELL_HEADER <= t.Len()
    requires CarriedOver(m, off, a.m, t.off, k)
    ensures CarriedOver(m, off, b.m, t.off, k)
  {
    hide CellBytes, Live;
    KeptSlice(a, b, t, t.off + CELL_HEADER, t.off + CELL_HEADER + k);
    KeptSlice(a, b, t, t.off + 4, t.off + CELL_HEADER);
  }

  /** HiveResizeCell: a new cell of n payload bytes takes over signature, flags and the
      first min(old, new) payload bytes of the cell at off, which is then freed. */
  ghost function Resize(a: Arena, off: nat, n: nat): (r: (Arena, nat))
    requires Tiled(a) && Resizable(a, n)
  {
    var i := IndexAt(a.cells, off);
    if ResizeGoesThrough(a, i, n) then
      BothCellsKeep(a, i, n);
      (Free(BothCells(a, i, n), off), Allocate(a, CellRequest(n)).1)
    else (a, 0)
  }

  /** A successful resize swaps one extent for another, carries over the payload prefix,
      signature and flags, and leaves every other live cell as it was. */
  lemma ResizeKeeps(a: Arena, i: nat, n: nat)
    requires Tiled(a) && Resizable(a, n) && ResizeGoesThrough(a, i, n)
    ensures var c, (r, to) := a.cells[i], Resize(a, a.cells[i].off, n);
      && to >= HIVE_HEADER
      && Tiled(r) && r.hi == a.hi && |r.m| == |a.m|
      && Live(r.cells) == Live(a.cells) - {c} + {Allocated(to, CellRequest(n))}
      && Allocated(to, CellRequest(n)) !in Live(a.cells)
      && (NoAdjacentFree(a.cells) ==> NoAdjacentFree(r.cells))
      && KeptExcept(a, r, {c})
      && CarriedOver(a.m, c.off, r.m, to, PayloadKept(c, n))
    ensures var (r, to) := Resize(a, a.cells[i].off, n); PrefixCarried(a.m, a.cells[i], r.m, to, n)
  {
    hide KeptExcept, NoAdjacentFree, Tiled, Allocate, BothCells, Free, AlignUp8, Taken, IndexAt, PayloadKept,
         CarriedOver, CellRequest, Live, Covered, Kept, PrefixCarried;
    var c := a.cells[i];
    IndexAtCell(a, i);
    BothCellsKeep(a, i, n);
    var moved := BothCells(a, i, n);
    var r, to := Free(moved, c.off), Allocate(a, CellRequest(n)).1;
    var t := Allocated(to, CellRequest(n));
    InLive(a.cells, i);
    var p := LiveIndex(moved.cells, c);
    FreeKeeps(moved, p);
    KeptTwice(a, moved, r, {}, {c});
    assert {} + {c} == {c};
    KeptCell(moved, r, {c}, t);
    CarriedInto(a.m, c.off, moved, r, t, PayloadKept(c, n));
    CellInside(a, i);
    PrefixOfKept(a.m, c, r.m, to, n);
  }

  /** Byte by byte: what the old cell holds of the payload, as far as the new one was asked to hold
      it, and signature and flags. */
  ghost predicate PrefixCarried(m: Image, c: Cell, r: Image, to: nat, n: nat) {
    && c.End() <= |m| && to + 8 <= |r|
    && (to + 8 + n <= |r| || to + c.Len() <= |r|)
    && (forall p :: to + 8 <= p < |r| && p < to + 8 + n && p < to + c.Len() ==> r[p] == m[p - to + c.off])
    && (c.Len() >= 8 ==> forall p :: to + 4 <= p < to + 8 ==> r[p] == m[p - to + c.off])
  }

  lemma PrefixOfKept(m: Image, c: Cell, r: Image, to: nat, n: nat)
    requires c.size <= 0 - CELL_HEADER && c.End() <= |m|
    requires CarriedOver(m, c.off, r, to, PayloadKept(c, n))
    ensures PrefixCarried(m, c, r, to, n)
  {
    var k := PayloadKept(c, n);
    var x, y := r[to + CELL_HEADER..to + CELL_HEADER + k], m[c.off + CELL_HEADER..c.off + CELL_HEADER + k];
    forall p | to + 8 <= p < |r| && p < to + 8 + n && p < to + c.Len()
      ensures r[p] == m[p - to + c.off]
    {
      assert r[p] == x[p - to - CELL_HEADER] == y[p - to - CELL_HEADER];
    }
    forall p | to + 4 <= p < to + 8
      ensures r[p] == m[p - to + c.off]
    {
      assert r[p] == r[to + 4..to + CELL_HEADER][p - to - 4] == m[c.off + 4..c.off + CELL_HEADER][p - to - 4];
    }
  }

  lemma CarriedSlice(m: Image, c: Cell, r: Image, to: nat, n: nat, k: nat)
    requires PrefixCarried(m, c, r, to, n) && k <= n && k + 8 <= c.Len()
    ensures to + 8 + k <= |r| && r[to + 8..to + 8 + k] == m[c.off + 8..c.off + 8 + k]
  {
    var x, y := r[to + 8..to + 8 + k], m[c.off + 8..c.off + 8 + k];
    forall q | 0 <= q < k
      ensures x[q] == y[q]
    {
      assert x[q] == r[to + 8 + q];
      assert y[q] == m[c.off + 8 + q];
    }
  }

  /** The same in slices: every prefix of k bytes that fits both sizes is carried over. */
  lemma ResizeCarries(a: Arena, i: nat, n: nat, k: nat)
    requires Tiled(a) && Resizable(a, n) && ResizeGoesThrough(a, i, n)
    requires k <= n && k + 8 <= a.cells[i].Len()
    ensures var c, (r, to) := a.cells[i], Resize(a, a.cells[i].off, n);
      && c.off + 8 + k <= |a.m| && to + 8 + k <= |r.m|
      && r.m[to + 8..to + 8 + k] == a.m[c.off + 8..c.off + 8 + k]
  {
    hide KeptExcept, NoAdjacentFree, Tiled, Live, Resize, Taken, Resizable, PayloadKept, PrefixCarried;
    ResizeKeeps(a, i, n);
    CellInside(a, i);
    CarriedSlice(a.m, a.cells[i], Resize(a, a.cells[i].off, n).0.m, Resize(a, a.cells[i].off, n).1, n, k);
  }

  lemma InLive(cs: seq<Cell>, i: nat)
    requires i < |cs| && cs[i].size < 0
    ensures cs[i] in Live(cs)
  {
  }

  // ----- Runs

  datatype Op =
    | AllocateOp(n: nat)
    | FreeOp(off: nat)
    | WriteOp(off: nat, data: Image)
    | ResizeOp(off: nat, n: nat)

  /** Allocations stay clear of the slack case, and offsets are addressable. */
  ghost predicate Legal(a: Arena, op: Op) {
    match op
    case AllocateOp(n) => Covered(a, n)
    case FreeOp(off) => Addressable(a, off)
    case WriteOp(off, _) => Addressable(a, off)
    case ResizeOp(off, n) => Addressable(a, off) && Resizable(a, n)
  }

  /** The offset an operation is aimed at; an allocation is aimed at none. */
  function Target(op: Op): int {
    match op
    case AllocateOp(_) => -1
    case FreeOp(off) => off
    case WriteOp(off, _) => off
    case ResizeOp(off, _) => off
  }

  ghost function Step(a: Arena, op: Op): Arena
    requires Tiled(a) && Legal(a, op)
  {
    match op
    case AllocateOp(n) => Allocate(a, n).0
    case FreeOp(off) => Free(a, off)
    case WriteOp(off, data) => Write(a, off, data)
    case ResizeOp(off, n) => Resize(a, off, n).0
  }

  lemma StepKeeps(a: Arena, op: Op)
    requires Tiled(a) && Legal(a, op)
    ensures var b := Step(a, op);
      && Tiled(b) && b.hi == a.hi
      && (NoAdjacentFree(a.cells) ==> NoAdjacentFree(b.cells))
      && KeptExcept(a, b, LiveAt(a, Target(op)))
  {
    hide KeptExcept, NoAdjacentFree, Tiled, Allocate, Free, Write, Resize, Taken, IndexAt, Resizable,
         CellRequest, Live, Covered, Kept, LiveAt, CarriedOver, Apart, AlignUp8;
    KeptAsIs(a);
    KeptFewer(a, a, {}, LiveAt(a, Target(op)));
    match op
    case AllocateOp(n) =>
      if Taken(a, n) < |a.cells| {
        AllocateKeeps(a, n);
        KeptFewer(a, Step(a, op), {}, LiveAt(a, Target(op)));
      } else {
        NothingTaken(a, n);
      }
    case FreeOp(off) =>
      var i := IndexAt(a.cells, off);
      if i < |a.cells| && a.cells[i].size < 0 {
        FreeKeeps(a, i);
        AimedAt(a, i);
        KeptFewer(a, Step(a, op), {a.cells[i]}, LiveAt(a, off));
      } else {
        NothingFreed(a, off);
      }
    case WriteOp(off, data) =>
      WriteKeeps(a, off, data);
    case ResizeOp(off, n) =>
      var i := IndexAt(a.cells, off);
      if ResizeGoesThrough(a, i, n) {
        ResizeKeeps(a, i, n);
        AimedAt(a, i);
        KeptFewer(a, Step(a, op), {a.cells[i]}, LiveAt(a, off));
      } else {
        NothingResized(a, off, n);
      }
  }

  lemma NothingTaken(a: Arena, n: nat)
    requires Tiled(a) && Taken(a, n) == |a.cells|
    ensures Allocate(a, n).0 == a
  {
  }

  lemma NothingFreed(a: Arena, off: nat)
    requires Tiled(a)
    requires var i := IndexAt(a.cells, off); !(i < |a.cells| && a.cells[i].size < 0)
    ensures Free(a, off) == a
  {
  }

  lemma NothingResized(a: Arena, off: nat, n: nat)
    requires Tiled(a) && Resizable(a, n) && !ResizeGoesThrough(a, IndexAt(a.cells, off), n)
    ensures Resize(a, off, n) == (a, 0)
  {
  }

  lemma AimedAt(a: Arena, i: nat)
    requires i < |a.cells| && a.cells[i].size < 0
    ensures a.cells[i] in LiveAt(a, a.cells[i].off)
  {
  }

  ghost predicate LegalRun(a: Arena, ops: seq<Op>)
    requires Tiled(a)
    decreases |ops|
  {
    ops == [] || (Legal(a, ops[0]) && (StepKeeps(a, ops[0]); LegalRun(Step(a, ops[0]), ops[1..])))
  }

  ghost function Run(a: Arena, ops: seq<Op>): Arena
    requires Tiled(a) && LegalRun(a, ops)
    decreases |ops|
  {
    if ops == [] then a else
      StepKeeps(a, ops[0]);
      Run(Step(a, ops[0]), ops[1..])
  }

  /** Any run keeps the headers tiling the arena and free space fully merged. */
  lemma {:induction false} RunCanonical(a: Arena, ops: seq<Op>)
    requires Canonical(a) && LegalRun(a, ops)
    ensures Canonical(Run(a, ops)) && Run(a, ops).hi == a.hi
    decreases |ops|
  {
    hide NoAdjacentFree, Tiled, Step, KeptExcept, Legal;
    if ops != [] {
      StepKeeps(a, ops[0]);
      RunCanonical(Step(a, ops[0]), ops[1..]);
    }
  }

  /** Two runs that leave the same extents live leave the same cell map, whatever they did. */
  lemma RunsMeet(a: Arena, b: Arena, ops: seq<Op>, other: seq<Op>)
    requires Canonical(a) && Canonical(b) && a.hi == b.hi
    requires LegalRun(a, ops) && LegalRun(b, other)
    requires Live(Run(a, ops).cells) == Live(Run(b, other).cells)
    ensures Run(a, ops).cells == Run(b, other).cells
  {
    hide NoAdjacentFree, Tiled, Step, KeptExcept, Legal, Live, Run, LegalRun;
    RunCanonical(a, ops);
    RunCanonical(b, other);
    MapFromLiveExtents(Run(a, ops), Run(b, other));
  }

  /** A live cell that no operation of a run is aimed at stays live, byte for byte. */
  lemma {:induction false} RunIsolates(a: Arena, ops: seq<Op>, c: Cell)
    requires Tiled(a) && LegalRun(a, ops) && c in Live(a.cells)
    requires forall op | op in ops :: Target(op) != c.off
    ensures Kept(a, Run(a, ops), c)
    decreases |ops|
  {
    hide Tiled, Step, Legal, Live, KeptExcept, NoAdjacentFree, CellBytes;
    if ops == [] {
      KeptAsIs(a);
      KeptCell(a, a, {}, c);
    } else {
      var b := Step(a, ops[0]);
      StepKeeps(a, ops[0]);
      assert Target(ops[0]) != c.off;
      NotLiveAt(a, Target(ops[0]), c);
      KeptCell(a, b, LiveAt(a, Target(ops[0])), c);
      RunIsolates(b, ops[1..], c);
    }
  }

  lemma NotLiveAt(a: Arena, off: int, c: Cell)
    requires c.off != off
    ensures c !in LiveAt(a, off)
  {
  }

  /** HiveBinReadData at the start of a cell; None stands for its error statuses. */
  datatype ReadResult = Data(bytes: Image) | NoData

  ghost function Read(a: Arena, off: nat, n: nat): ReadResult
    requires Tiled(a)
  {
    CellsInside(a);
    var i := IndexAt(a.cells, off);
    if n > 0 && i < |a.cells| && CanHold(a.cells[i], n)
    then Data(a.m[off + CELL_HEADER..off + CELL_HEADER + n]) else NoData
  }

  /** A read of n bytes at a cell succeeds exactly when the cell is live and its payload is that
      long, and gives the bytes behind the header. */
  lemma ReadsExactly(a: Arena, i: nat, n: nat)
    requires Tiled(a) && i < |a.cells| && n > 0
    ensures a.cells[i].End() <= |a.m|
    ensures Read(a, a.cells[i].off, n)
         == if a.cells[i].size < 0 && n + 8 <= -a.cells[i].size
            then Data(a.m[a.cells[i].off + 8..a.cells[i].off + 8 + n]) else NoData
  {
    hide Tiled, IndexAt;
    IndexAtCell(a, i);
    CellInside(a, i);
  }

  /** What was written to a live cell is read back after any run aimed at other cells. */
  lemma WriteThenReadBack(a: Arena, i: nat, data: Image, ops: seq<Op>)
    requires Tiled(a) && i < |a.cells| && CanHold(a.cells[i], |data|) && data != []
    requires Tiled(Write(a, a.cells[i].off, data))
    requires LegalRun(Write(a, a.cells[i].off, data), ops)
    requires forall op | op in ops :: Target(op) != a.cells[i].off
    ensures Tiled(Run(Write(a, a.cells[i].off, data), ops))
    ensures Read(Run(Write(a, a.cells[i].off, data), ops), a.cells[i].off, |data|) == Data(data)
  {
    hide Tiled, Step, Legal, KeptExcept, NoAdjacentFree, CellBytes, Run, LegalRun, Blit, IndexAt;
    var c := a.cells[i];
    var b := Write(a, c.off, data);
    var r := Run(b, ops);
    WriteKeeps(a, c.off, data);
    IndexAtCell(a, i);
    CellInside(a, i);
    BlitSlice(a.m, c.off + CELL_HEADER, data, c.off + CELL_HEADER, c.off + CELL_HEADER + |data|);
    assert data[0..|data|] == data;
    RunTiled(b, ops);
    RunIsolates(b, ops, c);
    KeptSlice(b, r, c, c.off + CELL_HEADER, c.off + CELL_HEADER + |data|);
    var j := LiveIndex(r.cells, c);
    IndexAtCell(r, j);
  }

  lemma {:induction false} RunTiled(a: Arena, ops: seq<Op>)
    requires Tiled(a) && LegalRun(a, ops)
    ensures Tiled(Run(a, ops))
    decreases |ops|
  {
    hide NoAdjacentFree, Tiled, Step, KeptExcept, Legal;
    if ops != [] {
      StepKeeps(a, ops[0]);
      RunTiled(Step(a, ops[0]), ops[1..]);
    }
  }

  /** A resize may be part of a run when its request does not wrap and the allocation in it leaves
      an arena tiled. */
  lemma ResizableMeans(a: Arena, n: nat)
    requires Tiled(a)
    ensures Resizable(a, n) <==> n < TWO_64 - 15 && Tiled(Allocate(a, CellRequest(n)).0)
  {
    hide Tiled, Allocate, CellRequest;
    AllocateTiled(a, CellRequest(n));
  }

  /** The operations a run may contain. */
  lemma LegalMeans(a: Arena, op: Op)
    requires Tiled(a)
    ensures op.AllocateOp? ==> (Legal(a, op) <==> Tiled(Allocate(a, op.n).0))
    ensures op.FreeOp? || op.WriteOp? ==>
      (Legal(a, op) <==> op.off == 0 || op.off >= a.hi || exists i :: 0 <= i < |a.cells| && a.cells[i].off == op.off)
    ensures op.ResizeOp? ==>
      (Legal(a, op) <==>
        && (op.off == 0 || op.off >= a.hi || exists i :: 0 <= i < |a.cells| && a.cells[i].off == op.off)
        && op.n < TWO_64 - 15 && Tiled(Allocate(a, CellRequest(op.n)).0))
  {
    hide Tiled, Allocate, CellRequest, Covered, Resizable;
    match op
    case AllocateOp(n) => AllocateTiled(a, n);
    case FreeOp(off) =>
    case WriteOp(off, data) =>
    case ResizeOp(off, n) => ResizableMeans(a, n);
  }

  /** As a run: allocating and freeing the result leaves the cell map and every live cell as they
      were. */
  lemma {:induction false} AllocateFreeRun(a: Arena, n: nat)
    requires Canonical(a) && Covered(a, n) && Allocate(a, n).1 != 0
    ensures var ops := [AllocateOp(n), FreeOp(Allocate(a, n).1)];
      LegalRun(a, ops) && Run(a, ops).cells == a.cells && KeptExcept(a, Run(a, ops), {})
  {
    hide Canonical, Tiled, Allocate, Free, KeptExcept, Covered, NoAdjacentFree, Taken, Live;
    CanonicalIsTiled(a);
    var off := Allocate(a, n).1;
    var first, second := AllocateOp(n), FreeOp(off);
    assert [first, second][1..] == [second] && [second][1..] == [];
    StepKeeps(a, first);
    TakenAtAll(a, n);
    AllocateThenFree(a, n);
    NewIsAddressable(a, n);
    StepKeeps(Allocate(a, n).0, second);
    assert LegalRun(Free(Allocate(a, n).0, off), []);
    assert LegalRun(Allocate(a, n).0, [second]);
    assert Run(Allocate(a, n).0, [second]) == Free(Allocate(a, n).0, off);
  }

  lemma CanonicalIsTiled(a: Arena)
    requires Canonical(a)
    ensures Tiled(a)
  {
  }

  lemma TakenAtAll(a: Arena, n: nat)
    requires Tiled(a) && Allocate(a, n).1 != 0
    ensures Taken(a, n) < |a.cells|
  {
  }

  lemma NewIsAddressable(a: Arena, n: nat)
    requires Tiled(a) && Covered(a, n) && Allocate(a, n).1 != 0
    ensures Addressable(Allocate(a, n).0, Allocate(a, n).1)
  {
    hide Tiled, Allocate, Live, KeptExcept, NoAdjacentFree, Covered, Apart, AlignUp8, Taken;
    TakenAtAll(a, n);
    AllocateKeeps(a, n);
    var i := LiveIndex(Allocate(a, n).0.cells, Allocated(Allocate(a, n).1, AlignUp8(n)));
    IndexAtCell(Allocate(a, n).0, i);
  }

  // ----- Alignment

  /** Live extents inside live extents that start and end on multiples of 8. */
  lemma AlignedFewer(cs: seq<Cell>, ds: seq<Cell>, c: Cell)
    requires AlignedLive(cs) && Live(ds) <= Live(cs) + {c} && c.off % 8 == 0 && c.Len() % 8 == 0
    ensures AlignedLive(ds)
  {
    forall i | 0 <= i < |ds| && ds[i].size < 0
      ensures ds[i].off % 8 == 0 && ds[i].Len() % 8 == 0
    {
      assert ds[i] in Live(ds);
      if ds[i] != c {
        var j := LiveIndex(cs, ds[i]);
      }
    }
  }

  /** Merged free space starts where a live cell ends, or at the hive header. */
  lemma FreeStartAligned(a: Arena, i: nat)
    requires Canonical(a) && AlignedLive(a.cells) && i < |a.cells| && a.cells[i].size > 0
    ensures a.cells[i].off % 8 == 0
  {
    hide Headers;
    if i > 0 {
      assert a.cells[i - 1].End() == a.cells[i].off;
      assert a.cells[i - 1].Len() >= CELL_HEADER;
    }
  }

  lemma AllocatedAligned(a: Arena, n: nat)
    requires Canonical(a) && AlignedLive(a.cells) && Taken(a, n) < |a.cells|
    ensures Allocate(a, n).1 % 8 == 0
  {
    hide Tiled, NoAdjacentFree, PlaceAt, Canonical, AlignUp8;
    FreeStartAligned(a, Taken(a, n));
  }

  lemma StepAligned(a: Arena, op: Op)
    requires Canonical(a) && Legal(a, op) && AlignedLive(a.cells)
    ensures AlignedLive(Step(a, op).cells)
  {
    hide NoAdjacentFree, Tiled, Allocate, Free, Write, Resize, Taken, IndexAt, Resizable, KeptExcept,
         CellRequest, Live, Covered, CarriedOver, Apart, AlignUp8, AlignedLive;
    match op
    case AllocateOp(n) =>
      if Taken(a, n) < |a.cells| {
        AllocateKeeps(a, n);
        AllocatedAligned(a, n);
        AlignedFewer(a.cells, Step(a, op).cells, Allocated(Allocate(a, n).1, AlignUp8(n)));
      } else {
        NothingTaken(a, n);
      }
    case FreeOp(off) =>
      var i := IndexAt(a.cells, off);
      if i < |a.cells| && a.cells[i].size < 0 {
        FreeKeeps(a, i);
        AlignedFewer(a.cells, Step(a, op).cells, Cell(0, 0));
      } else {
        NothingFreed(a, off);
      }
    case WriteOp(off, data) => WriteKeeps(a, off, data);
    case ResizeOp(off, n) => ResizeAligned(a, off, n);
  }

  lemma ResizeAligned(a: Arena, off: nat, n: nat)
    requires Canonical(a) && Addressable(a, off) && Resizable(a, n) && AlignedLive(a.cells)
    ensures AlignedLive(Resize(a, off, n).0.cells)
  {
    hide NoAdjacentFree, Tiled, Allocate, Free, Taken, IndexAt, KeptExcept, CellRequest, Live, Covered, CarriedOver,
         AlignUp8, AlignedLive, BothCells;
    var i := IndexAt(a.cells, off);
    if ResizeGoesThrough(a, i, n) {
      ResizeKeeps(a, i, n);
      ResizeTakes(a, i, n);
      AllocatedAligned(a, CellRequest(n));
      RequestAligned(n);
      AlignedFewer(a.cells, Resize(a, off, n).0.cells, Allocated(Resize(a, off, n).1, CellRequest(n)));
    } else {
      NothingResized(a, off, n);
    }
  }

  lemma ResizeTakes(a: Arena, i: nat, n: nat)
    requires Tiled(a) && Resizable(a, n) && ResizeGoesThrough(a, i, n)
    ensures Taken(a, CellRequest(n)) < |a.cells|
    ensures Resize(a, a.cells[i].off, n).1 == Allocate(a, CellRequest(n)).1
  {
    hide Tiled, Allocate, Free, BothCells, CellRequest;
    IndexAtCell(a, i);
  }

  lemma RequestAligned(n: nat)
    ensures CellRequest(n) % 8 == 0
  {
  }

  /** Over any run from merged space every live cell starts and ends on a multiple of 8. */
  lemma {:induction false} RunAligned(a: Arena, ops: seq<Op>)
    requires Canonical(a) && LegalRun(a, ops) && AlignedLive(a.cells)
    ensures Canonical(Run(a, ops)) && AlignedLive(Run(a, ops).cells)
    decreases |ops|
  {
    hide NoAdjacentFree, Tiled, Step, KeptExcept, Legal, AlignedLive;
    if ops != [] {
      StepKeeps(a, ops[0]);
      StepAligned(a, ops[0]);
      RunAligned(Step(a, ops[0]), ops[1..]);
    }
  }

  // ----- HiveCreate

  /** The arena HiveCreate sets up: one free cell after the hive header. */
  function Created(hi: nat): (a: Arena)
    requires HIVE_HEADER + CELL_HEADER <= hi < TWO_31
  {
    Arena(PutHeader(seq(hi, _ => 0), HIVE_HEADER, hi - HIVE_HEADER), [Cell(HIVE_HEADER, hi - HIVE_HEADER)], hi)
  }

  lemma CreatedSize(hi: nat)
    requires HIVE_HEADER + CELL_HEADER <= hi < TWO_31
    ensures |Created(hi).m| == Created(hi).hi == hi
  {
  }

  lemma CreatedCanonical(hi: nat)
    requires HIVE_HEADER + CELL_HEADER <= hi < TWO_31
    ensures Canonical(Created(hi)) && Live(Created(hi).cells) == {}
  {
    hide PutHeader, ReadI32, SameOutside;
    PutHeaderReads(seq(hi, _ => 0), HIVE_HEADER, hi - HIVE_HEADER);
  }

  /** From a fresh hive, any run that frees everything it allocated ends in the single
      free cell it started from. */
  lemma AllFreedIsFresh(hi: nat, ops: seq<Op>)
    requires HIVE_HEADER + CELL_HEADER <= hi < TWO_31
    requires Tiled(Created(hi)) && LegalRun(Created(hi), ops)
    requires Live(Run(Created(hi), ops).cells) == {}
    ensures Run(Created(hi), ops).cells == [Cell(HIVE_HEADER, hi - HIVE_HEADER)]
  {
    hide Tiled, Live, NoAdjacentFree, LegalRun, Run;
    CreatedCanonical(hi);
    RunCanonical(Created(hi), ops);
    MapFromLiveExtents(Run(Created(hi), ops), Created(hi));
  }

  /** Every hive a run can reach has its live cells on multiples of 8. */
  lemma ReachedAligned(hi: nat, ops: seq<Op>)
    requires HIVE_HEADER + CELL_HEADER <= hi < TWO_31
    requires Tiled(Created(hi)) && LegalRun(Created(hi), ops)
    ensures Canonical(Run(Created(hi), ops)) && AlignedLive(Run(Created(hi), ops).cells)
  {
    hide Tiled, NoAdjacentFree, LegalRun, Run;
    CreatedCanonical(hi);
    RunAligned(Created(hi), ops);
  }
}
