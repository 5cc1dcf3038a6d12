/** Value cells: the VALUE_CELL record stored in the payload of a hive cell, its data
    inline up to four bytes and in a cell of its own above that. */
module HiveValues {
  import opened ByteMemory
  import opened CellMap
  import opened HiveArena
  import opened HiveRuns

  // CellTypeValue, sizeof(VALUE_CELL), HIVE_MAX_NAME_LENGTH
  const VALUE_SIGNATURE: int := 0x6B76
  const VALUE_CELL: int := 32
  const MAX_NAME: int := 255

  // Offsets from the start of the cell; the record begins CELL_HEADER bytes in
  const SIGNATURE_AT: int := 4
  const FLAGS_AT: int := 6
  const NAME_LENGTH_AT: int := 16
  const DATA_LENGTH_AT: int := 20
  const DATA_OFFSET_AT: int := 24
  const TYPE_AT: int := 28
  const VALUE_FLAGS_AT: int := 32
  const SPARE_AT: int := 34
  const NAME_AT: int := 36

  /** A possibly NULL pointer to bytes. */
  datatype Buffer = Null | Bytes(bytes: Image)

  /** Bytes expected at an offset. */
  datatype Field = Field(at: nat, bytes: Image)

  ghost predicate HoldsField(m: Image, f: Field) {
    f.at + |f.bytes| <= |m| && m[f.at..f.at + |f.bytes|] == f.bytes
  }

  ghost predicate Holds(m: Image, fs: seq<Field>) {
    forall i :: 0 <= i < |fs| ==> HoldsField(m, fs[i])
  }

  ghost predicate ClearOf(f: Field, at: nat, n: nat) {
    f.at + |f.bytes| <= at || at + n <= f.at
  }

  ghost predicate Clear(fs: seq<Field>, at: nat, n: nat) {
    forall i :: 0 <= i < |fs| ==> ClearOf(fs[i], at, n)
  }

  /** All fields lie inside cell c. */
  ghost predicate Within(fs: seq<Field>, c: Cell) {
    forall i :: 0 <= i < |fs| ==> c.off <= fs[i].at && fs[i].at + |fs[i].bytes| <= c.End()
  }

  lemma HoldsAfterBlit(m: Image, fs: seq<Field>, at: nat, bs: Image)
    requires Holds(m, fs) && Clear(fs, at, |bs|) && at + |bs| <= |m|
    ensures Holds(Blit(m, at, bs), fs + [Field(at, bs)])
  {
    hide Blit;
    var r, gs := Blit(m, at, bs), fs + [Field(at, bs)];
    forall i | 0 <= i < |gs|
      ensures HoldsField(r, gs[i])
    {
      if i < |fs| {
        assert HoldsField(m, fs[i]) && ClearOf(fs[i], at, |bs|);
        BlitSlice(m, at, bs, fs[i].at, fs[i].at + |fs[i].bytes|);
      } else {
        BlitSlice(m, at, bs, at, at + |bs|);
        assert bs[0..|bs|] == bs;
      }
    }
  }

  lemma HoldsKept(a: Arena, b: Arena, c: Cell, fs: seq<Field>)
    requires Kept(a, b, c) && Within(fs, c) && Holds(a.m, fs)
    ensures Holds(b.m, fs)
  {
    hide Live, CellBytes;
    forall i | 0 <= i < |fs|
      ensures HoldsField(b.m, fs[i])
    {
      assert HoldsField(a.m, fs[i]);
      KeptSlice(a, b, c, fs[i].at, fs[i].at + |fs[i].bytes|);
    }
  }

  /** Fields of one cell are clear of writes into another. */
  lemma ClearOfOther(fs: seq<Field>, c: Cell, d: Cell, at: nat, n: nat)
    requires Within(fs, c) && (c.End() <= d.off || d.End() <= c.off)
    requires d.off <= at && at + n <= d.End()
    ensures Clear(fs, at, n)
  {
  }

  lemma ClearMore(fs: seq<Field>, f: Field, at: nat, n: nat)
    requires Clear(fs, at, n) && ClearOf(f, at, n)
    ensures Clear(fs + [f], at, n)
  {
  }

  /** The fields every value cell gets: all but the data offset and the name. */
  function RecordFields(off: nat, nameLength: nat, typ: nat, dataSize: nat): seq<Field> {
    [Field(off + SIGNATURE_AT, Encode(VALUE_SIGNATURE, 2)), Field(off + FLAGS_AT, Encode(0, 2)),
     Field(off + NAME_LENGTH_AT, Encode(nameLength, 2)), Field(off + DATA_LENGTH_AT, Encode(dataSize, 4)),
     Field(off + TYPE_AT, Encode(typ, 4)), Field(off + VALUE_FLAGS_AT, Encode(0, 2)),
     Field(off + SPARE_AT, Encode(0, 2))]
  }

  lemma RecordClear(off: nat, nameLength: nat, typ: nat, dataSize: nat, n: nat)
    ensures forall k :: 0 <= k < 7 ==>
      var fs := RecordFields(off, nameLength, typ, dataSize);
      Clear(fs[..k], fs[k].at, |fs[k].bytes|)
    ensures Clear(RecordFields(off, nameLength, typ, dataSize), off + DATA_OFFSET_AT, 4)
    ensures Clear(RecordFields(off, nameLength, typ, dataSize), off + NAME_AT, n)
  {
  }

  /** Data of more than four bytes goes to a cell of its own. */
  predicate NeedsDataCell(data: Buffer, dataSize: nat) {
    data.Bytes? && dataSize > 4
  }

  /** Where the data of a value is kept. */
  function DataFields(off: nat, data: Buffer, dataSize: nat, dataOff: nat): seq<Field> {
    if NeedsDataCell(data, dataSize) then
      [Field(dataOff + CELL_HEADER, data.bytes), Field(off + DATA_OFFSET_AT, Encode(dataOff, 4))]
    else if data.Bytes? && dataSize > 0 then [Field(off + DATA_OFFSET_AT, data.bytes)]
    else [Field(off + DATA_OFFSET_AT, Encode(0, 4))]
  }

  function ValueFields(off: nat, name: Image, typ: nat, data: Buffer, dataSize: nat, dataOff: nat): seq<Field> {
    RecordFields(off, |name|, typ, dataSize) + DataFields(off, data, dataSize, dataOff) + [Field(off + NAME_AT, name)]
  }

  /** The record at off, its name and its data are what the caller gave. */
  ghost predicate StoresValue(a: Arena, off: nat, name: Image, typ: nat, data: Buffer, dataSize: nat, dataOff: nat) {
    && Holds(a.m, ValueFields(off, name, typ, data, dataSize, dataOff))
    && (if NeedsDataCell(data, dataSize) then dataOff >= HIVE_HEADER else dataOff == 0)
  }

  function DataExtent(dataOff: nat, dataSize: nat): Cell {
    Allocated(dataOff, CellRequest(dataSize))
  }

  /** The extents a stored value occupies. */
  function ValueExtents(off: nat, nameLength: nat, dataSize: nat, dataOff: nat): set<Cell> {
    {Allocated(off, CellRequest(VALUE_CELL + nameLength))}
    + if dataOff == 0 then {} else {DataExtent(dataOff, dataSize)}
  }

  /** The header at off can be read, and so can the record if its signature announces one. */
  predicate RecordInside(m: Image, off: nat) {
    off + CELL_HEADER <= |m| && (ReadU16(m, off + SIGNATURE_AT) == VALUE_SIGNATURE ==> off + NAME_AT <= |m|)
  }

  /** The data cell that goes with the cell at off, 0 when there is none. */
  function DataCellOf(m: Image, off: nat): nat
    requires RecordInside(m, off)
  {
    if ReadU16(m, off + SIGNATURE_AT) == VALUE_SIGNATURE
       && ReadU32(m, off + DATA_LENGTH_AT) > 4 && ReadU32(m, off + DATA_OFFSET_AT) != 0
    then ReadU32(m, off + DATA_OFFSET_AT) else 0
  }

  /** What a reader of the record gets: every field decodes to what was stored. */
  lemma ValueReadsBack(a: Arena, off: nat, name: Image, typ: nat, data: Buffer, dataSize: nat, dataOff: nat)
    requires StoresValue(a, off, name, typ, data, dataSize, dataOff)
    requires |name| <= MAX_NAME && typ < TWO_32 && dataSize < TWO_32 && dataOff < TWO_32
    requires data.Bytes? ==> |data.bytes| == dataSize
    ensures off + 36 + |name| <= |a.m|
    ensures ReadU16(a.m, off + 4) == 0x6B76 && ReadU16(a.m, off + 6) == 0
    ensures ReadU16(a.m, off + 16) == |name|
    ensures a.m[off + 36..off + 36 + ReadU16(a.m, off + 16)] == name
    ensures ReadU32(a.m, off + 28) == typ && ReadU32(a.m, off + 20) == dataSize
    ensures ReadU16(a.m, off + 32) == 0 && ReadU16(a.m, off + 34) == 0
    ensures data.Bytes? && 0 < dataSize <= 4 ==> a.m[off + 24..off + 24 + dataSize] == data.bytes
    ensures data.Bytes? && dataSize > 4 ==>
              var at := ReadU32(a.m, off + 24);
              && at == dataOff && at + 8 + dataSize <= |a.m|
              && a.m[at + 8..at + 8 + dataSize] == data.bytes
    ensures data.Null? || dataSize == 0 ==> ReadU32(a.m, off + 24) == 0
    ensures RecordInside(a.m, off) && DataCellOf(a.m, off) == dataOff
  {
    hide Encode, Decode;
    FieldWidths();
    var fs := ValueFields(off, name, typ, data, dataSize, dataOff);
    assert fs[0] == Field(off + SIGNATURE_AT, Encode(VALUE_SIGNATURE, 2));
    assert fs[1] == Field(off + FLAGS_AT, Encode(0, 2)) && fs[5] == Field(off + VALUE_FLAGS_AT, Encode(0, 2));
    assert fs[6] == Field(off + SPARE_AT, Encode(0, 2));
    assert fs[2] == Field(off + NAME_LENGTH_AT, Encode(|name|, 2));
    assert fs[3] == Field(off + DATA_LENGTH_AT, Encode(dataSize, 4));
    assert fs[4] == Field(off + TYPE_AT, Encode(typ, 4)) && fs[|fs| - 1] == Field(off + NAME_AT, name);
    assert fs[7] == DataFields(off, data, dataSize, dataOff)[0];
    assert NeedsDataCell(data, dataSize) ==> fs[8] == DataFields(off, data, dataSize, dataOff)[1];
    DecodeEncode(VALUE_SIGNATURE, 2);
    DecodeEncode(|name|, 2);
    DecodeEncode(dataSize, 4);
    DecodeEncode(typ, 4);
    DecodeEncode(dataOff, 4);
    DecodeEncode(0, 4);
    DecodeEncode(0, 2);
  }

  // ----- HiveDeleteCell

  ghost predicate LiveAtOffset(a: Arena, off: nat) {
    var i := IndexAt(a.cells, off);
    i < |a.cells| && a.cells[i].size < 0
  }

  /** A live cell outlives the freeing of another. */
  lemma StillLive(a: Arena, d: nat, off: nat)
    requires Tiled(a) && LiveAtOffset(a, off) && d != off
    ensures LiveAtOffset(Free(a, d), off)
  {
    hide Tiled, KeptExcept, NoAdjacentFree, ReleaseAt, Live;
    var i, j := IndexAt(a.cells, off), IndexAt(a.cells, d);
    if j < |a.cells| && a.cells[j].size < 0 {
      FreeKeeps(a, j);
      InLive(a.cells, i);
      KeptCell(a, Free(a, d), {a.cells[j]}, a.cells[i]);
      var k := LiveIndex(Free(a, d).cells, a.cells[i]);
      IndexAtCell(Free(a, d), k);
    }
  }

  /** The record at off can be read, and the data cell it names is one that can be freed. */
  ghost predicate Deletable(a: Arena, off: nat) {
    RecordInside(a.m, off) && Addressable(a, DataCellOf(a.m, off))
  }

  /** HiveDeleteCell on a live cell. */
  ghost function Delete(a: Arena, off: nat): (r: Arena)
    requires Tiled(a) && Deletable(a, off)
  {
    var d := DataCellOf(a.m, off);
    if d != 0 then
      FreeTiled(a, d);
      Free(Free(a, d), off)
    else Free(a, off)
  }

  /** Deleting a stored value frees exactly its extents. */
  lemma DeleteFrees(b: Arena, off: nat, name: Image, typ: nat, data: Buffer, dataSize: nat, dataOff: nat)
    requires Tiled(b) && StoresValue(b, off, name, typ, data, dataSize, dataOff)
    requires |name| <= MAX_NAME && typ < TWO_32 && dataSize < TWO_32 && dataOff < TWO_32
    requires data.Bytes? ==> |data.bytes| == dataSize
    requires ValueExtents(off, |name|, dataSize, dataOff) <= Live(b.cells) && off != dataOff
    ensures LiveAtOffset(b, off) && Deletable(b, off)
    ensures var r := Delete(b, off);
      && Tiled(r) && r.hi == b.hi
      && Live(r.cells) == Live(b.cells) - ValueExtents(off, |name|, dataSize, dataOff)
      && KeptExcept(b, r, ValueExtents(off, |name|, dataSize, dataOff))
      && (NoAdjacentFree(b.cells) ==> NoAdjacentFree(r.cells))
  {
    hide Tiled, Live, KeptExcept, NoAdjacentFree, Free, StoresValue, ReadU16, ReadU32, CellRequest, IndexAt;
    ValueReadsBack(b, off, name, typ, data, dataSize, dataOff);
    var v := Allocated(off, CellRequest(VALUE_CELL + |name|));
    var i := LiveIndex(b.cells, v);
    IndexAtCell(b, i);
    LiveSize(b.cells, i);
    FreeKeeps(b, i);
    if dataOff != 0 {
      var d := DataExtent(dataOff, dataSize);
      var j := LiveIndex(b.cells, d);
      LiveSize(b.cells, j);
      FreeKeeps(b, j);
      var mid := Free(b, dataOff);
      KeptCell(b, mid, {d}, v);
      var k := LiveIndex(mid.cells, v);
      LiveSize(mid.cells, k);
      FreeKeeps(mid, k);
      KeptTwice(b, mid, Free(mid, off), {d}, {v});
      assert {d} + {v} == ValueExtents(off, |name|, dataSize, dataOff);
    } else {
      assert {v} == ValueExtents(off, |name|, dataSize, dataOff);
    }
  }

  lemma LiveSize(cs: seq<Cell>, i: nat)
    requires i < |cs| && cs[i] in Live(cs)
    ensures cs[i].size < 0
  {
  }

  /** Creating a value and deleting it restores the exact cell map, and no live cell notices. */
  lemma CreateThenDelete(a: Arena, b: Arena, off: nat, name: Image, typ: nat, data: Buffer, dataSize: nat, dataOff: nat)
    requires Canonical(a) && Canonical(b) && a.hi == b.hi
    requires StoresValue(b, off, name, typ, data, dataSize, dataOff)
    requires |name| <= MAX_NAME && typ < TWO_32 && dataSize < TWO_32 && dataOff < TWO_32
    requires data.Bytes? ==> |data.bytes| == dataSize
    requires Live(b.cells) == Live(a.cells) + ValueExtents(off, |name|, dataSize, dataOff)
    requires ValueExtents(off, |name|, dataSize, dataOff) !! Live(a.cells) && off != dataOff
    requires KeptExcept(a, b, {})
    ensures LiveAtOffset(b, off) && Deletable(b, off)
    ensures Delete(b, off).cells == a.cells && KeptExcept(a, Delete(b, off), {})
  {
    hide Tiled, Live, KeptExcept, NoAdjacentFree, Delete, StoresValue, CellRequest, ValueExtents;
    var gone := ValueExtents(off, |name|, dataSize, dataOff);
    DeleteFrees(b, off, name, typ, data, dataSize, dataOff);
    var r := Delete(b, off);
    assert Live(r.cells) == Live(a.cells);
    MapFromLiveExtents(r, a);
    KeptTwice(a, b, r, {}, gone);
    assert {} + gone == gone;
    KeptFewer(a, r, gone, {});
  }

  // ----- HiveCreateValueCell

  /** Whether an allocation fits depends on the cell map alone. */
  lemma CoveredByCells(a: Arena, b: Arena, n: nat)
    requires a.cells == b.cells
    ensures Covered(a, n) <==> Covered(b, n)
    ensures Taken(a, n) == Taken(b, n)
  {
  }

  /** A stored record survives whatever keeps its cell. */
  lemma RecordKept(a: Arena, b: Arena, v: Cell, fs: seq<Field>, gone: set<Cell>)
    requires KeptExcept(a, b, gone) && v in Live(a.cells) && v !in gone
    requires Within(fs, v) && Holds(a.m, fs)
    ensures Holds(b.m, fs) && v in Live(b.cells)
  {
    hide KeptExcept, Live, Within, Holds;
    KeptCell(a, b, gone, v);
    HoldsKept(a, b, v, fs);
  }

  lemma RecordWithin(off: nat, nameLength: nat, typ: nat, dataSize: nat, v: Cell)
    requires v.off == off && v.Len() >= NAME_AT
    ensures Within(RecordFields(off, nameLength, typ, dataSize), v)
  {
  }

  /** Taking a fresh cell back restores the map it was taken from. */
  lemma GiveBack(a: Arena, b: Arena, i: nat)
    requires Canonical(a) && Canonical(b) && a.hi == b.hi && i < |b.cells|
    requires b.cells[i].size < 0 && b.cells[i] !in Live(a.cells)
    requires Live(b.cells) == Live(a.cells) + {b.cells[i]} && KeptExcept(a, b, {})
    ensures Free(b, b.cells[i].off).cells == a.cells
    ensures KeptExcept(a, Free(b, b.cells[i].off), {})
  {
    hide Tiled, Live, KeptExcept, NoAdjacentFree, Free;
    var c := b.cells[i];
    var r := Free(b, c.off);
    FreeKeeps(b, i);
    MapFromLiveExtents(r, a);
    KeptTwice(a, b, r, {}, {c});
    assert {} + {c} == {c};
    KeptFewer(a, r, {c}, {});
  }

  lemma NoFields(m: Image)
    ensures Holds(m, [])
  {
  }

  lemma HoldsPrefix(m: Image, fs: seq<Field>, f: Field)
    requires Holds(m, fs + [f])
    ensures Holds(m, fs)
  {
    forall i | 0 <= i < |fs|
      ensures HoldsField(m, fs[i])
    {
      assert (fs + [f])[i] == fs[i];
    }
  }

  lemma ClearShorter(fs: seq<Field>, at: nat, n: nat, fewer: nat)
    requires Clear(fs, at, n) && fewer <= n
    ensures Clear(fs, at, fewer)
  {
  }

  /** The name goes clear of everything stored before it. */
  lemma NameClear(off: nat, nameLength: nat, typ: nat, data: Buffer, dataSize: nat, dataOff: nat, v: Cell)
    requires v.off == off && off + NAME_AT + nameLength <= v.End()
    requires data.Bytes? ==> |data.bytes| == dataSize
    requires NeedsDataCell(data, dataSize) ==>
               v.End() <= dataOff + CELL_HEADER || dataOff + CELL_HEADER + dataSize <= off
    ensures Clear(RecordFields(off, nameLength, typ, dataSize) + DataFields(off, data, dataSize, dataOff),
                  off + NAME_AT, nameLength)
  {
    hide Encode, Clear;
    var fs := RecordFields(off, nameLength, typ, dataSize);
    RecordClear(off, nameLength, typ, dataSize, nameLength);
    var ds := DataFields(off, data, dataSize, dataOff);
    ClearMore(fs, ds[0], off + NAME_AT, nameLength);
    if NeedsDataCell(data, dataSize) {
      ClearMore(fs + [ds[0]], ds[1], off + NAME_AT, nameLength);
      assert fs + ds == fs + [ds[0]] + [ds[1]];
    } else {
      assert fs + ds == fs + [ds[0]];
    }
  }

  /** Allocating the data cell: it is new, apart from the record's cell v, and the fields
      stored in v survive. */
  lemma DataCellPlaced(a0: Arena, a: Arena, v: Cell, dataSize: nat, fs: seq<Field>) returns (p: nat, q: nat)
    requires Canonical(a) && 0 < dataSize < TWO_32
    requires Covered(a, CellRequest(dataSize)) && Taken(a, CellRequest(dataSize)) < |a.cells|
    requires v in Live(a.cells) && v !in Live(a0.cells)
    requires Live(a.cells) == Live(a0.cells) + {v} && KeptExcept(a0, a, {})
    requires Within(fs, v) && Holds(a.m, fs)
    ensures var (b, to) := Allocate(a, CellRequest(dataSize));
      var d := DataExtent(to, dataSize);
      && Canonical(b) && b.hi == a.hi && to >= HIVE_HEADER
      && p < |b.cells| && b.cells[p] == v && q < |b.cells| && b.cells[q] == d
      && v.End() <= |b.m| && d.End() <= b.hi <= |b.m| && b.hi < TWO_31
      && to + CELL_HEADER + dataSize <= d.End()
      && KeptExcept(a0, b, {})
      && d !in Live(a0.cells) + {v} && v in Live(b.cells)
      && Live(b.cells) == Live(a0.cells) + {v} + {d}
      && Holds(b.m, fs) && Clear(fs, to + CELL_HEADER, dataSize)
      && (v.End() <= to || to + CellRequest(dataSize) <= v.off)
  {
    hide Tiled, Live, KeptExcept, NoAdjacentFree, Allocate, Taken, Covered, Holds, Within, Clear, AlignUp8;
    var need := CellRequest(dataSize);
    RequestIsAligned(dataSize);
    AllocateKeeps(a, need);
    var (b, to) := Allocate(a, need);
    var d := DataExtent(to, dataSize);
    KeptTwice(a0, a, b, {}, {});
    var none: set<Cell> := {};
    assert none + none == none;
    RecordKept(a, b, v, fs, {});
    p := LiveIndex(b.cells, v);
    q := LiveIndex(b.cells, d);
    CellInside(b, p);
    CellInside(b, q);
    ApartFrom(a.cells, to, need, v);
    ClearOfOther(fs, v, d, to + CELL_HEADER, dataSize);
  }

  lemma ApartFrom(cs: seq<Cell>, off: nat, len: nat, v: Cell)
    requires Apart(cs, off, len) && v in Live(cs)
    ensures v.End() <= off || off + len <= v.off
  {
  }

  lemma RequestIsAligned(n: nat)
    requires 0 < n < TWO_64 - 15
    ensures AlignUp8(CellRequest(n)) == CellRequest(n)
  {
  }
}
