/** The hive of a given cell map whose bytes are all zero but for the headers: the payload on
    which the code's failing cases fail for certain. */
module HiveBlank {
  import opened ByteMemory
  import opened CellMap
  import opened HiveArena

  /** A buffer with the headers of cs and nothing but zeros besides. */
  function Blank(cs: seq<Cell>, size: nat): (m: Image)
    requires forall i :: 0 <= i < |cs| ==> cs[i].off + CELL_HEADER <= size
    ensures |m| == size
  {
    if cs == [] then seq(size, _ => 0) else PutHeader(Blank(cs[1..], size), cs[0].off, cs[0].size)
  }

  predicate InHeader(cs: seq<Cell>, p: nat) {
    exists i :: 0 <= i < |cs| && cs[i].off <= p < cs[i].off + CELL_HEADER
  }

  ghost predicate BlankOutside(m: Image, cs: seq<Cell>) {
    forall p :: 0 <= p < |m| && !InHeader(cs, p) ==> m[p] == 0
  }

  lemma ChainFits(cs: seq<Cell>, lo: nat, hi: nat)
    requires Chain(cs, lo, hi)
    ensures forall i :: 0 <= i < |cs| ==> lo <= cs[i].off && cs[i].off + CELL_HEADER <= cs[i].End() <= hi
  {
    ChainOrdered(cs, lo, hi);
  }

  lemma HeaderPut(m: Image, cs: seq<Cell>, c: Cell)
    requires Headers(m, cs) && c.off + CELL_HEADER <= |m| && -TWO_31 <= c.size < TWO_31
    requires forall i :: 0 <= i < |cs| ==> c.off + CELL_HEADER <= cs[i].off
    ensures Headers(PutHeader(m, c.off, c.size), [c] + cs)
  {
    hide ReadI32, PutHeader, SameOutside;
    var r := PutHeader(m, c.off, c.size);
    PutHeaderReads(m, c.off, c.size);
    forall i | 0 <= i < |cs|
      ensures ReadI32(r, cs[i].off) == cs[i].size
    {
      ReadOutside(m, r, c.off, c.off + CELL_HEADER, cs[i].off);
    }
  }

  lemma BlankPut(m: Image, cs: seq<Cell>, c: Cell)
    requires BlankOutside(m, cs) && c.off + CELL_HEADER <= |m|
    ensures BlankOutside(PutHeader(m, c.off, c.size), [c] + cs)
  {
    hide EncodeI32, Blit;
    var all := [c] + cs;
    BlitAt(m, c.off, EncodeI32(c.size) + [0, 0, 0, 0]);
    forall p | 0 <= p < |m| && !InHeader(all, p)
      ensures PutHeader(m, c.off, c.size)[p] == 0
    {
      assert all[0] == c;
      assert forall i :: 0 <= i < |cs| ==> all[i + 1] == cs[i];
      assert !InHeader(cs, p);
    }
  }

  lemma {:induction false} BlankIsTiled(cs: seq<Cell>, lo: nat, hi: nat)
    requires Chain(cs, lo, hi) && hi < TWO_31
    ensures forall i :: 0 <= i < |cs| ==> cs[i].off + CELL_HEADER <= hi
    ensures Headers(Blank(cs, hi), cs) && BlankOutside(Blank(cs, hi), cs)
    decreases |cs|
  {
    hide PutHeader, ReadI32;
    ChainFits(cs, lo, hi);
    if cs != [] {
      ChainTail(cs, lo, hi);
      ChainFits(cs[1..], cs[0].End(), hi);
      BlankIsTiled(cs[1..], cs[0].End(), hi);
      HeaderPut(Blank(cs[1..], hi), cs[1..], cs[0]);
      BlankPut(Blank(cs[1..], hi), cs[1..], cs[0]);
      assert cs == [cs[0]] + cs[1..];
    }
  }

  lemma InsideCell(cs: seq<Cell>, k: nat, p: nat, lo: nat, hi: nat)
    requires Chain(cs, lo, hi) && k < |cs| && cs[k].off + CELL_HEADER <= p < cs[k].End()
    ensures !InHeader(cs, p)
  {
    ChainOrdered(cs, lo, hi);
    forall i | 0 <= i < |cs|
      ensures !(cs[i].off <= p < cs[i].off + CELL_HEADER)
    {
      assert i < k ==> cs[i].End() <= cs[k].off;
      assert k < i ==> cs[k].End() <= cs[i].off;
    }
  }

  function BlankArena(cs: seq<Cell>, hi: nat): Arena
    requires forall i :: 0 <= i < |cs| ==> cs[i].off + CELL_HEADER <= hi
  {
    Arena(Blank(cs, hi), cs, hi)
  }
}
