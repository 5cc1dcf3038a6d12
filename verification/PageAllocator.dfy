/** The physical page allocator of mem/mem.c on its bitmap of 32-bit words. */
module PageAllocator {
  import opened ByteMemory
  import opened PageRuns
  import opened Sets

  // ----- Bits of a word

  /** 1 << i */
  function Bit(i: nat): bv32 {
    if i == 0 then 1 else Bit(i - 1) << 1
  }

  function And(x: bv32, y: bv32): bv32 { x & y }
  function Or(x: bv32, y: bv32): bv32 { x | y }
  function Not(x: bv32): bv32 { !x }

  function Has(w: bv32, m: bv32): bool { And(w, m) != 0 }
  function With(w: bv32, m: bv32): bv32 { Or(w, m) }
  function Less(w: bv32, m: bv32): bv32 { And(w, Not(m)) }
  function Apart(m: bv32, n: bv32): bool { And(m, n) == 0 }

  function HasBit(w: bv32, i: nat): bool { Has(w, Bit(i)) }
  function SetBit(w: bv32, i: nat): bv32 { With(w, Bit(i)) }
  function ClearBit(w: bv32, i: nat): bv32 { Less(w, Bit(i)) }

  function ShiftUp(x: bv32): bv32 {
    x << 1
  }

  lemma ShiftedApart(x: bv32, y: bv32)
    ensures 1 & ShiftUp(x) == 0 && (x & y == 0 ==> ShiftUp(x) & ShiftUp(y) == 0)
  {
  }

  lemma {:induction false} BitsApart(i: nat, j: nat)
    requires i < j
    ensures Bit(i) & Bit(j) == 0
    decreases i
  {
    hide ShiftUp;
    BitUnfolds(j);
    if i == 0 {
      ShiftedApart(Bit(j - 1), 0);
    } else {
      BitUnfolds(i);
      BitsApart(i - 1, j - 1);
      ShiftedApart(Bit(i - 1), Bit(j - 1));
    }
  }

  lemma BitUnfolds(i: nat)
    requires i > 0
    ensures Bit(i) == ShiftUp(Bit(i - 1))
  {
  }

  function Raise(x: bv32, n: nat): bv32
    decreases n
  {
    if n == 0 then x else Raise(ShiftUp(x), n - 1)
  }

  lemma {:induction false} RaiseZero(n: nat)
    ensures Raise(0, n) == 0
  {
    if n > 0 {
      assert ShiftUp(0) == 0;
      RaiseZero(n - 1);
    }
  }

  lemma {:induction false} BitRaises(i: nat)
    requires i < 32
    ensures Raise(Bit(i), 31 - i) == Bit(31)
    decreases 31 - i
  {
    hide ShiftUp, Bit;
    if i < 31 {
      BitUnfolds(i + 1);
      BitRaises(i + 1);
    }
  }

  lemma EightBitsUp(i: nat)
    ensures Bit(i + 8) == Bit(i) << 8
  {
    hide Bit;
    BitUnfolds(i + 1);
    BitUnfolds(i + 2);
    BitUnfolds(i + 3);
    BitUnfolds(i + 4);
    BitUnfolds(i + 5);
    BitUnfolds(i + 6);
    BitUnfolds(i + 7);
    BitUnfolds(i + 8);
  }

  lemma TopBit()
    ensures Bit(31) != 0
  {
    hide Bit;
    LowestBit();
    EightBitsUp(0);
    EightBitsUp(8);
    EightBitsUp(16);
    BitUnfolds(25);
    BitUnfolds(26);
    BitUnfolds(27);
    BitUnfolds(28);
    BitUnfolds(29);
    BitUnfolds(30);
    BitUnfolds(31);
  }

  lemma LowestBit()
    ensures Bit(0) == 1
  {
  }

  lemma BitNonzero(i: nat)
    requires i < 32
    ensures Bit(i) != 0
  {
    hide Bit, ShiftUp, Raise;
    BitRaises(i);
    RaiseZero(31 - i);
    TopBit();
  }

  lemma Absorbs(w: bv32, m: bv32)
    ensures And(Or(w, m), m) == m
  {
  }

  lemma Cancels(w: bv32, m: bv32)
    ensures And(And(w, Not(m)), m) == 0
  {
  }

  lemma SkipsOr(w: bv32, m: bv32, n: bv32)
    requires And(m, n) == 0
    ensures And(Or(w, m), n) == And(w, n)
  {
  }

  lemma SkipsClear(w: bv32, m: bv32, n: bv32)
    requires And(m, n) == 0
    ensures And(And(w, Not(m)), n) == And(w, n)
  {
  }

  lemma OwnMaskSet(w: bv32, m: bv32)
    requires m != 0
    ensures Has(With(w, m), m)
  {
    hide And, Or, Not;
    Absorbs(w, m);
  }

  lemma OwnMaskCleared(w: bv32, m: bv32)
    ensures !Has(Less(w, m), m)
  {
    hide And, Or, Not;
    Cancels(w, m);
  }

  lemma OtherMaskSet(w: bv32, m: bv32, n: bv32)
    requires Apart(m, n)
    ensures Has(With(w, m), n) == Has(w, n)
  {
    hide And, Or, Not;
    SkipsOr(w, m, n);
  }

  lemma OtherMaskCleared(w: bv32, m: bv32, n: bv32)
    requires Apart(m, n)
    ensures Has(Less(w, m), n) == Has(w, n)
  {
    hide And, Or, Not;
    SkipsClear(w, m, n);
  }

  lemma BitsDisjoint(i: nat, j: nat)
    requires i != j
    ensures Apart(Bit(i), Bit(j))
  {
    hide Bit;
    if i < j {
      BitsApart(i, j);
    } else {
      BitsApart(j, i);
      AndCommutes(Bit(i), Bit(j));
    }
  }

  /** Setting or clearing one bit of a word is seen at that bit and no other. */
  lemma BitWritten(w: bv32, i: nat, j: nat)
    requires i < 32 && j < 32
    ensures HasBit(SetBit(w, i), j) == (i == j || HasBit(w, j))
    ensures HasBit(ClearBit(w, i), j) == (i != j && HasBit(w, j))
  {
    hide Bit, Has, With, Less, Apart;
    if i == j {
      BitNonzero(i);
      OwnMaskSet(w, Bit(i));
      OwnMaskCleared(w, Bit(i));
    } else {
      BitsDisjoint(i, j);
      OtherMaskSet(w, Bit(i), Bit(j));
      OtherMaskCleared(w, Bit(i), Bit(j));
    }
  }

  lemma AndCommutes(x: bv32, y: bv32)
    ensures x & y == y & x
  {
  }

  lemma FullWord(i: nat)
    requires i < 32
    ensures HasBit(0xFFFF_FFFF, i)
  {
    hide Bit;
    BitNonzero(i);
    AllOnes(Bit(i));
  }

  lemma AllOnes(x: bv32)
    ensures 0xFFFF_FFFF & x == x
  {
  }

  // ----- The bitmap

  /** The flags of the first `total` pages, 32 to a word. */
  function PagesOf(words: seq<bv32>, total: nat): (r: Pages)
    requires total <= 32 * |words|
    ensures |r| == total
  {
    seq(total, k requires 0 <= k < total => HasBit(words[k / 32], k % 32))
  }

  lemma PageWritten(words: seq<bv32>, total: nat, page: nat)
    requires page < total <= 32 * |words|
    ensures PagesOf(words[page / 32 := SetBit(words[page / 32], page % 32)], total)
         == PagesOf(words, total)[page := true]
    ensures PagesOf(words[page / 32 := ClearBit(words[page / 32], page % 32)], total)
         == PagesOf(words, total)[page := false]
  {
    hide HasBit, SetBit, ClearBit;
    var w := words[page / 32];
    var set1 := words[page / 32 := SetBit(w, page % 32)];
    var clear1 := words[page / 32 := ClearBit(w, page % 32)];
    forall k | 0 <= k < total
      ensures PagesOf(set1, total)[k] == PagesOf(words, total)[page := true][k]
      ensures PagesOf(clear1, total)[k] == PagesOf(words, total)[page := false][k]
    {
      BitWritten(w, page % 32, k % 32);
      SamePlace(page, k);
    }
    assert PagesOf(set1, total) == PagesOf(words, total)[page := true];
    assert PagesOf(clear1, total) == PagesOf(words, total)[page := false];
  }

  lemma PageAt(words: seq<bv32>, total: nat, k: nat)
    requires k < total <= 32 * |words|
    ensures PagesOf(words, total)[k] == HasBit(words[k / 32], k % 32)
  {
    hide HasBit;
  }

  lemma SamePlace(page: nat, k: nat)
    ensures page / 32 == k / 32 && page % 32 == k % 32 ==> page == k
  {
  }

  type UInt64 = x: int | 0 <= x < TWO_64

  const HEAP_SIZE: int := 4 * 1024 * 1024

  /** Every descriptor ends within the 64-bit address space. */
  predicate Addressable(ds: seq<Descriptor>) {
    forall i :: 0 <= i < |ds| ==> (ds[i].basePage + ds[i].pageCount) * PAGE_SIZE < TWO_64
  }

  /** The end of the highest descriptor, found in one pass over the map. */
  method FindMaxAddress(ds: seq<Descriptor>) returns (max: nat)
    requires Addressable(ds)
    ensures max == MaxPage(ds) * 4096
  {
    max := 0;
    var i := 0;
    while i < |ds|
      invariant 0 <= i <= |ds|
      invariant max == MaxPage(ds[..i]) * PAGE_SIZE
    {
      assert ds[..i + 1][..i] == ds[..i];
      var end := (ds[i].basePage + ds[i].pageCount) * PAGE_SIZE;
      if end > max {
        max := end;
      }
      i := i + 1;
    }
    assert ds[..i] == ds;
  }

  class PhysicalManager {
    var total: nat
    var bitmap: array<bv32>
    var availablePages: UInt64
    var allocatedPages: UInt64
    ghost var owned: set<nat>

    /** An empty bitmap stands for the null pointer before initialization. */
    ghost predicate Valid()
      reads this
    {
      4 * bitmap.Length <= HEAP_SIZE && (bitmap.Length > 0 ==> total <= 32 * bitmap.Length)
    }

    ghost function Used(): Pages
      requires Valid()
      reads this, bitmap
    {
      if bitmap.Length == 0 then [] else PagesOf(bitmap[..], total)
    }

    ghost function Abs(): State
      requires Valid()
      reads this, bitmap
    {
      State(Used(), availablePages, allocatedPages, owned)
    }

    constructor ()
      ensures Valid() && bitmap.Length == total == availablePages == allocatedPages == 0
    {
      total, availablePages, allocatedPages, owned := 0, 0, 0, {};
      bitmap := new bv32[0];
    }

    method SetPage(page: nat)
      requires Valid() && bitmap.Length > 0 && page < total
      modifies bitmap
      ensures Used() == old(Used())[page := true]
    {
      hide HasBit, SetBit, ClearBit;
      PageWritten(bitmap[..], total, page);
      ghost var words := bitmap[..];
      bitmap[page / 32] := SetBit(bitmap[page / 32], page % 32);
      assert bitmap[..] == words[page / 32 := SetBit(words[page / 32], page % 32)];
    }

    method ClearPage(page: nat)
      requires Valid() && bitmap.Length > 0 && page < total
      modifies bitmap
      ensures Used() == old(Used())[page := false]
    {
      hide HasBit, SetBit, ClearBit;
      PageWritten(bitmap[..], total, page);
      ghost var words := bitmap[..];
      bitmap[page / 32] := ClearBit(bitmap[page / 32], page % 32);
      assert bitmap[..] == words[page / 32 := ClearBit(words[page / 32], page % 32)];
    }

    method MarkPages(start: nat, count: nat)
      requires Valid() && bitmap.Length > 0 && start + count <= total
      modifies bitmap
      ensures Used() == Marked(old(Used()), start, count, true)
    {
      hide PagesOf, Marked;
      ghost var before := Used();
      MarkedNext(before, start, 0, true);
      var i := 0;
      while i < count
        invariant 0 <= i <= count && Used() == Marked(before, start, i, true)
      {
        MarkedNext(before, start, i, true);
        SetPage(start + i);
        i := i + 1;
      }
    }

    /** Clears the pages of the range that exist. */
    method ClearPages(start: nat, count: nat)
      requires Valid() && bitmap.Length > 0
      modifies bitmap
      ensures Used() == Marked(old(Used()), start, count, false)
    {
      hide PagesOf, Marked;
      ghost var before := Used();
      MarkedNext(before, start, 0, false);
      var i := 0;
      while i < count
        invariant 0 <= i <= count && Used() == Marked(before, start, i, false)
      {
        MarkedNext(before, start, i, false);
        if start + i < total {
          ClearPage(start + i);
        }
        i := i + 1;
      }
    }

    /** MemInitializePhysicalManager, called once; heapOffset bytes of the kernel heap are gone. */
    method Initialize(ds: seq<Descriptor>, heapOffset: nat) returns (enough: bool)
      requires Valid() && bitmap.Length == 0 && availablePages == 0 && Addressable(ds)
      modifies this
      ensures Valid() && total == MaxPage(ds) && owned == old(owned) && allocatedPages == old(allocatedPages)
      ensures enough <==> 0 < total && heapOffset + ((total + 31) / 32 * 4 + 7) / 8 * 8 <= 0x40_0000
      ensures forall i :: 0 <= i < |ds| ==> ds[i].basePage + ds[i].pageCount <= total
      ensures total == 0 || exists i :: 0 <= i < |ds| && ds[i].basePage + ds[i].pageCount == total
      ensures enough ==> |Used()| == total && forall k :: 0 <= k < total ==>
        (!Used()[k] <==>
          exists i :: 0 <= i < |ds| && ds[i].available && ds[i].basePage <= k < ds[i].basePage + ds[i].pageCount)
      ensures !enough ==> availablePages == 0 && bitmap == old(bitmap)
      ensures enough ==> fresh(bitmap) && Used() == InitialPages(total, ds)
      ensures enough ==> availablePages == CountedPages(ds) % TWO_64
      ensures enough && AvailableDisjoint(ds) && owned == {} && allocatedPages == 0 ==> Exact(Abs())
    {
      hide PagesOf, Marked, InitialPages, CountedPages, MaxPage, HasBit;
      MaxPageIs(ds);
      AllInitiallyFree(MaxPage(ds), ds);
      var maxAddress := FindMaxAddress(ds);
      total := maxAddress / PAGE_SIZE;
      var size := (total + 31) / 32;
      if size == 0 || heapOffset + (size * 4 + 7) / 8 * 8 > HEAP_SIZE {
        return false;
      }
      bitmap := new bv32[size](_ => 0xFFFF_FFFF);
      AllTakenAtFirst(bitmap[..], total);
      MaxPageFits(ds);
      FreeAvailable(ds);
      StartsExact(total, ds);
      enough := true;
    }

    /** The second pass over the map. */
    method FreeAvailable(ds: seq<Descriptor>)
      requires Valid() && bitmap.Length > 0 && FitsBelow(ds, total)
      requires Used() == InitialPages(total, []) && availablePages == 0
      modifies this`availablePages, bitmap
      ensures Used() == InitialPages(total, ds) && availablePages == CountedPages(ds) % TWO_64
    {
      hide PagesOf, Marked, InitialPages, CountedPages, FitsBelow, HasBit;
      NothingYet(total, ds[..0]);
      var i := 0;
      while i < |ds|
        invariant 0 <= i <= |ds|
        invariant Used() == InitialPages(total, ds[..i])
        invariant availablePages == CountedPages(ds[..i]) % TWO_64
      {
        OneMore(total, ds, i);
        if ds[i].available {
          FreeAtStart(ds[i]);
        }
        i := i + 1;
      }
      assert ds[..i] == ds;
    }

    /** One available descriptor: each of its pages is cleared and counted. */
    method FreeAtStart(d: Descriptor)
      requires Valid() && bitmap.Length > 0 && d.basePage + d.pageCount <= total
      modifies this`availablePages, bitmap
      ensures Used() == Marked(old(Used()), d.basePage, d.pageCount, false)
      ensures availablePages == (old(availablePages) + d.pageCount) % TWO_64
    {
      hide PagesOf, Marked, HasBit, ClearBit;
      ghost var before, count := Used(), availablePages;
      MarkedNext(before, d.basePage, 0, false);
      var page := d.basePage;
      while page < d.basePage + d.pageCount
        invariant d.basePage <= page <= d.basePage + d.pageCount
        invariant Used() == Marked(before, d.basePage, page - d.basePage, false)
        invariant availablePages == (count + (page - d.basePage)) % TWO_64
      {
        MarkedNext(before, d.basePage, page - d.basePage, false);
        ClearPage(page);
        CountNext(count + (page - d.basePage));
        availablePages := (availablePages + 1) % TWO_64;
        page := page + 1;
      }
    }

    /** The pages found are marked and counted. */
    method TakePages(start: nat, count: nat)
      requires Valid() && bitmap.Length > 0 && start + count <= total
      modifies this`availablePages, this`allocatedPages, this`owned, bitmap
      ensures Abs() == WrappedTake(old(Abs()), start, count)
    {
      hide PagesOf, Marked;
      MarkPages(start, count);
      availablePages := (availablePages - count) % TWO_64;
      allocatedPages := (allocatedPages + count) % TWO_64;
      owned := owned + Range(start, count);
    }

    /** MemAllocatePhysicalPages: the lowest run, or the address 0 when there is none. */
    method AllocatePages(count: nat) returns (address: nat)
      requires Valid() && count < TWO_64
      modifies this`availablePages, this`allocatedPages, this`owned, bitmap
      ensures count == 0 || !HasRun(old(Used()), count) ==> address == 0 && Abs() == old(Abs())
      ensures count > 0 && HasRun(old(Used()), count) ==>
        address % 4096 == 0 && IsLowestRun(old(Used()), address / 4096, count)
        && Used() == Marked(old(Used()), address / 4096, count, true)
        && availablePages == (old(availablePages) - count) % TWO_64
        && allocatedPages == (old(allocatedPages) + count) % TWO_64
        && owned == old(owned) + Range(address / 4096, count)
      ensures old(Exact(Abs())) ==> Abs() == Step(old(Abs()), Allocate(count))
      ensures |Used()| == |old(Used())|
      ensures forall k :: 0 <= k < |Used()| ==>
        Used()[k] == (old(Used())[k] || (count > 0 && HasRun(old(Used()), count) && Within(address / 4096, count, k)))
    {
      hide PagesOf, Exact, IsLowestRun, Step, HasRun, HasBit, Searched, Range;
      NoStep(Abs(), count);
      address := 0;
      if bitmap.Length == 0 || count == 0 {
        return;
      }
      SearchStart(Used(), count);
      var consecutive, start := 0, 0;
      var page := 0;
      while page < total
        invariant 0 <= page <= total && consecutive <= page && consecutive < count
        invariant Searched(Used(), page, consecutive, count)
        invariant consecutive > 0 ==> start == page - consecutive
        invariant Abs() == old(Abs()) && address == 0
      {
        SearchOn(Used(), page, consecutive, count);
        PageRead(page);
        if !HasBit(bitmap[page / 32], page % 32) {
          if consecutive == 0 {
            start := page;
          }
          consecutive := consecutive + 1;
          if consecutive >= count {
            RunFits(Used(), start, count);
            TakenIsStep(Abs(), start, count);
            TakePages(start, count);
            address := start * PAGE_SIZE;
            return;
          }
        } else {
          consecutive := 0;
        }
        page := page + 1;
      }
      NoRunLeft(Used(), consecutive, count);
    }

    lemma RunFits(used: Pages, s: nat, n: nat)
      requires IsLowestRun(used, s, n)
      ensures s + n <= |used|
    {
    }

    lemma PageRead(page: nat)
      requires Valid() && bitmap.Length > 0 && page < total
      ensures Used()[page] == HasBit(bitmap[page / 32], page % 32)
    {
      hide HasBit, PagesOf;
      PageAt(bitmap[..], total, page);
      assert bitmap[..][page / 32] == bitmap[page / 32];
    }

    /** MemFreePhysicalPages. */
    method FreePages(address: nat, count: nat)
      requires Valid() && address < TWO_64 && address / 4096 + count <= TWO_64
      modifies this`availablePages, this`allocatedPages, this`owned, bitmap
      ensures address == 0 || count == 0 || bitmap.Length == 0 ==> Abs() == old(Abs())
      ensures address > 0 && count > 0 && bitmap.Length > 0 ==>
        Used() == Marked(old(Used()), address / 4096, count, false)
        && availablePages == (old(availablePages) + count) % TWO_64
        && allocatedPages == (old(allocatedPages) - count) % TWO_64
        && owned == old(owned) - Range(address / 4096, count)
      ensures old(Exact(Abs())) && Legal(old(Abs()), Free(address, count)) ==>
        Abs() == Step(old(Abs()), Free(address, count))
    {
      hide PagesOf, Marked, Exact, Step, Range;
      FreedIsStep(Abs(), address, count);
      if bitmap.Length == 0 || address == 0 || count == 0 {
        return;
      }
      ClearPages(address / PAGE_SIZE, count);
      availablePages := (availablePages + count) % TWO_64;
      allocatedPages := (allocatedPages - count) % TWO_64;
      owned := owned - Range(address / PAGE_SIZE, count);
    }
  }

  lemma AllInitiallyFree(total: nat, ds: seq<Descriptor>)
    ensures |InitialPages(total, ds)| == total
    ensures forall k :: 0 <= k < total ==>
      (!InitialPages(total, ds)[k] <==>
        exists i :: 0 <= i < |ds| && ds[i].available && ds[i].basePage <= k < ds[i].basePage + ds[i].pageCount)
  {
    forall k | 0 <= k < total
      ensures !InitialPages(total, ds)[k] <==>
        exists i :: 0 <= i < |ds| && ds[i].available && ds[i].basePage <= k < ds[i].basePage + ds[i].pageCount
    {
      InitiallyFree(total, ds, k);
    }
  }

  lemma CountNext(x: nat)
    ensures (x % TWO_64 + 1) % TWO_64 == (x + 1) % TWO_64
  {
  }

  lemma AllTakenAtFirst(words: seq<bv32>, total: nat)
    requires total <= 32 * |words| && forall i :: 0 <= i < |words| ==> words[i] == 0xFFFF_FFFF
    ensures PagesOf(words, total) == InitialPages(total, [])
  {
    hide HasBit;
    forall k | 0 <= k < total
      ensures PagesOf(words, total)[k]
    {
      FullWord(k % 32);
    }
  }

  lemma NothingYet(total: nat, ds: seq<Descriptor>)
    requires ds == []
    ensures InitialPages(total, ds) == InitialPages(total, []) && CountedPages(ds) == 0
  {
  }

  lemma OneMore(total: nat, ds: seq<Descriptor>, i: nat)
    requires i < |ds| && FitsBelow(ds, total)
    ensures ds[i].basePage + ds[i].pageCount <= total
    ensures InitialPages(total, ds[..i + 1])
         == if ds[i].available then Marked(InitialPages(total, ds[..i]), ds[i].basePage, ds[i].pageCount, false)
            else InitialPages(total, ds[..i])
    ensures CountedPages(ds[..i + 1]) == CountedPages(ds[..i]) + (if ds[i].available then ds[i].pageCount else 0)
  {
    hide Marked;
    assert ds[..i + 1][..i] == ds[..i];
  }

  // ----- The search

  /** The pages below `page` hold no run of `count`, and end in exactly `tail` free ones. */
  ghost predicate Searched(used: Pages, page: nat, tail: nat, count: nat) {
    && tail <= page <= |used|
    && (forall k :: page - tail <= k < page ==> !used[k])
    && (tail < page ==> used[page - tail - 1])
    && (forall r: nat :: r + count <= page ==> !IsRun(used, r, count))
  }

  lemma SearchStart(used: Pages, count: nat)
    requires count > 0
    ensures Searched(used, 0, 0, count)
  {
  }

  lemma SearchOn(used: Pages, page: nat, tail: nat, count: nat)
    requires Searched(used, page, tail, count) && page < |used| && tail < count
    ensures used[page] ==> Searched(used, page + 1, 0, count)
    ensures !used[page] && tail + 1 < count ==> Searched(used, page + 1, tail + 1, count)
    ensures !used[page] && tail + 1 == count ==> IsLowestRun(used, page - tail, count)
  {
    forall r: nat | r + count <= page + 1 && (used[page] || tail + 1 < count)
      ensures !IsRun(used, r, count)
    {
      if r + count == page + 1 && !used[page] {
        assert r <= page - tail - 1;
      }
    }
  }

  lemma NoRunLeft(used: Pages, tail: nat, count: nat)
    requires Searched(used, |used|, tail, count)
    ensures !HasRun(used, count)
  {
  }

  // ----- The counters as plain numbers

  /** In an exact state no counter can wrap. */
  lemma CountersBounded(st: State)
    requires Exact(st)
    ensures st.available <= |st.used| && st.handedOut <= |st.used|
  {
    FreeCountUniform(st.used);
    RangeSize(0, |st.used|);
    SubsetSize(st.owned, Range(0, |st.used|));
  }

  lemma NoStep(st: State, count: nat)
    ensures Exact(st) && (count == 0 || !HasRun(st.used, count)) ==> Step(st, Allocate(count)) == st
    ensures count > 0 && st.used == [] ==> !HasRun(st.used, count)
  {
  }

  /** What the code leaves, its counters wrapping at 64 bits. */
  function WrappedTake(st: State, s: nat, count: nat): State {
    State(Marked(st.used, s, count, true), (st.available - count) % TWO_64, (st.handedOut + count) % TWO_64,
          st.owned + Range(s, count))
  }

  function WrappedGiveBack(st: State, s: nat, count: nat): State {
    State(Marked(st.used, s, count, false), (st.available + count) % TWO_64, (st.handedOut - count) % TWO_64,
          st.owned - Range(s, count))
  }

  lemma TakenIsStep(st: State, s: nat, count: nat)
    requires count > 0 && IsLowestRun(st.used, s, count) && |st.used| < TWO_64 / 2
    ensures HasRun(st.used, count)
    ensures Exact(st) ==> Step(st, Allocate(count)) == WrappedTake(st, s, count)
  {
    hide Marked, Exact;
    assert IsRun(st.used, s, count);
    if Exact(st) {
      CountersBounded(st);
      TakeExact(st, s, count);
      LowestIsUnique(st.used, s, LowestRun(st.used, count), count);
      SmallMod(st.available - count);
      SmallMod(st.handedOut + count);
    }
  }

  lemma SmallMod(x: int)
    requires 0 <= x < TWO_64
    ensures x % TWO_64 == x
  {
  }

  lemma FreedIsStep(st: State, address: nat, count: nat)
    requires |st.used| < TWO_64 / 2
    ensures Exact(st) && Legal(st, Free(address, count)) ==>
      if address > 0 && count > 0
      then st.used != [] && Step(st, Free(address, count)) == WrappedGiveBack(st, address / PAGE_SIZE, count)
      else Step(st, Free(address, count)) == st
  {
    hide Exact, Range;
    var s := address / PAGE_SIZE;
    if Exact(st) && Legal(st, Free(address, count)) && address > 0 && count > 0 {
      CountersBounded(st);
      GiveBackExact(st, s, count);
      CountersBounded(GiveBack(st, s, count));
      SmallMod(st.available + count);
      SmallMod(st.handedOut - count);
    }
  }

  /** Over disjoint descriptors the counter starts out exact. */
  lemma StartsExact(total: nat, ds: seq<Descriptor>)
    requires FitsBelow(ds, total) && total < TWO_64 / 2
    ensures AvailableDisjoint(ds) ==> Exact(State(InitialPages(total, ds), CountedPages(ds) % TWO_64, 0, {}))
  {
    hide FreeCount, InitialPages, CountedPages;
    CounterExact(total, ds);
    FreeCountUniform(InitialPages(total, ds));
    if AvailableDisjoint(ds) {
      SmallMod(CountedPages(ds));
    }
  }
}
