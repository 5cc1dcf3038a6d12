/** The physical page allocator of mem/mem.c over its bitmap read as one flag a page (true for
    taken): what allocating and freeing do to it, and what the page counters count. */
module PageRuns {

  const PAGE_SIZE: int := 4096

  type Pages = seq<bool>

  /** n free pages from page s on. */
  predicate IsRun(used: Pages, s: nat, n: nat) {
    s + n <= |used| && forall k :: s <= k < s + n ==> !used[k]
  }

  /** The lowest-numbered run of n free pages. */
  predicate IsLowestRun(used: Pages, s: nat, n: nat) {
    IsRun(used, s, n) && forall r: nat :: r < s ==> !IsRun(used, r, n)
  }

  /** The pages from s to s + n, those that exist, all set to b. */
  function Marked(used: Pages, s: nat, n: nat, b: bool): (r: Pages)
    ensures |r| == |used|
  {
    seq(|used|, k requires 0 <= k < |used| => if s <= k < s + n then b else used[k])
  }

  /** A run is a stretch of pages, inside the memory, none of which is taken. */
  lemma RunIsFreeStretch(used: Pages, s: nat, n: nat)
    ensures IsRun(used, s, n) <==> s + n <= |used| && true !in used[s..s + n]
  {
    if s + n <= |used| {
      var cut := used[s..s + n];
      assert forall k :: s <= k < s + n ==> used[k] == cut[k - s];
    }
  }

  /** How many pages are free. */
  function FreeCount(used: Pages): nat {
    if used == [] then 0 else FreeCount(used[..|used| - 1]) + (if used[|used| - 1] then 0 else 1)
  }

  lemma {:induction false} FreeCountAppend(x: Pages, y: Pages)
    ensures FreeCount(x + y) == FreeCount(x) + FreeCount(y)
    decreases |y|
  {
    if y == [] {
      assert x + y == x;
    } else {
      assert (x + y)[..|x + y| - 1] == x + y[..|y| - 1];
      FreeCountAppend(x, y[..|y| - 1]);
    }
  }

  lemma {:induction false} FreeCountUniform(used: Pages)
    ensures FreeCount(used) <= |used|
    ensures FreeCount(used) == |used| <==> true !in used
    ensures FreeCount(used) == 0 <==> false !in used
  {
    if used != [] {
      var last := used[|used| - 1];
      FreeCountUniform(used[..|used| - 1]);
      assert used == used[..|used| - 1] + [last];
    }
  }

  lemma ThreePieces(x: Pages, y: Pages, z: Pages)
    ensures FreeCount(x + y + z) == FreeCount(x) + FreeCount(y) + FreeCount(z)
  {
    hide FreeCount;
    FreeCountAppend(x + y, z);
    FreeCountAppend(x, y);
  }

  function Uniform(n: nat, b: bool): (r: Pages)
    ensures |r| == n
  {
    seq(n, _ => b)
  }

  /** A mark replaces the middle one of three pieces. */
  lemma MarkedPieces(used: Pages, s: nat, n: nat, b: bool)
    requires s + n <= |used|
    ensures Marked(used, s, n, b) == used[..s] + Uniform(n, b) + used[s + n..]
    ensures used == used[..s] + used[s..s + n] + used[s + n..]
  {
    var r := used[..s] + Uniform(n, b) + used[s + n..];
    assert |r| == |used|;
    forall k | 0 <= k < |used|
      ensures Marked(used, s, n, b)[k] == r[k]
    {
    }
  }

  lemma MarkedCounts(used: Pages, s: nat, n: nat, b: bool)
    requires s + n <= |used|
    ensures FreeCount(Marked(used, s, n, b)) == FreeCount(used) - FreeCount(used[s..s + n]) + (if b then 0 else n)
  {
    hide FreeCount, Marked;
    MarkedPieces(used, s, n, b);
    ThreePieces(used[..s], used[s..s + n], used[s + n..]);
    ThreePieces(used[..s], Uniform(n, b), used[s + n..]);
    FreeCountUniform(Uniform(n, b));
  }

  /** Taking a run takes exactly its pages from the free ones. */
  lemma TakeCounts(used: Pages, s: nat, n: nat)
    requires IsRun(used, s, n)
    ensures FreeCount(Marked(used, s, n, true)) == FreeCount(used) - n
    ensures n <= FreeCount(used)
  {
    hide FreeCount;
    MarkedCounts(used, s, n, true);
    FreeCountUniform(used[s..s + n]);
  }

  /** Every page from s to s + n exists and is taken. */
  predicate AllTaken(used: Pages, s: nat, n: nat) {
    s + n <= |used| && forall k :: s <= k < s + n ==> used[k]
  }

  /** Freeing adds at most n free pages; it adds n exactly when all of them were taken. */
  lemma FreeCounts(used: Pages, s: nat, n: nat)
    ensures FreeCount(used) <= FreeCount(Marked(used, s, n, false)) <= FreeCount(used) + n
    ensures FreeCount(Marked(used, s, n, false)) == FreeCount(used) + n <==> AllTaken(used, s, n) || n == 0
  {
    hide FreeCount;
    if s >= |used| {
      assert Marked(used, s, n, false) == used;
    } else {
      var m := if s + n <= |used| then n else |used| - s;
      assert Marked(used, s, n, false) == Marked(used, s, m, false);
      MarkedCounts(used, s, m, false);
      FreeCountUniform(used[s..s + m]);
      var mid := used[s..s + m];
      assert forall k :: s <= k < s + m ==> used[k] == mid[k - s];
      if m == n && AllTaken(used, s, n) {
        assert false !in mid;
      } else if m == n && n > 0 {
        var k :| s <= k < s + n && !used[k];
        assert !mid[k - s];
      }
    }
  }

  /** Marks cancel. */
  lemma TakeThenFree(used: Pages, s: nat, n: nat)
    requires IsRun(used, s, n)
    ensures Marked(Marked(used, s, n, true), s, n, false) == used
  {
  }

  // ----- Initialization

  datatype Descriptor = Descriptor(basePage: nat, pageCount: nat, available: bool)

  predicate Overlap(d: Descriptor, e: Descriptor) {
    d.basePage < e.basePage + e.pageCount && e.basePage < d.basePage + d.pageCount && d.pageCount > 0 && e.pageCount > 0
  }

  predicate AvailableDisjoint(ds: seq<Descriptor>) {
    forall i, j :: 0 <= i < j < |ds| && ds[i].available && ds[j].available ==> !Overlap(ds[i], ds[j])
  }

  function MaxPage(ds: seq<Descriptor>): nat {
    if ds == [] then 0
    else
      var top := ds[|ds| - 1].basePage + ds[|ds| - 1].pageCount;
      var rest := MaxPage(ds[..|ds| - 1]);
      if top > rest then top else rest
  }

  /** All pages taken but those of the available descriptors. */
  function InitialPages(total: nat, ds: seq<Descriptor>): (r: Pages)
    ensures |r| == total
  {
    if ds == [] then seq(total, _ => true)
    else
      var rest := InitialPages(total, ds[..|ds| - 1]);
      var d := ds[|ds| - 1];
      if d.available then Marked(rest, d.basePage, d.pageCount, false) else rest
  }

  /** What the available-page counter adds up to. */
  function CountedPages(ds: seq<Descriptor>): nat {
    if ds == [] then 0
    else CountedPages(ds[..|ds| - 1]) + (if ds[|ds| - 1].available then ds[|ds| - 1].pageCount else 0)
  }

  /** A page is free at the start exactly when some available descriptor holds it. */
  lemma {:induction false} InitiallyFree(total: nat, ds: seq<Descriptor>, k: nat)
    requires k < total
    ensures !InitialPages(total, ds)[k] <==>
      exists i :: 0 <= i < |ds| && ds[i].available && ds[i].basePage <= k < ds[i].basePage + ds[i].pageCount
    decreases |ds|
  {
    if ds != [] {
      var rest := ds[..|ds| - 1];
      InitiallyFree(total, rest, k);
      assert forall i :: 0 <= i < |rest| ==> rest[i] == ds[i];
    }
  }

  predicate FitsBelow(ds: seq<Descriptor>, total: nat) {
    forall i :: 0 <= i < |ds| ==> ds[i].basePage + ds[i].pageCount <= total
  }

  lemma {:induction false} MaxPageFits(ds: seq<Descriptor>)
    ensures FitsBelow(ds, MaxPage(ds))
    decreases |ds|
  {
    if ds != [] {
      MaxPageFits(ds[..|ds| - 1]);
      forall i | 0 <= i < |ds|
        ensures ds[i].basePage + ds[i].pageCount <= MaxPage(ds)
      {
        if i < |ds| - 1 {
          assert ds[..|ds| - 1][i] == ds[i];
        }
      }
    }
  }

  /** The highest descriptor ends the memory. */
  lemma {:induction false} MaxPageIs(ds: seq<Descriptor>)
    ensures forall i :: 0 <= i < |ds| ==> ds[i].basePage + ds[i].pageCount <= MaxPage(ds)
    ensures MaxPage(ds) == 0 || exists i :: 0 <= i < |ds| && ds[i].basePage + ds[i].pageCount == MaxPage(ds)
    decreases |ds|
  {
    MaxPageFits(ds);
    if ds != [] {
      var rest := ds[..|ds| - 1];
      MaxPageIs(rest);
      if MaxPage(ds) == MaxPage(rest) && MaxPage(ds) > 0 {
        var i :| 0 <= i < |rest| && rest[i].basePage + rest[i].pageCount == MaxPage(rest);
        assert ds[i] == rest[i];
      } else {
        assert ds[|ds| - 1].basePage + ds[|ds| - 1].pageCount == MaxPage(ds);
      }
    }
  }

  /** The counter never falls short of the free pages, and equals their number exactly when no
      two available descriptors share a page. */
  lemma {:induction false} CounterExact(total: nat, ds: seq<Descriptor>)
    requires FitsBelow(ds, total)
    ensures FreeCount(InitialPages(total, ds)) <= CountedPages(ds)
    ensures FreeCount(InitialPages(total, ds)) == CountedPages(ds) <==> AvailableDisjoint(ds)
    decreases |ds|
  {
    hide FreeCount, Overlap;
    if ds == [] {
      FreeCountUniform(InitialPages(total, ds));
    } else {
      var rest := ds[..|ds| - 1];
      var d := ds[|ds| - 1];
      var used := InitialPages(total, rest);
      assert forall i :: 0 <= i < |rest| ==> rest[i] == ds[i];
      CounterExact(total, rest);
      if d.available {
        FreeCounts(used, d.basePage, d.pageCount);
        LastClear(total, rest, d);
      }
      DisjointSplit(rest, d);
      assert ds == rest + [d];
    }
  }

  predicate ClearOf(ds: seq<Descriptor>, d: Descriptor) {
    forall i :: 0 <= i < |ds| && ds[i].available ==> !Overlap(ds[i], d)
  }

  lemma DisjointSplit(ds: seq<Descriptor>, d: Descriptor)
    ensures AvailableDisjoint(ds + [d]) <==> AvailableDisjoint(ds) && (d.available ==> ClearOf(ds, d))
  {
    hide Overlap;
    var all := ds + [d];
    assert forall i :: 0 <= i < |ds| ==> all[i] == ds[i];
    assert all[|ds|] == d;
    if AvailableDisjoint(all) && d.available {
      forall i | 0 <= i < |ds| && ds[i].available
        ensures !Overlap(ds[i], d)
      {
        assert !Overlap(all[i], all[|ds|]);
      }
    }
    if AvailableDisjoint(all) {
      forall i, j | 0 <= i < j < |ds| && ds[i].available && ds[j].available
        ensures !Overlap(ds[i], ds[j])
      {
        assert !Overlap(all[i], all[j]);
      }
    }
  }

  /** The new descriptor frees only taken pages exactly when it overlaps none before it. */
  lemma LastClear(total: nat, ds: seq<Descriptor>, d: Descriptor)
    requires FitsBelow(ds, total) && d.basePage + d.pageCount <= total
    ensures AllTaken(InitialPages(total, ds), d.basePage, d.pageCount) || d.pageCount == 0 <==> ClearOf(ds, d)
  {
    var used := InitialPages(total, ds);
    if ClearOf(ds, d) {
      forall k | d.basePage <= k < d.basePage + d.pageCount
        ensures used[k]
      {
        InitiallyFree(total, ds, k);
        if !used[k] {
          var i :| 0 <= i < |ds| && ds[i].available && ds[i].basePage <= k < ds[i].basePage + ds[i].pageCount;
          assert Overlap(ds[i], d);
        }
      }
    } else {
      var i :| 0 <= i < |ds| && ds[i].available && Overlap(ds[i], d);
      var k := if ds[i].basePage >= d.basePage then ds[i].basePage else d.basePage;
      InitiallyFree(total, ds, k);
      assert !used[k];
    }
  }

  // ----- Runs

  /** The allocator, and the pages handed out and not yet given back. */
  datatype State = State(used: Pages, available: nat, handedOut: nat, owned: set<nat>)

  datatype Op = Allocate(count: nat) | Free(address: nat, count: nat)

  predicate Within(s: nat, n: nat, k: nat) {
    s <= k < s + n
  }

  function Range(s: nat, n: nat): set<nat> {
    set k: nat | k < s + n && Within(s, n, k)
  }

  function Take(st: State, s: nat, n: nat): State
    requires IsRun(st.used, s, n) && n <= st.available
  {
    State(Marked(st.used, s, n, true), st.available - n, st.handedOut + n, st.owned + Range(s, n))
  }

  function GiveBack(st: State, s: nat, n: nat): State
    requires n <= st.handedOut
  {
    State(Marked(st.used, s, n, false), st.available + n, st.handedOut - n, st.owned - Range(s, n))
  }

  /** Owned pages are taken, and both counters count what they say. */
  ghost predicate Exact(st: State) {
    && (forall k :: k in st.owned ==> k < |st.used| && st.used[k])
    && st.available == FreeCount(st.used)
    && st.handedOut == |st.owned|
  }

  lemma {:induction false} RangeSize(s: nat, n: nat)
    ensures |Range(s, n)| == n
  {
    if n == 0 {
      assert Range(s, n) == {};
    } else {
      RangeSize(s, n - 1);
      assert Range(s, n) == Range(s, n - 1) + {s + n - 1};
    }
  }

  /** A run taken is disjoint from everything already handed out. */
  lemma TakeExact(st: State, s: nat, n: nat)
    requires Exact(st) && IsRun(st.used, s, n)
    ensures n <= st.available && Range(s, n) !! st.owned
    ensures Exact(Take(st, s, n))
    ensures Take(st, s, n).available + Take(st, s, n).handedOut == st.available + st.handedOut
  {
    hide FreeCount;
    TakeCounts(st.used, s, n);
    RangeSize(s, n);
    assert Range(s, n) !! st.owned;
    assert |st.owned + Range(s, n)| == |st.owned| + n;
  }

  lemma GiveBackExact(st: State, s: nat, n: nat)
    requires Exact(st) && Range(s, n) <= st.owned
    ensures n <= st.handedOut && Exact(GiveBack(st, s, n))
    ensures GiveBack(st, s, n).available + GiveBack(st, s, n).handedOut == st.available + st.handedOut
  {
    hide FreeCount;
    RangeSize(s, n);
    assert forall k: nat :: s <= k < s + n ==> Within(s, n, k) && k in Range(s, n);
    if n > 0 {
      assert s + n - 1 in Range(s, n);
    }
    FreeCounts(st.used, s, n);
    assert st.owned == (st.owned - Range(s, n)) + Range(s, n);
  }

  /** Only pages handed out before are given back; a call the code ignores is always legal. */
  ghost predicate Legal(st: State, op: Op) {
    op.Free? && op.address > 0 && op.count > 0 ==> Range(op.address / PAGE_SIZE, op.count) <= st.owned
  }

  ghost predicate HasRun(used: Pages, n: nat) {
    exists s: nat :: IsRun(used, s, n)
  }

  lemma {:induction false} LowestFrom(used: Pages, s: nat, n: nat) returns (r: nat)
    requires IsRun(used, s, n)
    ensures IsLowestRun(used, r, n)
    decreases s
  {
    if q: nat :| q < s && IsRun(used, q, n) {
      r := LowestFrom(used, q, n);
    } else {
      r := s;
    }
  }

  /** The page the search must come to. */
  ghost function LowestRun(used: Pages, n: nat): (s: nat)
    requires HasRun(used, n)
    ensures IsLowestRun(used, s, n)
  {
    assert exists s: nat :: IsLowestRun(used, s, n) by {
      var s: nat :| IsRun(used, s, n);
      var r := LowestFrom(used, s, n);
    }
    var s: nat :| IsLowestRun(used, s, n);
    s
  }

  ghost function Step(st: State, op: Op): State
    requires Exact(st) && Legal(st, op)
  {
    match op
    case Allocate(n) =>
      if n > 0 && HasRun(st.used, n) then
        TakeExact(st, LowestRun(st.used, n), n);
        Take(st, LowestRun(st.used, n), n)
      else st
    case Free(address, n) =>
      if address > 0 && n > 0 then
        GiveBackExact(st, address / PAGE_SIZE, n);
        GiveBack(st, address / PAGE_SIZE, n)
      else st
  }

  lemma StepExact(st: State, op: Op)
    requires Exact(st) && Legal(st, op)
    ensures Exact(Step(st, op))
    ensures Step(st, op).available + Step(st, op).handedOut == st.available + st.handedOut
  {
    hide Exact, IsRun, FreeCount;
    match op
    case Allocate(n) =>
      if n > 0 && HasRun(st.used, n) {
        TakeExact(st, LowestRun(st.used, n), n);
      }
    case Free(address, n) =>
      if address > 0 && n > 0 {
        GiveBackExact(st, address / PAGE_SIZE, n);
      }
  }

  ghost predicate LegalRun(st: State, ops: seq<Op>)
    requires Exact(st)
    decreases |ops|
  {
    ops != [] ==>
      && Legal(st, ops[0])
      && (StepExact(st, ops[0]); LegalRun(Step(st, ops[0]), ops[1..]))
  }

  ghost function Run(st: State, ops: seq<Op>): State
    requires Exact(st) && LegalRun(st, ops)
    decreases |ops|
  {
    if ops == [] then st
    else
      StepExact(st, ops[0]);
      Run(Step(st, ops[0]), ops[1..])
  }

  /** Conservation over whole runs: the counters stay exact and their sum never moves. */
  lemma {:induction false} RunConserves(st: State, ops: seq<Op>)
    requires Exact(st) && LegalRun(st, ops)
    ensures Exact(Run(st, ops))
    ensures Run(st, ops).available + Run(st, ops).handedOut == st.available + st.handedOut
    decreases |ops|
  {
    hide Exact, Legal, Step;
    if ops != [] {
      StepExact(st, ops[0]);
      RunConserves(Step(st, ops[0]), ops[1..]);
    }
  }

  lemma LowestIsUnique(used: Pages, s: nat, r: nat, n: nat)
    requires IsLowestRun(used, s, n) && IsLowestRun(used, r, n)
    ensures s == r
  {
  }

  /** A request can be answered by address 0 exactly when page 0 is free. */
  lemma PageZeroExactly(used: Pages)
    ensures (exists n: nat :: n > 0 && IsLowestRun(used, 0, n)) <==> used != [] && !used[0]
  {
    if used != [] && !used[0] {
      assert IsLowestRun(used, 0, 1);
    }
  }

  /** Giving back the run just taken is always legal, and restores the allocator in full
      exactly when the run does not start at page 0: its address is 0, which freeing ignores. */
  lemma AllocateThenFree(st: State, n: nat)
    requires Exact(st) && n > 0 && HasRun(st.used, n)
    ensures var s, t := LowestRun(st.used, n), Step(st, Allocate(n));
      && Exact(t) && Legal(t, Free(s * 4096, n))
      && (Step(t, Free(s * 4096, n)) == st <==> s > 0)
      && (s == 0 ==> Step(t, Free(0, n)) == t && t.used != st.used)
  {
    hide FreeCount;
    var s, t := LowestRun(st.used, n), Step(st, Allocate(n));
    StepExact(st, Allocate(n));
    TakeExact(st, s, n);
    TakeThenFree(st.used, s, n);
    assert t.used == Marked(st.used, s, n, true) && t.used[s] && !st.used[s];
    assert s * 4096 / PAGE_SIZE == s;
    assert (st.owned + Range(s, n)) - Range(s, n) == st.owned;
  }

  /** The same as a run of two calls. */
  lemma {:induction false} AllocateFreeRun(st: State, n: nat)
    requires Exact(st) && n > 0 && HasRun(st.used, n)
    ensures var ops := [Allocate(n), Free(LowestRun(st.used, n) * 4096, n)];
      LegalRun(st, ops) && (Run(st, ops) == st <==> LowestRun(st.used, n) > 0)
  {
    hide Exact, Legal, Step, HasRun;
    AllocateThenFree(st, n);
    var first, second := Allocate(n), Free(LowestRun(st.used, n) * 4096, n);
    assert [first, second][1..] == [second] && [second][1..] == [];
    AnyAllocateLegal(st, n);
    StepExact(st, first);
    StepExact(Step(st, first), second);
    assert LegalRun(Step(Step(st, first), second), []);
    assert LegalRun(Step(st, first), [second]);
    assert Run(Step(st, first), [second]) == Run(Step(Step(st, first), second), []);
  }

  lemma AnyAllocateLegal(st: State, n: nat)
    ensures Legal(st, Allocate(n))
  {
  }

  /** The failing input: with page 0 free a one-page request takes it, and freeing the address
      returned does not bring it back. */
  lemma PageZeroLeaks(st: State)
    requires Exact(st) && st.used != [] && !st.used[0]
    ensures HasRun(st.used, 1) && LowestRun(st.used, 1) == 0
    ensures var t := Step(st, Allocate(1));
      && Exact(t) && Legal(t, Free(0, 1))
      && Step(t, Free(0, 1)).used[0] && Step(t, Free(0, 1)).available == st.available - 1
  {
    hide FreeCount;
    assert IsRun(st.used, 0, 1);
    AllocateThenFree(st, 1);
    TakeExact(st, 0, 1);
  }

  /** Address 0 and empty ranges may always be given back, and nothing comes of it. */
  lemma NullIsIgnored(st: State, address: nat, n: nat)
    requires Exact(st) && (address == 0 || n == 0)
    ensures Legal(st, Free(address, n)) && Step(st, Free(address, n)) == st
  {
  }

  lemma RangeHas(s: nat, n: nat, k: nat)
    ensures k in Range(s, n) <==> Within(s, n, k)
  {
  }

  lemma PageZeroKept(st: State, op: Op)
    requires Exact(st) && Legal(st, op) && st.used != [] && st.used[0] && 0 !in st.owned
    ensures Step(st, op).used != [] && Step(st, op).used[0] && 0 !in Step(st, op).owned
  {
    hide FreeCount;
    match op
    case Allocate(n) =>
      if n > 0 && HasRun(st.used, n) {
        assert LowestRun(st.used, n) > 0;
      }
    case Free(address, n) =>
      if address > 0 && n > 0 {
        RangeHas(address / PAGE_SIZE, n, 0);
      }
  }

  /** With page 0 taken and never handed out, over any run address 0 only ever means failure. */
  lemma {:induction false} NullMeansFailure(st: State, ops: seq<Op>, n: nat)
    requires Exact(st) && LegalRun(st, ops) && st.used != [] && st.used[0] && 0 !in st.owned
    ensures n > 0 && HasRun(Run(st, ops).used, n) ==> LowestRun(Run(st, ops).used, n) > 0
    decreases |ops|
  {
    hide Exact, Legal, Step;
    if ops != [] {
      StepExact(st, ops[0]);
      PageZeroKept(st, ops[0]);
      NullMeansFailure(Step(st, ops[0]), ops[1..], n);
    }
  }

  lemma MarkedNext(used: Pages, s: nat, i: nat, b: bool)
    ensures Marked(used, s, 0, b) == used
    ensures s + i < |used| ==> Marked(used, s, i + 1, b) == Marked(used, s, i, b)[s + i := b]
    ensures s + i >= |used| ==> Marked(used, s, i + 1, b) == Marked(used, s, i, b)
  {
  }
}
