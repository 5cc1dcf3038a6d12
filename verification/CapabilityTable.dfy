/** The capability table of l4/l4.c: where the rights of a capability can come from. */
module CapabilityTable {

  const MAX_CAPS: int := 256

  datatype Status = Success | InvalidParameter | NotFound | AccessDenied | InsufficientResources

  /** Type 0 is a free entry; object 0 is the null pointer. */
  datatype Cap = Cap(kind: nat, rights: bv32, target: nat)

  type Table = t: seq<Cap> | |t| == MAX_CAPS witness seq(MAX_CAPS, _ => Cap(0, 0, 0))

  function Common(a: bv32, b: bv32): bv32 { a & b }

  /** Every right of a is one of b. */
  predicate Within(a: bv32, b: bv32) {
    Common(a, b) == a
  }

  /** The rights of a that b lacks. */
  function Lacking(a: bv32, b: bv32): bv32 { a & !b }

  lemma WithinTransitive(a: bv32, b: bv32, c: bv32)
    requires Within(a, b) && Within(b, c)
    ensures Within(a, c)
  {
    assert (a & b) & c == a & (b & c);
  }

  lemma WithinSelf(a: bv32)
    ensures Within(a, a)
  {
  }

  /** The comparison the code makes: nothing is left of a outside b. */
  lemma WithinLacksNothing(a: bv32, b: bv32)
    ensures Within(a, b) <==> Lacking(a, b) == 0
  {
  }

  /** Bit by bit: every mask that meets a meets b. */
  lemma EveryBitFound(a: bv32, b: bv32, mask: bv32)
    requires Within(a, b) && a & mask != 0
    ensures b & mask != 0
  {
  }

  lemma LackingIsMissing(a: bv32, b: bv32)
    ensures a & Lacking(a, b) == Lacking(a, b) && b & Lacking(a, b) == 0
  {
  }

  // ----- The operations

  /** The first free entry, or the size of the table. */
  function FreeFrom(t: Table, i: nat): (f: nat)
    requires i <= MAX_CAPS
    ensures i <= f <= MAX_CAPS && (f < MAX_CAPS ==> t[f].kind == 0)
    ensures forall k :: i <= k < f ==> t[k].kind != 0
    decreases MAX_CAPS - i
  {
    if i == MAX_CAPS || t[i].kind == 0 then i else FreeFrom(t, i + 1)
  }

  function Insert(t: Table, c: Cap): Table {
    var f := FreeFrom(t, 0);
    if f == MAX_CAPS then t else t[f := c]
  }

  function Revoke(t: Table, cap: nat): Table {
    if cap >= MAX_CAPS || t[cap].kind == 0 then t else t[cap := Cap(0, 0, 0)]
  }

  function DeriveStatus(t: Table, source: nat, rights: bv32): Status {
    if source >= MAX_CAPS then InvalidParameter
    else if t[source].kind == 0 then NotFound
    else if !Within(rights, t[source].rights) then AccessDenied
    else if FreeFrom(t, 0) == MAX_CAPS then InsufficientResources
    else Success
  }

  function Derive(t: Table, source: nat, rights: bv32): Table {
    if DeriveStatus(t, source, rights) != Success then t
    else Insert(t, t[source].(rights := rights))
  }

  /** The object of a live capability holding all the rights asked for, else null. */
  function Lookup(t: Table, cap: nat, required: bv32): nat {
    if cap >= MAX_CAPS || t[cap].kind == 0 || !Within(required, t[cap].rights) then 0 else t[cap].target
  }

  datatype Op = InsertOp(cap: Cap) | RevokeOp(index: nat) | DeriveOp(source: nat, rights: bv32)

  function Step(t: Table, op: Op): Table {
    match op
    case InsertOp(c) => Insert(t, c)
    case RevokeOp(i) => Revoke(t, i)
    case DeriveOp(s, r) => Derive(t, s, r)
  }

  function Run(t: Table, ops: seq<Op>): Table
    decreases |ops|
  {
    if ops == [] then t else Run(Step(t, ops[0]), ops[1..])
  }

  /** The capabilities a run inserts directly. */
  function Roots(ops: seq<Op>): set<Cap>
    decreases |ops|
  {
    if ops == [] then {}
    else (if ops[0].InsertOp? then {ops[0].cap} else {}) + Roots(ops[1..])
  }

  /** A capability some root covers: same type and object, no right the root did not have. */
  ghost predicate CoveredBy(c: Cap, roots: set<Cap>) {
    exists r :: r in roots && r.kind == c.kind && r.target == c.target && Lacking(c.rights, r.rights) == 0
  }

  ghost predicate AllCovered(t: Table, roots: set<Cap>) {
    forall i :: 0 <= i < MAX_CAPS && t[i].kind != 0 ==> CoveredBy(t[i], roots)
  }

  lemma CoveredMore(t: Table, roots: set<Cap>, more: set<Cap>)
    requires AllCovered(t, roots) && roots <= more
    ensures AllCovered(t, more)
  {
    hide Within, Lacking;
    forall i | 0 <= i < MAX_CAPS && t[i].kind != 0
      ensures CoveredBy(t[i], more)
    {
      assert CoveredBy(t[i], roots);
      var r :| r in roots && r.kind == t[i].kind && r.target == t[i].target && Lacking(t[i].rights, r.rights) == 0;
      assert r in more;
    }
  }

  lemma WithinChain(a: bv32, b: bv32, c: bv32)
    requires Within(a, b) && Lacking(b, c) == 0
    ensures Lacking(a, c) == 0
  {
    hide Within, Lacking;
    WithinLacksNothing(b, c);
    WithinTransitive(a, b, c);
    WithinLacksNothing(a, c);
  }

  lemma InsertCovered(t: Table, c: Cap, roots: set<Cap>)
    requires AllCovered(t, roots) && (c.kind != 0 ==> CoveredBy(c, roots))
    ensures AllCovered(Insert(t, c), roots)
  {
    hide CoveredBy;
  }

  lemma DeriveCovered(t: Table, source: nat, rights: bv32, roots: set<Cap>)
    requires AllCovered(t, roots)
    ensures AllCovered(Derive(t, source, rights), roots)
  {
    hide Within, Lacking, Insert, FreeFrom;
    if DeriveStatus(t, source, rights) == Success {
      var e := t[source];
      assert CoveredBy(e, roots);
      var r :| r in roots && r.kind == e.kind && r.target == e.target && Lacking(e.rights, r.rights) == 0;
      WithinChain(rights, e.rights, r.rights);
      assert CoveredBy(e.(rights := rights), roots);
      InsertCovered(t, e.(rights := rights), roots);
    }
  }

  lemma StepCovered(t: Table, op: Op, roots: set<Cap>)
    requires AllCovered(t, roots) && (op.InsertOp? ==> op.cap in roots)
    ensures AllCovered(Step(t, op), roots)
  {
    hide Within, Lacking, Insert, FreeFrom, Derive;
    match op
    case InsertOp(c) =>
      WithinSelf(c.rights);
      WithinLacksNothing(c.rights, c.rights);
      assert CoveredBy(c, roots);
      InsertCovered(t, c, roots);
    case RevokeOp(i) =>
    case DeriveOp(s, r) => DeriveCovered(t, s, r, roots);
  }

  /** Over any run, no capability has a right that the root insert behind it did not have. */
  lemma {:induction false} RunCovered(t: Table, ops: seq<Op>, roots: set<Cap>)
    requires AllCovered(t, roots)
    ensures AllCovered(Run(t, ops), roots + Roots(ops))
    decreases |ops|
  {
    hide Within, Lacking, Step, AllCovered;
    var all := roots + Roots(ops);
    if ops == [] {
      CoveredMore(t, roots, all);
    } else {
      var now := roots + (if ops[0].InsertOp? then {ops[0].cap} else {});
      CoveredMore(t, roots, now);
      StepCovered(t, ops[0], now);
      RunCovered(Step(t, ops[0]), ops[1..], now);
      assert now + Roots(ops[1..]) == all;
    }
  }

  function EmptyTable(): Table {
    seq(MAX_CAPS, _ => Cap(0, 0, 0))
  }

  /** What a look-up returns was inserted once with all the rights it was asked for, each bit. */
  lemma LookupHasRoot(ops: seq<Op>, cap: nat, required: bv32)
    requires Lookup(Run(EmptyTable(), ops), cap, required) != 0
    ensures exists r :: r in Roots(ops) && r.target == Lookup(Run(EmptyTable(), ops), cap, required)
                        && Lacking(required, r.rights) == 0
  {
    hide Within, Lacking, Run, Roots;
    RunCovered(EmptyTable(), ops, {});
    assert {} + Roots(ops) == Roots(ops);
    var e := Run(EmptyTable(), ops)[cap];
    assert CoveredBy(e, Roots(ops));
    var r :| r in Roots(ops) && r.kind == e.kind && r.target == e.target && Lacking(e.rights, r.rights) == 0;
    WithinChain(required, e.rights, r.rights);
  }

  lemma RootBehind(ops: seq<Op>, cap: nat) returns (r: Cap)
    requires cap < MAX_CAPS && Run(EmptyTable(), ops)[cap].kind != 0
    ensures r in Roots(ops) && r.target == Run(EmptyTable(), ops)[cap].target
    ensures Within(Run(EmptyTable(), ops)[cap].rights, r.rights)
  {
    hide Within, Lacking, Run, Roots;
    RunCovered(EmptyTable(), ops, {});
    assert {} + Roots(ops) == Roots(ops);
    var e := Run(EmptyTable(), ops)[cap];
    assert CoveredBy(e, Roots(ops));
    r :| r in Roots(ops) && r.kind == e.kind && r.target == e.target && Lacking(e.rights, r.rights) == 0;
    WithinLacksNothing(e.rights, r.rights);
  }

  /** No capability of a run has a bit that the root insert behind it lacked, mask by mask. */
  lemma EveryBitHasRoot(ops: seq<Op>, cap: nat, mask: bv32) returns (r: Cap)
    requires cap < MAX_CAPS && Run(EmptyTable(), ops)[cap].kind != 0
    requires Run(EmptyTable(), ops)[cap].rights & mask != 0
    ensures r in Roots(ops) && r.target == Run(EmptyTable(), ops)[cap].target && r.rights & mask != 0
  {
    hide Within, Run, Roots, EmptyTable;
    r := RootBehind(ops, cap);
    EveryBitFound(Run(EmptyTable(), ops)[cap].rights, r.rights, mask);
  }

  /** A live capability stays as it is until it is itself revoked. */
  lemma {:induction false} CapStays(t: Table, ops: seq<Op>, i: nat)
    requires i < MAX_CAPS && t[i].kind != 0 && RevokeOp(i) !in ops
    ensures Run(t, ops)[i] == t[i]
    decreases |ops|
  {
    hide Within, Lacking;
    if ops != [] {
      CapStays(Step(t, ops[0]), ops[1..], i);
    }
  }

  /** A derived capability is good for exactly the rights it was derived with, over any run that
      does not revoke it, whatever becomes of the one it was derived from. */
  lemma DerivedStays(t: Table, source: nat, rights: bv32, ops: seq<Op>, required: bv32)
    requires DeriveStatus(t, source, rights) == Success && RevokeOp(FreeFrom(t, 0)) !in ops
    ensures Lookup(Run(Derive(t, source, rights), ops), FreeFrom(t, 0), required)
         == if Lacking(required, rights) == 0 then t[source].target else 0
    ensures Lacking(rights, t[source].rights) == 0
  {
    hide Within, Lacking, Run;
    WithinLacksNothing(required, rights);
    WithinLacksNothing(rights, t[source].rights);
    CapStays(Derive(t, source, rights), ops, FreeFrom(t, 0));
  }

  /** A look-up that succeeds finds every bit it asks for; one that is refused, with an object to
      give, asks for a bit the capability has not. */
  lemma LookupBits(t: Table, cap: nat, required: bv32, mask: bv32) returns (missing: bv32)
    requires cap < MAX_CAPS && t[cap].kind != 0
    ensures Lookup(t, cap, required) != 0 && required & mask != 0 ==> t[cap].rights & mask != 0
    ensures Lookup(t, cap, required) == 0 && t[cap].target != 0 ==>
      required & missing != 0 && t[cap].rights & missing == 0
  {
    hide Within, Lacking;
    WithinLacksNothing(required, t[cap].rights);
    if Within(required, t[cap].rights) {
      if required & mask != 0 {
        EveryBitFound(required, t[cap].rights, mask);
      }
    }
    LackingIsMissing(required, t[cap].rights);
    missing := Lacking(required, t[cap].rights);
  }

  /** Deriving succeeds only for bits the source has, and is denied only for one it has not. */
  lemma DeriveBits(t: Table, source: nat, rights: bv32, mask: bv32) returns (missing: bv32)
    requires source < MAX_CAPS
    ensures DeriveStatus(t, source, rights) == Success && rights & mask != 0 ==> t[source].rights & mask != 0
    ensures DeriveStatus(t, source, rights) == AccessDenied ==>
      rights & missing != 0 && t[source].rights & missing == 0
  {
    hide Within, Lacking, FreeFrom;
    WithinLacksNothing(rights, t[source].rights);
    if Within(rights, t[source].rights) {
      if rights & mask != 0 {
        EveryBitFound(rights, t[source].rights, mask);
      }
    }
    LackingIsMissing(rights, t[source].rights);
    missing := Lacking(rights, t[source].rights);
  }

  /** Equal but for what free entries still hold. */
  predicate SameLive(t: Table, u: Table) {
    forall i :: 0 <= i < MAX_CAPS ==> t[i].kind == u[i].kind && (t[i].kind != 0 ==> t[i] == u[i])
  }

  lemma {:induction false} SameFree(t: Table, u: Table, i: nat)
    requires SameLive(t, u) && i <= MAX_CAPS
    ensures FreeFrom(t, i) == FreeFrom(u, i)
    decreases MAX_CAPS - i
  {
    if i < MAX_CAPS {
      SameFree(t, u, i + 1);
    }
  }

  lemma SameStep(t: Table, u: Table, op: Op)
    requires SameLive(t, u)
    ensures SameLive(Step(t, op), Step(u, op))
    ensures op.InsertOp? && op.cap.kind == 0 ==> SameLive(Step(t, op), u)
  {
    hide Within, Lacking, FreeFrom;
    SameFree(t, u, 0);
  }

  /** The operations but the inserts of type 0. */
  function Useful(ops: seq<Op>): seq<Op>
    decreases |ops|
  {
    if ops == [] then []
    else (if ops[0].InsertOp? && ops[0].cap.kind == 0 then [] else [ops[0]]) + Useful(ops[1..])
  }

  /** Inserting type 0 reports a place, but no look-up after any run can tell that it happened. */
  lemma {:induction false} TypeZeroIsLost(t: Table, u: Table, ops: seq<Op>, cap: nat, required: bv32)
    requires SameLive(t, u)
    ensures SameLive(Run(t, ops), Run(u, Useful(ops)))
    ensures Lookup(Run(t, ops), cap, required) == Lookup(Run(u, Useful(ops)), cap, required)
    decreases |ops|
  {
    hide Within, Lacking, Step, SameLive;
    if ops == [] {
      SameLookup(t, u, cap, required);
    } else {
      SameStep(t, u, ops[0]);
      if ops[0].InsertOp? && ops[0].cap.kind == 0 {
        assert Useful(ops) == Useful(ops[1..]);
        TypeZeroIsLost(Step(t, ops[0]), u, ops[1..], cap, required);
      } else {
        assert Useful(ops)[0] == ops[0] && Useful(ops)[1..] == Useful(ops[1..]);
        TypeZeroIsLost(Step(t, ops[0]), Step(u, ops[0]), ops[1..], cap, required);
      }
    }
  }

  /** From one table: leaving out the inserts of type 0 changes no look-up. */
  lemma TypeZeroInserts(t: Table, ops: seq<Op>, cap: nat, required: bv32)
    ensures Lookup(Run(t, ops), cap, required) == Lookup(Run(t, Useful(ops)), cap, required)
  {
    hide Within, Lacking, Run, Useful, Lookup;
    TypeZeroIsLost(t, t, ops, cap, required);
  }

  /** As a run: a capability derived with all the rights of its source, and the
      source revoked, is the source under its new name. */
  lemma {:induction false} MovedByRun(t: Table, source: nat, required: bv32)
    requires source < MAX_CAPS && t[source].kind != 0 && FreeFrom(t, 0) < MAX_CAPS
    ensures var r := Run(t, [DeriveOp(source, t[source].rights), RevokeOp(source)]);
      && Lookup(r, source, required) == 0
      && Lookup(r, FreeFrom(t, 0), required) == Lookup(t, source, required)
  {
    hide Within, Lacking;
    var rights := t[source].rights;
    WithinSelf(rights);
    var d := Derive(t, source, rights);
    assert [DeriveOp(source, rights), RevokeOp(source)][1..] == [RevokeOp(source)];
    assert [RevokeOp(source)][1..] == [];
    assert Run(d, [RevokeOp(source)]) == Run(Revoke(d, source), []) == Revoke(d, source);
  }

  lemma SameLookup(t: Table, u: Table, cap: nat, required: bv32)
    requires SameLive(t, u)
    ensures Lookup(t, cap, required) == Lookup(u, cap, required)
  {
    hide Within, Lacking;
  }

  lemma FirstFree(t: Table, c: Cap, f: nat)
    requires f <= MAX_CAPS && (forall k :: 0 <= k < f ==> t[k].kind != 0) && (f < MAX_CAPS ==> t[f].kind == 0)
    ensures FreeFrom(t, 0) == f && Insert(t, c) == if f < MAX_CAPS then t[f := c] else t
  {
  }

  class CapTable {
    const entries: array<Cap>

    ghost predicate Valid()
      reads this
    {
      entries.Length == MAX_CAPS
    }

    constructor ()
      ensures Valid() && fresh(entries) && entries[..] == EmptyTable()
      ensures forall i :: 0 <= i < 256 ==> entries[i] == Cap(0, 0, 0)
    {
      entries := new Cap[MAX_CAPS](_ => Cap(0, 0, 0));
    }

    /** L4CapInsert */
    method InsertCap(kind: nat, rights: bv32, target: nat) returns (status: Status, cap: nat)
      requires Valid()
      modifies entries
      ensures entries[..] == Insert(old(entries[..]), Cap(kind, rights, target))
      ensures cap == FreeFrom(old(entries[..]), 0)
      ensures status == if cap < MAX_CAPS then Success else InsufficientResources
      ensures cap < 256 <==> exists i :: 0 <= i < 256 && old(entries[i]).kind == 0
      ensures cap < 256 ==> entries[cap] == Cap(kind, rights, target) && old(entries[cap]).kind == 0
      ensures forall i :: 0 <= i < 256 && i != cap ==> entries[i] == old(entries[i])
      ensures forall i :: 0 <= i < cap && i < 256 ==> entries[i].kind != 0
    {
      hide FreeFrom, Insert;
      ghost var t: Table := entries[..];
      cap := 0;
      while cap < MAX_CAPS
        invariant 0 <= cap <= MAX_CAPS && entries[..] == t
        invariant forall k :: 0 <= k < cap ==> entries[k].kind != 0
      {
        if entries[cap].kind == 0 {
          FirstFree(t, Cap(kind, rights, target), cap);
          entries[cap] := Cap(kind, rights, target);
          return Success, cap;
        }
        cap := cap + 1;
      }
      FirstFree(t, Cap(kind, rights, target), cap);
      status := InsufficientResources;
    }

    /** L4CapLookup */
    method LookupCap(cap: nat, required: bv32) returns (target: nat)
      requires Valid()
      ensures target == Lookup(entries[..], cap, required)
      ensures target == if cap < 256 && entries[cap].kind != 0 && Lacking(required, entries[cap].rights) == 0
                        then entries[cap].target else 0
    {
      hide Common, Lacking;
      if cap < MAX_CAPS {
        WithinLacksNothing(required, entries[cap].rights);
      }
      if cap >= MAX_CAPS {
        return 0;
      }
      var e := entries[cap];
      if e.kind == 0 {
        return 0;
      }
      if Common(required, e.rights) != required {
        return 0;
      }
      target := e.target;
    }

    /** L4CapRevoke */
    method RevokeCap(cap: nat) returns (status: Status)
      requires Valid()
      modifies entries
      ensures entries[..] == Revoke(old(entries[..]), cap)
      ensures cap >= MAX_CAPS ==> status == InvalidParameter
      ensures cap < MAX_CAPS ==> status == if old(entries[cap]).kind == 0 then NotFound else Success
      ensures status == Success ==> entries[cap] == Cap(0, 0, 0)
      ensures forall i :: 0 <= i < 256 && !(status == Success && i == cap) ==> entries[i] == old(entries[i])
    {
      if cap >= MAX_CAPS {
        return InvalidParameter;
      }
      if entries[cap].kind == 0 {
        return NotFound;
      }
      entries[cap] := Cap(0, 0, 0);
      status := Success;
    }

    /** L4CapDerive */
    method DeriveCap(source: nat, rights: bv32) returns (status: Status, cap: nat)
      requires Valid()
      modifies entries
      ensures entries[..] == Derive(old(entries[..]), source, rights)
      ensures status == DeriveStatus(old(entries[..]), source, rights)
      ensures status == Success ==> cap == FreeFrom(old(entries[..]), 0)
      ensures status == if source >= 256 then InvalidParameter
                        else if old(entries[source]).kind == 0 then NotFound
                        else if Lacking(rights, old(entries[source]).rights) != 0 then AccessDenied
                        else if forall i :: 0 <= i < 256 ==> old(entries[i]).kind != 0 then InsufficientResources
                        else Success
      ensures status == Success ==>
        cap < 256 && old(entries[cap]).kind == 0 && entries[cap] == old(entries[source]).(rights := rights)
      ensures forall i :: 0 <= i < 256 && !(status == Success && i == cap) ==> entries[i] == old(entries[i])
    {
      hide Common, Lacking, FreeFrom, Insert;
      if source < MAX_CAPS {
        WithinLacksNothing(rights, entries[source].rights);
      }
      cap := MAX_CAPS;
      if source >= MAX_CAPS {
        return InvalidParameter, cap;
      }
      var e := entries[source];
      if e.kind == 0 {
        return NotFound, cap;
      }
      if Common(rights, e.rights) != rights {
        return AccessDenied, cap;
      }
      FullInsert(entries[..], e.(rights := rights));
      status, cap := InsertCap(e.kind, rights, e.target);
    }
  }

  lemma FullInsert(t: Table, c: Cap)
    ensures FreeFrom(t, 0) == MAX_CAPS ==> Insert(t, c) == t
  {
  }
}
