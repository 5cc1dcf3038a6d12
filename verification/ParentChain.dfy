/** HiveCheckCircularReferences of config/hive/hivechek.c: a walk up the parents of a key cell
    that remembers the first 256 cells it met. */
module ParentChain {
  import opened Sets

  const MAX_VISITED: int := 256

  /** The parent field of every cell that is a key cell; any other offset has no key cell. */
  type Parents = map<nat, nat>

  /** The cell after n steps up, 0 once the walk has ended. */
  function Chain(parents: Parents, start: nat, n: nat): nat {
    if n == 0 then start
    else
      var c := Chain(parents, start, n - 1);
      if c == 0 || c !in parents then 0 else parents[c]
  }

  /** Step d comes back to the cell of step i. */
  predicate Repeats(parents: Parents, start: nat, i: nat, d: nat) {
    i < d && Chain(parents, start, d) != 0 && Chain(parents, start, i) == Chain(parents, start, d)
  }

  /** A cell among the first 256 is met again within the depth. */
  ghost predicate Caught(parents: Parents, start: nat, maxDepth: nat) {
    exists i: nat, d: nat :: i < MAX_VISITED && d < maxDepth && Repeats(parents, start, i, d)
  }

  ghost predicate NeverEnds(parents: Parents, start: nat) {
    forall n: nat :: Chain(parents, start, n) != 0
  }

  /** What the walk knows at depth d: no earlier remembered cell was met again. */
  ghost predicate NoneYet(parents: Parents, start: nat, d: nat) {
    forall i: nat, k: nat :: i < MAX_VISITED && k < d ==> !Repeats(parents, start, i, k)
  }

  /** HiveCheckCircularReferences: true exactly when a remembered cell is met again in time. */
  method CheckCircularReferences(parents: Parents, start: nat, maxDepth: nat) returns (circular: bool)
    ensures circular <==> Caught(parents, start, maxDepth)
  {
    if start == 0 || maxDepth == 0 {
      EndedStays(parents, start, 0);
      return false;
    }
    var visited: seq<nat> := [];
    var current := start;
    var depth := 0;
    while current != 0 && depth < maxDepth
      invariant 0 <= depth <= maxDepth && current == Chain(parents, start, depth)
      invariant |visited| == if depth < MAX_VISITED then depth else MAX_VISITED
      invariant forall i :: 0 <= i < |visited| ==> visited[i] == Chain(parents, start, i)
      invariant NoneYet(parents, start, depth)
      decreases maxDepth - depth
    {
      var i := 0;
      while i < |visited|
        invariant 0 <= i <= |visited|
        invariant forall k :: 0 <= k < i ==> visited[k] != current
      {
        if visited[i] == current {
          assert Repeats(parents, start, i, depth);
          return true;
        }
        i := i + 1;
      }
      NoneHere(parents, start, depth, visited);
      if |visited| < MAX_VISITED {
        visited := visited + [current];
      }
      if current !in parents {
        EndedStays(parents, start, depth + 1);
        return false;
      }
      current := parents[current];
      depth := depth + 1;
    }
    if current == 0 {
      EndedStays(parents, start, depth);
    }
    circular := false;
  }

  lemma NoneHere(parents: Parents, start: nat, depth: nat, visited: seq<nat>)
    requires NoneYet(parents, start, depth)
    requires |visited| == if depth < MAX_VISITED then depth else MAX_VISITED
    requires forall i :: 0 <= i < |visited| ==> visited[i] == Chain(parents, start, i) != Chain(parents, start, depth)
    ensures NoneYet(parents, start, depth + 1)
  {
    forall i: nat, k: nat | i < MAX_VISITED && k < depth + 1
      ensures !Repeats(parents, start, i, k)
    {
      if k == depth && i < depth {
        assert visited[i] != Chain(parents, start, depth);
      }
    }
  }

  /** Once ended, the walk stays ended. */
  lemma {:induction false} EndedStays(parents: Parents, start: nat, n: nat)
    ensures Chain(parents, start, n) == 0 ==> forall k: nat :: k >= n ==> Chain(parents, start, k) == 0
  {
    if Chain(parents, start, n) == 0 {
      forall k: nat | k >= n
        ensures Chain(parents, start, k) == 0
      {
        EndedBy(parents, start, n, k);
      }
    }
  }

  lemma {:induction false} EndedBy(parents: Parents, start: nat, n: nat, k: nat)
    requires Chain(parents, start, n) == 0 && k >= n
    ensures Chain(parents, start, k) == 0
    decreases k
  {
    if k > n {
      EndedBy(parents, start, n, k - 1);
    }
  }

  lemma {:induction false} Periodic(parents: Parents, start: nat, i: nat, d: nat, k: nat)
    requires Chain(parents, start, i) == Chain(parents, start, d)
    ensures Chain(parents, start, i + k) == Chain(parents, start, d + k)
  {
    if k > 0 {
      Periodic(parents, start, i, d, k - 1);
    }
  }

  /** A cell met again is a real cycle: the parents never come to an end. */
  lemma {:induction false} RepeatNeverEnds(parents: Parents, start: nat, i: nat, d: nat, n: nat)
    requires Repeats(parents, start, i, d)
    ensures Chain(parents, start, n) != 0
    decreases n
  {
    if n <= d {
      if Chain(parents, start, n) == 0 {
        EndedBy(parents, start, n, d);
      }
    } else {
      Periodic(parents, start, i, d, n - d);
      RepeatNeverEnds(parents, start, i, d, n - (d - i));
    }
  }

  /** Soundness: what is reported is a cycle. */
  lemma CaughtIsCycle(parents: Parents, start: nat, maxDepth: nat)
    requires Caught(parents, start, maxDepth)
    ensures NeverEnds(parents, start)
  {
    var i: nat, d: nat :| i < MAX_VISITED && d < maxDepth && Repeats(parents, start, i, d);
    forall n: nat
      ensures Chain(parents, start, n) != 0
    {
      RepeatNeverEnds(parents, start, i, d, n);
    }
  }

  /** The cells of the first n steps. */
  function Met(parents: Parents, start: nat, n: nat): set<nat> {
    if n == 0 then {} else Met(parents, start, n - 1) + {Chain(parents, start, n - 1)}
  }

  lemma {:induction false} MetAt(parents: Parents, start: nat, n: nat, c: nat) returns (i: nat)
    requires c in Met(parents, start, n)
    ensures i < n && Chain(parents, start, i) == c
    decreases n
  {
    if c == Chain(parents, start, n - 1) {
      i := n - 1;
    } else {
      i := MetAt(parents, start, n - 1, c);
    }
  }

  lemma SeenBefore(parents: Parents, start: nat, n: nat)
    requires Chain(parents, start, n) != 0 && Chain(parents, start, n) in Met(parents, start, n)
    ensures exists i: nat :: Repeats(parents, start, i, n)
  {
    var i := MetAt(parents, start, n, Chain(parents, start, n));
    assert Repeats(parents, start, i, n);
  }

  lemma {:induction false} MetDistinct(parents: Parents, start: nat, n: nat)
    requires NeverEnds(parents, start)
    requires forall i: nat, d: nat :: d < n ==> !Repeats(parents, start, i, d)
    ensures |Met(parents, start, n)| == n && Met(parents, start, n) <= parents.Keys
  {
    if n > 0 {
      MetDistinct(parents, start, n - 1);
      assert Chain(parents, start, n - 1) != 0 && Chain(parents, start, n) != 0;
      if Chain(parents, start, n - 1) in Met(parents, start, n - 1) {
        SeenBefore(parents, start, n - 1);
      }
    }
  }

  lemma KeysSize(parents: Parents)
    ensures |parents.Keys| == |parents|
  {
  }

  /** A walk that never ends meets some cell again within as many steps as there are key cells. */
  lemma MustRepeat(parents: Parents, start: nat) returns (i: nat, d: nat)
    requires NeverEnds(parents, start)
    ensures d <= |parents| && Repeats(parents, start, i, d)
  {
    i, d := 0, 0;
    if k: nat, e: nat :| e <= |parents| && Repeats(parents, start, k, e) {
      i, d := k, e;
    } else {
      var n := |parents| + 1;
      KeysSize(parents);
      MetDistinct(parents, start, n);
      SubsetSize(Met(parents, start, n), parents.Keys);
      assert false;
    }
  }

  /** Completeness: with at most 256 key cells and a depth above their number, the check decides
      whether the parents ever come to an end. */
  lemma SmallHiveDecided(parents: Parents, start: nat, maxDepth: nat)
    requires |parents| <= MAX_VISITED && maxDepth > |parents|
    ensures Caught(parents, start, maxDepth) <==> NeverEnds(parents, start)
  {
    if Caught(parents, start, maxDepth) {
      CaughtIsCycle(parents, start, maxDepth);
    }
    if NeverEnds(parents, start) {
      var i, d := MustRepeat(parents, start);
    }
  }

  // ----- Cycle by cycle

  /** The walk runs e steps into a cycle of p cells, none of the first e + p cells met twice. */
  ghost predicate Enters(parents: Parents, start: nat, e: nat, p: nat) {
    && Repeats(parents, start, e, e + p)
    && forall i: nat, d: nat :: d < e + p ==> !Repeats(parents, start, i, d)
  }

  /** Every walk that never ends runs into a cycle. */
  lemma EveryCycleEnters(parents: Parents, start: nat) returns (e: nat, p: nat)
    requires NeverEnds(parents, start)
    ensures Enters(parents, start, e, p)
  {
    hide Repeats, Chain;
    var i, d := MustRepeat(parents, start);
    i, d := FirstRepeat(parents, start, i, d);
    RepeatForward(parents, start, i, d);
    e, p := i, d - i;
  }

  lemma {:induction false} FirstRepeat(parents: Parents, start: nat, i: nat, d: nat) returns (j: nat, f: nat)
    requires Repeats(parents, start, i, d)
    ensures Repeats(parents, start, j, f) && forall k: nat, g: nat :: g < f ==> !Repeats(parents, start, k, g)
    decreases d
  {
    hide Repeats;
    if k: nat, g: nat :| g < d && Repeats(parents, start, k, g) {
      j, f := FirstRepeat(parents, start, k, g);
    } else {
      j, f := i, d;
    }
  }

  lemma RepeatForward(parents: Parents, start: nat, i: nat, d: nat)
    requires Repeats(parents, start, i, d)
    ensures i < d
  {
  }

  /** A step on the cycle is one of its first p steps again. */
  lemma {:induction false} BackToFirstRound(parents: Parents, start: nat, e: nat, p: nat, d: nat) returns (r: nat)
    requires Repeats(parents, start, e, e + p) && d >= e
    ensures e <= r < e + p && Chain(parents, start, r) == Chain(parents, start, d) && r <= d
    decreases d
  {
    if d < e + p {
      r := d;
    } else {
      Periodic(parents, start, e, e + p, d - p - e);
      r := BackToFirstRound(parents, start, e, p, d - p);
    }
  }

  /** Nothing is met again before the cycle closes, and nothing before its entry ever. */
  lemma RepeatsOnCycle(parents: Parents, start: nat, e: nat, p: nat, i: nat, d: nat)
    requires Enters(parents, start, e, p) && Repeats(parents, start, i, d)
    ensures i >= e && d >= e + p
  {
    hide Chain;
    if d >= e + p && i < e {
      var r := BackToFirstRound(parents, start, e, p, d);
      EarlierRepeat(parents, start, i, r, d);
      assert false;
    }
  }

  lemma EarlierRepeat(parents: Parents, start: nat, i: nat, r: nat, d: nat)
    requires Repeats(parents, start, i, d) && i < r && Chain(parents, start, r) == Chain(parents, start, d)
    ensures Repeats(parents, start, i, r)
  {
  }

  /** A cycle is reported exactly when it is entered before step 256 and closed before the
      depth runs out. */
  lemma CycleReportedExactly(parents: Parents, start: nat, e: nat, p: nat, maxDepth: nat)
    requires Enters(parents, start, e, p)
    ensures Caught(parents, start, maxDepth) <==> e < 256 && e + p < maxDepth
  {
    hide Repeats;
    if Caught(parents, start, maxDepth) {
      var i: nat, d: nat :| i < MAX_VISITED && d < maxDepth && Repeats(parents, start, i, d);
      RepeatsOnCycle(parents, start, e, p, i, d);
    }
  }

  // ----- All hives of a size

  /** For every hive of up to n key cells the check says whether the parents never end. */
  ghost predicate Decides(n: nat, maxDepth: nat) {
    forall parents: Parents, start: nat :: |parents| <= n ==>
      (Caught(parents, start, maxDepth) <==> NeverEnds(parents, start))
  }

  /** 1 is a child of 2, and so on up to k. */
  function Line(k: nat): Parents {
    if k == 0 then map[] else Line(k - 1)[k := k + 1]
  }

  lemma {:induction false} LineAt(k: nat, n: nat)
    ensures n in Line(k) <==> 1 <= n <= k
    ensures 1 <= n <= k ==> Line(k)[n] == n + 1
  {
    if k > 0 {
      LineAt(k - 1, n);
    }
  }

  lemma {:induction false} LineSize(k: nat)
    ensures |Line(k)| == k
  {
    if k > 0 {
      LineSize(k - 1);
      LineAt(k - 1, k);
    }
  }

  /** A line of n cells whose last is its own parent, or leads back to the first. */
  function Looped(n: nat, back: nat): Parents
    requires n > 0
  {
    Line(n - 1)[n := back]
  }

  lemma {:induction false} LoopedAt(n: nat, back: nat, k: nat)
    requires 1 <= back <= n
    ensures k < n ==> Chain(Looped(n, back), 1, k) == k + 1
    ensures 1 <= Chain(Looped(n, back), 1, k) <= n
    ensures k >= n && back == n ==> Chain(Looped(n, back), 1, k) == n
  {
    hide Line;
    if k > 0 {
      LoopedAt(n, back, k - 1);
      LineAt(n - 1, Chain(Looped(n, back), 1, k - 1));
    }
  }

  lemma LoopedNeverEnds(n: nat, back: nat)
    requires 1 <= back <= n
    ensures |Looped(n, back)| == n && NeverEnds(Looped(n, back), 1)
  {
    hide Looped;
    forall k: nat
      ensures Chain(Looped(n, back), 1, k) != 0
    {
      LoopedAt(n, back, k);
    }
    LoopedSize(n, back);
  }

  lemma LoopedSize(n: nat, back: nat)
    requires n > 0
    ensures |Looped(n, back)| == n
  {
    LineSize(n - 1);
    LineAt(n - 1, n);
  }

  /** A ring of n cells closes only at depth n. */
  lemma RingMissed(n: nat, maxDepth: nat)
    requires 0 < n && maxDepth <= n
    ensures !Caught(Looped(n, 1), 1, maxDepth)
  {
    hide Looped, Chain;
    forall i: nat, d: nat | d < maxDepth
      ensures !Repeats(Looped(n, 1), 1, i, d)
    {
      if i < d {
        LoopedAt(n, 1, i);
        LoopedAt(n, 1, d);
      }
    }
  }

  /** A self-parent reached only after 256 cells is never noticed. */
  lemma LateLoopMissed(n: nat, maxDepth: nat)
    requires n > MAX_VISITED
    ensures !Caught(Looped(n, n), 1, maxDepth)
  {
    hide Looped, Chain;
    forall i: nat, d: nat | i < MAX_VISITED
      ensures !Repeats(Looped(n, n), 1, i, d)
    {
      LoopedAt(n, n, i);
      LoopedAt(n, n, d);
    }
  }

  lemma EmptyHiveDecided(start: nat, maxDepth: nat)
    ensures !Caught(map[], start, maxDepth) && !NeverEnds(map[], start)
  {
    assert Chain(map[], start, 1) == 0;
    forall i: nat, d: nat
      ensures !Repeats(map[], start, i, d)
    {
      if i < d {
        EndedBy(map[], start, 1, d);
      }
    }
  }

  /** The check decides every hive of up to n key cells exactly when it remembers that many and
      may walk further, or there are none. */
  lemma DecidesExactly(n: nat, maxDepth: nat)
    ensures Decides(n, maxDepth) <==> n == 0 || (n <= 256 && maxDepth > n)
  {
    hide Caught, NeverEnds, Looped;
    if n == 0 {
      forall parents: Parents, start: nat | |parents| <= n
        ensures Caught(parents, start, maxDepth) <==> NeverEnds(parents, start)
      {
        assert parents == map[];
        EmptyHiveDecided(start, maxDepth);
      }
    } else if n <= MAX_VISITED && maxDepth > n {
      forall parents: Parents, start: nat | |parents| <= n
        ensures Caught(parents, start, maxDepth) <==> NeverEnds(parents, start)
      {
        SmallHiveDecided(parents, start, maxDepth);
      }
    } else if n <= MAX_VISITED {
      LoopedNeverEnds(n, 1);
      RingMissed(n, maxDepth);
    } else {
      LoopedNeverEnds(n, n);
      LateLoopMissed(n, maxDepth);
    }
  }
}
