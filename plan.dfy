/** The move planner of `src/plan.rs`: `pull_a_chain` groups the moves into
    chains in which each move frees the destination of the one before it,
    and `sort_actions` emits every chain backwards, breaking a circular
    chain with a temporary name. */
module Plan {
  import opened Types
  import opened TempNames

  /** Why planning stops. The repository reports both as messages. */
  datatype PlanError =
    | Conflict(src: string, dest1: string, dest2: string)  // one file, two destinations
    | NoTempName(path: string)                              // every temporary name exists

  // ---------------------------------------------------------------------
  // Finding the next link

  /** The first position at or after `from` whose action moves `target`:
      `iter().skip(from).find(...)` on the sources. */
  function FindSrc(actions: seq<Action>, target: string, from: nat): (r: Option<nat>)
    ensures r.Some? ==> from <= r.value < |actions| && actions[r.value].src == target
    decreases |actions| - from
  {
    if from >= |actions| then None
    else if actions[from].src == target then Some(from)
    else FindSrc(actions, target, from + 1)
  }

  /** `FindSrc` finds the first such position, and finds none only when
      there is none. */
  lemma {:induction false} FindSrcFirst(actions: seq<Action>, target: string, from: nat)
    ensures FindSrc(actions, target, from).Some? ==>
      forall m :: from <= m < FindSrc(actions, target, from).value ==> actions[m].src != target
    ensures FindSrc(actions, target, from).None? <==>
      forall m :: from <= m < |actions| ==> actions[m].src != target
    decreases |actions| - from
  {
    if from < |actions| && actions[from].src != target {
      FindSrcFirst(actions, target, from + 1);
    }
  }

  /** The search as the repository writes it: a scan from `from`. */
  method FindSrcFrom(actions: seq<Action>, target: string, from: nat) returns (r: Option<nat>)
    ensures r == FindSrc(actions, target, from)
  {
    var k := from;
    while k < |actions|
      invariant from <= k || |actions| <= k
      invariant FindSrc(actions, target, from) == FindSrc(actions, target, k)
      decreases |actions| - k
    {
      if actions[k].src == target {
        return Some(k);
      }
      k := k + 1;
    }
    return None;
  }

  /** What one pass of the outer loop of `pull_a_chain` finds. */
  datatype Link = Done | Grow(next: nat) | Fail(error: PlanError)

  /** One pass of the outer loop of `pull_a_chain`: the first action after
      the head that moves the last destination of the chain continues it,
      unless a later action moves that file too. The head itself is never
      looked at again. */
  function ChainStep(actions: seq<Action>, chain: seq<nat>): (r: Link)
    requires |chain| > 0 && chain[|chain| - 1] < |actions|
    ensures r.Grow? ==> 1 <= r.next < |actions| && actions[r.next].src == actions[chain[|chain| - 1]].dest
  {
    var curr := actions[chain[|chain| - 1]];
    match FindSrc(actions, curr.dest, 1)
    case None => Done
    case Some(i) =>
      match FindSrc(actions, curr.dest, i + 1)
      case Some(k) => Fail(Conflict(actions[i].src, actions[i].dest, actions[k].dest))
      case None => Grow(i)
  }

  /** A chain: distinct positions starting at the head, each action moving
      the file the one before it left behind. */
  predicate IsChain(actions: seq<Action>, chain: seq<nat>)
  {
    |chain| > 0 && chain[0] == 0 &&
    (forall p :: 0 <= p < |chain| ==> chain[p] < |actions|) &&
    (forall p :: 0 < p < |chain| ==> 1 <= chain[p] && actions[chain[p]].src == actions[chain[p - 1]].dest) &&
    (forall p, q :: 0 <= p < q < |chain| ==> chain[p] != chain[q])
  }

  /** With distinct destinations the next link is never already in the
      chain: a repeated position would need two moves to one destination. */
  lemma GrowFresh(actions: seq<Action>, chain: seq<nat>, i: nat)
    requires DistinctDests(actions) && IsChain(actions, chain)
    requires ChainStep(actions, chain) == Grow(i)
    ensures i !in chain
    ensures IsChain(actions, chain + [i])
  {
    forall p | 0 <= p < |chain|
      ensures chain[p] != i
    {
      if 0 < p {
        assert chain[p - 1] != chain[|chain| - 1];
        assert actions[chain[p - 1]].dest != actions[chain[|chain| - 1]].dest;
      }
    }
  }

  /** The positions a chain has not reached yet: what shrinks as it grows. */
  function Unreached(actions: seq<Action>, chain: seq<nat>): set<nat>
  {
    set k | 0 <= k < |actions| && k !in chain
  }

  lemma UnreachedShrinks(actions: seq<Action>, chain: seq<nat>, i: nat)
    requires i < |actions| && i !in chain
    ensures Unreached(actions, chain + [i]) < Unreached(actions, chain)
  {
    assert i in Unreached(actions, chain);
    assert i !in Unreached(actions, chain + [i]);
  }

  /** The chain grown from `chain` until no action continues it. */
  function Extend(actions: seq<Action>, chain: seq<nat>): Result<seq<nat>, PlanError>
    requires DistinctDests(actions) && IsChain(actions, chain)
    decreases Unreached(actions, chain)
  {
    match ChainStep(actions, chain)
    case Done => Ok(chain)
    case Fail(e) => Err(e)
    case Grow(i) =>
      GrowFresh(actions, chain, i);
      UnreachedShrinks(actions, chain, i);
      Extend(actions, chain + [i])
  }

  /** A pass that finds a successor leaves the rest of the loop to the
      grown chain. */
  lemma ExtendGrow(actions: seq<Action>, chain: seq<nat>, i: nat)
    requires DistinctDests(actions) && IsChain(actions, chain)
    requires ChainStep(actions, chain) == Grow(i)
    ensures IsChain(actions, chain + [i])
    ensures Extend(actions, chain) == Extend(actions, chain + [i])
  {
    GrowFresh(actions, chain, i);
  }

  /** `pull_a_chain`: the positions of the chain that starts with the first
      action, or the two destinations of a file moved twice. */
  function PullChain(actions: seq<Action>): Result<seq<nat>, PlanError>
    requires DistinctDests(actions)
  {
    if actions == [] then Ok([])
    else
      match FindSrc(actions, actions[0].src, 1)
      case Some(k) => Err(Conflict(actions[0].src, actions[0].dest, actions[k].dest))
      case None => Extend(actions, [0])
  }

  /** `pull_a_chain` as the repository writes it: a loop that rescans the
      actions for a successor of the last link until a scan finds none. */
  method PullAChain(actions: seq<Action>) returns (r: Result<seq<nat>, PlanError>)
    requires DistinctDests(actions)
    ensures r == PullChain(actions)
  {
    if |actions| == 0 {
      return Ok([]);
    }
    var head := actions[0];
    var other := FindSrcFrom(actions, head.src, 1);
    if other.Some? {
      return Err(Conflict(head.src, head.dest, actions[other.value].dest));
    }
    var indices: seq<nat> := [0];
    while true
      invariant IsChain(actions, indices)
      invariant PullChain(actions) == Extend(actions, indices)
      decreases Unreached(actions, indices)
    {
      var step := NextLink(actions, indices);
      match step
      case Done =>
        return Ok(indices);
      case Fail(e) =>
        return Err(e);
      case Grow(i) =>
        GrowFresh(actions, indices, i);
        UnreachedShrinks(actions, indices, i);
        indices := indices + [i];
    }
  }

  /** One pass of the outer loop of `pull_a_chain`: the scan for an action
      that moves the last destination of the chain, and the check that no
      later action moves it too. */
  method NextLink(actions: seq<Action>, indices: seq<nat>) returns (r: Link)
    requires |indices| > 0 && indices[|indices| - 1] < |actions|
    ensures r == ChainStep(actions, indices)
  {
    var curr := actions[indices[|indices| - 1]];
    for i := 1 to |actions|
      invariant forall m :: 1 <= m < i ==> actions[m].src != curr.dest
    {
      if actions[i].src != curr.dest {
        continue;
      }
      var a := FindSrcFrom(actions, curr.dest, i + 1);
      FindSrcFirst(actions, curr.dest, 1);
      if a.Some? {
        return Fail(Conflict(actions[i].src, actions[i].dest, actions[a.value].dest));
      }
      return Grow(i);
    }
    FindSrcFirst(actions, curr.dest, 1);
    return Done;
  }

  // ---------------------------------------------------------------------
  // What a chain is

  /** No action outside the given positions moves the same file as one at
      them. */
  predicate UniqueSrcs(actions: seq<Action>, chain: seq<nat>)
    requires forall p :: 0 <= p < |chain| ==> chain[p] < |actions|
  {
    forall p, m :: 0 <= p < |chain| && 0 <= m < |actions| && actions[m].src == actions[chain[p]].src ==> m == chain[p]
  }

  /** An error names a file that two actions move, and their two
      destinations. */
  predicate SharedSource(actions: seq<Action>, e: PlanError)
  {
    e.Conflict? &&
    exists i, k :: 0 <= i < k < |actions| && actions[i] == Action(e.src, e.dest1) && actions[k] == Action(e.src, e.dest2)
  }

  /** A link found by `ChainStep` moves a file no other action moves. */
  lemma GrowUnique(actions: seq<Action>, chain: seq<nat>, i: nat)
    requires DistinctDests(actions) && IsChain(actions, chain) && UniqueSrcs(actions, chain)
    requires ChainStep(actions, chain) == Grow(i)
    ensures i !in chain && IsChain(actions, chain + [i]) && UniqueSrcs(actions, chain + [i])
  {
    GrowFresh(actions, chain, i);
    var dest := actions[chain[|chain| - 1]].dest;
    FindSrcFirst(actions, dest, 1);
    FindSrcFirst(actions, dest, i + 1);
  }

  /** A failed step names two actions that move one file. */
  lemma FailShared(actions: seq<Action>, chain: seq<nat>)
    requires |chain| > 0 && chain[|chain| - 1] < |actions|
    requires ChainStep(actions, chain).Fail?
    ensures SharedSource(actions, ChainStep(actions, chain).error)
  {
    var dest := actions[chain[|chain| - 1]].dest;
    var i := FindSrc(actions, dest, 1).value;
    var k := FindSrc(actions, dest, i + 1).value;
    assert actions[i] == Action(actions[i].src, actions[i].dest);
    assert actions[k] == Action(actions[i].src, actions[k].dest);
  }

  /** Growing a chain keeps it a chain of files moved once, and ends either
      with a chain nothing continues or with a file moved twice. */
  lemma {:induction false} ExtendResult(actions: seq<Action>, chain: seq<nat>)
    requires DistinctDests(actions) && IsChain(actions, chain) && UniqueSrcs(actions, chain)
    ensures Extend(actions, chain).Ok? ==>
      var c := Extend(actions, chain).value;
      IsChain(actions, c) && UniqueSrcs(actions, c) && ChainStep(actions, c) == Done
    ensures Extend(actions, chain).Err? ==> SharedSource(actions, Extend(actions, chain).error)
    decreases Unreached(actions, chain)
  {
    match ChainStep(actions, chain)
    case Done =>
    case Fail(e) =>
      FailShared(actions, chain);
    case Grow(i) =>
      GrowUnique(actions, chain, i);
      UnreachedShrinks(actions, chain, i);
      ExtendResult(actions, chain + [i]);
  }

  /** The chain of `pull_a_chain`: empty for no actions; otherwise a chain
      from the first action whose files are each moved by one action only,
      and which no other action continues. Its only error is a file moved
      twice. */
  lemma PullChainResult(actions: seq<Action>)
    requires DistinctDests(actions)
    ensures PullChain(actions).Ok? ==>
      var c := PullChain(actions).value;
      (actions == [] ==> c == []) &&
      (actions != [] ==> IsChain(actions, c) && UniqueSrcs(actions, c) && ChainStep(actions, c) == Done)
    ensures PullChain(actions).Err? ==> SharedSource(actions, PullChain(actions).error)
  {
    if actions != [] {
      FindSrcFirst(actions, actions[0].src, 1);
      match FindSrc(actions, actions[0].src, 1)
      case Some(k) =>
        assert actions[0] == Action(actions[0].src, actions[0].dest);
        assert actions[k] == Action(actions[0].src, actions[k].dest);
      case None =>
        ExtendResult(actions, [0]);
    }
  }

  /** Nothing outside a finished chain moves a file that a link of the chain
      moves onto: every destination in it is either taken by the next link
      or by nothing, or, at the end of a circular chain, by the head. */
  lemma ChainClosed(actions: seq<Action>, c: seq<nat>, m: nat, p: nat)
    requires IsChain(actions, c) && UniqueSrcs(actions, c) && ChainStep(actions, c) == Done
    requires m < |actions| && m !in c && p < |c|
    ensures actions[m].src != actions[c[p]].dest
  {
    if p + 1 < |c| {
      assert actions[c[p + 1]].src == actions[c[p]].dest;
    } else {
      FindSrcFirst(actions, actions[c[p]].dest, 1);
      assert m != 0;
    }
  }

  /** When every file is moved by one action only, `pull_a_chain` does not
      fail. */
  lemma PullChainDistinctSrcs(actions: seq<Action>)
    requires DistinctDests(actions)
    requires forall i, k :: 0 <= i < k < |actions| ==> actions[i].src != actions[k].src
    ensures PullChain(actions).Ok?
  {
    PullChainResult(actions);
  }

  // ---------------------------------------------------------------------
  // Emitting a chain

  predicate InRange(actions: seq<Action>, chain: seq<nat>)
  {
    forall p :: 0 <= p < |chain| ==> chain[p] < |actions|
  }

  /** The actions at the given positions, last position first. */
  function Backwards(actions: seq<Action>, chain: seq<nat>): seq<Action>
    requires InRange(actions, chain)
  {
    seq(|chain|, p requires 0 <= p < |chain| => actions[chain[|chain| - 1 - p]])
  }

  /** A chain whose last move lands on the file its first move takes away. */
  predicate Circular(actions: seq<Action>, chain: seq<nat>)
    requires |chain| > 0 && InRange(actions, chain)
  {
    2 <= |chain| && actions[chain[0]].src == actions[chain[|chain| - 1]].dest
  }

  /** The moves `sort_actions` emits for one chain: the chain backwards; for
      a circular chain, its last move goes to a temporary name first and the
      temporary file is moved to its destination at the end. */
  function Emit(actions: seq<Action>, chain: seq<nat>, n: u16, taken: string -> bool): Result<seq<Action>, PlanError>
    requires |chain| > 0 && InRange(actions, chain)
  {
    var first := actions[chain[0]];
    var last := actions[chain[|chain| - 1]];
    if Circular(actions, chain) then
      match FirstFree(first.src, n, taken, 0)
      case None => Err(NoTempName(first.src))
      case Some(tmp) => Ok([Action(last.src, tmp)] + Backwards(actions, chain[..|chain| - 1]) + [Action(tmp, first.src)])
    else
      Ok(Backwards(actions, chain))
  }

  // ---------------------------------------------------------------------
  // Removing a chain

  /** The actions from position `k` on whose positions are not in
      `removed`, in their order. */
  function Kept(actions: seq<Action>, removed: set<nat>, k: nat): seq<Action>
    decreases |actions| - k
  {
    if k >= |actions| then []
    else (if k in removed then [] else [actions[k]]) + Kept(actions, removed, k + 1)
  }

  /** The positions in a chain. */
  function Members(chain: seq<nat>): set<nat>
  {
    set x | x in chain
  }

  /** The working list once the chain has been taken out of it. */
  function Remaining(actions: seq<Action>, chain: seq<nat>): seq<Action>
  {
    Kept(actions, Members(chain), 0)
  }

  /** How many positions from `k` on are in `removed`. */
  function Count(n: nat, removed: set<nat>, k: nat): nat
    decreases n - k
  {
    if k >= n then 0 else (if k in removed then 1 else 0) + Count(n, removed, k + 1)
  }

  lemma {:induction false} KeptLength(actions: seq<Action>, removed: set<nat>, k: nat)
    requires k <= |actions|
    ensures |Kept(actions, removed, k)| == |actions| - k - Count(|actions|, removed, k)
    decreases |actions| - k
  {
    if k < |actions| {
      KeptLength(actions, removed, k + 1);
    }
  }

  lemma {:induction false} CountAdd(n: nat, removed: set<nat>, x: nat, k: nat)
    requires x !in removed && k <= x < n
    ensures Count(n, removed + {x}, k) == Count(n, removed, k) + 1
    decreases n - k
  {
    if k < x {
      CountAdd(n, removed, x, k + 1);
    } else {
      CountSame(n, removed + {x}, removed, k + 1);
    }
  }

  lemma {:induction false} CountSame(n: nat, a: set<nat>, b: set<nat>, k: nat)
    requires forall y :: k <= y ==> (y in a <==> y in b)
    ensures Count(n, a, k) == Count(n, b, k)
    decreases n - k
  {
    if k < n {
      CountSame(n, a, b, k + 1);
    }
  }

  lemma {:induction false} CountChain(n: nat, chain: seq<nat>)
    requires forall p :: 0 <= p < |chain| ==> chain[p] < n
    requires forall p, q :: 0 <= p < q < |chain| ==> chain[p] != chain[q]
    ensures Count(n, Members(chain), 0) == |chain|
    decreases |chain|
  {
    if chain == [] {
      CountNone(n, Members(chain), 0);
    } else {
      var front := chain[..|chain| - 1];
      CountChain(n, front);
      assert Members(chain) == Members(front) + {chain[|chain| - 1]};
      CountAdd(n, Members(front), chain[|chain| - 1], 0);
    }
  }

  lemma {:induction false} CountNone(n: nat, removed: set<nat>, k: nat)
    requires removed == {}
    ensures Count(n, removed, k) == 0
    decreases n - k
  {
    if k < n {
      CountNone(n, removed, k + 1);
    }
  }

  /** Taking a chain out removes exactly its members. */
  lemma RemainingLength(actions: seq<Action>, chain: seq<nat>)
    requires InRange(actions, chain)
    requires forall p, q :: 0 <= p < q < |chain| ==> chain[p] != chain[q]
    ensures |Remaining(actions, chain)| == |actions| - |chain|
  {
    KeptLength(actions, Members(chain), 0);
    CountChain(|actions|, chain);
  }

  /** What is kept comes from the actions at or after `k`, at positions not
      removed. */
  lemma {:induction false} KeptFrom(actions: seq<Action>, removed: set<nat>, k: nat, a: Action)
    requires a in Kept(actions, removed, k)
    ensures exists j :: k <= j < |actions| && j !in removed && actions[j] == a
    decreases |actions| - k
  {
    if k < |actions| && !(k !in removed && a == actions[k]) {
      KeptFrom(actions, removed, k + 1, a);
    }
  }

  /** Every action at or after `k` whose position is not removed is kept. */
  lemma {:induction false} KeptHas(actions: seq<Action>, removed: set<nat>, k: nat, m: nat)
    requires k <= m < |actions| && m !in removed
    ensures actions[m] in Kept(actions, removed, k)
    decreases m - k
  {
    if k < m {
      KeptHas(actions, removed, k + 1, m);
    }
  }

  /** Taking actions out keeps the destinations distinct. */
  lemma {:induction false} KeptDistinct(actions: seq<Action>, removed: set<nat>, k: nat)
    requires DistinctDests(actions)
    ensures DistinctDests(Kept(actions, removed, k))
    decreases |actions| - k
  {
    if k < |actions| {
      KeptDistinct(actions, removed, k + 1);
      var rest := Kept(actions, removed, k + 1);
      if k !in removed {
        forall b | b in rest
          ensures b.dest != actions[k].dest
        {
          KeptFrom(actions, removed, k + 1, b);
        }
      }
    }
  }

  /** Positions below `x` are kept as they are when nothing below `x` is
      removed. */
  lemma {:induction false} KeptPrefix(actions: seq<Action>, removed: set<nat>, k: nat, x: nat)
    requires k <= x <= |actions|
    requires forall y :: y in removed ==> x <= y
    ensures Kept(actions, removed, k) == actions[k..x] + Kept(actions, removed, x)
    decreases x - k
  {
    if k < x {
      KeptPrefix(actions, removed, k + 1, x);
      var later := Kept(actions, removed, x);
      assert k !in removed;
      assert Kept(actions, removed, k) == [actions[k]] + (actions[k + 1..x] + later);
      assert actions[k..x] == [actions[k]] + actions[k + 1..x];
      assert [actions[k]] + (actions[k + 1..x] + later) == ([actions[k]] + actions[k + 1..x]) + later;
    }
  }

  lemma {:induction false} KeptSame(actions: seq<Action>, a: set<nat>, b: set<nat>, k: nat)
    requires forall y :: k <= y ==> (y in a <==> y in b)
    ensures Kept(actions, a, k) == Kept(actions, b, k)
    decreases |actions| - k
  {
    if k < |actions| {
      KeptSame(actions, a, b, k + 1);
    }
  }

  /** `Vec::remove` at `x` on what is left after removing positions above
      `x`. */
  lemma KeptRemove(actions: seq<Action>, removed: set<nat>, x: nat)
    requires x < |actions|
    requires forall y :: y in removed ==> x < y
    ensures x < |Kept(actions, removed, 0)|
    ensures Kept(actions, removed + {x}, 0) ==
      Kept(actions, removed, 0)[..x] + Kept(actions, removed, 0)[x + 1..]
  {
    var tail := Kept(actions, removed, x + 1);
    KeptSplit(actions, removed, x);
    KeptPrefix(actions, removed + {x}, 0, x);
    KeptSame(actions, removed + {x}, removed, x + 1);
    assert Kept(actions, removed + {x}, x) == tail;
  }

  /** What is kept, around a position `x` that stays while everything
      removed lies above it. */
  lemma KeptSplit(actions: seq<Action>, removed: set<nat>, x: nat)
    requires x < |actions|
    requires forall y :: y in removed ==> x < y
    ensures Kept(actions, removed, 0) == actions[..x] + [actions[x]] + Kept(actions, removed, x + 1)
    ensures x < |Kept(actions, removed, 0)|
    ensures Kept(actions, removed, 0)[..x] == actions[..x]
    ensures Kept(actions, removed, 0)[x + 1..] == Kept(actions, removed, x + 1)
  {
    KeptPrefix(actions, removed, 0, x);
    assert Kept(actions, removed, x) == [actions[x]] + Kept(actions, removed, x + 1);
  }

  lemma KeptNothing(actions: seq<Action>)
    ensures Kept(actions, {}, 0) == actions
  {
    KeptPrefix(actions, {}, 0, |actions|);
  }

  /** `indices.sort_unstable()` on distinct positions: increasing, with the
      same members. */
  method SortIndices(indices: seq<nat>) returns (sorted: seq<nat>)
    requires forall p, q :: 0 <= p < q < |indices| ==> indices[p] != indices[q]
    ensures forall p, q :: 0 <= p < q < |sorted| ==> sorted[p] < sorted[q]
    ensures forall x :: x in sorted <==> x in indices
  {
    sorted := [];
    for k := 0 to |indices|
      invariant forall p, q :: 0 <= p < q < |sorted| ==> sorted[p] < sorted[q]
      invariant forall x :: x in sorted <==> x in indices[..k]
    {
      var x := indices[k];
      assert x !in indices[..k];
      var p := 0;
      while p < |sorted| && sorted[p] < x
        invariant p <= |sorted|
        invariant forall m :: 0 <= m < p ==> sorted[m] < x
      {
        p := p + 1;
      }
      assert p < |sorted| ==> x < sorted[p];
      sorted := sorted[..p] + [x] + sorted[p..];
      assert indices[..k + 1] == indices[..k] + [x];
    }
    assert indices[..|indices|] == indices;
  }

  /** Taking the pulled chain out of the working list: sort the positions,
      then remove them from the largest down. */
  method RemoveChain(actions: seq<Action>, chain: seq<nat>) returns (rest: seq<Action>)
    requires InRange(actions, chain)
    requires forall p, q :: 0 <= p < q < |chain| ==> chain[p] != chain[q]
    ensures rest == Remaining(actions, chain)
  {
    var sorted := SortIndices(chain);
    rest := actions;
    KeptNothing(actions);
    var q := |sorted|;
    assert Members(sorted[q..]) == {};
    while q > 0
      invariant 0 <= q <= |sorted|
      invariant rest == Kept(actions, Members(sorted[q..]), 0)
    {
      q := q - 1;
      var x := sorted[q];
      assert x in chain;
      assert Members(sorted[q..]) == Members(sorted[q + 1..]) + {x};
      KeptRemove(actions, Members(sorted[q + 1..]), x);
      rest := rest[..x] + rest[x + 1..];
    }
    assert sorted[0..] == sorted;
    assert Members(sorted) == Members(chain);
  }

  // ---------------------------------------------------------------------
  // Sorting all the actions

  /** An error stays, a plan gets `done` in front of it. */
  function After(done: seq<Action>, r: Result<seq<Action>, PlanError>): Result<seq<Action>, PlanError>
  {
    match r
    case Ok(plan) => Ok(done + plan)
    case Err(e) => Err(e)
  }

  /** `sort_actions` from round `round` on: pull the chain at the front of
      the working list, emit it, take it out, and go on with what is left.
      `seed(round)` is the random start of the temporary-name search in
      that round, `taken` stands for `Path::exists`. */
  function PlanFrom(work: seq<Action>, round: nat, seed: nat -> u16, taken: string -> bool): Result<seq<Action>, PlanError>
    requires DistinctDests(work)
    decreases |work|
  {
    if work == [] then Ok([])
    else
      PullChainResult(work);
      match PullChain(work)
      case Err(e) => Err(e)
      case Ok(chain) =>
        RemainingLength(work, chain);
        KeptDistinct(work, Members(chain), 0);
        match Emit(work, chain, seed(round), taken)
        case Err(e) => Err(e)
        case Ok(out) => After(out, PlanFrom(Remaining(work, chain), round + 1, seed, taken))
  }

  /** The number of rounds of `PlanFrom` whose chain is circular: each of
      them emits one move more than it takes from the working list. It does
      not depend on the temporary names chosen. */
  function CircularRounds(work: seq<Action>): nat
    requires DistinctDests(work)
    decreases |work|
  {
    if work == [] then 0
    else
      PullChainResult(work);
      match PullChain(work)
      case Err(_) => 0
      case Ok(chain) =>
        RemainingLength(work, chain);
        KeptDistinct(work, Members(chain), 0);
        (if Circular(work, chain) then 1 else 0) + CircularRounds(Remaining(work, chain))
  }

  /** `sort_actions` as the repository writes it: rounds of pulling a chain,
      pushing its moves onto the plan and removing it from the working
      list, until the list is empty or an error stops it. */
  method SortActions(actions: seq<Action>, seed: nat -> u16, taken: string -> bool) returns (r: Result<seq<Action>, PlanError>)
    requires DistinctDests(actions)
    ensures r == PlanFrom(actions, 0, seed, taken)
  {
    var work := actions;
    var sorted: seq<Action> := [];
    var round := 0;
    AfterNothing(PlanFrom(actions, 0, seed, taken));
    while work != []
      invariant DistinctDests(work)
      invariant PlanFrom(actions, 0, seed, taken) == After(sorted, PlanFrom(work, round, seed, taken))
      decreases |work|
    {
      var pulled := PullAChain(work);
      PullChainResult(work);
      if pulled.Err? {
        return Err(pulled.error);
      }
      var indices := pulled.value;
      PlanFromStep(work, round, seed, taken, indices);
      var emitted := EmitChain(work, indices, seed(round), taken, sorted);
      if emitted.Err? {
        return emitted;
      }
      AfterAfter(sorted, emitted.value[|sorted|..], PlanFrom(Remaining(work, indices), round + 1, seed, taken));
      sorted := emitted.value;
      RemainingLength(work, indices);
      KeptDistinct(work, Members(indices), 0);
      work := RemoveChain(work, indices);
      round := round + 1;
    }
    assert sorted + [] == sorted;
    return Ok(sorted);
  }

  /** One round of `sort_actions` after the chain has been pulled: push its
      moves onto `sorted`, backwards, through a temporary name when it is
      circular. */
  method EmitChain(work: seq<Action>, indices: seq<nat>, n: u16, taken: string -> bool, sorted: seq<Action>)
    returns (r: Result<seq<Action>, PlanError>)
    requires |indices| > 0 && InRange(work, indices)
    ensures r == After(sorted, Emit(work, indices, n, taken))
    ensures r.Ok? ==> |sorted| <= |r.value| && r.value[..|sorted|] == sorted
  {
    var out := sorted;
    var first := work[indices[0]];
    var last := work[indices[|indices| - 1]];
    if 2 <= |indices| && first.src == last.dest {
      var tmp := MakeSafeishFilename(first.src, n, taken);
      if tmp.None? {
        return Err(NoTempName(first.src));
      }
      out := out + [Action(last.src, tmp.value)];
      var p := |indices| - 1;
      while p > 0
        invariant 0 <= p <= |indices| - 1
        invariant out == sorted + [Action(last.src, tmp.value)] + Backwards(work, indices[..|indices| - 1][p..])
      {
        p := p - 1;
        BackwardsStep(work, indices[..|indices| - 1], p);
        out := out + [work[indices[p]]];
      }
      assert indices[..|indices| - 1][0..] == indices[..|indices| - 1];
      out := out + [Action(tmp.value, first.src)];
      assert Emit(work, indices, n, taken) ==
        Ok([Action(last.src, tmp.value)] + Backwards(work, indices[..|indices| - 1]) + [Action(tmp.value, first.src)]);
    } else {
      var p := |indices|;
      while p > 0
        invariant 0 <= p <= |indices|
        invariant out == sorted + Backwards(work, indices[p..])
      {
        p := p - 1;
        BackwardsStep(work, indices, p);
        out := out + [work[indices[p]]];
      }
      assert indices[0..] == indices;
      assert Emit(work, indices, n, taken) == Ok(Backwards(work, indices));
    }
    assert out == sorted + Emit(work, indices, n, taken).value;
    assert out[..|sorted|] == sorted;
    return Ok(out);
  }

  lemma AfterNothing(r: Result<seq<Action>, PlanError>)
    ensures After([], r) == r
  {
    if r.Ok? {
      assert [] + r.value == r.value;
    }
  }

  lemma AfterAfter(a: seq<Action>, b: seq<Action>, r: Result<seq<Action>, PlanError>)
    ensures After(a, After(b, r)) == After(a + b, r)
  {
    if r.Ok? {
      assert a + (b + r.value) == (a + b) + r.value;
    }
  }

  /** One round of `PlanFrom`, for a pulled chain. */
  lemma PlanFromStep(work: seq<Action>, round: nat, seed: nat -> u16, taken: string -> bool, chain: seq<nat>)
    requires DistinctDests(work) && work != [] && PullChain(work) == Ok(chain)
    ensures IsChain(work, chain) && DistinctDests(Remaining(work, chain))
    ensures PlanFrom(work, round, seed, taken) ==
      match Emit(work, chain, seed(round), taken)
      case Err(e) => Err(e)
      case Ok(out) => After(out, PlanFrom(Remaining(work, chain), round + 1, seed, taken))
  {
    PullChainResult(work);
    KeptDistinct(work, Members(chain), 0);
  }

  /** One more step of emitting positions backwards. */
  lemma BackwardsStep(actions: seq<Action>, chain: seq<nat>, p: nat)
    requires InRange(actions, chain) && p < |chain|
    ensures Backwards(actions, chain[p..]) == Backwards(actions, chain[p + 1..]) + [actions[chain[p]]]
  {
  }
}
