/** What the plan of `sort_actions` guarantees: every requested move is
    carried out, directly or through a temporary name; nothing else is
    moved; and, executed in order, no move lands on a file that is still
    waiting to be moved. */
module PlanProperties {
  import opened Types
  import opened TempNames
  import opened Plan

  /** The sources of a list of moves. */
  function Srcs(actions: seq<Action>): set<string>
  {
    set a | a in actions :: a.src
  }

  /** Every source is an existing file: what `taken` reports for the sources
      a walk found. */
  predicate Existing(actions: seq<Action>, taken: string -> bool)
  {
    forall a :: a in actions ==> taken(a.src)
  }

  /** The oracle reports every source and every destination as taken. */
  predicate Reserved(actions: seq<Action>, taken: string -> bool)
  {
    forall a :: a in actions ==> taken(a.src) && taken(a.dest)
  }

  /** `b` is one half of the move `a` split at the temporary name with
      suffix `v`: `a.src` to the temporary, or the temporary to `a.dest`. */
  predicate Half(a: Action, b: Action, v: u16, taken: string -> bool)
  {
    var t := Candidate(a.dest, v);
    !taken(t) && (b == Action(a.src, t) || b == Action(t, a.dest))
  }

  /** Both halves of `a` split at suffix `v` are in the plan. */
  predicate SplitAt(a: Action, v: u16, plan: seq<Action>, taken: string -> bool)
  {
    var t := Candidate(a.dest, v);
    !taken(t) && Action(a.src, t) in plan && Action(t, a.dest) in plan
  }

  /** Every requested move is in the plan, or both halves of it are. */
  predicate Covered(work: seq<Action>, plan: seq<Action>, taken: string -> bool)
  {
    forall a :: a in work ==> a in plan || exists v :: SplitAt(a, v, plan, taken)
  }

  /** Every move of the plan was requested, or is a half of a requested
      one. */
  predicate FromInput(plan: seq<Action>, work: seq<Action>, taken: string -> bool)
  {
    forall b :: b in plan ==> b in work || exists a, v :: a in work && Half(a, b, v, taken)
  }

  /** Executed in order, no move lands on one of the `originals` before the
      move that takes that file away. */
  predicate NoClobber(plan: seq<Action>, originals: set<string>)
  {
    forall p, q :: 0 <= p < q < |plan| && plan[q].src in originals ==> plan[p].dest != plan[q].src
  }

  // ---------------------------------------------------------------------
  // One round

  /** One successful round of `PlanFrom`: a finished chain, its emitted
      moves, and the plan for what remains. */
  lemma RoundFacts(work: seq<Action>, round: nat, seed: nat -> u16, taken: string -> bool)
    requires DistinctDests(work) && work != [] && PlanFrom(work, round, seed, taken).Ok?
    ensures PullChain(work).Ok?
    ensures var chain := PullChain(work).value;
      IsChain(work, chain) && UniqueSrcs(work, chain) && ChainStep(work, chain) == Done &&
      Emit(work, chain, seed(round), taken).Ok? &&
      DistinctDests(Remaining(work, chain)) &&
      |Remaining(work, chain)| == |work| - |chain| &&
      PlanFrom(Remaining(work, chain), round + 1, seed, taken).Ok? &&
      PlanFrom(work, round, seed, taken).value ==
        Emit(work, chain, seed(round), taken).value + PlanFrom(Remaining(work, chain), round + 1, seed, taken).value
  {
    PullChainResult(work);
    var chain := PullChain(work).value;
    PlanFromStep(work, round, seed, taken, chain);
    RemainingLength(work, chain);
  }

  /** The temporary name of a circular chain: a candidate for the
      destination of its last move that `taken` does not report. */
  lemma EmitCircular(work: seq<Action>, chain: seq<nat>, n: u16, taken: string -> bool) returns (v: u16)
    requires |chain| > 0 && InRange(work, chain) && Circular(work, chain)
    requires Emit(work, chain, n, taken).Ok?
    ensures var last := work[chain[|chain| - 1]];
      var t := Candidate(last.dest, v);
      !taken(t) &&
      Emit(work, chain, n, taken).value == [Action(last.src, t)] + Backwards(work, chain[..|chain| - 1]) + [Action(t, last.dest)]
  {
    var first := work[chain[0]];
    FirstFreeFree(first.src, n, taken, 0);
    var m :| 0 <= m < Probes && FirstFree(first.src, n, taken, 0).value == Candidate(first.src, Probe(n, m));
    v := Probe(n, m);
  }

  /** Position `p` of a chain, emitted backwards. */
  lemma BackwardsAt(work: seq<Action>, chain: seq<nat>, p: nat)
    requires InRange(work, chain) && p < |chain|
    ensures work[chain[p]] in Backwards(work, chain)
  {
    assert Backwards(work, chain)[|chain| - 1 - p] == work[chain[p]];
  }

  /** Every link of the chain is in what the round emits, or both halves of
      it are. */
  lemma EmitCovers(work: seq<Action>, chain: seq<nat>, n: u16, taken: string -> bool, p: nat)
    requires |chain| > 0 && InRange(work, chain) && p < |chain|
    requires Emit(work, chain, n, taken).Ok?
    ensures var out := Emit(work, chain, n, taken).value;
      work[chain[p]] in out || exists v :: SplitAt(work[chain[p]], v, out, taken)
  {
    var out := Emit(work, chain, n, taken).value;
    if !Circular(work, chain) {
      BackwardsAt(work, chain, p);
    } else {
      var v := EmitCircular(work, chain, n, taken);
      if p < |chain| - 1 {
        BackwardsAt(work, chain[..|chain| - 1], p);
      } else {
        var last := work[chain[|chain| - 1]];
        assert out[0] == Action(last.src, Candidate(last.dest, v));
        assert out[|out| - 1] == Action(Candidate(last.dest, v), last.dest);
        assert SplitAt(last, v, out, taken);
      }
    }
  }

  /** Every move a round emits is a link of the chain or a half of its last
      link. */
  lemma EmitFromInput(work: seq<Action>, chain: seq<nat>, n: u16, taken: string -> bool, b: Action)
    requires |chain| > 0 && InRange(work, chain)
    requires Emit(work, chain, n, taken).Ok? && b in Emit(work, chain, n, taken).value
    ensures b in work || exists a, v :: a in work && Half(a, b, v, taken)
  {
    if !Circular(work, chain) {
      var p :| 0 <= p < |chain| && b == Backwards(work, chain)[p];
    } else {
      var v := EmitCircular(work, chain, n, taken);
      var last := work[chain[|chain| - 1]];
      var middle := Backwards(work, chain[..|chain| - 1]);
      if b in middle {
        var p :| 0 <= p < |middle| && b == middle[p];
      } else {
        assert Half(last, b, v, taken);
      }
    }
  }

  // ---------------------------------------------------------------------
  // The plan

  /** The plan has every requested move, and one more for each circular
      chain; a circular chain has at least two moves, so at most half of
      the moves can add one. */
  lemma {:induction false} PlanLength(work: seq<Action>, round: nat, seed: nat -> u16, taken: string -> bool)
    requires DistinctDests(work)
    ensures PlanFrom(work, round, seed, taken).Ok? ==>
      |PlanFrom(work, round, seed, taken).value| == |work| + CircularRounds(work) &&
      2 * CircularRounds(work) <= |work|
    ensures PlanFrom(work, round, seed, taken).Ok? ==>
      |work| <= |PlanFrom(work, round, seed, taken).value| <= |work| + |work| / 2
    decreases |work|
  {
    if work != [] && PlanFrom(work, round, seed, taken).Ok? {
      RoundFacts(work, round, seed, taken);
      var chain := PullChain(work).value;
      PlanLength(Remaining(work, chain), round + 1, seed, taken);
      var v := EmitAt(work, chain, seed(round), taken, 0);
    }
  }

  /** A plan is made only when every file is moved by one action only. */
  lemma {:induction false} PlanDistinctSrcs(work: seq<Action>, round: nat, seed: nat -> u16, taken: string -> bool)
    requires DistinctDests(work)
    ensures PlanFrom(work, round, seed, taken).Ok? ==> DistinctSrcs(work)
    decreases |work|
  {
    if work != [] && PlanFrom(work, round, seed, taken).Ok? {
      RoundFacts(work, round, seed, taken);
      var chain := PullChain(work).value;
      var rest := Remaining(work, chain);
      PlanDistinctSrcs(rest, round + 1, seed, taken);
      forall i, k | 0 <= i < k < |work|
        ensures work[i].src != work[k].src
      {
        if i !in chain && k !in chain {
          KeptHas(work, Members(chain), 0, i);
          KeptHas(work, Members(chain), 0, k);
          var pi :| 0 <= pi < |rest| && rest[pi] == work[i];
          var pk :| 0 <= pk < |rest| && rest[pk] == work[k];
          assert pi != pk;
        }
      }
    }
  }

  /** Every requested move is carried out: directly, or, for the last move
      of a circular chain, as its two halves through a temporary name. */
  lemma {:induction false} PlanCovers(work: seq<Action>, round: nat, seed: nat -> u16, taken: string -> bool)
    requires DistinctDests(work)
    ensures PlanFrom(work, round, seed, taken).Ok? ==> Covered(work, PlanFrom(work, round, seed, taken).value, taken)
    decreases |work|
  {
    if work != [] && PlanFrom(work, round, seed, taken).Ok? {
      RoundFacts(work, round, seed, taken);
      var chain := PullChain(work).value;
      var remaining := Remaining(work, chain);
      var out := Emit(work, chain, seed(round), taken).value;
      var rest := PlanFrom(remaining, round + 1, seed, taken).value;
      var plan := out + rest;
      PlanCovers(remaining, round + 1, seed, taken);
      forall a | a in work
        ensures a in plan || exists v :: SplitAt(a, v, plan, taken)
      {
        var i :| 0 <= i < |work| && work[i] == a;
        if i in chain {
          var p :| 0 <= p < |chain| && chain[p] == i;
          EmitCovers(work, chain, seed(round), taken, p);
          if a !in out {
            var v :| SplitAt(a, v, out, taken);
            assert SplitAt(a, v, plan, taken);
          }
        } else {
          KeptHas(work, Members(chain), 0, i);
          if a !in rest {
            var v :| SplitAt(a, v, rest, taken);
            assert SplitAt(a, v, plan, taken);
          }
        }
      }
    }
  }

  /** Nothing but the requested moves and the halves of split ones is
      planned. */
  lemma {:induction false} PlanFromInput(work: seq<Action>, round: nat, seed: nat -> u16, taken: string -> bool)
    requires DistinctDests(work)
    ensures PlanFrom(work, round, seed, taken).Ok? ==> FromInput(PlanFrom(work, round, seed, taken).value, work, taken)
    decreases |work|
  {
    if work != [] && PlanFrom(work, round, seed, taken).Ok? {
      RoundFacts(work, round, seed, taken);
      var chain := PullChain(work).value;
      var remaining := Remaining(work, chain);
      var out := Emit(work, chain, seed(round), taken).value;
      var rest := PlanFrom(remaining, round + 1, seed, taken).value;
      PlanFromInput(remaining, round + 1, seed, taken);
      forall b | b in out + rest
        ensures b in work || exists a, v :: a in work && Half(a, b, v, taken)
      {
        if b in out {
          EmitFromInput(work, chain, seed(round), taken, b);
        } else if b in remaining {
          KeptFrom(work, Members(chain), 0, b);
        } else {
          var a, v :| a in remaining && Half(a, b, v, taken);
          KeptFrom(work, Members(chain), 0, a);
        }
      }
    }
  }

  // ---------------------------------------------------------------------
  // Safety of the order

  /** Move `p` of a round: link `|chain| - 1 - p` of the chain, except that
      a circular chain starts with the first half of its last link and ends
      with the second half, through the temporary name with suffix `v`. */
  lemma EmitAt(work: seq<Action>, chain: seq<nat>, n: u16, taken: string -> bool, p: nat) returns (v: u16)
    requires |chain| > 0 && InRange(work, chain) && Emit(work, chain, n, taken).Ok?
    ensures var out := Emit(work, chain, n, taken).value;
      var L := |chain| - 1;
      var last := work[chain[L]];
      var t := Candidate(last.dest, v);
      if !Circular(work, chain) then
        |out| == |chain| && (p < |out| ==> out[p] == work[chain[L - p]])
      else
        |out| == |chain| + 1 && !taken(t) &&
        (p == 0 ==> out[p] == Action(last.src, t)) &&
        (p == L + 1 ==> out[p] == Action(t, last.dest)) &&
        (0 < p <= L ==> out[p] == work[chain[L - p]])
  {
    if Circular(work, chain) {
      v := EmitCircular(work, chain, n, taken);
    } else {
      v := 0;
    }
  }

  /** Where move `p` of a round lands: on the destination of link `j` of
      the chain, or, for `j == |chain|`, on the temporary name. */
  lemma EmitDest(work: seq<Action>, chain: seq<nat>, n: u16, taken: string -> bool, p: nat) returns (j: nat, v: u16)
    requires |chain| > 0 && InRange(work, chain)
    requires Emit(work, chain, n, taken).Ok? && p < |Emit(work, chain, n, taken).value|
    ensures j <= |chain|
    ensures var d := Emit(work, chain, n, taken).value[p].dest;
      if j < |chain| then d == work[chain[j]].dest
      else d == Candidate(work[chain[|chain| - 1]].dest, v) && !taken(d)
  {
    var L := |chain| - 1;
    v := EmitAt(work, chain, n, taken, p);
    if !Circular(work, chain) {
      j := L - p;
    } else if p == 0 {
      j := |chain|;
    } else if p == L + 1 {
      j := L;
    } else {
      j := L - p;
    }
  }

  lemma SrcTaken(work: seq<Action>, taken: string -> bool, x: string)
    requires Existing(work, taken) && x in Srcs(work)
    ensures taken(x)
  {
    var a :| a in work && a.src == x;
  }

  /** Emitted backwards, a later link of a chain never lands on the file an
      earlier link takes away, except where a circular chain closes. */
  lemma ChainOrderSafe(work: seq<Action>, chain: seq<nat>, i: nat, j: nat)
    requires DistinctDests(work) && IsChain(work, chain) && UniqueSrcs(work, chain)
    requires i < j < |chain|
    requires !(i == 0 && j == |chain| - 1 && Circular(work, chain))
    ensures work[chain[j]].dest != work[chain[i]].src
  {
    if 0 < i {
      assert work[chain[i]].src == work[chain[i - 1]].dest;
      assert chain[i - 1] != chain[j];
    } else if j + 1 < |chain| {
      assert work[chain[j + 1]].src == work[chain[j]].dest;
      assert chain[j + 1] != chain[0];
    }
  }

  /** Move `p` of a round that is a link of the chain as it stands. */
  lemma EmitLink(work: seq<Action>, chain: seq<nat>, n: u16, taken: string -> bool, out: seq<Action>, p: nat)
    requires |chain| > 0 && InRange(work, chain) && Emit(work, chain, n, taken) == Ok(out)
    requires p < |chain| && (Circular(work, chain) ==> 0 < p)
    ensures out[p] == work[chain[|chain| - 1 - p]]
  {
    var v := EmitAt(work, chain, n, taken, p);
  }

  /** The first move of a circular round lands on a name that is not
      taken. */
  lemma EmitOpen(work: seq<Action>, chain: seq<nat>, n: u16, taken: string -> bool, out: seq<Action>)
    requires |chain| > 0 && InRange(work, chain) && Emit(work, chain, n, taken) == Ok(out)
    requires Circular(work, chain)
    ensures |out| > 0 && !taken(out[0].dest)
  {
    var v := EmitAt(work, chain, n, taken, 0);
  }

  /** The last move of a circular round takes away a name that is not
      taken. */
  lemma EmitClose(work: seq<Action>, chain: seq<nat>, n: u16, taken: string -> bool, out: seq<Action>)
    requires |chain| > 0 && InRange(work, chain) && Emit(work, chain, n, taken) == Ok(out)
    requires Circular(work, chain)
    ensures |out| == |chain| + 1 && !taken(out[|chain|].src)
  {
    var v := EmitAt(work, chain, n, taken, |chain|);
  }

  /** The shape of what a round emits, without the search for the
      temporary name: the links backwards, and for a circular chain a first
      move onto and a last move from a name that is not taken. */
  predicate Shaped(work: seq<Action>, chain: seq<nat>, out: seq<Action>, taken: string -> bool)
    requires |chain| > 0 && InRange(work, chain)
  {
    var L := |chain| - 1;
    (if Circular(work, chain) then |out| == L + 2 && !taken(out[0].dest) && !taken(out[L + 1].src)
     else |out| == L + 1) &&
    forall p :: 0 <= p <= L && (Circular(work, chain) ==> 0 < p) ==> out[p] == work[chain[L - p]]
  }

  lemma EmitShaped(work: seq<Action>, chain: seq<nat>, n: u16, taken: string -> bool, out: seq<Action>)
    requires |chain| > 0 && InRange(work, chain) && Emit(work, chain, n, taken) == Ok(out)
    ensures Shaped(work, chain, out, taken)
  {
    var v := EmitAt(work, chain, n, taken, 0);
    if Circular(work, chain) {
      EmitOpen(work, chain, n, taken, out);
      EmitClose(work, chain, n, taken, out);
    }
    forall p | 0 <= p < |chain| && (Circular(work, chain) ==> 0 < p)
      ensures out[p] == work[chain[|chain| - 1 - p]]
    {
      EmitLink(work, chain, n, taken, out, p);
    }
  }

  /** Two moves of one round in order: the earlier does not land on what the
      later takes away, when that is an existing file. */
  lemma PairSafe(work: seq<Action>, chain: seq<nat>, out: seq<Action>, taken: string -> bool, p: nat, q: nat)
    requires DistinctDests(work) && IsChain(work, chain) && UniqueSrcs(work, chain)
    requires Shaped(work, chain, out, taken)
    requires p < q < |out| && taken(out[q].src)
    ensures out[p].dest != out[q].src
  {
    var L := |chain| - 1;
    if !Circular(work, chain) || (0 < p && q <= L) {
      assert out[p] == work[chain[L - p]] && out[q] == work[chain[L - q]];
      ChainOrderSafe(work, chain, L - q, L - p);
    }
  }

  /** The moves of one round, executed in order, never land on a source of
      the working list before it has been moved. */
  lemma EmitNoClobber(work: seq<Action>, chain: seq<nat>, n: u16, taken: string -> bool)
    requires DistinctDests(work) && IsChain(work, chain) && UniqueSrcs(work, chain)
    requires Existing(work, taken) && Emit(work, chain, n, taken).Ok?
    ensures NoClobber(Emit(work, chain, n, taken).value, Srcs(work))
  {
    var out := Emit(work, chain, n, taken).value;
    EmitShaped(work, chain, n, taken, out);
    forall p, q | 0 <= p < q < |out| && out[q].src in Srcs(work)
      ensures out[p].dest != out[q].src
    {
      SrcTaken(work, taken, out[q].src);
      PairSafe(work, chain, out, taken, p, q);
    }
  }

  lemma NotInChain(chain: seq<nat>, m: nat)
    requires m !in Members(chain)
    ensures m !in chain
  {
  }

  /** A move of a round never lands on the source of an action left for
      later rounds. */
  lemma EmitBeforeRest(work: seq<Action>, chain: seq<nat>, n: u16, taken: string -> bool, p: nat, m: nat)
    requires IsChain(work, chain) && UniqueSrcs(work, chain) && ChainStep(work, chain) == Done
    requires Existing(work, taken) && Emit(work, chain, n, taken).Ok?
    requires p < |Emit(work, chain, n, taken).value|
    requires m < |work| && m !in Members(chain)
    ensures Emit(work, chain, n, taken).value[p].dest != work[m].src
  {
    var j, v := EmitDest(work, chain, n, taken, p);
    if j < |chain| {
      NotInChain(chain, m);
      ChainClosed(work, chain, m, j);
    } else {
      assert work[m] in work;
    }
  }

  /** A move of the plan for the remaining actions that takes away an
      original file takes away the source of a remaining action. */
  lemma RestSrc(work: seq<Action>, chain: seq<nat>, rest: seq<Action>, taken: string -> bool, b: Action) returns (m: nat)
    requires Existing(work, taken) && FromInput(rest, Remaining(work, chain), taken)
    requires b in rest && b.src in Srcs(work)
    ensures m < |work| && m !in Members(chain) && work[m].src == b.src
    ensures b.src in Srcs(Remaining(work, chain))
  {
    var remaining := Remaining(work, chain);
    SrcTaken(work, taken, b.src);
    var a: Action;
    if b in remaining {
      a := b;
    } else {
      var v: u16;
      a, v :| a in remaining && Half(a, b, v, taken);
    }
    KeptFrom(work, Members(chain), 0, a);
    m :| 0 <= m < |work| && m !in Members(chain) && work[m] == a;
  }

  /** What is left for later rounds keeps the oracle's facts. */
  lemma RemainingTaken(work: seq<Action>, chain: seq<nat>, taken: string -> bool)
    ensures Existing(work, taken) ==> Existing(Remaining(work, chain), taken)
    ensures Reserved(work, taken) ==> Reserved(Remaining(work, chain), taken)
  {
    forall a | a in Remaining(work, chain)
      ensures a in work
    {
      KeptFrom(work, Members(chain), 0, a);
    }
  }

  /** The moves of a round followed by a plan for what remains are safe in
      order when each part is. */
  lemma JoinNoClobber(work: seq<Action>, chain: seq<nat>, n: u16, taken: string -> bool, rest: seq<Action>)
    requires IsChain(work, chain) && UniqueSrcs(work, chain) && ChainStep(work, chain) == Done
    requires Existing(work, taken) && Emit(work, chain, n, taken).Ok?
    requires NoClobber(Emit(work, chain, n, taken).value, Srcs(work))
    requires FromInput(rest, Remaining(work, chain), taken)
    requires NoClobber(rest, Srcs(Remaining(work, chain)))
    ensures NoClobber(Emit(work, chain, n, taken).value + rest, Srcs(work))
  {
    var out := Emit(work, chain, n, taken).value;
    var plan := out + rest;
    forall p, q | 0 <= p < q < |plan| && plan[q].src in Srcs(work)
      ensures plan[p].dest != plan[q].src
    {
      if q < |out| {
        assert plan[p] == out[p] && plan[q] == out[q];
      } else {
        assert plan[q] == rest[q - |out|];
        var m := RestSrc(work, chain, rest, taken, plan[q]);
        if p < |out| {
          EmitBeforeRest(work, chain, n, taken, p, m);
        } else {
          assert plan[p] == rest[p - |out|];
        }
      }
    }
  }

  /** Executed in order, the plan never lands on an original source before
      the move that takes it away; in particular no requested move
      overwrites a file that still has to be moved. */
  lemma {:induction false} PlanNoClobber(work: seq<Action>, round: nat, seed: nat -> u16, taken: string -> bool)
    requires DistinctDests(work) && Existing(work, taken)
    ensures PlanFrom(work, round, seed, taken).Ok? ==> NoClobber(PlanFrom(work, round, seed, taken).value, Srcs(work))
    decreases |work|
  {
    if work != [] && PlanFrom(work, round, seed, taken).Ok? {
      RoundFacts(work, round, seed, taken);
      var chain := PullChain(work).value;
      var remaining := Remaining(work, chain);
      var n := seed(round);
      RemainingTaken(work, chain, taken);
      PlanNoClobber(remaining, round + 1, seed, taken);
      PlanFromInput(remaining, round + 1, seed, taken);
      EmitNoClobber(work, chain, n, taken);
      JoinNoClobber(work, chain, n, taken, PlanFrom(remaining, round + 1, seed, taken).value);
    }
  }

  /** The moves of one round land on distinct paths when the temporary name
      is none of the reserved names. */
  lemma EmitDistinctDests(work: seq<Action>, chain: seq<nat>, n: u16, taken: string -> bool)
    requires DistinctDests(work) && IsChain(work, chain) && Reserved(work, taken)
    requires Emit(work, chain, n, taken).Ok?
    ensures DistinctDests(Emit(work, chain, n, taken).value)
  {
    var out := Emit(work, chain, n, taken).value;
    var L := |chain| - 1;
    forall p, q | 0 <= p < q < |out|
      ensures out[p].dest != out[q].dest
    {
      var v := EmitAt(work, chain, n, taken, p);
      var w := EmitAt(work, chain, n, taken, q);
      if Circular(work, chain) && p == 0 {
        assert work[chain[if q <= L then L - q else L]] in work;
      } else if Circular(work, chain) && q == L + 1 {
        assert chain[L - p] != chain[L];
      } else {
        assert chain[L - p] != chain[L - q];
      }
    }
  }

  /** A move of the plan for the remaining actions lands on a remaining
      action's destination or on a temporary name for one. */
  lemma RestDest(work: seq<Action>, chain: seq<nat>, rest: seq<Action>, taken: string -> bool, b: Action)
    returns (m: nat, v: u16, temp: bool)
    requires FromInput(rest, Remaining(work, chain), taken) && b in rest
    ensures m < |work| && m !in Members(chain)
    ensures if temp then b.dest == Candidate(work[m].dest, v) && !taken(b.dest) else b.dest == work[m].dest
  {
    var remaining := Remaining(work, chain);
    var a: Action;
    if b in remaining {
      a, v, temp := b, 0, false;
    } else {
      a, v :| a in remaining && Half(a, b, v, taken);
      temp := b.dest != a.dest;
    }
    KeptFrom(work, Members(chain), 0, a);
    m :| 0 <= m < |work| && m !in Members(chain) && work[m] == a;
  }

  /** A move of a round and a move of a later round land on different
      paths. */
  lemma EmitRestDistinct(work: seq<Action>, chain: seq<nat>, n: u16, taken: string -> bool, p: nat,
                         rest: seq<Action>, b: Action)
    requires DistinctDests(work) && IsChain(work, chain) && Reserved(work, taken)
    requires Emit(work, chain, n, taken).Ok? && p < |Emit(work, chain, n, taken).value|
    requires FromInput(rest, Remaining(work, chain), taken) && b in rest
    ensures Emit(work, chain, n, taken).value[p].dest != b.dest
  {
    var out := Emit(work, chain, n, taken).value;
    var L := |chain| - 1;
    var m, v, temp := RestDest(work, chain, rest, taken, b);
    var w := EmitAt(work, chain, n, taken, p);
    assert work[m] in work;
    if !Circular(work, chain) || 0 < p {
      var j := if !Circular(work, chain) || p <= L then L - p else L;
      assert out[p].dest == work[chain[j]].dest;
      assert chain[j] != m;
    } else if temp {
      var last := work[chain[L]];
      assert chain[L] != m;
      if Candidate(last.dest, w) == Candidate(work[m].dest, v) {
        CandidateInjective(last.dest, w, work[m].dest, v);
      }
    }
  }

  /** With an oracle that reports every source and destination as taken, no
      two moves of the plan land on the same path, so no result of an
      earlier move is overwritten. */
  lemma {:induction false} PlanDistinctDests(work: seq<Action>, round: nat, seed: nat -> u16, taken: string -> bool)
    requires DistinctDests(work) && Reserved(work, taken)
    ensures PlanFrom(work, round, seed, taken).Ok? ==> DistinctDests(PlanFrom(work, round, seed, taken).value)
    decreases |work|
  {
    if work != [] && PlanFrom(work, round, seed, taken).Ok? {
      RoundFacts(work, round, seed, taken);
      var chain := PullChain(work).value;
      var remaining := Remaining(work, chain);
      var n := seed(round);
      var out := Emit(work, chain, n, taken).value;
      var rest := PlanFrom(remaining, round + 1, seed, taken).value;
      RemainingTaken(work, chain, taken);
      PlanDistinctDests(remaining, round + 1, seed, taken);
      PlanFromInput(remaining, round + 1, seed, taken);
      EmitDistinctDests(work, chain, n, taken);
      forall p, b | 0 <= p < |out| && b in rest
        ensures out[p].dest != b.dest
      {
        EmitRestDistinct(work, chain, n, taken, p, rest, b);
      }
      JoinDistinct(out, rest);
    }
  }

  /** Two lists of moves with distinct destinations, no destination shared
      between them, make one. */
  lemma JoinDistinct(out: seq<Action>, rest: seq<Action>)
    requires DistinctDests(out) && DistinctDests(rest)
    requires forall p, b :: 0 <= p < |out| && b in rest ==> out[p].dest != b.dest
    ensures DistinctDests(out + rest)
  {
    var plan := out + rest;
    forall p, q | 0 <= p < q < |plan|
      ensures plan[p].dest != plan[q].dest
    {
      if q < |out| {
        assert plan[p] == out[p] && plan[q] == out[q];
      } else if p >= |out| {
        assert plan[p] == rest[p - |out|] && plan[q] == rest[q - |out|];
      } else {
        assert plan[p] == out[p] && plan[q] == rest[q - |out|];
        assert rest[q - |out|] in rest;
      }
    }
  }

  // ---------------------------------------------------------------------
  // Temporary names

  /** The files of the collision example. */
  predicate CollisionFiles(x: string)
  {
    x == "b" || x == "c" || x == "d"
  }

  /** A random start of zero in every round. */
  function ZeroSeed(round: nat): u16
  {
    0
  }

  /** `make_safeish_filename` asks only the file system whether a name is
      taken, so the temporary name of a later round can be the destination
      of a move planned earlier: `d` to `b.pmv0000` followed by the swap of
      `b` and `c` plans two moves onto `b.pmv0000`. Executed in order the
      second would overwrite the first one's file; `try_main` refuses the
      plan instead, since its check of the destinations runs on the plan. */
  lemma TempNameCollision()
    ensures var work := [Action("d", "b.pmv0000"), Action("b", "c"), Action("c", "b")];
      DistinctDests(work) && Existing(work, CollisionFiles) &&
      PlanFrom(work, 0, ZeroSeed, CollisionFiles) ==
        Ok([Action("d", "b.pmv0000"), Action("c", "b.pmv0000"), Action("b", "c"), Action("b.pmv0000", "b")]) &&
      !DistinctDests(PlanFrom(work, 0, ZeroSeed, CollisionFiles).value)
  {
    var work := [Action("d", "b.pmv0000"), Action("b", "c"), Action("c", "b")];
    var swap := [Action("b", "c"), Action("c", "b")];
    var out := [Action("c", "b.pmv0000"), Action("b", "c"), Action("b.pmv0000", "b")];
    var plan := [Action("d", "b.pmv0000"), Action("c", "b.pmv0000"), Action("b", "c"), Action("b.pmv0000", "b")];
    CollisionFirstRound();
    CollisionSecondPlan();
    PlanFromStep(work, 0, ZeroSeed, CollisionFiles, [0]);
    assert PlanFrom(work, 0, ZeroSeed, CollisionFiles) == After([work[0]], Ok(out));
    assert [work[0]] + out == plan;
    assert plan[0].dest == plan[1].dest;
  }

  /** The plan for the swap, from the second round on. */
  lemma CollisionSecondPlan()
    ensures var swap := [Action("b", "c"), Action("c", "b")];
      DistinctDests(swap) &&
      PlanFrom(swap, 1, ZeroSeed, CollisionFiles) ==
        Ok([Action("c", "b.pmv0000"), Action("b", "c"), Action("b.pmv0000", "b")])
  {
    var swap := [Action("b", "c"), Action("c", "b")];
    var out := [Action("c", "b.pmv0000"), Action("b", "c"), Action("b.pmv0000", "b")];
    CollisionSwap();
    assert PlanFrom([], 2, ZeroSeed, CollisionFiles) == Ok([]);
    PlanFromStep(swap, 1, ZeroSeed, CollisionFiles, [0, 1]);
    assert PlanFrom(swap, 1, ZeroSeed, CollisionFiles) == After(out, Ok([]));
    assert out + [] == out;
  }

  /** First round of the collision: `d` to `b.pmv0000` is a chain of its
      own. */
  lemma CollisionFirstRound()
    ensures var work := [Action("d", "b.pmv0000"), Action("b", "c"), Action("c", "b")];
      DistinctDests(work) &&
      PullChain(work) == Ok([0]) &&
      Emit(work, [0], 0, CollisionFiles) == Ok([Action("d", "b.pmv0000")]) &&
      Remaining(work, [0]) == [Action("b", "c"), Action("c", "b")]
  {
    var work := [Action("d", "b.pmv0000"), Action("b", "c"), Action("c", "b")];
    assert FindSrc(work, "d", 1) == None;
    assert FindSrc(work, "b.pmv0000", 1) == None;
    assert ChainStep(work, [0]) == Done;
    assert Members([0]) == {0};
    assert Kept(work, {0}, 2) == [work[2]];
    assert Kept(work, {0}, 1) == [work[1], work[2]];
    assert Kept(work, {0}, 0) == [work[1], work[2]];
    assert Backwards(work, [0]) == [work[0]];
  }

  /** Second round: the swap of `b` and `c` is one chain. */
  lemma CollisionSwapChain()
    ensures var swap := [Action("b", "c"), Action("c", "b")];
      DistinctDests(swap) && PullChain(swap) == Ok([0, 1])
  {
    var swap := [Action("b", "c"), Action("c", "b")];
    assert FindSrc(swap, "b", 1) == None;
    assert FindSrc(swap, "c", 2) == None;
    assert FindSrc(swap, "c", 1) == Some(1);
    assert ChainStep(swap, [0]) == Grow(1);
    assert ChainStep(swap, [0, 1]) == Done;
    assert IsChain(swap, [0, 1]);
    assert Extend(swap, [0, 1]) == Ok([0, 1]);
    assert [0] + [1] == [0, 1];
  }

  /** Second round: the swap of `b` and `c` is circular and its temporary
      name is the first candidate, `b.pmv0000`, since no file is there. */
  lemma CollisionSwap()
    ensures var swap := [Action("b", "c"), Action("c", "b")];
      DistinctDests(swap) &&
      PullChain(swap) == Ok([0, 1]) &&
      Emit(swap, [0, 1], 0, CollisionFiles) == Ok([Action("c", "b.pmv0000"), Action("b", "c"), Action("b.pmv0000", "b")]) &&
      Remaining(swap, [0, 1]) == []
  {
    var swap := [Action("b", "c"), Action("c", "b")];
    CollisionSwapChain();
    assert Hex4(0) == "0000";
    assert Candidate("b", Probe(0, 0)) == "b.pmv0000";
    assert !CollisionFiles("b.pmv0000");
    assert FirstFree("b", 0, CollisionFiles, 0) == Some("b.pmv0000");
    assert [0, 1][..1] == [0];
    assert Backwards(swap, [0]) == [Action("b", "c")];
    assert Circular(swap, [0, 1]);
    assert Emit(swap, [0, 1], 0, CollisionFiles) ==
      Ok([Action("c", "b.pmv0000")] + [Action("b", "c")] + [Action("b.pmv0000", "b")]);
    assert [Action("c", "b.pmv0000")] + [Action("b", "c")] + [Action("b.pmv0000", "b")] ==
      [Action("c", "b.pmv0000"), Action("b", "c"), Action("b.pmv0000", "b")];
    assert Members([0, 1]) == {0, 1};
    assert Kept(swap, {0, 1}, 1) == [];
  }

  /** The oracle a temporary name should be checked against: a name is
      taken when a file exists there or when a requested move takes a file
      from or to it. */
  function Avoiding(taken: string -> bool, actions: seq<Action>): (r: string -> bool)
    ensures Reserved(actions, r)
    ensures forall x :: taken(x) ==> r(x)
  {
    var names := set a | a in actions :: a.src;
    var dests := set a | a in actions :: a.dest;
    x => taken(x) || x in names || x in dests
  }

  /** With that oracle the plan is safe for every request it accepts: no
      two moves land on the same path and no move lands on a file before it
      has been moved away. */
  lemma AvoidingPlanSafe(work: seq<Action>, round: nat, seed: nat -> u16, taken: string -> bool)
    requires DistinctDests(work)
    ensures var plan := PlanFrom(work, round, seed, Avoiding(taken, work));
      plan.Ok? ==> DistinctDests(plan.value) && NoClobber(plan.value, Srcs(work))
  {
    var oracle := Avoiding(taken, work);
    PlanDistinctDests(work, round, seed, oracle);
    PlanNoClobber(work, round, seed, oracle);
  }
  // ---------------------------------------------------------------------
  // The cases of the repository's tests

  /** The three passes of the loop of `pull_a_chain` on `A` to `B`, `C` to
      `X`, `B` to `C`. */
  lemma ChainedSteps()
    ensures var work := [Action("A", "B"), Action("C", "X"), Action("B", "C")];
      FindSrc(work, "A", 1) == None &&
      ChainStep(work, [0]) == Grow(2) &&
      ChainStep(work, [0, 2]) == Grow(1) &&
      ChainStep(work, [0, 2, 1]) == Done
  {
    var work := [Action("A", "B"), Action("C", "X"), Action("B", "C")];
    assert FindSrc(work, "B", 1) == Some(2);
    assert FindSrc(work, "B", 3) == None;
    assert FindSrc(work, "C", 1) == Some(1);
    assert FindSrc(work, "C", 2) == None;
    assert FindSrc(work, "X", 1) == None;
  }

  /** The chain of `A` to `B`, `C` to `X`, `B` to `C`: positions 0, 2, 1. */
  lemma ChainedChain()
    ensures var work := [Action("A", "B"), Action("C", "X"), Action("B", "C")];
      DistinctDests(work) && PullChain(work) == Ok([0, 2, 1])
  {
    var work := [Action("A", "B"), Action("C", "X"), Action("B", "C")];
    ChainedSteps();
    assert DistinctDests(work) && IsChain(work, [0]);
    ExtendGrow(work, [0], 2);
    assert [0] + [2] == [0, 2];
    ExtendGrow(work, [0, 2], 1);
    assert [0, 2] + [1] == [0, 2, 1];
    assert Extend(work, [0, 2, 1]) == Ok([0, 2, 1]);
  }

  /** Taking the whole chain out leaves nothing. */
  lemma ChainedRemaining()
    ensures Remaining([Action("A", "B"), Action("C", "X"), Action("B", "C")], [0, 2, 1]) == []
  {
    var work := [Action("A", "B"), Action("C", "X"), Action("B", "C")];
    assert Members([0, 2, 1]) == {0, 1, 2};
    assert Kept(work, {0, 1, 2}, 3) == [];
    assert Kept(work, {0, 1, 2}, 2) == [];
    assert Kept(work, {0, 1, 2}, 1) == [];
  }

  /** The chain is not circular, so it is emitted backwards, each move
      freeing the destination of the one before. */
  lemma ChainedEmit(n: u16, taken: string -> bool)
    ensures Emit([Action("A", "B"), Action("C", "X"), Action("B", "C")], [0, 2, 1], n, taken) ==
      Ok([Action("C", "X"), Action("B", "C"), Action("A", "B")])
  {
    var work := [Action("A", "B"), Action("C", "X"), Action("B", "C")];
    assert !Circular(work, [0, 2, 1]);
    assert Backwards(work, [0, 2, 1]) == [work[1], work[2], work[0]];
  }

  /** `sort_actions` on `A` to `B`, `C` to `X`, `B` to `C` plans `C` to
      `X`, `B` to `C`, `A` to `B`, whatever the oracle and the random
      start. */
  lemma ChainedExample(seed: nat -> u16, taken: string -> bool)
    ensures var work := [Action("A", "B"), Action("C", "X"), Action("B", "C")];
      DistinctDests(work) &&
      PlanFrom(work, 0, seed, taken) == Ok([Action("C", "X"), Action("B", "C"), Action("A", "B")])
  {
    var work := [Action("A", "B"), Action("C", "X"), Action("B", "C")];
    var out := [Action("C", "X"), Action("B", "C"), Action("A", "B")];
    ChainedChain();
    ChainedRemaining();
    ChainedEmit(seed(0), taken);
    PlanFromStep(work, 0, seed, taken, [0, 2, 1]);
    assert PlanFrom([], 1, seed, taken) == Ok([]);
    assert out + [] == out;
  }

  /** A file moved twice further down the chain: `B` to `C` and `B` to `D`
      are named in the error. */
  lemma SharedSecondExample()
    ensures var work := [Action("A", "B"), Action("B", "C"), Action("B", "D")];
      DistinctDests(work) && PullChain(work) == Err(Conflict("B", "C", "D"))
  {
    var work := [Action("A", "B"), Action("B", "C"), Action("B", "D")];
    assert FindSrc(work, "A", 1) == None;
    assert FindSrc(work, "B", 1) == Some(1);
    assert FindSrc(work, "B", 2) == Some(2);
    assert ChainStep(work, [0]) == Fail(Conflict("B", "C", "D"));
  }
}
