/** `matches_to_entries` and `try_main` of `src/lib.rs`: the walk turns the
    source pattern into matches, each match becomes a requested move, the
    requests are checked and then ordered into a plan. Carrying the plan out
    (`move_files`) is not modelled; a run that returns an error has moved
    nothing. */
module Pipeline {
  import opened Types
  import opened TempNames
  import opened Walk
  import opened Substitution
  import opened Validation
  import opened Plan
  import opened PlanProperties

  /** The names of a path below the root joined with `/`. */
  function Joined(names: seq<string>): string
  {
    if names == [] then ""
    else if |names| == 1 then names[0]
    else names[0] + "/" + Joined(names[1..])
  }

  /** `Match::path`: the absolute path of the entry found. */
  function PathText(names: seq<string>): (t: string)
    ensures |t| > 0 && t[0] == '/'
  {
    "/" + Joined(names)
  }

  /** The move requested for one match: from its path to the destination
      pattern filled with its substrings. */
  function EntryOf(m: Match, destPattern: string): Action
  {
    Action(PathText(m.path), SubstText(destPattern, m.parts, '/'))
  }

  /** The moves requested for the matches, in the order they were found. */
  function Requests(matches: seq<Match>, destPattern: string): seq<Action>
  {
    seq(|matches|, k requires 0 <= k < |matches| => EntryOf(matches[k], destPattern))
  }

  // ---------------------------------------------------------------------
  // From matches to requested moves

  /** `matches_to_entries`, with the directory the walk starts from as a
      parameter: one move per match, in the order of the walk, from the
      match's path to the destination pattern with the match's substrings
      put in; a failed walk is reported as it is. The destination is
      filled by the character-level `SubstText`, where the repository runs
      the byte loop `substitute_variables`; the two agree on ASCII
      patterns (`SubstTextAscii`) and differ on other characters
      (`NonAsciiSplit`). */
  method MatchesToEntries(root: Node, dir: Location, srcPattern: string, destPattern: string)
    returns (r: Result<seq<Action>, WalkError>)
    ensures match WalkSpec(root, dir, srcPattern)
      case Err(e) => r == Err(e)
      case Ok(matches) =>
        r.Ok? && |r.value| == |matches| &&
        forall k :: 0 <= k < |matches| ==>
          r.value[k].src == PathText(matches[k].path) &&
          r.value[k].dest == SubstText(destPattern, matches[k].parts, '/')
  {
    var scan := Walk.Walk(root, dir, srcPattern);
    if scan.Err? {
      return Err(scan.error);
    }
    var matches := scan.value;
    var entries: seq<Action> := [];
    for k := 0 to |matches|
      invariant |entries| == k
      invariant forall i :: 0 <= i < k ==> entries[i] == EntryOf(matches[i], destPattern)
    {
      var m := matches[k];
      var dest := SubstText(destPattern, m.parts, '/');
      entries := entries + [Action(PathText(m.path), dest)];
    }
    return Ok(entries);
  }

  /** `matches_to_entries` as `src/lib.rs` calls it, walking from `.`: the
      walk refuses the relative path, so every call fails, whatever the
      tree and the patterns. */
  method MatchesToEntriesFromDot(root: Node, srcPattern: string, destPattern: string)
    returns (r: Result<seq<Action>, WalkError>)
    ensures r == Err(NotAbsolute("."))
  {
    r := MatchesToEntries(root, Relative("."), srcPattern, destPattern);
  }

  /** A destination pattern without `#` sends every match to the same path,
      so two matches or more are always refused. */
  lemma FixedDestinationRefused(matches: seq<Match>, destPattern: string)
    requires |matches| >= 2
    requires forall k :: 0 <= k < |destPattern| ==> destPattern[k] != '#'
    ensures !DistinctDests(Requests(matches, destPattern))
  {
    SubstTextFixed(destPattern, matches[0].parts, matches[1].parts, '/');
    var r := Requests(matches, destPattern);
    assert r[0].dest == r[1].dest;
  }

  // ---------------------------------------------------------------------
  // Planning before checking

  /** Two moves to one destination, where that destination is also the
      source of the second move. */
  function TwoToOne(): seq<Action>
  {
    [Action("/a", "/c"), Action("/c", "/c")]
  }

  /** `try_main` orders the moves before it checks the destinations. When
      the last link of the chain moves a file to the source of a move
      already in the chain after the head, each pass of the loop of
      `pull_a_chain` finds that move again and pushes it once more, so the
      chain grows without end. That takes two moves to one destination, as
      here, where the head passes its check and the second move follows
      itself; see `SharedDestinationEnds` for a clash that ends. */
  lemma PlanningDiverges(chain: seq<nat>)
    requires |chain| > 0 && chain[|chain| - 1] <= 1
    ensures !DistinctDests(TwoToOne())
    ensures FindSrc(TwoToOne(), TwoToOne()[0].src, 1) == None
    ensures ChainStep(TwoToOne(), chain) == Grow(1)
  {
    var w := TwoToOne();
    assert w[1].src != w[0].src;
    assert FindSrc(w, "/c", 2) == None;
    assert FindSrc(w, "/c", 1) == Some(1);
  }

  /** Two moves to one destination that no move starts from. */
  function SharedDest(): seq<Action>
  {
    [Action("/a", "/c"), Action("/b", "/c")]
  }

  /** Not every clash of destinations makes the planner loop: here no move
      starts at the shared destination, so the chain of the head ends at
      once, and the check after planning is what refuses the moves. */
  lemma SharedDestinationEnds()
    ensures !DistinctDests(SharedDest())
    ensures FindSrc(SharedDest(), SharedDest()[0].src, 1) == None
    ensures ChainStep(SharedDest(), [0]) == Done
  {
    var w := SharedDest();
    assert w[0].dest == w[1].dest;
    assert FindSrc(w, "/a", 2) == None;
    assert FindSrc(w, "/c", 2) == None;
  }

  // ---------------------------------------------------------------------
  // The whole run

  /** Why a run stops before moving anything. */
  datatype RunError =
    | ScanFailed(scan: WalkError)
    | Invalid(clash: DuplicateDest)
    | PlanFailed(failure: PlanError)

  /** A plan of the planner as the result of a run. */
  function Outcome(r: Result<seq<Action>, PlanError>): Result<seq<Action>, RunError>
  {
    match r
    case Ok(plan) => Ok(plan)
    case Err(e) => Err(PlanFailed(e))
  }

  /** What makes a plan safe to carry out for the requested moves: every
      request is carried out, nothing else is moved, no two moves land on
      one path, and no move lands on a file before that file has been
      moved away. */
  predicate Safe(requests: seq<Action>, plan: seq<Action>, oracle: string -> bool)
  {
    Covered(requests, plan, oracle) && FromInput(plan, requests, oracle) &&
    DistinctDests(plan) && NoClobber(plan, Srcs(requests))
  }

  /** `try_main` up to the moves, corrected in two ways: the requests are
      checked before they are planned, where the repository plans first
      (`sort_entries`) and checks the plan, and temporary names avoid the
      requested paths as well as the existing ones, where the repository
      asks only `Path::exists`. The run walks from the absolute working
      directory `cwd`, refuses two moves to one destination (naming the
      two earliest requests that share the smallest duplicated
      destination), then plans. `seed` stands for
      `random`, `taken` for `Path::exists`. */
  method TryMain(root: Node, cwd: seq<string>, srcPattern: string, destPattern: string,
                 seed: nat -> u16, taken: string -> bool)
    returns (r: Result<seq<Action>, RunError>)
    ensures match WalkSpec(root, Absolute(cwd), srcPattern)
      case Err(e) => r == Err(ScanFailed(e))
      case Ok(matches) =>
        var requests := Requests(matches, destPattern);
        var oracle := Avoiding(taken, requests);
        (r.Err? && r.error.Invalid? <==> !DistinctDests(requests)) &&
        (r.Err? && r.error.Invalid? ==>
          exists i: nat, j: nat :: Clash(Dests(requests), i, j) &&
            r.error.clash == DuplicateDest(requests[i].src, requests[j].src, requests[i].dest)) &&
        (DistinctDests(requests) ==> r == Outcome(PlanFrom(requests, 0, seed, oracle))) &&
        (r.Ok? ==> Safe(requests, r.value, oracle))
  {
    var found := MatchesToEntries(root, Absolute(cwd), srcPattern, destPattern);
    if found.Err? {
      return Err(ScanFailed(found.error));
    }
    var requests := found.value;
    assert requests == Requests(WalkSpec(root, Absolute(cwd), srcPattern).value, destPattern);
    var checked := Validate(requests);
    if checked.Err? {
      return Err(Invalid(checked.error));
    }
    var oracle := Avoiding(taken, requests);
    var planned := SortActions(requests, seed, oracle);
    if planned.Err? {
      return Err(PlanFailed(planned.error));
    }
    AvoidingPlanSafe(requests, 0, seed, taken);
    PlanCovers(requests, 0, seed, oracle);
    PlanFromInput(requests, 0, seed, oracle);
    return Ok(planned.value);
  }
}
