# pmv — a verified model of the matcher, the walker and the move planner

pmv moves many files at once: a source pattern with `*` and `?` wildcards
selects files, the substrings the wildcards matched are put into a
destination pattern (`#1` … `#9`), and the resulting moves are checked and
then ordered so that no move overwrites a file that another move still has
to take away. Chains of moves (`A→B` after `B→C`) are carried out from
their end, and a circular chain (`A→B`, `B→C`, `C→A`) is broken with a
temporary name `<path>.pmvXXXX`.

This project models that core in Dafny and proves what it promises:

- `Fnmatch` — `fnmatch`, `strspn`, `strcspn` and `match_chars` of
  `src/fnmatch.rs`. The loop of `fnmatch` is a method proved equal to a
  recursive function (`Go`); every match it reports is explained by an
  independent, declarative reading of the pattern (`Explains`: one capture
  per wildcard, one character per `?`, the pattern with its captures put
  back in is the name). The greedy, non-backtracking behaviour of the
  repository is kept and shown (`*a` does not match `aXa`).
- `Substitution` — `substitute_variables` of `src/plan.rs`, byte by byte as
  the repository writes it, and a character-level version used by the rest
  of the model.
- `TempNames` — `make_safeish_filename`: the probe order from the random
  start, the `.pmvXXXX` suffix and when it gives up.
- `Plan` — `pull_a_chain` and `sort_actions`: the chain pulled from the
  first move, its failure when a source is shared, the backward emission,
  the splitting of a circular chain through a temporary name and the
  removal of the chain.
- `PlanProperties` — what a plan promises: every request is carried out,
  nothing else is moved, no two moves share a destination and no move lands
  on a file that is still to be moved away.
- `Walk` — `walk` and `walk1` of `src/walk.rs` over a directory tree given
  as a value, with names unique within each directory. With plain name
  components, every file or directory whose names match the components is
  reported exactly once, and nothing else is.
- `Validation` — `validate` of `src/lib.rs` (entries) and of `src/main.rs`
  (parallel lists).
- `Pipeline` — `matches_to_entries` and `try_main` of `src/lib.rs` up to
  the moves.

The random start of `make_safeish_filename` is a parameter (`seed`, one
value per round of `sort_actions`); `Path::exists` is an oracle
`taken: string -> bool`; the file system the walker reads is a tree of
`Node`s in the order the directory iterator yields them.

## Model

| member | source | states |
|---|---|---|
| `Fnmatch.MatchChars` | src/fnmatch.rs:114-132 | two characters match when equal, or, with case folding on (Windows), when they differ only in the case of an ASCII letter |
| `Fnmatch.Span` | src/fnmatch.rs:92-101 | the run counted from `i` stays inside the text and stops at its end or at a character other than `accept` |
| `Fnmatch.CSpan` | src/fnmatch.rs:103-112 | the run counted from `i` stays inside the text and stops at its end or at the first `reject` |
| `Fnmatch.SpanRun` | src/fnmatch.rs:92-101 | every character of the counted run is `accept` |
| `Fnmatch.CSpanRun` | src/fnmatch.rs:103-112 | no character of the counted run is `reject` |
| `Fnmatch.Strspn` | src/fnmatch.rs:92-101 | the loop of `strspn` returns the length of the run of `accept` from `i` |
| `Fnmatch.Strcspn` | src/fnmatch.rs:103-112 | the loop of `strcspn` returns the distance from `i` to the first `reject`, or to the end |
| `Fnmatch.SpanExact` | src/fnmatch.rs:92-101 | a run of exactly `m` copies of `accept` followed by the end or another character is what `strspn` counts |
| `Fnmatch.CSpanAbsent` | src/fnmatch.rs:103-112 | without `reject` in the rest of the text `strcspn` counts to the end |
| `Fnmatch.Singles` | src/fnmatch.rs:63-65 | the one-character captures pushed for the question marks after a star, in order |
| `Fnmatch.Next` | src/fnmatch.rs:24-80 | one pass of the loop always advances in the pattern and never moves backwards in the name |
| `Fnmatch.Iterate` | src/fnmatch.rs:24-80 | the body of the loop of `fnmatch`, with its branches for `?`, a final `*`, `**`, `*?…`, `*` before a literal and a literal, is one step of the recursive reading |
| `Fnmatch.StarQuestions` | src/fnmatch.rs:43-67 | the `*?…` branch (count the question marks, refuse a following `*`, fail when the name is too short, push the star's capture and one capture per question mark) is that step of the recursive reading |
| `Fnmatch.PushSingles` | src/fnmatch.rs:63-65 | the loop pushes exactly the one-character captures of the positions it runs over, after what was pushed before |
| `Fnmatch.Fnmatch` | src/fnmatch.rs:15-90 | the whole loop, with its end check, returns the captures of the recursive reading |
| `Fnmatch.CapturesSound` | src/fnmatch.rs:15-90 | a reported match is explained by the declarative reading: one capture per wildcard in order, a single character for every `?`, and (without case folding) the pattern with its captures put back in is the name |
| `Fnmatch.ExplainsFromShape` | src/fnmatch.rs:15-90 | any explanation has one capture per wildcard, one character per `?`, and fills the pattern back into the name |
| `Fnmatch.GoSound` | src/fnmatch.rs:23-89 | every result of the recursive reading from position `i` is explained from `i` |
| `Fnmatch.StepSound` | src/fnmatch.rs:82-88 | the end check after a pass keeps the captures of that pass in front and is explained |
| `Fnmatch.NextSound` | src/fnmatch.rs:24-80 | each branch of one pass is explained when what follows is |
| `Fnmatch.SingleCaptureSound` | src/fnmatch.rs:24-74 | the branches for `?`, a final `*`, `**` and `*` before a literal are explained |
| `Fnmatch.NextStarQuestions` | src/fnmatch.rs:43-67 | the `*?…` branch counts the question marks, measures up to the terminator, pushes the star's part and then one character per question mark |
| `Fnmatch.StarQuestionsSound` | src/fnmatch.rs:43-67 | the `*?…` branch is explained |
| `Fnmatch.QuestionsExplain` | src/fnmatch.rs:63-65 | a run of question marks matched one character each is explained |
| `Fnmatch.SimilarCons` | src/fnmatch.rs:75-77 | two texts match character by character exactly when their first characters match and the rests do |
| `Fnmatch.GoLiteral` | src/fnmatch.rs:75-88 | a pattern without wildcards matches exactly the names it matches character by character, with no captures |
| `Fnmatch.LiteralPattern` | src/fnmatch.rs:158-162 | without wildcards and without case folding a name matches exactly when it equals the pattern |
| `Fnmatch.StarQuestionsStar` | src/fnmatch.rs:47-51 | a scan standing at `*` followed by question marks and another `*` fails, whatever the name |
| `Fnmatch.ScanReachesStarQuestionsStar` | src/fnmatch.rs:23-80 | a scan starting anywhere before such a `*?…*` fails: no pass jumps over its first star |
| `Fnmatch.StarQuestionsStarPattern` | src/fnmatch.rs:47-51 | a pattern holding `*`, one or more `?` and another `*` matches no name at all, as the refusal test at src/fnmatch.rs:246-248 expects |
| `Fnmatch.StarTerminator` | src/fnmatch.rs:68-74 | a `*` before a literal takes everything up to the first occurrence of that literal and fails when there is none |
| `Fnmatch.FinalStar` | src/fnmatch.rs:34-38 | a final `*` takes the rest of the name |
| `Fnmatch.QuestionAtEnd` | src/fnmatch.rs:24-27 | a `?` with no character left fails |
| `Fnmatch.StarQuestionsFail` | src/fnmatch.rs:47-58 | `*?…` fails when a `*` follows the question marks or when the name is too short for them |
| `Fnmatch.NoBacktracking` | src/fnmatch.rs:68-74 | `*a` does not match `aXa` although an explanation exists: a star stops at the first occurrence of its terminator |
| `Fnmatch.StarQuestionsExample` | src/fnmatch.rs:8-12 | `f*??r` on `foobar` captures `oo`, `b`, `a` |
| `Fnmatch.DoubleStarExample` | src/fnmatch.rs:212-217 | `f**r` on `foobar` captures the empty string and `ooba` |
| `Fnmatch.DoubleStar` | src/fnmatch.rs:39-42 | for every pattern and name, of two stars in a row the first captures the empty string and the match goes on from the second at the same place in the name |
| `Fnmatch.StarRun` | src/fnmatch.rs:39-42 | in a run of stars every star but the last captures the empty string |
| `Fnmatch.RefusalExamples` | src/fnmatch.rs:246-248 | `f*?*r` is refused; `Abc` matches `abC` only with case folding |
| `Substitution.SubstituteVariables` | src/plan.rs:152-179 | the byte loop yields the substitution read from the front of the pattern |
| `Substitution.VariableStep` | src/plan.rs:157-169 | a `#d` variable contributes its substring, or `#d` itself when there is no `d`-th substring |
| `Substitution.ByteStep` | src/plan.rs:170-176 | any other byte contributes one character: the separator for `/` and `\`, the byte's code otherwise |
| `Substitution.SubstAt` | src/plan.rs:156-177 | the three branches of one step of the scan at any position |
| `Substitution.Normalized` | src/plan.rs:170-176 | separators replaced, every other byte kept, length unchanged |
| `Substitution.NoVariablesNormalized` | src/plan.rs:152-179 | a pattern without variables comes out with only its separators replaced, whatever the substrings |
| `Substitution.SubstAppend` | src/plan.rs:152-179 | patterns split anywhere but right after `#` are substituted piece by piece |
| `Substitution.VariableThenRest` | src/plan.rs:157-169 | `#d` at the front becomes the `d`-th substring, or stays `#d` when there is none |
| `Substitution.SharpVerbatim` | src/plan.rs:157-176 | a `#` not followed by a digit `1`..`9` is kept |
| `Substitution.SharpTenExample` | src/plan.rs:152-179 | `#10` is `#1` followed by `0` |
| `Substitution.OutOfRangeExample` | src/plan.rs:159-166 | a variable past the substrings is kept as written, others are replaced, `/` becomes the separator |
| `Substitution.InsertedTextKeptExample` | src/plan.rs:168 | inserted substrings are not rescanned |
| `Substitution.Utf8Two` | src/plan.rs:153 | the UTF-8 encoding of a two-byte character |
| `Substitution.NonAsciiSplit` | src/plan.rs:174 | the byte loop turns `é` into the two characters `Ã` and `©` |
| `Substitution.SubstTextAscii` | src/plan.rs:152-179 | on ASCII patterns the character-level substitution agrees with the byte loop |
| `Substitution.TextCharKept` | src/plan.rs:173-176 | the character-level substitution keeps every character other than `#` and the separators, non-ASCII included |
| `Substitution.SubstTextFixed` | src/plan.rs:152-179 | a pattern without `#` gives the same destination whatever the substrings |
| `TempNames.Hex4` | src/plan.rs:71 | the `04x` format gives exactly four hexadecimal digits |
| `TempNames.Hex4RoundTrip` | src/plan.rs:71 | the four digits read back give the number |
| `TempNames.CandidateInjective` | src/plan.rs:70-71 | different paths or suffixes give different temporary names |
| `TempNames.Probe` | src/plan.rs:69 | the `k`-th probe is below 65535 |
| `TempNames.ProbeBijective` | src/plan.rs:69 | `(n..65535).chain(0..n)` visits each of `0`..`65534` exactly once |
| `TempNames.ProbeFirstRange` | src/plan.rs:69 | the probes first run from `n` to `65534` |
| `TempNames.ProbeSecondRange` | src/plan.rs:69 | then from `0` to `n - 1` |
| `TempNames.MakeSafeishFilename` | src/plan.rs:63-80 | the two loops return the first candidate in probe order that does not exist |
| `TempNames.FirstFreeIsFirst` | src/plan.rs:69-76 | when every earlier probe exists and this one does not, this one is returned |
| `TempNames.FirstFreeFree` | src/plan.rs:69-76 | a returned name does not exist, is a probed candidate, and never has the suffix `ffff` |
| `TempNames.FirstFreeNone` | src/plan.rs:69-79 | nothing is returned exactly when every remaining probe exists |
| `TempNames.GiveUpOnlyWhenAllTaken` | src/plan.rs:63-80 | `None` exactly when all 65535 names with suffixes `0000`..`fffe` exist, whatever the random start |
| `Plan.FindSrc` | src/plan.rs:96 | a found position is at or after the start and has the wanted source |
| `Plan.FindSrcFirst` | src/plan.rs:122 | the found position is the first with that source; nothing is found exactly when no later move has it |
| `Plan.FindSrcFrom` | src/plan.rs:122 | the search of `iter().skip(i + 1).find(..)` returns the first later move with that source |
| `Plan.ChainStep` | src/plan.rs:111-139 | a successor found by a pass of the loop is a later move whose source is the destination of the chain's last move |
| `Plan.NextLink` | src/plan.rs:111-134 | the scan for the successor: the first move from position 1 on whose source is the chain's end, refused when a later move shares that source |
| `Plan.GrowFresh` | src/plan.rs:132 | with distinct destinations the successor is not already in the chain |
| `Plan.UnreachedShrinks` | src/plan.rs:107-140 | each pass that grows the chain leaves fewer positions outside it, so the loop ends |
| `Plan.PullAChain` | src/plan.rs:86-143 | the loop of `pull_a_chain` returns the chain of the recursive reading |
| `Plan.GrowUnique` | src/plan.rs:121-132 | growing keeps a chain of distinct positions with distinct sources |
| `Plan.FailShared` | src/plan.rs:121-129 | a failed pass names a source that two moves share, with both destinations |
| `Plan.ExtendResult` | src/plan.rs:107-142 | the loop ends with a chain no move continues, or with an error naming a shared source |
| `Plan.PullChainResult` | src/plan.rs:86-143 | an empty list gives an empty chain; otherwise a finished chain from the first move, or a shared-source error |
| `Plan.ChainClosed` | src/plan.rs:136-139 | no move outside a finished chain starts at a destination inside it |
| `Plan.PullChainDistinctSrcs` | src/plan.rs:84-85 | with distinct sources (and destinations) `pull_a_chain` does not fail |
| `Plan.KeptLength` | src/plan.rs:50-53 | removing `c` positions from `n` moves leaves `n - c` |
| `Plan.CountChain` | src/plan.rs:50-53 | a chain of distinct positions removes that many moves |
| `Plan.RemainingLength` | src/plan.rs:49-53 | removing a chain of distinct positions shortens the list by its length |
| `Plan.KeptFrom` | src/plan.rs:49-53 | every move left was in the list at a position not removed |
| `Plan.KeptHas` | src/plan.rs:49-53 | every move at a position not removed is left |
| `Plan.KeptDistinct` | src/plan.rs:49-53 | removal keeps destinations distinct |
| `Plan.KeptRemove` | src/plan.rs:51-53 | removing position `x` below every position already removed is `Vec::remove(x)` |
| `Plan.KeptNothing` | src/plan.rs:49-53 | removing nothing leaves the list |
| `Plan.SortIndices` | src/plan.rs:50 | the chain's positions sorted increasingly, the same positions |
| `Plan.RemoveChain` | src/plan.rs:49-53 | removing the sorted positions from the back leaves exactly the moves outside the chain, in order |
| `Plan.EmitChain` | src/plan.rs:13-47 | the copy of a chain extends the plan so far by the chain's emission, keeping what was planned before |
| `Plan.SortActions` | src/plan.rs:5-57 | the loop of `sort_actions` returns the plan of the recursive reading, one chain per round |
| `Plan.AfterAfter` | src/plan.rs:38-46 | appending to the plan in two steps is appending once |
| `Plan.PlanFromStep` | src/plan.rs:8-54 | one round: the chain is emitted and the rest is planned with the next random start |
| `Plan.BackwardsStep` | src/plan.rs:44-46 | the chain is copied from its last move to its first |
| `PlanProperties.RoundFacts` | src/plan.rs:8-54 | a successful plan is the first chain's emission followed by the plan of the moves left |
| `PlanProperties.EmitCircular` | src/plan.rs:23-42 | a circular chain is emitted as last source to a free temporary name, the chain backwards without its last move, then the temporary name to the first source |
| `PlanProperties.EmitCovers` | src/plan.rs:22-47 | every move of the chain is emitted, or split through a temporary name |
| `PlanProperties.EmitFromInput` | src/plan.rs:22-47 | every emitted move is a requested one or half of a split through a free temporary name |
| `Plan.CircularRounds` | src/plan.rs:8-54 | the number of rounds whose chain is circular, counted as `sort_actions` pulls the chains |
| `PlanProperties.PlanLength` | src/plan.rs:8-56 | a successful plan has exactly one move per request plus one per circular round (src/plan.rs:49-56 pushes the extra move from the temporary name), and at most half as many circular rounds as requests |
| `PlanProperties.PlanDistinctSrcs` | src/plan.rs:96-129 | a successful plan means no two requested moves share a source |
| `PlanProperties.PlanCovers` | src/plan.rs:5-57 | every requested move is carried out, directly or through a temporary name |
| `PlanProperties.PlanFromInput` | src/plan.rs:5-57 | the plan moves nothing that was not requested, apart from the temporary names |
| `PlanProperties.EmitAt` | src/plan.rs:22-47 | the position-by-position shape of a chain's emission |
| `PlanProperties.EmitDest` | src/plan.rs:22-47 | each emitted destination is a chain move's destination or the free temporary name |
| `PlanProperties.ChainOrderSafe` | src/plan.rs:22-25 | in a chain, a later move's destination is never an earlier move's source, except where the circle closes |
| `PlanProperties.EmitLink` | src/plan.rs:39-46 | the emission holds the chain's moves from last to first |
| `PlanProperties.EmitOpen` | src/plan.rs:29-38 | the circle is opened by a move to a name that does not exist |
| `PlanProperties.EmitClose` | src/plan.rs:42 | the circle is closed by a move from that name |
| `PlanProperties.EmitShaped` | src/plan.rs:22-47 | the emission has the shape that the safety lemmas need |
| `PlanProperties.PairSafe` | src/plan.rs:22-47 | within an emission no move lands on an existing file that a later move takes away |
| `PlanProperties.EmitNoClobber` | src/plan.rs:22-47 | a chain's emission overwrites no file before it has been moved |
| `PlanProperties.EmitBeforeRest` | src/plan.rs:8-54 | no emitted move lands on the source of a move left for later rounds |
| `PlanProperties.RemainingTaken` | src/plan.rs:49-53 | removing a chain keeps the facts about existing files |
| `PlanProperties.JoinNoClobber` | src/plan.rs:8-54 | a safe round followed by a safe rest is safe |
| `PlanProperties.PlanNoClobber` | src/plan.rs:5-57 | when every source exists, no planned move overwrites a file that is still to be moved |
| `PlanProperties.EmitDistinctDests` | src/plan.rs:22-47 | a chain's emission has distinct destinations when the temporary names avoid the requested paths |
| `PlanProperties.EmitRestDistinct` | src/plan.rs:8-54 | a round's destinations differ from those of later rounds |
| `PlanProperties.JoinDistinct` | src/plan.rs:38-46 | joining two parts with distinct destinations that do not meet keeps them distinct |
| `PlanProperties.PlanDistinctDests` | src/plan.rs:5-57 | with temporary names that avoid the requested paths the plan's destinations are distinct |
| `PlanProperties.TempNameCollision` | src/plan.rs:63-80 | `d→b.pmv0000`, `b→c`, `c→b` is planned with `b.pmv0000` as a temporary name as well, two moves onto one path |
| `PlanProperties.CollisionFirstRound` | src/plan.rs:86-143 | in that example the first chain is `d→b.pmv0000` alone |
| `PlanProperties.CollisionSwapChain` | src/plan.rs:86-143 | the swap of `b` and `c` is one chain |
| `PlanProperties.CollisionSwap` | src/plan.rs:23-42 | the swap is circular and its temporary name is `b.pmv0000` |
| `PlanProperties.CollisionSecondPlan` | src/plan.rs:5-57 | the plan of the second round |
| `PlanProperties.Avoiding` | src/plan.rs:73 | the oracle counts every requested source and destination as taken, and every existing file |
| `PlanProperties.AvoidingPlanSafe` | src/plan.rs:5-80 | with that oracle a plan has distinct destinations and overwrites nothing still to be moved |
| `PlanProperties.ChainedSteps` | src/plan.rs:427-439 | the passes of `pull_a_chain` on `A→B`, `C→X`, `B→C` |
| `PlanProperties.ChainedChain` | src/plan.rs:427-439 | that chain is positions 0, 2, 1 |
| `PlanProperties.ChainedRemaining` | src/plan.rs:49-53 | removing it leaves nothing |
| `PlanProperties.ChainedEmit` | src/plan.rs:43-47 | it is emitted backwards |
| `PlanProperties.ChainedExample` | src/plan.rs:503-518 | `sort_actions` plans `C→X`, `B→C`, `A→B`, whatever the oracle and the random start |
| `PlanProperties.SharedSecondExample` | src/plan.rs:468-482 | `A→B`, `B→C`, `B→D` fails naming `B`, `C` and `D` |
| `Walk.Pieces` | src/walk.rs:40 | the text between separators; a leading `/` gives an empty first piece |
| `Walk.Named` | src/walk.rs:40 | empty pieces and `.` vanish, `..` is the parent, every other piece a proper name |
| `Walk.Components` | src/walk.rs:40 | every `Normal` component of a pattern carries a proper name |
| `Walk.SingleComponent` | src/walk.rs:40 | a name without separators is one component |
| `Walk.PiecesJoin` | src/walk.rs:40 | pieces of `a/b` are `a` followed by the pieces of `b` |
| `Walk.DotSlash` | src/walk.rs:40 | `./p` is the current directory followed by the components of `p`; `/p` starts at the root |
| `Walk.Child` | src/walk.rs:95-100 | a child found has the name looked for |
| `Walk.ChildIn` | src/walk.rs:103-121 | in a listing with unique names every entry is found by its own name, so `entry.path()` and `dir.join(fname)` name that entry |
| `Walk.LookupSnoc` | src/walk.rs:121 | the path of an entry of a directory is looked up in that directory's listing |
| `Walk.LookupWellFormed` | src/walk.rs:121-126 | every directory reached from a well-formed tree is well formed |
| `Walk.Walk1` | src/walk.rs:45-148 | `walk1` pushes onto `matches` exactly what the recursive reading finds, or stops with its error |
| `Walk.Scan` | src/walk.rs:81-146 | the loop over the directory's entries, with its skip, its metadata error and its recursion |
| `Walk.ThenStep` | src/walk.rs:126 | the matches of a sub-walk are appended in order |
| `Walk.Walk` | src/walk.rs:29-43 | `walk` refuses a relative directory and otherwise returns the matches of `walk1` from an empty list |
| `Walk.FoundLift` | src/walk.rs:119-126 | a match one level down is a match here with the entry's name and captures in front |
| `Walk.FoundLeaf` | src/walk.rs:127-141 | an entry of the listing that is a file or a directory and matches the last component is a match: its path names it |
| `Walk.Walk1Sound` | src/walk.rs:45-148 | with plain name components every reported path lies one level down per component, each level's name matches it, each level above the last is a directory, the path itself names a file or a directory, and the substrings are the captures in order |
| `Walk.ScanSound` | src/walk.rs:95-144 | the same for the loop over the entries of the directory the walk stands in |
| `Walk.EntrySound` | src/walk.rs:102-142 | the same for one entry of that directory |
| `Walk.ScanContains` | src/walk.rs:95-144 | a scan that succeeds succeeded on every later entry and holds what that entry's step found |
| `Walk.LeafComplete` | src/walk.rs:128-141 | at the last component every matching file or directory of the listing is reported with its captures |
| `Walk.Walk1Complete` | src/walk.rs:45-148 | every file or directory whose names match the components one by one, through directories, is reported, with its captures in order |
| `Walk.Walk1Distinct` | src/walk.rs:95-144 | in a well-formed tree, with plain name components, no two matches share a path |
| `Walk.ScanDistinct` | src/walk.rs:95-144 | in a well-formed tree, with plain name components, the loop's matches have distinct paths and each lies below an entry not yet scanned |
| `Walk.EntryDistinct` | src/walk.rs:102-142 | in a well-formed tree, with plain name components, one entry's matches have distinct paths, all below that entry |
| `Walk.OnePath` | src/walk.rs:127-141 | matches with distinct paths that share one path are at most one |
| `Walk.Walk1Once` | src/walk.rs:127-141 | in a well-formed tree, with plain name components, every file or directory whose names match the components is reported exactly once |
| `Walk.ParentDirRepeats` | src/walk.rs:72-76 | with a `..` component a path can be reported more than once: `a*/../b` over directories `ab` and `ac` and a file `b` reports `/b` twice, with the parts `b` and `c`, whatever the two directories hold |
| `Walk.TwoWaysWellFormed` | src/walk.rs:95-126 | the tree of that example is well formed exactly when its two directories are, so it breaks only the plain-name requirement |
| `Walk.Spelled` | src/walk.rs:40 | the names of plain name components, one per component |
| `Walk.MatchNamesLiteral` | src/walk.rs:111 | components without wildcards match exactly the names they spell and capture nothing |
| `Walk.LiteralWalk` | src/walk.rs:202-213 | a pattern without wildcards yields at most the one path it spells, with no matched parts, and yields it when it exists |
| `Walk.CurDirPrefix` | src/walk.rs:77-80 | `./p` walks exactly as `p` |
| `Walk.AbsolutePattern` | src/walk.rs:66-71 | a pattern starting with `/` is walked from the root wherever the walk starts |
| `Walk.RelativeRefused` | src/walk.rs:31-36 | a relative directory is refused before anything is read |
| `Validation.LessIrreflexive` | src/lib.rs:160 | no path sorts before itself |
| `Validation.LessTransitive` | src/lib.rs:160 | the order of destinations is transitive |
| `Validation.LessTotal` | src/lib.rs:160 | two different destinations are ordered one way or the other |
| `Validation.InsertOrdered` | src/lib.rs:160 | inserting a position after every position with a destination not greater keeps the sort stable |
| `Validation.SortByDest` | src/lib.rs:157-160 | the positions, each once, in the order of a stable sort by destination |
| `Validation.ClashUnique` | src/lib.rs:161-172 | at most one pair of positions is the clash reported: the two earliest positions sharing the smallest duplicated destination |
| `Validation.Increasing` | src/lib.rs:161-164 | sorted neighbours that differ make the sorted destinations strictly increasing |
| `Validation.NoClash` | src/lib.rs:161-175 | when no sorted neighbours are equal, all destinations are distinct |
| `Validation.ClashFound` | src/lib.rs:161-172 | the first equal neighbours are the first two positions of the smallest repeated destination |
| `Validation.FirstClash` | src/lib.rs:157-175 | nothing is found exactly when the destinations are distinct; otherwise the two earliest positions sharing the smallest duplicated destination |
| `Validation.Validate` | src/lib.rs:155-176 | accepts exactly the entries with distinct destinations; otherwise names both sources and the destination of the two earliest entries sharing the smallest duplicated destination |
| `Validation.ValidateParallel` | src/main.rs:22-41 | the same over parallel lists of sources and destinations |
| `Validation.DuplicatedDestExample` | src/main.rs:200-214 | two moves to `src/foo.rs` clash at positions 0 and 1 |
| `Validation.SmallestClashExample` | src/lib.rs:157-172 | with destinations `/z`, `/z`, `/a`, `/a` the clash reported is at positions 2 and 3, not 0 and 1: the smallest duplicated destination decides, not the earliest pair |
| `Pipeline.PathText` | src/walk.rs:15-18 | the path of a match is absolute |
| `Pipeline.MatchesToEntries` | src/lib.rs:132-153 | one entry per match in the order of the walk, from its path to the destination pattern filled with its captures; a failed walk is reported. It walks from an absolute directory, not from `.`, and fills the destination with the character-level `SubstText`, where the repository runs the byte loop `substitute_variables` (src/lib.rs:148); the two agree on ASCII patterns (`Substitution.SubstTextAscii`) |
| `Pipeline.MatchesToEntriesFromDot` | src/lib.rs:133 | walking from `.` always fails |
| `Pipeline.FixedDestinationRefused` | src/lib.rs:145-152 | a destination pattern without `#` sends two or more matches to one path |
| `Pipeline.PlanningDiverges` | src/plan.rs:107-140 | on `/a→/c`, `/c→/c` the head passes its check and every pass of `pull_a_chain` grows the chain by the same move, because the shared destination is the source of a move the chain reaches again |
| `Pipeline.SharedDestinationEnds` | src/plan.rs:107-140 | on `/a→/c`, `/b→/c` no move starts at the shared destination and the chain ends at once, so two moves to one destination do not always make the planner loop |
| `Pipeline.TryMain` | src/lib.rs:178-192 | the corrected run, which differs from `try_main` in two ways: it checks the requests before planning (the repository plans with `sort_entries` first and checks the plan, src/lib.rs:189-192) and its temporary names avoid the requested paths as well as existing ones (the repository asks only `Path::exists`). A failed walk stops the run; duplicate destinations are refused naming the two earliest requests that share the smallest duplicated destination; otherwise the result is the plan, which carries out every request, moves nothing else, has distinct destinations and overwrites nothing still to be moved |

## Left out

- Moving the files (`move_files`), the dry run, the interactive mode and all printing: a run here ends with the plan.
- Argument parsing (`parse_args`), colours (`style_error`), `exit(2)` in `matches_to_entries`: a failed walk is returned as an error.
- `Path::exists` is an oracle and `random` a seed per round; the time between the check and the move (another process creating the temporary name) is not modelled.
- Paths are strings compared character by character; `PathBuf`'s component-wise order and equality (`a//b` equals `a/b`) are not modelled.
- Validation.SortByDest: an insertion sort stands for the standard library's stable sort; only its result (stable order by destination) is stated.
- Windows: the `Prefix` component, `\` as a separator in source patterns and case-insensitive walking are not modelled; the walk matches with folding off and the separator of substitution is a parameter.
- `to_str().unwrap()` on names that are not valid Unicode: names are strings.
- Symbolic links and the metadata of an entry beyond file, directory, unreadable.
- `walk1`'s `assert!`s and `unwrap` of the parent of `/` are modelled as errors (`NotADirectory`, `NoPatterns`, `NoParent`) rather than panics.
- Fnmatch.Captures: requires a non-empty pattern; `fnmatch` indexes `pattern[0]` and panics on an empty one, and the walk never passes one.
- The `debug_assert!`s of `fnmatch` and `pull_a_chain` (absolute paths) are not modelled.
- Plan.PullAChain: requires distinct destinations. As written, `pull_a_chain` does not end when the chain reaches again a move whose source is a shared destination, as in `/a→/c`, `/c→/c` (see `Pipeline.PlanningDiverges`), so the model runs it only after the check. The requirement also excludes inputs on which the repository ends, such as `/a→/c`, `/b→/c` (see `Pipeline.SharedDestinationEnds`); there the repository plans and its check after planning then refuses the moves.
- Plan.SortActions: requires distinct destinations, for the same reason, and so also excludes clashing inputs on which `sort_actions` ends.
- Walk.Walk1Sound, Walk.ScanSound, Walk.EntrySound, Walk.FoundLeaf, Walk.Walk1Distinct, Walk.Walk1Once, Walk.LiteralWalk: require a well-formed tree (`WellFormed`: names unique within each directory), as a real file system guarantees; trees with two entries of one name are not described.
- Walk.Walk1Distinct, Walk.ScanDistinct, Walk.EntryDistinct, Walk.Walk1Once, Walk.Walk1Sound, Walk.Walk1Complete: require plain name components (`AllNormal`: every component a name, so no root, `.` or `..`). With `..` the walk reports a path once for every matching directory it passed through (`Walk.ParentDirRepeats`); the entries built from those matches share their source, which `pull_a_chain` refuses with a "multiple destinations" error when it reaches them (src/plan.rs:96-104).
- Pipeline.TryMain: models the corrected order of `try_main` (check, then plan with temporary names avoiding the requests). As written, `try_main` checks the plan after `sort_entries`: it names the two earliest plan moves that share the smallest duplicated destination, not the two earliest requests, and it refuses the plan of `PlanProperties.TempNameCollision` with a duplicate-destination error, a plan `TryMain` never makes.
- Validation.ValidateParallel: requires at least as many sources as destinations; `src/main.rs` indexes the sources by destination position.
- Entries built from a relative destination pattern are compared with absolute sources as given; resolving relative destinations against the working directory is not modelled.

## Findings

| source | as written | input that shows it | evidently intended | confidence | as-written member | corrected member |
|---|---|---|---|---|---|---|
| src/plan.rs:174 | every byte of the destination pattern that is not a variable or separator is pushed as the character with that code | pattern `é` (bytes `C3 A9`) gives `Ã©` | characters outside ASCII copied unchanged | high, not executed | `Substitution.NonAsciiSplit` | `Substitution.TextCharKept` |
| src/plan.rs:63-80 | the temporary name is checked only against existing files | `d→b.pmv0000`, `b→c`, `c→b` with `b`, `c`, `d` existing and random start 0 plans two moves onto `b.pmv0000`; `try_main`'s check after planning (src/lib.rs:189-192) then refuses this valid request with a duplicate-destination error rather than overwriting a file | a temporary name that no requested move uses | high, not executed | `PlanProperties.TempNameCollision` | `PlanProperties.AvoidingPlanSafe` |
| src/lib.rs:133 | `matches_to_entries` walks from `Path::new(".")`, which `walk` refuses as not absolute (src/walk.rs:31-36) | any source pattern, e.g. `Cargo.*` of the test at src/lib.rs:227-247 | walking from the absolute working directory | high, not executed | `Pipeline.MatchesToEntriesFromDot` | `Pipeline.MatchesToEntries` |
| src/lib.rs:189-192 | the moves are ordered before the destinations are checked, and `pull_a_chain` (src/plan.rs:107-140) loops forever when two moves share a destination that is the source of a move the chain reaches again (two moves to one destination that no move starts from, such as `/a→/c`, `/b→/c`, end normally and are refused after planning) | `/a→/c`, `/c→/c` | refuse duplicate destinations before planning | high, not executed | `Pipeline.PlanningDiverges` | `Pipeline.TryMain` |
