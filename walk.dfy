/** `walk` and `walk1` of `src/walk.rs`: the directory tree is searched one
    path component of the source pattern at a time, and every entry whose
    name matches its component is followed (a directory, while components
    remain) or reported (at the last component), together with the
    substrings the wildcards took along the way.

    The file system is a value: a tree of named entries in the order the
    directory iterator yields them. A path is the list of the names below
    the root directory. Paths are Unix paths; the Windows `Prefix`
    component and case folding are not modelled here. */
module Walk {
  import opened Types
  import Fnmatch

  // ---------------------------------------------------------------------
  // Components of a pattern

  /** `std::path::Component` on Unix. */
  datatype Component = RootDir | CurDir | ParentDir | Normal(name: string)

  /** The text between separators, empty pieces included. */
  function Pieces(s: string): (r: seq<string>)
    ensures |r| > 0
    ensures forall k :: 0 <= k < |r| ==> '/' !in r[k]
    ensures s != [] && s[0] == '/' ==> r[0] == ""
    decreases |s|
  {
    if s == [] then [""]
    else
      var rest := Pieces(s[1..]);
      if s[0] == '/' then [""] + rest
      else [[s[0]] + rest[0]] + rest[1..]
  }

  /** A name a `Normal` component can carry. */
  predicate ProperName(x: string)
  {
    x != "" && x != "." && x != ".." && '/' !in x
  }

  /** Pieces after the first: empty pieces and `.` vanish, `..` is the
      parent directory. */
  function Named(pieces: seq<string>): (r: seq<Component>)
    requires forall k :: 0 <= k < |pieces| ==> '/' !in pieces[k]
    ensures forall k :: 0 <= k < |r| ==> r[k].ParentDir? || (r[k].Normal? && ProperName(r[k].name))
    ensures Proper(r)
  {
    if pieces == [] then []
    else
      var x := pieces[0];
      (if x == "" || x == "." then [] else if x == ".." then [ParentDir] else [Normal(x)]) + Named(pieces[1..])
  }

  /** `Path::new(pattern).components()`: a leading `/` is the root, a
      leading `.` of a relative path is kept as the current directory, and
      everything else is read by `Named`. */
  function Components(pattern: string): (r: seq<Component>)
    ensures Proper(r)
  {
    var pieces := Pieces(pattern);
    if pattern != [] && pattern[0] == '/' then
      ProperAfter(RootDir, Named(pieces[1..]));
      [RootDir] + Named(pieces[1..])
    else if pieces[0] == "." then
      ProperAfter(CurDir, Named(pieces[1..]));
      [CurDir] + Named(pieces[1..])
    else Named(pieces)
  }

  lemma ProperAfter(c: Component, cs: seq<Component>)
    requires !c.Normal? && Proper(cs)
    ensures Proper([c] + cs)
  {
    forall k | 0 <= k < |[c] + cs| && ([c] + cs)[k].Normal?
      ensures ProperName(([c] + cs)[k].name)
    {
      assert ([c] + cs)[k] == cs[k - 1];
    }
  }

  /** Every `Normal` component has a proper name, so it can be handed to
      the matcher. */
  predicate Proper(cs: seq<Component>)
  {
    forall k :: 0 <= k < |cs| ==> cs[k].Normal? ==> ProperName(cs[k].name)
  }

  /** A pattern without separators is one component. */
  lemma SingleComponent(p: string)
    requires ProperName(p)
    ensures Components(p) == [Normal(p)]
  {
    SinglePiece(p);
    assert p[0] != '/' by {
      assert p[0] in p;
    }
    assert [p][1..] == [];
    assert Named([p]) == [Normal(p)] + Named([]);
  }

  lemma {:induction false} SinglePiece(p: string)
    requires '/' !in p
    ensures Pieces(p) == [p]
    decreases |p|
  {
    if p != [] {
      assert '/' !in p[1..] by {
        forall k | 0 <= k < |p[1..]|
          ensures p[1..][k] != '/'
        {
          assert p[1..][k] == p[k + 1];
        }
      }
      SinglePiece(p[1..]);
      assert [p[0]] + p[1..] == p;
    }
  }

  /** Separated by `/`, the pieces of the two sides follow one another. */
  lemma {:induction false} PiecesJoin(a: string, b: string)
    requires '/' !in a
    ensures Pieces(a + "/" + b) == [a] + Pieces(b)
    decreases |a|
  {
    if a == [] {
      assert a + "/" + b == "/" + b;
      assert ("/" + b)[1..] == b;
    } else {
      assert (a + "/" + b)[1..] == a[1..] + "/" + b;
      assert '/' !in a[1..] by {
        forall k | 0 <= k < |a[1..]|
          ensures a[1..][k] != '/'
        {
          assert a[1..][k] == a[k + 1];
        }
      }
      PiecesJoin(a[1..], b);
      assert [a[0]] + a[1..] == a;
    }
  }

  /** `./p` names the same components as `p` with the current directory in
      front, and an absolute pattern starts at the root. */
  lemma DotSlash(p: string)
    ensures Components("./" + p) == [CurDir] + Named(Pieces(p))
    ensures Components("/" + p)[0] == RootDir
  {
    var s := "./" + p;
    assert s == "." + "/" + p;
    PiecesJoin(".", p);
    var pieces := Pieces(s);
    assert pieces[0] == "." && pieces[1..] == Pieces(p);
    assert s[0] == '.';
    assert ("/" + p)[0] == '/';
  }

  // ---------------------------------------------------------------------
  // The file system

  /** An entry of a directory as the iterator yields it: a file, a
      directory (which may refuse to be listed), an entry whose metadata
      cannot be read, or an error of the iterator itself. */
  datatype Node =
    | File(name: string)
    | Dir(name: string, listable: bool, children: seq<Node>)
    | Broken(name: string)
    | EntryError

  /** The first child with the given name. */
  function Child(children: seq<Node>, name: string): (r: Option<Node>)
    ensures r.Some? ==> r.value in children && !r.value.EntryError? && r.value.name == name
  {
    if children == [] then None
    else if !children[0].EntryError? && children[0].name == name then Some(children[0])
    else Child(children[1..], name)
  }

  /** The entry at a path below `node`. */
  function Lookup(node: Node, path: seq<string>): Option<Node>
    decreases |path|
  {
    if path == [] then Some(node)
    else if !node.Dir? then None
    else
      match Child(node.children, path[0])
      case None => None
      case Some(c) => Lookup(c, path[1..])
  }

  /** No two entries of a listing, errors aside, share a name. */
  predicate UniqueNames(children: seq<Node>)
  {
    forall i, j :: 0 <= i < j < |children| && !children[i].EntryError? && !children[j].EntryError? ==>
      children[i].name != children[j].name
  }

  /** A tree as a file system holds it: names are unique within every
      directory, so a path names at most one entry. */
  predicate WellFormed(node: Node)
    decreases node
  {
    node.Dir? ==> UniqueNames(node.children) && forall c :: c in node.children ==> WellFormed(c)
  }

  /** In a listing with unique names, an entry is found by its own name. */
  lemma {:induction false} ChildIn(children: seq<Node>, node: Node)
    requires UniqueNames(children) && node in children && !node.EntryError?
    ensures Child(children, node.name) == Some(node)
    decreases |children|
  {
    var j :| 0 <= j < |children| && children[j] == node;
    if j > 0 {
      var tail := children[1..];
      assert tail[j - 1] == node;
      assert UniqueNames(tail) by {
        forall a, b | 0 <= a < b < |tail| && !tail[a].EntryError? && !tail[b].EntryError?
          ensures tail[a].name != tail[b].name
        {
          assert tail[a] == children[a + 1] && tail[b] == children[b + 1];
        }
      }
      ChildIn(tail, node);
    }
  }

  /** A path one name longer is looked up in the listing of the directory
      the shorter path names. */
  lemma {:induction false} LookupSnoc(node: Node, path: seq<string>, name: string)
    requires Lookup(node, path).Some? && Lookup(node, path).value.Dir?
    ensures Lookup(node, path + [name]) == Child(Lookup(node, path).value.children, name)
    decreases |path|
  {
    if path == [] {
      assert [name][1..] == [];
    } else {
      var c := Child(node.children, path[0]).value;
      assert (path + [name])[0] == path[0] && (path + [name])[1..] == path[1..] + [name];
      LookupSnoc(c, path[1..], name);
    }
  }

  /** Every entry of a well-formed tree is well formed. */
  lemma {:induction false} LookupWellFormed(node: Node, path: seq<string>)
    requires WellFormed(node) && Lookup(node, path).Some?
    ensures WellFormed(Lookup(node, path).value)
    decreases |path|
  {
    if path != [] {
      LookupWellFormed(Child(node.children, path[0]).value, path[1..]);
    }
  }

  /** A found entry: its path and the substrings its wildcards took. */
  datatype Match = Match(path: seq<string>, parts: seq<string>)

  /** The directory handed to `walk`: an absolute path, as the list of its
      names, or a relative one. */
  datatype Location = Absolute(names: seq<string>) | Relative(text: string)

  /** Why a walk stops. The last three are panics of the repository
      (`assert!` on the directory and on the patterns, `unwrap` of the
      parent of the root). */
  datatype WalkError =
    | NotAbsolute(text: string)
    | ListFailed(dir: seq<string>)
    | EntryFailed(dir: seq<string>)
    | MetadataFailed(path: seq<string>)
    | NotADirectory(dir: seq<string>)
    | NoPatterns
    | NoParent

  /** `matches` extended by what a successful step found. */
  function Then(matches: seq<Match>, r: Result<seq<Match>, WalkError>): Result<seq<Match>, WalkError>
  {
    match r
    case Ok(found) => Ok(matches + found)
    case Err(e) => Err(e)
  }

  // ---------------------------------------------------------------------
  // The walk as a function

  /** `walk1(dir, patterns)` with the substrings `parts` found so far: the
      matches below `dir`, in the order they are found. */
  function Walk1Spec(root: Node, dir: seq<string>, patterns: seq<Component>, parts: seq<string>): Result<seq<Match>, WalkError>
    requires Proper(patterns)
    decreases |patterns|, 0, 0
  {
    var node := Lookup(root, dir);
    if !(node.Some? && node.value.Dir?) then Err(NotADirectory(dir))
    else if patterns == [] then Err(NoPatterns)
    else
      match patterns[0]
      case RootDir => Walk1Spec(root, [], patterns[1..], parts)
      case ParentDir =>
        if dir == [] then Err(NoParent) else Walk1Spec(root, dir[..|dir| - 1], patterns[1..], parts)
      case CurDir => Walk1Spec(root, dir, patterns[1..], parts)
      case Normal(pattern) =>
        if !node.value.listable then Err(ListFailed(dir))
        else ScanSpec(root, dir, node.value.children, 0, pattern, patterns[1..], parts)
  }

  /** The loop over the entries of `dir` from the `k`-th on, for the
      component `pattern` followed by `rest`. */
  function ScanSpec(root: Node, dir: seq<string>, children: seq<Node>, k: nat, pattern: string,
                    rest: seq<Component>, parts: seq<string>): Result<seq<Match>, WalkError>
    requires ProperName(pattern) && Proper(rest) && k <= |children|
    decreases |rest|, 2, |children| - k
  {
    if k == |children| then Ok([])
    else
      match EntryStep(root, dir, children[k], pattern, rest, parts)
      case Err(e) => Err(e)
      case Ok(found) => Then(found, ScanSpec(root, dir, children, k + 1, pattern, rest, parts))
  }

  /** One entry of the loop: skipped unless its name matches; a matching
      directory is walked into while components remain and reported at
      the last one; a matching file is reported only at the last one. */
  function EntryStep(root: Node, dir: seq<string>, node: Node, pattern: string,
                     rest: seq<Component>, parts: seq<string>): Result<seq<Match>, WalkError>
    requires ProperName(pattern) && Proper(rest)
    decreases |rest|, 1, 0
  {
    if node.EntryError? then Err(EntryFailed(dir))
    else
      match Fnmatch.Captures(false, pattern, node.name)
      case None => Ok([])
      case Some(m) =>
        var path := dir + [node.name];
        if node.Broken? then Err(MetadataFailed(path))
        else if node.Dir? && rest != [] then Walk1Spec(root, path, rest, parts + m)
        else if rest == [] then Ok([Match(path, parts + m)])
        else Ok([])
  }

  /** `walk`: only an absolute directory is accepted. */
  function WalkSpec(root: Node, dir: Location, pattern: string): Result<seq<Match>, WalkError>
  {
    match dir
    case Relative(text) => Err(NotAbsolute(text))
    case Absolute(names) => Walk1Spec(root, names, Components(pattern), [])
  }

  // ---------------------------------------------------------------------
  // The walk as the repository writes it

  /** `walk1`: `matches` is the vector the matches are pushed onto, the
      result its final contents. */
  method Walk1(root: Node, dir: seq<string>, patterns: seq<Component>, matches: seq<Match>, parts: seq<string>)
    returns (r: Result<seq<Match>, WalkError>)
    requires Proper(patterns)
    ensures r == Then(matches, Walk1Spec(root, dir, patterns, parts))
    decreases |patterns|, 0, 0
  {
    var node := Lookup(root, dir);
    if !(node.Some? && node.value.Dir?) {
      return Err(NotADirectory(dir));
    }
    if patterns == [] {
      return Err(NoPatterns);
    }
    match patterns[0]
    case RootDir =>
      r := Walk1(root, [], patterns[1..], matches, parts);
    case ParentDir =>
      if dir == [] {
        return Err(NoParent);
      }
      r := Walk1(root, dir[..|dir| - 1], patterns[1..], matches, parts);
    case CurDir =>
      r := Walk1(root, dir, patterns[1..], matches, parts);
    case Normal(pattern) =>
      if !node.value.listable {
        return Err(ListFailed(dir));
      }
      r := Scan(root, dir, node.value.children, pattern, patterns[1..], matches, parts);
  }

  /** The loop of the `Normal` branch of `walk1` over the directory's
      entries. */
  method Scan(root: Node, dir: seq<string>, children: seq<Node>, pattern: string,
              rest: seq<Component>, matches: seq<Match>, parts: seq<string>)
    returns (r: Result<seq<Match>, WalkError>)
    requires ProperName(pattern) && Proper(rest)
    ensures r == Then(matches, ScanSpec(root, dir, children, 0, pattern, rest, parts))
    decreases |rest|, 2, 0
  {
    var acc := matches;
    for k := 0 to |children|
      invariant Then(matches, ScanSpec(root, dir, children, 0, pattern, rest, parts)) ==
        Then(acc, ScanSpec(root, dir, children, k, pattern, rest, parts))
    {
      var node := children[k];
      var later := ScanSpec(root, dir, children, k + 1, pattern, rest, parts);
      ThenStep(acc, EntryStep(root, dir, node, pattern, rest, parts), later);
      if node.EntryError? {
        return Err(EntryFailed(dir));
      }
      var m := Fnmatch.Fnmatch(false, pattern, node.name);
      if m.None? {
        assert acc + [] == acc;
      } else {
        var path := dir + [node.name];
        if node.Broken? {
          return Err(MetadataFailed(path));
        }
        var extended := parts + m.value;
        if node.Dir? && 0 < |rest| {
          var step := Walk1(root, path, rest, acc, extended);
          if step.Err? {
            return step;
          }
          acc := step.value;
        } else if |rest| == 0 {
          acc := acc + [Match(path, extended)];
        } else {
          assert acc + [] == acc;
        }
      }
    }
    r := Ok(acc);
    assert acc + [] == acc;
  }

  /** Splitting one step off the accumulated result. */
  lemma ThenStep(acc: seq<Match>, step: Result<seq<Match>, WalkError>, later: Result<seq<Match>, WalkError>)
    ensures step.Ok? ==> Then(acc, Then(step.value, later)) == Then(acc + step.value, later)
  {
    if step.Ok? && later.Ok? {
      assert acc + (step.value + later.value) == (acc + step.value) + later.value;
    }
  }

  /** `walk`. */
  method Walk(root: Node, dir: Location, pattern: string) returns (r: Result<seq<Match>, WalkError>)
    ensures r == WalkSpec(root, dir, pattern)
  {
    if dir.Relative? {
      return Err(NotAbsolute(dir.text));
    }
    var patterns := Components(pattern);
    r := Walk1(root, dir.names, patterns, [], []);
    assert Then([], Walk1Spec(root, dir.names, patterns, [])) == Walk1Spec(root, dir.names, patterns, []) by {
      var s := Walk1Spec(root, dir.names, patterns, []);
      if s.Ok? {
        assert [] + s.value == s.value;
      }
    }
  }

  // ---------------------------------------------------------------------
  // Properties

  /** Whether `path` names a directory. */
  predicate IsDir(root: Node, path: seq<string>)
  {
    Lookup(root, path).Some? && Lookup(root, path).value.Dir?
  }

  predicate AllNormal(patterns: seq<Component>)
  {
    forall k :: 0 <= k < |patterns| ==> patterns[k].Normal?
  }

  /** Matching `names` against the components one by one: the substrings
      taken, in order, if every name matches its component. */
  function MatchNames(patterns: seq<Component>, names: seq<string>): Option<seq<string>>
    requires |patterns| == |names| && AllNormal(patterns) && Proper(patterns)
  {
    if patterns == [] then Some([])
    else
      match Fnmatch.Captures(false, patterns[0].name, names[0])
      case None => None
      case Some(m) =>
        match MatchNames(patterns[1..], names[1..])
        case None => None
        case Some(more) => Some(m + more)
  }

  /** Whether `path` names a file or a directory. */
  predicate Present(root: Node, path: seq<string>)
  {
    Lookup(root, path).Some? && (Lookup(root, path).value.File? || Lookup(root, path).value.Dir?)
  }

  /** `m` is what a walk from `dir` with the substrings `parts` may report:
      one name below `dir` per component, each matching it, every prefix
      before the last name a directory, the whole path a file or a
      directory, and the substrings extended by the captures of the names
      in order. */
  ghost predicate Found(root: Node, dir: seq<string>, patterns: seq<Component>, parts: seq<string>, m: Match)
    requires AllNormal(patterns) && Proper(patterns)
  {
    |m.path| == |dir| + |patterns| && m.path[..|dir|] == dir &&
    (forall j :: |dir| <= j < |dir| + |patterns| ==> IsDir(root, m.path[..j])) &&
    Present(root, m.path) &&
    |parts| <= |m.parts| && m.parts[..|parts|] == parts &&
    MatchNames(patterns, m.path[|dir|..]) == Some(m.parts[|parts|..])
  }

  /** A match one level down is a match here, with the entry's name and
      captures in front. */
  lemma FoundLift(root: Node, dir: seq<string>, name: string, pattern: string, caps: seq<string>,
                  rest: seq<Component>, parts: seq<string>, m: Match)
    requires ProperName(pattern) && AllNormal(rest) && Proper(rest)
    requires IsDir(root, dir) && Fnmatch.Captures(false, pattern, name) == Some(caps)
    requires Found(root, dir + [name], rest, parts + caps, m)
    ensures AllNormal([Normal(pattern)] + rest) && Proper([Normal(pattern)] + rest)
    ensures Found(root, dir, [Normal(pattern)] + rest, parts, m)
  {
    var path := dir + [name];
    var patterns := [Normal(pattern)] + rest;
    assert patterns[1..] == rest;
    assert m.path[..|dir|] == m.path[..|path|][..|dir|] == path[..|dir|] == dir;
    forall j | |dir| <= j < |dir| + |patterns|
      ensures IsDir(root, m.path[..j])
    {
      if j == |dir| {
        assert m.path[..j] == dir;
      }
    }
    assert m.path[|dir|..][0] == m.path[..|path|][|dir|] == name;
    assert m.path[|dir|..][1..] == m.path[|path|..];
    var more := m.parts[|parts| + |caps|..];
    assert m.parts[..|parts|] == m.parts[..|parts| + |caps|][..|parts|] == parts;
    assert m.parts[|parts|..] == m.parts[|parts|..|parts| + |caps|] + more;
    assert m.parts[|parts|..|parts| + |caps|] == m.parts[..|parts| + |caps|][|parts|..] == caps;
  }

  /** In a well-formed tree the path of an entry of a directory's listing
      names that entry. */
  lemma EntryPath(root: Node, dir: seq<string>, node: Node)
    requires WellFormed(root) && IsDir(root, dir)
    requires node in Lookup(root, dir).value.children && !node.EntryError?
    ensures Lookup(root, dir + [node.name]) == Some(node)
  {
    LookupWellFormed(root, dir);
    ChildIn(Lookup(root, dir).value.children, node);
    LookupSnoc(root, dir, node.name);
  }

  /** A match at the last component: an entry of the directory's listing
      that is a file or a directory. */
  lemma FoundLeaf(root: Node, dir: seq<string>, node: Node, pattern: string, caps: seq<string>, parts: seq<string>)
    requires ProperName(pattern) && WellFormed(root) && IsDir(root, dir)
    requires node in Lookup(root, dir).value.children && (node.File? || node.Dir?)
    requires Fnmatch.Captures(false, pattern, node.name) == Some(caps)
    ensures AllNormal([Normal(pattern)]) && Proper([Normal(pattern)])
    ensures Found(root, dir, [Normal(pattern)], parts, Match(dir + [node.name], parts + caps))
  {
    EntryPath(root, dir, node);
    var m := Match(dir + [node.name], parts + caps);
    assert m.path[..|dir|] == dir;
    forall j | |dir| <= j < |dir| + 1
      ensures IsDir(root, m.path[..j])
    {
      assert j == |dir|;
    }
    assert m.path[|dir|..] == [node.name];
    assert m.parts[..|parts|] == parts && m.parts[|parts|..] == caps;
    assert MatchNames([Normal(pattern)], [node.name]) == Some(caps) by {
      assert [Normal(pattern)][1..] == [] && [node.name][1..] == [];
      assert caps + [] == caps;
    }
  }

  /** What a walk with plain name components reports is sound: every
      match lies one level below the start per component, each level's
      name matches its component, each level above the last is a
      directory, the match itself is a file or a directory, and the
      substrings are the captures in order. */
  lemma {:induction false} Walk1Sound(root: Node, dir: seq<string>, patterns: seq<Component>, parts: seq<string>)
    requires WellFormed(root) && AllNormal(patterns) && Proper(patterns)
    ensures Walk1Spec(root, dir, patterns, parts).Ok? ==>
      forall m :: m in Walk1Spec(root, dir, patterns, parts).value ==> Found(root, dir, patterns, parts, m)
    decreases |patterns|, 0, 0
  {
    if Walk1Spec(root, dir, patterns, parts).Ok? {
      var node := Lookup(root, dir).value;
      assert patterns == [Normal(patterns[0].name)] + patterns[1..];
      ScanSound(root, dir, node.children, 0, patterns[0].name, patterns[1..], parts);
    }
  }

  lemma {:induction false} ScanSound(root: Node, dir: seq<string>, children: seq<Node>, k: nat, pattern: string,
                                     rest: seq<Component>, parts: seq<string>)
    requires ProperName(pattern) && AllNormal(rest) && Proper(rest) && k <= |children|
    requires WellFormed(root) && IsDir(root, dir) && children == Lookup(root, dir).value.children
    ensures AllNormal([Normal(pattern)] + rest) && Proper([Normal(pattern)] + rest)
    ensures ScanSpec(root, dir, children, k, pattern, rest, parts).Ok? ==>
      forall m :: m in ScanSpec(root, dir, children, k, pattern, rest, parts).value ==>
        Found(root, dir, [Normal(pattern)] + rest, parts, m)
    decreases |rest|, 2, |children| - k
  {
    ProperAfterNormal(pattern, rest);
    if k < |children| && ScanSpec(root, dir, children, k, pattern, rest, parts).Ok? {
      EntrySound(root, dir, children[k], pattern, rest, parts);
      ScanSound(root, dir, children, k + 1, pattern, rest, parts);
    }
  }

  lemma {:induction false} EntrySound(root: Node, dir: seq<string>, node: Node, pattern: string,
                                      rest: seq<Component>, parts: seq<string>)
    requires ProperName(pattern) && AllNormal(rest) && Proper(rest)
    requires WellFormed(root) && IsDir(root, dir) && node in Lookup(root, dir).value.children
    ensures AllNormal([Normal(pattern)] + rest) && Proper([Normal(pattern)] + rest)
    ensures EntryStep(root, dir, node, pattern, rest, parts).Ok? ==>
      forall m :: m in EntryStep(root, dir, node, pattern, rest, parts).value ==>
        Found(root, dir, [Normal(pattern)] + rest, parts, m)
    decreases |rest|, 1, 0
  {
    ProperAfterNormal(pattern, rest);
    if !node.EntryError? && !node.Broken? && EntryStep(root, dir, node, pattern, rest, parts).Ok? {
      match Fnmatch.Captures(false, pattern, node.name)
      case None =>
      case Some(caps) =>
        var path := dir + [node.name];
        if node.Dir? && rest != [] {
          Walk1Sound(root, path, rest, parts + caps);
          forall m | m in EntryStep(root, dir, node, pattern, rest, parts).value
            ensures Found(root, dir, [Normal(pattern)] + rest, parts, m)
          {
            FoundLift(root, dir, node.name, pattern, caps, rest, parts, m);
          }
        } else if rest == [] {
          FoundLeaf(root, dir, node, pattern, caps, parts);
          assert [Normal(pattern)] + rest == [Normal(pattern)];
        }
    }
  }

  lemma ProperAfterNormal(pattern: string, rest: seq<Component>)
    requires ProperName(pattern) && AllNormal(rest) && Proper(rest)
    ensures AllNormal([Normal(pattern)] + rest) && Proper([Normal(pattern)] + rest)
  {
    assert forall k :: 0 < k < |[Normal(pattern)] + rest| ==> ([Normal(pattern)] + rest)[k] == rest[k - 1];
  }

  /** A scan that succeeds holds what the step of every entry from the
      `k`-th on finds, and each of those steps succeeded. */
  lemma {:induction false} ScanContains(root: Node, dir: seq<string>, children: seq<Node>, k: nat, pattern: string,
                                        rest: seq<Component>, parts: seq<string>, i: nat)
    requires ProperName(pattern) && Proper(rest) && k <= i < |children|
    ensures ScanSpec(root, dir, children, k, pattern, rest, parts).Ok? ==>
      EntryStep(root, dir, children[i], pattern, rest, parts).Ok? &&
      forall m :: m in EntryStep(root, dir, children[i], pattern, rest, parts).value ==>
        m in ScanSpec(root, dir, children, k, pattern, rest, parts).value
    decreases i - k
  {
    if k < i && ScanSpec(root, dir, children, k, pattern, rest, parts).Ok? {
      ScanContains(root, dir, children, k + 1, pattern, rest, parts, i);
    }
  }

  /** At the last component every matching entry that is a file or a
      directory is reported, with its captures. */
  lemma LeafComplete(root: Node, dir: seq<string>, children: seq<Node>, k: nat, pattern: string,
                     parts: seq<string>, i: nat)
    requires ProperName(pattern) && k <= i < |children|
    requires children[i].File? || children[i].Dir?
    requires Fnmatch.Captures(false, pattern, children[i].name).Some?
    ensures ScanSpec(root, dir, children, k, pattern, [], parts).Ok? ==>
      Match(dir + [children[i].name], parts + Fnmatch.Captures(false, pattern, children[i].name).value)
        in ScanSpec(root, dir, children, k, pattern, [], parts).value
  {
    ScanContains(root, dir, children, k, pattern, [], parts, i);
  }

  /** The walk is complete: a file or directory below `dir` whose names
      match the components one by one, through directories, is reported,
      with the captures in order after `parts`. */
  lemma {:induction false} Walk1Complete(root: Node, dir: seq<string>, patterns: seq<Component>, parts: seq<string>,
                                         names: seq<string>, caps: seq<string>)
    requires AllNormal(patterns) && Proper(patterns) && |names| == |patterns|
    requires forall j :: 0 <= j < |names| ==> IsDir(root, dir + names[..j])
    requires Present(root, dir + names)
    requires MatchNames(patterns, names) == Some(caps)
    ensures Walk1Spec(root, dir, patterns, parts).Ok? ==>
      Match(dir + names, parts + caps) in Walk1Spec(root, dir, patterns, parts).value
    decreases |patterns|
  {
    if Walk1Spec(root, dir, patterns, parts).Ok? {
      var node := Lookup(root, dir).value;
      var name, pattern, rest := names[0], patterns[0].name, patterns[1..];
      var m0 := Fnmatch.Captures(false, pattern, name).value;
      var more := MatchNames(rest, names[1..]).value;
      assert caps == m0 + more;
      var i := FirstName(root, dir, names);
      assert node.children[i].name == name;
      ScanContains(root, dir, node.children, 0, pattern, rest, parts, i);
      if rest == [] {
        assert names == [name] && more == [] && caps == m0;
      } else {
        Walk1Complete(root, dir + [name], rest, parts + m0, names[1..], more);
        assert (dir + [name]) + names[1..] == dir + names;
        assert parts + m0 + more == parts + caps;
      }
    }
  }

  /** The first name of a path through directories to a file or a
      directory is an entry of the starting directory's listing, and the
      rest of the path goes on from that entry. */
  lemma FirstName(root: Node, dir: seq<string>, names: seq<string>) returns (i: nat)
    requires |names| > 0
    requires forall j :: 0 <= j < |names| ==> IsDir(root, dir + names[..j])
    requires Present(root, dir + names)
    ensures IsDir(root, dir)
    ensures var children := Lookup(root, dir).value.children;
      i < |children| && Child(children, names[0]) == Some(children[i]) &&
      (|names| > 1 ==> children[i].Dir?) && (|names| == 1 ==> children[i].File? || children[i].Dir?)
    ensures forall j :: 0 <= j < |names| - 1 ==> IsDir(root, (dir + [names[0]]) + names[1..][..j])
    ensures Present(root, (dir + [names[0]]) + names[1..])
  {
    assert dir + names[..0] == dir;
    var name := names[0];
    LookupSnoc(root, dir, name);
    if |names| == 1 {
      assert dir + names == dir + [name];
    } else {
      assert names[..1] == [name];
      assert IsDir(root, dir + names[..1]);
    }
    var children := Lookup(root, dir).value.children;
    i :| 0 <= i < |children| && children[i] == Child(children, name).value;
    forall j | 0 <= j < |names| - 1
      ensures IsDir(root, (dir + [name]) + names[1..][..j])
    {
      assert (dir + [name]) + names[1..][..j] == dir + names[..j + 1];
    }
    assert (dir + [name]) + names[1..] == dir + names;
  }

  /** No two matches share a path. */
  predicate DistinctPaths(ms: seq<Match>)
  {
    forall i, j :: 0 <= i < j < |ms| ==> ms[i].path != ms[j].path
  }

  /** Matches with distinct paths that all share one path are at most one. */
  lemma OnePath(ms: seq<Match>, path: seq<string>)
    requires DistinctPaths(ms)
    ensures (forall m :: m in ms ==> m.path == path) ==> |ms| <= 1
  {
    if |ms| >= 2 {
      assert ms[0] in ms && ms[1] in ms;
    }
  }

  /** In a well-formed tree a walk with plain name components reports
      every path at most once. */
  lemma {:induction false} Walk1Distinct(root: Node, dir: seq<string>, patterns: seq<Component>, parts: seq<string>)
    requires WellFormed(root) && AllNormal(patterns) && Proper(patterns)
    ensures Walk1Spec(root, dir, patterns, parts).Ok? ==> DistinctPaths(Walk1Spec(root, dir, patterns, parts).value)
    decreases |patterns|, 0, 0
  {
    if Walk1Spec(root, dir, patterns, parts).Ok? {
      var node := Lookup(root, dir).value;
      ScanDistinct(root, dir, node.children, 0, patterns[0].name, patterns[1..], parts);
    }
  }

  lemma {:induction false} ScanDistinct(root: Node, dir: seq<string>, children: seq<Node>, k: nat, pattern: string,
                                        rest: seq<Component>, parts: seq<string>)
    requires ProperName(pattern) && AllNormal(rest) && Proper(rest) && k <= |children|
    requires WellFormed(root) && IsDir(root, dir) && children == Lookup(root, dir).value.children
    ensures ScanSpec(root, dir, children, k, pattern, rest, parts).Ok? ==>
      var ms := ScanSpec(root, dir, children, k, pattern, rest, parts).value;
      DistinctPaths(ms) &&
      forall p :: 0 <= p < |ms| ==>
        |dir| < |ms[p].path| &&
        forall i :: 0 <= i < k && !children[i].EntryError? ==> ms[p].path[|dir|] != children[i].name
    decreases |rest|, 2, |children| - k
  {
    if k < |children| && ScanSpec(root, dir, children, k, pattern, rest, parts).Ok? {
      var found := EntryStep(root, dir, children[k], pattern, rest, parts).value;
      var later := ScanSpec(root, dir, children, k + 1, pattern, rest, parts).value;
      EntryDistinct(root, dir, children[k], pattern, rest, parts);
      ScanDistinct(root, dir, children, k + 1, pattern, rest, parts);
      JoinDistinct(found, later, |dir|, children[k].name);
      LookupWellFormed(root, dir);
      assert forall i :: 0 <= i < k && !children[i].EntryError? ==> children[i].name != children[k].name;
      var ms := found + later;
      forall p | 0 <= p < |ms|
        ensures |dir| < |ms[p].path| &&
          forall i :: 0 <= i < k && !children[i].EntryError? ==> ms[p].path[|dir|] != children[i].name
      {
        if p >= |found| {
          assert ms[p] == later[p - |found|];
        }
      }
    }
  }

  /** The matches below one entry followed by matches below other entries
      have distinct paths when each part has. */
  lemma JoinDistinct(found: seq<Match>, later: seq<Match>, at: nat, name: string)
    requires DistinctPaths(found) && DistinctPaths(later)
    requires forall p :: 0 <= p < |found| ==> at < |found[p].path| && found[p].path[at] == name
    requires forall p :: 0 <= p < |later| ==> at < |later[p].path| && later[p].path[at] != name
    ensures DistinctPaths(found + later)
  {
    var ms := found + later;
    forall p, q | 0 <= p < q < |ms|
      ensures ms[p].path != ms[q].path
    {
      if q < |found| {
        assert ms[p] == found[p] && ms[q] == found[q];
      } else if p < |found| {
        assert ms[p] == found[p] && ms[q] == later[q - |found|];
      } else {
        assert ms[p] == later[p - |found|] && ms[q] == later[q - |found|];
      }
    }
  }

  lemma {:induction false} EntryDistinct(root: Node, dir: seq<string>, node: Node, pattern: string,
                                         rest: seq<Component>, parts: seq<string>)
    requires ProperName(pattern) && AllNormal(rest) && Proper(rest) && WellFormed(root)
    ensures EntryStep(root, dir, node, pattern, rest, parts).Ok? ==>
      var ms := EntryStep(root, dir, node, pattern, rest, parts).value;
      DistinctPaths(ms) &&
      forall p :: 0 <= p < |ms| ==> |dir| < |ms[p].path| && !node.EntryError? && ms[p].path[|dir|] == node.name
    decreases |rest|, 1, 0
  {
    if !node.EntryError? && EntryStep(root, dir, node, pattern, rest, parts).Ok? {
      match Fnmatch.Captures(false, pattern, node.name)
      case None =>
      case Some(caps) =>
        var path := dir + [node.name];
        if node.Dir? && rest != [] {
          Walk1Distinct(root, path, rest, parts + caps);
          Walk1Sound(root, path, rest, parts + caps);
          var ms := Walk1Spec(root, path, rest, parts + caps).value;
          forall p | 0 <= p < |ms|
            ensures |dir| < |ms[p].path| && ms[p].path[|dir|] == node.name
          {
            assert ms[p] in ms;
            assert ms[p].path[..|path|] == path;
            assert ms[p].path[|dir|] == ms[p].path[..|path|][|dir|];
          }
        }
    }
  }

  /** So each such file or directory is reported exactly once. */
  lemma Walk1Once(root: Node, dir: seq<string>, patterns: seq<Component>, parts: seq<string>,
                  names: seq<string>, caps: seq<string>)
    requires WellFormed(root) && AllNormal(patterns) && Proper(patterns) && |names| == |patterns|
    requires forall j :: 0 <= j < |names| ==> IsDir(root, dir + names[..j])
    requires Present(root, dir + names)
    requires MatchNames(patterns, names) == Some(caps)
    ensures Walk1Spec(root, dir, patterns, parts).Ok? ==>
      var ms := Walk1Spec(root, dir, patterns, parts).value;
      var m := Match(dir + names, parts + caps);
      m in ms && forall i, j :: 0 <= i < |ms| && 0 <= j < |ms| && ms[i] == m && ms[j] == m ==> i == j
  {
    Walk1Complete(root, dir, patterns, parts, names, caps);
    Walk1Distinct(root, dir, patterns, parts);
  }

  // ---------------------------------------------------------------------
  // Literal patterns

  /** Components without wildcards. */
  predicate Literal(patterns: seq<Component>)
  {
    AllNormal(patterns) &&
    forall k, q :: 0 <= k < |patterns| && 0 <= q < |patterns[k].name| ==> !Fnmatch.IsWildcard(patterns[k].name[q])
  }

  /** The names of plain name components. */
  function Spelled(patterns: seq<Component>): (r: seq<string>)
    requires AllNormal(patterns)
    ensures |r| == |patterns| && forall k :: 0 <= k < |r| ==> r[k] == patterns[k].name
  {
    if patterns == [] then [] else [patterns[0].name] + Spelled(patterns[1..])
  }

  /** Literal components match exactly their own names and capture
      nothing. */
  lemma {:induction false} MatchNamesLiteral(patterns: seq<Component>, names: seq<string>)
    requires |patterns| == |names| && Literal(patterns) && Proper(patterns)
    ensures MatchNames(patterns, names) == if names == Spelled(patterns) then Some([]) else None
  {
    if patterns != [] {
      var p := patterns[0].name;
      assert ProperName(p);
      Fnmatch.LiteralPattern(false, p, names[0]);
      MatchNamesLiteral(patterns[1..], names[1..]);
      assert Spelled(patterns) == [p] + Spelled(patterns[1..]);
      if names[0] == p {
        assert names == [names[0]] + names[1..];
        var none: seq<string> := [];
        assert none + none == none;
      } else {
        assert names[0] != Spelled(patterns)[0];
      }
    }
  }

  /** A walk with literal components reports at most the one path the
      components spell, with no substrings added, and reports it when it
      exists. */
  lemma LiteralWalk(root: Node, dir: seq<string>, patterns: seq<Component>)
    requires WellFormed(root) && Literal(patterns) && Proper(patterns)
    ensures Walk1Spec(root, dir, patterns, []).Ok? ==>
      var ms := Walk1Spec(root, dir, patterns, []).value;
      |ms| <= 1 && forall m :: m in ms ==> m == Match(dir + Spelled(patterns), [])
    ensures (Walk1Spec(root, dir, patterns, []).Ok? &&
             (forall j :: 0 <= j < |patterns| ==> IsDir(root, dir + Spelled(patterns)[..j])) &&
             Present(root, dir + Spelled(patterns))) ==>
      Walk1Spec(root, dir, patterns, []).value == [Match(dir + Spelled(patterns), [])]
  {
    if Walk1Spec(root, dir, patterns, []).Ok? {
      var ms := Walk1Spec(root, dir, patterns, []).value;
      Walk1Sound(root, dir, patterns, []);
      Walk1Distinct(root, dir, patterns, []);
      forall m | m in ms
        ensures m == Match(dir + Spelled(patterns), [])
      {
        MatchNamesLiteral(patterns, m.path[|dir|..]);
        assert m.path == m.path[..|dir|] + m.path[|dir|..];
      }
      OnePath(ms, dir + Spelled(patterns));
      var names := Spelled(patterns);
      MatchNamesLiteral(patterns, names);
      if (forall j :: 0 <= j < |patterns| ==> IsDir(root, dir + names[..j])) && Present(root, dir + names) {
        Walk1Complete(root, dir, patterns, [], names, []);
        var none: seq<string> := [];
        assert none + none == none;
      }
    }
  }

  // With a `..` component the distinctness above fails: the pattern
  // `a*/../b` over the directories `ab` and `ac` and the file `b` reaches
  // `/b` once through each directory, with the parts `b` and `c`, whatever
  // the two directories hold. The tree is well formed whenever they are
  // (TwoWaysWellFormed), so only the plain-name requirement of
  // Walk1Distinct is broken.
  lemma ParentDirRepeats(ab: seq<Node>, ac: seq<Node>)
    ensures WalkSpec(TwoWays(ab, ac), Absolute([]), "a*/../b") == Ok([Match(["b"], ["b"]), Match(["b"], ["c"])])
    ensures !DistinctPaths(WalkSpec(TwoWays(ab, ac), Absolute([]), "a*/../b").value)
  {
    ParentDirComponents();
    ParentDirWalk(ab, ac);
    var ms := WalkSpec(TwoWays(ab, ac), Absolute([]), "a*/../b").value;
    assert ms[0].path == ms[1].path;
  }

  /** The tree of the example is well formed when its two directories are. */
  lemma TwoWaysWellFormed(ab: seq<Node>, ac: seq<Node>)
    ensures WellFormed(Dir("ab", true, ab)) && WellFormed(Dir("ac", true, ac)) <==> WellFormed(TwoWays(ab, ac))
  {
    var children := TwoWays(ab, ac).children;
    assert children[0].name[1] != children[1].name[1];
    assert children[0].name != children[2].name && children[1].name != children[2].name;
    assert UniqueNames(children);
  }

  /** The same walk, given its components. */
  lemma ParentDirWalk(ab: seq<Node>, ac: seq<Node>)
    ensures Walk1Spec(TwoWays(ab, ac), [], [Normal("a*"), ParentDir, Normal("b")], []) ==
      Ok([Match(["b"], ["b"]), Match(["b"], ["c"])])
  {
    ScanFromAb(ab, ac, []);
    NormalFirst(TwoWays(ab, ac), [], "a*", [ParentDir, Normal("b")], []);
    assert [Normal("a*")] + [ParentDir, Normal("b")] == [Normal("a*"), ParentDir, Normal("b")];
    var none: seq<string> := [];
    assert none + ["b"] == ["b"] && none + ["c"] == ["c"];
  }

  /** At a listable directory, a name component starts the loop over its
      entries. */
  lemma NormalFirst(root: Node, dir: seq<string>, pattern: string, rest: seq<Component>, parts: seq<string>)
    requires ProperName(pattern) && Proper(rest)
    requires Lookup(root, dir).Some? && Lookup(root, dir).value.Dir? && Lookup(root, dir).value.listable
    ensures Proper([Normal(pattern)] + rest)
    ensures Walk1Spec(root, dir, [Normal(pattern)] + rest, parts) ==
      ScanSpec(root, dir, Lookup(root, dir).value.children, 0, pattern, rest, parts)
  {
    var ps := [Normal(pattern)] + rest;
    forall k | 0 <= k < |ps| && ps[k].Normal?
      ensures ProperName(ps[k].name)
    {
      if k > 0 {
        assert ps[k] == rest[k - 1];
      }
    }
    assert ps[0] == Normal(pattern) && ps[1..] == rest;
  }

  /** The whole loop over the root: `/b` through `ab`, then through `ac`. */
  lemma ScanFromAb(ab: seq<Node>, ac: seq<Node>, parts: seq<string>)
    ensures ScanSpec(TwoWays(ab, ac), [], TwoWays(ab, ac).children, 0, "a*", [ParentDir, Normal("b")], parts) ==
      Ok([Match(["b"], parts + ["b"]), Match(["b"], parts + ["c"])])
  {
    var rest := [ParentDir, Normal("b")];
    var children := TwoWays(ab, ac).children;
    var viaB, viaC := [Match(["b"], parts + ["b"])], [Match(["b"], parts + ["c"])];
    ScanAfterAb(ab, ac, parts);
    assert EntryStep(TwoWays(ab, ac), [], children[0], "a*", rest, parts) == Ok(viaB) by {
      assert children[0] == Dir(['a', 'b'], true, ab);
      BackDown(ab, ac, 'b', ab, parts);
    }
    assert ScanSpec(TwoWays(ab, ac), [], children, 0, "a*", rest, parts) == Then(viaB, Ok(viaC));
    assert viaB + viaC == [Match(["b"], parts + ["b"]), Match(["b"], parts + ["c"])];
  }

  /** After `ab`, the loop finds `/b` once more through `ac`, and not at `b`. */
  lemma ScanAfterAb(ab: seq<Node>, ac: seq<Node>, parts: seq<string>)
    ensures ScanSpec(TwoWays(ab, ac), [], TwoWays(ab, ac).children, 1, "a*", [ParentDir, Normal("b")], parts) ==
      Ok([Match(["b"], parts + ["c"])])
  {
    var rest := [ParentDir, Normal("b")];
    var children := TwoWays(ab, ac).children;
    var viaC := [Match(["b"], parts + ["c"])];
    assert EntryStep(TwoWays(ab, ac), [], children[2], "a*", rest, parts) == Ok([]) by {
      NotStarAfterA();
    }
    var none: seq<Match> := [];
    assert ScanSpec(TwoWays(ab, ac), [], children, 3, "a*", rest, parts) == Ok(none);
    assert none + none == none;
    assert ScanSpec(TwoWays(ab, ac), [], children, 2, "a*", rest, parts) == Ok(none);
    assert EntryStep(TwoWays(ab, ac), [], children[1], "a*", rest, parts) == Ok(viaC) by {
      assert children[1] == Dir(['a', 'c'], true, ac);
      BackDown(ab, ac, 'c', ac, parts);
    }
    assert viaC + none == viaC;
  }

  /** `a*` does not match `b`. */
  lemma NotStarAfterA()
    ensures Fnmatch.Captures(false, "a*", "b") == None
  {
    assert !Fnmatch.MatchChars(false, 'a', 'b');
  }

  /** The root of the example above: directories `ab` and `ac` holding
      `ab` and `ac`, and the file `b`. */
  function TwoWays(ab: seq<Node>, ac: seq<Node>): Node
  {
    Dir("", true, [Dir("ab", true, ab), Dir("ac", true, ac), File("b")])
  }

  /** Entering `a<c>` and going back up finds `/b` with the part `c`. */
  lemma BackDown(ab: seq<Node>, ac: seq<Node>, c: char, sub: seq<Node>, parts: seq<string>)
    requires (c == 'b' && sub == ab) || (c == 'c' && sub == ac)
    ensures EntryStep(TwoWays(ab, ac), [], Dir(['a', c], true, sub), "a*", [ParentDir, Normal("b")], parts) ==
      Ok([Match(["b"], parts + [[c]])])
  {
    StarAfterA(c);
    UpFrom(ab, ac, c, sub, parts + [[c]]);
    var none: seq<string> := [];
    assert none + [['a', c]] == [['a', c]];
  }

  /** Going up from `a<c>` and down the component `b` finds the file `b`. */
  lemma UpFrom(ab: seq<Node>, ac: seq<Node>, c: char, sub: seq<Node>, parts: seq<string>)
    requires (c == 'b' && sub == ab) || (c == 'c' && sub == ac)
    ensures Walk1Spec(TwoWays(ab, ac), [['a', c]], [ParentDir, Normal("b")], parts) == Ok([Match(["b"], parts)])
  {
    var name := ['a', c];
    var children := TwoWays(ab, ac).children;
    assert name[1] == c;
    if c == 'b' {
      assert children[0].name == name;
    } else {
      assert children[0].name[1] != name[1];
      assert Child(children[1..], name) == Some(children[1]);
    }
    assert Child(children, name) == Some(Dir(name, true, sub));
    assert Lookup(TwoWays(ab, ac), [name]) == Some(Dir(name, true, sub));
    FileB(ab, ac, parts);
    assert [name][..0] == [];
  }

  /** From the root, the component `b` finds the file `b` alone. */
  lemma FileB(ab: seq<Node>, ac: seq<Node>, parts: seq<string>)
    ensures Walk1Spec(TwoWays(ab, ac), [], [Normal("b")], parts) == Ok([Match(["b"], parts)])
  {
    var children := TwoWays(ab, ac).children;
    OnlyB("b");
    OnlyB("ab");
    OnlyB("ac");
    var none: seq<string> := [];
    var found := [Match(["b"], parts)];
    assert children[2] == File("b") && none + ["b"] == ["b"] && parts + none == parts;
    assert EntryStep(TwoWays(ab, ac), [], children[2], "b", [], parts) == Ok(found);
    assert ScanSpec(TwoWays(ab, ac), [], children, 3, "b", [], parts) == Ok([]);
    assert found + [] == found;
    assert ScanSpec(TwoWays(ab, ac), [], children, 2, "b", [], parts) == Ok(found);
    assert EntryStep(TwoWays(ab, ac), [], children[1], "b", [], parts) == Ok([]);
    assert [] + found == found;
    assert ScanSpec(TwoWays(ab, ac), [], children, 1, "b", [], parts) == Ok(found);
    assert EntryStep(TwoWays(ab, ac), [], children[0], "b", [], parts) == Ok([]);
    assert ScanSpec(TwoWays(ab, ac), [], children, 0, "b", [], parts) == Ok(found);
    NormalFirst(TwoWays(ab, ac), [], "b", [], parts);
    assert [Normal("b")] + [] == [Normal("b")];
  }

  /** The literal component `b` matches only the name `b`. */
  lemma OnlyB(n: string)
    ensures Fnmatch.Captures(false, "b", n) == if n == "b" then Some([]) else None
  {
    Fnmatch.LiteralPattern(false, "b", n);
  }

  lemma ParentDirComponents()
    ensures Components("a*/../b") == [Normal("a*"), ParentDir, Normal("b")]
  {
    ParentDirPieces();
    ParentDirNamed();
  }

  lemma ParentDirNamed()
    ensures Named(["a*", "..", "b"]) == [Normal("a*"), ParentDir, Normal("b")]
  {
    assert Named(["b"]) == [Normal("b")];
    assert Named(["..", "b"]) == [ParentDir, Normal("b")];
  }

  lemma ParentDirPieces()
    ensures Pieces("a*/../b") == ["a*", "..", "b"]
  {
    UpPieces();
    PiecesJoin("a*", "../b");
    assert "a*" + "/" + "../b" == "a*/../b";
  }

  lemma UpPieces()
    ensures Pieces("../b") == ["..", "b"]
  {
    SinglePiece("b");
    PiecesJoin("..", "b");
    assert ".." + "/" + "b" == "../b";
  }

  lemma StarAfterA(c: char)
    ensures Fnmatch.Captures(false, "a*", ['a', c]) == Some([[c]])
  {
    var n := ['a', c];
    assert Fnmatch.Next(false, "a*", n, 1, 1) == Some(Fnmatch.Advance(2, 2, [n[1..]]));
    assert n[1..] == [c];
    assert Fnmatch.Go(false, "a*", n, 1, 1) == Some([[c]]);
    assert Fnmatch.MatchChars(false, 'a', 'a');
    assert Fnmatch.Next(false, "a*", n, 0, 0) == Some(Fnmatch.Advance(1, 1, []));
    assert Fnmatch.Step(false, "a*", n, 1, 1, []) == Some([] + [[c]]);
    assert Fnmatch.Go(false, "a*", n, 0, 0) == Fnmatch.Step(false, "a*", n, 1, 1, []);
    assert [] + [[c]] == [[c]];
  }

  /** `./p` walks exactly as `p` does, for a relative `p`. */
  lemma CurDirPrefix(root: Node, dir: seq<string>, p: string)
    requires p == [] || p[0] != '/'
    ensures WalkSpec(root, Absolute(dir), "./" + p) == WalkSpec(root, Absolute(dir), p)
  {
    DotSlash(p);
    var pieces := Pieces(p);
    assert ("./" + p)[0] == '.';
    if pieces[0] == "." {
      assert pieces == [pieces[0]] + pieces[1..];
      assert Named(pieces) == Named(pieces[1..]);
    }
  }

  /** A pattern that starts with `/` is walked from the root, whatever
      directory the walk starts in. */
  lemma AbsolutePattern(root: Node, d1: seq<string>, d2: seq<string>, p: string)
    requires p != [] && p[0] == '/'
    requires IsDir(root, d1) && IsDir(root, d2)
    ensures WalkSpec(root, Absolute(d1), p) == WalkSpec(root, Absolute(d2), p)
  {
  }

  /** A relative starting directory is refused before anything is read. */
  lemma RelativeRefused(root: Node, text: string, p: string)
    ensures WalkSpec(root, Relative(text), p) == Err(NotAbsolute(text))
  {
  }
}
