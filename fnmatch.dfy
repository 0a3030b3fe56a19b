/** The single-segment wildcard matcher of `src/fnmatch.rs`: `?` takes one
    character, `*` a run of characters, and the substring taken by each
    wildcard is returned. The scan is greedy and never backtracks. */
module Fnmatch {
  import opened Types

  predicate IsWildcard(c: char) { c == '?' || c == '*' }

  predicate IsUpper(c: char) { 'A' <= c <= 'Z' }

  /** ASCII upper-case letters folded to lower case, every other character unchanged. */
  function ToLower(c: char): char
  {
    if IsUpper(c) then (c as int + 32) as char else c
  }

  /** `match_chars`: with `fold` (the Windows build) ASCII letters compare
      regardless of case; otherwise characters compare exactly. */
  predicate MatchChars(fold: bool, a: char, b: char)
    ensures MatchChars(fold, a, b) <==>
      a == b || (fold && ((IsUpper(a) && b as int == a as int + 32) || (IsUpper(b) && a as int == b as int + 32)))
  {
    if fold then ToLower(a) == ToLower(b) else a == b
  }

  /** `s` and `t` agree character by character under MatchChars. */
  predicate Similar(fold: bool, s: string, t: string)
  {
    |s| == |t| && forall k :: 0 <= k < |s| ==> MatchChars(fold, s[k], t[k])
  }

  // ---------------------------------------------------------------------
  // strspn / strcspn

  /** Length of the run of `accept` in `s` starting at `i`. */
  function Span(s: seq<char>, i: nat, accept: char): (n: nat)
    requires i <= |s|
    ensures i + n <= |s|
    ensures i + n == |s| || s[i + n] != accept
    decreases |s| - i
  {
    if i == |s| || s[i] != accept then 0 else 1 + Span(s, i + 1, accept)
  }

  /** Every character Span counts is `accept`. */
  lemma {:induction false} SpanRun(s: seq<char>, i: nat, accept: char)
    requires i <= |s|
    ensures forall k :: i <= k < i + Span(s, i, accept) ==> s[k] == accept
    decreases |s| - i
  {
    if i < |s| && s[i] == accept {
      SpanRun(s, i + 1, accept);
    }
  }

  /** Distance from `i` to the first `reject` in `s`, or to the end of `s`. */
  function CSpan(s: seq<char>, i: nat, reject: char): (n: nat)
    requires i <= |s|
    ensures i + n <= |s|
    ensures i + n == |s| || s[i + n] == reject
    decreases |s| - i
  {
    if i == |s| || s[i] == reject then 0 else 1 + CSpan(s, i + 1, reject)
  }

  /** No character CSpan counts is `reject`. */
  lemma {:induction false} CSpanRun(s: seq<char>, i: nat, reject: char)
    requires i <= |s|
    ensures forall k :: i <= k < i + CSpan(s, i, reject) ==> s[k] != reject
    decreases |s| - i
  {
    if i < |s| && s[i] != reject {
      CSpanRun(s, i + 1, reject);
    }
  }

  /** `strspn`: counts the characters equal to `accept` from position `i` on. */
  method Strspn(s: seq<char>, i: nat, accept: char) returns (n: nat)
    requires i <= |s|
    ensures n == Span(s, i, accept)
  {
    var j := i;
    while j < |s|
      invariant i <= j <= |s|
      invariant Span(s, i, accept) == (j - i) + Span(s, j, accept)
    {
      if accept != s[j] {
        return j - i;
      }
      j := j + 1;
    }
    return |s| - i;
  }

  /** `strcspn`: counts the characters different from `reject` from position `i` on. */
  method Strcspn(s: seq<char>, i: nat, reject: char) returns (n: nat)
    requires i <= |s|
    ensures n == CSpan(s, i, reject)
  {
    var j := i;
    while j < |s|
      invariant i <= j <= |s|
      invariant CSpan(s, i, reject) == (j - i) + CSpan(s, j, reject)
    {
      if reject == s[j] {
        return j - i;
      }
      j := j + 1;
    }
    return |s| - i;
  }

  // ---------------------------------------------------------------------
  // The scanner of `fnmatch`, as a function of the two positions

  /** The captures `local` followed by those of `rest`; failure stays failure. */
  function Prepend(local: seq<string>, rest: Option<seq<string>>): Option<seq<string>>
  {
    match rest
    case None => None
    case Some(caps) => Some(local + caps)
  }

  /** One single-character capture per position in `from..to`. */
  function Singles(name: string, from: nat, to: nat): (s: seq<string>)
    requires from <= to <= |name|
    ensures |s| == to - from
    ensures forall k :: 0 <= k < |s| ==> s[k] == name[from + k .. from + k + 1]
  {
    seq(to - from, k requires 0 <= k < to - from => name[from + k .. from + k + 1])
  }

  /** Where one iteration of the loop of `fnmatch` leaves the scan: the new
      pattern and name positions and the captures it pushed. */
  datatype Advance = Advance(i: nat, j: nat, local: seq<string>)

  /** One iteration of the loop of `fnmatch` at pattern position `i` and name
      position `j`; `None` where the loop returns `None`. */
  function Next(fold: bool, p: string, n: string, i: nat, j: nat): (r: Option<Advance>)
    requires i < |p| && j <= |n|
    ensures r.Some? ==> i < r.value.i <= |p| && j <= r.value.j <= |n|
  {
    if p[i] == '?' then
      if |n| <= j then None  // no character left for this `?`
      else Some(Advance(i + 1, j + 1, [n[j..j + 1]]))
    else if p[i] == '*' then
      if |p| <= i + 1 then
        Some(Advance(i + 1, |n|, [n[j..]]))  // a final star takes the rest
      else if p[i + 1] == '*' then
        Some(Advance(i + 1, j, [""]))  // `**`: the first star takes nothing
      else if p[i + 1] == '?' then
        var q := 1 + Span(p, i + 2, '?');
        var ii := i + 1 + q;
        if ii < |p| && p[ii] == '*' then None  // `*?*` is ambiguous
        else
          var len := if ii < |p| then CSpan(n, j, p[ii]) else |n| - j;
          if len < q then None  // too short for the question marks
          else Some(Advance(ii, j + len, [n[j..j + len - q]] + Singles(n, j + len - q, j + len)))
      else
        var jj := j + CSpan(n, j, p[i + 1]);  // up to the first terminator, no backtracking
        Some(Advance(i + 1, jj, [n[j..jj]]))
    else if j < |n| && MatchChars(fold, p[i], n[j]) then
      Some(Advance(i + 1, j + 1, []))
    else
      None
  }

  /** The scan from pattern position `i` and name position `j`: one
      iteration, then `Step` decides whether to go on. */
  function Go(fold: bool, p: string, n: string, i: nat, j: nat): Option<seq<string>>
    requires i < |p| && j <= |n|
    decreases |p| - i, 0
  {
    match Next(fold, p, n, i, j)
    case None => None
    case Some(a) => Step(fold, p, n, a.i, a.j, a.local)
  }

  /** After a step that pushed `local`: stop if the pattern is used up
      (success exactly when the name is used up too), otherwise go on. */
  function Step(fold: bool, p: string, n: string, i: nat, j: nat, local: seq<string>): Option<seq<string>>
    requires i <= |p| && j <= |n|
    decreases |p| - i, 1
  {
    if |p| <= i then
      if j == |n| then Some(local) else None
    else
      Prepend(local, Go(fold, p, n, i, j))
  }

  /** What `fnmatch(pattern, name)` returns. The pattern must be non-empty:
      the source reads its first character unconditionally. */
  function Captures(fold: bool, pattern: string, name: string): Option<seq<string>>
    requires |pattern| > 0
  {
    Go(fold, pattern, name, 0, 0)
  }

  /** One iteration of the loop of `fnmatch`: the branch on the pattern
      character at `i`, returning the new positions and the captures that
      iteration pushes. */
  method Iterate(fold: bool, pattern: string, name: string, i: nat, j: nat) returns (r: Option<Advance>)
    requires i < |pattern| && j <= |name|
    ensures r == Next(fold, pattern, name, i, j)
  {
    if pattern[i] == '?' {
      if |name| <= j {
        return None;
      }
      return Some(Advance(i + 1, j + 1, [name[j..j + 1]]));
    } else if pattern[i] == '*' {
      if |pattern| <= i + 1 {
        return Some(Advance(i + 1, |name|, [name[j..]]));
      } else if pattern[i + 1] == '*' {
        return Some(Advance(i + 1, j, [""]));
      } else if pattern[i + 1] == '?' {
        r := StarQuestions(fold, pattern, name, i, j);
      } else {
        var skip := Strcspn(name, j, pattern[i + 1]);
        return Some(Advance(i + 1, j + skip, [name[j..j + skip]]));
      }
    } else if j < |name| && MatchChars(fold, pattern[i], name[j]) {
      return Some(Advance(i + 1, j + 1, []));
    } else {
      return None;
    }
  }

  /** The `*?…` branch of the loop body: count the question marks, find
      how far the star and the question marks reach, and push the star's
      capture and one capture per question mark. */
  method StarQuestions(fold: bool, pattern: string, name: string, i: nat, j: nat) returns (r: Option<Advance>)
    requires i + 1 < |pattern| && j <= |name| && pattern[i] == '*' && pattern[i + 1] == '?'
    ensures r == Next(fold, pattern, name, i, j)
  {
    var more := Strspn(pattern, i + 2, '?');
    var numQuestions := 1 + more;
    var ii := i + 1 + numQuestions;
    var matchedLen;
    if ii < |pattern| {
      var term := pattern[ii];
      if term == '*' {
        return None;
      }
      matchedLen := Strcspn(name, j, term);
    } else {
      matchedLen := |name| - j;
    }
    if matchedLen < numQuestions {
      return None;
    }
    var starEnd := j + matchedLen - numQuestions;
    var local := PushSingles(name, starEnd, j + matchedLen, [name[j..starEnd]]);
    return Some(Advance(ii, j + matchedLen, local));
  }

  /** The loop that pushes one single-character capture per position. */
  method PushSingles(name: string, from: nat, to: nat, captures: seq<string>) returns (r: seq<string>)
    requires from <= to <= |name|
    ensures r == captures + Singles(name, from, to)
  {
    r := captures;
    for jj := from to to
      invariant r == captures + Singles(name, from, jj)
    {
      r := r + [name[jj..jj + 1]];
    }
  }

  /** `fnmatch`: the two-index scan that pushes one capture per wildcard.
      The pattern must be non-empty: the source reads its first character
      unconditionally. */
  method Fnmatch(fold: bool, pattern: string, name: string) returns (r: Option<seq<string>>)
    requires |pattern| > 0
    ensures r == Captures(fold, pattern, name)
  {
    var i: nat, j: nat := 0, 0;
    var matches: seq<string> := [];
    PrependEmpty(Go(fold, pattern, name, 0, 0));
    while true
      invariant i < |pattern| && j <= |name|
      invariant Captures(fold, pattern, name) == Prepend(matches, Go(fold, pattern, name, i, j))
      decreases |pattern| - i
    {
      var step := Iterate(fold, pattern, name, i, j);
      if step.None? {
        return None;
      }
      ghost var done := matches;
      var adv := step.value;
      matches := matches + adv.local;
      i, j := adv.i, adv.j;
      if |pattern| <= i {
        if |name| == j {
          return Some(matches);
        } else {
          return None;
        }
      }
      PrependTwice(done, adv.local, Go(fold, pattern, name, i, j));
    }
  }

  lemma PrependEmpty(o: Option<seq<string>>)
    ensures Prepend([], o) == o
  {
    if o.Some? {
      assert [] + o.value == o.value;
    }
  }

  lemma PrependTwice(a: seq<string>, b: seq<string>, o: Option<seq<string>>)
    ensures Prepend(a, Prepend(b, o)) == Prepend(a + b, o)
  {
    if o.Some? {
      assert a + (b + o.value) == (a + b) + o.value;
    }
  }

  // ---------------------------------------------------------------------
  // Reference semantics

  /** The wildcard characters of `p`, left to right. */
  function Wildcards(p: string): (w: string)
    ensures |w| <= |p|
    ensures forall k :: 0 <= k < |w| ==> IsWildcard(w[k])
  {
    if p == [] then []
    else (if IsWildcard(p[0]) then [p[0]] else []) + Wildcards(p[1..])
  }

  /** `p` with its k-th wildcard replaced by `caps[k]`. */
  function Fill(p: string, caps: seq<string>): string
    requires |caps| == |Wildcards(p)|
  {
    if p == [] then []
    else if IsWildcard(p[0]) then caps[0] + Fill(p[1..], caps[1..])
    else [p[0]] + Fill(p[1..], caps)
  }

  /** `caps[c..]` shows how `n[j..]` is an instance of `p[i..]`: each `?`
      takes one character, each `*` a (possibly empty) run, and every other
      character of the pattern matches one character of the name under
      MatchChars. */
  ghost predicate ExplainsFrom(fold: bool, p: string, i: nat, caps: seq<string>, c: nat, n: string, j: nat)
    decreases |p| - i
  {
    if |p| <= i then c == |caps| && j == |n|
    else if IsWildcard(p[i]) then
      && c < |caps|
      && j + |caps[c]| <= |n|
      && caps[c] == n[j..j + |caps[c]|]
      && (p[i] == '?' ==> |caps[c]| == 1)
      && ExplainsFrom(fold, p, i + 1, caps, c + 1, n, j + |caps[c]|)
    else
      j < |n| && MatchChars(fold, p[i], n[j]) && ExplainsFrom(fold, p, i + 1, caps, c, n, j + 1)
  }

  /** `caps` is a way of matching the whole of `name` against `p`. */
  ghost predicate Explains(fold: bool, p: string, caps: seq<string>, name: string)
  {
    ExplainsFrom(fold, p, 0, caps, 0, name, 0)
  }

  /** An explanation has one capture per wildcard, a `?` capture is one
      character, and (case-sensitively) filling the captures back into the
      pattern gives the name. */
  lemma {:induction false} ExplainsFromShape(fold: bool, p: string, i: nat, caps: seq<string>, c: nat, n: string, j: nat)
    requires i <= |p| && c <= |caps| && j <= |n|
    requires ExplainsFrom(fold, p, i, caps, c, n, j)
    ensures |caps| - c == |Wildcards(p[i..])|
    ensures forall k :: 0 <= k < |caps| - c && Wildcards(p[i..])[k] == '?' ==> |caps[c + k]| == 1
    ensures !fold ==> Fill(p[i..], caps[c..]) == n[j..]
    decreases |p| - i
  {
    if i < |p| {
      assert p[i..][1..] == p[i + 1..];
      if IsWildcard(p[i]) {
        var len := |caps[c]|;
        ExplainsFromShape(fold, p, i + 1, caps, c + 1, n, j + len);
        assert Wildcards(p[i..]) == [p[i]] + Wildcards(p[i + 1..]);
        forall k | 0 <= k < |caps| - c && Wildcards(p[i..])[k] == '?'
          ensures |caps[c + k]| == 1
        {
          if k > 0 {
            assert Wildcards(p[i..])[k] == Wildcards(p[i + 1..])[k - 1];
          }
        }
        if !fold {
          assert caps[c..][1..] == caps[c + 1..];
          assert n[j..] == caps[c] + n[j + len..];
        }
      } else {
        ExplainsFromShape(fold, p, i + 1, caps, c, n, j + 1);
        assert Wildcards(p[i..]) == Wildcards(p[i + 1..]);
        if !fold {
          assert n[j..] == [p[i]] + n[j + 1..];
        }
      }
    }
  }

  /** A run of `m` question marks at `p[s..]` explained by single characters
      of `n[a..]`. */
  lemma {:induction false} QuestionsExplain(fold: bool, p: string, s: nat, caps: seq<string>, c: nat, n: string, a: nat, m: nat)
    requires s + m <= |p| && c + m <= |caps| && a + m <= |n|
    requires forall k :: s <= k < s + m ==> p[k] == '?'
    requires caps[c..c + m] == Singles(n, a, a + m)
    requires ExplainsFrom(fold, p, s + m, caps, c + m, n, a + m)
    ensures ExplainsFrom(fold, p, s, caps, c, n, a)
    decreases m
  {
    if m > 0 {
      assert caps[c + 1..c + m] == caps[c..c + m][1..];
      assert Singles(n, a, a + m)[1..] == Singles(n, a + 1, a + m);
      QuestionsExplain(fold, p, s + 1, caps, c + 1, n, a + 1, m - 1);
      assert caps[c] == caps[c..c + m][0];
    }
  }

  /** Soundness of the scan from `(i, j)`: whatever it returns, placed after
      any `pre`, explains the rest of the name. */
  lemma {:induction false} GoSound(fold: bool, p: string, n: string, i: nat, j: nat, pre: seq<string>, caps: seq<string>)
    requires i < |p| && j <= |n|
    requires Go(fold, p, n, i, j) == Some(caps)
    ensures ExplainsFrom(fold, p, i, pre + caps, |pre|, n, j)
    decreases |p| - i, 0
  {
    var a := Next(fold, p, n, i, j).value;
    StepSound(fold, p, n, a.i, a.j, a.local, pre, caps);
    NextSound(fold, p, n, i, j, a, pre + caps, |pre|);
  }

  /** Soundness of a step that pushed `local`. */
  lemma {:induction false} StepSound(fold: bool, p: string, n: string, i: nat, j: nat, local: seq<string>, pre: seq<string>, caps: seq<string>)
    requires i <= |p| && j <= |n|
    requires Step(fold, p, n, i, j, local) == Some(caps)
    ensures |local| <= |caps| && caps[..|local|] == local
    ensures ExplainsFrom(fold, p, i, pre + caps, |pre| + |local|, n, j)
    decreases |p| - i, 1
  {
    if i < |p| {
      var rest := Go(fold, p, n, i, j).value;
      GoSound(fold, p, n, i, j, pre + local, rest);
      assert caps == local + rest;
      assert pre + caps == (pre + local) + rest;
    }
  }

  /** One iteration is sound: if what it leaves is explained by the captures
      after the ones it pushed, the whole is explained. */
  lemma NextSound(fold: bool, p: string, n: string, i: nat, j: nat, a: Advance, caps: seq<string>, c: nat)
    requires i < |p| && j <= |n| && Next(fold, p, n, i, j) == Some(a)
    requires c + |a.local| <= |caps| && caps[c..c + |a.local|] == a.local
    requires ExplainsFrom(fold, p, a.i, caps, c + |a.local|, n, a.j)
    ensures ExplainsFrom(fold, p, i, caps, c, n, j)
  {
    if p[i] == '*' && i + 1 < |p| && p[i + 1] == '?' {
      var q, len := NextStarQuestions(fold, p, n, i, j, a);
      StarQuestionsSound(fold, p, n, i, j, q, len, a, caps, c);
    } else if IsWildcard(p[i]) {
      SingleCaptureSound(fold, p, n, i, j, a, caps, c);
    }
  }

  /** `NextSound` for a wildcard that pushes a single capture. */
  lemma SingleCaptureSound(fold: bool, p: string, n: string, i: nat, j: nat, a: Advance, caps: seq<string>, c: nat)
    requires i < |p| && j <= |n| && Next(fold, p, n, i, j) == Some(a) && IsWildcard(p[i])
    requires !(p[i] == '*' && i + 1 < |p| && p[i + 1] == '?')
    requires c + |a.local| <= |caps| && caps[c..c + |a.local|] == a.local
    requires ExplainsFrom(fold, p, a.i, caps, c + |a.local|, n, a.j)
    ensures ExplainsFrom(fold, p, i, caps, c, n, j)
  {
    assert a.i == i + 1 && |a.local| == 1 && a.local[0] == n[j..a.j];
    assert caps[c] == caps[c..c + 1][0];
  }

  /** What one iteration does at a star followed by question marks. */
  lemma NextStarQuestions(fold: bool, p: string, n: string, i: nat, j: nat, a: Advance) returns (q: nat, len: nat)
    requires i + 1 < |p| && j <= |n| && p[i] == '*' && p[i + 1] == '?'
    requires Next(fold, p, n, i, j) == Some(a)
    ensures q == 1 + Span(p, i + 2, '?')
    ensures len == if i + 1 + q < |p| then CSpan(n, j, p[i + 1 + q]) else |n| - j
    ensures q <= len && j + len <= |n|
    ensures a == Advance(i + 1 + q, j + len, [n[j..j + len - q]] + Singles(n, j + len - q, j + len))
  {
    q := 1 + Span(p, i + 2, '?');
    len := if i + 1 + q < |p| then CSpan(n, j, p[i + 1 + q]) else |n| - j;
  }

  /** `NextSound` for a star followed by `q` question marks: the star takes
      the span up to the terminator but its last `q` characters, each `?`
      one of those. */
  lemma StarQuestionsSound(fold: bool, p: string, n: string, i: nat, j: nat, q: nat, len: nat, a: Advance, caps: seq<string>, c: nat)
    requires i + 1 < |p| && j <= |n| && p[i] == '*' && p[i + 1] == '?'
    requires q == 1 + Span(p, i + 2, '?') && q <= len && j + len <= |n|
    requires a == Advance(i + 1 + q, j + len, [n[j..j + len - q]] + Singles(n, j + len - q, j + len))
    requires c + |a.local| <= |caps| && caps[c..c + |a.local|] == a.local
    requires ExplainsFrom(fold, p, a.i, caps, c + |a.local|, n, a.j)
    ensures ExplainsFrom(fold, p, i, caps, c, n, j)
  {
    SpanRun(p, i + 2, '?');
    assert caps[c + 1..c + 1 + q] == Singles(n, j + len - q, j + len) by {
      assert caps[c + 1..c + 1 + q] == caps[c..c + 1 + q][1..];
    }
    QuestionsExplain(fold, p, i + 1, caps, c + 1, n, j + len - q, q);
    assert caps[c] == caps[c..c + 1 + q][0];
  }

  /** What `fnmatch` returns explains the name: exactly one capture per
      wildcard, in order, every `?` capture one character long, and on the
      case-sensitive build the captures filled back into the pattern give the
      name exactly. */
  lemma CapturesSound(fold: bool, pattern: string, name: string)
    requires |pattern| > 0 && Captures(fold, pattern, name).Some?
    ensures Explains(fold, pattern, Captures(fold, pattern, name).value, name)
    ensures |Captures(fold, pattern, name).value| == |Wildcards(pattern)|
    ensures forall k :: 0 <= k < |Wildcards(pattern)| && Wildcards(pattern)[k] == '?' ==>
      |Captures(fold, pattern, name).value[k]| == 1
    ensures !fold ==> Fill(pattern, Captures(fold, pattern, name).value) == name
  {
    var caps := Captures(fold, pattern, name).value;
    GoSound(fold, pattern, name, 0, 0, [], caps);
    assert [] + caps == caps;
    ExplainsFromShape(fold, pattern, 0, caps, 0, name, 0);
    assert pattern[0..] == pattern && caps[0..] == caps && name[0..] == name;
  }

  // ---------------------------------------------------------------------
  // Properties of particular pattern shapes

  /** Span of a run of exactly `m` copies of `accept`. */
  lemma {:induction false} SpanExact(s: seq<char>, i: nat, accept: char, m: nat)
    requires i + m <= |s|
    requires forall k :: i <= k < i + m ==> s[k] == accept
    requires i + m == |s| || s[i + m] != accept
    ensures Span(s, i, accept) == m
    decreases m
  {
    if m > 0 {
      SpanExact(s, i + 1, accept, m - 1);
    }
  }

  /** CSpan runs to the end when `reject` does not occur. */
  lemma {:induction false} CSpanAbsent(s: seq<char>, i: nat, reject: char)
    requires i <= |s|
    requires forall k :: i <= k < |s| ==> s[k] != reject
    ensures CSpan(s, i, reject) == |s| - i
    decreases |s| - i
  {
    if i < |s| {
      CSpanAbsent(s, i + 1, reject);
    }
  }

  /** Similarity of non-empty strings, one character at a time. */
  lemma SimilarCons(fold: bool, s: string, t: string)
    requires |s| > 0 && |t| > 0
    ensures Similar(fold, s, t) <==> MatchChars(fold, s[0], t[0]) && Similar(fold, s[1..], t[1..])
  {
    if MatchChars(fold, s[0], t[0]) && Similar(fold, s[1..], t[1..]) {
      forall k | 0 <= k < |s|
        ensures MatchChars(fold, s[k], t[k])
      {
        if k > 0 {
          assert s[k] == s[1..][k - 1] && t[k] == t[1..][k - 1];
        }
      }
    }
  }

  /** Without wildcards the scan compares character by character and
      captures nothing. */
  lemma {:induction false} GoLiteral(fold: bool, p: string, n: string, i: nat, j: nat)
    requires i < |p| && j <= |n|
    requires forall k :: i <= k < |p| ==> !IsWildcard(p[k])
    ensures Go(fold, p, n, i, j) == if Similar(fold, p[i..], n[j..]) then Some([]) else None
    decreases |p| - i
  {
    if j < |n| {
      SimilarCons(fold, p[i..], n[j..]);
      assert p[i..][1..] == p[i + 1..] && n[j..][1..] == n[j + 1..];
      if i + 1 < |p| && MatchChars(fold, p[i], n[j]) {
        GoLiteral(fold, p, n, i + 1, j + 1);
        PrependEmpty(Go(fold, p, n, i + 1, j + 1));
      }
    }
  }

  /** A pattern without wildcards matches exactly the names that agree with
      it character by character, and captures nothing; case-sensitively, that
      is the pattern itself. */
  lemma LiteralPattern(fold: bool, pattern: string, name: string)
    requires |pattern| > 0
    requires forall k :: 0 <= k < |pattern| ==> !IsWildcard(pattern[k])
    ensures Captures(fold, pattern, name) == if Similar(fold, pattern, name) then Some([]) else None
    ensures !fold ==> (Captures(fold, pattern, name).Some? <==> pattern == name)
  {
    GoLiteral(fold, pattern, name, 0, 0);
    assert pattern[0..] == pattern && name[0..] == name;
    if !fold && Similar(fold, pattern, name) {
      assert pattern == name;
    }
  }

  /** `*?*` (any number of `?` between the stars) is refused as ambiguous
      whenever the scan reaches it. */
  lemma StarQuestionsStar(fold: bool, p: string, n: string, i: nat, j: nat, q: nat)
    requires j <= |n| && q >= 1 && i + 1 + q < |p|
    requires p[i] == '*' && p[i + 1 + q] == '*'
    requires forall k :: i + 1 <= k < i + 1 + q ==> p[k] == '?'
    ensures Go(fold, p, n, i, j) == None
  {
    SpanExact(p, i + 2, '?', q - 1);
  }

  /** A scan that starts at or before a `*?*` reaches it: no pass jumps
      over a star, so the scan fails wherever it starts before it. */
  lemma {:induction false} ScanReachesStarQuestionsStar(fold: bool, p: string, n: string, i: nat, j: nat, s: nat, q: nat)
    requires i <= s && j <= |n| && q >= 1 && s + 1 + q < |p|
    requires p[s] == '*' && p[s + 1 + q] == '*'
    requires forall k :: s + 1 <= k < s + 1 + q ==> p[k] == '?'
    ensures Go(fold, p, n, i, j) == None
    decreases s - i
  {
    if i == s {
      StarQuestionsStar(fold, p, n, s, j, q);
    } else {
      match Next(fold, p, n, i, j)
      case None =>
      case Some(a) =>
        if p[i] == '*' && p[i + 1] == '?' {
          SpanRun(p, i + 2, '?');
        }
        assert a.i <= s;
        ScanReachesStarQuestionsStar(fold, p, n, a.i, a.j, s, q);
    }
  }

  /** A pattern holding `*?*` (any number of `?` between the stars)
      matches no name at all. */
  lemma StarQuestionsStarPattern(fold: bool, p: string, n: string, s: nat, q: nat)
    requires q >= 1 && s + 1 + q < |p|
    requires p[s] == '*' && p[s + 1 + q] == '*'
    requires forall k :: s + 1 <= k < s + 1 + q ==> p[k] == '?'
    ensures Captures(fold, p, n) == None
  {
    ScanReachesStarQuestionsStar(fold, p, n, 0, 0, s, q);
  }

  /** A star followed by a literal takes the name up to the first exact
      occurrence of that literal, never past it, and the scan fails when the
      literal does not occur. */
  lemma StarTerminator(fold: bool, p: string, n: string, i: nat, j: nat)
    requires i + 1 < |p| && j <= |n| && p[i] == '*' && !IsWildcard(p[i + 1])
    ensures (forall k :: j <= k < |n| ==> n[k] != p[i + 1]) ==> Go(fold, p, n, i, j) == None
    ensures Go(fold, p, n, i, j).Some? ==>
      var caps := Go(fold, p, n, i, j).value;
      |caps| > 0 && j + |caps[0]| < |n| && n[j + |caps[0]|] == p[i + 1] &&
      caps[0] == n[j..j + |caps[0]|] &&
      forall k :: 0 <= k < |caps[0]| ==> caps[0][k] != p[i + 1]
  {
    var c := p[i + 1];
    var jj := j + CSpan(n, j, c);
    if forall k :: j <= k < |n| ==> n[k] != c {
      CSpanAbsent(n, j, c);
    }
    CSpanRun(n, j, c);
    if Go(fold, p, n, i, j).Some? {
      assert Go(fold, p, n, i, j) == Prepend([n[j..jj]], Go(fold, p, n, i + 1, jj));
      assert jj < |n|;
    }
  }

  /** A star at the end of the pattern takes the rest of the name, possibly
      nothing, and the match succeeds. */
  lemma FinalStar(fold: bool, p: string, n: string, j: nat)
    requires |p| > 0 && p[|p| - 1] == '*' && j <= |n|
    ensures Go(fold, p, n, |p| - 1, j) == Some([n[j..]])
  {
  }

  /** A `?` with no character left fails. */
  lemma QuestionAtEnd(fold: bool, p: string, n: string, i: nat)
    requires i < |p| && p[i] == '?'
    ensures Go(fold, p, n, i, |n|) == None
  {
  }

  /** A star followed by `q` question marks fails when the span up to the
      following literal (or to the end) is shorter than `q`, and when a star
      follows the question marks. */
  lemma StarQuestionsFail(fold: bool, p: string, n: string, i: nat, j: nat)
    requires i + 1 < |p| && j <= |n| && p[i] == '*' && p[i + 1] == '?'
    ensures var q := 1 + Span(p, i + 2, '?');
      var ii := i + 1 + q;
      var len := if ii < |p| then CSpan(n, j, p[ii]) else |n| - j;
      (ii < |p| && p[ii] == '*') || len < q ==> Go(fold, p, n, i, j) == None
  {
  }

  /** The scan is greedy and never backtracks: `*a` does not match `aXa`,
      although the star could take `aX`. */
  lemma NoBacktracking()
    ensures Explains(false, "*a", ["aX"], "aXa")
    ensures Captures(false, "*a", "aXa") == None
  {
    assert "aXa"[0..2] == "aX";
    assert CSpan("aXa", 0, 'a') == 0;
    assert Next(false, "*a", "aXa", 0, 0) == Some(Advance(1, 0, [""]));
    assert Next(false, "*a", "aXa", 1, 0) == Some(Advance(2, 1, []));
  }

  /** The example of the documentation: `f*??r` against `foobar`. */
  lemma StarQuestionsExample()
    ensures Captures(false, "f*??r", "foobar") == Some(["oo", "b", "a"])
  {
    var p, n := "f*??r", "foobar";
    assert Go(false, p, n, 4, 5) == Some([]);
    assert Span(p, 3, '?') == 1;
    assert CSpan(n, 5, 'r') == 0;
    assert CSpan(n, 4, 'r') == 1;
    assert CSpan(n, 3, 'r') == 2;
    assert CSpan(n, 2, 'r') == 3;
    assert CSpan(n, 1, 'r') == 4;
    assert n[1..3] == "oo" && n[3..4] == "b" && n[4..5] == "a";
    assert Singles(n, 3, 5) == [n[3..4], n[4..5]];
    var local := ["oo", "b", "a"];
    assert [n[1..3]] + Singles(n, 3, 5) == local;
    assert p[1] == '*' && p[2] == '?' && p[4] == 'r';
    assert Next(false, p, n, 1, 1) == Some(Advance(4, 5, local));
    assert Go(false, p, n, 0, 0) == Prepend([], Go(false, p, n, 1, 1));
    PrependEmpty(Go(false, p, n, 1, 1));
    assert Captures(false, p, n) == Go(false, p, n, 0, 0);
    assert local + [] == local;
    assert Go(false, p, n, 1, 1) == Prepend(local, Go(false, p, n, 4, 5));
  }

  /** Of two stars in a row, the first takes nothing: it captures the empty
      string and the match goes on from the second star at the same place
      in the name. */
  lemma DoubleStar(fold: bool, p: string, n: string, i: nat, j: nat)
    requires i + 1 < |p| && j <= |n| && p[i] == '*' && p[i + 1] == '*'
    ensures Go(fold, p, n, i, j) == Prepend([""], Go(fold, p, n, i + 1, j))
  {
    assert Next(fold, p, n, i, j) == Some(Advance(i + 1, j, [""]));
  }

  /** Empty captures, `count` of them. */
  function Empties(count: nat): (r: seq<string>)
    ensures |r| == count && forall k :: 0 <= k < count ==> r[k] == ""
  {
    if count == 0 then [] else [""] + Empties(count - 1)
  }

  /** In a run of `count` stars every star but the last captures the empty
      string: the match goes on from the last star at the same place in
      the name. */
  lemma {:induction false} StarRun(fold: bool, p: string, n: string, i: nat, count: nat, j: nat)
    requires 1 <= count && i + count <= |p| && j <= |n|
    requires forall k :: i <= k < i + count ==> p[k] == '*'
    ensures Go(fold, p, n, i, j) == Prepend(Empties(count - 1), Go(fold, p, n, i + count - 1, j))
    decreases count
  {
    if count == 1 {
      PrependEmpty(Go(fold, p, n, i, j));
    } else {
      DoubleStar(fold, p, n, i, j);
      StarRun(fold, p, n, i + 1, count - 1, j);
      PrependTwice([""], Empties(count - 2), Go(fold, p, n, i + count - 1, j));
    }
  }

  /** `f**r` against `foobar`: the first star of `**` takes nothing. */
  lemma DoubleStarExample()
    ensures Captures(false, "f**r", "foobar") == Some(["", "ooba"])
  {
    var p, n := "f**r", "foobar";
    assert Go(false, p, n, 3, 5) == Some([]);
    assert CSpan(n, 5, 'r') == 0;
    assert CSpan(n, 4, 'r') == 1;
    assert CSpan(n, 3, 'r') == 2;
    assert CSpan(n, 2, 'r') == 3;
    assert CSpan(n, 1, 'r') == 4;
    assert n[1..5] == "ooba";
    assert Next(false, p, n, 2, 1) == Some(Advance(3, 5, ["ooba"]));
    assert ["ooba"] + [] == ["ooba"];
    assert Go(false, p, n, 2, 1) == Prepend(["ooba"], Go(false, p, n, 3, 5));
    assert Go(false, p, n, 1, 1) == Prepend([""], Go(false, p, n, 2, 1));
    assert [""] + ["ooba"] == ["", "ooba"];
    assert Go(false, p, n, 0, 0) == Prepend([], Go(false, p, n, 1, 1));
    PrependEmpty(Go(false, p, n, 1, 1));
    assert Captures(false, p, n) == Go(false, p, n, 0, 0);
  }

  /** `f*?*r` is refused, and `Abc` matches `abC` only on the
      case-insensitive build. */
  lemma RefusalExamples()
    ensures Captures(false, "f*?*r", "foobar") == None
    ensures Captures(true, "Abc", "abC") == Some([])
    ensures Captures(false, "Abc", "abC") == None
  {
    StarQuestionsStar(false, "f*?*r", "foobar", 1, 1, 1);
    assert Go(false, "f*?*r", "foobar", 0, 0) == Prepend([], Go(false, "f*?*r", "foobar", 1, 1));
    LiteralPattern(true, "Abc", "abC");
    LiteralPattern(false, "Abc", "abC");
    assert MatchChars(true, "Abc"[0], "abC"[0]) && MatchChars(true, "Abc"[2], "abC"[2]);
  }
}
