/** The check both front ends run before moving anything: `validate` of
    `src/lib.rs` over entries and `validate` of `src/main.rs` over parallel
    lists of sources and destinations. Both sort the positions stably by
    destination and report the first two neighbours that share one. */
module Validation {
  import opened Types

  /** Rust's `Ord` on strings: lexicographic by character. Comparing code
      points gives the same order as comparing the UTF-8 bytes. */
  predicate Less(a: string, b: string)
    decreases |a|
  {
    if a == [] then b != []
    else if b == [] then false
    else a[0] < b[0] || (a[0] == b[0] && Less(a[1..], b[1..]))
  }

  lemma {:induction false} LessIrreflexive(a: string)
    ensures !Less(a, a)
    decreases |a|
  {
    if a != [] {
      LessIrreflexive(a[1..]);
    }
  }

  lemma {:induction false} LessTransitive(a: string, b: string, c: string)
    requires Less(a, b) && Less(b, c)
    ensures Less(a, c)
    decreases |a|
  {
    if a != [] && a[0] == b[0] && b[0] == c[0] {
      LessTransitive(a[1..], b[1..], c[1..]);
    }
  }

  /** Any two different strings are ordered one way or the other. */
  lemma {:induction false} LessTotal(a: string, b: string)
    requires a != b
    ensures Less(a, b) || Less(b, a)
    decreases |a|
  {
    if a != [] && b != [] && a[0] == b[0] {
      assert a == [a[0]] + a[1..] && b == [b[0]] + b[1..];
      LessTotal(a[1..], b[1..]);
    }
  }

  // ---------------------------------------------------------------------
  // Sorting positions by destination

  /** Position `x` comes before position `y` in a stable sort by
      destination: a smaller destination, or the same one earlier. */
  predicate Before(d: seq<string>, x: nat, y: nat)
    requires x < |d| && y < |d|
  {
    Less(d[x], d[y]) || (d[x] == d[y] && x < y)
  }

  /** `s` holds exactly the positions below `n`. */
  ghost predicate Positions(s: seq<nat>, n: nat)
  {
    forall k: nat :: k in s <==> k < n
  }

  /** `s` lists positions of `d` in the order of a stable sort. */
  predicate Ordered(d: seq<string>, s: seq<nat>)
  {
    (forall p :: 0 <= p < |s| ==> s[p] < |d|) &&
    forall p, q :: 0 <= p < q < |s| ==> Before(d, s[p], s[q])
  }

  /** Inserting the next position `i` after every position whose
      destination is not greater keeps the list sorted and stable. */
  lemma InsertOrdered(d: seq<string>, s: seq<nat>, i: nat, pos: nat)
    requires Positions(s, i) && Ordered(d, s) && i < |d| && pos <= |s|
    requires forall p :: 0 <= p < pos ==> !Less(d[i], d[s[p]])
    requires pos == |s| || Less(d[i], d[s[pos]])
    ensures Ordered(d, s[..pos] + [i] + s[pos..])
  {
    var t := s[..pos] + [i] + s[pos..];
    forall p, q | 0 <= p < q < |t|
      ensures Before(d, t[p], t[q])
    {
      if q == pos {
        assert t[p] == s[p] && s[p] in s;
        if d[s[p]] != d[i] {
          LessTotal(d[s[p]], d[i]);
        }
      } else if p == pos {
        assert t[q] == s[q - 1];
        if pos < q - 1 && !Less(d[s[pos]], d[s[q - 1]]) {
          assert d[s[pos]] == d[s[q - 1]];
        } else if pos < q - 1 {
          LessTransitive(d[i], d[s[pos]], d[s[q - 1]]);
        }
      } else {
        var p' := if p < pos then p else p - 1;
        var q' := if q < pos then q else q - 1;
        assert t[p] == s[p'] && t[q] == s[q'];
      }
    }
  }

  lemma InsertPositions(s: seq<nat>, i: nat, pos: nat)
    requires Positions(s, i) && pos <= |s|
    ensures Positions(s[..pos] + [i] + s[pos..], i + 1)
  {
    var t := s[..pos] + [i] + s[pos..];
    assert s == s[..pos] + s[pos..];
    assert forall k :: k in t <==> k in s || k == i;
  }

  /** The positions of `d` in stable order by destination, as
      `sort_by(|a, b| a.dest.cmp(&b.dest))` leaves them; the standard
      library's sort is written here as an insertion sort, which produces
      the same (unique) order. */
  method SortByDest(d: seq<string>) returns (s: seq<nat>)
    ensures Positions(s, |d|) && Ordered(d, s)
  {
    s := [];
    for i := 0 to |d|
      invariant Positions(s, i) && Ordered(d, s)
    {
      var pos := 0;
      while pos < |s| && !Less(d[i], d[s[pos]])
        invariant pos <= |s|
        invariant forall p :: 0 <= p < pos ==> !Less(d[i], d[s[p]])
      {
        pos := pos + 1;
      }
      InsertOrdered(d, s, i, pos);
      InsertPositions(s, i, pos);
      s := s[..pos] + [i] + s[pos..];
    }
  }

  // ---------------------------------------------------------------------
  // The first clash

  /** No two positions share a destination. */
  predicate Distinct(d: seq<string>)
  {
    forall i, j :: 0 <= i < j < |d| ==> d[i] != d[j]
  }

  /** What `validate` reports: `i` and `j` are the first two positions
      with the smallest destination that occurs more than once. */
  predicate Clash(d: seq<string>, i: nat, j: nat)
  {
    i < j < |d| && d[i] == d[j] &&
    (forall k :: 0 <= k < j && k != i ==> d[k] != d[i]) &&
    (forall a, b :: 0 <= a < b < |d| && d[a] == d[b] ==> !Less(d[a], d[i]))
  }

  /** At most one pair of positions is the clash. */
  lemma ClashUnique(d: seq<string>, i: nat, j: nat, i': nat, j': nat)
    requires Clash(d, i, j) && Clash(d, i', j')
    ensures i == i' && j == j'
  {
    if d[i] != d[i'] {
      LessTotal(d[i], d[i']);
    }
  }

  /** Neighbours with different destinations in a sorted list are in
      strictly increasing order. */
  lemma {:induction false} Increasing(d: seq<string>, s: seq<nat>, k: nat, p: nat, q: nat)
    requires Ordered(d, s) && k <= |s|
    requires forall m :: 1 <= m < k ==> d[s[m - 1]] != d[s[m]]
    requires p < q < k
    ensures Less(d[s[p]], d[s[q]])
    decreases q - p
  {
    assert Before(d, s[q - 1], s[q]);
    if p < q - 1 {
      Increasing(d, s, k, p, q - 1);
      LessTransitive(d[s[p]], d[s[q - 1]], d[s[q]]);
    }
  }

  /** The position at which a sorted list holds position `x`. */
  lemma Find(s: seq<nat>, n: nat, x: nat) returns (p: nat)
    requires Positions(s, n) && x < n
    ensures p < |s| && s[p] == x
  {
    assert x in s;
    p :| 0 <= p < |s| && s[p] == x;
  }

  /** With no neighbours sharing a destination, no two positions do. */
  lemma NoClash(d: seq<string>, s: seq<nat>)
    requires Positions(s, |d|) && Ordered(d, s)
    requires forall m :: 1 <= m < |s| ==> d[s[m - 1]] != d[s[m]]
    ensures Distinct(d)
  {
    forall a, b | 0 <= a < b < |d|
      ensures d[a] != d[b]
    {
      var pa := Find(s, |d|, a);
      var pb := Find(s, |d|, b);
      if pa < pb {
        Increasing(d, s, |s|, pa, pb);
        LessIrreflexive(d[a]);
      } else {
        Increasing(d, s, |s|, pb, pa);
        LessIrreflexive(d[b]);
      }
    }
  }

  /** The first neighbours that share a destination are the clash. */
  lemma ClashFound(d: seq<string>, s: seq<nat>, k: nat)
    requires Positions(s, |d|) && Ordered(d, s) && 1 <= k < |s|
    requires forall m :: 1 <= m < k ==> d[s[m - 1]] != d[s[m]]
    requires d[s[k - 1]] == d[s[k]]
    ensures Clash(d, s[k - 1], s[k])
  {
    var i, j := s[k - 1], s[k];
    assert Before(d, i, j);
    LessIrreflexive(d[i]);
    forall m | 0 <= m < j && m != i
      ensures d[m] != d[i]
    {
      var pm := Find(s, |d|, m);
      if pm < k - 1 {
        Increasing(d, s, k, pm, k - 1);
      } else if k < pm {
        assert Before(d, j, m);
      }
    }
    forall a, b | 0 <= a < b < |d| && d[a] == d[b]
      ensures !Less(d[a], d[i])
    {
      var pa := Find(s, |d|, a);
      var pb := Find(s, |d|, b);
      if k - 1 <= pa {
        if k - 1 < pa {
          assert Before(d, i, a);
          if Less(d[a], d[i]) {
            LessTransitive(d[a], d[i], d[a]);
            LessIrreflexive(d[a]);
          }
        }
      } else if k - 1 <= pb {
        if k - 1 < pb {
          assert Before(d, i, b);
          if Less(d[b], d[i]) {
            LessTransitive(d[b], d[i], d[b]);
            LessIrreflexive(d[b]);
          }
        }
      } else {
        if pa < pb {
          Increasing(d, s, k, pa, pb);
        } else {
          Increasing(d, s, k, pb, pa);
        }
        LessIrreflexive(d[a]);
      }
    }
  }

  /** The common core of both `validate` functions: sort the positions by
      destination and scan the neighbours. */
  method FirstClash(d: seq<string>) returns (r: Option<(nat, nat)>)
    ensures r.None? <==> Distinct(d)
    ensures r.Some? ==> Clash(d, r.value.0, r.value.1)
  {
    var s := SortByDest(d);
    var k := 1;
    while k < |s|
      invariant 1 <= k
      invariant forall m :: 1 <= m < k && m < |s| ==> d[s[m - 1]] != d[s[m]]
    {
      if d[s[k - 1]] == d[s[k]] {
        ClashFound(d, s, k);
        return Some((s[k - 1], s[k]));
      }
      k := k + 1;
    }
    NoClash(d, s);
    return None;
  }

  // ---------------------------------------------------------------------
  // The two front ends

  /** The message of a failed validation: the two sources and the
      destination they share. */
  datatype DuplicateDest = DuplicateDest(first: string, second: string, dest: string)

  function Dests(entries: seq<Action>): (d: seq<string>)
    ensures |d| == |entries| && forall k :: 0 <= k < |d| ==> d[k] == entries[k].dest
  {
    seq(|entries|, k requires 0 <= k < |entries| => entries[k].dest)
  }

  /** `validate` of `src/lib.rs`: accepts exactly the entries whose
      destinations are distinct, and otherwise names the clash. */
  method Validate(entries: seq<Action>) returns (r: Result<(), DuplicateDest>)
    ensures r.Ok? <==> DistinctDests(entries)
    ensures r.Err? ==>
      exists i: nat, j: nat :: Clash(Dests(entries), i, j) && r.error == DuplicateDest(entries[i].src, entries[j].src, entries[i].dest)
  {
    var d := Dests(entries);
    var clash := FirstClash(d);
    match clash
    case None =>
      return Ok(());
    case Some((i, j)) =>
      return Err(DuplicateDest(entries[i].src, entries[j].src, entries[i].dest));
  }

  /** `validate` of `src/main.rs`, over a list of sources and the parallel
      list of their destinations; the sources are only read to name the
      clash. */
  method ValidateParallel(sources: seq<string>, destinations: seq<string>) returns (r: Result<(), DuplicateDest>)
    requires |destinations| <= |sources|
    ensures r.Ok? <==> Distinct(destinations)
    ensures r.Err? ==>
      exists i: nat, j: nat :: Clash(destinations, i, j) && r.error == DuplicateDest(sources[i], sources[j], destinations[i])
  {
    var clash := FirstClash(destinations);
    match clash
    case None =>
      return Ok(());
    case Some((i, j)) =>
      return Err(DuplicateDest(sources[i], sources[j], destinations[i]));
  }

  /** The case of `test_validation_duplicated_dest` in `src/main.rs`. */
  lemma DuplicatedDestExample()
    ensures Clash(["src/foo.rs", "src/foo.rs"], 0, 1)
    ensures !Distinct(["src/foo.rs", "src/foo.rs"])
  {
    LessIrreflexive("src/foo.rs");
  }

  /** The clash reported is not the earliest pair but the pair with the
      smallest destination: in `/z`, `/z`, `/a`, `/a` it is positions 2 and
      3. */
  lemma SmallestClashExample()
    ensures Clash(["/z", "/z", "/a", "/a"], 2, 3)
    ensures !Clash(["/z", "/z", "/a", "/a"], 0, 1)
  {
    var d := ["/z", "/z", "/a", "/a"];
    assert Less("a", "z") && !Less("z", "a");
    assert Less("/a", "/z") && !Less("/z", "/a");
    LessIrreflexive("/a");
    assert d[2] == d[3] && Less(d[2], d[0]);
  }
}
